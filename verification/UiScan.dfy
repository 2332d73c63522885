/** The scanning operations of chat.js on a bare container, and how the indexed
    timeline agrees with them. */
module UiScan {
  import opened Options
  import opened Sequences
  import opened UiRows
  import opened UiPlain
  import opened UiAdopt
  import opened UiTimeline

  datatype Selector = ById(id: string) | ByNonce(nonce: string)

  predicate Matches(sel: Selector, node: Node) {
    match sel case ById(id) => node.id == id case ByNonce(nonce) => node.nonce == Some(nonce)
  }

  /** querySelector: the position of the first match. */
  function QuerySelector(c: seq<Item>, sel: Selector): (r: Option<nat>)
    ensures r.Some? ==> r.value < |c| && c[r.value].Row? && Matches(sel, c[r.value].node)
    ensures r.Some? ==> forall i :: 0 <= i < r.value ==> !(c[i].Row? && Matches(sel, c[i].node))
    ensures r.None? ==> forall i :: 0 <= i < |c| ==> !(c[i].Row? && Matches(sel, c[i].node))
  {
    if c == [] then None
    else if c[0].Row? && Matches(sel, c[0].node) then Some(0)
    else
      var r := QuerySelector(c[1..], sel);
      assert forall i :: 1 <= i < |c| ==> c[i] == c[1..][i - 1];
      match r case None => None case Some(i) => Some(i + 1)
  }

  function Shortened(c: seq<Item>, max: nat): seq<Item> { EvictOldest(c, Excess(c, max)) }

  /** The first match replaced, or the node appended; then the oldest rows go. */
  function ScanPut(c: seq<Item>, max: nat, sel: Selector, node: Node): seq<Item> {
    var at := QuerySelector(c, sel);
    Shortened(if at.Some? then c[at.value := Row(node)] else c + [Row(node)], max)
  }

  /** String(message.id): a missing id is looked up by its text. */
  function IdText(m: Message): string { if m.id.Some? then m.id.value else "undefined" }

  class Container {
    var items: seq<Item>

    /** replaceWith on the node that was found, or append. */
    method PutInPlace(sel: Selector, node: Node)
      modifies this
      ensures var at := QuerySelector(old(items), sel);
              items == if at.Some? then old(items)[at.value := Row(node)] else old(items) + [Row(node)]
    {
      var at := QuerySelector(items, sel);
      if at.Some? {
        items := items[at.value := Row(node)];
      } else {
        items := items + [Row(node)];
      }
    }

    method TrimTimeline(max: nat)
      requires DistinctNodes(Rows(items))
      modifies this
      ensures items == Shortened(old(items), max)
    {
      var nodes := Rows(items);
      var i := 0;
      while i + max < |nodes|
        invariant i == 0 || i + max <= |nodes|
        invariant i <= |nodes| && items == EvictOldest(old(items), i)
      {
        EvictNextNode(old(items), i);
        items := Drop(items, nodes[i]);
        i := i + 1;
      }
    }

    method UpsertMessage(m: Message, uid: string, serial: nat, max: nat) returns (node: Node)
      requires LegalMax(max)
      requires DistinctNodes(Rows(items)) && NewNode(Rows(items), serial)
      modifies this
      ensures node == Node(serial, if m.id.Some? then m.id.value else uid, m.nonce, m.body)
      ensures items == ScanPut(old(items), max, ById(IdText(m)), node)
      ensures DistinctNodes(Rows(items))
    {
      node := Render(m, uid, serial);
      PutKeepsNodes(items, max, ById(IdText(m)), node);
      PutInPlace(ById(IdText(m)), node);
      TrimTimeline(max);
    }

    method ReconcileOptimistic(nonce: string, m: Message, uid: string, serial: nat, max: nat) returns (node: Node)
      requires LegalMax(max)
      requires DistinctNodes(Rows(items)) && NewNode(Rows(items), serial)
      modifies this
      ensures node == Node(serial, if m.id.Some? then m.id.value else uid, m.nonce, m.body)
      ensures items == ScanPut(old(items), max, ByNonce(nonce), node)
      ensures DistinctNodes(Rows(items))
    {
      node := Render(m, uid, serial);
      PutKeepsNodes(items, max, ByNonce(nonce), node);
      PutInPlace(ByNonce(nonce), node);
      TrimTimeline(max);
    }
  }

  ghost predicate NewNode(rows: seq<Node>, serial: nat) {
    forall r :: r in rows ==> r.serial != serial
  }

  // ---- nodes are told apart ----

  lemma {:induction false} EvictNextNode(c: seq<Item>, k: nat)
    requires k < |Rows(c)| && DistinctNodes(Rows(c))
    ensures Drop(EvictOldest(c, k), Rows(c)[k]) == EvictOldest(c, k + 1)
    decreases |c|
  {
    if c[0].Row? {
      var rest := c[1..];
      assert Rows(c)[1..] == Rows(rest);
      forall i | 0 <= i < |Rows(rest)| ensures Rows(rest)[i].serial != c[0].node.serial {
        assert Rows(c)[0].serial != Rows(c)[i + 1].serial;
      }
      if k == 0 {
        DropAbsent(rest, c[0].node);
      } else {
        forall i, j | 0 <= i < j < |Rows(rest)| ensures Rows(rest)[i].serial != Rows(rest)[j].serial {
          assert Rows(c)[i + 1].serial != Rows(c)[j + 1].serial;
        }
        EvictNextNode(rest, k - 1);
      }
    } else {
      EvictNextNode(c[1..], k);
      if k > 0 {
        assert EvictOldest(c, k)[1..] == EvictOldest(c[1..], k);
      }
    }
  }

  lemma RowsOfUpdate(c: seq<Item>, i: nat, node: Node)
    requires i < |c| && c[i].Row?
    ensures Rows(c) == Rows(c[..i]) + [c[i].node] + Rows(c[i + 1..])
    ensures Rows(c[i := Row(node)]) == Rows(c[..i]) + [node] + Rows(c[i + 1..])
  {
    assert c == c[..i] + ([c[i]] + c[i + 1..]);
    assert c[i := Row(node)] == c[..i] + ([Row(node)] + c[i + 1..]);
    RowsConcat(c[..i], [c[i]] + c[i + 1..]);
    RowsConcat(c[..i], [Row(node)] + c[i + 1..]);
  }

  lemma NewNodeDistinct(rows: seq<Node>, node: Node, k: nat)
    requires DistinctNodes(rows) && NewNode(rows, node.serial)
    ensures DistinctNodes(rows + [node])
    ensures k < |rows| ==> DistinctNodes(rows[k := node])
  {
    assert forall i :: 0 <= i < |rows| ==> rows[i] in rows && rows[i].serial != node.serial;
  }

  lemma PutKeepsNodes(c: seq<Item>, max: nat, sel: Selector, node: Node)
    requires DistinctNodes(Rows(c)) && NewNode(Rows(c), node.serial)
    ensures var at := QuerySelector(c, sel);
            DistinctNodes(Rows(if at.Some? then c[at.value := Row(node)] else c + [Row(node)]))
    ensures DistinctNodes(Rows(ScanPut(c, max, sel, node)))
  {
    hide DistinctNodes, NewNode, EvictOldest;
    var at, rows := QuerySelector(c, sel), Rows(c);
    var put := if at.Some? then c[at.value := Row(node)] else c + [Row(node)];
    if at.Some? {
      var before, after := Rows(c[..at.value]), Rows(c[at.value + 1..]);
      RowsOfUpdate(c, at.value, node);
      NewNodeDistinct(rows, node, |before|);
      UpdatedMiddle(before, c[at.value].node, after, node);
    } else {
      NewNodeDistinct(rows, node, 0);
      RowsConcat(c, [Row(node)]);
      assert Rows([Row(node)]) == [node];
    }
    RowsOfEvict(put, Excess(put, max));
    LastDistinct(Rows(put), Excess(put, max));
  }

  lemma UpdatedMiddle<T>(a: seq<T>, x: T, b: seq<T>, y: T)
    ensures (a + [x] + b)[|a| := y] == a + [y] + b
  {
  }

  lemma LastDistinct(rows: seq<Node>, k: nat)
    requires DistinctNodes(rows) && k <= |rows|
    ensures DistinctNodes(rows[k..])
  {
  }

  // ---- the timeline against the scan ----

  lemma {:induction false} FirstIsOnly(c: seq<Item>, id: string, node: Node)
    requires DistinctIds(Rows(c))
    ensures var at := QuerySelector(c, ById(id));
            && at.Some? == HasId(Rows(c), id)
            && (at.Some? ==> ReplaceRow(c, id, node) == c[at.value := Row(node)])
    decreases |c|
  {
    if c != [] {
      HeadOrRest(c, id);
      if c[0].Row? {
        assert Rows(c)[1..] == Rows(c[1..]);
        if c[0].node.id == id {
          forall x | x in Rows(c[1..]) ensures x.id != id {
            var j :| 0 <= j < |Rows(c[1..])| && Rows(c[1..])[j] == x;
            assert Rows(c)[0].id != Rows(c)[j + 1].id;
          }
          ReplaceNobody(c[1..], id, node);
        } else {
          TailDistinct(Rows(c));
          FirstIsOnly(c[1..], id, node);
        }
      } else {
        FirstIsOnly(c[1..], id, node);
      }
    }
  }

  lemma TailDistinct(rows: seq<Node>)
    requires DistinctIds(rows) && rows != []
    ensures DistinctIds(rows[1..])
  {
  }

  /** A message with an id and no row waiting for its nonce elsewhere: the indexed
      upsert leaves the children that the scanning upsert leaves. */
  lemma UpsertIsScan(c: seq<Item>, max: nat, id: string, twin: Option<string>, node: Node)
    requires DistinctIds(Rows(c))
    requires twin.None? || (twin == Some(id) && HasId(Rows(c), id))
    ensures SpecUpsert(c, max, Some(id), twin, node) == ScanPut(c, max, ById(id), node)
  {
    FirstIsOnly(c, id, node);
  }

  /** The confirmed form of an optimistic message: the indexed upsert does what
      reconcileOptimistic does, when the confirmed id is not yet shown. */
  lemma UpsertIsReconcile(c: seq<Item>, max: nat, id: string, nonce: string, node: Node)
    requires DistinctIds(Rows(c)) && !HasId(Rows(c), id)
    ensures SpecUpsert(c, max, Some(id), ScanNonce(Rows(c), Some(nonce)), node)
            == ScanPut(c, max, ByNonce(nonce), node)
  {
    NonceAt(c, nonce);
    var twin := ScanNonce(Rows(c), Some(nonce));
    if twin.Some? {
      FirstIsOnly(c, twin.value, node);
      var at, also := QuerySelector(c, ById(twin.value)).value, QuerySelector(c, ByNonce(nonce)).value;
      RowsOfUpdate(c, also, node);
      assert Rows(c)[|Rows(c[..also])|].id == twin.value;
      OneRowOfAnId(c, at, also);
    }
  }

  lemma {:induction false} NonceAt(c: seq<Item>, nonce: string)
    ensures var at, twin := QuerySelector(c, ByNonce(nonce)), ScanNonce(Rows(c), Some(nonce));
            at.Some? == twin.Some? && (at.Some? ==> c[at.value].node.id == twin.value)
    decreases |c|
  {
    if c != [] {
      NonceAt(c[1..], nonce);
    }
  }

  lemma OneRowOfAnId(c: seq<Item>, i: nat, j: nat)
    requires DistinctIds(Rows(c)) && i < |c| && j < |c| && c[i].Row? && c[j].Row? && c[i].node.id == c[j].node.id
    ensures i == j
  {
    if i < j {
      TwoRows(c, i, j);
    } else if j < i {
      TwoRows(c, j, i);
    }
  }

  lemma TwoRows(c: seq<Item>, i: nat, j: nat)
    requires i < j < |c| && c[i].Row? && c[j].Row?
    ensures exists a, b :: 0 <= a < b < |Rows(c)| && Rows(c)[a] == c[i].node && Rows(c)[b] == c[j].node
  {
    RowsOfUpdate(c, i, c[i].node);
    var rest := c[i + 1..];
    RowsOfUpdate(rest, j - i - 1, c[j].node);
    var a := |Rows(c[..i])|;
    var b := a + 1 + |Rows(rest[..j - i - 1])|;
    assert Rows(c)[a] == c[i].node && Rows(c)[b] == c[j].node;
  }

  // ---- over a whole run ----

  /** Messages with an id and without a nonce, as upserted one after the other. */
  datatype Plain = Plain(id: string, body: string, serial: nat)

  function AsPut(p: Plain): Operation {
    Put(Message(Some(p.id), None, p.body), p.id, p.serial)
  }

  function AsPuts(ps: seq<Plain>): seq<Operation> {
    seq(|ps|, i requires 0 <= i < |ps| => AsPut(ps[i]))
  }

  function ScanRun(c: seq<Item>, max: nat, ps: seq<Plain>): seq<Item>
    decreases |ps|
  {
    if ps == [] then c
    else ScanRun(ScanPut(c, max, ById(ps[0].id), Node(ps[0].serial, ps[0].id, None, ps[0].body)), max, ps[1..])
  }

  /** From distinct ids, any run of such upserts leaves the same children through the
      indexes and through the scan. */
  lemma {:induction false} RunsAgree(c: seq<Item>, max: nat, ps: seq<Plain>)
    requires DistinctIds(Rows(c))
    ensures PlainRun(c, max, AsPuts(ps)) == ScanRun(c, max, ps) && FreshIds(c, max, AsPuts(ps))
    decreases |ps|
  {
    if ps != [] {
      var node := Node(ps[0].serial, ps[0].id, None, ps[0].body);
      UpsertIsScan(c, max, ps[0].id, None, node);
      SpecUpsertKeeps(c, max, Some(ps[0].id), None, node);
      assert AsPuts(ps)[1..] == AsPuts(ps[1..]);
      RunsAgree(PlainStep(c, max, AsPut(ps[0])), max, ps[1..]);
    }
  }

  /** createTimeline followed by any run of such upserts, against the scan run on the
      same container. */
  method TimelineAgrees(items: seq<Item>, max: nat, ps: seq<Plain>) returns (timeline: Timeline)
    requires LegalMax(max) && DistinctNodes(Rows(items)) && DistinctIds(Rows(items)) && |Rows(items)| <= max
    ensures timeline.container == ScanRun(items, max, ps)
  {
    timeline := new Timeline(items, max);
    KeepLastKeepsAll(items);
    RunsAgree(items, max, ps);
    timeline.Apply(AsPuts(ps));
  }
}
