/** What the timeline is for, on a plain list of rows and separators: upsert, remove
    and clear, with every row looked at, and whole runs of them. */
module UiPlain {
  import opened Options
  import opened Sequences
  import opened UiRows

  /** Upsert on a plain list.  A row of the message's own id is the one to replace,
      or else the row its nonce leads to (twin, if any); a twin that is another row
      goes; a new row goes to the end; the oldest rows beyond max go. */
  function SpecUpsert(c: seq<Item>, max: nat, id: Option<string>, twin: Option<string>, node: Node): seq<Item> {
    var target := TargetOf(c, id, twin);
    var put := PutRow(TwinDropped(c, target, twin), target, node);
    EvictOldest(put, Excess(put, max))
  }

  /** The row a nonce leads to, found by looking at every row. */
  function ScanNonce(rows: seq<Node>, nonce: Option<string>): (r: Option<string>)
    ensures r.Some? ==> nonce.Some? && exists i :: 0 <= i < |rows| && rows[i].id == r.value && rows[i].nonce == nonce
    ensures r.None? && nonce.Some? ==> forall i :: 0 <= i < |rows| ==> rows[i].nonce != nonce
  {
    if rows == [] || nonce.None? then None
    else if rows[0].nonce == nonce then Some(rows[0].id)
    else
      var r := ScanNonce(rows[1..], nonce);
      assert forall i :: 0 <= i < |rows[1..]| ==> rows[1..][i] == rows[i + 1];
      assert r.None? ==> forall i :: 1 <= i < |rows| ==> rows[i] == rows[1..][i - 1];
      r
  }

  /** One call on a timeline; uid and serial are what rendering generates. */
  datatype Operation = Put(message: Message, uid: string, serial: nat) | Remove(id: string) | Clear

  function PlainStep(c: seq<Item>, max: nat, op: Operation): seq<Item> {
    match op
    case Put(m, uid, serial) => SpecUpsert(c, max, m.id, ScanNonce(Rows(c), m.nonce), Render(m, uid, serial))
    case Remove(id) => DropRow(c, id)
    case Clear => Separators(c)
  }

  function PlainRun(c: seq<Item>, max: nat, ops: seq<Operation>): seq<Item>
    decreases |ops|
  {
    if ops == [] then c else PlainRun(PlainStep(c, max, ops[0]), max, ops[1..])
  }

  /** A generated id is not that of a row. */
  predicate FreshId(c: seq<Item>, op: Operation) {
    op.Put? && op.message.id.None? ==> !HasId(Rows(c), op.uid)
  }

  predicate FreshIds(c: seq<Item>, max: nat, ops: seq<Operation>)
    decreases |ops|
  {
    ops == [] || (FreshId(c, ops[0]) && FreshIds(PlainStep(c, max, ops[0]), max, ops[1..]))
  }

  predicate WithoutNonces(ops: seq<Operation>) {
    forall i :: 0 <= i < |ops| && ops[i].Put? ==> ops[i].message.nonce.None?
  }

  // ---- what every run keeps ----

  /** The row of a message has its id, or a generated one no row has. */
  predicate Named(c: seq<Item>, id: Option<string>, node: Node) {
    if id.Some? then node.id == id.value else !HasId(Rows(c), node.id)
  }

  /** The row to replace, and the container without a twin under another id. */
  function TargetOf(c: seq<Item>, id: Option<string>, twin: Option<string>): Option<string> {
    if id.Some? && HasId(Rows(c), id.value) then id else twin
  }

  function TwinDropped(c: seq<Item>, target: Option<string>, twin: Option<string>): seq<Item> {
    if twin.Some? && twin != target then DropRow(c, twin.value) else c
  }

  lemma TwinDroppedKeeps(c: seq<Item>, target: Option<string>, twin: Option<string>)
    ensures var d := TwinDropped(c, target, twin);
            && Separators(d) == Separators(c)
            && (DistinctIds(Rows(c)) ==> DistinctIds(Rows(d)))
            && (forall r :: r in Rows(d) ==> r in Rows(c))
  {
    if twin.Some? {
      RowsOfDropRow(c, twin.value);
      if DistinctIds(Rows(c)) {
        WithoutDistinct(Rows(c), twin.value);
      }
    }
  }

  /** The node in the place of its target, or at the end. */
  function PutRow(c: seq<Item>, target: Option<string>, node: Node): seq<Item> {
    if target.Some? then ReplaceRow(c, target.value, node) else c + [Row(node)]
  }

  lemma PutRowKeeps(c: seq<Item>, target: Option<string>, node: Node)
    ensures var d := PutRow(c, target, node);
            && Separators(d) == Separators(c)
            && (DistinctIds(Rows(c)) && (target == Some(node.id) || !HasId(Rows(c), node.id)) ==> DistinctIds(Rows(d)))
  {
    if target.Some? {
      RowsOfReplaceRow(c, target.value, node);
      if DistinctIds(Rows(c)) && (node.id == target.value || !HasId(Rows(c), node.id)) {
        ReplacedDistinct(Rows(c), target.value, node);
      }
    } else {
      RowsConcat(c, [Row(node)]);
      assert Rows([Row(node)]) == [node] && Separators([Row(node)]) == [];
    }
  }

  lemma TrimmedKeeps(c: seq<Item>, max: nat)
    ensures var d := EvictOldest(c, Excess(c, max));
            && Separators(d) == Separators(c) && |Rows(d)| <= max
            && (DistinctIds(Rows(c)) ==> DistinctIds(Rows(d)))
  {
    RowsOfEvict(c, Excess(c, max));
  }

  /** Where a row with the id stands, or that none does. */
  ghost predicate Stands(rows: seq<Node>, id: Option<string>, at: Option<nat>) {
    if id.None? then at.None? else at.Some? && at.value < |rows| && rows[at.value].id == id.value
  }

  /** The rows an upsert leaves, by position.  The row to replace is the one with the
      message's id, or else the one its nonce leads to; at is where it stands.  If the
      nonce leads to another row, which stands at other, that one goes.  The new row takes
      the place of the one it replaces, or goes to the end; of more than max rows the last
      max stay. */
  lemma UpsertRows(c: seq<Item>, max: nat, id: Option<string>, twin: Option<string>, node: Node,
                   at: Option<nat>, other: Option<nat>)
    requires DistinctIds(Rows(c))
    requires Stands(Rows(c), if id.Some? && HasId(Rows(c), id.value) then id else twin, at)
    requires Stands(Rows(c), if id.Some? && HasId(Rows(c), id.value) && twin != id then twin else None, other)
    ensures var rows := Rows(c);
            var put := if at.Some? then rows[at.value := node] else rows + [node];
            var left := if other.Some? then put[..other.value] + put[other.value + 1..] else put;
            Rows(SpecUpsert(c, max, id, twin, node)) == if |left| > max then left[|left| - max..] else left
  {
    hide DistinctIds, HasId, Rows, EvictOldest, DropRow, ReplaceRow, Replaced, Without;
    var rows, target := Rows(c), TargetOf(c, id, twin);
    var c1 := TwinDropped(c, target, twin);
    var c2 := PutRow(c1, target, node);
    var put := if at.Some? then rows[at.value := node] else rows + [node];
    if other.Some? {
      RowsOfDropRow(c, twin.value);
      RowsOfReplaceRow(c1, target.value, node);
      DroppedAndReplaced(rows, at.value, other.value, node);
    } else if at.Some? {
      RowsOfReplaceRow(c, target.value, node);
      ReplacedAt(rows, at.value, node);
    } else {
      RowsConcat(c, [Row(node)]);
      OneRow(node);
    }
    RowsOfEvict(c2, Excess(c2, max));
  }

  lemma DroppedAndReplaced(rows: seq<Node>, at: nat, other: nat, node: Node)
    requires DistinctIds(rows) && at < |rows| && other < |rows| && rows[at].id != rows[other].id
    ensures Replaced(Without(rows, rows[other].id), rows[at].id, node)
            == rows[at := node][..other] + rows[at := node][other + 1..]
  {
    hide Without, Replaced;
    WithoutAt(rows, other);
    WithoutDistinct(rows, rows[other].id);
    var left, k := rows[..other] + rows[other + 1..], if at < other then at else at - 1;
    assert left[k] == rows[at];
    ReplacedAt(left, k, node);
    assert left[k := node] == rows[at := node][..other] + rows[at := node][other + 1..];
  }

  lemma OneRow(node: Node)
    ensures Rows([Row(node)]) == [node]
  {
  }

  lemma SpecUpsertKeeps(c: seq<Item>, max: nat, id: Option<string>, twin: Option<string>, node: Node)
    ensures var after := SpecUpsert(c, max, id, twin, node);
            && Separators(after) == Separators(c) && |Rows(after)| <= max
            && (DistinctIds(Rows(c)) && Named(c, id, node) ==> DistinctIds(Rows(after)))
  {
    hide DistinctIds, Rows, Separators, EvictOldest, Excess, DropRow, ReplaceRow;
    var target := TargetOf(c, id, twin);
    var c1 := TwinDropped(c, target, twin);
    TwinDroppedKeeps(c, target, twin);
    PutRowKeeps(c1, target, node);
    TrimmedKeeps(PutRow(c1, target, node), max);
    if Named(c, id, node) && HasId(Rows(c1), node.id) {
      var i :| 0 <= i < |Rows(c1)| && Rows(c1)[i].id == node.id;
      assert Rows(c1)[i] in Rows(c);
      assert HasId(Rows(c), node.id);
    }
  }

  lemma {:induction false} WithoutDistinct(rows: seq<Node>, id: string)
    requires DistinctIds(rows)
    ensures DistinctIds(Without(rows, id))
    decreases |rows|
  {
    if rows != [] {
      WithoutDistinct(rows[1..], id);
      var left := Without(rows[1..], id);
      forall i | 0 <= i < |left| ensures left[i].id != rows[0].id {
        assert left[i] in rows[1..];
      }
    }
  }

  lemma ReplacedDistinct(rows: seq<Node>, id: string, node: Node)
    requires DistinctIds(rows) && (node.id == id || !HasId(rows, node.id))
    ensures DistinctIds(Replaced(rows, id, node))
  {
    if i :| 0 <= i < |rows| && rows[i].id == id {
      ReplacedAt(rows, i, node);
    } else {
      ReplacedNobody(rows, id, node);
    }
  }

  /** No run of operations removes, adds or reorders a separator. */
  lemma {:induction false} RunsKeepSeparators(c: seq<Item>, max: nat, ops: seq<Operation>)
    ensures Separators(PlainRun(c, max, ops)) == Separators(c)
    decreases |ops|
  {
    if ops != [] {
      match ops[0] {
        case Put(m, uid, serial) =>
          SpecUpsertKeeps(c, max, m.id, ScanNonce(Rows(c), m.nonce), Render(m, uid, serial));
        case Remove(id) => RowsOfDropRow(c, id);
        case Clear => SeparatorsOnly(c);
      }
      RunsKeepSeparators(PlainStep(c, max, ops[0]), max, ops[1..]);
    }
  }

  lemma {:induction false} SeparatorsOnly(c: seq<Item>)
    ensures Rows(Separators(c)) == [] && Separators(Separators(c)) == Separators(c)
    ensures Rows(c) == [] ==> Separators(c) == c
    decreases |c|
  {
    if c != [] {
      SeparatorsOnly(c[1..]);
    }
  }

  /** Evicting every row leaves the separators. */
  lemma EvictAll(c: seq<Item>)
    ensures EvictOldest(c, |Rows(c)|) == Separators(c)
  {
    RowsOfEvict(c, |Rows(c)|);
    SeparatorsOnly(EvictOldest(c, |Rows(c)|));
  }

  /** The row just put in is there: it is never the one evicted. */
  lemma PutIsThere(c: seq<Item>, max: nat, id: Option<string>, twin: Option<string>, node: Node)
    requires |Rows(c)| <= max && max >= 1
    requires twin.Some? ==> HasId(Rows(c), twin.value)
    ensures node in Rows(SpecUpsert(c, max, id, twin, node))
  {
    var target := TargetOf(c, id, twin);
    var c1 := TwinDropped(c, target, twin);
    var c2 := PutRow(c1, target, node);
    if twin.Some? {
      RowsOfDropRow(c, twin.value);
      WithoutShorter(Rows(c), twin.value);
    }
    if target.Some? {
      var i :| 0 <= i < |Rows(c)| && Rows(c)[i].id == target.value;
      assert Rows(c)[i] in Rows(c1);
      RowsOfReplaceRow(c1, target.value, node);
      ReplacedHas(Rows(c1), target.value, node);
    } else {
      RowsConcat(c1, [Row(node)]);
      assert Rows([Row(node)]) == [node];
      assert Rows(c2)[|Rows(c2)| - 1] == node;
    }
    RowsOfEvict(c2, Excess(c2, max));
  }

  lemma {:induction false} WithoutShorter(rows: seq<Node>, id: string)
    ensures |Without(rows, id)| <= |rows|
    decreases |rows|
  {
    if rows != [] {
      WithoutShorter(rows[1..], id);
    }
  }

  lemma {:induction false} ReplacedHas(rows: seq<Node>, id: string, node: Node)
    requires exists r :: r in rows && r.id == id
    ensures node in Replaced(rows, id, node) && |Replaced(rows, id, node)| == |rows|
    decreases |rows|
  {
    ReplacedLength(rows, id, node);
    if rows[0].id == id {
      assert Replaced(rows, id, node)[0] == node;
    } else {
      var r :| r in rows && r.id == id;
      assert r in rows[1..];
      ReplacedHas(rows[1..], id, node);
    }
  }

  lemma {:induction false} ReplacedLength(rows: seq<Node>, id: string, node: Node)
    ensures |Replaced(rows, id, node)| == |rows|
    decreases |rows|
  {
    if rows != [] {
      ReplacedLength(rows[1..], id, node);
    }
  }
}
