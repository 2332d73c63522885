/** createTimeline: message rows kept in a container under two indexes. */
module UiTimeline {
  import opened Options
  import opened Sequences
  import opened OrderedMap
  import opened UiRows
  import opened UiIndex
  import opened UiPlain
  import opened UiAdopt

  class Timeline {
    const max: nat
    var container: seq<Item>
    var messages: Entries<string, Node>
    var nonces: map<string, string>
    var destroyed: bool

    ghost function View(): Index reads this { Index(messages, nonces, container) }

    ghost predicate Valid() reads this {
      && LegalMax(max)
      && if destroyed then messages == [] && nonces == map[]
         else Linked(View()) && |messages| <= max
    }

    /** createTimeline over a container that may hold rows already: of rows with one
        id the last stays, then the oldest beyond max go.  Afterwards every row's nonce
        is indexed exactly when no later row of the document carried it too. */
    constructor (items: seq<Item>, max: nat)
      requires LegalMax(max) && DistinctNodes(Rows(items))
      ensures Valid() && !destroyed && this.max == max
      ensures container == EvictOldest(KeepLast(items), Excess(KeepLast(items), max))
      ensures IndexedExactly(Rows(items), Rows(container), nonces)
      ensures Coherent(View()) <==> LastOfTheirNonce(Rows(items), Rows(container))
    {
      this.max, container, messages, nonces, destroyed := max, items, [], map[], false;
      new;
      hide Adopting, LastOfTheirNonce, IndexedExactly, KeepLast, EvictOldest, Live;
      ghost var done := AdoptAll();
      AdoptedAll(items, done, View());
      ghost var all := View();
      Trim();
      CoherentExactly(items, done, all, View());
    }

    /** The adoption loop over the rows found. */
    method AdoptAll() returns (ghost done: seq<Node>)
      requires messages == [] && nonces == map[] && DistinctNodes(Rows(container))
      modifies `messages, `nonces, `container
      ensures Adopting(old(container), |Rows(old(container))|, done, View())
    {
      hide Adopting;
      var found := Rows(container);
      ghost var items := container;
      done := [];
      AdoptNothing(items, View());
      for k := 0 to |found|
        invariant Adopting(items, k, done, View())
      {
        AdoptRow(items, k, done, View());
        Adopt(found[k], done);
        done := AdoptedRows(done, found[k]);
      }
    }

    /** One row is adopted; an earlier row of its id goes. */
    method Adopt(node: Node, ghost done: seq<Node>)
      requires messages == Keyed(done) && DistinctIds(done)
      modifies `messages, `nonces, `container
      ensures View() == Adopted(old(View()), Get(Keyed(done), node.id), node)
    {
      KeyedFind(done, node.id);
      var known := Get(messages, node.id);
      if known.Some? {
        Forget(node.id, known.value);
        container := Drop(container, known.value);
      }
      Remember(node);
    }

    method Forget(id: string, node: Node)
      requires id == node.id
      modifies `messages, `nonces
      ensures messages == Delete(old(messages), id) && nonces == ForgetNonce(old(nonces), node)
    {
      messages := Delete(messages, id);
      if node.nonce.Some? && Lookup(nonces, node.nonce) == Some(id) {
        nonces := nonces - {node.nonce.value};
      }
    }

    method Remember(node: Node)
      modifies `messages, `nonces
      ensures messages == Set(old(messages), node.id, node) && nonces == RememberNonce(old(nonces), node)
    {
      messages := Set(messages, node.id, node);
      if node.nonce.Some? {
        nonces := nonces[node.nonce.value := node.id];
      }
    }

    /** A row leaves both indexes and the container. */
    method Discard(node: Node)
      requires Linked(View()) && node in Rows(container)
      modifies `messages, `nonces, `container
      ensures Linked(View()) && container == DropRow(old(container), node.id)
      ensures old(Coherent(View())) ==> Coherent(View())
      ensures View() == Forgotten(old(View()), node)
    {
      ForgottenLinked(View(), node);
      Forget(node.id, node);
      container := Drop(container, node);
    }

    /** Evicts the oldest rows until max are left. */
    method Trim()
      requires Linked(View())
      modifies `messages, `nonces, `container
      ensures Linked(View()) && |messages| <= max
      ensures container == EvictOldest(old(container), Excess(old(container), max))
      ensures forall r :: r in Rows(container) ==> r in old(Rows(container))
      ensures SameAnswers(Rows(container), old(nonces), nonces)
      ensures old(Coherent(View())) ==> Coherent(View())
    {
      ghost var x, k := View(), 0;
      while |messages| > max
        invariant Trimmed(x, k, View()) && (k == 0 || |messages| >= max)
        decreases |messages|
      {
        var (_, node) := messages[0];
        TrimStep(x, k, View());
        Discard(node);
        k := k + 1;
      }
    }

    /** An optimistic twin under another id gives way to the row that stays. */
    method DropTwin(oldId: Option<string>, nonce: Option<string>)
      requires Linked(View()) && |messages| <= max
      modifies `messages, `nonces, `container
      ensures Linked(View()) && |messages| <= max
      ensures old(Coherent(View())) ==> Coherent(View())
      ensures var twin := old(Lookup(nonces, nonce));
              if twin.None? || twin == oldId then
                View() == old(View())
              else
                && container == DropRow(old(container), twin.value) && Lookup(nonces, nonce) == None
                && forall n :: n in Rows(container) <==> n in old(Rows(container)) && n.id != twin.value
    {
      var twin := Lookup(nonces, nonce);
      if twin.Some? && twin != oldId {
        LookupIsARow(View(), nonce);
        ghost var x := View();
        KeyedFind(Rows(container), twin.value);
        var duplicate := Get(messages, twin.value).value;
        assert IsLive(Rows(container), nonce.value, twin.value);
        Discard(duplicate);
        RowsOfDropRow(x.container, twin.value);
      }
    }

    /** Replaces or appends, once the row to replace is known. */
    method Place(prior: Option<Node>, node: Node)
      requires Linked(View())
      requires prior.Some? ==> prior.value in Rows(container)
      requires prior.None? || prior.value.id != node.id ==> !HasId(Rows(container), node.id)
      requires prior.Some? && prior.value.id != node.id ==> Lookup(nonces, node.nonce) == Some(prior.value.id)
      modifies `messages, `nonces, `container
      ensures Linked(View())
      ensures container == if prior.Some? then ReplaceRow(old(container), prior.value.id, node)
                           else old(container) + [Row(node)]
      ensures var twin := Lookup(old(nonces), node.nonce);
              old(Coherent(View())) && (twin.None? || (prior.Some? && twin.value == prior.value.id)) ==> Coherent(View())
    {
      ghost var x := View();
      match prior
      case None =>
        AppendedLinked(x, node);
        container := container + [Row(node)];
        Remember(node);
      case Some(was) =>
        if was.id == node.id {
          ReplacedSameLinked(x, was, node);
          if was.nonce.Some? {
            nonces := nonces - {was.nonce.value};
          }
          messages := Set(messages, was.id, node);
          if node.nonce.Some? {
            nonces := nonces[node.nonce.value := was.id];
          }
        } else {
          ReplacedOtherLinked(x, was, node);
          Rebuild(was, node);
        }
        container := Swap(container, was, node);
    }

    /** The id index is rebuilt so that the new id takes the old one's place. */
    method Rebuild(was: Node, node: Node)
      requires Linked(View()) && was in Rows(container) && !HasId(Rows(container), node.id)
      modifies `messages, `nonces
      ensures messages == Rekeyed(old(messages), was.id, node)
      ensures nonces == RememberNonce(ForgetNonce(old(nonces), was), node)
    {
      hide Linked, HasId, Set, ForgetNonce, Rekeyed, DistinctKeys;
      var entries := messages;
      ghost var at := RebuildPlace(View(), was, node);
      Forget(was.id, was);
      messages := [];
      ghost var forgotten := nonces;
      RekeyedNone(entries, was.id, node);
      for i := 0 to |entries|
        invariant messages == Rekeyed(entries[..i], was.id, node)
        invariant nonces == if i <= at then forgotten else RememberNonce(forgotten, node)
      {
        var (key, value) := entries[i];
        RekeyedFresh(entries, i, was.id, node);
        if key == was.id {
          Remember(node);
        } else {
          messages := Set(messages, key, value);
        }
      }
      if node.nonce.Some? {
        nonces := nonces[node.nonce.value := node.id];
      }
    }

    /** The row a message is to replace: the one of its id, else the one of its nonce. */
    method Known(m: Message) returns (oldId: Option<string>, prior: Option<Node>)
      requires Linked(View())
      ensures oldId == TargetOf(container, m.id, Lookup(nonces, m.nonce)) && prior.Some? == oldId.Some?
      ensures prior.Some? ==> prior.value in Rows(container) && prior.value.id == oldId.value
    {
      ghost var rows := Rows(container);
      LookupIsARow(View(), m.nonce);
      if m.id.Some? {
        KeyedFind(rows, m.id.value);
      }
      var known := m.id.Some? && Has(messages, m.id.value);
      oldId := if known then m.id else Lookup(nonces, m.nonce);
      prior := None;
      if oldId.Some? {
        KeyedFind(rows, oldId.value);
        prior := Get(messages, oldId.value);
      }
    }

    /** upsert (and append): throws after destroy (no node); otherwise the container
        becomes what the plain list operation makes of it. */
    method Upsert(m: Message, uid: string, serial: nat) returns (node: Option<Node>)
      requires Valid()
      requires m.id.None? && !destroyed ==> !HasId(Rows(container), uid)
      modifies `messages, `nonces, `container
      ensures Valid() && node.Some? == !destroyed
      ensures destroyed ==> container == old(container)
      ensures !destroyed ==>
                && node.value == Node(serial, if m.id.Some? then m.id.value else uid, m.nonce, m.body)
                && container == SpecUpsert(old(container), max, m.id, Lookup(old(nonces), m.nonce), node.value)
                && (old(Coherent(View())) ==> Coherent(View()))
                && node.value in Rows(container)
                && (m.nonce.Some? && old(Coherent(View())) ==> OnlyOneWith(Rows(container), node.value))
    {
      if destroyed {
        return None;
      }
      hide Rows, Linked, Coherent, HasId, DropRow, ReplaceRow, EvictOldest;
      ghost var x := View();
      LookupIsARow(x, m.nonce);
      var oldId, prior := Known(m);
      DropTwin(oldId, m.nonce);
      var fresh_ := Render(m, uid, serial);
      FewerIds(Rows(x.container), Rows(container), fresh_.id);
      Place(prior, fresh_);
      Trim();
      node := Some(fresh_);
      PutIsThere(x.container, max, m.id, Lookup(x.nonces, m.nonce), fresh_);
      if m.nonce.Some? && Coherent(x) {
        NonceTellsApart(View(), fresh_);
      }
    }

    /** get: the row of an id, or none; none after destroy. */
    method Look(id: string) returns (node: Option<Node>)
      requires Valid()
      ensures node.Some? ==> node.value in Rows(container) && node.value.id == id
      ensures node.None? <==> destroyed || !HasId(Rows(container), id)
    {
      node := Get(messages, id);
      if !destroyed {
        KeyedFind(Rows(container), id);
        if i :| 0 <= i < |Rows(container)| && Rows(container)[i].id == id {
          assert node == Some(Rows(container)[i]);
        }
      }
    }

    /** remove: true when there was such a row, which is then gone. */
    method Remove(id: string) returns (removed: bool)
      requires Valid()
      modifies `messages, `nonces, `container
      ensures Valid()
      ensures removed == (!destroyed && old(HasId(Rows(container), id)))
      ensures container == if destroyed then old(container) else DropRow(old(container), id)
      ensures !destroyed && old(Coherent(View())) ==> Coherent(View())
    {
      if !Has(messages, id) {
        if !destroyed {
          KeyedFind(Rows(container), id);
          assert forall x :: x in Rows(container) ==> x.id != id;
          DropNobody(container, id);
        }
        return false;
      }
      KeyedFind(Rows(container), id);
      ForgottenLinked(View(), Get(messages, id).value);
      Discard(Get(messages, id).value);
      return true;
    }

    /** clear: every row goes, the separators stay. */
    method Clear()
      requires Valid()
      modifies `messages, `nonces, `container
      ensures Valid() && messages == [] && nonces == map[]
      ensures container == if destroyed then old(container) else Separators(old(container))
      ensures !destroyed ==> Coherent(View())
    {
      ghost var c := container;
      for i := 0 to |messages|
        invariant !destroyed ==> container == EvictOldest(c, i)
        invariant messages == old(messages) && (destroyed ==> container == c)
      {
        EvictOneMore(c, i);
        RowsOfEvict(c, i);
        var node := messages[i].1;
        LaterRowsDistinct(c, i);
        DropIsDropRow(container, node);
        container := Drop(container, node);
      }
      EvictAll(c);
      if !destroyed {
        RowsOfEvict(c, |Rows(c)|);
      }
      messages := [];
      nonces := map[];
    }

    /** destroy: the rows stay in the container, the timeline lets go of them. */
    method Destroy()
      requires LegalMax(max)
      modifies `messages, `nonces, `destroyed
      ensures Valid() && destroyed
    {
      destroyed := true;
      messages := [];
      nonces := map[];
    }

    /** A run of calls leaves what the plain list operations leave. */
    method Apply(ops: seq<Operation>)
      requires Valid() && !destroyed && FreshIds(container, max, ops)
      requires Coherent(View()) || WithoutNonces(ops)
      modifies `messages, `nonces, `container
      ensures Valid() && container == PlainRun(old(container), max, ops)
      ensures old(Coherent(View())) ==> Coherent(View())
    {
      for i := 0 to |ops|
        invariant Valid() && FreshIds(container, max, ops[i..])
        invariant old(Coherent(View())) ==> Coherent(View())
        invariant PlainRun(container, max, ops[i..]) == PlainRun(old(container), max, ops)
      {
        assert ops[i..][0] == ops[i] && ops[i..][1..] == ops[i + 1..];
        match ops[i] {
          case Put(m, uid, serial) =>
            if m.nonce.Some? {
              LookupIsScan(View(), m.nonce);
            }
            var _ := Upsert(m, uid, serial);
          case Remove(id) =>
            var _ := Remove(id);
          case Clear =>
            Clear();
        }
      }
    }
  }

  /** The k oldest rows of x have been evicted. */
  ghost predicate Trimmed(x: Index, k: nat, y: Index) {
    && k <= |Rows(x.container)| && Linked(y)
    && y.container == EvictOldest(x.container, k) && Rows(y.container) == Rows(x.container)[k..]
    && SameAnswers(Rows(y.container), x.nonces, y.nonces)
  }

  lemma TrimStep(x: Index, k: nat, y: Index)
    requires Trimmed(x, k, y) && DistinctIds(Rows(x.container)) && k < |Rows(x.container)|
    ensures var node := Rows(x.container)[k];
            && y.messages != [] && y.messages[0] == (node.id, node) && node in Rows(y.container)
            && Trimmed(x, k + 1, Forgotten(y, node))
  {
    hide Coherent, Live;
    var rows, node := Rows(x.container), Rows(x.container)[k];
    assert node == Rows(y.container)[0] && y.messages[0] == (node.id, node);
    ForgottenLinked(y, node);
    EvictOneMore(x.container, k);
    RowsOfEvict(x.container, k + 1);
    OthersAnswered(rows, k, x.nonces, y.nonces);
  }

  /** Forgetting the nonce of the first of some rows changes no answer for the others. */
  lemma OthersAnswered(rows: seq<Node>, k: nat, before: map<string, string>, after: map<string, string>)
    requires DistinctIds(rows) && k < |rows| && SameAnswers(rows[k..], before, after)
    ensures SameAnswers(rows[k + 1..], before, ForgetNonce(after, rows[k]))
  {
    forall r | r in rows[k + 1..] ensures r in rows[k..] && r.id != rows[k].id {
      var i :| k + 1 <= i < |rows| && rows[i] == r;
      assert rows[k..][i - k] == r;
    }
  }

  ghost predicate OnlyOneWith(rows: seq<Node>, node: Node) {
    forall r :: r in rows && r.nonce == node.nonce ==> r == node
  }

  lemma FewerIds(a: seq<Node>, b: seq<Node>, id: string)
    requires forall n :: n in b ==> n in a
    ensures HasId(b, id) ==> HasId(a, id)
  {
    if i :| 0 <= i < |b| && b[i].id == id {
      assert b[i] in a;
    }
  }

  lemma NonceTellsApart(x: Index, node: Node)
    requires Linked(x) && Coherent(x) && node in Rows(x.container) && node.nonce.Some?
    ensures OnlyOneWith(Rows(x.container), node)
  {
    var i := KeyedHas(Rows(x.container), node);
  }

  lemma LaterRowsDistinct(c: seq<Item>, i: nat)
    requires DistinctIds(Rows(c)) && i < |Rows(c)|
    ensures forall x :: x in Rows(EvictOldest(c, i)) && x.id == Rows(c)[i].id ==> x == Rows(c)[i]
  {
    RowsOfEvict(c, i);
  }

  /** The row that is replaced has one entry, and the new id none. */
  lemma RebuildPlace(x: Index, was: Node, node: Node) returns (at: nat)
    requires Linked(x) && was in Rows(x.container) && !HasId(Rows(x.container), node.id)
    ensures at < |x.messages| && DistinctKeys(x.messages)
    ensures forall j :: 0 <= j < |x.messages| ==> (x.messages[j].0 == was.id <==> j == at)
    ensures forall j :: 0 <= j < |x.messages| ==> x.messages[j].0 != node.id
  {
    at := KeyedHas(Rows(x.container), was);
  }

  lemma RekeyedNone(entries: Entries<string, Node>, id: string, node: Node)
    ensures Rekeyed(entries[..0], id, node) == [] && entries[..|entries|] == entries
  {
  }

  /** While the index is rebuilt, the next key is new to what has been built. */
  lemma RekeyedFresh(entries: Entries<string, Node>, i: nat, id: string, node: Node)
    requires DistinctKeys(entries) && i < |entries| && forall j :: 0 <= j < |entries| ==> entries[j].0 != node.id
    ensures var built := Rekeyed(entries[..i], id, node);
            var next := if entries[i].0 == id then (node.id, node) else entries[i];
            && Set(built, next.0, next.1) == built + [next]
            && Rekeyed(entries[..i + 1], id, node) == built + [next]
  {
    var built := Rekeyed(entries[..i], id, node);
    var next := if entries[i].0 == id then (node.id, node) else entries[i];
    assert forall j :: 0 <= j < i ==> entries[j].0 != entries[i].0;
    assert forall j :: 0 <= j < i ==> built[j].0 != next.0;
  }

  /** Two rows of a document with one nonce: the timeline takes both over as they are,
      and only the second is indexed. */
  method SharedNonceIsLost(a: Node, b: Node, max: nat) returns (timeline: Timeline)
    requires LegalMax(max) && max >= 2 && a.serial != b.serial && a.id != b.id
    requires a.nonce == b.nonce && a.nonce.Some?
    ensures fresh(timeline) && timeline.Valid() && !timeline.destroyed && timeline.max == max
    ensures timeline.container == [Row(a), Row(b)] && !Coherent(timeline.View())
    ensures Lookup(timeline.nonces, a.nonce) == Some(b.id)
  {
    TwoRows(a, b);
    timeline := new Timeline([Row(a), Row(b)], max);
    var rows := Rows([Row(a), Row(b)]);
    assert rows[0] in rows && rows[1] in rows && LastCarrier(rows, 1);
    assert Rows(timeline.container) == rows;
    TwoCarriers(timeline.View(), a, b);
  }

  /** A message that confirms the nonce then replaces only the second: two rows carry it. */
  method SharedNonceStays(a: Node, b: Node, id: string, body: string, serial: nat, max: nat)
    returns (timeline: Timeline, node: Node)
    requires LegalMax(max) && max >= 2 && a.serial != b.serial && a.id != b.id && id != a.id && id != b.id
    requires a.nonce == b.nonce && a.nonce.Some?
    ensures timeline.Valid() && !Coherent(timeline.View())
    ensures timeline.container == [Row(a), Row(node)] && node.nonce == a.nonce && node.id == id
  {
    timeline := SharedNonceIsLost(a, b, max);
    TwoRows(a, b);
    var put := timeline.Upsert(Message(Some(id), a.nonce, body), "", serial);
    node := put.value;
    TwoRows(a, node);
    assert [a, node][0] in [a, node] && [a, node][1] in [a, node];
    TwoCarriers(timeline.View(), a, node);
  }

  lemma TwoCarriers(x: Index, a: Node, b: Node)
    requires a in Rows(x.container) && b in Rows(x.container)
    requires a.id != b.id && a.nonce == b.nonce && a.nonce.Some?
    ensures !Coherent(x)
  {
  }

  lemma TwoRows(a: Node, b: Node)
    requires a.id != b.id
    ensures Rows([Row(a), Row(b)]) == [a, b] && DistinctIds([a, b])
    ensures KeepLast([Row(a), Row(b)]) == [Row(a), Row(b)]
    ensures forall n: Node :: ReplaceRow([Row(a), Row(b)], b.id, n) == [Row(a), Row(n)]
  {
    assert [Row(a), Row(b)][1..] == [Row(b)] && [Row(b)][1..] == [];
    assert Rows([Row(b)]) == [b];
    KeepLastKeepsAll([Row(a), Row(b)]);
    forall n: Node ensures ReplaceRow([Row(a), Row(b)], b.id, n) == [Row(a), Row(n)] {
      assert ReplaceRow([Row(b)], b.id, n) == [Row(n)];
    }
  }
}
