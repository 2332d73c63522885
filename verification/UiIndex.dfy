/** The timeline's two indexes beside its container, as one value: what ties them
    together and what each elementary change does to all three. */
module UiIndex {
  import opened Options
  import opened Sequences
  import opened OrderedMap
  import opened UiRows
  import opened UiPlain

  datatype Index = Index(messages: Entries<string, Node>, nonces: map<string, string>, container: seq<Item>)

  ghost function Keyed(rows: seq<Node>): Entries<string, Node> {
    seq(|rows|, i requires 0 <= i < |rows| => (rows[i].id, rows[i]))
  }

  ghost predicate IsLive(rows: seq<Node>, nonce: string, id: string) {
    exists i :: 0 <= i < |rows| && rows[i].id == id && rows[i].nonce == Some(nonce)
  }

  /** Every nonce entry points to a row that is there and carries that nonce. */
  ghost predicate Live(rows: seq<Node>, nonces: map<string, string>) {
    forall n :: n in nonces ==> IsLive(rows, n, nonces[n])
  }

  /** Every row's nonce is indexed, so no two rows share one. */
  ghost predicate Covers(rows: seq<Node>, nonces: map<string, string>) {
    forall r :: r in rows && r.nonce.Some? ==> r.nonce.value in nonces && nonces[r.nonce.value] == r.id
  }

  /** The id index lists the container's rows in their order, ids are distinct and
      the nonce index does not lie. */
  ghost predicate Linked(x: Index) {
    && DistinctIds(Rows(x.container))
    && x.messages == Keyed(Rows(x.container))
    && Live(Rows(x.container), x.nonces)
  }

  ghost predicate Coherent(x: Index) {
    Covers(Rows(x.container), x.nonces)
  }

  function ForgetNonce(nonces: map<string, string>, node: Node): map<string, string> {
    if node.nonce.Some? && node.nonce.value in nonces && nonces[node.nonce.value] == node.id
    then nonces - {node.nonce.value} else nonces
  }

  function RememberNonce(nonces: map<string, string>, node: Node): map<string, string> {
    if node.nonce.Some? then nonces[node.nonce.value := node.id] else nonces
  }

  function Lookup(nonces: map<string, string>, nonce: Option<string>): Option<string> {
    if nonce.Some? && nonce.value in nonces then Some(nonces[nonce.value]) else None
  }

  /** Two nonce indexes agree on which of some rows their nonces lead to. */
  ghost predicate SameAnswers(rows: seq<Node>, before: map<string, string>, after: map<string, string>) {
    forall r :: r in rows ==> (Lookup(after, r.nonce) == Some(r.id) <==> Lookup(before, r.nonce) == Some(r.id))
  }

  // ---- lookups ----

  lemma KeyedFind(rows: seq<Node>, id: string)
    requires DistinctIds(rows)
    ensures DistinctKeys(Keyed(rows))
    ensures Has(Keyed(rows), id) <==> HasId(rows, id)
    ensures forall i :: 0 <= i < |rows| && rows[i].id == id ==>
              Find(Keyed(rows), id) == Some(i) && Get(Keyed(rows), id) == Some(rows[i])
  {
    var m := Keyed(rows);
    forall i | 0 <= i < |rows| && rows[i].id == id ensures Find(m, id) == Some(i) {
      FindIs(m, id, i);
    }
    if HasId(rows, id) {
      var i :| 0 <= i < |rows| && rows[i].id == id;
      assert m[i].0 == id;
    }
  }

  lemma KeyedHas(rows: seq<Node>, node: Node) returns (i: nat)
    requires DistinctIds(rows) && node in rows
    ensures i < |rows| && rows[i] == node && Find(Keyed(rows), node.id) == Some(i)
    ensures forall r :: r in rows && r.id == node.id ==> r == node
  {
    i :| 0 <= i < |rows| && rows[i] == node;
    KeyedFind(rows, node.id);
  }

  lemma LeftDistinct(done: seq<Node>, i: nat)
    requires DistinctIds(done) && i < |done|
    ensures DistinctIds(done[..i] + done[i + 1..]) && !HasId(done[..i] + done[i + 1..], done[i].id)
  {
    var left := done[..i] + done[i + 1..];
    assert forall a :: 0 <= a < |left| ==> left[a] == done[if a < i then a else a + 1];
  }

  lemma DeleteKeyed(rows: seq<Node>, i: nat)
    requires DistinctIds(rows) && i < |rows|
    ensures Delete(Keyed(rows), rows[i].id) == Keyed(rows[..i] + rows[i + 1..])
  {
    KeyedFind(rows, rows[i].id);
  }

  /** What the nonce index answers is an id of a row. */
  lemma LookupIsARow(x: Index, nonce: Option<string>)
    requires Linked(x)
    ensures var id := Lookup(x.nonces, nonce);
            id.Some? ==> HasId(Rows(x.container), id.value)
  {
    if Lookup(x.nonces, nonce).Some? {
      assert IsLive(Rows(x.container), nonce.value, x.nonces[nonce.value]);
    }
  }

  /** In a coherent timeline the index finds what a scan of all rows would find. */
  lemma LookupIsScan(x: Index, nonce: Option<string>)
    requires Linked(x) && Coherent(x)
    ensures Lookup(x.nonces, nonce) == ScanNonce(Rows(x.container), nonce)
  {
    var rows, s := Rows(x.container), ScanNonce(Rows(x.container), nonce);
    assert nonce.Some? && nonce.value in x.nonces ==> IsLive(rows, nonce.value, x.nonces[nonce.value]);
    if s.Some? {
      var i :| 0 <= i < |rows| && rows[i].id == s.value && rows[i].nonce == nonce;
      assert rows[i] in rows;
    }
  }

  // ---- removing a row ----

  ghost function Forgotten(x: Index, node: Node): Index {
    Index(Delete(x.messages, node.id), ForgetNonce(x.nonces, node), Drop(x.container, node))
  }

  lemma ForgetStaysLive(rows: seq<Node>, nonces: map<string, string>, i: nat)
    requires DistinctIds(rows) && Live(rows, nonces) && i < |rows|
    ensures Live(rows[..i] + rows[i + 1..], ForgetNonce(nonces, rows[i]))
  {
    var left := rows[..i] + rows[i + 1..];
    forall n | n in ForgetNonce(nonces, rows[i]) ensures IsLive(left, n, nonces[n]) {
      assert IsLive(rows, n, nonces[n]);
      var j :| 0 <= j < |rows| && rows[j].id == nonces[n] && rows[j].nonce == Some(n);
      assert left[if j < i then j else j - 1] == rows[j];
    }
  }

  lemma ForgetStaysCovered(rows: seq<Node>, nonces: map<string, string>, i: nat)
    requires DistinctIds(rows) && Covers(rows, nonces) && i < |rows|
    ensures Covers(rows[..i] + rows[i + 1..], ForgetNonce(nonces, rows[i]))
  {
    var left := rows[..i] + rows[i + 1..];
    forall r | r in left ensures r in rows && r.id != rows[i].id {
      var j :| 0 <= j < |left| && left[j] == r;
      assert r == rows[if j < i then j else j + 1];
    }
  }

  lemma ForgottenLinked(x: Index, node: Node)
    requires Linked(x) && node in Rows(x.container)
    ensures Linked(Forgotten(x, node))
    ensures Forgotten(x, node).container == DropRow(x.container, node.id)
    ensures Coherent(x) ==> Coherent(Forgotten(x, node))
  {
    var rows := Rows(x.container);
    var i := KeyedHas(rows, node);
    DropIsDropRow(x.container, node);
    RowsOfDropRow(x.container, node.id);
    WithoutAt(rows, i);
    DeleteKeyed(rows, i);
    assert DistinctIds(rows[..i] + rows[i + 1..]) by {
      LeftDistinct(rows, i);
    }
    ForgetStaysLive(rows, x.nonces, i);
    if Coherent(x) {
      ForgetStaysCovered(rows, x.nonces, i);
    }
  }

  // ---- a new row at the end ----

  ghost function Appended(x: Index, node: Node): Index {
    Index(Set(x.messages, node.id, node), RememberNonce(x.nonces, node), x.container + [Row(node)])
  }

  lemma AppendedLinked(x: Index, node: Node)
    requires Linked(x) && !HasId(Rows(x.container), node.id)
    ensures Linked(Appended(x, node)) && Rows(Appended(x, node).container) == Rows(x.container) + [node]
    ensures Coherent(x) && Lookup(x.nonces, node.nonce).None? ==> Coherent(Appended(x, node))
  {
    var rows := Rows(x.container);
    RowsConcat(x.container, [Row(node)]);
    KeyedFind(rows, node.id);
    var more := rows + [node];
    assert Rows([Row(node)]) == [node];
    assert Set(x.messages, node.id, node) == Keyed(more);
    var nonces := RememberNonce(x.nonces, node);
    forall n | n in nonces ensures IsLive(more, n, nonces[n]) {
      if node.nonce == Some(n) {
        assert more[|rows|] == node;
      } else {
        var j :| 0 <= j < |rows| && rows[j].id == x.nonces[n] && rows[j].nonce == Some(n);
        assert more[j] == rows[j];
      }
    }
  }

  // ---- a row replaced in place ----

  lemma {:induction false} SwappedRows(x: Index, prior: Node, node: Node) returns (i: nat)
    requires Linked(x) && prior in Rows(x.container)
    ensures i < |Rows(x.container)| && Rows(x.container)[i] == prior
    ensures Find(x.messages, prior.id) == Some(i)
    ensures Swap(x.container, prior, node) == ReplaceRow(x.container, prior.id, node)
    ensures Rows(Swap(x.container, prior, node)) == Rows(x.container)[i := node]
  {
    i := KeyedHas(Rows(x.container), prior);
    SwapIsReplaceRow(x.container, prior, node);
    RowsOfReplaceRow(x.container, prior.id, node);
    ReplacedAt(Rows(x.container), i, node);
  }

  /** The nonce index after the row of an id is re-rendered under the same id. */
  function Renonced(nonces: map<string, string>, prior: Node, node: Node): map<string, string> {
    RememberNonce(if prior.nonce.Some? then nonces - {prior.nonce.value} else nonces, node)
  }

  ghost function ReplacedSame(x: Index, prior: Node, node: Node): Index {
    Index(Set(x.messages, prior.id, node), Renonced(x.nonces, prior, node), Swap(x.container, prior, node))
  }

  lemma ReplacedSameLinked(x: Index, prior: Node, node: Node)
    requires Linked(x) && prior in Rows(x.container) && node.id == prior.id
    ensures Linked(ReplacedSame(x, prior, node))
    ensures ReplacedSame(x, prior, node).container == ReplaceRow(x.container, prior.id, node)
    ensures var twin := Lookup(x.nonces, node.nonce);
            Coherent(x) && (twin.None? || twin.value == prior.id) ==> Coherent(ReplacedSame(x, prior, node))
  {
    hide Live, Covers, Renonced, Rows, Swap, ReplaceRow, Lookup;
    var rows := Rows(x.container);
    var i := SwappedRows(x, prior, node);
    assert Set(x.messages, prior.id, node) == Keyed(rows[i := node]);
    ReplacedLive(rows, i, x.nonces, node);
    if Coherent(x) && (Lookup(x.nonces, node.nonce).None? || Lookup(x.nonces, node.nonce).value == prior.id) {
      ReplacedCovered(rows, i, x.nonces, node);
    }
  }

  lemma ReplacedLive(rows: seq<Node>, i: nat, nonces: map<string, string>, node: Node)
    requires i < |rows| && DistinctIds(rows) && Live(rows, nonces) && node.id == rows[i].id
    ensures Live(rows[i := node], Renonced(nonces, rows[i], node))
  {
    var after, fresh_ := rows[i := node], Renonced(nonces, rows[i], node);
    forall n | n in fresh_ ensures IsLive(after, n, fresh_[n]) {
      if node.nonce == Some(n) {
        assert after[i] == node;
      } else {
        assert IsLive(rows, n, nonces[n]);
        var j :| 0 <= j < |rows| && rows[j].id == nonces[n] && rows[j].nonce == Some(n);
        assert j != i && after[j] == rows[j];
      }
    }
  }

  lemma ReplacedCovered(rows: seq<Node>, i: nat, nonces: map<string, string>, node: Node)
    requires i < |rows| && DistinctIds(rows) && Covers(rows, nonces) && node.id == rows[i].id
    requires var twin := Lookup(nonces, node.nonce); twin.None? || twin.value == node.id
    ensures Covers(rows[i := node], Renonced(nonces, rows[i], node))
  {
    var after, fresh_ := rows[i := node], Renonced(nonces, rows[i], node);
    assert rows[i] in rows;
    forall r | r in after && r.nonce.Some? ensures r.nonce.value in fresh_ && fresh_[r.nonce.value] == r.id {
      var j :| 0 <= j < |after| && after[j] == r;
      if j != i {
        assert rows[j] in rows && rows[j].id != rows[i].id;
      }
    }
  }

  /** The entries with one key's entry replaced by the entry of another node. */
  ghost function Rekeyed(entries: Entries<string, Node>, id: string, node: Node): Entries<string, Node> {
    seq(|entries|, i requires 0 <= i < |entries| => if entries[i].0 == id then (node.id, node) else entries[i])
  }

  ghost function ReplacedOther(x: Index, prior: Node, node: Node): Index {
    Index(Rekeyed(x.messages, prior.id, node), RememberNonce(ForgetNonce(x.nonces, prior), node),
          Swap(x.container, prior, node))
  }

  lemma ReplacedOtherLinked(x: Index, prior: Node, node: Node)
    requires Linked(x) && prior in Rows(x.container) && !HasId(Rows(x.container), node.id)
    requires Lookup(x.nonces, node.nonce) == Some(prior.id)
    ensures Linked(ReplacedOther(x, prior, node))
    ensures ReplacedOther(x, prior, node).container == ReplaceRow(x.container, prior.id, node)
    ensures Coherent(x) ==> Coherent(ReplacedOther(x, prior, node))
  {
    var rows := Rows(x.container);
    var i := SwappedRows(x, prior, node);
    var after := rows[i := node];
    assert Rekeyed(x.messages, prior.id, node) == Keyed(after);
    assert DistinctIds(after) by {
      forall a, b | 0 <= a < b < |after| ensures after[a].id != after[b].id {
        assert after[a] == (if a == i then node else rows[a]) && after[b] == (if b == i then node else rows[b]);
      }
    }
    var nonces := RememberNonce(ForgetNonce(x.nonces, prior), node);
    forall n | n in nonces ensures IsLive(after, n, nonces[n]) {
      if node.nonce == Some(n) {
        assert after[i] == node;
      } else {
        var j :| 0 <= j < |rows| && rows[j].id == x.nonces[n] && rows[j].nonce == Some(n);
        assert j != i && after[j] == rows[j];
      }
    }
    if Coherent(x) {
      forall r | r in after && r.nonce.Some? ensures r.nonce.value in nonces && nonces[r.nonce.value] == r.id {
        var j :| 0 <= j < |after| && after[j] == r;
        if j != i {
          assert rows[j] in rows && rows[j].id != prior.id;
        }
      }
    }
  }
}
