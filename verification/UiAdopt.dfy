/** Taking over the rows a container already has: of rows with one id the last
    stays, and which nonces end up indexed. */
module UiAdopt {
  import opened Options
  import opened Sequences
  import opened OrderedMap
  import opened UiRows
  import opened UiIndex

  /** Every node of a document is one object. */
  ghost predicate DistinctNodes(rows: seq<Node>) {
    forall i, j :: 0 <= i < j < |rows| ==> rows[i].serial != rows[j].serial
  }

  /** The container with only the last row of every id. */
  function KeepLast(c: seq<Item>): seq<Item> {
    if c == [] then []
    else if c[0].Row? && HasId(Rows(c[1..]), c[0].node.id) then KeepLast(c[1..])
    else [c[0]] + KeepLast(c[1..])
  }

  /** Of every id exactly one row stays, and every separator. */
  lemma {:induction false} KeepLastKeepsIds(c: seq<Item>)
    ensures DistinctIds(Rows(KeepLast(c))) && Separators(KeepLast(c)) == Separators(c)
    ensures forall id :: HasId(Rows(c), id) <==> HasId(Rows(KeepLast(c)), id)
    decreases |c|
  {
    if c != [] {
      KeepLastKeepsIds(c[1..]);
      forall id ensures HasId(Rows(c), id) <==> (c[0].Row? && c[0].node.id == id) || HasId(Rows(c[1..]), id) {
        HeadOrRest(c, id);
      }
      if KeepLast(c) != KeepLast(c[1..]) {
        var kept := KeepLast(c);
        assert kept[0] == c[0] && kept[1..] == KeepLast(c[1..]);
        forall id ensures HasId(Rows(kept), id) <==> (c[0].Row? && c[0].node.id == id) || HasId(Rows(kept[1..]), id) {
          HeadOrRest(kept, id);
        }
      }
    }
  }

  lemma HeadOrRest(c: seq<Item>, id: string)
    requires c != []
    ensures HasId(Rows(c), id) <==> (c[0].Row? && c[0].node.id == id) || HasId(Rows(c[1..]), id)
  {
    if c[0].Row? {
      assert Rows(c)[0] == c[0].node && Rows(c)[1..] == Rows(c[1..]);
      if i :| 0 <= i < |Rows(c[1..])| && Rows(c[1..])[i].id == id {
        assert Rows(c)[i + 1].id == id;
      }
      if i :| 0 < i < |Rows(c)| && Rows(c)[i].id == id {
        assert Rows(c[1..])[i - 1].id == id;
      }
    }
  }

  /** Which rows stay, and in which order: those of whose id no later row is, as they stood. */
  lemma {:induction false} LastRowsStay(c: seq<Item>)
    requires DistinctNodes(Rows(c))
    ensures forall i :: 0 <= i < |Rows(c)| ==>
              (Rows(c)[i] in Rows(KeepLast(c)) <==> forall j :: i < j < |Rows(c)| ==> Rows(c)[j].id != Rows(c)[i].id)
    ensures InOrder(Rows(KeepLast(c)), Rows(c))
  {
    LastRows(c);
    forall i | 0 <= i < |Rows(c)|
      ensures Rows(c)[i] in Rows(KeepLast(c)) <==> forall j :: i < j < |Rows(c)| ==> Rows(c)[j].id != Rows(c)[i].id
    {
      assert LastOfItsId(Rows(c), i) <==> forall j :: i < j < |Rows(c)| ==> Rows(c)[j].id != Rows(c)[i].id;
    }
  }

  lemma {:induction false} LastRows(c: seq<Item>)
    requires DistinctNodes(Rows(c))
    ensures forall i: nat :: i < |Rows(c)| ==> (Rows(c)[i] in Rows(KeepLast(c)) <==> LastOfItsId(Rows(c), i))
    ensures InOrder(Rows(KeepLast(c)), Rows(c))
    decreases |c|
  {
    hide LastOfItsId;
    if c != [] {
      var rest, rows := c[1..], Rows(c);
      if c[0].Row? {
        RowHead(c);
        FirstIsItOrNot(rows, c[0].node, [], Rows(rest));
        LastRows(rest);
        OneMoreInOrder(Rows(KeepLast(rest)), Rows(rest), c[0].node);
        RowBefore(c[0].node, KeepLast(rest));
        forall i: nat | i < |rows| ensures rows[i] in Rows(KeepLast(c)) <==> LastOfItsId(rows, i) {
          assert i > 0 ==> rows[i] == Rows(rest)[i - 1];
          HeadStays(c, i);
        }
      } else {
        LastRows(rest);
        assert Rows(KeepLast(c)) == Rows(KeepLast(rest)) by { SeparatorFirst(c[0], KeepLast(rest)); }
      }
    }
  }

  /** Left out some, but in the same order. */
  ghost predicate InOrder(kept: seq<Node>, rows: seq<Node>)
    decreases |rows|
  {
    if rows == [] then kept == []
    else InOrder(kept, rows[1..]) || (kept != [] && kept[0] == rows[0] && InOrder(kept[1..], rows[1..]))
  }

  lemma OneMoreInOrder(kept: seq<Node>, rows: seq<Node>, n: Node)
    requires InOrder(kept, rows)
    ensures InOrder(kept, [n] + rows) && InOrder([n] + kept, [n] + rows)
  {
    assert ([n] + rows)[1..] == rows && ([n] + kept)[1..] == kept;
  }

  lemma SeparatorFirst(x: Item, c: seq<Item>)
    requires !x.Row?
    ensures Rows([x] + c) == Rows(c)
  {
    assert ([x] + c)[1..] == c;
  }

  lemma {:induction false} InOrderInside(kept: seq<Node>, rows: seq<Node>, n: Node)
    requires InOrder(kept, rows) && n in kept
    ensures n in rows
    decreases |rows|
  {
    if InOrder(kept, rows[1..]) {
      InOrderInside(kept, rows[1..], n);
    } else if n != kept[0] {
      InOrderInside(kept[1..], rows[1..], n);
    }
  }

  ghost predicate LastOfItsId(rows: seq<Node>, i: nat)
    requires i < |rows|
  {
    forall j :: i < j < |rows| ==> rows[j].id != rows[i].id
  }

  lemma LaterOfItsId(rows: seq<Node>, i: nat)
    requires i < |rows| && i > 0
    ensures LastOfItsId(rows, i) <==> LastOfItsId(rows[1..], i - 1)
  {
    if LastOfItsId(rows[1..], i - 1) {
      forall j | i < j < |rows| ensures rows[j].id != rows[i].id {
        assert rows[1..][j - 1] == rows[j];
      }
    }
  }

  lemma FirstOfItsId(rows: seq<Node>)
    requires rows != []
    ensures LastOfItsId(rows, 0) <==> !HasId(rows[1..], rows[0].id)
  {
    if HasId(rows[1..], rows[0].id) {
      var k :| 0 <= k < |rows[1..]| && rows[1..][k].id == rows[0].id;
      assert rows[k + 1].id == rows[0].id;
    } else {
      forall j | 0 < j < |rows| ensures rows[j].id != rows[0].id {
        assert rows[1..][j - 1] == rows[j];
      }
    }
  }

  /** A row in front stays if no later row has its id, and changes nothing for the others. */
  lemma HeadStays(c: seq<Item>, i: nat)
    requires c != [] && c[0].Row? && DistinctNodes(Rows(c)) && i < |Rows(c)|
    requires InOrder(Rows(KeepLast(c[1..])), Rows(c[1..]))
    requires i > 0 ==> (Rows(c)[i] in Rows(KeepLast(c[1..])) <==> LastOfItsId(Rows(c[1..]), i - 1))
    ensures Rows(c)[i] in Rows(KeepLast(c)) <==> LastOfItsId(Rows(c), i)
  {
    hide InOrder, LastOfItsId, HasId;
    var rows, kept, first := Rows(c), Rows(KeepLast(c[1..])), c[0].node;
    RowHead(c);
    RowBefore(first, KeepLast(c[1..]));
    FirstIsItOrNot(rows, first, [], rows[1..]);
    if first in kept {
      InOrderInside(kept, rows[1..], first);
    }
    if i == 0 {
      FirstOfItsId(rows);
    } else {
      LaterOfItsId(rows, i);
      assert rows[i] == rows[1..][i - 1] && rows[i] in rows[1..];
    }
  }

  lemma {:induction false} RowsOfDrop(c: seq<Item>, n: Node, a: seq<Node>, b: seq<Node>)
    requires Rows(c) == a + [n] + b && DistinctNodes(Rows(c))
    ensures Rows(Drop(c, n)) == a + b
    decreases |c|
  {
    hide DistinctNodes;
    if c[0].Row? {
      RowHead(c);
      FirstIsItOrNot(Rows(c), n, a, b);
      if a == [] {
        DropAbsent(c[1..], n);
        assert a + b == b;
      } else {
        RowsOfDrop(c[1..], n, a[1..], b);
        RowBefore(c[0].node, Drop(c[1..], n));
        assert a + b == [a[0]] + (a[1..] + b);
      }
    } else {
      RowsOfDrop(c[1..], n, a, b);
      assert Drop(c, n)[1..] == Drop(c[1..], n);
    }
  }

  lemma RowHead(c: seq<Item>)
    requires c != [] && c[0].Row?
    ensures Rows(c) == [c[0].node] + Rows(c[1..]) && Rows(c)[1..] == Rows(c[1..])
  {
  }

  lemma RowBefore(n: Node, c: seq<Item>)
    ensures Rows([Row(n)] + c) == [n] + Rows(c)
  {
    assert ([Row(n)] + c)[1..] == c;
  }

  /** Of distinct nodes the first is n and no other, or it is not n. */
  lemma FirstIsItOrNot(rows: seq<Node>, n: Node, a: seq<Node>, b: seq<Node>)
    requires rows == a + [n] + b && DistinctNodes(rows)
    ensures DistinctNodes(rows[1..])
    ensures if a == [] then rows[0] == n && n !in rows[1..] && rows[1..] == b
            else rows[0] == a[0] != n && rows[1..] == a[1..] + [n] + b
  {
    assert rows[|a|] == n;
  }

  lemma {:induction false} DropAbsent(c: seq<Item>, n: Node)
    requires n !in Rows(c)
    ensures Drop(c, n) == c
    decreases |c|
  {
    if c != [] {
      DropAbsent(c[1..], n);
    }
  }

  /** Dropping a row that has a later row of its id does not change what is last. */
  lemma {:induction false} KeepLastIgnores(c: seq<Item>, n: Node, a: seq<Node>, b: seq<Node>)
    requires Rows(c) == a + [n] + b && DistinctNodes(Rows(c)) && HasId(b, n.id)
    ensures KeepLast(Drop(c, n)) == KeepLast(c)
    decreases |c|
  {
    var rest := c[1..];
    hide DistinctNodes;
    if c[0].Row? {
      RowHead(c);
      FirstIsItOrNot(Rows(c), n, a, b);
      if a == [] {
        DropAbsent(rest, n);
      } else {
        KeepLastIgnores(rest, n, a[1..], b);
        RowsOfDrop(rest, n, a[1..], b);
        SameIdsLeft(a[1..], n, b, c[0].node.id);
        assert Drop(c, n)[1..] == Drop(rest, n);
      }
    } else {
      KeepLastIgnores(rest, n, a, b);
      assert Drop(c, n)[1..] == Drop(rest, n);
    }
  }

  lemma SameIdsLeft(a: seq<Node>, n: Node, b: seq<Node>, id: string)
    requires HasId(b, n.id)
    ensures HasId(a + [n] + b, id) <==> HasId(a + b, id)
  {
    var all, left := a + [n] + b, a + b;
    if i :| 0 <= i < |all| && all[i].id == id {
      if i == |a| {
        var j :| 0 <= j < |b| && b[j].id == n.id;
        assert left[|a| + j].id == id;
      } else {
        assert left[if i < |a| then i else i - 1].id == id;
      }
    }
    if i :| 0 <= i < |left| && left[i].id == id {
      assert all[if i < |a| then i else i + 1].id == id;
    }
  }

  lemma {:induction false} KeepLastKeepsAll(c: seq<Item>)
    requires DistinctIds(Rows(c))
    ensures KeepLast(c) == c
    decreases |c|
  {
    if c != [] {
      if c[0].Row? {
        assert Rows(c)[1..] == Rows(c[1..]);
        forall i | 0 <= i < |Rows(c[1..])| ensures Rows(c[1..])[i].id != c[0].node.id {
          assert Rows(c)[0].id != Rows(c)[i + 1].id;
        }
      }
      KeepLastKeepsAll(c[1..]);
    }
  }

  // ---- which nonces are indexed ----

  /** Of the first k rows, row j is the last to carry its nonce and has kept its id. */
  ghost predicate Indexed(rows: seq<Node>, k: nat, n: string, j: nat)
    requires k <= |rows|
  {
    && j < k && rows[j].nonce == Some(n)
    && forall i :: j < i < k ==> rows[i].nonce != Some(n) && rows[i].id != rows[j].id
  }

  /** Row j has not been displaced by another of the first k rows with its id. */
  ghost predicate Stays(rows: seq<Node>, k: nat, j: nat)
    requires k <= |rows|
  {
    j < k && forall i :: j < i < k ==> rows[i].id != rows[j].id
  }

  ghost predicate NoncesAre(rows: seq<Node>, k: nat, nonces: map<string, string>)
    requires k <= |rows|
  {
    && (forall n :: n in nonces ==> exists j: nat :: Indexed(rows, k, n, j) && nonces[n] == rows[j].id)
    && (forall n, j: nat :: Indexed(rows, k, n, j) ==> n in nonces && nonces[n] == rows[j].id)
  }

  /** What adopting row k does to the nonce index. */
  function AdoptNonce(nonces: map<string, string>, displaced: Option<Node>, node: Node): map<string, string> {
    RememberNonce(if displaced.Some? then ForgetNonce(nonces, displaced.value) else nonces, node)
  }

  lemma AdoptStep(rows: seq<Node>, k: nat, nonces: map<string, string>, displaced: Option<Node>, d: nat)
    requires k < |rows| && NoncesAre(rows, k, nonces)
    requires displaced.Some? ==> Stays(rows, k, d) && rows[d] == displaced.value && rows[d].id == rows[k].id
    requires displaced.None? ==> forall i :: 0 <= i < k ==> rows[i].id != rows[k].id
    ensures NoncesAre(rows, k + 1, AdoptNonce(nonces, displaced, rows[k]))
  {
    var x, after := rows[k], AdoptNonce(nonces, displaced, rows[k]);
    forall n | n in after ensures exists j: nat :: Indexed(rows, k + 1, n, j) && after[n] == rows[j].id {
      if x.nonce == Some(n) {
        assert Indexed(rows, k + 1, n, k);
      } else {
        var j: nat :| Indexed(rows, k, n, j) && nonces[n] == rows[j].id;
        assert displaced.Some? && rows[j].id == x.id ==> j == d;
        assert Indexed(rows, k + 1, n, j);
      }
    }
    forall n, j: nat | Indexed(rows, k + 1, n, j) ensures n in after && after[n] == rows[j].id {
      if j < k {
        assert Indexed(rows, k, n, j) && rows[k].id != rows[j].id;
      }
    }
  }

  /** No later row of the document carries the nonce of one of the rows kept. */
  ghost predicate LastOfTheirNonce(rows: seq<Node>, kept: seq<Node>) {
    forall i, j :: 0 <= i < j < |rows| && rows[i] in kept && rows[i].nonce.Some? ==> rows[j].nonce != rows[i].nonce
  }

  /** No later row of the document carries the nonce of row i. */
  ghost predicate LastCarrier(rows: seq<Node>, i: nat)
    requires i < |rows|
  {
    forall j :: i < j < |rows| ==> rows[j].nonce != rows[i].nonce
  }

  /** The index leads from a row's nonce to that row exactly when it is the last of the
      document to carry it. */
  ghost predicate IndexedExactly(rows: seq<Node>, kept: seq<Node>, nonces: map<string, string>) {
    forall i: nat :: i < |rows| && rows[i] in kept && rows[i].nonce.Some? ==>
      (Lookup(nonces, rows[i].nonce) == Some(rows[i].id) <==> LastCarrier(rows, i))
  }

  lemma RowIndexed(rows: seq<Node>, nonces: map<string, string>, i: nat)
    requires NoncesAre(rows, |rows|, nonces) && Stays(rows, |rows|, i) && rows[i].nonce.Some?
    ensures Lookup(nonces, rows[i].nonce) == Some(rows[i].id) <==> LastCarrier(rows, i)
  {
    var n := rows[i].nonce.value;
    if Lookup(nonces, rows[i].nonce) == Some(rows[i].id) {
      var l: nat :| Indexed(rows, |rows|, n, l) && nonces[n] == rows[l].id;
      assert l == i;
    }
    if LastCarrier(rows, i) {
      assert Indexed(rows, |rows|, n, i);
    }
  }

  /** So all rows are indexed exactly when none of their nonces occurs later on. */
  lemma CoveredExactly(rows: seq<Node>, nonces: map<string, string>, kept: seq<Node>)
    requires IndexedExactly(rows, kept, nonces) && forall r :: r in kept ==> r in rows
    ensures Covers(kept, nonces) <==> LastOfTheirNonce(rows, kept)
  {
    if Covers(kept, nonces) {
      forall i, j | 0 <= i < j < |rows| && rows[i] in kept && rows[i].nonce.Some? ensures rows[j].nonce != rows[i].nonce {
        assert LastCarrier(rows, i);
      }
    }
    if LastOfTheirNonce(rows, kept) {
      forall r | r in kept && r.nonce.Some? ensures r.nonce.value in nonces && nonces[r.nonce.value] == r.id {
        var i: nat :| i < |rows| && rows[i] == r;
        assert LastCarrier(rows, i);
      }
    }
  }

  // ---- one row adopted ----

  /** The rows in done are those of the first k that stay. */
  ghost predicate Kept(rows: seq<Node>, k: nat, done: seq<Node>)
    requires k <= |rows|
  {
    && (forall r :: r in done ==> exists j: nat :: Stays(rows, k, j) && rows[j] == r)
    && (forall j: nat :: Stays(rows, k, j) ==> rows[j] in done)
  }

  /** The first k of the container's rows have been adopted, the rest are as found. */
  ghost predicate Adopting(items: seq<Item>, k: nat, done: seq<Node>, x: Index) {
    && k <= |Rows(items)|
    && Rows(x.container) == done + Rows(items)[k..]
    && KeepLast(x.container) == KeepLast(items)
    && x.messages == Keyed(done) && DistinctIds(done)
    && Kept(Rows(items), k, done) && NoncesAre(Rows(items), k, x.nonces)
  }

  ghost function AdoptedRows(done: seq<Node>, node: Node): seq<Node> {
    Without(done, node.id) + [node]
  }

  ghost function Adopted(x: Index, displaced: Option<Node>, node: Node): Index {
    match displaced
    case None => Index(Set(x.messages, node.id, node), RememberNonce(x.nonces, node), x.container)
    case Some(was) =>
      Index(Set(Delete(x.messages, node.id), node.id, node), RememberNonce(ForgetNonce(x.nonces, was), node),
            Drop(x.container, was))
  }

  lemma KeptStep(rows: seq<Node>, k: nat, done: seq<Node>)
    requires k < |rows| && Kept(rows, k, done)
    ensures Kept(rows, k + 1, AdoptedRows(done, rows[k]))
  {
    hide Without;
    var after := AdoptedRows(done, rows[k]);
    forall r | r in after ensures exists j: nat :: Stays(rows, k + 1, j) && rows[j] == r {
      assert r in Without(done, rows[k].id) || r == rows[k];
      if r in Without(done, rows[k].id) {
        var j: nat :| Stays(rows, k, j) && rows[j] == r;
        assert Stays(rows, k + 1, j);
      } else {
        assert Stays(rows, k + 1, k);
      }
    }
    forall j: nat | Stays(rows, k + 1, j) ensures rows[j] in after {
      if j < k {
        assert Stays(rows, k, j) && rows[k].id != rows[j].id;
        assert rows[j] in Without(done, rows[k].id);
      } else {
        assert after[|after| - 1] == rows[k];
      }
    }
  }

  /** No id occurs twice among the rows kept, nor does a node among them and those to come. */
  lemma KeptNodes(rows: seq<Node>, k: nat, done: seq<Node>)
    requires k <= |rows| && Kept(rows, k, done) && DistinctNodes(rows) && DistinctIds(done)
    ensures DistinctNodes(done + rows[k..])
  {
    var all := done + rows[k..];
    forall i, j | 0 <= i < j < |all| ensures all[i].serial != all[j].serial {
      if i < |done| {
        assert done[i] in done;
        var a: nat :| Stays(rows, k, a) && rows[a] == done[i];
        if j < |done| {
          assert done[j] in done;
          var b: nat :| Stays(rows, k, b) && rows[b] == done[j];
          assert a != b;
        } else {
          assert all[j] == rows[k + j - |done|];
        }
      } else {
        assert all[i] == rows[k + i - |done|] && all[j] == rows[k + j - |done|];
      }
    }
  }

  /** Of an id seen before, some row has stayed. */
  lemma {:induction false} SomeStays(rows: seq<Node>, k: nat, id: string) returns (j: nat)
    requires k <= |rows| && exists i :: 0 <= i < k && rows[i].id == id
    ensures Stays(rows, k, j) && rows[j].id == id
    decreases k
  {
    if rows[k - 1].id == id {
      j := k - 1;
    } else {
      j := SomeStays(rows, k - 1, id);
    }
  }

  lemma SeenIsKept(rows: seq<Node>, k: nat, done: seq<Node>, id: string)
    requires k <= |rows| && Kept(rows, k, done)
    ensures HasId(done, id) || forall i :: 0 <= i < k ==> rows[i].id != id
  {
    if exists i :: 0 <= i < k && rows[i].id == id {
      var j := SomeStays(rows, k, id);
      var d :| 0 <= d < |done| && done[d] == rows[j];
    }
  }

  lemma AdoptFresh(items: seq<Item>, k: nat, done: seq<Node>, x: Index)
    requires Adopting(items, k, done, x) && k < |Rows(items)| && !HasId(done, Rows(items)[k].id)
    ensures Adopting(items, k + 1, AdoptedRows(done, Rows(items)[k]), Adopted(x, None, Rows(items)[k]))
  {
    var rows := Rows(items);
    var node := rows[k];
    hide NoncesAre, Kept, KeepLast, Keyed;
    WithoutNobody(done, node.id);
    SetAppends(done, node);
    assert done + rows[k..] == (done + [node]) + rows[k + 1..];
    KeptStep(rows, k, done);
    SeenIsKept(rows, k, done, node.id);
    AdoptStep(rows, k, x.nonces, None, 0);
  }

  lemma SetAppends(done: seq<Node>, node: Node)
    requires DistinctIds(done) && !HasId(done, node.id)
    ensures Set(Keyed(done), node.id, node) == Keyed(done + [node]) && DistinctIds(done + [node])
  {
    KeyedFind(done, node.id);
  }

  /** A known id is deleted and set again: its entry moves to the end. */
  lemma MovesToTheEnd(done: seq<Node>, i: nat, node: Node)
    requires DistinctIds(done) && i < |done| && done[i].id == node.id
    ensures AdoptedRows(done, node) == done[..i] + done[i + 1..] + [node]
    ensures DistinctIds(AdoptedRows(done, node))
    ensures Set(Delete(Keyed(done), node.id), node.id, node) == Keyed(AdoptedRows(done, node))
  {
    WithoutAt(done, i);
    DeleteKeyed(done, i);
    LeftDistinct(done, i);
    SetAppends(done[..i] + done[i + 1..], node);
  }

  lemma Displaced(items: seq<Item>, c: seq<Item>, done: seq<Node>, i: nat, rest: seq<Node>)
    requires Rows(c) == done + rest && DistinctNodes(Rows(c)) && KeepLast(c) == KeepLast(items)
    requires i < |done| && rest != [] && done[i].id == rest[0].id
    ensures Rows(Drop(c, done[i])) == (done[..i] + done[i + 1..] + [rest[0]]) + rest[1..]
    ensures KeepLast(Drop(c, done[i])) == KeepLast(items)
  {
    hide Rows, KeepLast, Drop, DistinctNodes;
    var b := done[i + 1..] + rest;
    assert b[|done| - i - 1] == rest[0] && HasId(b, done[i].id);
    Taken(done, i, rest);
    KeepLastIgnores(c, done[i], done[..i], b);
    RowsOfDrop(c, done[i], done[..i], b);
  }

  /** One of some rows taken out, and the next joined to them. */
  lemma Taken(done: seq<Node>, i: nat, rest: seq<Node>)
    requires i < |done| && rest != []
    ensures done + rest == done[..i] + [done[i]] + (done[i + 1..] + rest)
    ensures done[..i] + (done[i + 1..] + rest) == (done[..i] + done[i + 1..] + [rest[0]]) + rest[1..]
  {
  }

  lemma AdoptAgain(items: seq<Item>, k: nat, done: seq<Node>, x: Index, i: nat)
    requires Adopting(items, k, done, x) && k < |Rows(items)| && DistinctNodes(Rows(items))
    requires i < |done| && done[i].id == Rows(items)[k].id
    ensures Adopting(items, k + 1, AdoptedRows(done, Rows(items)[k]), Adopted(x, Some(done[i]), Rows(items)[k]))
  {
    hide NoncesAre, KeepLast, Keyed, DistinctIds;
    var rows, was := Rows(items), done[i];
    MovesToTheEnd(done, i, rows[k]);
    KeptNodes(rows, k, done);
    Displaced(items, x.container, done, i, rows[k..]);
    assert rows[k..][1..] == rows[k + 1..];
    KeptStep(rows, k, done);
    assert was in done;
    var d: nat :| Stays(rows, k, d) && rows[d] == was;
    AdoptStep(rows, k, x.nonces, Some(was), d);
  }

  lemma AdoptNothing(items: seq<Item>, x: Index)
    requires x == Index([], map[], items)
    ensures Adopting(items, 0, [], x)
  {
    assert [] + Rows(items)[0..] == Rows(items);
    assert Keyed([]) == [];
  }

  lemma AdoptRow(items: seq<Item>, k: nat, done: seq<Node>, x: Index)
    requires Adopting(items, k, done, x) && k < |Rows(items)| && DistinctNodes(Rows(items))
    ensures var node := Rows(items)[k];
            Adopting(items, k + 1, AdoptedRows(done, node), Adopted(x, Get(Keyed(done), node.id), node))
    ensures x.messages == Keyed(done) && DistinctIds(done)
  {
    KeyedFind(done, Rows(items)[k].id);
    if i :| 0 <= i < |done| && done[i].id == Rows(items)[k].id {
      AdoptAgain(items, k, done, x, i);
    } else {
      AdoptFresh(items, k, done, x);
    }
  }

  /** Once every row is adopted the indexes are linked to the container, which has
      lost nothing but the earlier rows of an id. */
  lemma AdoptedAll(items: seq<Item>, done: seq<Node>, x: Index)
    requires Adopting(items, |Rows(items)|, done, x) && DistinctNodes(Rows(items))
    ensures Linked(x) && x.container == KeepLast(items) && Rows(x.container) == done
  {
    var rows := Rows(items);
    assert done + rows[|rows|..] == done;
    KeepLastKeepsAll(x.container);
    forall n | n in x.nonces ensures IsLive(done, n, x.nonces[n]) {
      var j: nat :| Indexed(rows, |rows|, n, j) && x.nonces[n] == rows[j].id;
      assert Stays(rows, |rows|, j);
      var i :| 0 <= i < |done| && done[i] == rows[j];
    }
  }

  /** After the oldest rows have gone, each row left is indexed by its nonce exactly when
      it is the last of the document to carry it. */
  lemma CoherentExactly(items: seq<Item>, done: seq<Node>, x: Index, y: Index)
    requires Adopting(items, |Rows(items)|, done, x) && DistinctNodes(Rows(items))
    requires forall r :: r in Rows(y.container) ==> r in done
    requires SameAnswers(Rows(y.container), x.nonces, y.nonces)
    ensures IndexedExactly(Rows(items), Rows(y.container), y.nonces)
    ensures Coherent(y) <==> LastOfTheirNonce(Rows(items), Rows(y.container))
  {
    var rows, kept := Rows(items), Rows(y.container);
    forall i: nat | i < |rows| && rows[i] in kept && rows[i].nonce.Some?
      ensures Lookup(y.nonces, rows[i].nonce) == Some(rows[i].id) <==> LastCarrier(rows, i)
    {
      var j: nat :| Stays(rows, |rows|, j) && rows[j] == rows[i];
      RowIndexed(rows, x.nonces, i);
    }
    forall r | r in kept ensures r in rows {
      var j: nat :| Stays(rows, |rows|, j) && rows[j] == r;
    }
    CoveredExactly(rows, y.nonces, kept);
  }
}
