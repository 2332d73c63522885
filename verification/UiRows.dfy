/** Message rows and separators of a chat container, and the plain list operations
    the timeline is measured against. */
module UiRows {
  import opened Options
  import opened Sequences
  import opened OrderedMap

  /** A rendered message: a DOM node, told apart from all others by its serial, with
      the two data attributes the code looks at. */
  datatype Node = Node(serial: nat, id: string, nonce: Option<string>, body: string)

  datatype Item = Row(node: Node) | Separator(caption: string)

  datatype Message = Message(id: Option<string>, nonce: Option<string>, body: string)

  /** renderMessage, as far as the timeline can see: the id is the message's own or
      a generated one. */
  function Render(m: Message, uid: string, serial: nat): Node {
    Node(serial, if m.id.Some? then m.id.value else uid, m.nonce, m.body)
  }

  /** What clamp leaves of the option maxMessages. */
  predicate LegalMax(max: nat) { 1 <= max <= 20000 }

  function Rows(c: seq<Item>): seq<Node> {
    if c == [] then [] else if c[0].Row? then [c[0].node] + Rows(c[1..]) else Rows(c[1..])
  }

  function Separators(c: seq<Item>): seq<Item> {
    if c == [] then [] else if c[0].Row? then Separators(c[1..]) else [c[0]] + Separators(c[1..])
  }

  ghost predicate DistinctIds(rows: seq<Node>) {
    forall i, j :: 0 <= i < j < |rows| ==> rows[i].id != rows[j].id
  }

  predicate HasId(rows: seq<Node>, id: string) {
    exists i :: 0 <= i < |rows| && rows[i].id == id
  }

  // ---- the DOM operations, by node ----

  /** node.remove(). */
  function Drop(c: seq<Item>, n: Node): seq<Item> {
    if c == [] then [] else if c[0] == Row(n) then Drop(c[1..], n) else [c[0]] + Drop(c[1..], n)
  }

  /** prior.replaceWith(node). */
  function Swap(c: seq<Item>, prior: Node, node: Node): seq<Item> {
    if c == [] then [] else [if c[0] == Row(prior) then Row(node) else c[0]] + Swap(c[1..], prior, node)
  }

  // ---- the plain list operations, by id ----

  predicate IsRow(x: Item, id: string) { x.Row? && x.node.id == id }

  function DropRow(c: seq<Item>, id: string): seq<Item> {
    if c == [] then [] else if IsRow(c[0], id) then DropRow(c[1..], id) else [c[0]] + DropRow(c[1..], id)
  }

  function ReplaceRow(c: seq<Item>, id: string, node: Node): seq<Item> {
    if c == [] then [] else [if IsRow(c[0], id) then Row(node) else c[0]] + ReplaceRow(c[1..], id, node)
  }

  /** Without the k oldest rows. */
  function EvictOldest(c: seq<Item>, k: nat): seq<Item> {
    if c == [] || k == 0 then c
    else if c[0].Row? then EvictOldest(c[1..], k - 1)
    else [c[0]] + EvictOldest(c[1..], k)
  }

  function Excess(c: seq<Item>, max: nat): nat {
    if |Rows(c)| > max then |Rows(c)| - max else 0
  }

  // ---- lists of rows ----

  function Without(rows: seq<Node>, id: string): (r: seq<Node>)
    ensures forall n :: n in r <==> n in rows && n.id != id
  {
    if rows == [] then []
    else
      assert rows == [rows[0]] + rows[1..];
      if rows[0].id == id then Without(rows[1..], id) else [rows[0]] + Without(rows[1..], id)
  }

  function Replaced(rows: seq<Node>, id: string, node: Node): seq<Node> {
    if rows == [] then []
    else [if rows[0].id == id then node else rows[0]] + Replaced(rows[1..], id, node)
  }

  lemma {:induction false} RowsConcat(a: seq<Item>, b: seq<Item>)
    ensures Rows(a + b) == Rows(a) + Rows(b)
    ensures Separators(a + b) == Separators(a) + Separators(b)
    decreases |a|
  {
    if a == [] {
      assert a + b == b;
    } else {
      assert (a + b)[1..] == a[1..] + b && (a + b)[0] == a[0];
      RowsConcat(a[1..], b);
      if a[0].Row? {
        Assoc([a[0].node], Rows(a[1..]), Rows(b));
      } else {
        Assoc([a[0]], Separators(a[1..]), Separators(b));
      }
    }
  }

  lemma {:induction false} RowsOfDropRow(c: seq<Item>, id: string)
    ensures Rows(DropRow(c, id)) == Without(Rows(c), id)
    ensures Separators(DropRow(c, id)) == Separators(c)
    decreases |c|
  {
    if c != [] {
      RowsOfDropRow(c[1..], id);
    }
  }

  lemma {:induction false} RowsOfReplaceRow(c: seq<Item>, id: string, node: Node)
    ensures Rows(ReplaceRow(c, id, node)) == Replaced(Rows(c), id, node)
    ensures Separators(ReplaceRow(c, id, node)) == Separators(c)
    decreases |c|
  {
    if c != [] {
      RowsOfReplaceRow(c[1..], id, node);
      var rest := ReplaceRow(c[1..], id, node);
      assert ReplaceRow(c, id, node)[1..] == rest;
    }
  }

  lemma {:induction false} RowsOfEvict(c: seq<Item>, k: nat)
    requires k <= |Rows(c)|
    ensures Rows(EvictOldest(c, k)) == Rows(c)[k..]
    ensures Separators(EvictOldest(c, k)) == Separators(c)
    decreases |c|
  {
    if c != [] && k > 0 {
      if c[0].Row? {
        RowsOfEvict(c[1..], k - 1);
      } else {
        RowsOfEvict(c[1..], k);
        assert EvictOldest(c, k)[1..] == EvictOldest(c[1..], k);
      }
    }
  }

  /** With distinct ids, removing a node is dropping the row of its id. */
  lemma {:induction false} DropIsDropRow(c: seq<Item>, n: Node)
    requires forall x :: x in Rows(c) && x.id == n.id ==> x == n
    ensures Drop(c, n) == DropRow(c, n.id)
    decreases |c|
  {
    if c != [] {
      DropIsDropRow(c[1..], n);
    }
  }

  lemma {:induction false} SwapIsReplaceRow(c: seq<Item>, prior: Node, node: Node)
    requires forall x :: x in Rows(c) && x.id == prior.id ==> x == prior
    ensures Swap(c, prior, node) == ReplaceRow(c, prior.id, node)
    decreases |c|
  {
    if c != [] {
      SwapIsReplaceRow(c[1..], prior, node);
    }
  }

  /** Evicting one more row is removing the oldest that is left. */
  lemma {:induction false} EvictOneMore(c: seq<Item>, k: nat)
    requires k < |Rows(c)| && DistinctIds(Rows(c))
    ensures DropRow(EvictOldest(c, k), Rows(c)[k].id) == EvictOldest(c, k + 1)
    decreases |c|
  {
    hide DistinctIds;
    var rest := c[1..];
    if c[0].Row? {
      assert Rows(c)[1..] == Rows(rest) && Rows(c)[0] == c[0].node;
      LaterDistinct(Rows(c));
      if k == 0 {
        DropNobody(rest, c[0].node.id);
      } else {
        EvictOneMore(rest, k - 1);
      }
    } else {
      EvictOneMore(rest, k);
      if k > 0 {
        assert EvictOldest(c, k)[1..] == EvictOldest(rest, k);
      } else {
        assert c == [c[0]] + rest;
      }
    }
  }

  lemma LaterRows(c: seq<Item>)
    requires c != []
    ensures forall x :: x in Rows(c[1..]) ==> x in Rows(c)
    ensures c[0].Row? ==> c[0].node in Rows(c)
  {
    if c[0].Row? {
      assert Rows(c) == [c[0].node] + Rows(c[1..]);
    }
  }

  lemma {:induction false} DropNobody(c: seq<Item>, id: string)
    requires forall x :: x in Rows(c) ==> x.id != id
    ensures DropRow(c, id) == c
    decreases |c|
  {
    if c != [] {
      LaterRows(c);
      DropNobody(c[1..], id);
      assert c == [c[0]] + c[1..];
    }
  }

  lemma {:induction false} ReplaceNobody(c: seq<Item>, id: string, node: Node)
    requires forall x :: x in Rows(c) ==> x.id != id
    ensures ReplaceRow(c, id, node) == c
    decreases |c|
  {
    if c != [] {
      LaterRows(c);
      ReplaceNobody(c[1..], id, node);
      assert c == [c[0]] + c[1..];
    }
  }

  // ---- distinct ids by position ----

  lemma {:induction false} WithoutAt(rows: seq<Node>, i: nat)
    requires i < |rows| && DistinctIds(rows)
    ensures Without(rows, rows[i].id) == rows[..i] + rows[i + 1..]
    decreases |rows|
  {
    hide DistinctIds, Without;
    var rest, id := rows[1..], rows[i].id;
    LaterDistinct(rows);
    if i == 0 {
      WithoutFirst(rows);
      WithoutNobody(rest, id);
      assert rows[..0] + rest == rest;
    } else {
      WithoutAt(rest, i - 1);
      WithoutLater(rows, id);
      Shifted(rows, i);
    }
  }

  lemma WithoutFirst(rows: seq<Node>)
    requires rows != []
    ensures Without(rows, rows[0].id) == Without(rows[1..], rows[0].id)
  {
  }

  lemma WithoutLater(rows: seq<Node>, id: string)
    requires rows != [] && rows[0].id != id
    ensures Without(rows, id) == [rows[0]] + Without(rows[1..], id)
  {
  }

  lemma Shifted<T>(s: seq<T>, i: nat)
    requires 0 < i < |s|
    ensures s[1..][i - 1] == s[i]
    ensures [s[0]] + (s[1..][..i - 1] + s[1..][i..]) == s[..i] + s[i + 1..]
  {
  }

  lemma LaterDistinct(rows: seq<Node>)
    requires rows != [] && DistinctIds(rows)
    ensures DistinctIds(rows[1..])
    ensures forall i :: 0 <= i < |rows[1..]| ==> rows[1..][i].id != rows[0].id
  {
  }

  lemma {:induction false} WithoutNobody(rows: seq<Node>, id: string)
    requires forall i :: 0 <= i < |rows| ==> rows[i].id != id
    ensures Without(rows, id) == rows
    decreases |rows|
  {
    if rows != [] {
      WithoutNobody(rows[1..], id);
    }
  }

  lemma {:induction false} ReplacedAt(rows: seq<Node>, i: nat, node: Node)
    requires i < |rows| && DistinctIds(rows)
    ensures Replaced(rows, rows[i].id, node) == rows[i := node]
    decreases |rows|
  {
    var rest := rows[1..];
    if i == 0 {
      ReplacedNobody(rest, rows[0].id, node);
    } else {
      ReplacedAt(rest, i - 1, node);
    }
  }

  lemma {:induction false} ReplacedNobody(rows: seq<Node>, id: string, node: Node)
    requires forall i :: 0 <= i < |rows| ==> rows[i].id != id
    ensures Replaced(rows, id, node) == rows
    decreases |rows|
  {
    if rows != [] {
      ReplacedNobody(rows[1..], id, node);
    }
  }
}
