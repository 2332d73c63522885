/** The byte stream as a sequence of length-prefixed packets. */
module WireStream {
  import opened WireBytes
  import opened WireCodec
  import opened Sequences

  /** A body length the reader is willing to allocate. */
  predicate GoodLength(n: int) { 7 <= n <= MAX_FRAME }

  ghost predicate GoodBodies(bodies: seq<seq<byte>>) {
    forall i :: 0 <= i < |bodies| ==> GoodLength(|bodies[i]|)
  }

  function Packet(body: seq<byte>): seq<byte> {
    U32(Low32(|body|)) + body
  }

  /** The stream that carries the given bodies, one after the other. */
  ghost function Packets(bodies: seq<seq<byte>>): seq<byte> {
    if bodies == [] then []
    else Packets(bodies[..|bodies| - 1]) + Packet(bodies[|bodies| - 1])
  }

  lemma PacketsSnoc(bodies: seq<seq<byte>>, body: seq<byte>)
    ensures Packets(bodies + [body]) == Packets(bodies) + Packet(body)
  {
    assert (bodies + [body])[..|bodies|] == bodies;
  }

  lemma {:induction false} PacketsConcat(a: seq<seq<byte>>, b: seq<seq<byte>>)
    ensures Packets(a + b) == Packets(a) + Packets(b)
    decreases |b|
  {
    if b == [] {
      assert a + b == a;
    } else {
      var c, last := b[..|b| - 1], b[|b| - 1];
      TakeLast(b);
      Assoc(a, c, [last]);
      PacketsConcat(a, c);
      PacketsSnoc(a + c, last);
      Assoc(Packets(a), Packets(c), Packet(last));
    }
  }

  /** A whole packet starts here: a good length and all of its body. */
  predicate Complete(s: seq<byte>) {
    |s| >= 4 && GoodLength(Num(s[..4])) && |s| >= 4 + Num(s[..4])
  }

  /** A length the reader rejects stands at the front. */
  predicate Poisoned(s: seq<byte>) {
    |s| >= 4 && !GoodLength(Num(s[..4]))
  }

  /** Reading an unsplit stream in one go: its bodies in order. */
  ghost function Split(s: seq<byte>): (bodies: seq<seq<byte>>)
    ensures GoodBodies(bodies)
    decreases |s|
  {
    if !Complete(s) then []
    else [s[4..4 + Num(s[..4])]] + Split(s[4 + Num(s[..4])..])
  }

  lemma CompletePacket(body: seq<byte>, rest: seq<byte>)
    requires GoodLength(|body|)
    ensures var s := Packet(body) + rest;
            && Complete(s) && Num(s[..4]) == |body|
            && s[4..4 + |body|] == body && s[4 + |body|..] == rest
  {
    var s := Packet(body) + rest;
    NumOfU32(|body|);
    assert s[..4] == U32(|body|);
  }

  lemma SplitPacket(body: seq<byte>, rest: seq<byte>)
    requires GoodLength(|body|)
    ensures Split(Packet(body) + rest) == [body] + Split(rest)
  {
    CompletePacket(body, rest);
  }

  /** Splitting undoes packing: whatever follows the packets, the bodies come
      out first and the rest is split by itself. */
  lemma {:induction false} SplitPackets(bodies: seq<seq<byte>>, rest: seq<byte>)
    requires GoodBodies(bodies)
    ensures Split(Packets(bodies) + rest) == bodies + Split(rest)
    decreases |bodies|
  {
    if bodies == [] {
      assert Packets(bodies) + rest == rest;
    } else {
      var init, last := bodies[..|bodies| - 1], bodies[|bodies| - 1];
      TakeLast(bodies);
      Assoc(Packets(init), Packet(last), rest);
      SplitPackets(init, Packet(last) + rest);
      SplitPacket(last, rest);
      Assoc(init, [last], Split(rest));
    }
  }

  /** More bytes never change the bodies already complete. */
  lemma {:induction false} SplitMonotone(s: seq<byte>, more: seq<byte>)
    ensures Split(s) <= Split(s + more)
    decreases |s|
  {
    if Complete(s) {
      var n := 4 + Num(s[..4]);
      assert (s + more)[..4] == s[..4];
      assert (s + more)[4..n] == s[4..n];
      assert (s + more)[n..] == s[n..] + more;
      SplitMonotone(s[n..], more);
    }
  }

  lemma SplitGrows(s: seq<byte>, t: seq<byte>)
    requires s <= t
    ensures Split(s) <= Split(t)
  {
    assert t == s + t[|s|..];
    SplitMonotone(s, t[|s|..]);
  }

  /** A stream has one reading: packets followed by an incomplete or rejected
      tail determine both the bodies and the tail. */
  lemma ReadingIsUnique(a: seq<seq<byte>>, s: seq<byte>, b: seq<seq<byte>>, t: seq<byte>)
    requires GoodBodies(a) && GoodBodies(b)
    requires !Complete(s) && !Complete(t)
    requires Packets(a) + s == Packets(b) + t
    ensures a == b && s == t
  {
    SplitPackets(a, s);
    SplitPackets(b, t);
    assert a == b by {
      assert a + [] == a && b + [] == b;
    }
    DropAppended(Packets(a), s);
    DropAppended(Packets(a), t);
  }
}
