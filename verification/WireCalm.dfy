/** A peer and a network that fail nothing: then only the bytes matter, not how they
    are cut up, delayed or interrupted. */
module WireCalm {
  import opened Options
  import opened WireBytes
  import opened WireCodec
  import opened WireStream
  import opened WireHost
  import opened WireReader
  import opened WireEvents
  import opened WireLedger
  import opened Sequences

  /** Bytes, interruptions and waits that end well; no deadline, break or close. */
  predicate Calm(arrivals: seq<Arrival>) {
    forall i :: 0 <= i < |arrivals| ==>
      || (arrivals[i].Chunk? && arrivals[i].data != [])
      || arrivals[i] == Interrupted || arrivals[i] == NotReady(Wait.Ready)
  }

  /** A blocking wait takes the bytes it needs, or all there are. */
  ghost predicate CalmWait(d: Drained, all: seq<byte>, need: nat) {
    && Calm(d.rest)
    && if need <= |all| then d.rc == Ok && d.data == all[..need] && Incoming(d.rest) == all[need..]
       else d.rc == ErrTimeout && d.data == all && Incoming(d.rest) == []
  }

  lemma {:induction false} CalmDrain(arrivals: seq<Arrival>, need: nat)
    requires Calm(arrivals)
    ensures CalmWait(Drain(arrivals, need, false), Incoming(arrivals), need)
    decreases need, |arrivals|
  {
    hide CalmWait;
    if need == 0 {
      CalmNothing(arrivals);
    } else if arrivals != [] {
      if arrivals[0].Chunk? {
        var data := arrivals[0].data;
        var n := Min(need, |data|);
        var rest := AfterTaking(arrivals, n);
        TakingConserves(arrivals, n);
        CalmTaking(arrivals, n);
        CalmDrain(rest, need - n);
        CalmOn(data[..n], Drain(rest, need - n, false), Incoming(rest), need - n);
      } else {
        CalmDrain(arrivals[1..], need);
        assert [] + Incoming(arrivals[1..]) == Incoming(arrivals[1..]);
      }
    } else {
      assert CalmWait(Drained(ErrTimeout, [], []), [], need) by { CalmEmpty(need); }
    }
  }

  lemma CalmNothing(arrivals: seq<Arrival>)
    requires Calm(arrivals)
    ensures CalmWait(Drained(Ok, [], arrivals), Incoming(arrivals), 0)
  {
    var all := Incoming(arrivals);
    assert all[..0] == [] && all[0..] == all;
  }

  lemma CalmEmpty(need: nat)
    requires need > 0
    ensures CalmWait(Drained(ErrTimeout, [], []), [], need)
  {
  }

  /** Bytes at hand, and then a wait for the others. */
  lemma CalmOn(first: seq<byte>, d: Drained, all: seq<byte>, need: nat)
    requires CalmWait(d, all, need)
    ensures CalmWait(After(first, d), first + all, |first| + need)
  {
    Splits(first, all, need);
  }

  lemma CalmTaking(arrivals: seq<Arrival>, n: nat)
    requires Calm(arrivals) && arrivals != [] && arrivals[0].Chunk? && n <= |arrivals[0].data|
    ensures Calm(AfterTaking(arrivals, n))
  {
  }

  lemma Splits(a: seq<byte>, b: seq<byte>, k: nat)
    ensures k <= |b| ==> (a + b)[..|a| + k] == a + b[..k] && (a + b)[|a| + k..] == b[k..]
  {
  }

  /** What a blocking read must come to when the given bytes are all there will be. */
  ghost predicate CalmEnd(o: Reading, all: seq<byte>) {
    && Calm(o.arrivals) && o.partial + Incoming(o.arrivals) == all
    && (o.rc == Ok <==> Complete(all))
    && (o.rc == ErrProtocol <==> Poisoned(all))
    && (o.rc !in {Ok, ErrProtocol} ==> o.rc == ErrTimeout && o.partial == all)
  }

  lemma {:induction false} CalmBody(partial: seq<byte>, xs: seq<Arrival>, refusals: seq<bool>)
    requires ReaderState(partial, true) && Calm(xs)
    ensures CalmEnd(ReadBody(partial, xs, refusals, false), partial + Incoming(xs))
  {
    var need, all := 4 + Num(partial[..4]) - |partial|, partial + Incoming(xs);
    CalmDrain(xs, need);
    var d := Drain(xs, need, false);
    Assoc(partial, d.data, Incoming(d.rest));
    DrainConserves(xs, need, false);
    assert all[..4] == partial[..4];
  }

  lemma {:induction false} CalmReadOn(partial: seq<byte>, room: bool, xs: seq<Arrival>)
    requires ReaderState(partial, room) && |partial| >= 4 && Calm(xs)
    ensures CalmEnd(ReadOn(partial, room, xs, [], false), partial + Incoming(xs))
  {
    hide ReadBody, Calm;
    if room || GoodLength(Num(partial[..4])) {
      CalmBody(partial, xs, []);
    } else {
      assert (partial + Incoming(xs))[..4] == partial[..4];
    }
  }

  /** A blocking read on a calm connection, with memory: it brings the next packet when
      that is complete in the bytes saved and to come, refuses a bad length, and otherwise
      waits in vain with every byte saved.  An answer at hand is never timed out. */
  lemma {:induction false} CalmRead(partial: seq<byte>, room: bool, xs: seq<Arrival>)
    requires ReaderState(partial, room) && Calm(xs)
    ensures CalmEnd(ReadScript(partial, room, xs, [], false), partial + Incoming(xs))
  {
    hide ReadOn, Calm;
    var need := HeaderNeeds(partial);
    CalmDrain(xs, need);
    DrainConserves(xs, need, false);
    var d := Drain(xs, need, false);
    Assoc(partial, d.data, Incoming(d.rest));
    assert partial + [] == partial;
    if d.rc == Ok {
      CalmReadOn(partial + d.data, room, d.rest);
    }
  }

  /** Two scripts of one stream. */
  ghost predicate SameBytes(xs: seq<Arrival>, ys: seq<Arrival>) {
    Calm(xs) && Calm(ys) && Incoming(xs) == Incoming(ys)
  }

  lemma {:induction false} SameDrain(xs: seq<Arrival>, ys: seq<Arrival>, need: nat)
    requires SameBytes(xs, ys)
    ensures var d, e := Drain(xs, need, false), Drain(ys, need, false);
            d.rc == e.rc && d.data == e.data && SameBytes(d.rest, e.rest)
  {
    CalmDrain(xs, need);
    CalmDrain(ys, need);
  }

  ghost predicate SameReading(o: Reading, p: Reading) {
    p == o.(arrivals := p.arrivals) && SameBytes(o.arrivals, p.arrivals)
  }

  /** Both scripts end a read in the same way, whatever malloc answers. */
  lemma {:induction false} SameRead(partial: seq<byte>, room: bool, xs: seq<Arrival>, ys: seq<Arrival>, refusals: seq<bool>)
    requires ReaderState(partial, room) && SameBytes(xs, ys)
    ensures SameReading(ReadScript(partial, room, xs, refusals, false), ReadScript(partial, room, ys, refusals, false))
  {
    var need := HeaderNeeds(partial);
    SameDrain(xs, ys, need);
    var d, e := Drain(xs, need, false), Drain(ys, need, false);
    if d.rc == Ok {
      DrainConserves(xs, need, false);
      assert partial + [] == partial;
      SameReadOn(partial + d.data, room, d.rest, e.rest, refusals);
    }
  }

  lemma {:induction false} SameReadOn(partial: seq<byte>, room: bool, xs: seq<Arrival>, ys: seq<Arrival>, refusals: seq<bool>)
    requires ReaderState(partial, room) && |partial| >= 4 && SameBytes(xs, ys)
    ensures SameReading(ReadOn(partial, room, xs, refusals, false), ReadOn(partial, room, ys, refusals, false))
  {
    if room || (GoodLength(Num(partial[..4])) && Allowed(refusals)) {
      SameDrain(xs, ys, 4 + Num(partial[..4]) - |partial|);
    }
  }

  // ---- two clients whose streams are cut up differently ----

  /** The same books, but for how the bytes to come are cut up. */
  function Recut(b: Books, xs: seq<Arrival>): Books {
    b.(ahead := b.ahead.(arrivals := xs))
  }

  ghost predicate Alike(b: Books, c: Books) {
    c == Recut(b, c.ahead.arrivals) && SameBytes(b.ahead.arrivals, c.ahead.arrivals)
  }

  lemma {:induction false} SameReadStep(b: Books, c: Books)
    requires Alike(b, c) && Resumable(b)
    ensures ReadStep(b, false).0 == ReadStep(c, false).0 && Alike(ReadStep(b, false).1, ReadStep(c, false).1)
  {
    SameRead(b.partial, b.room, b.ahead.arrivals, c.ahead.arrivals, b.ahead.refusals);
  }

  /** The same end, and alike books. */
  ghost predicate SameEnd(t: Ended, u: Ended) {
    t.again == u.again && t.rc == u.rc && t.response == u.response && Alike(t.books, u.books)
  }

  /** Copying an event does not look at what is to come. */
  lemma CopyRecut(b: Books, f: Frame, xs: seq<Arrival>)
    ensures CopyStep(Recut(b, xs), f) == (CopyStep(b, f).0, Recut(CopyStep(b, f).1, xs))
    ensures CopyStep(b, f).1.ahead.arrivals == b.ahead.arrivals
  {
  }

  /** Nor does considering a frame. */
  lemma {:induction false} ConsiderRecut(b: Books, body: seq<byte>, r: Sent, capacity: nat, xs: seq<Arrival>)
    ensures var t := ConsiderStep(b, body, r, capacity);
            && ConsiderStep(Recut(b, xs), body, r, capacity) == t.(books := Recut(t.books, xs))
            && t.books.ahead.arrivals == b.ahead.arrivals
            && (t.again ==> t.books.partial == b.partial && t.books.room == b.room)
  {
    if Decode(body).Some? && Decode(body).value.kind == KIND_EVENT && |b.queued| != capacity {
      CopyRecut(b, Decode(body).value, xs);
    }
  }

  lemma {:induction false} SameAwait(b: Books, c: Books, r: Sent, capacity: nat)
    requires Alike(b, c) && Resumable(b) && Resumable(c)
    ensures SameEnd(AwaitSpec(b, r, capacity), AwaitSpec(c, r, capacity))
    decreases |Incoming(b.ahead.arrivals)|
  {
    hide ReadStep, ConsiderStep;
    SameReadStep(b, c);
    ReadShrinks(b, false);
    ReadShrinks(c, false);
    var (rc, x) := ReadStep(b, false);
    var (_, y) := ReadStep(c, false);
    if rc == Ok {
      SameTurn(x, y, r, capacity);
      var t := ConsiderStep(x, x.bodies[|x.bodies| - 1], r, capacity);
      var u := ConsiderStep(y, y.bodies[|y.bodies| - 1], r, capacity);
      if t.again {
        SameAwait(t.books, u.books, r, capacity);
      }
    }
  }

  /** The frame just read is the same for both. */
  lemma SameTurn(x: Books, y: Books, r: Sent, capacity: nat)
    requires Alike(x, y) && x.bodies != []
    ensures y.bodies == x.bodies
    ensures var t := ConsiderStep(x, x.bodies[|x.bodies| - 1], r, capacity);
            var u := ConsiderStep(y, y.bodies[|y.bodies| - 1], r, capacity);
            && SameEnd(t, u) && t.books.ahead.arrivals == x.ahead.arrivals
            && (t.again ==> (Resumable(x) ==> Resumable(t.books)) && (Resumable(y) ==> Resumable(u.books)))
  {
    hide ConsiderStep, SameBytes;
    ConsiderRecut(x, x.bodies[|x.bodies| - 1], r, capacity, y.ahead.arrivals);
    ConsiderRecut(y, x.bodies[|x.bodies| - 1], r, capacity, x.ahead.arrivals);
  }

  lemma {:induction false} SameSend(b: Books, c: Books, r: Sent, capacity: nat)
    requires Alike(b, c) && Resumable(b) && Resumable(c)
    ensures SameEnd(SendSpec(b, r, capacity), SendSpec(c, r, capacity))
  {
    var w := Write(b.ahead.departures, Packet(RequestBody(r)));
    if w.rc == Ok {
      var sent, wire := b.sent + [r], b.wire + w.sent;
      SameAwait(b.(wire := wire, ahead := b.ahead.(departures := w.rest), sent := sent),
                c.(wire := wire, ahead := c.ahead.(departures := w.rest), sent := sent), r, capacity);
    }
  }

  /** A request ends in the same way and leaves the same books. */
  lemma {:induction false} SameRequest(b: Books, c: Books, op: byte, fields: seq<byte>, capacity: nat)
    requires Alike(b, c) && Resumable(b) && Resumable(c)
    ensures SameEnd(RequestSpec(b, op, fields, capacity), RequestSpec(c, op, fields, capacity))
  {
    var p, q := Prepare(b, op, fields), Prepare(c, op, fields);
    if p.Prepared? {
      SameSend(p.books, q.books, p.r, capacity);
    }
  }

  lemma HandOverRecut(b: Books, body: seq<byte>, xs: seq<Arrival>)
    ensures var t := HandOverSpec(b, body);
            && HandOverSpec(Recut(b, xs), body) == t.(books := Recut(t.books, xs))
            && t.books.ahead.arrivals == b.ahead.arrivals
  {
    if Decode(body).Some? {
      CopyRecut(b, Decode(body).value, xs);
    }
  }

  /** So does a poll that waits. */
  lemma {:induction false} SamePoll(b: Books, c: Books)
    requires Alike(b, c) && Resumable(b) && Resumable(c)
    ensures var t, u := PollSpec(b, false), PollSpec(c, false);
            t.rc == u.rc && t.event == u.event && Alike(t.books, u.books)
  {
    hide ReadStep, HandOverSpec, SameBytes;
    if b.queued == [] && b.open {
      SameReadStep(b, c);
      ReadShrinks(b, false);
      var (rc, x) := ReadStep(b, false);
      var (_, y) := ReadStep(c, false);
      if rc == Ok {
        HandOverRecut(x, x.bodies[|x.bodies| - 1], y.ahead.arrivals);
      }
    }
  }
}
