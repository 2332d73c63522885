/** How the waits, reads, writes and polls end, told from the scripts alone: what is at
    hand before something stops a wait decides, and what stops it gives the reason. */
module WireEnds {
  import opened Options
  import opened WireBytes
  import opened WireCodec
  import opened WireStream
  import opened WireHost
  import opened WireReader
  import opened WireEvents
  import opened WireLedger
  import opened WireCalls
  import opened Sequences

  // ---- waits ----

  /** What does not end a wait: bytes and interruptions; that the socket is ready, when
      the call may block; the clock, when it may not. */
  ghost predicate Going(pre: seq<Arrival>, nonblocking: bool) {
    forall i :: 0 <= i < |pre| ==>
      match pre[i]
      case Chunk(data) => data != []
      case Interrupted => true
      case NotReady(wait) => !nonblocking && wait == Ready
      case Broken => false
      case Expired => nonblocking
  }

  /** What does: the end of the script, the peer's end, an error, the deadline, or that
      there is nothing to be had. */
  ghost predicate Stops(post: seq<Arrival>, nonblocking: bool) {
    post == [] ||
      match post[0]
      case Chunk(data) => data == []
      case Interrupted => false
      case NotReady(wait) => nonblocking || wait != Ready
      case Broken => true
      case Expired => !nonblocking
  }

  /** The reason a stopped wait reports. */
  ghost function Reason(post: seq<Arrival>, nonblocking: bool): Result {
    if post == [] then ErrTimeout
    else match post[0]
      case Chunk(_) => ErrClosed
      case Broken => ErrIo
      case NotReady(wait) =>
        if nonblocking || wait == TimedOut then ErrTimeout else if wait == HungUp then ErrClosed else ErrIo
      case _ => ErrTimeout
  }

  ghost function Behind(post: seq<Arrival>): seq<Arrival> { if post == [] then [] else post[1..] }

  /** Every script is something that goes on and then something that stops. */
  lemma {:induction false} Divided(arrivals: seq<Arrival>, nonblocking: bool) returns (pre: seq<Arrival>, post: seq<Arrival>)
    ensures arrivals == pre + post && Going(pre, nonblocking) && Stops(post, nonblocking)
    decreases |arrivals|
  {
    if Stops(arrivals, nonblocking) {
      pre, post := [], arrivals;
    } else {
      pre, post := Divided(arrivals[1..], nonblocking);
      pre := [arrivals[0]] + pre;
    }
  }

  /** How a wait for need bytes ends when the bytes all are at hand. */
  ghost predicate WaitEnds(d: Drained, all: seq<byte>, need: nat, left: seq<Arrival>, post: seq<Arrival>, nonblocking: bool) {
    if need <= |all| then
      && d == Drained(Ok, all[..need], left + post) && Going(left, nonblocking) && Incoming(left) == all[need..]
    else d == Drained(Reason(post, nonblocking), all, Behind(post))
  }

  /** A wait takes what it needs of the bytes at hand, or all of them and then reports
      what stopped it; a call that may not block reports a timeout. */
  lemma {:induction false} DrainDoes(pre: seq<Arrival>, post: seq<Arrival>, need: nat, nonblocking: bool)
    returns (left: seq<Arrival>)
    requires Going(pre, nonblocking) && Stops(post, nonblocking)
    ensures WaitEnds(Drain(pre + post, need, nonblocking), Incoming(pre), need, left, post, nonblocking)
    decreases need, |pre|
  {
    hide WaitEnds, Going, Stops;
    left := pre;
    if need == 0 {
      NothingNeeded(pre, post, nonblocking);
    } else if pre == [] {
      assert pre + post == post;
      Stopped(post, need, nonblocking);
    } else {
      GoesOn(pre, nonblocking);
      assert (pre + post)[0] == pre[0] && (pre + post)[1..] == pre[1..] + post;
      if pre[0].Chunk? {
        var n := Min(need, |pre[0].data|);
        TakenFrom(pre, post, n);
        TakingConserves(pre, n);
        TakingGoesOn(pre, n, nonblocking);
        left := DrainDoes(AfterTaking(pre, n), post, need - n, nonblocking);
        WaitsOn(pre[0].data[..n], Drain(AfterTaking(pre, n) + post, need - n, nonblocking),
                Incoming(AfterTaking(pre, n)), need - n, left, post, nonblocking);
      } else {
        left := DrainDoes(pre[1..], post, need, nonblocking);
        assert [] + Incoming(pre[1..]) == Incoming(pre[1..]);
      }
    }
  }

  lemma NothingNeeded(pre: seq<Arrival>, post: seq<Arrival>, nonblocking: bool)
    requires Going(pre, nonblocking)
    ensures WaitEnds(Drained(Ok, [], pre + post), Incoming(pre), 0, pre, post, nonblocking)
  {
    var all := Incoming(pre);
    assert all[..0] == [] && all[0..] == all;
  }

  lemma Stopped(post: seq<Arrival>, need: nat, nonblocking: bool)
    requires Stops(post, nonblocking) && need > 0
    ensures WaitEnds(Drain(post, need, nonblocking), [], need, [], post, nonblocking)
  {
  }

  lemma GoesOn(pre: seq<Arrival>, nonblocking: bool)
    requires Going(pre, nonblocking) && pre != []
    ensures Going(pre[1..], nonblocking)
    ensures match pre[0]
            case Chunk(data) => data != []
            case Interrupted => true
            case NotReady(wait) => !nonblocking && wait == Ready
            case Broken => false
            case Expired => nonblocking
  {
  }

  lemma TakenFrom(pre: seq<Arrival>, post: seq<Arrival>, n: nat)
    requires pre != [] && pre[0].Chunk? && n <= |pre[0].data|
    ensures AfterTaking(pre + post, n) == AfterTaking(pre, n) + post
  {
    assert (pre + post)[1..] == pre[1..] + post;
  }

  lemma TakingGoesOn(pre: seq<Arrival>, n: nat, nonblocking: bool)
    requires Going(pre, nonblocking) && pre != [] && pre[0].Chunk? && n <= |pre[0].data|
    ensures Going(AfterTaking(pre, n), nonblocking)
  {
  }

  lemma WaitsOn(first: seq<byte>, d: Drained, all: seq<byte>, need: nat, left: seq<Arrival>, post: seq<Arrival>,
                nonblocking: bool)
    requires WaitEnds(d, all, need, left, post, nonblocking)
    ensures WaitEnds(After(first, d), first + all, |first| + need, left, post, nonblocking)
  {
    if need <= |all| {
      assert (first + all)[..|first| + need] == first + all[..need];
      assert (first + all)[|first| + need..] == all[need..];
    }
  }

  // ---- reads ----

  /** How a read ends when all are the bytes saved and at hand: without a length it reports
      what stopped it; with one it refuses it, or wants memory, or waits for the body. */
  ghost predicate ReadTable(o: Reading, all: seq<byte>, room: bool, left: seq<Arrival>, post: seq<Arrival>,
                            refusals: seq<bool>, nonblocking: bool) {
    if |all| < 4 then o == Reading(Reason(post, nonblocking), all, room, Behind(post), refusals)
    else
      var len := Num(all[..4]);
      var later := if room || refusals == [] then refusals else refusals[1..];
      if !room && !(7 <= len <= 2097152) then
        o == Reading(ErrProtocol, all[..4], false, left + post, refusals) && Incoming(left) == all[4..]
      else if !room && refusals != [] && refusals[0] then
        o == Reading(ErrMemory, all[..4], false, left + post, later) && Incoming(left) == all[4..]
      else if |all| < 4 + len then o == Reading(Reason(post, nonblocking), all, true, Behind(post), later)
      else
        && o == Reading(Ok, all[..4 + len], true, left + post, later)
        && Going(left, nonblocking) && Incoming(left) == all[4 + len..]
  }

  lemma {:induction false} BodyDoes(partial: seq<byte>, pre: seq<Arrival>, post: seq<Arrival>, refusals: seq<bool>,
                                    nonblocking: bool) returns (left: seq<Arrival>)
    requires ReaderState(partial, true) && Going(pre, nonblocking) && Stops(post, nonblocking)
    ensures ReadTable(ReadBody(partial, pre + post, refusals, nonblocking), partial + Incoming(pre), true, left, post,
                      refusals, nonblocking)
  {
    hide Going, Stops, Reason;
    var need, more, all := 4 + Num(partial[..4]) - |partial|, Incoming(pre), partial + Incoming(pre);
    left := DrainDoes(pre, post, need, nonblocking);
    assert all[..4] == partial[..4];
    if need <= |more| {
      assert all[..4 + Num(all[..4])] == partial + more[..need] && all[4 + Num(all[..4])..] == more[need..];
    }
  }

  /** Behind a complete header. */
  lemma {:induction false} ReadOnDoes(partial: seq<byte>, room: bool, pre: seq<Arrival>, post: seq<Arrival>,
                                      refusals: seq<bool>, nonblocking: bool) returns (left: seq<Arrival>)
    requires ReaderState(partial, room) && |partial| >= 4 && Going(pre, nonblocking) && Stops(post, nonblocking)
    ensures ReadTable(ReadOn(partial, room, pre + post, refusals, nonblocking), partial + Incoming(pre), room, left,
                      post, refusals, nonblocking)
  {
    hide Going, Stops, Reason, ReadBody, Num;
    left := pre;
    var all := partial + Incoming(pre);
    assert all[..4] == partial[..4];
    if room {
      left := BodyDoes(partial, pre, post, refusals, nonblocking);
    } else if GoodLength(Num(partial[..4])) && Allowed(refusals) {
      left := BodyDoes(partial, pre, post, Later(refusals), nonblocking);
    } else {
      assert partial == partial[..4] && all[4..] == Incoming(pre);
    }
  }

  /** A read, whatever is saved, whatever comes and whatever the allocator says. */
  lemma {:induction false} ReadDoes(partial: seq<byte>, room: bool, pre: seq<Arrival>, post: seq<Arrival>,
                                    refusals: seq<bool>, nonblocking: bool) returns (left: seq<Arrival>)
    requires ReaderState(partial, room) && Going(pre, nonblocking) && Stops(post, nonblocking)
    ensures ReadTable(ReadScript(partial, room, pre + post, refusals, nonblocking), partial + Incoming(pre), room, left,
                      post, refusals, nonblocking)
  {
    hide Going, Stops, Reason, ReadOn, Num;
    var need, more := HeaderNeeds(partial), Incoming(pre);
    left := DrainDoes(pre, post, need, nonblocking);
    DrainConserves(pre + post, need, nonblocking);
    assert need == 0 ==> partial + more[..0] == partial;
    if need <= |more| {
      HeaderTaken(partial, more, need);
      left := ReadOnDoes(partial + more[..need], room, left, post, refusals, nonblocking);
    }
  }

  lemma HeaderTaken(partial: seq<byte>, more: seq<byte>, need: nat)
    requires need <= |more|
    ensures partial + more == (partial + more[..need]) + more[need..]
    ensures |partial| + need >= 4 ==> (partial + more)[..4] == (partial + more[..need])[..4]
    ensures |partial| + need == 4 ==> (partial + more)[..4] == partial + more[..need] && (partial + more)[4..] == more[need..]
  {
  }

  // ---- writes ----

  /** What does not end a write: some bytes go, interruptions, the socket becomes ready. */
  ghost predicate GoingOut(pre: seq<Departure>) {
    forall i :: 0 <= i < |pre| ==>
      match pre[i]
      case Accepted(n) => n > 0
      case SendInterrupted => true
      case Full(wait) => wait == Ready
      case _ => false
  }

  ghost predicate StopsOut(post: seq<Departure>) {
    post == [] ||
      match post[0]
      case Accepted(n) => n == 0
      case SendInterrupted => false
      case Full(wait) => wait != Ready
      case _ => true
  }

  ghost function ReasonOut(post: seq<Departure>): Result
    requires post != []
  {
    match post[0]
    case Full(wait) => if wait == TimedOut then ErrTimeout else if wait == HungUp then ErrClosed else ErrIo
    case SendExpired => ErrTimeout
    case _ => ErrIo
  }

  /** How many bytes are accepted before something stops a write. */
  ghost function Accepts(pre: seq<Departure>): nat {
    if pre == [] then 0 else (if pre[0].Accepted? then pre[0].n else 0) + Accepts(pre[1..])
  }

  /** A write that meets nothing to stop it puts everything on the wire; one that is
      stopped has put there what was accepted until then, and reports why. */
  lemma {:induction false} WriteDoes(pre: seq<Departure>, post: seq<Departure>, data: seq<byte>)
    requires GoingOut(pre) && StopsOut(post)
    ensures var w := Write(pre + post, data);
            if post == [] || |data| <= Accepts(pre) then w.rc == Ok && w.sent == data
            else w == Written(ReasonOut(post), data[..Accepts(pre)], post[1..])
    decreases |pre|
  {
    if data == [] {
    } else if pre == [] {
      assert pre + post == post && data[..0] == [];
    } else {
      assert (pre + post)[0] == pre[0] && (pre + post)[1..] == pre[1..] + post;
      if pre[0].Accepted? {
        var m := Min(pre[0].n, |data|);
        WriteDoes(pre[1..], post, data[m..]);
        assert data[..m] + data[m..] == data;
        if post != [] && |data| > Accepts(pre) {
          assert data[..m] + data[m..][..Accepts(pre[1..])] == data[..Accepts(pre)];
        }
      } else {
        WriteDoes(pre[1..], post, data);
      }
    }
  }

  // ---- polls ----

  /** What a poll makes of a read: a timeout saves every byte and leaves the stream open,
      any other failure ends it; a frame is an event that is handed over, or ends it too. */
  ghost predicate PollOf(b: Books, o: Reading, p: Polled) {
    && |b.partial| <= |o.partial|
    && var c := b.(taken := b.taken + o.partial[|b.partial|..],
                   ahead := Ahead(o.arrivals, b.ahead.departures, o.refusals));
       if o.rc == ErrTimeout then p == Polled(ErrTimeout, NO_EVENT, c.(partial := o.partial, room := o.room))
       else if o.rc != Ok then p == Polled(o.rc, NO_EVENT, c.(open := false, partial := [], room := false))
       else
         && |o.partial| >= 4
         && var body := o.partial[4..];
            var z := c.(bodies := b.bodies + [body], partial := [], room := false);
            if EventOf(body) == [] then p == Polled(ErrProtocol, NO_EVENT, z.(open := false))
            else
              && var e, spent := EventOf(body)[0], z.(ahead := p.books.ahead);
                 && spent == z.(ahead := z.ahead.(refusals := p.books.ahead.refusals))
                 && if forall i :: 0 <= i < Copies(e) && i < |o.refusals| ==> !o.refusals[i] then
                      p == Polled(Ok, e, spent.(delivered := b.delivered + [e]))
                    else p == Polled(ErrMemory, NO_EVENT, spent.(open := false))
  }

  /** Every way a poll can end.  Queued events come first, open or closed; a closed client
      without any answers so and nothing moves; an open one reads. */
  lemma {:induction false} PollDoes(b: Books, pre: seq<Arrival>, post: seq<Arrival>, nonblocking: bool)
    returns (left: seq<Arrival>, o: Reading)
    requires Resumable(b) && b.ahead.arrivals == pre + post && Going(pre, nonblocking) && Stops(post, nonblocking)
    ensures var p := PollSpec(b, nonblocking);
            if b.queued != [] then
              p == Polled(Ok, b.queued[0], b.(delivered := b.delivered + [b.queued[0]], queued := b.queued[1..]))
            else if !b.open then p == Polled(ErrClosed, NO_EVENT, b)
            else
              && ReadTable(o, b.partial + Incoming(pre), b.room, left, post, b.ahead.refusals, nonblocking)
              && PollOf(b, o, p)
  {
    hide Going, Stops, ReadTable, ReadScript, HandOverSpec, PollOf, ReaderState;
    left := ReadDoes(b.partial, b.room, pre, post, b.ahead.refusals, nonblocking);
    o := ReadScript(b.partial, b.room, b.ahead.arrivals, b.ahead.refusals, nonblocking);
    ReadEnds(b.partial, b.room, b.ahead.arrivals, b.ahead.refusals, nonblocking);
    if b.queued == [] && b.open {
      var (rc, c) := ReadStep(b, nonblocking);
      if rc == Ok {
        HandOverDoes(b, o, c);
      } else {
        assert PollOf(b, o, Polled(rc, NO_EVENT, if rc == ErrTimeout then c else Closed(c))) by { NoFrame(b, o, c); }
      }
    }
  }

  lemma NoFrame(b: Books, o: Reading, c: Books)
    requires |b.partial| <= |o.partial| && o.rc != Ok
    requires c == b.(taken := b.taken + o.partial[|b.partial|..], ahead := Ahead(o.arrivals, b.ahead.departures, o.refusals),
                     partial := o.partial, room := o.room)
    ensures PollOf(b, o, Polled(o.rc, NO_EVENT, if o.rc == ErrTimeout then c else Closed(c)))
  {
  }

  lemma HandOverDoes(b: Books, o: Reading, c: Books)
    requires |b.partial| <= |o.partial| && o.rc == Ok && |o.partial| >= 4
    requires c == b.(taken := b.taken + o.partial[|b.partial|..], ahead := Ahead(o.arrivals, b.ahead.departures, o.refusals),
                     bodies := b.bodies + [o.partial[4..]], partial := [], room := false)
    ensures PollOf(b, o, HandOverSpec(c, o.partial[4..]))
  {
    hide ToEvent, Copies, Decode, LaterBy;
    var body := o.partial[4..];
    if EventOf(body) != [] {
      AllAllowedIs(o.refusals, Copies(EventOf(body)[0]));
    }
  }

  /** Polls of a client, one for each queued event. */
  ghost function Polls(n: nat, nonblocking: bool): seq<Call> { seq(n, _ => Poll(nonblocking)) }

  lemma QueuedPoll(b: Books, nonblocking: bool, capacity: nat)
    requires Resumable(b) && b.queued != []
    ensures StepSpec(b, Poll(nonblocking), capacity)
            == (Took(Ok, b.queued[0]), b.(delivered := b.delivered + [b.queued[0]], queued := b.queued[1..]))
  {
  }

  lemma ClosedPoll(b: Books, nonblocking: bool, capacity: nat)
    requires Resumable(b) && b.queued == [] && !b.open
    ensures StepSpec(b, Poll(nonblocking), capacity) == (Took(ErrClosed, NO_EVENT), b)
  {
  }

  /** The outcomes and the books after n polls of queued events. */
  ghost function Popped(b: Books, n: nat): seq<Outcome>
    requires n <= |b.queued|
  {
    seq(n, i requires 0 <= i < n => Took(Ok, b.queued[i]))
  }

  ghost function AfterPops(b: Books, n: nat): Books
    requires n <= |b.queued|
  {
    b.(delivered := b.delivered + b.queued[..n], queued := b.queued[n..])
  }

  lemma PopsOnce(b: Books, n: nat, nonblocking: bool, capacity: nat)
    requires n < |b.queued| && Resumable(AfterPops(b, n))
    ensures StepSpec(AfterPops(b, n), Poll(nonblocking), capacity) == (Took(Ok, b.queued[n]), AfterPops(b, n + 1))
    ensures Popped(b, n + 1) == Popped(b, n) + [Took(Ok, b.queued[n])]
  {
    QueuedPoll(AfterPops(b, n), nonblocking, capacity);
    assert b.queued[..n + 1] == b.queued[..n] + [b.queued[n]];
    Assoc(b.delivered, b.queued[..n], [b.queued[n]]);
    assert b.queued[n..][1..] == b.queued[n + 1..];
  }

  lemma {:induction false} PoppedHands(b: Books, n: nat)
    requires n <= |b.queued|
    ensures Handed(Popped(b, n)) == b.queued[..n]
    decreases n
  {
    if n > 0 {
      PoppedHands(b, n - 1);
      assert Popped(b, n)[..n - 1] == Popped(b, n - 1);
      assert b.queued[..n] == b.queued[..n - 1] + [b.queued[n - 1]];
    }
  }

  /** Polling drains the queue in order, whether or not the stream is still open: n polls
      hand over the first n queued events and touch nothing else. */
  lemma {:induction false} QueueDrains(b: Books, n: nat, nonblocking: bool, capacity: nat)
    requires Balanced(b) && n <= |b.queued|
    ensures var (os, z) := RunSpec(b, Polls(n, nonblocking), capacity);
            && |os| == n && (forall i :: 0 <= i < n ==> os[i] == Took(Ok, b.queued[i]))
            && Handed(os) == b.queued[..n]
            && z == b.(delivered := b.delivered + b.queued[..n], queued := b.queued[n..])
  {
    PollsPop(b, n, nonblocking, capacity);
    PoppedHands(b, n);
  }

  lemma NoPolls(b: Books, nonblocking: bool, capacity: nat)
    requires Balanced(b)
    ensures RunSpec(b, Polls(0, nonblocking), capacity) == (Popped(b, 0), AfterPops(b, 0))
  {
    hide StepSpec, Balanced;
    assert Polls(0, nonblocking) == [] && Popped(b, 0) == [];
    assert b.delivered + [] == b.delivered && b.queued[0..] == b.queued && b.queued[..0] == [];
  }

  lemma {:induction false} PollsPop(b: Books, n: nat, nonblocking: bool, capacity: nat)
    requires Balanced(b) && n <= |b.queued|
    ensures RunSpec(b, Polls(n, nonblocking), capacity) == (Popped(b, n), AfterPops(b, n))
    decreases n
  {
    hide Balanced, StepSpec, RunSpec, AfterPops, Popped, Resumable;
    if n == 0 {
      NoPolls(b, nonblocking, capacity);
    } else {
      PollsPop(b, n - 1, nonblocking, capacity);
      var before := Polls(n - 1, nonblocking);
      assert Polls(n, nonblocking) == before + [Poll(nonblocking)];
      RunSnoc(b, before, Poll(nonblocking), capacity);
      PopsOnce(b, n - 1, nonblocking, capacity);
    }
  }

  /** After a close, polling hands over exactly what was queued, and then says so. */
  lemma {:induction false} ClosedDrains(b: Books, nonblocking: bool, capacity: nat)
    requires Balanced(b) && !b.open
    ensures var (os, z) := RunSpec(b, Polls(|b.queued| + 1, nonblocking), capacity);
            && Handed(os) == b.queued && |os| == |b.queued| + 1
            && os[|b.queued|] == Took(ErrClosed, NO_EVENT) && z.queued == [] && !z.open
  {
    hide Balanced, StepSpec, RunSpec;
    var n := |b.queued|;
    QueueDrains(b, n, nonblocking, capacity);
    assert Polls(n + 1, nonblocking) == Polls(n, nonblocking) + [Poll(nonblocking)];
    RunSnoc(b, Polls(n, nonblocking), Poll(nonblocking), capacity);
    var (os, z) := RunSpec(b, Polls(n, nonblocking), capacity);
    ClosedPoll(z, nonblocking, capacity);
    assert (os + [Took(ErrClosed, NO_EVENT)])[..n] == os && Handed(os) + [] == Handed(os);
    assert b.queued[..n] == b.queued;
  }

  // ---- requests ----

  ghost predicate Generous(refusals: seq<bool>) {
    forall i :: 0 <= i < |refusals| ==> !refusals[i]
  }

  lemma {:induction false} GenerousStays(refusals: seq<bool>, n: nat)
    requires Generous(refusals)
    ensures AllAllowed(refusals, n) && Generous(LaterBy(refusals, n))
    decreases n
  {
    if n > 0 {
      GenerousStays(Later(refusals), n - 1);
    }
  }

  /** The next packet of what is at hand is read. */
  lemma {:induction false} PacketArrives(b: Books, pre: seq<Arrival>, post: seq<Arrival>, body: seq<byte>, more: seq<byte>,
                                         nonblocking: bool) returns (left: seq<Arrival>)
    requires Resumable(b) && b.ahead.arrivals == pre + post && Going(pre, nonblocking) && Stops(post, nonblocking)
    requires Generous(b.ahead.refusals) && 7 <= |body| <= MAX_FRAME && b.partial + Incoming(pre) == Packet(body) + more
    ensures Going(left, nonblocking) && Incoming(left) == more
    ensures var (rc, c) := ReadStep(b, nonblocking);
            && rc == Ok && Generous(c.ahead.refusals)
            && c == b.(bodies := b.bodies + [body], taken := c.taken, partial := [], room := false,
                       ahead := b.ahead.(arrivals := left + post, refusals := c.ahead.refusals))
  {
    hide Going, Stops, ReadScript, Packet;
    CompletePacket(body, more);
    left := ReadDoes(b.partial, b.room, pre, post, b.ahead.refusals, nonblocking);
  }

  /** An event frame there is room and memory for is queued. */
  lemma Queues(b: Books, body: seq<byte>, r: Sent, capacity: nat)
    requires Judge(body, r.id, r.op).Keep? && |b.queued| < capacity && Generous(b.ahead.refusals)
    ensures var t := ConsiderStep(b, body, r, capacity);
            && t.again && Generous(t.books.ahead.refusals)
            && t.books == b.(queued := b.queued + EventOf(body), ahead := b.ahead.(refusals := t.books.ahead.refusals))
  {
    GenerousStays(b.ahead.refusals, Copies(Judge(body, r.id, r.op).event));
  }

  lemma AnswerTaken(b: Books, body: seq<byte>, r: Sent, capacity: nat, f: Frame, granted: bool)
    requires Judge(body, r.id, r.op) == Answer(f, granted)
    ensures ConsiderStep(b, body, r, capacity)
            == Ended(false, if granted then Ok else ErrRemote, f, b.(answered := b.answered + [f]))
  {
  }

  /** An answer at hand is returned: when events there is room for and then the answer to
      the request stand in the bytes at hand, the wait queues these events in order and
      ends with that answer, whatever follows. */
  lemma {:induction false} AnswerArrives(b: Books, r: Sent, capacity: nat, pre: seq<Arrival>, post: seq<Arrival>,
                                         events: seq<seq<byte>>, answer: seq<byte>, f: Frame, granted: bool, more: seq<byte>)
    requires Resumable(b) && b.ahead.arrivals == pre + post && Going(pre, false) && Stops(post, false)
    requires Generous(b.ahead.refusals) && |b.queued| + |events| <= capacity
    requires GoodBodies(events) && 7 <= |answer| <= MAX_FRAME
    requires b.partial + Incoming(pre) == Packets(events) + (Packet(answer) + more)
    requires AllKept(events, r) && Judge(answer, r.id, r.op) == Answer(f, granted)
    ensures var t := AwaitSpec(b, r, capacity);
            && !t.again && t.rc == (if granted then Ok else ErrRemote) && t.response == f
            && t.books.open == b.open && t.books.answered == b.answered + [f]
            && t.books.queued == b.queued + EventsOf(events)
    decreases |events|
  {
    hide ReadStep, ConsiderStep, Judge, Going, Stops, Generous, Packet, EventOf;
    ReadShrinks(b, false);
    if events == [] {
      assert Packets(events) + (Packet(answer) + more) == Packet(answer) + more;
      var left := PacketArrives(b, pre, post, answer, more, false);
      AnswerTaken(ReadStep(b, false).1, answer, r, capacity, f, granted);
      assert b.queued + [] == b.queued;
    } else {
      var first, rest := events[0], events[1..];
      FirstPacket(events, Packet(answer) + more);
      var left := PacketArrives(b, pre, post, first, Packets(rest) + (Packet(answer) + more), false);
      var c := ReadStep(b, false).1;
      Queues(c, first, r, capacity);
      EventOnce(first, r);
      var z := ConsiderStep(c, first, r, capacity).books;
      assert z.partial + Incoming(left) == Incoming(left);
      AnswerArrives(z, r, capacity, left, post, rest, answer, f, granted, more);
      EventsOfConcat([first], rest);
      assert [first] + rest == events && EventsOf([first]) == EventOf(first) by { OneMoreBody([], first); }
      Assoc(b.queued, EventOf(first), EventsOf(rest));
    }
  }

  lemma FirstPacket(bodies: seq<seq<byte>>, more: seq<byte>)
    requires bodies != []
    ensures Packets(bodies) + more == Packet(bodies[0]) + (Packets(bodies[1..]) + more)
  {
    PacketsConcat([bodies[0]], bodies[1..]);
    assert [bodies[0]] + bodies[1..] == bodies;
    PacketsSnoc([], bodies[0]);
    assert [] + [bodies[0]] == [bodies[0]] && [] + Packet(bodies[0]) == Packet(bodies[0]);
    Assoc(Packet(bodies[0]), Packets(bodies[1..]), more);
  }

  lemma EventOnce(body: seq<byte>, r: Sent)
    requires Judge(body, r.id, r.op).Keep?
    ensures |EventOf(body)| == 1
  {
  }
}
