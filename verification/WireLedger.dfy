/** The books of one connection as a value: everything sent, received, queued, handed
    over and still to come.  What each call does to them is a function; the invariants
    say what ties them together. */
module WireLedger {
  import opened Options
  import opened WireBytes
  import opened WireCodec
  import opened WireStream
  import opened WireHost
  import opened WireReader
  import opened WireEvents
  import opened Sequences

  /** A request that has been written completely. */
  datatype Sent = Sent(id: word, op: byte, fields: seq<byte>)

  /** What the host will still answer. */
  datatype Ahead = Ahead(arrivals: seq<Arrival>, departures: seq<Departure>, refusals: seq<bool>)

  datatype Books = Books(
    open: bool,                 // fd >= 0
    nextId: word,
    sent: seq<Sent>,            // requests written completely
    answered: seq<Frame>,       // responses accepted
    delivered: seq<Event>,      // events handed to the caller
    queued: seq<Event>,         // events in the ring buffer
    bodies: seq<seq<byte>>,     // frames read from the stream
    taken: seq<byte>,           // bytes received
    partial: seq<byte>,         // of these, the bytes of the unfinished frame
    room: bool,                 // whether its body has been allocated
    wire: seq<byte>,            // bytes written
    ahead: Ahead)

  const NO_FRAME := Frame(0, 0, 0, [])

  // ---- invariants ----

  function RequestBody(r: Sent): seq<byte> {
    Header(KIND_REQUEST, r.op, r.id) + r.fields
  }

  ghost function RequestBodies(sent: seq<Sent>): seq<seq<byte>> {
    if sent == [] then [] else RequestBodies(sent[..|sent| - 1]) + [RequestBody(sent[|sent| - 1])]
  }

  /** Each accepted response carries the id and operation of its request. */
  ghost predicate Paired(sent: seq<Sent>, answered: seq<Frame>) {
    && |answered| <= |sent|
    && forall i :: 0 <= i < |answered| ==> answered[i].id == sent[i].id && answered[i].op == sent[i].op
  }

  /** No event is lost, duplicated or reordered; the frame that made the client
      give up may have been one more event. */
  ghost predicate EventsKept(kept: seq<Event>, read: seq<Event>) {
    kept <= read && |read| <= |kept| + 1
  }

  /** What survives even the end of the stream. */
  ghost predicate Loose(b: Books) {
    && EventsKept(b.delivered + b.queued, EventsOf(b.bodies))
    && Paired(b.sent, b.answered)
    && GoodBodies(b.bodies) && Packets(b.bodies) <= b.taken
  }

  /** What is saved of a frame can be read on. */
  predicate Resumable(b: Books) {
    ReaderState(b.partial, b.room) && !Complete(b.partial)
  }

  /** The stream read so far is whole frames and one unfinished frame. */
  ghost predicate InSync(b: Books) {
    b.taken == Packets(b.bodies) + b.partial && Resumable(b)
  }

  /** The bytes written are the packets of the requests, each within the limit. */
  ghost predicate WireHolds(b: Books) {
    GoodBodies(RequestBodies(b.sent)) && b.wire == Packets(RequestBodies(b.sent))
  }

  /** What an open connection owes to the bytes exchanged on it. */
  ghost predicate Exact(b: Books) {
    && InSync(b)
    && WireHolds(b)
    && b.delivered + b.queued == EventsOf(b.bodies)
    && b.answered == AnswersOf(b.bodies)
  }

  ghost predicate Sound(b: Books) {
    Loose(b) && if b.open then Exact(b) else b.partial == [] && !b.room
  }

  /** What holds between any two public calls: the books balance, and every
      request written has its answer. */
  ghost predicate Balanced(b: Books) {
    Sound(b) && (b.open ==> |b.sent| == |b.answered|)
  }

  /** One request has been written and its answer is due. */
  ghost predicate Awaiting(b: Books, id: word, op: byte) {
    && |b.sent| == |b.answered| + 1
    && b.sent[|b.answered|].id == id && b.sent[|b.answered|].op == op
  }

  /** A frame has been read; the events and answers it brings are not booked. */
  ghost predicate Unbooked(b: Books, news: seq<Event>, answers: seq<Frame>) {
    && Loose(b) && b.open && InSync(b) && WireHolds(b)
    && EventsOf(b.bodies) == (b.delivered + b.queued) + news
    && AnswersOf(b.bodies) == b.answered + answers
  }

  /** Every byte the peer has sent or will send. */
  ghost function Stream(b: Books): seq<byte> {
    b.taken + Incoming(b.ahead.arrivals)
  }

  // ---- what the calls do ----

  /** stream_error with close_socket. */
  function Closed(b: Books): Books {
    b.(open := false, partial := [], room := false)
  }

  function Spend(b: Books, refusals: seq<bool>): Books {
    b.(ahead := b.ahead.(refusals := refusals))
  }

  /** read_frame: one more body, or the reason why there is none yet. */
  function ReadStep(b: Books, nonblocking: bool): (Result, Books)
    requires ReaderState(b.partial, b.room)
  {
    ReadEnds(b.partial, b.room, b.ahead.arrivals, b.ahead.refusals, nonblocking);
    var o := ReadScript(b.partial, b.room, b.ahead.arrivals, b.ahead.refusals, nonblocking);
    var c := b.(taken := b.taken + o.partial[|b.partial|..],
                ahead := b.ahead.(arrivals := o.arrivals, refusals := o.refusals));
    if o.rc == Ok then (Ok, c.(bodies := b.bodies + [o.partial[4..]], partial := [], room := false))
    else (o.rc, c.(partial := o.partial, room := o.room))
  }

  /** event_from_frame, as far as memory and form decide it. */
  function CopyStep(b: Books, f: Frame): (Result, Books) {
    match ToEvent(f)
    case None => (ErrProtocol, b)
    case Some(e) =>
      (if AllAllowed(b.ahead.refusals, Copies(e)) then Ok else ErrMemory,
       Spend(b, LaterBy(b.ahead.refusals, Copies(e))))
  }

  /** How one frame, or a whole call, ends. */
  datatype Ended = Ended(again: bool, rc: Result, response: Frame, books: Books)

  function GiveUp(rc: Result, b: Books): Ended { Ended(false, rc, NO_FRAME, Closed(b)) }

  /** A frame read while request r waits. */
  function ConsiderStep(b: Books, body: seq<byte>, r: Sent, capacity: nat): Ended {
    match Decode(body)
    case None => GiveUp(ErrProtocol, b)
    case Some(f) =>
      if f.kind == KIND_EVENT then
        if |b.queued| == capacity then GiveUp(ErrOverflow, b)
        else
          var (rc, c) := CopyStep(b, f);
          if rc == Ok then Ended(true, Ok, NO_FRAME, c.(queued := c.queued + EventIn(f))) else GiveUp(rc, c)
      else
        match JudgeFrame(f, r.id, r.op)
        case Answer(_, granted) =>
          Ended(false, if granted then Ok else ErrRemote, f, b.(answered := b.answered + [f]))
        case _ => GiveUp(ErrProtocol, b)
  }

  lemma ReadShrinks(b: Books, nonblocking: bool)
    requires Resumable(b)
    ensures var (rc, c) := ReadStep(b, nonblocking);
            && Stream(c) == Stream(b)
            && (rc == Ok ==> Resumable(c) && |c.bodies| == |b.bodies| + 1
                             && |Incoming(c.ahead.arrivals)| < |Incoming(b.ahead.arrivals)|)
            && (rc != Ok ==> Resumable(c) && c.bodies == b.bodies)
  {
    ReadEnds(b.partial, b.room, b.ahead.arrivals, b.ahead.refusals, nonblocking);
    var o := ReadScript(b.partial, b.room, b.ahead.arrivals, b.ahead.refusals, nonblocking);
    Assoc(b.taken, o.partial[|b.partial|..], Incoming(o.arrivals));
    if |o.partial| == |b.partial| {
      assert o.partial == b.partial;
    }
  }

  /** Frames until the answer to r, or the end of the stream. */
  function AwaitSpec(b: Books, r: Sent, capacity: nat): Ended
    requires Resumable(b)
    decreases |Incoming(b.ahead.arrivals)|
  {
    ReadShrinks(b, false);
    var (rc, c) := ReadStep(b, false);
    if rc != Ok then GiveUp(rc, c)
    else
      var t := ConsiderStep(c, c.bodies[|c.bodies| - 1], r, capacity);
      if t.again then AwaitSpec(t.books, r, capacity) else t
  }

  /** The first half of request: refused before anything is sent, or ready to send. */
  datatype Preparation = NotSent(rc: Result, books: Books) | Prepared(books: Books, r: Sent)

  function Prepare(b: Books, op: byte, fields: seq<byte>): Preparation {
    if !b.open then NotSent(ErrClosed, b)
    else
      var a := b.(nextId := Low32(b.nextId + 1));
      var c := Spend(a, Later(a.ahead.refusals));
      if 7 + |fields| > MAX_FRAME then NotSent(ErrOverflow, a)
      else if !Allowed(a.ahead.refusals) then NotSent(ErrMemory, c)
      else Prepared(c, Sent(a.nextId, op, fields))
  }

  /** request: prepare, write, wait. */
  function RequestSpec(b: Books, op: byte, fields: seq<byte>, capacity: nat): Ended
    requires Resumable(b)
  {
    match Prepare(b, op, fields)
    case NotSent(rc, c) => Ended(false, rc, NO_FRAME, c)
    case Prepared(c, r) => SendSpec(c, r, capacity)
  }

  /** The packet goes out, then the wait begins. */
  function SendSpec(b: Books, r: Sent, capacity: nat): Ended
    requires Resumable(b)
  {
    var w := Write(b.ahead.departures, Packet(RequestBody(r)));
    var c := b.(wire := b.wire + w.sent, ahead := b.ahead.(departures := w.rest));
    if w.rc != Ok then GiveUp(w.rc, c) else AwaitSpec(c.(sent := c.sent + [r]), r, capacity)
  }

  datatype Polled = Polled(rc: Result, event: Event, books: Books)

  /** What a poll makes of a frame. */
  function HandOverSpec(b: Books, body: seq<byte>): Polled {
    match Decode(body)
    case None => Polled(ErrProtocol, NO_EVENT, Closed(b))
    case Some(f) =>
      if f.kind != KIND_EVENT then Polled(ErrProtocol, NO_EVENT, Closed(b))
      else
        var (rc, c) := CopyStep(b, f);
        if rc == Ok then Polled(Ok, ToEvent(f).value, c.(delivered := c.delivered + [ToEvent(f).value]))
        else Polled(rc, NO_EVENT, Closed(c))
  }

  /** wg_poll. */
  function PollSpec(b: Books, nonblocking: bool): Polled
    requires Resumable(b)
  {
    if b.queued != [] then
      Polled(Ok, b.queued[0], b.(delivered := b.delivered + [b.queued[0]], queued := b.queued[1..]))
    else if !b.open then Polled(ErrClosed, NO_EVENT, b)
    else
      ReadShrinks(b, nonblocking);
      var (rc, c) := ReadStep(b, nonblocking);
      if rc == ErrTimeout then Polled(rc, NO_EVENT, c)
      else if rc != Ok then Polled(rc, NO_EVENT, Closed(c))
      else HandOverSpec(c, c.bodies[|c.bodies| - 1])
  }

  // ---- every step keeps the books ----

  lemma Opened(b: Books)
    requires b == Books(true, b.nextId, [], [], [], [], [], [], [], false, [], b.ahead)
    ensures Balanced(b)
  {
  }

  lemma BalancedResumes(b: Books)
    requires Balanced(b)
    ensures Resumable(b)
  {
  }

  /** Giving up keeps the loose invariants, so what was queued can be drained. */
  lemma GivenUp(b: Books)
    requires Loose(b)
    ensures Balanced(Closed(b))
  {
  }

  lemma SoundCloses(b: Books)
    requires Sound(b)
    ensures Balanced(Closed(b))
  {
    GivenUp(b);
  }

  lemma SoundResumes(b: Books)
    requires Sound(b)
    ensures Resumable(b)
  {
  }

  /** Only what is ahead of the client has changed. */
  lemma Unmoved(b: Books, c: Books)
    requires c == b.(nextId := c.nextId, ahead := c.ahead)
    ensures Balanced(b) <==> Balanced(c)
    ensures Sound(b) <==> Sound(c)
  {
  }

  lemma FrameRead(b: Books, c: Books, body: seq<byte>)
    requires Sound(b) && b.open && GoodBodies(c.bodies) && InSync(c)
    requires c == b.(bodies := b.bodies + [body], taken := c.taken, partial := c.partial, room := c.room, ahead := c.ahead)
    ensures Unbooked(c, EventOf(body), AnswerOf(body))
  {
    OneMoreBody(b.bodies, body);
    assert |EventOf(body)| <= 1;
  }

  /** More bytes of an unfinished frame change nothing else. */
  lemma BytesRead(b: Books, c: Books)
    requires Sound(b) && b.open && InSync(c)
    requires c == b.(taken := c.taken, partial := c.partial, room := c.room, ahead := c.ahead)
    ensures Sound(c)
  {
  }

  /** What a read leaves alone. */
  lemma ReadMoves(b: Books, nonblocking: bool)
    requires Resumable(b)
    ensures var (rc, c) := ReadStep(b, nonblocking);
            && c == b.(bodies := c.bodies, taken := c.taken, partial := c.partial, room := c.room, ahead := c.ahead)
            && (rc == Ok ==> c.bodies == b.bodies + [c.bodies[|c.bodies| - 1]] && c.partial == [] && !c.room)
            && rc in {Ok, ErrTimeout, ErrClosed, ErrIo, ErrMemory, ErrProtocol}
  {
    ReadEnds(b.partial, b.room, b.ahead.arrivals, b.ahead.refusals, nonblocking);
  }

  /** What a considered frame leaves alone. */
  lemma ConsiderMoves(b: Books, body: seq<byte>, r: Sent, capacity: nat)
    ensures var t := ConsiderStep(b, body, r, capacity);
            && Stream(t.books) == Stream(b) && t.books.delivered == b.delivered
            && (t.again ==> t.books.partial == b.partial && t.books.room == b.room
                            && t.books.ahead.arrivals == b.ahead.arrivals)
  {
    hide ToEvent, JudgeFrame, AllAllowed, LaterBy;
  }

  lemma HandOverMoves(b: Books, body: seq<byte>)
    ensures var p := HandOverSpec(b, body);
            && Stream(p.books) == Stream(b)
            && p.books.delivered == b.delivered + if p.rc == Ok then [p.event] else []
  {
    assert b.delivered + [] == b.delivered;
  }

  /** What is saved and what a read adds are the beginning of the stream that is left. */
  lemma ReadInSync(b: Books, nonblocking: bool)
    requires InSync(b) && GoodBodies(b.bodies)
    ensures var (rc, c) := ReadStep(b, nonblocking);
            && InSync(c) && GoodBodies(c.bodies)
            && c.bodies == (if rc == Ok then b.bodies + [c.bodies[|b.bodies|]] else b.bodies)
            && (rc == Ok ==> c.partial == [] && !c.room)
            && (rc == ErrProtocol ==> Poisoned(c.partial))
            && rc in {Ok, ErrTimeout, ErrClosed, ErrIo, ErrMemory, ErrProtocol}
  {
    ReadShrinks(b, nonblocking);
    ReadEnds(b.partial, b.room, b.ahead.arrivals, b.ahead.refusals, nonblocking);
    var o := ReadScript(b.partial, b.room, b.ahead.arrivals, b.ahead.refusals, nonblocking);
    hide ReadScript, Complete, Packet, Packets, Num, ReaderState;
    var more := o.partial[|b.partial|..];
    Assoc(Packets(b.bodies), b.partial, more);
    assert b.partial + more == o.partial;
    if o.rc == Ok {
      PacketComplete(o.partial);
      PacketsSnoc(b.bodies, o.partial[4..]);
      assert Packets(b.bodies + [o.partial[4..]]) + [] == Packets(b.bodies + [o.partial[4..]]);
    }
  }

  /** A read adds one unbooked frame, or only bytes of an unfinished one. */
  lemma ReadKeeps(b: Books, nonblocking: bool)
    requires Sound(b) && b.open
    ensures var (rc, c) := ReadStep(b, nonblocking);
            if rc == Ok then
              && |c.bodies| == |b.bodies| + 1
              && var body := c.bodies[|b.bodies|]; Unbooked(c, EventOf(body), AnswerOf(body))
            else Sound(c) && c.open
  {
    ReadInSync(b, nonblocking);
    var (rc, c) := ReadStep(b, nonblocking);
    if rc == Ok {
      FrameRead(b, c, c.bodies[|b.bodies|]);
    } else {
      BytesRead(b, c);
    }
  }

  lemma EventBooked(b: Books, news: seq<Event>)
    requires Unbooked(b, news, [])
    ensures Sound(b.(queued := b.queued + news))
    ensures b.queued == [] ==> Sound(b.(delivered := b.delivered + news))
  {
    Assoc(b.delivered, b.queued, news);
    assert b.answered + [] == b.answered;
    assert b.delivered + [] == b.delivered;
    assert (b.delivered + news) + [] == b.delivered + news;
  }

  lemma AnswerBooked(b: Books, frame: Frame)
    requires Unbooked(b, [], [frame]) && Awaiting(b, frame.id, frame.op)
    ensures Balanced(b.(answered := b.answered + [frame]))
  {
    assert (b.delivered + b.queued) + [] == b.delivered + b.queued;
  }

  /** Only what is ahead has changed while an event was copied. */
  lemma CopyKeeps(b: Books, f: Frame, news: seq<Event>, answers: seq<Frame>)
    requires Unbooked(b, news, answers)
    ensures var (rc, c) := CopyStep(b, f);
            && c == Spend(b, c.ahead.refusals) && Unbooked(c, news, answers)
            && rc in {Ok, ErrProtocol, ErrMemory} && (rc == Ok ==> ToEvent(f).Some?)
  {
  }

  /** A considered frame leaves the books waiting, or balanced. */
  lemma ConsiderKeeps(b: Books, body: seq<byte>, r: Sent, capacity: nat)
    requires Unbooked(b, EventOf(body), AnswerOf(body)) && Awaiting(b, r.id, r.op)
    ensures var t := ConsiderStep(b, body, r, capacity);
            if t.again then Sound(t.books) && t.books.open && Awaiting(t.books, r.id, r.op)
            else Balanced(t.books) && (t.books.open <==> t.rc in {Ok, ErrRemote})
  {
    hide Sound, Balanced, Unbooked, CopyStep;
    var t := ConsiderStep(b, body, r, capacity);
    UnbookedCloses(b, EventOf(body), AnswerOf(body));
    if Decode(body).Some? && Decode(body).value.kind == KIND_EVENT {
      var f := Decode(body).value;
      CopyKeeps(b, f, EventOf(body), AnswerOf(body));
      var (rc, c) := CopyStep(b, f);
      UnbookedCloses(c, EventOf(body), AnswerOf(body));
      if rc == Ok {
        EventBooked(c, EventOf(body));
      }
    } else if t.rc in {Ok, ErrRemote} {
      AnswerBooked(b, t.response);
    }
  }

  lemma UnbookedCloses(b: Books, news: seq<Event>, answers: seq<Frame>)
    requires Unbooked(b, news, answers)
    ensures b.open && Balanced(Closed(b))
  {
    GivenUp(b);
  }

  lemma {:induction false} AwaitKeeps(b: Books, r: Sent, capacity: nat)
    requires Sound(b) && b.open && Awaiting(b, r.id, r.op)
    ensures var t := AwaitSpec(b, r, capacity);
            !t.again && Balanced(t.books) && (t.books.open <==> t.rc in {Ok, ErrRemote})
    decreases |Incoming(b.ahead.arrivals)|
  {
    hide ReadStep, ConsiderStep, Unbooked, Sound, Balanced;
    SoundResumes(b);
    ReadShrinks(b, false);
    ReadMoves(b, false);
    ReadKeeps(b, false);
    var (rc, c) := ReadStep(b, false);
    if rc != Ok {
      SoundCloses(c);
    } else {
      var body := c.bodies[|b.bodies|];
      ConsiderKeeps(c, body, r, capacity);
      ConsiderMoves(c, body, r, capacity);
      var t := ConsiderStep(c, body, r, capacity);
      if t.again {
        SoundResumes(t.books);
        AwaitKeeps(t.books, r, capacity);
      }
    }
  }

  lemma RequestWritten(b: Books, r: Sent)
    requires Balanced(b) && b.open && 7 + |r.fields| <= MAX_FRAME
    ensures var c := b.(sent := b.sent + [r], wire := b.wire + Packet(RequestBody(r)));
            Sound(c) && Awaiting(c, r.id, r.op)
  {
    assert (b.sent + [r])[..|b.sent|] == b.sent;
    PacketsSnoc(RequestBodies(b.sent), RequestBody(r));
  }

  lemma {:induction false} SendKeeps(b: Books, r: Sent, capacity: nat)
    requires Balanced(b) && b.open && 7 + |r.fields| <= MAX_FRAME
    ensures var t := SendSpec(b, r, capacity);
            !t.again && Balanced(t.books) && (t.books.open <==> t.rc in {Ok, ErrRemote})
  {
    var w := Write(b.ahead.departures, Packet(RequestBody(r)));
    WriteIsPrefix(b.ahead.departures, Packet(RequestBody(r)));
    var c := b.(wire := b.wire + w.sent, ahead := b.ahead.(departures := w.rest));
    if w.rc == Ok {
      RequestWritten(b, r);
      var d := c.(sent := c.sent + [r]);
      Unmoved(b.(sent := b.sent + [r], wire := b.wire + Packet(RequestBody(r))), d);
      AwaitKeeps(d, r, capacity);
    } else {
      GivenUp(c);
    }
  }

  /** Whatever a request meets, the books balance afterwards, and an open stream means
      that it was answered or not sent at all. */
  lemma {:induction false} RequestKeeps(b: Books, op: byte, fields: seq<byte>, capacity: nat)
    requires Balanced(b)
    ensures var t := RequestSpec(b, op, fields, capacity);
            && !t.again && Balanced(t.books)
            && (Prepare(b, op, fields).Prepared? ==> (t.books.open <==> t.rc in {Ok, ErrRemote}))
  {
    PrepareKeeps(b, op, fields);
    var p := Prepare(b, op, fields);
    if p.Prepared? {
      SendKeeps(p.books, p.r, capacity);
    }
  }

  /** Nothing but the next id and the host has moved before a request is sent. */
  lemma PrepareKeeps(b: Books, op: byte, fields: seq<byte>)
    requires Balanced(b)
    ensures var p := Prepare(b, op, fields);
            && Balanced(p.books) && p.books == b.(nextId := p.books.nextId, ahead := p.books.ahead)
            && Stream(p.books) == Stream(b)
            && match p
               case NotSent(rc, c) => rc in {ErrClosed, ErrOverflow, ErrMemory} && (rc == ErrClosed <==> !b.open)
               case Prepared(c, r) =>
                 b.open && r == Sent(Low32(b.nextId + 1), op, fields) && 7 + |fields| <= MAX_FRAME
  {
    Unmoved(b, Prepare(b, op, fields).books);
  }

  lemma EventPopped(b: Books)
    requires Balanced(b) && b.queued != []
    ensures Balanced(b.(delivered := b.delivered + [b.queued[0]], queued := b.queued[1..]))
  {
    assert b.queued == [b.queued[0]] + b.queued[1..];
    Assoc(b.delivered, [b.queued[0]], b.queued[1..]);
  }

  lemma HandOverKeeps(b: Books, body: seq<byte>)
    requires Unbooked(b, EventOf(body), AnswerOf(body)) && b.queued == [] && |b.sent| == |b.answered|
    ensures Balanced(HandOverSpec(b, body).books)
  {
    hide Sound, CopyStep;
    GivenUp(b);
    if Decode(body).Some? && Decode(body).value.kind == KIND_EVENT {
      var f := Decode(body).value;
      CopyKeeps(b, f, EventOf(body), AnswerOf(body));
      var (rc, c) := CopyStep(b, f);
      GivenUp(c);
      if rc == Ok {
        EventBooked(c, EventOf(body));
      }
    }
  }

  lemma {:induction false} PollKeeps(b: Books, nonblocking: bool)
    requires Balanced(b)
    ensures Balanced(PollSpec(b, nonblocking).books)
  {
    hide ReadStep, HandOverSpec;
    if b.queued != [] {
      EventPopped(b);
    } else if b.open {
      ReadKeeps(b, nonblocking);
      ReadMoves(b, nonblocking);
      ReadShrinks(b, nonblocking);
      var (rc, c) := ReadStep(b, nonblocking);
      if rc == Ok {
        HandOverKeeps(c, c.bodies[|b.bodies|]);
      } else if rc != ErrTimeout {
        GivenUp(c);
      }
    }
  }

  // ---- what the peer sends is neither lost nor invented ----

  lemma {:induction false} AwaitStream(b: Books, r: Sent, capacity: nat)
    requires Resumable(b)
    ensures var z := AwaitSpec(b, r, capacity).books; Stream(z) == Stream(b) && z.delivered == b.delivered
    decreases |Incoming(b.ahead.arrivals)|
  {
    hide ReadStep, ConsiderStep;
    ReadShrinks(b, false);
    ReadMoves(b, false);
    var (rc, c) := ReadStep(b, false);
    if rc == Ok {
      ConsiderMoves(c, c.bodies[|c.bodies| - 1], r, capacity);
      var t := ConsiderStep(c, c.bodies[|c.bodies| - 1], r, capacity);
      if t.again {
        AwaitStream(t.books, r, capacity);
      }
    }
  }

  lemma {:induction false} SendStream(b: Books, r: Sent, capacity: nat)
    requires Resumable(b)
    ensures var z := SendSpec(b, r, capacity).books; Stream(z) == Stream(b) && z.delivered == b.delivered
  {
    hide AwaitSpec;
    var w := Write(b.ahead.departures, Packet(RequestBody(r)));
    var c := b.(wire := b.wire + w.sent, ahead := b.ahead.(departures := w.rest));
    if w.rc == Ok {
      AwaitStream(c.(sent := c.sent + [r]), r, capacity);
    }
  }

  /** No request changes what the peer sends in all, or hands an event over. */
  lemma {:induction false} RequestStream(b: Books, op: byte, fields: seq<byte>, capacity: nat)
    requires Resumable(b)
    ensures var z := RequestSpec(b, op, fields, capacity).books; Stream(z) == Stream(b) && z.delivered == b.delivered
  {
    var p := Prepare(b, op, fields);
    if p.Prepared? {
      SendStream(p.books, p.r, capacity);
    }
  }

  /** A poll hands over the event it returns. */
  lemma {:induction false} PollStream(b: Books, nonblocking: bool)
    requires Resumable(b)
    ensures var p := PollSpec(b, nonblocking);
            && Stream(p.books) == Stream(b)
            && p.books.delivered == b.delivered + if p.rc == Ok then [p.event] else []
  {
    hide ReadStep, HandOverSpec;
    assert b.delivered + [] == b.delivered;
    if b.queued == [] && b.open {
      ReadShrinks(b, nonblocking);
      ReadMoves(b, nonblocking);
      var (rc, c) := ReadStep(b, nonblocking);
      if rc == Ok {
        HandOverMoves(c, c.bodies[|c.bodies| - 1]);
      }
    }
  }

  // ---- how a call can end ----

  ghost predicate AllKept(news: seq<seq<byte>>, r: Sent) {
    forall i :: 0 <= i < |news| ==> Judge(news[i], r.id, r.op).Keep?
  }

  /** The frames read between two states of the books. */
  ghost function News(a: Books, z: Books): seq<seq<byte>>
    requires a.bodies <= z.bodies
  {
    z.bodies[|a.bodies|..]
  }

  /** From a, only events have come while r waits: all of them are queued, and nothing
      else has moved. */
  ghost predicate Waiting(a: Books, z: Books, r: Sent) {
    && a.bodies <= z.bodies && AllKept(News(a, z), r)
    && z == a.(queued := a.queued + EventsOf(News(a, z)), bodies := z.bodies, taken := z.taken,
               partial := z.partial, room := z.room, ahead := z.ahead)
  }

  /** From a, r was answered; the events that came in between are queued in order. */
  ghost predicate Answered(a: Books, z: Books, r: Sent, granted: bool, response: Frame) {
    && a.bodies < z.bodies
    && var news := News(a, z);
       var last := |news| - 1;
       && AllKept(news[..last], r)
       && Judge(news[last], r.id, r.op) == Answer(response, granted)
       && z == a.(answered := a.answered + [response], queued := a.queued + EventsOf(news),
                  bodies := z.bodies, taken := z.taken, partial := [], room := false, ahead := z.ahead)
  }

  /** From a, the stream was given up while r waited: the frames before the failure were
      all events and all of them are queued; then a read brought no frame, or the last
      frame could not be kept or accepted. */
  ghost predicate Abandoned(a: Books, z: Books, r: Sent, rc: Result, capacity: nat) {
    exists y: Books :: Waiting(a, y, r) && Failing(y, z, r, rc, capacity)
  }

  /** The read from y, or the frame it brought, ends the stream. */
  ghost predicate Failing(y: Books, z: Books, r: Sent, rc: Result, capacity: nat) {
    && Resumable(y)
    && var (read, c) := ReadStep(y, false);
       if read != Ok then rc == read && z == Closed(c)
       else
         && |c.bodies| == |y.bodies| + 1
         && Spoilt(c.bodies[|y.bodies|], r, rc, capacity - |y.queued|, c.ahead.refusals)
         && z == Closed(c).(ahead := z.ahead) && z.ahead == c.ahead.(refusals := z.ahead.refusals)
  }

  /** Why a frame made the client give up: no memory for an event, no lawful message,
      or an event for a full queue. */
  ghost predicate Spoilt(body: seq<byte>, r: Sent, rc: Result, room: int, refusals: seq<bool>) {
    match rc
    case ErrMemory =>
      room != 0 && var v := Judge(body, r.id, r.op); v.Keep? && !AllAllowed(refusals, Copies(v.event))
    case ErrProtocol => Judge(body, r.id, r.op) == Refuse
    case ErrOverflow => room == 0 && Decode(body).Some? && Decode(body).value.kind == KIND_EVENT
    case _ => false
  }

  lemma NewsGrow(a: Books, z: Books, body: seq<byte>)
    requires a.bodies <= z.bodies
    ensures News(a, z.(bodies := z.bodies + [body])) == News(a, z) + [body]
  {
  }

  lemma WaitingStarts(a: Books, r: Sent)
    ensures Waiting(a, a, r)
  {
    assert a.bodies[|a.bodies|..] == [];
    assert a.queued + [] == a.queued;
  }

  lemma WaitingGoesOn(a: Books, y: Books, z: Books, r: Sent, body: seq<byte>)
    requires Waiting(a, y, r) && Judge(body, r.id, r.op).Keep?
    requires z == y.(bodies := y.bodies + [body], queued := y.queued + EventOf(body),
                     taken := z.taken, partial := z.partial, room := z.room, ahead := z.ahead)
    ensures Waiting(a, z, r)
  {
    NewsGrow(a, y, body);
    OneMoreBody(News(a, y), body);
    Assoc(a.queued, EventsOf(News(a, y)), EventOf(body));
  }

  lemma WaitingEnds(a: Books, y: Books, z: Books, r: Sent, body: seq<byte>, granted: bool, response: Frame)
    requires Waiting(a, y, r) && Judge(body, r.id, r.op) == Answer(response, granted)
    requires z == y.(bodies := y.bodies + [body], answered := y.answered + [response],
                     taken := z.taken, partial := [], room := false, ahead := z.ahead)
    ensures Answered(a, z, r, granted, response)
  {
    NewsGrow(a, y, body);
    OneMoreBody(News(a, y), body);
    assert (News(a, y) + [body])[..|News(a, y)|] == News(a, y);
    assert EventsOf(News(a, y)) + [] == EventsOf(News(a, y));
  }

  /** How the wait for r can end. */
  ghost predicate AwaitEnds(a: Books, t: Ended, r: Sent, capacity: nat) {
    if t.rc in {Ok, ErrRemote} then Answered(a, t.books, r, t.rc == Ok, t.response)
    else t.response == NO_FRAME && Abandoned(a, t.books, r, t.rc, capacity)
  }

  lemma {:induction false} AwaitDoes(a: Books, y: Books, r: Sent, capacity: nat)
    requires Waiting(a, y, r) && Resumable(y)
    ensures AwaitEnds(a, AwaitSpec(y, r, capacity), r, capacity)
    decreases |Incoming(y.ahead.arrivals)|
  {
    hide ConsiderStep, ReadScript;
    ReadShrinks(y, false);
    ReadMoves(y, false);
    var (rc, c) := ReadStep(y, false);
    if rc != Ok {
      assert Failing(y, Closed(c), r, rc, capacity);
    } else {
      var body := c.bodies[|c.bodies| - 1];
      var t := ConsiderStep(c, body, r, capacity);
      ConsiderSorts(c, body, r, capacity);
      ConsiderMoves(c, body, r, capacity);
      if t.again {
        WaitingGoesOn(a, y, t.books, r, body);
        AwaitDoes(a, t.books, r, capacity);
      } else if t.rc in {Ok, ErrRemote} {
        WaitingEnds(a, y, t.books, r, body, t.rc == Ok, t.response);
      } else {
        assert Failing(y, t.books, r, t.rc, capacity);
      }
    }
  }

  /** A considered frame is kept, accepted or spoils the stream. */
  lemma ConsiderSorts(b: Books, body: seq<byte>, r: Sent, capacity: nat)
    ensures var t := ConsiderStep(b, body, r, capacity);
            if t.again then
              && Judge(body, r.id, r.op).Keep? && |b.queued| != capacity
              && AllAllowed(b.ahead.refusals, Copies(Judge(body, r.id, r.op).event))
              && t.books == b.(queued := b.queued + EventOf(body), ahead := t.books.ahead)
            else if t.rc in {Ok, ErrRemote} then
              && Judge(body, r.id, r.op) == Answer(t.response, t.rc == Ok)
              && t.books == b.(answered := b.answered + [t.response])
            else
              && t.response == NO_FRAME && Spoilt(body, r, t.rc, capacity - |b.queued|, b.ahead.refusals)
              && t.books == Closed(b).(ahead := t.books.ahead)
              && t.books.ahead == b.ahead.(refusals := t.books.ahead.refusals)
  {
  }

  /** A request that was sent has its packet on the wire, then ends as a wait ends. */
  ghost predicate SendEnds(b: Books, t: Ended, r: Sent, capacity: nat) {
    var w := Write(b.ahead.departures, Packet(RequestBody(r)));
    if w.rc == Ok then
      AwaitEnds(b.(sent := b.sent + [r], wire := b.wire + Packet(RequestBody(r)),
                   ahead := b.ahead.(departures := w.rest)), t, r, capacity)
    else
      && t == GiveUp(w.rc, b.(wire := t.books.wire, ahead := b.ahead.(departures := w.rest)))
      && b.wire <= t.books.wire < b.wire + Packet(RequestBody(r))
  }

  /** Every way a request can end: not sent at all, cut off while it was written, or
      waited for until the answer or the end of the stream. */
  lemma {:induction false} RequestDoes(b: Books, op: byte, fields: seq<byte>, capacity: nat)
    requires Resumable(b)
    ensures var t, id := RequestSpec(b, op, fields, capacity), Low32(b.nextId + 1);
            var c := Spend(b.(nextId := id), Later(b.ahead.refusals));
            if !b.open then t == Ended(false, ErrClosed, NO_FRAME, b)
            else if 7 + |fields| > MAX_FRAME then t == Ended(false, ErrOverflow, NO_FRAME, b.(nextId := id))
            else if !Allowed(b.ahead.refusals) then t == Ended(false, ErrMemory, NO_FRAME, c)
            else SendEnds(c, t, Sent(id, op, fields), capacity)
  {
    var p := Prepare(b, op, fields);
    if p.Prepared? {
      SendDoes(p.books, p.r, capacity);
    }
  }

  lemma {:induction false} SendDoes(b: Books, r: Sent, capacity: nat)
    requires Resumable(b)
    ensures SendEnds(b, SendSpec(b, r, capacity), r, capacity)
  {
    var w := Write(b.ahead.departures, Packet(RequestBody(r)));
    WriteIsPrefix(b.ahead.departures, Packet(RequestBody(r)));
    if w.rc == Ok {
      SentDoes(b.(sent := b.sent + [r], wire := b.wire + w.sent, ahead := b.ahead.(departures := w.rest)), r, capacity);
    }
  }

  lemma {:induction false} SentDoes(b: Books, r: Sent, capacity: nat)
    requires Resumable(b)
    ensures AwaitEnds(b, AwaitSpec(b, r, capacity), r, capacity)
  {
    WaitingStarts(b, r);
    AwaitDoes(b, b, r, capacity);
  }

  // ---- what balanced books mean ----

  /** The events handed over, then those queued, are exactly the events of the
      bytes received, read as one unsplit stream. */
  lemma EventsAreTheStreams(b: Books)
    requires Balanced(b) && b.open
    ensures b.bodies == Split(b.taken)
    ensures b.delivered + b.queued == EventsOf(Split(b.taken))
  {
    SplitPackets(b.bodies, b.partial);
    assert b.bodies + [] == b.bodies;
  }

  /** Whether or not the stream is over, nothing has been handed over or queued
      that the peer's whole stream does not carry, in its order; and at most one
      event that was read is missing. */
  lemma NothingInvented(b: Books)
    requires Balanced(b)
    ensures b.bodies <= Split(Stream(b))
    ensures b.delivered + b.queued <= EventsOf(Split(Stream(b)))
    ensures |EventsOf(b.bodies)| <= |b.delivered| + |b.queued| + 1
  {
    var rest := Stream(b)[|Packets(b.bodies)|..];
    assert Stream(b) == Packets(b.bodies) + rest;
    SplitPackets(b.bodies, rest);
    EventsGrow(b.bodies, Split(Stream(b)));
  }

  /** Two clients of one stream, however it was cut up for each: the one that has
      received more has read the same frames and perhaps more, and so has seen
      the same events in the same order. */
  lemma ChunkingIsInvisible(b: Books, c: Books)
    requires Balanced(b) && Balanced(c) && b.open && c.open && b.taken <= c.taken
    ensures b.bodies <= c.bodies
    ensures b.delivered + b.queued <= c.delivered + c.queued
    ensures b.taken == c.taken ==> b.bodies == c.bodies && b.partial == c.partial
  {
    EventsAreTheStreams(b);
    EventsAreTheStreams(c);
    SplitGrows(b.taken, c.taken);
    EventsGrow(b.bodies, c.bodies);
    if b.taken == c.taken {
      ReadingIsUnique(b.bodies, b.partial, c.bodies, c.partial);
    }
  }

  /** Lockstep, seen from both ends: the peer that reads the wire finds exactly the
      requests, the responses it sent are exactly the answers, and they pair off. */
  lemma Lockstep(b: Books)
    requires Balanced(b) && b.open
    ensures Split(b.wire) == RequestBodies(b.sent)
    ensures AnswersOf(Split(b.taken)) == b.answered
    ensures |b.sent| == |b.answered|
    ensures forall i :: 0 <= i < |b.sent| ==> b.answered[i].id == b.sent[i].id && b.answered[i].op == b.sent[i].op
  {
    EventsAreTheStreams(b);
    SplitPackets(RequestBodies(b.sent), []);
    assert b.wire + [] == b.wire;
    assert RequestBodies(b.sent) + [] == RequestBodies(b.sent);
  }

  /** A request built from well-formed fields is read back by the peer as sent. */
  lemma RequestIsReadable(r: Sent, fields: seq<Field>)
    requires FieldsWellFormed(fields) && r.fields == EncodeFields(fields)
    ensures Decode(RequestBody(r)) == Some(Frame(KIND_REQUEST, r.op, r.id, fields))
  {
    DecodeOfEncode(Frame(KIND_REQUEST, r.op, r.id, fields));
  }
}
