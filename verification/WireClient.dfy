/** The client itself: requests in strict lockstep with their answers, events
    queued meanwhile, and a stream that is closed at the first doubt. */
module WireClient {
  import opened Options
  import opened WireBytes
  import opened WireCodec
  import opened WireStream
  import opened WireHost
  import opened WireReader
  import opened WireEvents
  import opened WireLedger
  import opened Sequences

  const MAX_ERROR := 256

  /** What wg_last_error reports. */
  datatype LastError = NoError | GaveUp(rc: Result) | RemoteSaid(text: seq<byte>) | RemoteError | BuffersTooSmall

  /** One turn of the loop of write_all: bytes sent (perhaps none), or the end. */
  datatype WriteTurn = Went(n: nat) | Halt(rc: Result)

  method WriteSome(host: Host, data: seq<byte>) returns (turn: WriteTurn)
    requires data != []
    modifies host`departures, host`wire
    ensures turn.Halt? ==>
              Write(old(host.departures), data) == Written(turn.rc, [], host.departures) && host.wire == old(host.wire)
    ensures turn.Went? ==>
              && turn.n <= |data| && host.wire == old(host.wire) + data[..turn.n]
              && (turn.n == 0 ==> |host.departures| < |old(host.departures)|)
              && Write(old(host.departures), data)
                 == Before(data[..turn.n], Write(host.departures, data[turn.n..]))
  {
    var passed := host.SendDeadlinePassed();
    if passed {
      return Halt(ErrTimeout);
    }
    var r := host.Send(data);
    assert data[..0] == [] && data[0..] == data && data[..|data|] == data && data[|data|..] == [];
    match r {
      case SendRetry => turn := Went(0);
      case SendAgain(wait) => turn := if wait != Ready then Halt(WaitResult(wait)) else Went(0);
      case SendFailed => turn := Halt(ErrIo);
      case Wrote(n) => turn := if n == 0 then Halt(ErrIo) else Went(n);
    }
    BeforeNothing(Write(host.departures, data));
  }

  function Before(first: seq<byte>, w: Written): Written { w.(sent := first + w.sent) }

  lemma BeforeNothing(w: Written)
    ensures Before([], w) == w
  {
  }

  lemma BeforeTwice(data: seq<byte>, off: nat, n: nat, w: Written)
    requires off + n <= |data|
    ensures data[off..][n..] == data[off + n..]
    ensures Before(data[..off], Before(data[off..][..n], w)) == Before(data[..off + n], w)
    ensures data[..off] + data[off..][..n] == data[..off + n]
  {
    assert data[..off] + data[off..][..n] == data[..off + n];
    Assoc(data[..off], data[off..][..n], w.sent);
  }

  /** write_all: everything, or a proper prefix and the reason, as the script says. */
  method WriteAll(host: Host, data: seq<byte>) returns (rc: Result)
    modifies host`departures, host`wire
    ensures var w := Write(old(host.departures), data);
            rc == w.rc && host.wire == old(host.wire) + w.sent && host.departures == w.rest
  {
    var off := 0;
    ghost var goal, wire := Write(host.departures, data), host.wire;
    assert data[..0] == [] && data[0..] == data;
    BeforeNothing(goal);
    while off < |data|
      invariant 0 <= off <= |data| && host.wire == wire + data[..off]
      invariant goal == Before(data[..off], Write(host.departures, data[off..]))
      decreases |data| - off, |host.departures|
    {
      var turn := WriteSome(host, data[off..]);
      if turn.Halt? {
        assert data[..off] + [] == data[..off];
        return turn.rc;
      }
      BeforeTwice(data, off, turn.n, Write(host.departures, data[off + turn.n..]));
      Assoc(wire, data[..off], data[off..][..turn.n]);
      off := off + turn.n;
    }
    assert data[..off] + [] == data;
    rc := Ok;
  }

  /** send_request: a refused frame writes nothing, any other goes out as the script
      lets it. */
  method SendRequest(host: Host, op: byte, id: word, fields: seq<byte>) returns (rc: Result)
    modifies host`departures, host`wire, host`refusals
    ensures if 7 + |fields| > MAX_FRAME || !Allowed(old(host.refusals)) then
              && rc == (if 7 + |fields| > MAX_FRAME then ErrOverflow else ErrMemory)
              && host.wire == old(host.wire) && host.departures == old(host.departures)
            else
              var w := Write(old(host.departures), Packet(RequestBody(Sent(id, op, fields))));
              && rc == w.rc && rc in {Ok, ErrTimeout, ErrClosed, ErrIo}
              && host.wire == old(host.wire) + w.sent && host.departures == w.rest
    ensures host.refusals == if 7 + |fields| > MAX_FRAME then old(host.refusals) else Later(old(host.refusals))
  {
    var frameLen := 7 + |fields|;
    if frameLen > MAX_FRAME {
      return ErrOverflow;
    }
    var ok := host.Malloc();
    if !ok {
      return ErrMemory;
    }
    WriteIsPrefix(host.departures, Packet(RequestBody(Sent(id, op, fields))));
    rc := WriteAll(host, Packet(RequestBody(Sent(id, op, fields))));
  }

  /** dup_field: a copy of the field's data, if there is a field. */
  method DupField(host: Host, f: Option<Field>) returns (ok: bool, copy: Option<seq<byte>>)
    modifies host`refusals
    ensures copy == DataOf(f)
    ensures var n := if f.Some? then 1 else 0;
            ok == AllAllowed(old(host.refusals), n) && host.refusals == LaterBy(old(host.refusals), n)
  {
    ok, copy := true, None;
    if f.Some? {
      ok := host.Malloc();
      copy := Some(f.value.data);
    }
  }

  /** The copies of event_from_frame: all are tried, and one refusal is a refusal. */
  method CopyFields(host: Host, topic: Field, payload: Field, contentType: Option<Field>,
                    deliveryId: Option<Field>, eventId: Option<Field>) returns (ok: bool, e: Event)
    modifies host`refusals
    ensures var v := Event(topic.data, payload.data, DataOf(contentType), DataOf(deliveryId), DataOf(eventId));
            && ok == AllAllowed(old(host.refusals), Copies(v)) && host.refusals == LaterBy(old(host.refusals), Copies(v))
            && e == v
  {
    hide AllAllowed, LaterBy;
    ghost var was := host.refusals;
    var ok0, copy0 := DupField(host, Some(topic));
    var ok1, copy1 := DupField(host, contentType);
    ghost var n1 := if contentType.Some? then 1 else 0;
    AllowedInTurn(was, 1, n1);
    var ok2, copy2 := DupField(host, deliveryId);
    ghost var n2 := if deliveryId.Some? then 1 else 0;
    AllowedInTurn(was, 1 + n1, n2);
    var ok3, copy3 := DupField(host, eventId);
    ghost var n3 := if eventId.Some? then 1 else 0;
    AllowedInTurn(was, 1 + n1 + n2, n3);
    var ok4, copy4 := DupField(host, if payload.data == [] then None else Some(payload));
    AllowedInTurn(was, 1 + n1 + n2 + n3, if payload.data == [] then 0 else 1);
    ok := ok0 && ok1 && ok2 && ok3 && ok4;
    e := Event(copy0.value, if copy4.Some? then copy4.value else [], copy1, copy2, copy3);
  }

  /** event_from_frame: a copy of every field, or nothing at all. */
  method EventFromFrame(host: Host, frame: Frame) returns (rc: Result, e: Event)
    modifies host`refusals
    ensures match ToEvent(frame)
            case None => rc == ErrProtocol && host.refusals == old(host.refusals)
            case Some(v) =>
              && host.refusals == LaterBy(old(host.refusals), Copies(v))
              && if AllAllowed(old(host.refusals), Copies(v)) then rc == Ok && e == v else rc == ErrMemory
    ensures FieldsWellFormed(frame.fields) ==>
              && (rc == ErrProtocol <==>
                    || frame.op != 64 || frame.id != 0
                    || (forall g :: g in frame.fields ==> g.tag != F_TOPIC)
                    || (forall g :: g in frame.fields ==> g.tag != F_PAYLOAD))
              && (rc == Ok ==> Reads(e, frame.fields))
  {
    hide FieldsWellFormed, Reads, AllAllowed, LaterBy, Copies;
    if FieldsWellFormed(frame.fields) {
      EventParts(frame);
    }
    e := NO_EVENT;
    var topic, payload := Find(frame.fields, F_TOPIC), Find(frame.fields, F_PAYLOAD);
    if frame.op != OP_EVENT || frame.id != 0 || topic.None? || payload.None? {
      return ErrProtocol, e;
    }
    var ok, copy := CopyFields(host, topic.value, payload.value, Find(frame.fields, F_CONTENT_TYPE),
                               Find(frame.fields, F_DELIVERY_ID), Find(frame.fields, F_EVENT_ID));
    rc, e := if ok then Ok else ErrMemory, if ok then copy else NO_EVENT;
  }

  datatype FrameSort = EventFrame | AnswerFrame(granted: bool) | Unlawful

  /** What request makes of a frame before it acts on it. */
  method Examine(buf: array<byte>, id: word, op: byte) returns (sort: FrameSort, frame: Frame)
    ensures match Decode(buf[..])
            case None => sort == Unlawful
            case Some(f) =>
              && frame == f
              && if f.kind == KIND_EVENT then sort == EventFrame
                 else match JudgeFrame(f, id, op)
                   case Answer(_, granted) => sort == AnswerFrame(granted)
                   case _ => sort == Unlawful
  {
    var ok;
    ok, frame := ParseFrame(buf);
    if !ok {
      return Unlawful, frame;
    }
    if frame.kind == KIND_EVENT {
      return EventFrame, frame;
    }
    if frame.kind != KIND_RESPONSE || frame.id != id || frame.op != op {
      return Unlawful, frame;
    }
    var status := Find(frame.fields, F_STATUS);
    if status.None? || (status.value.data != STATUS_OK && status.value.data != STATUS_ERROR) {
      return Unlawful, frame;
    }
    return AnswerFrame(status.value.data == STATUS_OK), frame;
  }

  lemma SameHead(a: seq<byte>, b: seq<byte>, tail: seq<byte>)
    requires a + tail == b + tail
    ensures a == b
  {
    assert |a| == |b|;
    assert (a + tail)[..|a|] == a && (b + tail)[..|a|] == b;
  }

  class Client {
    var open: bool            // fd >= 0
    var nextId: word
    var error: LastError
    const host: Host
    const reader: FrameReader
    const queue: EventQueue
    ghost var sent: seq<Sent>
    ghost var answered: seq<Frame>
    ghost var delivered: seq<Event>

    /** The parts are in order and do not overlap. */
    ghost predicate Linked()
      reads this, host, queue, reader, reader.header, reader.body
    {
      && host.Valid() && queue.Valid() && reader.Valid()
      && queue as object !in reader.Repr() && queue.slots as object !in reader.Repr()
      && host as object !in reader.Repr() && this as object !in reader.Repr()
    }

    ghost function Account(): Books
      requires Linked()
      reads this, host, queue, queue.slots, reader, reader.header, reader.body
    {
      Books(open, nextId, sent, answered, delivered, queue.Contents(),
            reader.bodies, host.taken, reader.Partial(), reader.body != null, host.wire,
            Ahead(host.arrivals, host.departures, host.refusals))
    }

    ghost predicate Valid()
      reads this, host, queue, queue.slots, reader, reader.header, reader.body
    {
      Linked() && Balanced(Account())
    }

    /** A connected socket on which nothing has been exchanged yet. */
    constructor (host: Host, queueCapacity: nat)
      requires host.Valid() && host.taken == [] && host.wire == []
      requires queueCapacity > 0
      ensures Valid() && fresh(this) && fresh(queue) && fresh(queue.slots) && fresh(reader.Repr())
      ensures this.host == host && queue.slots.Length == queueCapacity
      ensures Account() == Books(true, 0, [], [], [], [], [], [], [], false, [],
                                 Ahead(host.arrivals, host.departures, host.refusals))
    {
      this.host := host;
      reader := new FrameReader();
      queue := new EventQueue(queueCapacity);
      open, nextId, error := true, 0, NoError;
      sent, answered, delivered := [], [], [];
      new;
      Opened(Account());
    }

    /** stream_error with close_socket: note the reason and give the stream up. */
    method StreamError(code: Result) returns (rc: Result)
      requires Linked()
      modifies `open, `error, reader
      ensures Linked() && Account() == Closed(old(Account()))
      ensures rc == code && error == GaveUp(code) && reader.Repr() <= old(reader.Repr())
    {
      error := GaveUp(code);
      open := false;
      reader.Reset();
      rc := code;
    }

    /** read_frame for this client. */
    method Receive(nonblocking: bool) returns (rc: Result, buf: array?<byte>)
      requires Linked() && Resumable(Account())
      modifies reader, reader.Repr(), host`arrivals, host`taken, host`refusals
      ensures Linked() && fresh(reader.Repr() - old(reader.Repr()))
      ensures (rc, Account()) == ReadStep(old(Account()), nonblocking)
      ensures rc == Ok ==>
                && buf != null && buf !in reader.Repr()
                && reader.bodies != [] && buf[..] == reader.bodies[|reader.bodies| - 1]
    {
      hide ReadScript;
      ghost var b, taken, queued := Account(), host.taken, queue.Contents();
      ReadEnds(b.partial, b.room, b.ahead.arrivals, b.ahead.refusals, nonblocking);
      rc, buf := reader.ReadFrame(host, nonblocking);
      assert queue.Contents() == queued;
      ghost var o := ReadScript(b.partial, b.room, b.ahead.arrivals, b.ahead.refusals, nonblocking);
      Assoc(taken, o.partial[|b.partial|..], Incoming(host.arrivals));
      SameHead(host.taken, taken + o.partial[|b.partial|..], Incoming(host.arrivals));
    }

    /** queue_event: an event that does not fit is an overflow, not a silent loss. */
    method QueueEvent(frame: Frame) returns (rc: Result)
      requires Linked()
      modifies queue, queue.slots, host`refusals
      ensures Linked() && reader.Repr() == old(reader.Repr())
      ensures var b := old(Account());
              if |b.queued| == queue.slots.Length then rc == ErrOverflow && Account() == b
              else
                var (copied, c) := CopyStep(b, frame);
                rc == copied && Account() == if rc == Ok then c.(queued := c.queued + EventIn(frame)) else c
    {
      if queue.len == queue.slots.Length {
        return ErrOverflow;
      }
      var e;
      rc, e := EventFromFrame(host, frame);
      if rc == Ok {
        queue.Push(e);
      }
    }

    /** A frame read while request r waits: keep it, accept it or give up. */
    method Consider(buf: array<byte>, id: word, op: byte, ghost r: Sent)
      returns (again: bool, rc: Result, response: Frame)
      requires Linked() && r.id == id && r.op == op && buf !in reader.Repr()
      modifies `open, `error, `answered, reader, queue, queue.slots, host`refusals
      ensures Linked() && reader.Repr() <= old(reader.Repr())
      ensures Ended(again, rc, response, Account()) == ConsiderStep(old(Account()), buf[..], r, queue.slots.Length)
    {
      hide CopyStep, ToEvent, Ring;
      again, response := false, NO_FRAME;
      var sort, frame := Examine(buf, id, op);
      match sort
      case EventFrame =>
        rc := QueueEvent(frame);
        again := rc == Ok;
        if rc != Ok {
          rc := StreamError(rc);
        }
      case AnswerFrame(granted) =>
        Accept(frame, granted);
        response := frame;
        rc := if granted then Ok else ErrRemote;
      case Unlawful =>
        rc := StreamError(ErrProtocol);
    }

    /** The awaited answer; a refusal leaves the server's reason in the error buffer,
        cut to its size. */
    method Accept(frame: Frame, granted: bool)
      modifies `error, `answered
      ensures answered == old(answered) + [frame]
      ensures granted ==> error == old(error)
      ensures !granted ==>
                var said := Find(frame.fields, F_ERROR);
                if said.None? then error == RemoteError
                else error.RemoteSaid? && error.text <= said.value.data
                     && |error.text| == Min(|said.value.data|, MAX_ERROR - 1)
    {
      answered := answered + [frame];
      if !granted {
        var err := Find(frame.fields, F_ERROR);
        error := if err.None? then RemoteError
                 else RemoteSaid(err.value.data[..Min(|err.value.data|, MAX_ERROR - 1)]);
      }
    }

    /** One turn of the loop of request: it ends as the specification says, or the rest
        of the loop is still to do. */
    method AwaitOne(id: word, op: byte, ghost r: Sent, ghost goal: Ended)
      returns (again: bool, rc: Result, response: Frame)
      requires Linked() && Resumable(Account()) && r.id == id && r.op == op
      requires AwaitSpec(Account(), r, queue.slots.Length) == goal
      modifies `open, `error, `answered, reader, reader.Repr(), queue, queue.slots,
               host`arrivals, host`taken, host`refusals
      ensures Linked() && fresh(reader.Repr() - old(reader.Repr()))
      ensures if again then
                && Resumable(Account()) && AwaitSpec(Account(), r, queue.slots.Length) == goal
                && |Incoming(host.arrivals)| < |Incoming(old(host.arrivals))|
              else Ended(false, rc, response, Account()) == goal
    {
      hide AwaitSpec;
      AwaitTurn(Account(), r, queue.slots.Length);
      var buf;
      rc, buf := Receive(false);
      if rc != Ok {
        again, response := false, NO_FRAME;
        rc := StreamError(rc);
      } else {
        again, rc, response := Consider(buf, id, op, r);
      }
    }

    /** The loop of request: frames until the answer, or the end of the stream. */
    method Await(id: word, op: byte, ghost r: Sent) returns (rc: Result, response: Frame)
      requires Linked() && Resumable(Account()) && r.id == id && r.op == op
      modifies `open, `error, `answered, reader, reader.Repr(), queue, queue.slots,
               host`arrivals, host`taken, host`refusals
      ensures Linked() && fresh(reader.Repr() - old(reader.Repr()))
      ensures Ended(false, rc, response, Account()) == AwaitSpec(old(Account()), r, queue.slots.Length)
    {
      hide AwaitSpec;
      ghost var mine, goal := reader.Repr(), AwaitSpec(Account(), r, queue.slots.Length);
      var again := true;
      rc, response := Ok, NO_FRAME;
      while again
        invariant Linked() && fresh(reader.Repr() - mine)
        invariant again ==> Resumable(Account()) && AwaitSpec(Account(), r, queue.slots.Length) == goal
        invariant !again ==> Ended(false, rc, response, Account()) == goal
        decreases again, |Incoming(host.arrivals)|
      {
        again, rc, response := AwaitOne(id, op, r, goal);
      }
    }

    /** request: written whole, then answered by a frame with its id and operation,
        or the stream is closed; all of it as the scripts determine. */
    method Request(op: byte, fields: seq<byte>) returns (rc: Result, response: Frame)
      requires Valid()
      modifies this, reader, reader.Repr(), queue, queue.slots, host
      ensures Valid() && fresh(reader.Repr() - old(reader.Repr()))
      ensures Resumable(old(Account()))
      ensures Ended(false, rc, response, Account())
              == RequestSpec(old(Account()), op, fields, queue.slots.Length)
    {
      hide RequestSpec;
      BalancedResumes(Account());
      RequestKeeps(Account(), op, fields, queue.slots.Length);
      rc, response := Ask(op, fields);
    }

    method Ask(op: byte, fields: seq<byte>) returns (rc: Result, response: Frame)
      requires Linked() && Resumable(Account())
      modifies this, reader, reader.Repr(), queue, queue.slots, host
      ensures Linked() && fresh(reader.Repr() - old(reader.Repr()))
      ensures Ended(false, rc, response, Account())
              == RequestSpec(old(Account()), op, fields, queue.slots.Length)
    {
      hide SendSpec;
      response := NO_FRAME;
      if !open {
        return ErrClosed, response;
      }
      error := NoError;
      nextId := Low32(nextId + 1);
      rc, response := Exchange(op, nextId, fields);
    }

    /** request with its id chosen. */
    method Exchange(op: byte, id: word, fields: seq<byte>) returns (rc: Result, response: Frame)
      requires Linked() && Resumable(Account())
      modifies `open, `error, `sent, `answered, reader, reader.Repr(), queue, queue.slots, host
      ensures Linked() && fresh(reader.Repr() - old(reader.Repr()))
      ensures var b := old(Account());
              var c := Spend(b, Later(b.ahead.refusals));
              Ended(false, rc, response, Account())
              == if 7 + |fields| > MAX_FRAME then Ended(false, ErrOverflow, NO_FRAME, b)
                 else if !Allowed(b.ahead.refusals) then Ended(false, ErrMemory, NO_FRAME, c)
                 else SendSpec(c, Sent(id, op, fields), queue.slots.Length)
    {
      hide AwaitSpec, Write;
      response := NO_FRAME;
      rc := SendRequest(host, op, id, fields);
      if rc == Ok {
        rc, response := Sending(id, op, Sent(id, op, fields));
      } else if rc != ErrMemory && rc != ErrOverflow {
        rc := StreamError(rc);
      }
    }

    /** The request is written; its answer is awaited. */
    method Sending(id: word, op: byte, ghost r: Sent) returns (rc: Result, response: Frame)
      requires Linked() && Resumable(Account()) && r.id == id && r.op == op
      modifies `open, `error, `sent, `answered, reader, reader.Repr(), queue, queue.slots,
               host`arrivals, host`taken, host`refusals
      ensures Linked() && fresh(reader.Repr() - old(reader.Repr()))
      ensures Ended(false, rc, response, Account())
              == AwaitSpec(old(Account()).(sent := old(sent) + [r]), r, queue.slots.Length)
    {
      hide AwaitSpec;
      sent := sent + [r];
      rc, response := Await(id, op, r);
    }

    /** The frame a poll has read must be an event. */
    method HandOver(buf: array<byte>) returns (rc: Result, e: Event)
      requires Linked() && buf !in reader.Repr()
      modifies `open, `error, `delivered, reader, host`refusals
      ensures Linked() && reader.Repr() <= old(reader.Repr())
      ensures Polled(rc, e, Account()) == HandOverSpec(old(Account()), buf[..])
    {
      hide ToEvent, AllAllowed, LaterBy, Ring, FrameReader.Partial, FrameReader.Valid, Decode;
      e := NO_EVENT;
      var ok, frame := ParseFrame(buf);
      if ok && frame.kind == KIND_EVENT {
        rc, e := EventFromFrame(host, frame);
      } else {
        rc := ErrProtocol;
      }
      if rc == Ok {
        delivered := delivered + [e];
      } else {
        e := NO_EVENT;
        rc := StreamError(rc);
      }
    }

    /** wg_poll: queued events first, whether or not the stream is still open; then one
        frame from the stream; all of it as the scripts determine. */
    method Poll(nonblocking: bool) returns (rc: Result, e: Event)
      requires Valid()
      modifies `open, `error, `delivered, reader, reader.Repr(), queue, queue.slots, host
      ensures Valid() && fresh(reader.Repr() - old(reader.Repr()))
      ensures Resumable(old(Account()))
      ensures Polled(rc, e, Account()) == PollSpec(old(Account()), nonblocking)
    {
      hide PollSpec;
      BalancedResumes(Account());
      PollKeeps(Account(), nonblocking);
      rc, e := Take(nonblocking);
    }

    method Take(nonblocking: bool) returns (rc: Result, e: Event)
      requires Linked() && Resumable(Account())
      modifies `open, `error, `delivered, reader, reader.Repr(), queue, queue.slots, host
      ensures Linked() && fresh(reader.Repr() - old(reader.Repr()))
      ensures Polled(rc, e, Account()) == PollSpec(old(Account()), nonblocking)
    {
      var found;
      found, e := PopQueued();
      if found {
        rc := Ok;
      } else if !open {
        rc, e := ErrClosed, NO_EVENT;
      } else {
        rc, e := PollStream(nonblocking);
      }
    }

    /** The oldest queued event is handed over, if there is one. */
    method PopQueued() returns (found: bool, e: Event)
      requires Linked()
      modifies `delivered, queue, queue.slots
      ensures Linked() && reader.Repr() == old(reader.Repr())
      ensures var b := old(Account());
              if b.queued == [] then !found && Account() == b
              else
                && found && e == b.queued[0]
                && Account() == b.(delivered := b.delivered + [e], queued := b.queued[1..])
    {
      ghost var queued := queue.Contents();
      found, e := queue.Pop();
      if found {
        assert queued == [e] + queue.Contents();
        delivered := delivered + [e];
      }
    }

    /** wg_poll when no event is queued. */
    method PollStream(nonblocking: bool) returns (rc: Result, e: Event)
      requires Linked() && Resumable(Account()) && open && queue.Contents() == []
      modifies `open, `error, `delivered, reader, reader.Repr(), host
      ensures Linked() && fresh(reader.Repr() - old(reader.Repr()))
      ensures Polled(rc, e, Account()) == PollSpec(old(Account()), nonblocking)
    {
      hide ReadStep, HandOverSpec;
      ReadShrinks(Account(), nonblocking);
      var buf;
      e := NO_EVENT;
      rc, buf := Receive(nonblocking);
      if rc == Ok {
        rc, e := HandOver(buf);
      } else if rc != ErrTimeout {
        rc := StreamError(rc);
      }
    }
  }

  /** The wait unrolled once. */
  lemma AwaitTurn(b: Books, r: Sent, capacity: nat)
    requires Resumable(b)
    ensures var (read, c) := ReadStep(b, false);
            if read != Ok then AwaitSpec(b, r, capacity) == GiveUp(read, c) && !AwaitSpec(b, r, capacity).again
            else
              && c.bodies != []
              && var t := ConsiderStep(c, c.bodies[|c.bodies| - 1], r, capacity);
                 && (t.again ==> Resumable(t.books) && AwaitSpec(t.books, r, capacity) == AwaitSpec(b, r, capacity)
                                 && |Incoming(t.books.ahead.arrivals)| < |Incoming(b.ahead.arrivals)|)
                 && (!t.again ==> AwaitSpec(b, r, capacity) == t)
  {
    ReadShrinks(b, false);
  }
}
