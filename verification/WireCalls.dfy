/** The public calls as functions of the books, and runs of them in any order. */
module WireCalls {
  import opened Options
  import opened WireBytes
  import opened WireCodec
  import opened WireStream
  import opened WireHost
  import opened WireReader
  import opened WireEvents
  import opened WireLedger
  import opened WireCalm
  import opened Sequences

  const CLASS_DURABLE: seq<byte> := ['d' as int, 'u' as int, 'r' as int, 'a' as int, 'b' as int, 'l' as int, 'e' as int]
  const CLASS_EPHEMERAL: seq<byte> :=
    ['e' as int, 'p' as int, 'h' as int, 'e' as int, 'm' as int, 'e' as int, 'r' as int, 'a' as int, 'l' as int]

  const MAX_LIMIT := 100

  // ---- the fields of each call ----

  ghost function PublishFields(topic: seq<byte>, payload: seq<byte>, contentType: seq<byte>, durable: bool): seq<Field> {
    [Field(F_TOPIC, topic), Field(F_PAYLOAD, payload), Field(F_CONTENT_TYPE, contentType),
     Field(F_CLASS, if durable then CLASS_DURABLE else CLASS_EPHEMERAL)]
  }

  ghost function HistoryFields(topic: seq<byte>, cursor: Option<seq<byte>>, limit: nat): seq<Field> {
    [Field(F_TOPIC, topic)]
    + (if cursor.None? then [] else [Field(F_CURSOR, cursor.value)])
    + (if limit == 0 then [] else [Field(F_LIMIT, Digits(limit))])
  }

  /** snprintf of an unsigned number. */
  function Digits(n: nat): (s: seq<byte>)
    ensures 1 <= |s| && (n < 10 ==> |s| == 1) && (n < 100 ==> |s| <= 2) && (n < 1000 ==> |s| <= 3)
  {
    if n < 10 then ['0' as int + n] else Digits(n / 10) + ['0' as int + n % 10]
  }

  ghost function HelloFields(userId: seq<byte>, token: Option<seq<byte>>): seq<Field> {
    [Field(F_USER_ID, userId)] + if token.None? then [] else [Field(F_AUTH_TOKEN, token.value)]
  }

  // ---- what each call does ----

  /** A call that builds its fields in a buffer of their size, then asks. */
  ghost function CallSpec(b: Books, op: byte, fields: seq<Field>, capacity: nat): Ended
    requires Resumable(b)
  {
    var c := Spend(b, Later(b.ahead.refusals));
    if !Allowed(b.ahead.refusals) then Ended(false, ErrMemory, NO_FRAME, c)
    else RequestSpec(c, op, EncodeFields(fields), capacity)
  }

  function Refused(rc: Result, b: Books): Ended { Ended(false, rc, NO_FRAME, b) }

  /** subscribe, unsubscribe, ack, set_presence, join_room and leave_room. */
  ghost function OneStringSpec(b: Books, op: byte, tag: byte, value: seq<byte>, capacity: nat): Ended
    requires Resumable(b)
  {
    if |value| > MAX_FIELD then Refused(ErrArgument, b) else CallSpec(b, op, [Field(tag, value)], capacity)
  }

  function PublishSize(topic: seq<byte>, payload: seq<byte>, contentType: seq<byte>, durable: bool): nat {
    20 + |topic| + |payload| + |contentType| + if durable then 7 else 9
  }

  ghost function PublishSpec(b: Books, topic: seq<byte>, payload: seq<byte>, contentType: seq<byte>, durable: bool,
                             capacity: nat): Ended
    requires Resumable(b)
  {
    if |topic| > MAX_FIELD || |contentType| > MAX_FIELD || |payload| > MAX_FIELD then Refused(ErrArgument, b)
    else if PublishSize(topic, payload, contentType, durable) > MAX_FRAME then Refused(ErrOverflow, b)
    else CallSpec(b, OP_PUBLISH, PublishFields(topic, payload, contentType, durable), capacity)
  }

  /** A page of history: its length, its bytes and, if asked for, the cursor behind it. */
  datatype Page = Page(rc: Result, outLen: nat, page: seq<byte>, next: Option<seq<byte>>, books: Books)

  function NoPage(rc: Result, outLen: nat, b: Books): Page { Page(rc, outLen, [], None, b) }

  /** What wg_history makes of a granted answer: without a payload the stream ends, and
      buffers too small leave it usable. */
  function TakeSpec(b: Books, response: Frame, outCap: nat, cursorCap: Option<nat>): Page {
    var payload, next := Find(response.fields, F_PAYLOAD), DataOf(Find(response.fields, F_CURSOR));
    if payload.None? then NoPage(ErrProtocol, 0, Closed(b))
    else
      var size := |payload.value.data|;
      if size > outCap || (cursorCap.Some? && next.Some? && |next.value| >= cursorCap.value)
      then NoPage(ErrOverflow, size, b)
      else Page(Ok, size, payload.value.data, if cursorCap.Some? then next else None, b)
  }

  predicate LawfulHistory(topic: seq<byte>, cursor: Option<seq<byte>>, limit: nat) {
    limit <= MAX_LIMIT && |topic| <= MAX_FIELD && (cursor.Some? ==> |cursor.value| <= MAX_FIELD)
  }

  /** wg_history. */
  ghost function HistorySpec(b: Books, topic: seq<byte>, cursor: Option<seq<byte>>, limit: nat,
                             outCap: nat, cursorCap: Option<nat>, capacity: nat): Page
    requires Resumable(b)
  {
    if !LawfulHistory(topic, cursor, limit) then NoPage(ErrArgument, 0, b)
    else
      var t := CallSpec(b, OP_HISTORY, HistoryFields(topic, cursor, limit), capacity);
      if t.rc != Ok then NoPage(t.rc, 0, t.books) else TakeSpec(t.books, t.response, outCap, cursorCap)
  }

  /** A buffer with a piece copied to its front, if it fits. */
  function Over(s: seq<byte>, piece: seq<byte>): seq<byte> {
    if |piece| <= |s| then Splice(s, 0, piece) else s
  }

  /** The caller's buffers after a page: the page is copied over the one, the next cursor
      with a NUL over the other. */
  function PageIn(p: Page, out: seq<byte>): seq<byte> {
    if p.rc == Ok then Over(out, p.page) else out
  }

  function CursorIn(p: Page, cursor: seq<byte>): seq<byte> {
    if p.rc == Ok && p.next.Some? then Over(cursor, p.next.value + [0]) else cursor
  }

  function Zeros(n: nat): (s: seq<byte>)
    ensures |s| == n && forall i :: 0 <= i < n ==> s[i] == 0
  {
    seq(n, _ => 0)
  }

  /** A page that is handed out fits its buffers, so nothing of it or of its cursor is cut. */
  lemma PageFits(b: Books, response: Frame, outCap: nat, cursorCap: Option<nat>)
    ensures var p := TakeSpec(b, response, outCap, cursorCap);
            p.rc == Ok ==>
              && p.outLen == |p.page| <= outCap
              && (p.next.Some? ==> cursorCap.Some? && |p.next.value| < cursorCap.value)
  {
  }

  // ---- any of them ----

  datatype Call =
    | Ask(op: byte, fields: seq<byte>)
    | OneString(op: byte, tag: byte, value: seq<byte>)
    | Publish(topic: seq<byte>, payload: seq<byte>, contentType: seq<byte>, durable: bool)
    | History(topic: seq<byte>, cursor: Option<seq<byte>>, limit: nat, outCap: nat, cursorCap: Option<nat>)
    | Poll(nonblocking: bool)

  datatype Outcome =
    | Asked(rc: Result, response: Frame)
    | Took(rc: Result, event: Event)
    | Paged(rc: Result, outLen: nat, page: seq<byte>, cursor: seq<byte>)

  ghost function StepSpec(b: Books, call: Call, capacity: nat): (Outcome, Books)
    requires Resumable(b)
  {
    match call
    case Ask(op, fields) => Replied(RequestSpec(b, op, fields, capacity))
    case OneString(op, tag, value) => Replied(OneStringSpec(b, op, tag, value, capacity))
    case Publish(topic, payload, contentType, durable) =>
      Replied(PublishSpec(b, topic, payload, contentType, durable, capacity))
    case History(topic, cursor, limit, outCap, cursorCap) =>
      var p := HistorySpec(b, topic, cursor, limit, outCap, cursorCap, capacity);
      (Paged(p.rc, p.outLen, p.page, CursorIn(p, Zeros(if cursorCap.Some? then cursorCap.value else 0))), p.books)
    case Poll(nonblocking) =>
      var p := PollSpec(b, nonblocking);
      (Took(p.rc, p.event), p.books)
  }

  function Replied(t: Ended): (Outcome, Books) { (Asked(t.rc, t.response), t.books) }

  /** The event an outcome hands to the caller. */
  function Handing(o: Outcome): seq<Event> {
    if o.Took? && o.rc == Ok then [o.event] else []
  }

  ghost function Handed(outcomes: seq<Outcome>): seq<Event> {
    if outcomes == [] then [] else Handed(outcomes[..|outcomes| - 1]) + Handing(outcomes[|outcomes| - 1])
  }

  // ---- what every call keeps ----

  /** What any call keeps: balance, the peer's stream, and the count of what it hands over. */
  ghost predicate Keeps(b: Books, z: Books, handed: seq<Event>) {
    Balanced(z) && Stream(z) == Stream(b) && z.delivered == b.delivered + handed
  }

  lemma {:induction false} AskKeeps(b: Books, op: byte, fields: seq<byte>, capacity: nat)
    requires Balanced(b)
    ensures Resumable(b) && Keeps(b, RequestSpec(b, op, fields, capacity).books, [])
  {
    BalancedResumes(b);
    RequestKeeps(b, op, fields, capacity);
    RequestStream(b, op, fields, capacity);
    assert b.delivered + [] == b.delivered;
  }

  lemma {:induction false} CallKeeps(b: Books, op: byte, fields: seq<Field>, capacity: nat)
    requires Balanced(b)
    ensures Resumable(b) && Keeps(b, CallSpec(b, op, fields, capacity).books, [])
  {
    hide RequestSpec;
    var c := Spend(b, Later(b.ahead.refusals));
    Unmoved(b, c);
    AskKeeps(c, op, EncodeFields(fields), capacity);
  }

  lemma KeepsNothing(b: Books)
    requires Balanced(b)
    ensures Keeps(b, b, [])
  {
    assert b.delivered + [] == b.delivered;
  }

  lemma TakeKeeps(b: Books, c: Books, response: Frame, outCap: nat, cursorCap: Option<nat>)
    requires Keeps(b, c, [])
    ensures Keeps(b, TakeSpec(c, response, outCap, cursorCap).books, [])
  {
    GivenUp(c);
  }

  /** Every call, whatever the scripts, keeps the books and hands over exactly what it
      returns. */
  lemma {:induction false} StepKeeps(b: Books, call: Call, capacity: nat)
    requires Balanced(b)
    ensures Resumable(b)
    ensures var (o, z) := StepSpec(b, call, capacity); Keeps(b, z, Handing(o))
  {
    hide RequestSpec, PollSpec, CallSpec, HistorySpec, Balanced, Resumable, Stream;
    BalancedResumes(b);
    KeepsNothing(b);
    match call
    case Ask(op, fields) => AskKeeps(b, op, fields, capacity);
    case OneString(op, tag, value) => CallKeeps(b, op, [Field(tag, value)], capacity);
    case Publish(topic, payload, contentType, durable) =>
      CallKeeps(b, OP_PUBLISH, PublishFields(topic, payload, contentType, durable), capacity);
    case History(topic, cursor, limit, outCap, cursorCap) =>
      HistoryKeeps(b, topic, cursor, limit, outCap, cursorCap, capacity);
    case Poll(nonblocking) =>
      PollKeeps(b, nonblocking);
      PollStream(b, nonblocking);
  }

  lemma {:induction false} HistoryKeeps(b: Books, topic: seq<byte>, cursor: Option<seq<byte>>, limit: nat,
                                        outCap: nat, cursorCap: Option<nat>, capacity: nat)
    requires Balanced(b)
    ensures Resumable(b) && Keeps(b, HistorySpec(b, topic, cursor, limit, outCap, cursorCap, capacity).books, [])
  {
    hide CallSpec, Balanced;
    KeepsNothing(b);
    CallKeeps(b, OP_HISTORY, HistoryFields(topic, cursor, limit), capacity);
    var t := CallSpec(b, OP_HISTORY, HistoryFields(topic, cursor, limit), capacity);
    TakeKeeps(b, t.books, t.response, outCap, cursorCap);
  }

  // ---- runs ----

  /** A run of calls: each outcome is that of its call in the books the ones before left. */
  ghost function RunSpec(b: Books, calls: seq<Call>, capacity: nat): (r: (seq<Outcome>, Books))
    requires Balanced(b)
    ensures Balanced(r.1) && |r.0| == |calls|
    decreases |calls|
  {
    if calls == [] then ([], b)
    else
      var (os, c) := RunSpec(b, calls[..|calls| - 1], capacity);
      StepKeeps(c, calls[|calls| - 1], capacity);
      var (o, z) := StepSpec(c, calls[|calls| - 1], capacity);
      (os + [o], z)
  }

  lemma RunSnoc(b: Books, calls: seq<Call>, call: Call, capacity: nat)
    requires Balanced(b)
    ensures var (os, c) := RunSpec(b, calls, capacity);
            && Resumable(c)
            && RunSpec(b, calls + [call], capacity)
               == (os + [StepSpec(c, call, capacity).0], StepSpec(c, call, capacity).1)
  {
    hide StepSpec;
    assert (calls + [call])[..|calls|] == calls;
    BalancedResumes(RunSpec(b, calls, capacity).1);
  }

  lemma {:induction false} RunKeeps(b: Books, calls: seq<Call>, capacity: nat)
    requires Balanced(b)
    ensures var (os, z) := RunSpec(b, calls, capacity); Keeps(b, z, Handed(os))
    decreases |calls|
  {
    hide StepSpec, Balanced, Stream;
    if calls == [] {
      KeepsNothing(b);
    } else {
      var init, call := calls[..|calls| - 1], calls[|calls| - 1];
      RunKeeps(b, init, capacity);
      var (os, c) := RunSpec(b, init, capacity);
      StepKeeps(c, call, capacity);
      var (o, z) := StepSpec(c, call, capacity);
      assert (os + [o])[..|os|] == os;
      Assoc(b.delivered, Handed(os), Handing(o));
    }
  }

  /** Any run of public calls under any scripts.  While the connection is open, the
      events the caller was handed and those still queued are exactly the events of the
      bytes received, and requests and answers pair off on the wire; open or closed, they
      are a prefix of the events of everything the peer sends, and at most one event that
      was read is missing. */
  lemma {:induction false} RunsAreFaithful(b: Books, calls: seq<Call>, capacity: nat)
    requires Balanced(b) && b.delivered == []
    ensures var (os, z) := RunSpec(b, calls, capacity);
            && Handed(os) + z.queued <= EventsOf(Split(Stream(b)))
            && |EventsOf(z.bodies)| <= |Handed(os)| + |z.queued| + 1
            && (z.open ==>
                  && Handed(os) + z.queued == EventsOf(Split(z.taken))
                  && Split(z.wire) == RequestBodies(z.sent) && z.answered == AnswersOf(Split(z.taken))
                  && |z.sent| == |z.answered|)
  {
    hide RunSpec, Balanced;
    RunKeeps(b, calls, capacity);
    var (os, z) := RunSpec(b, calls, capacity);
    assert [] + Handed(os) == Handed(os);
    NothingInvented(z);
    if z.open {
      EventsAreTheStreams(z);
      Lockstep(z);
    }
  }

  // ---- how the bytes are cut up ----

  /** A call that waits for what it needs. */
  predicate Blocking(call: Call) { call.Poll? ==> !call.nonblocking }

  lemma {:induction false} SameCall(b: Books, c: Books, op: byte, fields: seq<Field>, capacity: nat)
    requires Alike(b, c) && Resumable(b) && Resumable(c)
    ensures SameEnd(CallSpec(b, op, fields, capacity), CallSpec(c, op, fields, capacity))
  {
    hide RequestSpec;
    var later := Later(b.ahead.refusals);
    assert Spend(c, later) == Recut(Spend(b, later), c.ahead.arrivals);
    SameRequest(Spend(b, later), Spend(c, later), op, EncodeFields(fields), capacity);
  }

  lemma SameTake(b: Books, c: Books, response: Frame, outCap: nat, cursorCap: Option<nat>)
    requires Alike(b, c)
    ensures var p, q := TakeSpec(b, response, outCap, cursorCap), TakeSpec(c, response, outCap, cursorCap);
            && p.rc == q.rc && p.outLen == q.outLen && p.page == q.page && p.next == q.next
            && Alike(p.books, q.books)
  {
  }

  lemma {:induction false} SameStep(b: Books, c: Books, call: Call, capacity: nat)
    requires Alike(b, c) && Resumable(b) && Resumable(c) && Blocking(call)
    ensures var (o, y), (p, z) := StepSpec(b, call, capacity), StepSpec(c, call, capacity);
            o == p && Alike(y, z)
  {
    hide RequestSpec, CallSpec, PollSpec, TakeSpec;
    match call
    case Ask(op, fields) => SameRequest(b, c, op, fields, capacity);
    case OneString(op, tag, value) => SameCall(b, c, op, [Field(tag, value)], capacity);
    case Publish(topic, payload, contentType, durable) =>
      SameCall(b, c, OP_PUBLISH, PublishFields(topic, payload, contentType, durable), capacity);
    case History(topic, cursor, limit, outCap, cursorCap) =>
      var fields := HistoryFields(topic, cursor, limit);
      SameCall(b, c, OP_HISTORY, fields, capacity);
      var t, u := CallSpec(b, OP_HISTORY, fields, capacity), CallSpec(c, OP_HISTORY, fields, capacity);
      SameTake(t.books, u.books, t.response, outCap, cursorCap);
    case Poll(_) => SamePoll(b, c);
  }

  /** Two clients that make the same calls, on connections that carry the same bytes and
      fail nothing: however the bytes are cut up, delayed or interrupted for each, all
      calls end alike, with the same frames, events and answers. */
  lemma {:induction false} SameBytesSameRun(b: Books, c: Books, calls: seq<Call>, capacity: nat)
    requires Balanced(b) && Balanced(c) && Alike(b, c)
    requires forall i :: 0 <= i < |calls| ==> Blocking(calls[i])
    ensures var (os, y), (ps, z) := RunSpec(b, calls, capacity), RunSpec(c, calls, capacity);
            os == ps && Alike(y, z)
    decreases |calls|
  {
    hide StepSpec, Balanced, Alike;
    if calls != [] {
      var init, call := calls[..|calls| - 1], calls[|calls| - 1];
      SameBytesSameRun(b, c, init, capacity);
      var y, z := RunSpec(b, init, capacity).1, RunSpec(c, init, capacity).1;
      BalancedResumes(y);
      BalancedResumes(z);
      SameStep(y, z, call, capacity);
    }
  }

  // ---- the handshake ----

  /** Books of a connection on which nothing has been exchanged. */
  function Fresh(ahead: Ahead): Books {
    Books(true, 0, [], [], [], [], [], [], [], false, [], ahead)
  }

  /** The status an answer carries. */
  predicate Granted(response: Frame) {
    DataOf(Find(response.fields, F_STATUS)) == Some(STATUS_OK)
  }

  /** Books with one answered exchange and nothing else handed over. */
  ghost predicate OnlyExchange(z: Books, r: Sent, response: Frame) {
    && z.open && z.sent == [r] && z.answered == [response] && z.delivered == []
    && response.kind == KIND_RESPONSE && response.id == r.id && response.op == r.op
  }

  lemma {:induction false} AnswerMatches(body: seq<byte>, r: Sent, granted: bool, response: Frame)
    requires Judge(body, r.id, r.op) == Answer(response, granted)
    ensures response.kind == KIND_RESPONSE && response.id == r.id && response.op == r.op
    ensures granted == Granted(response)
  {
  }

  /** The first call on a fresh connection: answered means that one exchange, with the
      outcome the answer's status tells. */
  lemma {:induction false} FirstExchange(ahead: Ahead, op: byte, fields: seq<Field>, capacity: nat)
    ensures var t, r := CallSpec(Fresh(ahead), op, fields, capacity), Sent(1, op, EncodeFields(fields));
            && (t.rc in {Ok, ErrRemote} <==> OnlyExchange(t.books, r, t.response))
            && (t.rc in {Ok, ErrRemote} ==> (t.rc == Ok <==> Granted(t.response)))
  {
    hide RequestSpec, Balanced, EncodeFields;
    var b := Spend(Fresh(ahead), Later(ahead.refusals));
    var t := RequestSpec(b, op, EncodeFields(fields), capacity);
    RequestDoes(b, op, EncodeFields(fields), capacity);
    FirstEnds(b, op, EncodeFields(fields), t, capacity);
  }

  lemma {:induction false} FirstEnds(b: Books, op: byte, fields: seq<byte>, t: Ended, capacity: nat)
    requires b == Fresh(b.ahead)
    requires var r, c := Sent(1, op, fields), Spend(b.(nextId := 1), Later(b.ahead.refusals));
             if 7 + |fields| > MAX_FRAME then t == Ended(false, ErrOverflow, NO_FRAME, b.(nextId := 1))
             else if !Allowed(b.ahead.refusals) then t == Ended(false, ErrMemory, NO_FRAME, c)
             else SendEnds(c, t, r, capacity)
    ensures var r := Sent(1, op, fields);
            && (t.rc in {Ok, ErrRemote} <==> OnlyExchange(t.books, r, t.response))
            && (t.rc in {Ok, ErrRemote} ==> (t.rc == Ok <==> Granted(t.response)))
  {
    var r, c := Sent(1, op, fields), Spend(b.(nextId := 1), Later(b.ahead.refusals));
    if 7 + |fields| <= MAX_FRAME && Allowed(b.ahead.refusals) {
      var w := Write(c.ahead.departures, Packet(RequestBody(r)));
      WriteIsPrefix(c.ahead.departures, Packet(RequestBody(r)));
      if w.rc == Ok {
        var a := c.(sent := c.sent + [r], wire := c.wire + Packet(RequestBody(r)), ahead := c.ahead.(departures := w.rest));
        assert a.sent == [r];
        FirstAnswer(a, t, r, capacity);
      }
    }
  }

  lemma {:induction false} FirstAnswer(a: Books, t: Ended, r: Sent, capacity: nat)
    requires AwaitEnds(a, t, r, capacity) && a.open && a.sent == [r] && a.answered == [] && a.delivered == []
    ensures t.rc in {Ok, ErrRemote} <==> OnlyExchange(t.books, r, t.response)
    ensures t.rc in {Ok, ErrRemote} ==> (t.rc == Ok <==> Granted(t.response))
  {
    if t.rc in {Ok, ErrRemote} {
      var news := News(a, t.books);
      AnswerMatches(news[|news| - 1], r, t.rc == Ok, t.response);
    } else {
      var y: Books :| Waiting(a, y, r) && Failing(y, t.books, r, t.rc, capacity);
      assert !t.books.open;
    }
  }
}
