/** The public calls of the client: buffers sized for what goes into them, a request,
    and what becomes of its answer. */
module WireApi {
  import opened Options
  import opened WireBytes
  import opened WireCodec
  import opened WireStream
  import opened WireHost
  import opened WireReader
  import opened WireEvents
  import opened WireLedger
  import opened WireCalls
  import opened WireClient
  import opened Sequences

  // ---- buffers ----

  lemma {:induction false} EncodeSnoc(fs: seq<Field>, f: Field)
    ensures EncodeFields(fs + [f]) == EncodeFields(fs) + EncodeField(f)
    decreases |fs|
  {
    if fs == [] {
      assert fs + [f] == [f];
      assert EncodeFields([f][1..]) == [];
    } else {
      assert (fs + [f])[1..] == fs[1..] + [f];
      EncodeSnoc(fs[1..], f);
      Assoc(EncodeField(fs[0]), EncodeFields(fs[1..]), EncodeField(f));
    }
  }

  /** append_field behind the fields already written. */
  method Append(buf: array<byte>, len: nat, tag: byte, data: seq<byte>, ghost done: seq<Field>)
    returns (rc: Result, newLen: nat)
    requires len <= buf.Length && buf[..len] == EncodeFields(done)
    modifies buf
    ensures rc == ErrArgument <==> |data| > MAX_FIELD
    ensures rc == ErrOverflow <==> |data| <= MAX_FIELD && len + 5 + |data| > buf.Length
    ensures rc in {Ok, ErrArgument, ErrOverflow}
    ensures rc == Ok ==>
              && newLen == len + 5 + |data| <= buf.Length
              && buf[..newLen] == EncodeFields(done + [Field(tag, data)])
  {
    var r;
    r, newLen := AppendField(buf, len, tag, data);
    EncodeSnoc(done, Field(tag, data));
    rc := match r case Appended => Ok case BadArgument => ErrArgument case NoRoom => ErrOverflow;
  }

  /** A chain of append_field calls goes on after successes only. */
  method AppendIf(rc: Result, buf: array<byte>, len: nat, tag: byte, data: seq<byte>, ghost done: seq<Field>)
    returns (rc': Result, newLen: nat)
    requires rc == Ok ==> len <= buf.Length && buf[..len] == EncodeFields(done)
    modifies buf
    ensures rc == Ok && |data| <= MAX_FIELD && len + 5 + |data| <= buf.Length ==> rc' == Ok
    ensures rc' == Ok ==>
              && rc == Ok && newLen == len + 5 + |data| <= buf.Length
              && buf[..newLen] == EncodeFields(done + [Field(tag, data)])
  {
    rc', newLen := rc, len;
    if rc == Ok {
      rc', newLen := Append(buf, len, tag, data, done);
    }
  }

  /** A buffer of fields is built exactly when malloc grants it: it never overflows. */
  ghost predicate Built(rc: Result, fields: seq<byte>, fs: seq<Field>, before: seq<bool>, after: seq<bool>) {
    && after == Later(before)
    && if Allowed(before) then rc == Ok && fields == EncodeFields(fs) else rc == ErrMemory
  }

  /** The buffer of a call with one string. */
  method OneField(host: Host, tag: byte, value: seq<byte>) returns (rc: Result, fields: seq<byte>)
    requires |value| <= MAX_FIELD
    modifies host`refusals
    ensures Built(rc, fields, [Field(tag, value)], old(host.refusals), host.refusals)
  {
    var ok := host.Malloc();
    if !ok {
      return ErrMemory, [];
    }
    var buf := new byte[5 + |value|];
    var len;
    rc, len := AppendIf(Ok, buf, 0, tag, value, []);
    fields := buf[..len];
    assert [] + [Field(tag, value)] == [Field(tag, value)];
  }

  /** The buffer of wg_publish: four fields in 20 bytes and their lengths. */
  method PublishBuffer(host: Host, topic: seq<byte>, payload: seq<byte>, contentType: seq<byte>, durable: bool)
    returns (rc: Result, fields: seq<byte>)
    requires |topic| <= MAX_FIELD && |payload| <= MAX_FIELD && |contentType| <= MAX_FIELD
    modifies host`refusals
    ensures Built(rc, fields, PublishFields(topic, payload, contentType, durable), old(host.refusals), host.refusals)
  {
    var class_ := if durable then CLASS_DURABLE else CLASS_EPHEMERAL;
    var cap := 20 + |topic| + |payload| + |contentType| + |class_|;
    var ok := host.Malloc();
    if !ok {
      return ErrMemory, [];
    }
    var buf := new byte[cap];
    var len;
    rc, len := AppendIf(Ok, buf, 0, F_TOPIC, topic, []);
    ghost var done: seq<Field> := [Field(F_TOPIC, topic)];
    assert [] + done == done;
    rc, len := AppendIf(rc, buf, len, F_PAYLOAD, payload, done);
    done := done + [Field(F_PAYLOAD, payload)];
    rc, len := AppendIf(rc, buf, len, F_CONTENT_TYPE, contentType, done);
    done := done + [Field(F_CONTENT_TYPE, contentType)];
    rc, len := AppendIf(rc, buf, len, F_CLASS, class_, done);
    assert done + [Field(F_CLASS, class_)] == PublishFields(topic, payload, contentType, durable);
    fields := buf[..len];
  }

  /** The buffer of wg_history: a topic, perhaps a cursor, perhaps a limit. */
  method HistoryBuffer(host: Host, topic: seq<byte>, cursor: Option<seq<byte>>, limit: nat)
    returns (rc: Result, fields: seq<byte>)
    requires LawfulHistory(topic, cursor, limit)
    modifies host`refusals
    ensures Built(rc, fields, HistoryFields(topic, cursor, limit), old(host.refusals), host.refusals)
  {
    var digits := Digits(limit);
    var cap := 5 + |topic| + (if cursor.Some? then 5 + |cursor.value| else 0) + (if limit != 0 then 5 + |digits| else 0);
    var ok := host.Malloc();
    if !ok {
      return ErrMemory, [];
    }
    var buf := new byte[cap];
    var len;
    rc, len := AppendIf(Ok, buf, 0, F_TOPIC, topic, []);
    ghost var done: seq<Field> := [Field(F_TOPIC, topic)];
    assert [] + done == done;
    if cursor.Some? {
      rc, len := AppendIf(rc, buf, len, F_CURSOR, cursor.value, done);
      done := done + [Field(F_CURSOR, cursor.value)];
    }
    if limit != 0 {
      rc, len := AppendIf(rc, buf, len, F_LIMIT, digits, done);
      done := done + [Field(F_LIMIT, digits)];
    }
    assert done == HistoryFields(topic, cursor, limit);
    fields := buf[..len];
  }

  /** The buffer of the handshake. */
  method HelloBuffer(host: Host, userId: seq<byte>, token: Option<seq<byte>>) returns (rc: Result, fields: seq<byte>)
    requires |userId| <= MAX_FIELD && (token.Some? ==> |token.value| <= MAX_FIELD)
    modifies host`refusals
    ensures Built(rc, fields, HelloFields(userId, token), old(host.refusals), host.refusals)
  {
    var ok := host.Malloc();
    if !ok {
      return ErrMemory, [];
    }
    var buf := new byte[5 + |userId| + if token.Some? then 5 + |token.value| else 0];
    var len;
    rc, len := AppendIf(Ok, buf, 0, F_USER_ID, userId, []);
    ghost var done: seq<Field> := [Field(F_USER_ID, userId)];
    assert [] + done == done;
    if token.Some? {
      rc, len := AppendIf(rc, buf, len, F_AUTH_TOKEN, token.value, done);
      done := done + [Field(F_AUTH_TOKEN, token.value)];
    }
    assert done == HelloFields(userId, token);
    fields := buf[..len];
  }

  // ---- requests ----

  /** The request of a call whose buffer has been built, or not. */
  method Submit(c: Client, built: Result, op: byte, fields: seq<byte>, ghost fs: seq<Field>, ghost b: Books)
    returns (rc: Result, response: Frame)
    requires c.Valid() && Balanced(b) && Resumable(b)
    requires c.Account() == Spend(b, c.host.refusals)
    requires Built(built, fields, fs, b.ahead.refusals, c.host.refusals)
    modifies c, c.reader, c.reader.Repr(), c.queue, c.queue.slots, c.host
    ensures c.Valid() && fresh(c.reader.Repr() - old(c.reader.Repr()))
    ensures Ended(false, rc, response, c.Account()) == CallSpec(b, op, fs, c.queue.slots.Length)
  {
    hide RequestSpec, Balanced, EncodeFields;
    rc, response := built, NO_FRAME;
    if built == Ok {
      rc, response := c.Request(op, fields);
    }
  }

  /** Building a buffer only uses memory. */
  lemma BuiltKeeps(b: Books, c: Books)
    requires Balanced(b) && c == Spend(b, c.ahead.refusals)
    ensures Balanced(c) && Resumable(b)
  {
    Unmoved(b, c);
    BalancedResumes(b);
  }

  /** subscribe, unsubscribe, ack, set_presence, join_room and leave_room. */
  method OneString(c: Client, op: byte, tag: byte, value: seq<byte>) returns (rc: Result, response: Frame)
    requires c.Valid()
    modifies c, c.reader, c.reader.Repr(), c.queue, c.queue.slots, c.host
    ensures c.Valid() && fresh(c.reader.Repr() - old(c.reader.Repr())) && Resumable(old(c.Account()))
    ensures Ended(false, rc, response, c.Account())
            == OneStringSpec(old(c.Account()), op, tag, value, c.queue.slots.Length)
  {
    hide CallSpec, Balanced, EncodeFields;
    ghost var b := c.Account();
    BuiltKeeps(b, b);
    if |value| > MAX_FIELD {
      return ErrArgument, NO_FRAME;
    }
    var fields;
    rc, fields := OneField(c.host, tag, value);
    BuiltKeeps(b, c.Account());
    rc, response := Submit(c, rc, op, fields, [Field(tag, value)], b);
  }

  /** wg_publish: a body too large for any frame is refused before it is built. */
  method Publish(c: Client, topic: seq<byte>, payload: seq<byte>, contentType: seq<byte>, durable: bool)
    returns (rc: Result, response: Frame)
    requires c.Valid()
    modifies c, c.reader, c.reader.Repr(), c.queue, c.queue.slots, c.host
    ensures c.Valid() && fresh(c.reader.Repr() - old(c.reader.Repr())) && Resumable(old(c.Account()))
    ensures Ended(false, rc, response, c.Account())
            == PublishSpec(old(c.Account()), topic, payload, contentType, durable, c.queue.slots.Length)
  {
    hide CallSpec, Balanced, EncodeFields;
    ghost var b := c.Account();
    BuiltKeeps(b, b);
    if |topic| > MAX_FIELD || |contentType| > MAX_FIELD || |payload| > MAX_FIELD {
      return ErrArgument, NO_FRAME;
    }
    if 20 + |topic| + |payload| + |contentType| + (if durable then 7 else 9) > MAX_FRAME {
      return ErrOverflow, NO_FRAME;
    }
    var fields;
    rc, fields := PublishBuffer(c.host, topic, payload, contentType, durable);
    BuiltKeeps(b, c.Account());
    rc, response := Submit(c, rc, OP_PUBLISH, fields, PublishFields(topic, payload, contentType, durable), b);
  }

  // ---- history ----

  /** The request of wg_history. */
  method AskHistory(c: Client, topic: seq<byte>, cursor: Option<seq<byte>>, limit: nat)
    returns (rc: Result, response: Frame)
    requires c.Valid() && LawfulHistory(topic, cursor, limit)
    modifies c, c.reader, c.reader.Repr(), c.queue, c.queue.slots, c.host
    ensures c.Valid() && fresh(c.reader.Repr() - old(c.reader.Repr())) && Resumable(old(c.Account()))
    ensures Ended(false, rc, response, c.Account())
            == CallSpec(old(c.Account()), OP_HISTORY, HistoryFields(topic, cursor, limit), c.queue.slots.Length)
  {
    hide CallSpec, Balanced, EncodeFields;
    ghost var b := c.Account();
    var fields;
    rc, fields := HistoryBuffer(c.host, topic, cursor, limit);
    BuiltKeeps(b, c.Account());
    rc, response := Submit(c, rc, OP_HISTORY, fields, HistoryFields(topic, cursor, limit), b);
  }

  function Capacity(a: array?<byte>): Option<nat> {
    if a == null then None else Some(a.Length)
  }

  ghost function Contents(a: array?<byte>): seq<byte> reads a {
    if a == null then [] else a[..]
  }

  /** The page and, NUL-terminated, the next cursor are copied out. */
  method CopyPage(out: array<byte>, nextCursor: array?<byte>, page: seq<byte>, next: Option<seq<byte>>)
    requires |page| <= out.Length && nextCursor != out
    requires nextCursor != null && next.Some? ==> |next.value| < nextCursor.Length
    modifies out, nextCursor
    ensures out[..] == Over(old(out[..]), page)
    ensures nextCursor != null ==>
              nextCursor[..] == if next.Some? then Over(old(nextCursor[..]), next.value + [0]) else old(nextCursor[..])
  {
    Store(out, 0, page);
    if nextCursor != null && nextCursor.Length > 0 && next.Some? {
      Store(nextCursor, 0, next.value + [0]);
    }
  }

  /** The copies touch nothing of the client's. */
  method HandPage(c: Client, out: array<byte>, nextCursor: array?<byte>, page: seq<byte>, next: Option<seq<byte>>)
    requires c.Linked() && out !in c.reader.Repr()
    requires nextCursor != null ==> nextCursor !in c.reader.Repr()
    requires |page| <= out.Length && nextCursor != out
    requires nextCursor != null && next.Some? ==> |next.value| < nextCursor.Length
    modifies out, nextCursor
    ensures c.Linked() && c.Account() == old(c.Account()) && c.reader.Repr() == old(c.reader.Repr())
    ensures out[..] == Over(old(out[..]), page)
    ensures nextCursor != null ==>
              nextCursor[..] == if next.Some? then Over(old(nextCursor[..]), next.value + [0]) else old(nextCursor[..])
  {
    CopyPage(out, nextCursor, page, next);
  }

  /** What wg_history does with a granted answer. */
  method TakePage(c: Client, response: Frame, out: array<byte>, nextCursor: array?<byte>)
    returns (rc: Result, outLen: nat)
    requires c.Linked() && out !in c.reader.Repr() && out != nextCursor
    requires nextCursor != null ==> nextCursor !in c.reader.Repr()
    modifies c`open, c`error, c.reader, out, nextCursor
    ensures c.Linked() && c.reader.Repr() <= old(c.reader.Repr())
    ensures var p := TakeSpec(old(c.Account()), response, out.Length, Capacity(nextCursor));
            && rc == p.rc && outLen == p.outLen && c.Account() == p.books
            && out[..] == PageIn(p, old(out[..])) && Contents(nextCursor) == CursorIn(p, old(Contents(nextCursor)))
  {
    hide Over, Find, EventQueue.Contents;
    outLen := 0;
    var payload, next := Find(response.fields, F_PAYLOAD), Find(response.fields, F_CURSOR);
    if payload.None? {
      rc := c.StreamError(ErrProtocol);
      return;
    }
    outLen := |payload.value.data|;
    if outLen > out.Length || (nextCursor != null && next.Some? && |next.value.data| >= nextCursor.Length) {
      c.error := BuffersTooSmall;
      return ErrOverflow, outLen;
    }
    HandPage(c, out, nextCursor, payload.value.data, DataOf(next));
    rc := Ok;
  }

  /** wg_history with lawful arguments: ask, then take the page. */
  method FetchPage(c: Client, topic: seq<byte>, cursor: Option<seq<byte>>, limit: nat,
                   out: array<byte>, nextCursor: array?<byte>)
    returns (rc: Result, outLen: nat, ghost p: Page)
    requires c.Valid() && LawfulHistory(topic, cursor, limit)
    requires out !in c.reader.Repr() && out != nextCursor
    requires nextCursor != null ==> nextCursor !in c.reader.Repr()
    modifies c, c.reader, c.reader.Repr(), c.queue, c.queue.slots, c.host, out, nextCursor
    ensures c.Linked() && fresh(c.reader.Repr() - old(c.reader.Repr())) && Resumable(old(c.Account()))
    ensures p == HistorySpec(old(c.Account()), topic, cursor, limit, out.Length, Capacity(nextCursor), c.queue.slots.Length)
    ensures rc == p.rc && outLen == p.outLen && c.Account() == p.books
    ensures out[..] == PageIn(p, old(out[..])) && Contents(nextCursor) == CursorIn(p, old(Contents(nextCursor)))
  {
    hide CallSpec, Balanced, TakeSpec;
    ghost var b, cap := c.Account(), c.queue.slots.Length;
    BalancedResumes(b);
    ghost var page, tail := out[..], Contents(nextCursor);
    p := HistorySpec(b, topic, cursor, limit, out.Length, Capacity(nextCursor), cap);
    var answer;
    rc, answer := AskHistory(c, topic, cursor, limit);
    outLen := 0;
    assert out[..] == page && Contents(nextCursor) == tail;
    if rc == Ok {
      rc, outLen := TakePage(c, answer, out, nextCursor);
    }
  }

  /** wg_history: unlawful arguments are refused before anything happens; the cursor
      buffer is emptied first in any case. */
  method History(c: Client, topic: seq<byte>, cursor: Option<seq<byte>>, limit: nat,
                 out: array?<byte>, nextCursor: array?<byte>)
    returns (rc: Result, outLen: nat, ghost p: Page)
    requires c.Valid()
    requires out != null ==> out !in c.reader.Repr() && out != nextCursor
    requires nextCursor != null ==> nextCursor !in c.reader.Repr()
    modifies c, c.reader, c.reader.Repr(), c.queue, c.queue.slots, c.host, out, nextCursor
    ensures c.Valid() && fresh(c.reader.Repr() - old(c.reader.Repr())) && Resumable(old(c.Account()))
    ensures p == if out == null then NoPage(ErrArgument, 0, old(c.Account()))
                 else HistorySpec(old(c.Account()), topic, cursor, limit, out.Length, Capacity(nextCursor),
                                  c.queue.slots.Length)
    ensures rc == p.rc && outLen == p.outLen && c.Account() == p.books
    ensures Contents(out) == PageIn(p, old(Contents(out)))
    ensures Contents(nextCursor) == CursorIn(p, Emptied(old(Contents(nextCursor))))
    ensures nextCursor != null && nextCursor.Length > 0 && (rc != Ok || p.next.None?) ==> nextCursor[0] == 0
  {
    hide Balanced, HistorySpec, PageIn, CursorIn;
    ghost var b := c.Account();
    BalancedResumes(b);
    NoPageAtAll(b, Contents(out), Emptied(Contents(nextCursor)));
    if out != null {
      UnlawfulHistory(b, topic, cursor, limit, out.Length, Capacity(nextCursor), c.queue.slots.Length);
      HistoryKeeps(b, topic, cursor, limit, out.Length, Capacity(nextCursor), c.queue.slots.Length);
    }
    if nextCursor != null && nextCursor.Length > 0 {
      nextCursor[0] := 0;
    }
    assert c.Account() == b;
    if out == null || limit > MAX_LIMIT || |topic| > MAX_FIELD || (cursor.Some? && |cursor.value| > MAX_FIELD) {
      return ErrArgument, 0, NoPage(ErrArgument, 0, b);
    }
    ghost var emptied := Contents(nextCursor);
    rc, outLen, p := FetchPage(c, topic, cursor, limit, out, nextCursor);
    if nextCursor != null && nextCursor.Length > 0 && (rc != Ok || p.next.None?) {
      NoCursorIn(p, emptied);
      assert Contents(nextCursor)[0] == 0;
    }
  }

  lemma NoCursorIn(p: Page, cursor: seq<byte>)
    requires p.rc != Ok || p.next.None?
    ensures CursorIn(p, cursor) == cursor
  {
  }

  lemma NoPageAtAll(b: Books, out: seq<byte>, next: seq<byte>)
    ensures PageIn(NoPage(ErrArgument, 0, b), out) == out && CursorIn(NoPage(ErrArgument, 0, b), next) == next
  {
  }

  lemma UnlawfulHistory(b: Books, topic: seq<byte>, cursor: Option<seq<byte>>, limit: nat,
                        outCap: nat, cursorCap: Option<nat>, capacity: nat)
    requires Resumable(b)
    ensures !LawfulHistory(topic, cursor, limit) ==>
              HistorySpec(b, topic, cursor, limit, outCap, cursorCap, capacity) == NoPage(ErrArgument, 0, b)
  {
    hide CallSpec;
  }

  function Emptied(s: seq<byte>): seq<byte> { if s == [] then [] else s[0 := 0] }

  // ---- connecting ----

  predicate LawfulHello(userId: seq<byte>, token: Option<seq<byte>>, capacity: nat) {
    && 1 <= capacity <= 1000000 && 1 <= |userId| <= MAX_FIELD
    && (token.Some? ==> |token.value| <= MAX_FIELD)
  }

  /** The handshake request. */
  method Greet(c: Client, userId: seq<byte>, token: Option<seq<byte>>) returns (rc: Result, response: Frame)
    requires c.Valid() && |userId| <= MAX_FIELD && (token.Some? ==> |token.value| <= MAX_FIELD)
    modifies c, c.reader, c.reader.Repr(), c.queue, c.queue.slots, c.host
    ensures c.Valid() && fresh(c.reader.Repr() - old(c.reader.Repr())) && Resumable(old(c.Account()))
    ensures Ended(false, rc, response, c.Account())
            == CallSpec(old(c.Account()), OP_HELLO, HelloFields(userId, token), c.queue.slots.Length)
  {
    hide CallSpec, Balanced, EncodeFields;
    ghost var b := c.Account();
    var fields;
    rc, fields := HelloBuffer(c.host, userId, token);
    BuiltKeeps(b, c.Account());
    rc, response := Submit(c, rc, OP_HELLO, fields, HelloFields(userId, token), b);
  }

  /** The client is made and says hello; it is kept when that is granted. */
  method Handshake(host: Host, userId: seq<byte>, token: Option<seq<byte>>, capacity: nat)
    returns (rc: Result, c: Client?, ghost response: Frame)
    requires host.Valid() && host.taken == [] && host.wire == [] && LawfulHello(userId, token, capacity)
    modifies host
    ensures var ahead := Ahead(old(host.arrivals), old(host.departures), old(host.refusals));
            var t := CallSpec(Fresh(ahead), OP_HELLO, HelloFields(userId, token), capacity);
            && rc == t.rc && response == t.response && (c != null <==> rc == Ok)
            && (c != null ==> c.Linked() && c.Account() == t.books)
    ensures c != null ==> fresh(c) && c.Valid() && c.host == host && c.queue.slots.Length == capacity
  {
    hide CallSpec, Balanced, EncodeFields, HelloFields;
    var client := new Client(host, capacity);
    rc, response := Greet(client, userId, token);
    c := if rc == Ok then client else null;
  }

  /** wg_connect_ex from dialling on.  There is a client exactly when the peer answered
      the handshake with the status ok, and then that exchange is the only one on its
      books; a peer that answers otherwise is a remote error, and without an answer the
      end is that of the call. */
  method Connect(host: Host, dialled: bool, userId: seq<byte>, token: Option<seq<byte>>, capacity: nat)
    returns (rc: Result, c: Client?, ghost response: Frame)
    requires host.Valid() && host.taken == [] && host.wire == []
    modifies host
    ensures rc == Ok <==> c != null
    ensures c != null ==> fresh(c) && c.Valid() && c.host == host && c.queue.slots.Length == capacity
    ensures var lawful := 1 <= capacity <= 1000000 && 1 <= |userId| <= 1048576
                          && (token.Some? ==> |token.value| <= 1048576);
            var early := if !lawful then ErrArgument
                         else if !dialled then ErrIo
                         else if !Allowed(old(host.refusals)) || !Allowed(Later(old(host.refusals))) then ErrMemory
                         else Ok;
            if early != Ok then rc == early && host.wire == [] && host.arrivals == old(host.arrivals)
            else
              var ahead := Ahead(old(host.arrivals), old(host.departures), Later(Later(old(host.refusals))));
              var fields := HelloFields(userId, token);
              var t, r := CallSpec(Fresh(ahead), OP_HELLO, fields, capacity), Sent(1, OP_HELLO, EncodeFields(fields));
              && rc == t.rc && response == t.response && (c != null ==> c.Account() == t.books)
              && (c != null <==> OnlyExchange(t.books, r, response) && Granted(response))
              && (rc == ErrRemote <==> OnlyExchange(t.books, r, response) && !Granted(response))
  {
    hide CallSpec, Balanced, EncodeFields, HelloFields, OnlyExchange, Granted;
    c, response := null, NO_FRAME;
    if !LawfulHello(userId, token, capacity) {
      rc := ErrArgument;
    } else if !dialled {
      rc := ErrIo;
    } else {
      var room := host.Malloc();
      if room {
        room := host.Malloc();
      }
      if room {
        FirstExchange(Ahead(host.arrivals, host.departures, host.refusals), OP_HELLO, HelloFields(userId, token), capacity);
        rc, c, response := Handshake(host, userId, token, capacity);
      } else {
        rc := ErrMemory;
      }
    }
  }

  // ---- runs ----

  /** One public call. */
  method Step(c: Client, call: Call) returns (o: Outcome)
    requires c.Valid()
    modifies c, c.reader, c.reader.Repr(), c.queue, c.queue.slots, c.host
    ensures c.Valid() && fresh(c.reader.Repr() - old(c.reader.Repr())) && Resumable(old(c.Account()))
    ensures (o, c.Account()) == StepSpec(old(c.Account()), call, c.queue.slots.Length)
  {
    hide RequestSpec, PollSpec, OneStringSpec, PublishSpec, HistorySpec, Balanced;
    match call
    case Ask(op, fields) =>
      var rc, response := c.Request(op, fields);
      o := Asked(rc, response);
    case OneString(op, tag, value) =>
      var rc, response := OneString(c, op, tag, value);
      o := Asked(rc, response);
    case Publish(topic, payload, contentType, durable) =>
      var rc, response := Publish(c, topic, payload, contentType, durable);
      o := Asked(rc, response);
    case History(topic, cursor, limit, outCap, cursorCap) =>
      o := PageOf(c, topic, cursor, limit, outCap, cursorCap);
    case Poll(nonblocking) =>
      var rc, e := c.Poll(nonblocking);
      o := Took(rc, e);
  }

  method Buffer(n: nat) returns (buf: array<byte>)
    ensures fresh(buf) && buf[..] == Zeros(n) == Emptied(buf[..])
  {
    buf := new byte[n](_ => 0);
  }

  /** wg_history into buffers of the caller. */
  method PageOf(c: Client, topic: seq<byte>, cursor: Option<seq<byte>>, limit: nat, outCap: nat, cursorCap: Option<nat>)
    returns (o: Outcome)
    requires c.Valid()
    modifies c, c.reader, c.reader.Repr(), c.queue, c.queue.slots, c.host
    ensures c.Valid() && fresh(c.reader.Repr() - old(c.reader.Repr())) && Resumable(old(c.Account()))
    ensures (o, c.Account())
            == StepSpec(old(c.Account()), Call.History(topic, cursor, limit, outCap, cursorCap), c.queue.slots.Length)
  {
    hide RequestSpec, OneStringSpec, PublishSpec, PollSpec, HistorySpec, Balanced, PageIn, CursorIn, Emptied, EventQueue.Contents;
    ghost var b := c.Account();
    BalancedResumes(b);
    var out := Buffer(outCap);
    var next: array?<byte> := null;
    if cursorCap.Some? {
      next := Buffer(cursorCap.value);
    }
    var rc, outLen;
    ghost var p;
    rc, outLen, p := History(c, topic, cursor, limit, out, next);
    PageRead(b, topic, cursor, limit, outCap, cursorCap, c.queue.slots.Length);
    o := Paged(rc, outLen, if rc == Ok then out[..outLen] else [], if next == null then [] else next[..]);
  }

  /** The page a caller reads from its buffer is the page. */
  lemma {:induction false} PageRead(b: Books, topic: seq<byte>, cursor: Option<seq<byte>>, limit: nat,
                                    outCap: nat, cursorCap: Option<nat>, capacity: nat)
    requires Resumable(b)
    ensures var p := HistorySpec(b, topic, cursor, limit, outCap, cursorCap, capacity);
            && (p.rc == Ok ==> p.outLen <= outCap && PageIn(p, Zeros(outCap))[..p.outLen] == p.page)
            && (p.rc != Ok ==> p.page == [])
            && (cursorCap.None? ==> CursorIn(p, Zeros(0)) == [])
  {
    hide CallSpec;
  }

  /** Any calls in any order: outcomes and books are those of the run. */
  method Run(c: Client, calls: seq<Call>) returns (outcomes: seq<Outcome>)
    requires c.Valid()
    modifies c, c.reader, c.reader.Repr(), c.queue, c.queue.slots, c.host
    ensures c.Valid() && (outcomes, c.Account()) == RunSpec(old(c.Account()), calls, c.queue.slots.Length)
  {
    hide StepSpec, Balanced;
    ghost var mine, b, cap := c.reader.Repr(), c.Account(), c.queue.slots.Length;
    outcomes := [];
    assert calls[..0] == [];
    for i := 0 to |calls|
      invariant c.Valid() && fresh(c.reader.Repr() - mine)
      invariant (outcomes, c.Account()) == RunSpec(b, calls[..i], cap)
    {
      assert calls[..i + 1] == calls[..i] + [calls[i]];
      RunSnoc(b, calls[..i], calls[i], cap);
      var o := Step(c, calls[i]);
      outcomes := outcomes + [o];
    }
    assert calls[..|calls|] == calls;
  }
}
