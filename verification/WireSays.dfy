/** What the public calls say to the peer, as the peer reads it, and what wg_history makes
    of the answer. */
module WireSays {
  import opened Options
  import opened WireBytes
  import opened WireCodec
  import opened WireStream
  import opened WireHost
  import opened WireReader
  import opened WireEvents
  import opened WireLedger
  import opened WireCalls
  import opened WireEnds
  import opened Sequences

  // ---- one request on the wire ----

  /** A body the peer parses as the request with the connection's next id. */
  ghost predicate IsRequest(b: Books, body: seq<byte>, op: byte, fs: seq<Field>) {
    Decode(body) == Some(Frame(0, op, (b.nextId + 1) % 0x1_0000_0000, fs))
  }

  /** Nothing but that request is written; all of it when the stream is open, memory is
      granted and the write is not stopped. */
  ghost predicate SaysBody(b: Books, z: Books, op: byte, fs: seq<Field>, body: seq<byte>) {
    && IsRequest(b, body, op, fs)
    && b.wire <= z.wire <= b.wire + Packet(body)
    && (b.open && |body| <= 2097152 && Generous(b.ahead.refusals) && Write(b.ahead.departures, Packet(body)).rc == Ok ==>
          z.wire == b.wire + Packet(body))
  }

  ghost predicate Says(b: Books, z: Books, op: byte, fs: seq<Field>) {
    exists body :: SaysBody(b, z, op, fs, body)
  }

  /** Waiting writes nothing. */
  lemma {:induction false} WaitWritesNothing(a: Books, t: Ended, r: Sent, capacity: nat)
    requires AwaitEnds(a, t, r, capacity)
    ensures t.books.wire == a.wire
  {
    if t.rc !in {Ok, ErrRemote} {
      var y: Books :| Waiting(a, y, r) && Failing(y, t.books, r, t.rc, capacity);
      ReadMoves(y, false);
    }
  }

  /** A request that is sent puts its packet on the wire, or a part of it. */
  lemma {:induction false} SendingWrites(b: Books, t: Ended, r: Sent, capacity: nat)
    requires SendEnds(b, t, r, capacity)
    ensures b.wire <= t.books.wire <= b.wire + Packet(RequestBody(r))
    ensures Write(b.ahead.departures, Packet(RequestBody(r))).rc == Ok ==>
              t.books.wire == b.wire + Packet(RequestBody(r))
  {
    hide AwaitEnds, Write, Packet, RequestBody;
    var packet := Packet(RequestBody(r));
    var w := Write(b.ahead.departures, packet);
    if w.rc == Ok {
      WaitWritesNothing(b.(sent := b.sent + [r], wire := b.wire + packet, ahead := b.ahead.(departures := w.rest)),
                        t, r, capacity);
    }
  }

  lemma {:induction false} RequestSays(b: Books, op: byte, fs: seq<Field>, capacity: nat)
    requires Resumable(b) && FieldsWellFormed(fs)
    ensures Says(b, RequestSpec(b, op, EncodeFields(fs), capacity).books, op, fs)
  {
    hide RequestSpec, SendEnds, Write, Packet, EncodeFields, Generous, FieldsWellFormed, Decode;
    var fields, id := EncodeFields(fs), Low32(b.nextId + 1);
    var t, r := RequestSpec(b, op, fields, capacity), Sent(id, op, fields);
    RequestDoes(b, op, fields, capacity);
    RequestIsReadable(r, fs);
    var body := RequestBody(r);
    Extends(b.wire, Packet(body));
    if Generous(b.ahead.refusals) {
      GenerousAllows(b.ahead.refusals);
    }
    if b.open && 7 + |fields| <= MAX_FRAME && Allowed(b.ahead.refusals) {
      SendingWrites(Spend(b.(nextId := id), Later(b.ahead.refusals)), t, r, capacity);
    }
    assert SaysBody(b, t.books, op, fs, body);
  }

  lemma Extends(a: seq<byte>, b: seq<byte>)
    ensures a <= a + b
  {
  }

  lemma GenerousAllows(refusals: seq<bool>)
    requires Generous(refusals)
    ensures Allowed(refusals) && Generous(Later(refusals))
  {
  }

  /** What is said does not depend on memory spent before, as long as it was granted. */
  lemma SaysAnyway(b: Books, c: Books, z: Books, op: byte, fs: seq<Field>)
    requires Says(c, z, op, fs) && c == Spend(b, c.ahead.refusals)
    requires Generous(b.ahead.refusals) ==> Generous(c.ahead.refusals)
    ensures Says(b, z, op, fs)
  {
    hide Write, Packet, Generous, Decode;
    var body :| SaysBody(c, z, op, fs, body);
    assert SaysBody(b, z, op, fs, body);
  }

  lemma NothingSaid(b: Books, z: Books, op: byte, fs: seq<Field>)
    requires FieldsWellFormed(fs) && !Generous(b.ahead.refusals) && z.wire == b.wire
    ensures Says(b, z, op, fs)
  {
    hide Write, Packet, Generous, Decode, FieldsWellFormed, RequestBody;
    var r := Sent(Low32(b.nextId + 1), op, EncodeFields(fs));
    RequestIsReadable(r, fs);
    Extends(b.wire, Packet(RequestBody(r)));
    assert SaysBody(b, z, op, fs, RequestBody(r));
  }

  lemma {:induction false} CallSays(b: Books, op: byte, fs: seq<Field>, capacity: nat)
    requires Resumable(b) && FieldsWellFormed(fs)
    ensures Says(b, CallSpec(b, op, fs, capacity).books, op, fs)
  {
    hide RequestSpec, EncodeFields, Generous, FieldsWellFormed, Says;
    var c := Spend(b, Later(b.ahead.refusals));
    if Generous(b.ahead.refusals) {
      GenerousAllows(b.ahead.refusals);
    }
    if Allowed(b.ahead.refusals) {
      RequestSays(c, op, fs, capacity);
      SaysAnyway(b, c, RequestSpec(c, op, EncodeFields(fs), capacity).books, op, fs);
    } else {
      NothingSaid(b, c, op, fs);
    }
  }

  // ---- what each call says ----

  /** A call refused before it does anything. */
  ghost predicate Untouched(t: Ended, rc: Result, b: Books) {
    t.rc == rc && t.response == NO_FRAME && t.books == b
  }

  /** subscribe, unsubscribe, ack, set_presence, join_room, leave_room: the one string under
      its tag, if it is not too long. */
  lemma {:induction false} OneStringSays(b: Books, op: byte, tag: byte, value: seq<byte>, capacity: nat)
    requires Resumable(b) && tag != 0
    ensures var t := OneStringSpec(b, op, tag, value, capacity);
            if |value| > 1048576 then Untouched(t, ErrArgument, b) else Says(b, t.books, op, [Field(tag, value)])
  {
    if |value| <= MAX_FIELD {
      CallSays(b, op, [Field(tag, value)], capacity);
    }
  }

  /** wg_publish: topic, payload, content type and class, each under its own tag. */
  lemma {:induction false} PublishSays(b: Books, topic: seq<byte>, payload: seq<byte>, contentType: seq<byte>,
                                       durable: bool, capacity: nat)
    requires Resumable(b)
    ensures var t := PublishSpec(b, topic, payload, contentType, durable, capacity);
            var class_ := if durable then CLASS_DURABLE else CLASS_EPHEMERAL;
            if |topic| > 1048576 || |contentType| > 1048576 || |payload| > 1048576 then Untouched(t, ErrArgument, b)
            else if 20 + |topic| + |payload| + |contentType| + |class_| > 2097152 then Untouched(t, ErrOverflow, b)
            else Says(b, t.books, 4, [Field(3, topic), Field(4, payload), Field(5, contentType), Field(11, class_)])
  {
    hide CallSpec, Says;
    if |topic| <= MAX_FIELD && |contentType| <= MAX_FIELD && |payload| <= MAX_FIELD {
      CallSays(b, OP_PUBLISH, PublishFields(topic, payload, contentType, durable), capacity);
    }
  }

  /** The handshake: the user, and the token if there is one. */
  lemma {:induction false} HelloSays(b: Books, userId: seq<byte>, token: Option<seq<byte>>, capacity: nat)
    requires Resumable(b) && |userId| <= MAX_FIELD && (token.Some? ==> |token.value| <= MAX_FIELD)
    ensures Says(b, CallSpec(b, OP_HELLO, HelloFields(userId, token), capacity).books, 1,
                 if token.Some? then [Field(2, userId), Field(14, token.value)] else [Field(2, userId)])
  {
    hide CallSpec, Says;
    var fs := HelloFields(userId, token);
    assert fs == if token.Some? then [Field(2, userId), Field(14, token.value)] else [Field(2, userId)];
    CallSays(b, OP_HELLO, fs, capacity);
  }

  /** The number a string of decimal digits stands for. */
  ghost function Decimal(s: seq<byte>): int {
    if s == [] then 0 else Decimal(s[..|s| - 1]) * 10 + (s[|s| - 1] as int - '0' as int)
  }

  /** Digits writes numbers in decimal, without leading zeros. */
  lemma {:induction false} DigitsAreDecimal(n: nat)
    ensures Decimal(Digits(n)) == n
    ensures forall d :: d in Digits(n) ==> '0' as int <= d as int <= '9' as int
    ensures n != 0 ==> Digits(n)[0] as int != '0' as int
    decreases n
  {
    if n < 10 {
      assert Digits(n)[..0] == [];
    } else {
      DigitsAreDecimal(n / 10);
      var s := Digits(n / 10);
      assert Digits(n)[..|s|] == s;
    }
  }

  /** wg_history: the topic, the cursor if there is one, and a limit other than zero in
      decimal. */
  lemma {:induction false} HistorySays(b: Books, topic: seq<byte>, cursor: Option<seq<byte>>, limit: nat,
                                       outCap: nat, cursorCap: Option<nat>, capacity: nat) returns (digits: seq<byte>)
    requires Resumable(b)
    ensures Decimal(digits) == limit && forall d :: d in digits ==> '0' as int <= d as int <= '9' as int
    ensures var p := HistorySpec(b, topic, cursor, limit, outCap, cursorCap, capacity);
            if limit > 100 || |topic| > 1048576 || (cursor.Some? && |cursor.value| > 1048576) then
              p.rc == ErrArgument && p.books == b
            else
              Says(b, p.books, 10,
                   [Field(3, topic)] + (if cursor.Some? then [Field(15, cursor.value)] else [])
                   + (if limit > 0 then [Field(16, digits)] else []))
  {
    hide CallSpec, Says, FieldsWellFormed, HistoryFields, Digits, Decimal, TakeSpec;
    digits := Digits(limit);
    DigitsAreDecimal(limit);
    if LawfulHistory(topic, cursor, limit) {
      var fs := HistoryFields(topic, cursor, limit);
      HistoryList(topic, cursor, limit);
      CallSays(b, OP_HISTORY, fs, capacity);
      var t := CallSpec(b, OP_HISTORY, fs, capacity);
      TakingWritesNothing(b, t.books, fs, t.response, outCap, cursorCap);
    }
  }

  lemma HistoryList(topic: seq<byte>, cursor: Option<seq<byte>>, limit: nat)
    requires LawfulHistory(topic, cursor, limit)
    ensures FieldsWellFormed(HistoryFields(topic, cursor, limit))
    ensures HistoryFields(topic, cursor, limit)
            == [Field(3, topic)] + (if cursor.Some? then [Field(15, cursor.value)] else [])
               + (if limit > 0 then [Field(16, Digits(limit))] else [])
  {
  }

  lemma TakingWritesNothing(b: Books, c: Books, fs: seq<Field>, response: Frame, outCap: nat, cursorCap: Option<nat>)
    requires Says(b, c, OP_HISTORY, fs)
    ensures Says(b, TakeSpec(c, response, outCap, cursorCap).books, OP_HISTORY, fs)
  {
    hide Write, Packet, Generous, IsRequest;
    var body :| SaysBody(b, c, OP_HISTORY, fs, body);
    assert SaysBody(b, TakeSpec(c, response, outCap, cursorCap).books, OP_HISTORY, fs, body);
  }

  // ---- what wg_history makes of the answer ----

  /** The page is the answer's payload, the next cursor its cursor; a page or cursor that
      does not fit is refused with the length needed and nothing else moves; an answer
      without a payload ends the stream. */
  lemma {:induction false} PageIs(b: Books, response: Frame, outCap: nat, cursorCap: Option<nat>)
    requires FieldsWellFormed(response.fields)
    ensures var p := TakeSpec(b, response, outCap, cursorCap);
            && ((forall g :: g in response.fields ==> g.tag != 4) ==>
                  p == Page(ErrProtocol, 0, [], None, b.(open := false, partial := [], room := false)))
            && forall page :: Field(4, page) in response.fields ==>
                 if |page| <= outCap
                    && (cursorCap.Some? ==> forall next :: Field(15, next) in response.fields ==> |next| < cursorCap.value)
                 then
                   && p.rc == Ok && p.outLen == |page| && p.page == page && p.books == b
                   && forall next :: p.next == Some(next) <==> cursorCap.Some? && Field(15, next) in response.fields
                 else p == Page(ErrOverflow, |page|, [], None, b)
  {
    FindIsPart(response.fields, F_PAYLOAD);
    FindIsPart(response.fields, F_CURSOR);
    hide FieldsWellFormed;
    var next := DataOf(Find(response.fields, F_CURSOR));
    forall d ensures Field(F_CURSOR, d) in response.fields <==> next == Some(d) {
    }
  }

  /** In the caller's buffers: the page at the front of the one, the cursor and a NUL at the
      front of the other, and every byte behind them as it was. */
  lemma BuffersHold(p: Page, out: seq<byte>, cursor: seq<byte>)
    requires p.rc == Ok && |p.page| <= |out| && (p.next.Some? ==> |p.next.value| < |cursor|)
    ensures var o := PageIn(p, out); |o| == |out| && o[..|p.page|] == p.page && o[|p.page|..] == out[|p.page|..]
    ensures p.next.None? ==> CursorIn(p, cursor) == cursor
    ensures p.next.Some? ==>
              var c, n := CursorIn(p, cursor), |p.next.value|;
              |c| == |cursor| && c[..n] == p.next.value && c[n] == 0 && c[n + 1..] == cursor[n + 1..]
  {
  }
}
