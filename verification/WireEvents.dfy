/** What a frame means to the client: an event, an answer, or a broken stream. */
module WireEvents {
  import opened Options
  import opened WireBytes
  import opened WireCodec
  import opened WireHost
  import opened Sequences

  const OP_HELLO: byte := 1
  const OP_PUBLISH: byte := 4
  const OP_HISTORY: byte := 10
  const OP_EVENT: byte := 64

  const F_USER_ID: byte := 2
  const F_TOPIC: byte := 3
  const F_PAYLOAD: byte := 4
  const F_CONTENT_TYPE: byte := 5
  const F_DELIVERY_ID: byte := 6
  const F_STATUS: byte := 7
  const F_EVENT_ID: byte := 9
  const F_ERROR: byte := 10
  const F_CLASS: byte := 11
  const F_AUTH_TOKEN: byte := 14
  const F_CURSOR: byte := 15
  const F_LIMIT: byte := 16

  const STATUS_OK: seq<byte> := ['o' as int, 'k' as int]
  const STATUS_ERROR: seq<byte> := ['e' as int, 'r' as int, 'r' as int, 'o' as int, 'r' as int]

  datatype Event = Event(
    topic: seq<byte>,
    payload: seq<byte>,
    contentType: Option<seq<byte>>,
    deliveryId: Option<seq<byte>>,
    eventId: Option<seq<byte>>)

  const NO_EVENT := Event([], [], None, None, None)

  function DataOf(f: Option<Field>): Option<seq<byte>> {
    match f case None => None case Some(g) => Some(g.data)
  }

  /** The event a frame carries, if it is a well-formed event. */
  function ToEvent(f: Frame): Option<Event> {
    var topic, payload := Find(f.fields, F_TOPIC), Find(f.fields, F_PAYLOAD);
    if f.op != OP_EVENT || f.id != 0 || topic.None? || payload.None? then None
    else Some(Event(topic.value.data, payload.value.data,
                    DataOf(Find(f.fields, F_CONTENT_TYPE)),
                    DataOf(Find(f.fields, F_DELIVERY_ID)),
                    DataOf(Find(f.fields, F_EVENT_ID))))
  }

  /** The part a tag stands for: its data, or nothing when no field has the tag. */
  ghost predicate Part(fs: seq<Field>, tag: byte, part: Option<seq<byte>>) {
    forall d :: Field(tag, d) in fs <==> part == Some(d)
  }

  /** The event is what the fields say, tag by tag. */
  ghost predicate Reads(e: Event, fs: seq<Field>) {
    && Part(fs, F_TOPIC, Some(e.topic)) && Part(fs, F_PAYLOAD, Some(e.payload))
    && Part(fs, F_CONTENT_TYPE, e.contentType) && Part(fs, F_DELIVERY_ID, e.deliveryId)
    && Part(fs, F_EVENT_ID, e.eventId)
  }

  lemma FindIsPart(fs: seq<Field>, tag: byte)
    requires FieldsWellFormed(fs)
    ensures Part(fs, tag, DataOf(Find(fs, tag)))
    ensures Find(fs, tag).None? <==> forall g :: g in fs ==> g.tag != tag
  {
    forall d ensures Field(tag, d) in fs <==> DataOf(Find(fs, tag)) == Some(d) {
      if Field(tag, d) in fs {
        var i :| 0 <= i < |fs| && fs[i] == Field(tag, d);
        assert HasTag(fs, tag);
        var g := Find(fs, tag).value;
        assert g in fs && g.tag == tag;
        var j :| 0 <= j < |fs| && fs[j] == g;
        assert i == j;
      }
    }
    if Find(fs, tag).None? {
      forall g | g in fs ensures g.tag != tag {
        var i :| 0 <= i < |fs| && fs[i] == g;
      }
    }
  }

  /** Which frames are events, and what event each is. */
  lemma EventParts(f: Frame)
    requires FieldsWellFormed(f.fields)
    ensures ToEvent(f).None? <==>
              || f.op != 64 || f.id != 0
              || (forall g :: g in f.fields ==> g.tag != F_TOPIC) || (forall g :: g in f.fields ==> g.tag != F_PAYLOAD)
    ensures ToEvent(f).Some? ==> Reads(ToEvent(f).value, f.fields)
  {
    hide FieldsWellFormed, Part;
    FindIsPart(f.fields, F_TOPIC);
    FindIsPart(f.fields, F_PAYLOAD);
    FindIsPart(f.fields, F_CONTENT_TYPE);
    FindIsPart(f.fields, F_DELIVERY_ID);
    FindIsPart(f.fields, F_EVENT_ID);
  }

  lemma OnePart(fs: seq<Field>, tag: byte, p: Option<seq<byte>>, q: Option<seq<byte>>)
    requires Part(fs, tag, p) && Part(fs, tag, q)
    ensures p == q
    ensures p.Some? ==> exists g :: g in fs && g.tag == tag
  {
    if p.Some? {
      assert Field(tag, p.value) in fs;
    } else if q.Some? {
      assert Field(tag, q.value) in fs;
    }
  }

  lemma OneReading(a: Event, b: Event, fs: seq<Field>)
    requires Reads(a, fs) && Reads(b, fs)
    ensures a == b
  {
    hide Part;
    OnePart(fs, F_TOPIC, Some(a.topic), Some(b.topic));
    OnePart(fs, F_PAYLOAD, Some(a.payload), Some(b.payload));
    OnePart(fs, F_CONTENT_TYPE, a.contentType, b.contentType);
    OnePart(fs, F_DELIVERY_ID, a.deliveryId, b.deliveryId);
    OnePart(fs, F_EVENT_ID, a.eventId, b.eventId);
  }

  /** How many allocations a copy of an event takes; an empty payload takes none. */
  function Copies(e: Event): nat {
    1 + (if e.contentType.Some? then 1 else 0) + (if e.deliveryId.Some? then 1 else 0)
      + (if e.eventId.Some? then 1 else 0) + (if e.payload != [] then 1 else 0)
  }

  /** What the client owes a frame while it waits for the answer to a request. */
  datatype Verdict = Keep(event: Event) | Answer(frame: Frame, granted: bool) | Refuse

  function JudgeFrame(f: Frame, id: word, op: byte): Verdict {
    if f.kind == KIND_EVENT then
      match ToEvent(f) case None => Refuse case Some(e) => Keep(e)
    else if f.kind != KIND_RESPONSE || f.id != id || f.op != op then Refuse
    else match Find(f.fields, F_STATUS)
      case None => Refuse
      case Some(status) =>
        if status.data == STATUS_OK then Answer(f, true)
        else if status.data == STATUS_ERROR then Answer(f, false)
        else Refuse
  }

  function Judge(body: seq<byte>, id: word, op: byte): Verdict {
    match Decode(body) case None => Refuse case Some(f) => JudgeFrame(f, id, op)
  }

  function EventIn(f: Frame): seq<Event> {
    match ToEvent(f) case None => [] case Some(e) => [e]
  }

  /** The event frame a body is, read without any request in mind. */
  ghost function EventOf(body: seq<byte>): seq<Event> {
    match Decode(body)
    case None => []
    case Some(f) =>
      if f.kind == KIND_EVENT then EventIn(f) else []
  }

  /** A body is an event exactly when it encodes one: an event frame, operation 64, id 0,
      whose fields say what the event says. */
  lemma EventOfIs(body: seq<byte>, e: Event)
    ensures EventOf(body) == [e] <==>
              exists fs :: FieldsWellFormed(fs) && body == EncodeFrame(Frame(2, 64, 0, fs)) && Reads(e, fs)
  {
    hide FieldsWellFormed, EncodeFrame, Reads, Decode, ToEvent;
    if EventOf(body) == [e] {
      EncodeOfDecode(body);
      var f := Decode(body).value;
      EventParts(f);
      EventShape(f);
      assert body == EncodeFrame(Frame(2, 64, 0, f.fields)) && Reads(e, f.fields);
    }
    forall fs | FieldsWellFormed(fs) && body == EncodeFrame(Frame(2, 64, 0, fs)) && Reads(e, fs)
      ensures EventOf(body) == [e]
    {
      var f := Frame(2, 64, 0, fs);
      DecodeOfEncode(f);
      EventParts(f);
      Mentioned(e, fs);
      OneReading(e, ToEvent(f).value, fs);
    }
  }

  lemma EventShape(f: Frame)
    requires ToEvent(f).Some?
    ensures f.op == 64 && f.id == 0
  {
  }

  lemma Mentioned(e: Event, fs: seq<Field>)
    requires Reads(e, fs)
    ensures !(forall g :: g in fs ==> g.tag != F_TOPIC) && !(forall g :: g in fs ==> g.tag != F_PAYLOAD)
  {
    assert Field(F_TOPIC, e.topic) in fs && Field(F_PAYLOAD, e.payload) in fs;
  }

  /** What a frame is while an answer is awaited: an event to keep; the answer, when it is
      a response with the request's id and operation and the status ok or error; anything
      else is refused. */
  lemma JudgeMeans(body: seq<byte>, id: word, op: byte)
    ensures forall e :: Judge(body, id, op) == Keep(e) <==> EventOf(body) == [e]
    ensures forall f, granted :: Judge(body, id, op) == Answer(f, granted) <==>
              && WellFormed(f) && body == EncodeFrame(f) && f.kind == 1 && f.id == id && f.op == op
              && Field(F_STATUS, if granted then STATUS_OK else STATUS_ERROR) in f.fields
  {
    forall f, granted
      ensures Judge(body, id, op) == Answer(f, granted) <==>
                && WellFormed(f) && body == EncodeFrame(f) && f.kind == 1 && f.id == id && f.op == op
                && Field(F_STATUS, if granted then STATUS_OK else STATUS_ERROR) in f.fields
    {
      AnswerMeans(body, id, op, f, granted);
    }
  }

  lemma AnswerMeans(body: seq<byte>, id: word, op: byte, f: Frame, granted: bool)
    ensures Judge(body, id, op) == Answer(f, granted) <==>
              && WellFormed(f) && body == EncodeFrame(f) && f.kind == 1 && f.id == id && f.op == op
              && Field(F_STATUS, if granted then STATUS_OK else STATUS_ERROR) in f.fields
  {
    hide EncodeFrame, Decode, ToEvent, FieldsWellFormed, Part;
    if WellFormed(f) && body == EncodeFrame(f) {
      DecodeOfEncode(f);
    }
    if Decode(body) == Some(f) {
      EncodeOfDecode(body);
      FindIsPart(f.fields, F_STATUS);
      PartIs(f.fields, F_STATUS, DataOf(Find(f.fields, F_STATUS)), if granted then STATUS_OK else STATUS_ERROR);
    }
  }

  lemma PartIs(fs: seq<Field>, tag: byte, part: Option<seq<byte>>, d: seq<byte>)
    requires Part(fs, tag, part)
    ensures Field(tag, d) in fs <==> part == Some(d)
  {
  }

  ghost function AnswerOf(body: seq<byte>): seq<Frame> {
    match Decode(body)
    case None => []
    case Some(f) => if f.kind == KIND_RESPONSE then [f] else []
  }

  /** The events among the frames of a stream, in order. */
  ghost function EventsOf(bodies: seq<seq<byte>>): seq<Event> {
    if bodies == [] then []
    else EventsOf(bodies[..|bodies| - 1]) + EventOf(bodies[|bodies| - 1])
  }

  /** The responses among the frames of a stream, in order. */
  ghost function AnswersOf(bodies: seq<seq<byte>>): seq<Frame> {
    if bodies == [] then []
    else AnswersOf(bodies[..|bodies| - 1]) + AnswerOf(bodies[|bodies| - 1])
  }

  lemma OneMoreBody(bodies: seq<seq<byte>>, body: seq<byte>)
    ensures EventsOf(bodies + [body]) == EventsOf(bodies) + EventOf(body)
    ensures AnswersOf(bodies + [body]) == AnswersOf(bodies) + AnswerOf(body)
  {
    assert (bodies + [body])[..|bodies|] == bodies;
  }

  lemma {:induction false} EventsOfConcat(a: seq<seq<byte>>, b: seq<seq<byte>>)
    ensures EventsOf(a + b) == EventsOf(a) + EventsOf(b)
    ensures AnswersOf(a + b) == AnswersOf(a) + AnswersOf(b)
    decreases |b|
  {
    if b == [] {
      assert a + b == a;
    } else {
      var c, last := b[..|b| - 1], b[|b| - 1];
      EventsOfConcat(a, c);
      TakeLast(b);
      Assoc(a, c, [last]);
      OneMoreBody(a + c, last);
      Assoc(EventsOf(a), EventsOf(c), EventOf(last));
      Assoc(AnswersOf(a), AnswersOf(c), AnswerOf(last));
    }
  }

  /** A longer reading of the stream only adds events at the end. */
  lemma EventsGrow(a: seq<seq<byte>>, b: seq<seq<byte>>)
    requires a <= b
    ensures EventsOf(a) <= EventsOf(b)
  {
    assert b == a + b[|a|..];
    EventsOfConcat(a, b[|a|..]);
  }

  /** The events a ring of slots holds: len of them from head on, around the end. */
  function Ring(slots: seq<Event>, head: nat, len: nat): (r: seq<Event>)
    requires head < |slots| && len <= |slots|
    ensures |r| == len
  {
    if head + len <= |slots| then slots[head..head + len]
    else slots[head..] + slots[..head + len - |slots|]
  }

  lemma WrapsOnce(x: nat, n: nat)
    requires x < 2 * n
    ensures x % n == if x < n then x else x - n
  {
    if n <= x {
      assert x == n * 1 + (x - n);
    }
  }

  /** Filling the next free slot appends. */
  lemma RingPush(slots: seq<Event>, head: nat, len: nat, e: Event)
    requires head < |slots| && len < |slots|
    ensures var slot := (head + len) % |slots|;
            0 <= slot < |slots| && Ring(slots[slot := e], head, len + 1) == Ring(slots, head, len) + [e]
  {
    WrapsOnce(head + len, |slots|);
  }

  lemma RingTail(slots: seq<Event>, head: nat, len: nat)
    requires head < |slots| && 0 < len <= |slots|
    ensures var next := if head + 1 < |slots| then head + 1 else 0;
            Ring(slots, head, len) == [slots[head]] + Ring(slots, next, len - 1)
  {
    var n := |slots|;
    if head + len <= n {
      var taken := slots[head..head + len];
      assert taken == [taken[0]] + taken[1..];
      if head + 1 < n {
        assert taken[1..] == slots[head + 1..head + len] == Ring(slots, head + 1, len - 1);
      } else {
        assert taken[1..] == [] == Ring(slots, 0, len - 1);
      }
    } else {
      var tail, front := slots[head..], slots[..head + len - n];
      assert tail == [tail[0]] + tail[1..] && tail[1..] == slots[head + 1..];
      Assoc([tail[0]], tail[1..], front);
      if head + 1 == n {
        assert tail[1..] + front == slots[0..len - 1] == Ring(slots, 0, len - 1);
      }
    }
  }

  lemma RingIgnores(slots: seq<Event>, head: nat, len: nat, at: nat, blank: Event)
    requires head < |slots| && len <= |slots| && at < |slots|
    requires head + len <= |slots| ==> at < head || head + len <= at
    requires head + len > |slots| ==> head + len - |slots| <= at < head
    ensures Ring(slots[at := blank], head, len) == Ring(slots, head, len)
  {
  }

  lemma EmptyRing(slots: seq<Event>, head: nat, len: nat)
    requires head < |slots| && len <= |slots|
    ensures Ring(slots, head, len) == [] <==> len == 0
  {
  }

  /** Clearing the head slot and moving on removes the oldest event. */
  lemma RingPop(slots: seq<Event>, head: nat, len: nat, blank: Event)
    requires head < |slots| && 0 < len <= |slots|
    ensures var next := (head + 1) % |slots|;
            && 0 <= next < |slots|
            && Ring(slots, head, len) == [slots[head]] + Ring(slots[head := blank], next, len - 1)
  {
    WrapsOnce(head + 1, |slots|);
    RingTail(slots, head, len);
    RingIgnores(slots, (head + 1) % |slots|, len - 1, head, blank);
  }

  /** The ring buffer of events that arrived while a request was waiting. */
  class EventQueue {
    const slots: array<Event>
    var head: nat
    var len: nat

    ghost predicate Valid() reads this {
      head < slots.Length && len <= slots.Length
    }

    ghost function Contents(): seq<Event>
      requires Valid()
      reads this, slots
    {
      Ring(slots[..], head, len)
    }

    constructor (capacity: nat)
      requires capacity > 0
      ensures Valid() && Contents() == [] && slots.Length == capacity && fresh(slots)
    {
      slots := new Event[capacity](_ => NO_EVENT);
      head, len := 0, 0;
    }

    /** The slot behind the last event is filled and becomes part of the queue. */
    method Push(e: Event)
      requires Valid() && len < slots.Length
      modifies this, slots
      ensures Valid() && Contents() == old(Contents()) + [e]
    {
      RingPush(slots[..], head, len, e);
      var slot := (head + len) % slots.Length;
      slots[slot] := e;
      len := len + 1;
    }

    /** pop_event: the oldest event, if there is one. */
    method Pop() returns (found: bool, e: Event)
      requires Valid()
      modifies this, slots
      ensures Valid() && found == (old(Contents()) != [])
      ensures found ==> old(Contents()) == [e] + Contents()
      ensures !found ==> Contents() == old(Contents())
    {
      hide Ring;
      e := NO_EVENT;
      EmptyRing(slots[..], head, len);
      if len == 0 {
        return false, e;
      }
      ghost var was := slots[..];
      RingPop(was, head, len, NO_EVENT);
      e := slots[head];
      slots[head] := NO_EVENT;
      assert slots[..] == was[head := NO_EVENT];
      head := (head + 1) % slots.Length;
      len := len - 1;
      found := true;
    }
  }
}
