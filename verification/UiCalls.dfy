/** connectChat's requests as one value: what is pending, queued, timed, sent and
    settled, what ties these together, and the elementary changes. */
module UiCalls {
  import opened Options
  import opened OrderedMap
  import opened UiIds

  /** A request as it goes to the socket. */
  datatype Payload = Payload(id: nat, op: string, fields: string, size: nat)

  /** An entry of the pending map; call says which promise resolve and reject belong to. */
  datatype Item = Item(call: nat, op: string, timer: nat, payload: Option<Payload>, sent: bool)

  datatype Reason = SocketClosed | SocketFailed | HandshakeRejected | ConnectTimeout | RequestTimeout
                  | Backpressure | SendThrew | TooManyPending | TooLarge | NotSerializable

  /** How a promise ended: by the server's answer to an id, or by a local error. */
  datatype Outcome = Resolved(id: nat) | ServerError(id: nat) | Rejected(reason: Reason)

  datatype Settlement = Settlement(call: nat, outcome: Outcome)

  /** What a call was admitted with, by call number. */
  datatype Ticket = Ticket(payload: Payload, timer: nat)

  datatype Sent = Sent(call: nat, payload: Payload)

  datatype Book = Book(
    pending: Entries<nat, Item>, queuedBytes: int, timers: map<nat, nat>, nextTimer: nat,
    buffered: nat, log: seq<Sent>, admitted: seq<Ticket>, settled: seq<Settlement>)

  function Held(item: Item): nat {
    if item.payload.Some? then item.payload.value.size else 0
  }

  function Queued(m: Entries<nat, Item>): nat {
    if m == [] then 0 else Held(m[0].1) + Queued(m[1..])
  }

  // ---- the invariants ----

  ghost predicate Bounded(b: Book, maxPending: nat) {
    && DistinctKeys(b.pending) && |b.pending| <= maxPending
    && forall i :: 0 <= i < |b.pending| ==> 1 <= b.pending[i].0 <= MAX_ID
  }

  /** queuedBytes is the size of the unsent requests, and fits with what the socket
      has buffered. */
  ghost predicate Budgeted(b: Book, maxBytes: nat) {
    && b.queuedBytes == Queued(b.pending) && b.queuedBytes + b.buffered <= maxBytes
    && forall i :: 0 <= i < |b.pending| ==> b.pending[i].1.sent == b.pending[i].1.payload.None?
  }

  ghost predicate TimerOf(m: Entries<nat, Item>, handle: nat, id: nat) {
    exists i :: 0 <= i < |m| && m[i].0 == id && m[i].1.timer == handle
  }

  /** Live timers and pending requests correspond one to one; no handle is used twice. */
  ghost predicate Timed(b: Book) {
    && (forall i :: 0 <= i < |b.pending| ==>
          b.pending[i].1.timer in b.timers && b.timers[b.pending[i].1.timer] == b.pending[i].0)
    && (forall h :: h in b.timers ==> h < b.nextTimer && TimerOf(b.pending, h, b.timers[h]))
    && (forall c :: 0 <= c < |b.admitted| ==> b.admitted[c].timer < b.nextTimer)
    && (forall c, d :: 0 <= c < d < |b.admitted| ==> b.admitted[c].timer < b.admitted[d].timer)
  }

  ghost predicate IsPending(m: Entries<nat, Item>, call: nat) {
    exists i :: 0 <= i < |m| && m[i].1.call == call
  }

  ghost predicate IsSettled(s: seq<Settlement>, call: nat) {
    exists i :: 0 <= i < |s| && s[i].call == call
  }

  /** A pending entry is that of an admitted call. */
  ghost predicate Genuine(id: nat, item: Item, admitted: seq<Ticket>) {
    && item.call < |admitted|
    && var t := admitted[item.call];
       && t.payload.id == id && t.payload.op == item.op && t.timer == item.timer
       && (item.payload.Some? ==> item.payload.value == t.payload)
  }

  /** An answer settles the call whose id it carries; the check for room on the socket
      never rejects an admitted call. */
  ghost predicate Proper(s: Settlement, admitted: seq<Ticket>) {
    && s.call < |admitted|
    && match s.outcome
       case Rejected(reason) => reason != Backpressure
       case Resolved(id) => id == admitted[s.call].payload.id
       case ServerError(id) => id == admitted[s.call].payload.id
  }

  /** Every admitted call is pending or has been settled once, never both; pending calls
      stand in the order of admission. */
  ghost predicate Tracked(b: Book) {
    && (forall i :: 0 <= i < |b.pending| ==> Genuine(b.pending[i].0, b.pending[i].1, b.admitted))
    && (forall i, j :: 0 <= i < j < |b.pending| ==> b.pending[i].1.call < b.pending[j].1.call)
    && (forall i :: 0 <= i < |b.settled| ==> Proper(b.settled[i], b.admitted))
    && (forall i, j :: 0 <= i < j < |b.settled| ==> b.settled[i].call != b.settled[j].call)
    && (forall c: nat :: c < |b.admitted| ==> (IsPending(b.pending, c) <==> !IsSettled(b.settled, c)))
    && |b.admitted| == |b.pending| + |b.settled|
  }

  ghost predicate InLog(log: seq<Sent>, call: nat) {
    exists i :: 0 <= i < |log| && log[i].call == call
  }

  /** Requests reach the socket unchanged, in the order of admission, each at most once,
      and none that waits is older than one that has been sent. */
  ghost predicate Sequenced(b: Book) {
    && (forall i :: 0 <= i < |b.log| ==>
          b.log[i].call < |b.admitted| && b.log[i].payload == b.admitted[b.log[i].call].payload)
    && (forall i, j :: 0 <= i < j < |b.log| ==> b.log[i].call < b.log[j].call)
    && (forall i, j :: 0 <= i < |b.log| && 0 <= j < |b.pending| && !b.pending[j].1.sent ==>
          b.log[i].call < b.pending[j].1.call)
    && (forall j :: 0 <= j < |b.pending| && b.pending[j].1.sent ==> InLog(b.log, b.pending[j].1.call))
  }

  datatype Law = Bounds | Budget | Timers | Settling | Sending

  ghost predicate Obeys(law: Law, b: Book, maxPending: nat, maxBytes: nat) {
    match law
    case Bounds => Bounded(b, maxPending)
    case Budget => Budgeted(b, maxBytes)
    case Timers => Timed(b)
    case Settling => Tracked(b)
    case Sending => Sequenced(b)
  }

  /** The five laws together; lemma Laws lists them. */
  ghost predicate Sound(b: Book, maxPending: nat, maxBytes: nat) {
    forall law :: Obeys(law, b, maxPending, maxBytes)
  }

  lemma Laws(b: Book, maxPending: nat, maxBytes: nat)
    ensures Sound(b, maxPending, maxBytes) <==>
              Bounded(b, maxPending) && Budgeted(b, maxBytes) && Timed(b) && Tracked(b) && Sequenced(b)
  {
    if Sound(b, maxPending, maxBytes) {
      assert Obeys(Bounds, b, maxPending, maxBytes) && Obeys(Budget, b, maxPending, maxBytes);
      assert Obeys(Timers, b, maxPending, maxBytes) && Obeys(Settling, b, maxPending, maxBytes);
      assert Obeys(Sending, b, maxPending, maxBytes);
    }
  }

  ghost predicate AllSent(m: Entries<nat, Item>) {
    forall i :: 0 <= i < |m| ==> m[i].1.sent
  }

  // ---- the elementary changes ----

  function Cut<T>(s: seq<T>, i: nat): seq<T>
    requires i < |s|
  {
    s[..i] + s[i + 1..]
  }

  /** settle: the entry at i leaves with its timer and what it held of the queue. */
  function Settled(b: Book, i: nat, outcome: Outcome): Book
    requires i < |b.pending|
  {
    var item := b.pending[i].1;
    b.(pending := Cut(b.pending, i), queuedBytes := b.queuedBytes - Held(item),
       timers := b.timers - {item.timer}, settled := b.settled + [Settlement(item.call, outcome)])
  }

  /** sendPending, when the socket takes the request. */
  function Delivered(b: Book, i: nat): Book
    requires i < |b.pending| && b.pending[i].1.payload.Some?
  {
    var (id, item) := b.pending[i];
    b.(pending := b.pending[i := (id, item.(payload := None, sent := true))],
       queuedBytes := b.queuedBytes - Held(item), buffered := b.buffered + Held(item),
       log := b.log + [Sent(item.call, item.payload.value)])
  }

  /** call, once every check has passed. */
  function Admitted(b: Book, payload: Payload): Book {
    b.(pending := b.pending + [(payload.id, Item(|b.admitted|, payload.op, b.nextTimer, Some(payload), false))],
       queuedBytes := b.queuedBytes + payload.size,
       timers := b.timers[b.nextTimer := payload.id], nextTimer := b.nextTimer + 1,
       admitted := b.admitted + [Ticket(payload, b.nextTimer)])
  }

  // ---- sums ----

  lemma {:induction false} QueuedConcat(a: Entries<nat, Item>, b: Entries<nat, Item>)
    ensures Queued(a + b) == Queued(a) + Queued(b)
    decreases |a|
  {
    if a == [] {
      assert a + b == b;
    } else {
      assert (a + b)[1..] == a[1..] + b;
      QueuedConcat(a[1..], b);
    }
  }

  lemma QueuedAt(m: Entries<nat, Item>, i: nat, item: Item)
    requires i < |m|
    ensures Queued(Cut(m, i)) == Queued(m) - Held(m[i].1)
    ensures Queued(m[i := (m[i].0, item)]) == Queued(m) - Held(m[i].1) + Held(item)
  {
    var a, b := m[..i], m[i + 1..];
    assert m == a + ([m[i]] + b) && m[i := (m[i].0, item)] == a + ([(m[i].0, item)] + b);
    QueuedConcat(a, b);
    QueuedConcat(a, [m[i]] + b);
    QueuedConcat(a, [(m[i].0, item)] + b);
  }

  /** An unsent request always fits beside what the socket has buffered. */
  lemma {:induction false} RoomToSend(b: Book, maxBytes: nat, i: nat)
    requires Budgeted(b, maxBytes) && i < |b.pending|
    ensures b.buffered + Held(b.pending[i].1) <= maxBytes
  {
    QueuedAt(b.pending, i, b.pending[i].1);
  }

  // ---- each change keeps each invariant ----

  lemma CutBounded(b: Book, maxPending: nat, i: nat, outcome: Outcome)
    requires Bounded(b, maxPending) && i < |b.pending|
    ensures Bounded(Settled(b, i, outcome), maxPending)
  {
  }

  lemma CutBudgeted(b: Book, maxBytes: nat, i: nat, outcome: Outcome)
    requires Budgeted(b, maxBytes) && i < |b.pending|
    ensures Budgeted(Settled(b, i, outcome), maxBytes)
  {
    QueuedAt(b.pending, i, b.pending[i].1);
  }

  lemma CutTimed(b: Book, maxPending: nat, i: nat, outcome: Outcome)
    requires Bounded(b, maxPending) && Timed(b) && i < |b.pending|
    ensures Timed(Settled(b, i, outcome))
  {
    var left, after, m := Cut(b.pending, i), Settled(b, i, outcome), b.pending;
    forall j | 0 <= j < |left| ensures left[j].1.timer in after.timers && after.timers[left[j].1.timer] == left[j].0 {
      CutAt(m, i, j);
      assert b.timers[m[i].1.timer] == m[i].0;
    }
    forall h | h in after.timers ensures TimerOf(left, h, after.timers[h]) {
      CutTimer(m, i, h, b.timers[h]);
    }
  }

  lemma CutAt<T>(s: seq<T>, i: nat, j: nat)
    requires i < |s| && j < |s| - 1
    ensures Cut(s, i)[j] == s[if j < i then j else j + 1]
  {
  }

  lemma CutTimer(m: Entries<nat, Item>, i: nat, handle: nat, id: nat)
    requires i < |m| && TimerOf(m, handle, id) && m[i].1.timer != handle
    ensures TimerOf(Cut(m, i), handle, id)
  {
    var j :| 0 <= j < |m| && m[j].0 == id && m[j].1.timer == handle;
    assert Cut(m, i)[if j < i then j else j - 1] == m[j];
  }

  lemma CutTracked(b: Book, i: nat, outcome: Outcome)
    requires Tracked(b) && i < |b.pending|
    requires Proper(Settlement(b.pending[i].1.call, outcome), b.admitted)
    ensures Tracked(Settled(b, i, outcome))
  {
    var left, after, call := Cut(b.pending, i), Settled(b, i, outcome), b.pending[i].1.call;
    assert forall j :: 0 <= j < |left| ==> left[j] == b.pending[if j < i then j else j + 1];
    assert IsPending(b.pending, call) && !IsSettled(b.settled, call);
    forall c: nat | c < |b.admitted| ensures IsPending(left, c) <==> !IsSettled(after.settled, c) {
      SettledMore(b.settled, Settlement(call, outcome), c);
      CutPending(b.pending, i, c);
    }
  }

  lemma CutPending(m: Entries<nat, Item>, i: nat, c: nat)
    requires i < |m| && forall a, b :: 0 <= a < b < |m| ==> m[a].1.call < m[b].1.call
    ensures IsPending(Cut(m, i), c) <==> IsPending(m, c) && c != m[i].1.call
  {
    var left := Cut(m, i);
    assert forall j :: 0 <= j < |left| ==> left[j] == m[if j < i then j else j + 1];
    if j :| 0 <= j < |m| && m[j].1.call == c && j != i {
      assert left[if j < i then j else j - 1].1.call == c;
    }
  }

  lemma SettledMore(s: seq<Settlement>, t: Settlement, c: nat)
    ensures IsSettled(s + [t], c) <==> IsSettled(s, c) || c == t.call
  {
    var more := s + [t];
    assert more[|s|] == t;
    if i :| 0 <= i < |s| && s[i].call == c {
      assert more[i].call == c;
    }
  }

  lemma CutSequenced(b: Book, i: nat, outcome: Outcome)
    requires Sequenced(b) && i < |b.pending|
    ensures Sequenced(Settled(b, i, outcome))
  {
    var left := Cut(b.pending, i);
    assert forall j :: 0 <= j < |left| ==> left[j] == b.pending[if j < i then j else j + 1];
  }

  /** Settling one pending call keeps everything. */
  lemma SettledSound(b: Book, maxPending: nat, maxBytes: nat, i: nat, outcome: Outcome)
    requires Sound(b, maxPending, maxBytes) && i < |b.pending|
    requires Proper(Settlement(b.pending[i].1.call, outcome), b.admitted)
    ensures Sound(Settled(b, i, outcome), maxPending, maxBytes)
  {
    Laws(b, maxPending, maxBytes);
    CutBounded(b, maxPending, i, outcome);
    CutBudgeted(b, maxBytes, i, outcome);
    CutTimed(b, maxPending, i, outcome);
    CutTracked(b, i, outcome);
    CutSequenced(b, i, outcome);
    Laws(Settled(b, i, outcome), maxPending, maxBytes);
  }

  lemma DeliveredTimed(b: Book, i: nat)
    requires Timed(b) && i < |b.pending| && b.pending[i].1.payload.Some?
    ensures Timed(Delivered(b, i))
  {
    var after := Delivered(b, i).pending;
    forall h | h in b.timers ensures TimerOf(after, h, b.timers[h]) {
      assert TimerOf(b.pending, h, b.timers[h]);
      var j :| 0 <= j < |b.pending| && b.pending[j].0 == b.timers[h] && b.pending[j].1.timer == h;
      assert after[j].0 == b.timers[h] && after[j].1.timer == h;
    }
  }

  lemma DeliveredTracked(b: Book, i: nat)
    requires Tracked(b) && i < |b.pending| && b.pending[i].1.payload.Some?
    ensures Tracked(Delivered(b, i))
  {
    var after := Delivered(b, i).pending;
    assert forall j :: 0 <= j < |after| ==> after[j].1.call == b.pending[j].1.call;
    forall c: nat | c < |b.admitted| ensures IsPending(after, c) <==> IsPending(b.pending, c) {
      if j :| 0 <= j < |b.pending| && b.pending[j].1.call == c {
        assert after[j].1.call == c;
      }
    }
  }

  /** The oldest unsent request is the next one to go. */
  lemma DeliveredSequenced(b: Book, i: nat)
    requires Sequenced(b) && Tracked(b) && i < |b.pending| && b.pending[i].1.payload.Some? && !b.pending[i].1.sent
    requires AllSent(b.pending[..i])
    ensures Sequenced(Delivered(b, i))
  {
    var after, item := Delivered(b, i), b.pending[i].1;
    assert Genuine(b.pending[i].0, item, b.admitted);
    assert after.log[|b.log|].call == item.call;
    forall j | 0 <= j < |b.pending| && b.pending[j].1.sent ensures InLog(after.log, b.pending[j].1.call) {
      var k :| 0 <= k < |b.log| && b.log[k].call == b.pending[j].1.call;
      assert after.log[k].call == b.pending[j].1.call;
    }
    assert forall j :: 0 <= j < i ==> b.pending[j] == b.pending[..i][j];
  }

  lemma DeliveredFits(b: Book, maxPending: nat, maxBytes: nat, i: nat)
    requires Bounded(b, maxPending) && Budgeted(b, maxBytes) && i < |b.pending| && !b.pending[i].1.sent
    ensures Bounded(Delivered(b, i), maxPending) && Budgeted(Delivered(b, i), maxBytes)
  {
    QueuedAt(b.pending, i, b.pending[i].1.(payload := None, sent := true));
  }

  lemma DeliveredSound(b: Book, maxPending: nat, maxBytes: nat, i: nat)
    requires Sound(b, maxPending, maxBytes) && i < |b.pending| && !b.pending[i].1.sent
    requires b.pending[i].1.payload.Some? && AllSent(b.pending[..i])
    ensures Sound(Delivered(b, i), maxPending, maxBytes)
  {
    Laws(b, maxPending, maxBytes);
    DeliveredFits(b, maxPending, maxBytes, i);
    DeliveredTimed(b, i);
    DeliveredTracked(b, i);
    DeliveredSequenced(b, i);
    Laws(Delivered(b, i), maxPending, maxBytes);
  }

  lemma AdmittedTimed(b: Book, payload: Payload)
    requires Timed(b)
    ensures Timed(Admitted(b, payload))
  {
    var after := Admitted(b, payload);
    assert after.pending[|b.pending|].0 == payload.id;
    forall h | h in after.timers ensures TimerOf(after.pending, h, after.timers[h]) {
      if h != b.nextTimer {
        assert TimerOf(b.pending, h, b.timers[h]);
        var j :| 0 <= j < |b.pending| && b.pending[j].0 == b.timers[h] && b.pending[j].1.timer == h;
        assert after.pending[j] == b.pending[j];
      }
    }
  }

  lemma AdmittedTracked(b: Book, payload: Payload)
    requires Tracked(b)
    ensures Tracked(Admitted(b, payload))
  {
    var after := Admitted(b, payload);
    assert forall j :: 0 <= j < |b.pending| ==> after.pending[j] == b.pending[j];
    assert forall j :: 0 <= j < |b.pending| ==> Genuine(b.pending[j].0, b.pending[j].1, b.admitted);
    assert after.pending[|b.pending|].1.call == |b.admitted|;
    forall c: nat | c < |after.admitted| ensures IsPending(after.pending, c) <==> !IsSettled(b.settled, c) {
      if c < |b.admitted| {
        if j :| 0 <= j < |b.pending| && b.pending[j].1.call == c {
          assert after.pending[j].1.call == c;
        }
      }
    }
  }

  lemma AdmittedSequenced(b: Book, payload: Payload)
    requires Sequenced(b)
    ensures Sequenced(Admitted(b, payload))
  {
    var after := Admitted(b, payload);
    assert forall j :: 0 <= j < |b.pending| ==> after.pending[j] == b.pending[j];
  }

  lemma AdmittedFits(b: Book, maxPending: nat, maxBytes: nat, payload: Payload)
    requires Bounded(b, maxPending) && Budgeted(b, maxBytes) && |b.pending| < maxPending
    requires !Has(b.pending, payload.id) && 1 <= payload.id <= MAX_ID
    requires b.queuedBytes + b.buffered + payload.size <= maxBytes
    ensures Bounded(Admitted(b, payload), maxPending) && Budgeted(Admitted(b, payload), maxBytes)
  {
    QueuedConcat(b.pending, [Admitted(b, payload).pending[|b.pending|]]);
  }

  lemma AdmittedSound(b: Book, maxPending: nat, maxBytes: nat, payload: Payload)
    requires Sound(b, maxPending, maxBytes) && |b.pending| < maxPending
    requires !Has(b.pending, payload.id) && 1 <= payload.id <= MAX_ID
    requires b.queuedBytes + b.buffered + payload.size <= maxBytes
    ensures Sound(Admitted(b, payload), maxPending, maxBytes)
  {
    Laws(b, maxPending, maxBytes);
    AdmittedFits(b, maxPending, maxBytes, payload);
    AdmittedTimed(b, payload);
    AdmittedTracked(b, payload);
    AdmittedSequenced(b, payload);
    Laws(Admitted(b, payload), maxPending, maxBytes);
  }

  lemma SoundKeys(b: Book, maxPending: nat, maxBytes: nat)
    requires Sound(b, maxPending, maxBytes)
    ensures DistinctKeys(b.pending) && |b.pending| <= maxPending && b.queuedBytes >= 0
  {
    Laws(b, maxPending, maxBytes);
  }

  lemma EmptySound(b: Book, maxPending: nat, maxBytes: nat)
    requires b.pending == [] && b.queuedBytes == 0 && b.timers == map[] && b.buffered == 0
    requires b.log == [] && b.admitted == [] && b.settled == []
    ensures Sound(b, maxPending, maxBytes)
  {
    Laws(b, maxPending, maxBytes);
  }

  /** The network only makes room. */
  lemma DrainedSound(b: Book, maxPending: nat, maxBytes: nat, drained: nat)
    requires Sound(b, maxPending, maxBytes) && drained <= b.buffered
    ensures Sound(b.(buffered := b.buffered - drained), maxPending, maxBytes)
  {
    Laws(b, maxPending, maxBytes);
    Laws(b.(buffered := b.buffered - drained), maxPending, maxBytes);
  }

  // ---- what the invariants mean ----

  /** The live timer of a handle belongs to the one call that was given that handle. */
  lemma TimerBelongs(b: Book, handle: nat) returns (i: nat)
    requires Timed(b) && Tracked(b) && DistinctKeys(b.pending) && handle in b.timers
    ensures i < |b.pending| && Find(b.pending, b.timers[handle]) == Some(i)
    ensures b.pending[i].1.call < |b.admitted| && b.admitted[b.pending[i].1.call].timer == handle
    ensures forall c :: 0 <= c < |b.admitted| && b.admitted[c].timer == handle ==> c == b.pending[i].1.call
    ensures b.pending[i].1.timer == handle
  {
    assert TimerOf(b.pending, handle, b.timers[handle]);
    i :| 0 <= i < |b.pending| && b.pending[i].0 == b.timers[handle] && b.pending[i].1.timer == handle;
    FindIs(b.pending, b.timers[handle], i);
    assert Genuine(b.pending[i].0, b.pending[i].1, b.admitted);
  }

  lemma SoundTimer(b: Book, maxPending: nat, maxBytes: nat, handle: nat) returns (i: nat)
    requires Sound(b, maxPending, maxBytes) && handle in b.timers
    ensures i < |b.pending| && Find(b.pending, b.timers[handle]) == Some(i)
    ensures b.pending[i].1.call < |b.admitted| && b.admitted[b.pending[i].1.call].timer == handle
    ensures b.pending[i].1.timer == handle
  {
    Laws(b, maxPending, maxBytes);
    i := TimerBelongs(b, handle);
  }

  function Times(calls: seq<nat>, call: nat): nat {
    if calls == [] then 0 else (if calls[0] == call then 1 else 0) + Times(calls[1..], call)
  }

  lemma {:induction false} TimesOnce(calls: seq<nat>, call: nat)
    requires forall i, j :: 0 <= i < j < |calls| ==> calls[i] != calls[j]
    ensures Times(calls, call) == if call in calls then 1 else 0
    decreases |calls|
  {
    if calls != [] {
      TimesOnce(calls[1..], call);
    }
  }

  ghost function PendingCalls(b: Book): seq<nat> {
    seq(|b.pending|, i requires 0 <= i < |b.pending| => b.pending[i].1.call)
  }

  ghost function SettledCalls(b: Book): seq<nat> {
    seq(|b.settled|, i requires 0 <= i < |b.settled| => b.settled[i].call)
  }

  /** Counted over both, an admitted call occurs once. */
  lemma ExactlyOnce(b: Book, call: nat)
    requires Tracked(b) && call < |b.admitted|
    ensures Times(PendingCalls(b), call) + Times(SettledCalls(b), call) == 1
  {
    TimesOnce(PendingCalls(b), call);
    TimesOnce(SettledCalls(b), call);
    assert IsPending(b.pending, call) <==> call in PendingCalls(b) by {
      if i :| 0 <= i < |b.pending| && b.pending[i].1.call == call {
        assert PendingCalls(b)[i] == call;
      }
    }
    assert IsSettled(b.settled, call) <==> call in SettledCalls(b) by {
      if i :| 0 <= i < |b.settled| && b.settled[i].call == call {
        assert SettledCalls(b)[i] == call;
      }
    }
  }

  lemma {:induction false} AllSentQueuesNothing(m: Entries<nat, Item>)
    requires AllSent(m) && forall i :: 0 <= i < |m| ==> m[i].1.sent == m[i].1.payload.None?
    ensures Queued(m) == 0
    decreases |m|
  {
    if m != [] {
      AllSentQueuesNothing(m[1..]);
    }
  }

  // ---- sending the entry at i, and what the handlers make of many entries ----

  /** sendPending: nothing when sent before; else rejected, or sent. */
  function Tried(b: Book, i: nat, shut: bool, threw: bool): Book
    requires i < |b.pending| && (b.pending[i].1.sent || b.pending[i].1.payload.Some?)
  {
    if b.pending[i].1.sent then b
    else if shut then Settled(b, i, Rejected(SocketClosed))
    else if threw then Settled(b, i, Rejected(SendThrew))
    else Delivered(b, i)
  }

  /** What an entry must be for settle and sendPending to do their sums. */
  ghost predicate Consistent(b: Book, id: nat, i: nat) {
    && DistinctKeys(b.pending) && Find(b.pending, id) == Some(i)
    && b.pending[i].1.sent == b.pending[i].1.payload.None?
  }

  lemma SoundIsConsistent(b: Book, maxPending: nat, maxBytes: nat, i: nat)
    requires Sound(b, maxPending, maxBytes) && i < |b.pending|
    ensures Consistent(b, b.pending[i].0, i)
    ensures b.buffered + Held(b.pending[i].1) <= maxBytes
    ensures b.pending[i].1.call < |b.admitted|
    ensures b.pending[i].0 == b.admitted[b.pending[i].1.call].payload.id
  {
    Laws(b, maxPending, maxBytes);
    FindIs(b.pending, b.pending[i].0, i);
    RoomToSend(b, maxBytes, i);
    assert Genuine(b.pending[i].0, b.pending[i].1, b.admitted);
  }

  lemma TriedSound(b: Book, maxPending: nat, maxBytes: nat, i: nat, shut: bool, threw: bool)
    requires Sound(b, maxPending, maxBytes) && i < |b.pending| && AllSent(b.pending[..i])
    requires Consistent(b, b.pending[i].0, i)
    ensures Sound(Tried(b, i, shut, threw), maxPending, maxBytes)
  {
    SoundIsConsistent(b, maxPending, maxBytes, i);
    if !b.pending[i].1.sent {
      if shut {
        SettledSound(b, maxPending, maxBytes, i, Rejected(SocketClosed));
      } else if threw {
        SettledSound(b, maxPending, maxBytes, i, Rejected(SendThrew));
      } else {
        DeliveredSound(b, maxPending, maxBytes, i);
      }
    }
  }

  ghost function Rejections(m: Entries<nat, Item>, reason: Reason): seq<Settlement> {
    seq(|m|, i requires 0 <= i < |m| => Settlement(m[i].1.call, Rejected(reason)))
  }

  /** The first k pending calls have been rejected. */
  ghost predicate Emptied(a: Book, k: nat, reason: Reason, b: Book) {
    && k <= |a.pending|
    && b.pending == a.pending[k..] && b.settled == a.settled + Rejections(a.pending[..k], reason)
  }

  lemma EmptiedNext(a: Book, k: nat, reason: Reason, b: Book)
    requires Emptied(a, k, reason, b) && k < |a.pending|
    ensures b.pending != [] && b.pending[0] == a.pending[k]
    ensures Emptied(a, k + 1, reason, Settled(b, 0, Rejected(reason)))
  {
    assert Rejections(a.pending[..k + 1], reason)
        == Rejections(a.pending[..k], reason) + [Settlement(a.pending[k].1.call, Rejected(reason))];
  }

  lemma EmptiedStep(a: Book, k: nat, reason: Reason, b: Book, maxPending: nat, maxBytes: nat)
    requires Sound(b, maxPending, maxBytes) && Emptied(a, k, reason, b) && k < |a.pending| && reason != Backpressure
    ensures b.pending != [] && Consistent(b, a.pending[k].0, 0)
    ensures Emptied(a, k + 1, reason, Settled(b, 0, Rejected(reason)))
    ensures Sound(Settled(b, 0, Rejected(reason)), maxPending, maxBytes)
  {
    EmptiedNext(a, k, reason, b);
    SoundIsConsistent(b, maxPending, maxBytes, 0);
    SettledSound(b, maxPending, maxBytes, 0, Rejected(reason));
  }

  /** What goes out when all of some unsent requests do. */
  ghost function Outgoing(m: Entries<nat, Item>): seq<Sent>
    requires AllWaiting(m)
  {
    seq(|m|, i requires 0 <= i < |m| => Sent(m[i].1.call, m[i].1.payload.value))
  }

  ghost predicate AllWaiting(m: Entries<nat, Item>) {
    forall i :: 0 <= i < |m| ==> !m[i].1.sent && m[i].1.payload.Some?
  }

  /** Before anything is sent every pending request waits. */
  lemma NothingSent(b: Book, maxPending: nat, maxBytes: nat)
    requires Sound(b, maxPending, maxBytes) && b.log == []
    ensures AllWaiting(b.pending)
  {
    Laws(b, maxPending, maxBytes);
    forall i | 0 <= i < |b.pending| ensures !b.pending[i].1.sent {
      assert b.pending[i].1.sent ==> InLog(b.log, b.pending[i].1.call);
    }
  }

  ghost predicate SameIds(m: Entries<nat, Item>, n: Entries<nat, Item>) {
    |m| == |n| && forall i :: 0 <= i < |m| ==> m[i].0 == n[i].0
  }

  /** The first k of the requests waiting in a have been tried; the first n entries of b
      are those of them still pending. */
  ghost predicate Flushed(a: Book, k: nat, n: nat, shut: bool, clean: bool, b: Book)
    requires AllWaiting(a.pending)
  {
    && k <= |a.pending| && n <= |b.pending|
    && b.pending[n..] == a.pending[k..] && AllSent(b.pending[..n]) && b.admitted == a.admitted
    && a.settled <= b.settled
    && (!shut && clean ==> b.settled == a.settled && b.log == Outgoing(a.pending[..k])
                           && SameIds(b.pending[..n], a.pending[..k]))
    && (shut ==> n == 0 && b.settled == a.settled + Rejections(a.pending[..k], SocketClosed) && b.log == [])
  }

  lemma FlushedAt(a: Book, k: nat, n: nat, shut: bool, clean: bool, b: Book)
    requires AllWaiting(a.pending) && Flushed(a, k, n, shut, clean, b) && k < |a.pending|
    ensures n < |b.pending| && b.pending[n] == a.pending[k] && AllSent(b.pending[..n])
    ensures !b.pending[n].1.sent && b.pending[n].1.payload.Some?
  {
    assert b.pending[n..][0] == a.pending[k..][0];
  }

  lemma FlushedRejected(a: Book, k: nat, n: nat, shut: bool, clean: bool, b: Book, reason: Reason)
    requires AllWaiting(a.pending) && Flushed(a, k, n, shut, clean, b) && k < |a.pending|
    requires n < |b.pending| && b.pending[n] == a.pending[k] && (shut ==> reason == SocketClosed)
    ensures Flushed(a, k + 1, n, shut, false, Settled(b, n, Rejected(reason)))
    ensures shut ==> Flushed(a, k + 1, n, shut, clean, Settled(b, n, Rejected(reason)))
  {
    var after := Settled(b, n, Rejected(reason));
    assert b.pending[n..][1..] == a.pending[k..][1..];
    assert after.pending[n..] == a.pending[k + 1..] && after.pending[..n] == b.pending[..n];
    assert Rejections(a.pending[..k + 1], SocketClosed)
        == Rejections(a.pending[..k], SocketClosed) + [Settlement(a.pending[k].1.call, Rejected(SocketClosed))];
  }

  lemma FlushedDelivered(a: Book, k: nat, n: nat, clean: bool, b: Book)
    requires AllWaiting(a.pending) && Flushed(a, k, n, false, clean, b) && k < |a.pending|
    requires n < |b.pending| && b.pending[n] == a.pending[k]
    ensures Flushed(a, k + 1, n + 1, false, clean, Delivered(b, n))
  {
    var after := Delivered(b, n);
    assert b.pending[n..][1..] == a.pending[k..][1..];
    assert after.pending[n + 1..] == a.pending[k + 1..];
    assert after.pending[..n + 1] == b.pending[..n] + [after.pending[n]];
    assert a.pending[..k + 1] == a.pending[..k] + [a.pending[k]];
    assert Outgoing(a.pending[..k + 1])
        == Outgoing(a.pending[..k]) + [Sent(a.pending[k].1.call, a.pending[k].1.payload.value)];
  }

  lemma FlushedNext(a: Book, k: nat, n: nat, shut: bool, clean: bool, b: Book, maxPending: nat, maxBytes: nat)
    requires Sound(b, maxPending, maxBytes)
    requires AllWaiting(a.pending) && Flushed(a, k, n, shut, clean, b) && k < |a.pending|
    ensures n < |b.pending| && Consistent(b, a.pending[k].0, n) && b.buffered + Held(b.pending[n].1) <= maxBytes
  {
    FlushedAt(a, k, n, shut, clean, b);
    SoundIsConsistent(b, maxPending, maxBytes, n);
  }

  lemma FlushedStep(a: Book, k: nat, n: nat, shut: bool, clean: bool, b: Book, threw: bool, maxPending: nat, maxBytes: nat)
    requires Sound(b, maxPending, maxBytes)
    requires AllWaiting(a.pending) && Flushed(a, k, n, shut, clean, b) && k < |a.pending|
    requires n < |b.pending| && Consistent(b, a.pending[k].0, n)
    ensures Sound(Tried(b, n, shut, threw), maxPending, maxBytes)
    ensures Flushed(a, k + 1, if shut || threw then n else n + 1, shut, clean && !threw, Tried(b, n, shut, threw))
  {
    FlushedAt(a, k, n, shut, clean, b);
    TriedSound(b, maxPending, maxBytes, n, shut, threw);
    if shut || threw {
      FlushedRejected(a, k, n, shut, clean, b, if shut then SocketClosed else SendThrew);
    } else {
      FlushedDelivered(a, k, n, clean, b);
    }
  }

  // ---- what a reader wants of every state ----

  /** Counted over what is pending and what is settled every admitted call occurs once;
      requests have reached the socket as admitted, in order and at most once each;
      queued and buffered bytes fit together; live timers are the pending requests'. */
  ghost predicate InOrder(b: Book, maxPending: nat, maxBytes: nat) {
    && (forall c: nat :: c < |b.admitted| ==> Times(PendingCalls(b), c) + Times(SettledCalls(b), c) == 1)
    && (forall i, j :: 0 <= i < j < |b.log| ==> b.log[i].call < b.log[j].call)
    && (forall s :: s in b.log ==> s.call < |b.admitted| && s.payload == b.admitted[s.call].payload)
    && (forall s :: s in b.settled ==> s.outcome != Rejected(Backpressure))
    && b.queuedBytes == Queued(b.pending) && b.queuedBytes + b.buffered <= maxBytes
    && |b.pending| <= maxPending && |b.admitted| == |b.pending| + |b.settled|
    && |b.timers| == |b.pending|
  }

  lemma {:induction false} TimersCount(m: Entries<nat, Item>, timers: map<nat, nat>)
    requires DistinctKeys(m)
    requires forall i :: 0 <= i < |m| ==> m[i].1.timer in timers && timers[m[i].1.timer] == m[i].0
    requires forall h :: h in timers ==> TimerOf(m, h, timers[h])
    ensures |timers| == |m|
    decreases |m|
  {
    hide TimerOf;
    if m == [] {
      assert timers == map[] by { NoTimers(timers); }
    } else {
      var last, left := m[|m| - 1], m[..|m| - 1];
      var fewer := timers - {last.1.timer};
      forall h | h in fewer ensures TimerOf(left, h, fewer[h]) {
        TimerLeft(m, h, timers[h]);
      }
      forall i | 0 <= i < |left| ensures left[i].1.timer in fewer && fewer[left[i].1.timer] == left[i].0 {
        assert left[i] == m[i];
      }
      TimersCount(left, fewer);
      assert timers == fewer[last.1.timer := last.0];
    }
  }

  lemma NoTimers(timers: map<nat, nat>)
    requires forall h :: h in timers ==> TimerOf([], h, timers[h])
    ensures timers == map[]
  {
    assert timers.Keys == {};
  }

  /** A timer that is not the last entry's is of an earlier one. */
  lemma TimerLeft(m: Entries<nat, Item>, h: nat, id: nat)
    requires TimerOf(m, h, id) && m[|m| - 1].1.timer != h
    ensures TimerOf(m[..|m| - 1], h, id)
  {
    var i :| 0 <= i < |m| && m[i].0 == id && m[i].1.timer == h;
    assert m[..|m| - 1][i] == m[i];
  }

  lemma SoundIsInOrder(b: Book, maxPending: nat, maxBytes: nat)
    requires Sound(b, maxPending, maxBytes)
    ensures InOrder(b, maxPending, maxBytes)
  {
    Laws(b, maxPending, maxBytes);
    forall c: nat | c < |b.admitted| ensures Times(PendingCalls(b), c) + Times(SettledCalls(b), c) == 1 {
      ExactlyOnce(b, c);
    }
    assert forall i :: 0 <= i < |b.settled| ==> Proper(b.settled[i], b.admitted);
    TimersCount(b.pending, b.timers);
  }

  /** Once all is sent nothing is queued. */
  lemma ReadyQueuesNothing(b: Book, maxPending: nat, maxBytes: nat)
    requires Sound(b, maxPending, maxBytes) && AllSent(b.pending)
    ensures b.queuedBytes == 0
  {
    Laws(b, maxPending, maxBytes);
    AllSentQueuesNothing(b.pending);
  }
}
