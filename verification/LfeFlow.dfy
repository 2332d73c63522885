/** Coalescing followed by lanes (wiregrid_flow), end to end. */
module LfeFlow {
  import opened Options
  import opened Sequences
  import opened LfeAcks
  import opened LfeCoalesce
  import opened LfePartition
  import opened LfeLanes

  /** Everything a caller supplies to consume-coalesced-lanes, and the ways in
      which the runtime is free. */
  datatype Flow = Flow(
    batch: seq<Envelope>, coalesceKey: KeyFun, laneKey: KeyFun, work: Work, laneCount: int, timeoutMs: int,
    hash: Hash, order: Order, limit: nat)

  /** The first stage. */
  ghost function Coalesce(f: Flow, rt: Runtime): (Runtime, Result<Coalesced>)
    requires Orders(f.order)
  {
    Latest(rt, f.batch, f.coalesceKey, f.order, f.limit)
  }

  /** wiregrid_lane:validate, as far as values can be wrong. */
  function ValidateLanes(f: Flow, selected: seq<Envelope>): Result<()> {
    if BoundedList(selected, f.limit).Error? then Error(BatchTooLarge)
    else if !(0 < f.laneCount <= 64) then Error(InvalidLaneCount)
    else if !(0 < f.timeoutMs <= 60000) then Error(InvalidLaneTimeout)
    else Ok(())
  }

  /** Both stages up to the point where the lanes run, or the refusal. */
  ghost function Begin(f: Flow, rt: Runtime): (Runtime, Result<seq<Envelope>>)
    requires Orders(f.order)
  {
    var (after, r) := Coalesce(f, rt);
    match r
    case Error(e) => (after, Error(e))
    case Ok(c) =>
      match ValidateLanes(f, c.envelopes)
      case Error(e) => (after, Error(e))
      case Ok(_) => (after, Ok(c.envelopes))
  }

  ghost predicate Started(f: Flow, rt: Runtime) {
    Orders(f.order) && Begin(f, rt).1.Ok?
  }

  /** The lanes of the second stage. */
  function LaneJob(f: Flow, selected: seq<Envelope>): Job
    requires Orders(f.order) && f.laneCount > 0
  {
    Job(Partition(selected, LaneOf(f.laneKey, f.hash, f.laneCount), f.order), f.work, f.order)
  }

  /** The world after any run of the second stage. */
  ghost function After(f: Flow, rt: Runtime, actions: seq<Action>): World
    requires Started(f, rt)
  {
    var (after, r) := Begin(f, rt);
    var job := LaneJob(f, r.value);
    Run(job, Start(job, after.reserved), actions)
  }

  /** An envelope of the batch with these ids has been decoded, and its handler has
      returned ok or {ok, _}. */
  ghost predicate HandlerSucceeded(f: Flow, done: seq<(nat, Envelope)>, p: Pair) {
    exists j :: 0 <= j < |done| && done[j].1 in f.batch && EnvelopeAck(done[j].1) == Ok(p)
                && f.work.decode(done[j].1).Some?
                && var answer := f.work.handler(f.work.decode(done[j].1).value, done[j].1);
                   answer.Done? || answer.DoneWith?
  }

  ghost predicate IsDone(done: seq<(nat, Envelope)>, e: Envelope) {
    exists j :: 0 <= j < |done| && done[j].1 == e
  }

  lemma {:induction false} OfLaneIsLogged(log: seq<(nat, Envelope)>, i: nat, e: Envelope)
    requires e in OfLane(log, i)
    ensures exists j :: 0 <= j < |log| && log[j] == (i, e)
    decreases |log|
  {
    var last := |log| - 1;
    if log[last] != (i, e) {
      OfLaneIsLogged(log[..last], i, e);
      var j :| 0 <= j < last && log[..last][j] == (i, e);
      assert log[j] == (i, e);
    }
  }

  lemma {:induction false} LoggedIsOfLane(log: seq<(nat, Envelope)>, j: nat)
    requires j < |log|
    ensures log[j].1 in OfLane(log, log[j].0)
    decreases |log|
  {
    var last := |log| - 1;
    if j < last {
      LoggedIsOfLane(log[..last], j);
    }
  }

  lemma {:induction false} SurvivorsAreInput(es: seq<Envelope>, keyfun: KeyFun)
    ensures forall e :: e in Strip(Survivors(es, keyfun, 0)) ==> e in es
  {
    SurvivorsAre(es, keyfun, 0);
    var s := Survivors(es, keyfun, 0);
    forall e | e in Strip(s) ensures e in es {
      var i :| 0 <= i < |s| && Strip(s)[i] == e;
      assert s[i] in s;
    }
  }

  /** What a lane has begun is a prefix of its envelopes; what has succeeded is of them. */
  lemma {:induction false} OfLaneInLane(job: Job, w: World, i: nat)
    requires |w.processes| == |job.lanes| && i < |job.lanes| && LaneOk(job, w, i)
    ensures OfLane(w.log, i) <= job.lanes[i].1
    ensures forall e :: e in OfLane(w.done, i) ==>
              e in OfLane(w.log, i) && e in job.lanes[i].1 && Succeeds(job.work, e)
  {
    var begun, done := OfLane(w.log, i), OfLane(w.done, i);
    LaneSoFar(job.work, job.lanes[i].1, w.processes[i], begun, done);
    assert forall e :: e in done ==> e in Handled(job.work, begun);
    assert forall e :: e in begun ==> e in job.lanes[i].1;
  }

  /** No delivery is acknowledged unhandled: whatever the interleaving, wherever
      lanes crash or are killed and however the runtime refuses, a reservation that
      is gone at any moment belongs to an ephemeral envelope superseded by a later one
      of its key, or to an envelope that has been decoded and whose handler has returned
      ok or {ok, _} by then. */
  lemma {:induction false} NothingReleasedUnhandled(f: Flow, rt: Runtime, actions: seq<Action>, p: Pair)
    requires Started(f, rt)
    ensures p in rt.reserved - After(f, rt, actions).reserved ==>
              || ReleasedAsSuperseded(f.batch, f.coalesceKey, p)
              || HandlerSucceeded(f, After(f, rt, actions).done, p)
  {
    LatestReleasesSuperseded(rt, f.batch, f.coalesceKey, f.order, f.limit);
    var (after, r) := Coalesce(f, rt);
    var selected := r.value.envelopes;
    var job := LaneJob(f, selected);
    RunIsGood(job, after.reserved, actions);
    var w := After(f, rt, actions);
    if p in after.reserved - w.reserved {
      var i, e := ReleasedWasHandled(job, after.reserved, w, p);
      OfLaneIsLogged(w.done, i, e);
      LaneIsOfBatch(f, rt, i, e);
    }
  }

  /** The lanes hold envelopes of the batch. */
  lemma {:induction false} LaneIsOfBatch(f: Flow, rt: Runtime, i: nat, e: Envelope)
    requires Started(f, rt)
    requires i < |LaneJob(f, Begin(f, rt).1.value).lanes| && e in LaneJob(f, Begin(f, rt).1.value).lanes[i].1
    ensures e in f.batch
  {
    LatestReleasesSuperseded(rt, f.batch, f.coalesceKey, f.order, f.limit);
    PartitionLane(Begin(f, rt).1.value, LaneOf(f.laneKey, f.hash, f.laneCount), f.order, i);
    SurvivorsAreInput(f.batch, f.coalesceKey);
  }

  /** What is never done: an envelope that cannot be decoded, or whose handler answers
      anything but ok and {ok, _}, or raises. */
  lemma {:induction false} NeverDone(f: Flow, rt: Runtime, actions: seq<Action>, e: Envelope)
    requires Started(f, rt)
    requires f.work.decode(e).None? || f.work.handler(f.work.decode(e).value, e).Other?
             || f.work.handler(f.work.decode(e).value, e).Raises?
    ensures !IsDone(After(f, rt, actions).done, e)
  {
    var job, w := LaneJob(f, Begin(f, rt).1.value), After(f, rt, actions);
    RunIsGood(job, Begin(f, rt).0.reserved, actions);
    if j: nat :| j < |w.done| && w.done[j].1 == e {
      LoggedIsOfLane(w.done, j);
      OfLaneInLane(job, w, w.done[j].0);
    }
  }

  /** In a batch without duplicate ids: when a delivery is no longer reserved its own
      handler has returned success, or it was superseded; a durable one never is. */
  lemma {:induction false} DurableMeansHandled(f: Flow, rt: Runtime, actions: seq<Action>, i: nat)
    requires Started(f, rt)
    requires DistinctPairs(f.batch) && i < |f.batch|
    requires EnvelopeAck(f.batch[i]).value in rt.reserved - After(f, rt, actions).reserved
    ensures var e := f.batch[i];
            || Superseded(f.batch, f.coalesceKey, i)
            || (IsDone(After(f, rt, actions).done, e)
                && f.work.decode(e).Some?
                && var answer := f.work.handler(f.work.decode(e).value, e); answer.Done? || answer.DoneWith?)
    ensures !f.batch[i].ephemeral ==> IsDone(After(f, rt, actions).done, f.batch[i])
  {
    var p := EnvelopeAck(f.batch[i]).value;
    NothingReleasedUnhandled(f, rt, actions, p);
    var done := After(f, rt, actions).done;
    if HandlerSucceeded(f, done, p) {
      var j :| 0 <= j < |done| && done[j].1 in f.batch && EnvelopeAck(done[j].1) == Ok(p)
               && Succeeds(f.work, done[j].1);
      SamePairSameEnvelope(f.batch, done[j].1, f.batch[i]);
    } else {
      assert ReleasedAsSuperseded(f.batch, f.coalesceKey, p);
    }
  }

  /** A flow is refused exactly when the batch is too long, an id is missing, the
      runtime refuses an acknowledgement, or the lane arguments are out of range; it then
      starts no lane and has released superseded envelopes at most. */
  lemma {:induction false} RefusedFlow(f: Flow, rt: Runtime, p: Pair)
    requires Orders(f.order)
    ensures Begin(f, rt).1.Error? && p in rt.reserved - Begin(f, rt).0.reserved ==>
              ReleasedAsSuperseded(f.batch, f.coalesceKey, p)
    ensures Begin(f, rt).1.Ok? ==>
              |f.batch| <= f.limit && HaveIds(f.batch) && 0 < f.laneCount <= 64 && 0 < f.timeoutMs <= 60000
    ensures Willing(rt) && |f.batch| <= f.limit && HaveIds(f.batch) ==>
              Coalesce(f, rt).1.Ok? &&
              Begin(f, rt).1 == if !(0 < f.laneCount <= 64) then Error(InvalidLaneCount)
                                else if !(0 < f.timeoutMs <= 60000) then Error(InvalidLaneTimeout)
                                else Ok(Coalesce(f, rt).1.value.envelopes)
  {
    LatestReleasesSuperseded(rt, f.batch, f.coalesceKey, f.order, f.limit);
    if Coalesce(f, rt).1.Ok? {
      BoundedExactly(Coalesce(f, rt).1.value.envelopes, f.limit);
    }
    if Willing(rt) {
      LatestSucceeds(rt, f.batch, f.coalesceKey, f.order, f.limit);
    }
  }

  // ---- conservation ----

  /** The lanes with what would be handled of each. */
  ghost function HandledLanes(work: Work, lanes: seq<(Term, seq<Envelope>)>): seq<(Term, seq<Envelope>)> {
    seq(|lanes|, i requires 0 <= i < |lanes| => (lanes[i].0, Handled(work, lanes[i].1)))
  }

  /** Of the lanes noted, those that sent their counters, by what their handlers did. */
  ghost function Credited(work: Work, lanes: seq<(Term, seq<Envelope>)>, notes: seq<Note>): nat
    requires |notes| <= |lanes|
  {
    if notes == [] then 0
    else
      var last := |notes| - 1;
      Credited(work, lanes, notes[..last]) + if notes[last].Got? then |Handled(work, lanes[last].1)| else 0
  }

  lemma {:induction false} NotesAreCredits(job: Job, w: World, n: nat)
    requires |w.processes| == |job.lanes| && n <= |w.notes| <= |job.lanes|
    requires forall i: nat :: i < |w.notes| ==> NoteOk(job, w, i) && LaneOk(job, w, i)
    ensures NotedHandled(w.notes[..n]) == Credited(job.work, job.lanes, w.notes[..n])
    decreases n
  {
    if n > 0 {
      NotesAreCredits(job, w, n - 1);
      assert w.notes[..n][..n - 1] == w.notes[..n - 1];
      assert NoteOk(job, w, n - 1) && LaneOk(job, w, n - 1);
      if w.notes[n - 1].Got? {
        CountersAddUp(job, w, n - 1);
      }
    }
  }

  lemma {:induction false} FullCredit(work: Work, lanes: seq<(Term, seq<Envelope>)>, notes: seq<Note>)
    requires |notes| <= |lanes| && forall i :: 0 <= i < |notes| ==> notes[i].Got?
    ensures Credited(work, lanes, notes) == GroupSizes(HandledLanes(work, lanes[..|notes|]))
    decreases |notes|
  {
    if notes != [] {
      var n := |notes| - 1;
      FullCredit(work, lanes, notes[..n]);
      SizesSnoc(HandledLanes(work, lanes[..n]), (lanes[n].0, Handled(work, lanes[n].1)));
      assert HandledLanes(work, lanes[..n + 1])
          == HandledLanes(work, lanes[..n]) + [(lanes[n].0, Handled(work, lanes[n].1))];
    }
  }

  lemma {:induction false} HandledOfPick(work: Work, es: seq<Envelope>, classOf: Envelope -> Term, k: Term)
    ensures Handled(work, Pick(es, classOf, k)) == Pick(Handled(work, es), classOf, k)
    decreases |es|
  {
    if es != [] {
      HandledOfPick(work, es[1..], classOf, k);
      var rest, more := Pick(es[1..], classOf, k), Handled(work, es[1..]);
      assert ([es[0]] + rest)[1..] == rest && ([es[0]] + more)[1..] == more && [] + more == more;
    }
  }

  /** Handling lane by lane handles what handling the whole selection would. */
  lemma {:induction false} LanesHandleAll(work: Work, es: seq<Envelope>, laneOf: Envelope -> Term, order: Order)
    requires Orders(order)
    ensures GroupSizes(HandledLanes(work, Partition(es, laneOf, order))) == |Handled(work, es)|
  {
    var keys, lanes := LaneKeys(es, laneOf, order), Partition(es, laneOf, order);
    KeysOnce(es, laneOf, order);
    forall e | e in Handled(work, es) ensures laneOf(e) in keys {
      var i := PartitionCovers(es, laneOf, order, e);
    }
    EveryItemPicked(keys, Handled(work, es), laneOf);
    forall i | 0 <= i < |keys| ensures |Handled(work, lanes[i].1)| == |Pick(Handled(work, es), laneOf, keys[i])| {
      PartitionLane(es, laneOf, order, i);
      HandledOfPick(work, es, laneOf, keys[i]);
    }
    SizesAreCounts(HandledLanes(work, lanes), keys, Handled(work, es), laneOf);
  }

  ghost predicate AllGot(notes: seq<Note>) {
    forall i :: 0 <= i < |notes| ==> notes[i].Got?
  }

  /** Conservation: once every lane has been awaited, every selected envelope has been
      counted as handled or failed, once, even if its lane died, timed out or could not
      acknowledge; nothing of the input is unaccounted for.  What counts as handled is
      exactly what the handlers did in the lanes that sent their counters, and all of
      it when every lane did. */
  lemma {:induction false} EveryEnvelopeCounted(f: Flow, rt: Runtime, actions: seq<Action>)
    requires Started(f, rt)
    ensures var (after, r) := Coalesce(f, rt);
            var selected, w := r.value.envelopes, After(f, rt, actions);
            var lanes := LaneJob(f, selected).lanes;
            && |selected| + r.value.coalesced == |f.batch|
            && w.handled + w.failed <= |selected|
            && |w.notes| <= |lanes| && w.handled == Credited(f.work, lanes, w.notes)
            && (|w.notes| == |lanes| ==> w.handled + w.failed == |selected|)
            && (|w.notes| == |lanes| && AllGot(w.notes) ==> w.handled == |Handled(f.work, selected)|)
  {
    LatestReleasesSuperseded(rt, f.batch, f.coalesceKey, f.order, f.limit);
    var (after, r) := Coalesce(f, rt);
    var selected := r.value.envelopes;
    var job, laneOf := LaneJob(f, selected), LaneOf(f.laneKey, f.hash, f.laneCount);
    RunIsGood(job, after.reserved, actions);
    PartitionSize(selected, laneOf, f.order);
    var w := After(f, rt, actions);
    SizesPrefix(job.lanes, |w.notes|);
    assert job.lanes[..|job.lanes|] == job.lanes && w.notes[..|w.notes|] == w.notes;
    NotesAreCredits(job, w, |w.notes|);
    if |w.notes| == |job.lanes| && AllGot(w.notes) {
      FullCredit(f.work, job.lanes, w.notes);
      LanesHandleAll(f.work, selected, laneOf, f.order);
    }
  }

  lemma {:induction false} SizesPrefix<U>(lanes: seq<(Term, seq<U>)>, n: nat)
    requires n <= |lanes|
    ensures GroupSizes(lanes[..n]) <= GroupSizes(lanes)
    decreases n
  {
    if n > 0 {
      SizesPrefix(lanes[1..], n - 1);
      assert lanes[..n][1..] == lanes[1..][..n - 1];
    }
  }

  // ---- order ----

  ghost function Envelopes(log: seq<(nat, Envelope)>): seq<Envelope> {
    if log == [] then [] else Envelopes(log[..|log| - 1]) + [log[|log| - 1].1]
  }

  lemma {:induction false} PickConcat(a: seq<Envelope>, b: seq<Envelope>, classOf: Envelope -> Term, k: Term)
    ensures Pick(a + b, classOf, k) == Pick(a, classOf, k) + Pick(b, classOf, k)
    decreases |a|
  {
    if a == [] {
      assert a + b == b;
    } else {
      assert (a + b)[1..] == a[1..] + b;
      PickConcat(a[1..], b, classOf, k);
    }
  }

  /** Of the log, the entries of a key are all entries of the key's one lane. */
  lemma {:induction false} KeyStaysInLane(log: seq<(nat, Envelope)>, i: nat, keyOf: Envelope -> Term, k: Term)
    requires forall j :: 0 <= j < |log| && keyOf(log[j].1) == k ==> log[j].0 == i
    ensures Pick(Envelopes(log), keyOf, k) == Pick(OfLane(log, i), keyOf, k)
    decreases |log|
  {
    if log != [] {
      var init, last := log[..|log| - 1], log[|log| - 1];
      forall j | 0 <= j < |init| && keyOf(init[j].1) == k ensures init[j].0 == i {
        assert init[j] == log[j];
      }
      KeyStaysInLane(init, i, keyOf, k);
      PickConcat(Envelopes(init), [last.1], keyOf, k);
      if last.0 == i {
        PickConcat(OfLane(init, i), [last.1], keyOf, k);
      } else {
        assert OfLane(log, i) == OfLane(init, i);
        assert Pick([last.1], keyOf, k) == [];
      }
    }
  }

  /** Picking a class out of a coarser class is picking it out of everything. */
  lemma {:induction false} PickFiner(es: seq<Envelope>, coarse: Envelope -> Term, fine: Envelope -> Term, lane: Term, k: Term)
    requires forall e :: e in es && fine(e) == k ==> coarse(e) == lane
    ensures Pick(Pick(es, coarse, lane), fine, k) == Pick(es, fine, k)
    decreases |es|
  {
    if es != [] {
      assert es == [es[0]] + es[1..];
      PickFiner(es[1..], coarse, fine, lane, k);
      if coarse(es[0]) == lane {
        var rest := Pick(es[1..], coarse, lane);
        assert ([es[0]] + rest)[1..] == rest;
      }
    }
  }

  lemma PickPrefix(a: seq<Envelope>, b: seq<Envelope>, classOf: Envelope -> Term, k: Term)
    requires a <= b
    ensures Pick(a, classOf, k) <= Pick(b, classOf, k)
  {
    assert b == a + b[|a|..];
    PickConcat(a, b[|a|..], classOf, k);
  }

  /** Every log entry is in the lane of its key. */
  lemma {:induction false} LoggedInLane(job: Job, start: set<Pair>, w: World, es: seq<Envelope>, laneOf: Envelope -> Term, j: nat)
    requires |w.processes| == |job.lanes| && Good(job, start, w) && j < |w.log|
    requires forall i :: 0 <= i < |job.lanes| ==> job.lanes[i].1 == Pick(es, laneOf, job.lanes[i].0)
    ensures w.log[j].0 < |job.lanes| && job.lanes[w.log[j].0].0 == laneOf(w.log[j].1)
  {
    LoggedIsOfLane(w.log, j);
    assert LaneOk(job, w, w.log[j].0);
    OfLaneInLane(job, w, w.log[j].0);
  }

  /** The entries of a key in the log are a prefix of the key's envelopes. */
  lemma {:induction false} LaneOrder(job: Job, start: set<Pair>, w: World, es: seq<Envelope>, laneOf: Envelope -> Term,
                                     keyOf: Envelope -> Term, lane: Term, k: Term)
    requires |w.processes| == |job.lanes| && Good(job, start, w)
    requires forall i :: 0 <= i < |job.lanes| ==> job.lanes[i].1 == Pick(es, laneOf, job.lanes[i].0)
    requires forall i, j :: 0 <= i < j < |job.lanes| ==> job.lanes[i].0 != job.lanes[j].0
    requires forall e :: keyOf(e) == k ==> laneOf(e) == lane
    ensures Pick(Envelopes(w.log), keyOf, k) <= Pick(es, keyOf, k)
  {
    forall j | 0 <= j < |w.log| ensures w.log[j].0 < |job.lanes| && job.lanes[w.log[j].0].0 == laneOf(w.log[j].1) {
      LoggedInLane(job, start, w, es, laneOf, j);
    }
    if i: nat :| i < |job.lanes| && job.lanes[i].0 == lane {
      KeyStaysInLane(w.log, i, keyOf, k);
      assert LaneOk(job, w, i);
      OfLaneInLane(job, w, i);
      PickPrefix(OfLane(w.log, i), job.lanes[i].1, keyOf, k);
      PickFiner(es, laneOf, keyOf, lane, k);
    } else {
      KeyStaysInLane(w.log, |job.lanes|, keyOf, k);
      NotBegun(w.log, |job.lanes|);
    }
  }

  /** Order inside a key: at any moment of any interleaving, the envelopes of one
      lane key that have been taken up are a prefix of the selected envelopes of
      that key, in input order. */
  lemma {:induction false} KeysKeepTheirOrder(f: Flow, rt: Runtime, actions: seq<Action>, k: Term)
    requires Started(f, rt)
    ensures var keyOf := e => SafeKey(f.laneKey, e);
            Pick(Envelopes(After(f, rt, actions).log), keyOf, k)
            <= Pick(Coalesce(f, rt).1.value.envelopes, keyOf, k)
  {
    var (after, r) := Coalesce(f, rt);
    var job, laneOf := LaneJob(f, r.value.envelopes), LaneOf(f.laneKey, f.hash, f.laneCount);
    RunIsGood(job, after.reserved, actions);
    PartitionIsExact(r.value.envelopes, laneOf, f.order);
    LaneOrder(job, after.reserved, After(f, rt, actions), r.value.envelopes, laneOf,
              e => SafeKey(f.laneKey, e), Term(f.hash(k) % f.laneCount), k);
  }

  lemma {:induction false} NotBegun(log: seq<(nat, Envelope)>, i: nat)
    requires forall j :: 0 <= j < |log| ==> log[j].0 < i
    ensures OfLane(log, i) == []
    decreases |log|
  {
    if log != [] {
      var last := |log| - 1;
      forall j | 0 <= j < last ensures log[..last][j].0 < i {
        assert log[..last][j] == log[j];
      }
      NotBegun(log[..last], i);
    }
  }

  // ---- nothing is left reserved without a reason ----

  /** A released pair is that of an envelope of some lane whose handler has returned
      success. */
  lemma {:induction false} ReleasedWasHandled(job: Job, start: set<Pair>, w: World, p: Pair) returns (i: nat, e: Envelope)
    requires |w.processes| == |job.lanes| && Good(job, start, w) && p in start - w.reserved
    ensures i < |job.lanes| && e in job.lanes[i].1 && e in OfLane(w.done, i)
    ensures EnvelopeAck(e) == Ok(p) && job.work.decode(e).Some?
    ensures var answer := job.work.handler(job.work.decode(e).value, e); answer.Done? || answer.DoneWith?
    ensures OfLane(w.log, i) == job.lanes[i].1
    ensures forall g :: g in job.lanes[i].1 && job.work.decode(g).Some? ==>
              !job.work.handler(job.work.decode(g).value, g).Raises?
  {
    assert WasHandled(job, w.log, w.done, p);
    i :| i < |job.lanes| && p in PairsOf(OfLane(w.done, i)) && Through(job, w.log, i);
    var done := OfLane(w.done, i);
    var k :| 0 <= k < |done| && EnvelopeAck(done[k]) == Ok(p);
    e := done[k];
    assert LaneOk(job, w, i);
    OfLaneInLane(job, w, i);
    assert forall g :: g in job.lanes[i].1 ==> !Raising(job.work, g);
  }

  /** A handler that raises takes its whole lane with it: nothing of that lane is ever
      released, and the lane never reports counters. */
  lemma {:induction false} RaisingKeepsTheLane(f: Flow, rt: Runtime, actions: seq<Action>, i: nat,
                                               e: Envelope, g: Envelope, p: Pair)
    requires Started(f, rt) && DistinctPairs(f.batch)
    requires i < |LaneJob(f, Begin(f, rt).1.value).lanes|
    requires e in LaneJob(f, Begin(f, rt).1.value).lanes[i].1 && g in LaneJob(f, Begin(f, rt).1.value).lanes[i].1
    requires f.work.decode(e).Some? && f.work.handler(f.work.decode(e).value, e).Raises?
    requires EnvelopeAck(g) == Ok(p) && p in Begin(f, rt).0.reserved
    ensures p in After(f, rt, actions).reserved
    ensures !(After(f, rt, actions).processes[i].Reported? && After(f, rt, actions).processes[i].result.Consumed?)
  {
    var (after, r) := Begin(f, rt);
    var job, w, laneOf := LaneJob(f, r.value), After(f, rt, actions), LaneOf(f.laneKey, f.hash, f.laneCount);
    RunIsGood(job, after.reserved, actions);
    assert LaneOk(job, w, i);
    assert Raising(job.work, e);
    if p !in w.reserved {
      var j, h := ReleasedWasHandled(job, after.reserved, w, p);
      LaneIsOfBatch(f, rt, i, g);
      LaneIsOfBatch(f, rt, j, h);
      SamePairSameEnvelope(f.batch, g, h);
      OneLane(r.value, laneOf, f.order, i, j, g);
      assert false;
    }
  }

  lemma {:induction false} OneLane(es: seq<Envelope>, laneOf: Envelope -> Term, order: Order, i: nat, j: nat, e: Envelope)
    requires Orders(order) && i < |Partition(es, laneOf, order)| && j < |Partition(es, laneOf, order)|
    requires e in Partition(es, laneOf, order)[i].1 && e in Partition(es, laneOf, order)[j].1
    ensures i == j
  {
    PartitionIsExact(es, laneOf, order);
  }

  /** A lane that reports success has released all it handled. */
  lemma {:induction false} SuccessReleases(job: Job, start: set<Pair>, w: World, i: nat, e: Envelope, p: Pair)
    requires |w.processes| == |job.lanes| && Good(job, start, w) && i < |job.lanes|
    requires w.processes[i].Reported? && w.processes[i].result.Consumed?
    requires e in job.lanes[i].1 && Succeeds(job.work, e) && EnvelopeAck(e) == Ok(p)
    ensures p !in w.reserved
  {
    assert LaneOk(job, w, i);
    var handled := Handled(job.work, job.lanes[i].1);
    assert e in handled;
    var k :| 0 <= k < |handled| && handled[k] == e;
    assert p in PairsOf(handled) && p !in PairsOf(handled) * w.reserved;
  }

  ghost predicate AllConsumed(w: World) {
    forall i :: 0 <= i < |w.processes| ==> w.processes[i].Reported? && w.processes[i].result.Consumed?
  }

  /** When every lane has reported success, exactly the handled deliveries of the
      selection are released: reserved still means not handled. */
  lemma {:induction false} CleanRunIsExact(f: Flow, rt: Runtime, actions: seq<Action>, e: Envelope, p: Pair)
    requires Started(f, rt) && DistinctPairs(f.batch)
    requires AllConsumed(After(f, rt, actions))
    requires e in Begin(f, rt).1.value && EnvelopeAck(e) == Ok(p) && p in Begin(f, rt).0.reserved
    ensures p !in After(f, rt, actions).reserved <==>
              && f.work.decode(e).Some?
              && var answer := f.work.handler(f.work.decode(e).value, e); answer.Done? || answer.DoneWith?
  {
    LatestReleasesSuperseded(rt, f.batch, f.coalesceKey, f.order, f.limit);
    SurvivorsAreInput(f.batch, f.coalesceKey);
    var (after, r) := Coalesce(f, rt);
    var job, laneOf := LaneJob(f, r.value.envelopes), LaneOf(f.laneKey, f.hash, f.laneCount);
    RunIsGood(job, after.reserved, actions);
    var w := After(f, rt, actions);
    if Succeeds(f.work, e) {
      var i := PartitionCovers(r.value.envelopes, laneOf, f.order, e);
      PartitionLane(r.value.envelopes, laneOf, f.order, i);
      SuccessReleases(job, after.reserved, w, i, e, p);
    } else if p !in w.reserved {
      var i, g := ReleasedWasHandled(job, after.reserved, w, p);
      LaneIsOfBatch(f, rt, i, g);
      SamePairSameEnvelope(f.batch, e, g);
      assert false;
    }
  }

  lemma SamePairSameEnvelope(es: seq<Envelope>, a: Envelope, b: Envelope)
    requires DistinctPairs(es) && a in es && b in es && EnvelopeAck(a) == EnvelopeAck(b)
    ensures a == b
  {
    var i :| 0 <= i < |es| && es[i] == a;
    var j :| 0 <= j < |es| && es[j] == b;
    assert i == j;
  }
}
