/** Lanes as processes that interleave freely (wiregrid_lane, second half, and the
    body each lane runs, wiregrid_pipeline:consume-many).  Any of them may be
    killed between any two of its steps. */
module LfeLanes {
  import opened Options
  import opened Sequences
  import opened LfeAcks
  import opened LfeCoalesce
  import opened LfePartition

  /** What a handler returns; it may also raise. */
  datatype HandlerResult = Done | DoneWith(value: Term) | Other(value: Term) | Raises

  /** Decoding and handling, as the caller supplies them. */
  datatype Work = Work(decode: Envelope -> Option<Term>, handler: (Term, Envelope) -> HandlerResult)

  datatype Attempt = Committed | Failed | Crash

  /** The envelope can be decoded, and its handler returns ok or {ok, _}. */
  predicate Succeeds(w: Work, e: Envelope) {
    && w.decode(e).Some?
    && (w.handler(w.decode(e).value, e).Done? || w.handler(w.decode(e).value, e).DoneWith?)
  }

  /** The envelope can be decoded, and its handler raises. */
  predicate Raising(w: Work, e: Envelope) {
    w.decode(e).Some? && w.handler(w.decode(e).value, e).Raises?
  }

  ghost predicate NoneRaises(w: Work, es: seq<Envelope>) {
    forall e :: e in es ==> !Raising(w, e)
  }

  /** One envelope of consume-many-loop. */
  function TryOne(w: Work, e: Envelope): (a: Attempt)
    ensures a == Committed <==> Succeeds(w, e)
    ensures a == Crash <==> Raising(w, e)
  {
    match w.decode(e)
    case None => Failed
    case Some(event) =>
      match w.handler(event, e)
      case Done => Committed
      case DoneWith(_) => Committed
      case Other(_) => Failed
      case Raises => Crash
  }

  /** The envelopes of a list whose handler succeeds. */
  function Handled(w: Work, es: seq<Envelope>): (r: seq<Envelope>)
    ensures forall e :: e in r <==> e in es && Succeeds(w, e)
    ensures |r| <= |es|
  {
    if es == [] then []
    else
      assert es == [es[0]] + es[1..];
      (if Succeeds(w, es[0]) then [es[0]] else []) + Handled(w, es[1..])
  }

  lemma {:induction false} HandledSnoc(w: Work, es: seq<Envelope>, e: Envelope)
    ensures Handled(w, es + [e]) == Handled(w, es) + if Succeeds(w, e) then [e] else []
    decreases |es|
  {
    if es == [] {
      assert es + [e] == [e] && [e][1..] == [];
    } else {
      assert (es + [e])[1..] == es[1..] + [e];
      HandledSnoc(w, es[1..], e);
    }
  }

  // ---- one lane ----

  datatype LaneResult = Consumed(handled: nat, failed: nat) | LaneFailed(reason: Failure)

  /** Where a lane process stands: working through its envelopes (successful is
      built at the front), acknowledging group by group, finished with its result
      sent, or dead without one. */
  datatype Process =
    | Handling(todo: seq<Envelope>, busy: bool, successful: seq<Envelope>, handled: nat, failed: nat)
    | Acking(groups: seq<(Term, seq<Term>)>, handled: nat, failed: nat)
    | Reported(result: LaneResult)
    | Dead

  /** What the parent notes of a lane it has awaited: its counters, or its size as
      failures. */
  datatype Note = Got(handled: nat, failed: nat) | Lost(size: nat)

  /** Reservations, the lanes, the envelopes whose handling was begun, those whose
      handler has returned success, and what the parent has counted so far.  Both
      lists are in the order of the events, with the lane of each. */
  datatype World = World(
    reserved: set<Pair>,
    processes: seq<Process>,
    log: seq<(nat, Envelope)>,
    done: seq<(nat, Envelope)>,
    notes: seq<Note>, handled: nat, failed: nat)

  datatype Job = Job(lanes: seq<(Term, seq<Envelope>)>, work: Work, order: Order)

  datatype Action =
    | Begin(i: nat)                 // a lane takes up its next envelope
    | End(i: nat)                   // its handler returns or raises
    | Group(i: nat)                 // all handled: collect the acknowledgements
    | Ack(i: nat, mood: Mood)       // one ack_many
    | Finish(i: nat)                // all acknowledged: send the result
    | Kill(i: nat)                  // the process dies
    | Receive                       // the parent takes the awaited lane's result
    | Down                          // the parent learns that the awaited lane died
    | Timeout                       // the parent gives up waiting; a kill may follow later

  function Start(job: Job, reserved: set<Pair>): World {
    World(reserved, seq(|job.lanes|, i requires 0 <= i < |job.lanes| => Handling(job.lanes[i].1, false, [], 0, 0)),
          [], [], [], 0, 0)
  }

  /** A step of one process; anything not enabled leaves the process as it is. */
  function StepProcess(job: Job, p: Process, a: Action): Process
    requires Orders(job.order)
  {
    match (p, a)
    case (Handling(todo, busy, ok, h, f), Begin(_)) =>
      if !busy && todo != [] then p.(busy := true) else p
    case (Handling(todo, busy, ok, h, f), End(_)) =>
      if !busy || todo == [] then p
      else (match TryOne(job.work, todo[0])
        case Committed => Handling(todo[1..], false, [todo[0]] + ok, h + 1, f)
        case Failed => Handling(todo[1..], false, ok, h, f + 1)
        case Crash => Reported(LaneFailed(Crashed)))
    case (Handling(todo, busy, ok, h, f), Group(_)) =>
      if busy || todo != [] then p
      else (match CollectAcks(Reverse(ok), map[])
        case Error(r) => Reported(LaneFailed(r))
        case Ok(groups) =>
          assert Enumerates(job.order(groups.Keys), groups.Keys);
          Acking(ToList(groups, job.order), h, f))
    case (Acking(groups, h, f), Ack(_, mood)) =>
      if groups == [] then p
      else if mood.Grant? && groups[0].1 != [] then Acking(groups[1..], h, f)
      else Reported(LaneFailed(AckRefused(0, 0)))
    case (Acking(groups, h, f), Finish(_)) =>
      if groups == [] then Reported(Consumed(h, f)) else p
    case (Reported(_), _) => p
    case (_, Kill(_)) => Dead
    case _ => p
  }

  /** What stays reserved after that step: an ack_many releases what it lists. */
  ghost function ReservedAfter(reserved: set<Pair>, p: Process, a: Action): set<Pair> {
    if p.Acking? && a.Ack? && p.groups != [] then
      AckMany(Runtime(reserved, [a.mood]), p.groups[0].0, Reverse(p.groups[0].1)).0.reserved
    else reserved
  }

  /** Does the action make a lane take up an envelope? */
  predicate Begins(p: Process, a: Action) {
    a.Begin? && p.Handling? && !p.busy && p.todo != []
  }

  predicate OfParent(a: Action) { a.Receive? || a.Down? || a.Timeout? }

  /** Does the action make a handler return success? */
  predicate Commits(work: Work, p: Process, a: Action) {
    a.End? && p.Handling? && p.busy && p.todo != [] && Succeeds(work, p.todo[0])
  }

  /** The parent stops waiting for one lane and counts it. */
  function StepParent(job: Job, w: World, a: Action): (r: World)
    requires |w.processes| == |job.lanes|
    ensures r.processes == w.processes
  {
    var next := |w.notes|;
    if next >= |job.lanes| then w
    else
      var p, size := w.processes[next], |job.lanes[next].1|;
      if a.Receive? && p.Reported? then
        match p.result
        case Consumed(h, f) => w.(notes := w.notes + [Got(h, f)], handled := w.handled + h, failed := w.failed + f)
        case LaneFailed(_) => w.(notes := w.notes + [Lost(size)], failed := w.failed + size)
      else if (a.Down? && p.Dead?) || a.Timeout? then
        w.(notes := w.notes + [Lost(size)], failed := w.failed + size)
      else w
  }

  /** One step of the whole. */
  ghost function Step(job: Job, w: World, a: Action): (r: World)
    requires Orders(job.order) && |w.processes| == |job.lanes|
    ensures |r.processes| == |job.lanes|
  {
    if OfParent(a) then StepParent(job, w, a)
    else if a.i >= |w.processes| then w
    else
      var p := w.processes[a.i];
      w.(processes := w.processes[a.i := StepProcess(job, p, a)],
         reserved := ReservedAfter(w.reserved, p, a),
         log := if Begins(p, a) then w.log + [(a.i, p.todo[0])] else w.log,
         done := if Commits(job.work, p, a) then w.done + [(a.i, p.todo[0])] else w.done)
  }

  /** A whole run: any actions in any order. */
  ghost function Run(job: Job, w: World, actions: seq<Action>): (r: World)
    requires Orders(job.order) && |w.processes| == |job.lanes|
    ensures |r.processes| == |job.lanes|
    decreases |actions|
  {
    if actions == [] then w
    else Step(job, Run(job, w, actions[..|actions| - 1]), actions[|actions| - 1])
  }

  // ---- what every step keeps ----

  /** What a list of events says of one lane, in order. */
  ghost function OfLane(log: seq<(nat, Envelope)>, i: nat): seq<Envelope> {
    if log == [] then []
    else
      var last := |log| - 1;
      OfLane(log[..last], i) + if log[last].0 == i then [log[last].1] else []
  }

  lemma OfLaneSnoc(log: seq<(nat, Envelope)>, x: (nat, Envelope), i: nat)
    ensures OfLane(log + [x], i) == OfLane(log, i) + if x.0 == i then [x.1] else []
  {
    assert (log + [x])[..|log|] == log;
  }

  /** A lane with envelopes es has begun a prefix of them, in order; done are those of
      them whose handler has returned success, and the lane's counters and lists say
      exactly that. */
  ghost predicate ProcessOk(work: Work, es: seq<Envelope>, p: Process, begun: seq<Envelope>, done: seq<Envelope>) {
    match p
    case Handling(todo, busy, ok, h, f) =>
      && |todo| <= |es|
      && var k := |es| - |todo|;
         && todo == es[k..] && (busy ==> todo != []) && NoneRaises(work, es[..k])
         && begun == es[..if busy then k + 1 else k]
         && done == Handled(work, es[..k]) && ok == Reverse(done)
         && h == |done| && h + f == k
    case Acking(groups, h, f) =>
      && AllTried(work, es, begun, done, h, f)
      && HaveIds(done) && GroupPairs(groups) <= PairsOf(done)
      && forall g :: g in groups ==> g.1 != []
    case Reported(Consumed(h, f)) => AllTried(work, es, begun, done, h, f) && HaveIds(done)
    case Reported(LaneFailed(_)) => begun <= es && done <= Handled(work, begun)
    case Dead => begun <= es && done <= Handled(work, begun)
  }

  ghost predicate AllTried(work: Work, es: seq<Envelope>, begun: seq<Envelope>, done: seq<Envelope>, h: nat, f: nat) {
    begun == es && NoneRaises(work, es) && done == Handled(work, es) && h == |done| && h + f == |es|
  }

  /** What a lane that is done acknowledging has handled is no longer reserved. */
  ghost predicate Cleared(p: Process, done: seq<Envelope>, reserved: set<Pair>) {
    match p
    case Acking(groups, _, _) => PairsOf(done) * reserved <= GroupPairs(groups)
    case Reported(Consumed(_, _)) => PairsOf(done) * reserved == {}
    case _ => true
  }

  /** At any moment what a lane has begun is a prefix of its envelopes, and what has
      succeeded is a prefix of what will have succeeded of these. */
  lemma {:induction false} LaneSoFar(work: Work, es: seq<Envelope>, p: Process, begun: seq<Envelope>, done: seq<Envelope>)
    requires ProcessOk(work, es, p, begun, done)
    ensures begun <= es && done <= Handled(work, begun)
  {
    if p.Handling? && p.busy {
      NextDone(work, es, |es| - |p.todo|);
    }
  }

  /** One more envelope of a lane. */
  lemma {:induction false} NextDone(work: Work, es: seq<Envelope>, k: nat)
    requires k < |es|
    ensures es[k..][0] == es[k] && es[k..][1..] == es[k + 1..] && es[..k + 1] == es[..k] + [es[k]]
    ensures Handled(work, es[..k + 1])
            == Handled(work, es[..k]) + if Succeeds(work, es[k]) then [es[k]] else []
    ensures NoneRaises(work, es[..k + 1]) <==> NoneRaises(work, es[..k]) && !Raising(work, es[k])
  {
    assert es[..k + 1] == es[..k] + [es[k]];
    assert es[k] in es[..k + 1];
    HandledSnoc(work, es[..k], es[k]);
  }

  lemma ReverseSnoc<T>(s: seq<T>, x: T)
    ensures Reverse(s + [x]) == [x] + Reverse(s)
  {
  }

  lemma {:induction false} BeginKeeps(job: Job, es: seq<Envelope>, p: Process, a: Action,
                                      begun: seq<Envelope>, done: seq<Envelope>)
    requires Orders(job.order) && ProcessOk(job.work, es, p, begun, done) && Begins(p, a)
    ensures ProcessOk(job.work, es, StepProcess(job, p, a), begun + [p.todo[0]], done)
  {
    NextDone(job.work, es, |es| - |p.todo|);
  }

  /** A handler that returns success is noted, and only then counted. */
  lemma {:induction false} EndKeeps(job: Job, es: seq<Envelope>, p: Process, a: Action,
                                    begun: seq<Envelope>, done: seq<Envelope>)
    requires Orders(job.order) && ProcessOk(job.work, es, p, begun, done)
    requires a.End? && p.Handling? && p.busy && p.todo != []
    ensures ProcessOk(job.work, es, StepProcess(job, p, a), begun,
                      done + if Succeeds(job.work, p.todo[0]) then [p.todo[0]] else [])
    ensures Raising(job.work, p.todo[0]) ==> StepProcess(job, p, a) == Reported(LaneFailed(Crashed))
    ensures !Raising(job.work, p.todo[0]) ==> StepProcess(job, p, a).Handling? && StepProcess(job, p, a).todo == p.todo[1..]
  {
    hide Handled, Reverse, NoneRaises, Succeeds, Raising, HaveIds, PairsOf;
    NextDone(job.work, es, |es| - |p.todo|);
    ReverseSnoc(done, p.todo[0]);
    assert done + [] == done;
  }

  lemma {:induction false} GroupKeeps(job: Job, es: seq<Envelope>, p: Process, a: Action,
                                      begun: seq<Envelope>, done: seq<Envelope>, reserved: set<Pair>)
    requires Orders(job.order) && ProcessOk(job.work, es, p, begun, done)
    requires a.Group? && p.Handling? && !p.busy && p.todo == []
    ensures ProcessOk(job.work, es, StepProcess(job, p, a), begun, done)
    ensures Cleared(StepProcess(job, p, a), done, reserved)
  {
    hide Handled, Reverse, Orders, HaveIds, PairsOf, GroupPairs;
    assert es[..|es|] == es;
    ReverseTwice(done);
    GroupingSucceeds(done, map[]);
    if HaveIds(done) {
      GroupsHoldPairs(done, job.order);
      GroupsFilled(done, job.order);
    }
  }

  /** No session is listed without a delivery. */
  lemma {:induction false} GroupsFilled(es: seq<Envelope>, order: Order)
    requires Orders(order) && CollectAcks(es, map[]).Ok?
    ensures Enumerates(order(CollectAcks(es, map[]).value.Keys), CollectAcks(es, map[]).value.Keys)
    ensures forall g :: g in ToList(CollectAcks(es, map[]).value, order) ==> g.1 != []
  {
    var m := CollectAcks(es, map[]).value;
    assert Enumerates(order(m.Keys), m.Keys);
    var list := ToList(m, order);
    forall g | g in list ensures g.1 != [] {
      GroupedIds(es, map[], g.0);
    }
  }

  /** One ack_many: the group leaves the list and its pairs the reservations, or the
      lane has failed and no other pair is gone. */
  lemma {:induction false} AckStep(job: Job, p: Process, a: Action, done: seq<Envelope>, reserved: set<Pair>)
    requires Orders(job.order) && a.Ack? && p.Acking? && p.groups != []
    requires GroupPairs(p.groups) <= PairsOf(done)
    ensures var left := ReservedAfter(reserved, p, a);
            && reserved - PairsOf(done) <= left <= reserved
            && GroupPairs(p.groups[1..]) <= PairsOf(done)
            && (a.mood.Grant? && p.groups[0].1 != [] ==>
                  left == reserved - Listed(p.groups[0].0, p.groups[0].1))
  {
    var (session, ids) := p.groups[0];
    ListedReverse(session, ids);
    ReleasesOnlyListed(Runtime(reserved, [a.mood]), session, Reverse(ids));
  }

  lemma {:induction false} AckKeeps(job: Job, es: seq<Envelope>, p: Process, a: Action,
                                    begun: seq<Envelope>, done: seq<Envelope>, reserved: set<Pair>)
    requires Orders(job.order) && ProcessOk(job.work, es, p, begun, done) && Cleared(p, done, reserved)
    requires a.Ack? && p.Acking? && p.groups != []
    ensures var left := ReservedAfter(reserved, p, a);
            && reserved - PairsOf(done) <= left <= reserved
            && ProcessOk(job.work, es, StepProcess(job, p, a), begun, done)
            && Cleared(StepProcess(job, p, a), done, left)
  {
    AckStep(job, p, a, done, reserved);
    if a.mood.Grant? && p.groups[0].1 != [] {
      var mine, listed := PairsOf(done), Listed(p.groups[0].0, p.groups[0].1);
      forall q | q in mine * (reserved - listed) ensures q in GroupPairs(p.groups[1..]) {
        assert q in mine * reserved;
      }
    }
  }

  /** A step of one lane, whichever it is: what it releases had its handler's success
      noted before. */
  lemma {:induction false} ProcessKeeps(job: Job, es: seq<Envelope>, p: Process, a: Action,
                                        begun: seq<Envelope>, done: seq<Envelope>, reserved: set<Pair>)
    requires Orders(job.order) && ProcessOk(job.work, es, p, begun, done) && Cleared(p, done, reserved)
    ensures var moreBegun := if Begins(p, a) then begun + [p.todo[0]] else begun;
            var moreDone := if Commits(job.work, p, a) then done + [p.todo[0]] else done;
            var left := ReservedAfter(reserved, p, a);
            && ProcessOk(job.work, es, StepProcess(job, p, a), moreBegun, moreDone)
            && Cleared(StepProcess(job, p, a), moreDone, left)
            && left <= reserved
            && (forall q :: q in reserved - left ==> q in PairsOf(done) && p.Acking?)
  {
    if Begins(p, a) {
      BeginKeeps(job, es, p, a, begun, done);
    } else if a.End? && p.Handling? && p.busy && p.todo != [] {
      assert done + [] == done;
      EndKeeps(job, es, p, a, begun, done);
    } else if a.Group? && p.Handling? && !p.busy && p.todo == [] {
      GroupKeeps(job, es, p, a, begun, done, reserved);
    } else if a.Ack? && p.Acking? && p.groups != [] {
      AckKeeps(job, es, p, a, begun, done, reserved);
    } else {
      OtherKeeps(job, es, p, a, begun, done, reserved);
    }
  }

  /** Sending the result, dying, and whatever is not enabled. */
  lemma {:induction false} OtherKeeps(job: Job, es: seq<Envelope>, p: Process, a: Action,
                                      begun: seq<Envelope>, done: seq<Envelope>, reserved: set<Pair>)
    requires Orders(job.order) && ProcessOk(job.work, es, p, begun, done) && Cleared(p, done, reserved)
    requires a.Finish? || a.Kill? || OfParent(a) || StepProcess(job, p, a) == p
    requires !(a.Ack? && p.Acking? && p.groups != [])
    ensures ProcessOk(job.work, es, StepProcess(job, p, a), begun, done)
    ensures Cleared(StepProcess(job, p, a), done, reserved)
    ensures ReservedAfter(reserved, p, a) == reserved
  {
    LaneSoFar(job.work, es, p, begun, done);
    if a.Finish? && p.Acking? && p.groups == [] {
      assert PairsOf(done) * reserved == {};
    }
  }

  ghost predicate LaneOk(job: Job, w: World, i: nat)
    requires |w.processes| == |job.lanes| && i < |job.lanes|
  {
    && ProcessOk(job.work, job.lanes[i].1, w.processes[i], OfLane(w.log, i), OfLane(w.done, i))
    && Cleared(w.processes[i], OfLane(w.done, i), w.reserved)
  }

  /** Some lane has taken up all of its envelopes, and no handler of it raises. */
  ghost predicate Through(job: Job, log: seq<(nat, Envelope)>, i: nat)
    requires i < |job.lanes|
  {
    OfLane(log, i) == job.lanes[i].1 && NoneRaises(job.work, job.lanes[i].1)
  }

  /** A lane that is through has had its handler's success for the delivery. */
  ghost predicate WasHandled(job: Job, log: seq<(nat, Envelope)>, done: seq<(nat, Envelope)>, p: Pair) {
    exists i: nat :: i < |job.lanes| && p in PairsOf(OfLane(done, i)) && Through(job, log, i)
  }

  // ---- what the parent has counted ----

  ghost function NotedHandled(notes: seq<Note>): nat {
    if notes == [] then 0
    else
      var last := |notes| - 1;
      NotedHandled(notes[..last]) + if notes[last].Got? then notes[last].handled else 0
  }

  /** The note of a lane: its own counters, which it has sent, or its size. */
  ghost predicate NoteOk(job: Job, w: World, i: nat)
    requires |w.processes| == |job.lanes| && i < |job.lanes| && i < |w.notes|
  {
    match w.notes[i]
    case Got(h, f) => w.processes[i] == Reported(Consumed(h, f))
    case Lost(size) => size == |job.lanes[i].1|
  }

  ghost predicate ParentOk(job: Job, w: World)
    requires |w.processes| == |job.lanes|
  {
    && |w.notes| <= |job.lanes|
    && (forall i: nat :: i < |w.notes| ==> NoteOk(job, w, i))
    && w.handled == NotedHandled(w.notes)
    && w.handled + w.failed == GroupSizes(job.lanes[..|w.notes|])
  }

  /** Every event is one of some lane. */
  ghost predicate InLanes(log: seq<(nat, Envelope)>, n: nat) {
    forall j :: 0 <= j < |log| ==> log[j].0 < n
  }

  /** What holds in every world a run can reach. */
  ghost predicate Good(job: Job, start: set<Pair>, w: World)
    requires |w.processes| == |job.lanes|
  {
    && (forall i: nat :: i < |job.lanes| ==> LaneOk(job, w, i))
    && w.reserved <= start
    && (forall p :: p in start - w.reserved ==> WasHandled(job, w.log, w.done, p))
    && ParentOk(job, w)
    && InLanes(w.log, |job.lanes|) && InLanes(w.done, |job.lanes|)
  }

  lemma {:induction false} StartIsGood(job: Job, start: set<Pair>)
    ensures Good(job, start, Start(job, start))
  {
    var w := Start(job, start);
    forall i: nat | i < |job.lanes| ensures LaneOk(job, w, i) {
      assert job.lanes[i].1[0..] == job.lanes[i].1;
    }
  }

  lemma {:induction false} SizesSnoc<U>(lanes: seq<(Term, seq<U>)>, x: (Term, seq<U>))
    ensures GroupSizes(lanes + [x]) == GroupSizes(lanes) + |x.1|
    decreases |lanes|
  {
    if lanes == [] {
      assert lanes + [x] == [x] && [x][1..] == [];
    } else {
      assert (lanes + [x])[1..] == lanes[1..] + [x];
      SizesSnoc(lanes[1..], x);
    }
  }

  lemma NotedSnoc(notes: seq<Note>, n: Note)
    ensures NotedHandled(notes + [n]) == NotedHandled(notes) + if n.Got? then n.handled else 0
  {
    assert (notes + [n])[..|notes|] == notes;
  }

  /** A lane's own counters add up to its size. */
  lemma {:induction false} CountersAddUp(job: Job, w: World, i: nat)
    requires |w.processes| == |job.lanes| && i < |job.lanes| && LaneOk(job, w, i)
    requires w.processes[i].Reported? && w.processes[i].result.Consumed?
    ensures var r := w.processes[i].result;
            r.handled + r.failed == |job.lanes[i].1| && r.handled == |Handled(job.work, job.lanes[i].1)|
  {
  }

  /** The parent notes nothing, or counts the next lane once. */
  lemma NextNote(job: Job, w: World, a: Action)
    requires |w.processes| == |job.lanes| && |w.notes| <= |job.lanes|
    requires |w.notes| < |job.lanes| ==> LaneOk(job, w, |w.notes|)
    ensures var z, n := StepParent(job, w, a), |w.notes|;
            z != w ==>
              && n < |job.lanes| && |z.notes| == n + 1 && z.notes == w.notes + [z.notes[n]] && NoteOk(job, z, n)
              && z.handled == w.handled + (if z.notes[n].Got? then z.notes[n].handled else 0)
              && z.handled + z.failed == w.handled + w.failed + |job.lanes[n].1|
  {
    var n := |w.notes|;
    if n < |job.lanes| && w.processes[n].Reported? && w.processes[n].result.Consumed? {
      CountersAddUp(job, w, n);
    }
  }

  lemma NoteStays(job: Job, w: World, z: World, i: nat)
    requires |w.processes| == |job.lanes| && z.processes == w.processes && w.notes <= z.notes
    requires i < |job.lanes| && i < |w.notes| && NoteOk(job, w, i)
    ensures NoteOk(job, z, i)
  {
  }

  lemma {:induction false} ParentCounts(job: Job, w: World, a: Action)
    requires |w.processes| == |job.lanes| && ParentOk(job, w)
    requires forall i: nat :: i < |job.lanes| ==> LaneOk(job, w, i)
    ensures ParentOk(job, StepParent(job, w, a))
  {
    hide NoteOk, LaneOk, StepParent, GroupSizes, NotedHandled;
    var z, n := StepParent(job, w, a), |w.notes|;
    NextNote(job, w, a);
    if z != w {
      assert job.lanes[..n + 1] == job.lanes[..n] + [job.lanes[n]];
      SizesSnoc(job.lanes[..n], job.lanes[n]);
      NotedSnoc(w.notes, z.notes[n]);
      forall i: nat | i < |z.notes| ensures NoteOk(job, z, i) {
        if i < n {
          NoteStays(job, w, z, i);
        }
      }
    }
  }

  lemma {:induction false} ParentKeeps(job: Job, start: set<Pair>, w: World, a: Action)
    requires |w.processes| == |job.lanes| && Good(job, start, w)
    ensures Good(job, start, StepParent(job, w, a))
  {
    ParentCounts(job, w, a);
    forall i: nat | i < |job.lanes| ensures LaneOk(job, StepParent(job, w, a), i) {
      assert LaneOk(job, w, i);
    }
  }

  /** One more success forgets none. */
  lemma {:induction false} HandledGrows(job: Job, log: seq<(nat, Envelope)>, done: seq<(nat, Envelope)>,
                                        x: (nat, Envelope), p: Pair)
    requires WasHandled(job, log, done, p)
    ensures WasHandled(job, log, done + [x], p)
  {
    var i: nat :| i < |job.lanes| && p in PairsOf(OfLane(done, i)) && Through(job, log, i);
    OfLaneSnoc(done, x, i);
    PairsGrow(OfLane(done, i), if x.0 == i then [x.1] else []);
  }

  /** A lane that is through takes up nothing more. */
  lemma {:induction false} ThroughStays(job: Job, log: seq<(nat, Envelope)>, done: seq<(nat, Envelope)>,
                                        x: (nat, Envelope), p: Pair)
    requires WasHandled(job, log, done, p)
    requires forall i: nat :: i < |job.lanes| ==> OfLane(log + [x], i) <= job.lanes[i].1
    ensures WasHandled(job, log + [x], done, p)
  {
    var i: nat :| i < |job.lanes| && p in PairsOf(OfLane(done, i)) && Through(job, log, i);
    OfLaneSnoc(log, x, i);
    assert OfLane(log + [x], i) <= job.lanes[i].1;
    assert Through(job, log + [x], i);
  }

  lemma PairsGrow(a: seq<Envelope>, b: seq<Envelope>)
    ensures PairsOf(a) <= PairsOf(a + b)
  {
    forall p | p in PairsOf(a) ensures p in PairsOf(a + b) {
      var i :| 0 <= i < |a| && EnvelopeAck(a[i]) == Ok(p);
      assert (a + b)[i] == a[i];
    }
  }

  /** A step of one lane keeps every lane in order. */
  lemma {:induction false} LaneKeeps(job: Job, w: World, a: Action, i: nat)
    requires Orders(job.order) && |w.processes| == |job.lanes| && i < |job.lanes|
    requires !OfParent(a) && a.i < |job.lanes| && LaneOk(job, w, a.i) && LaneOk(job, w, i)
    ensures LaneOk(job, Step(job, w, a), i)
  {
    hide ProcessOk, Cleared, StepProcess, ReservedAfter, PairsOf;
    var z, p := Step(job, w, a), w.processes[a.i];
    ProcessKeeps(job, job.lanes[a.i].1, p, a, OfLane(w.log, a.i), OfLane(w.done, a.i), w.reserved);
    if Begins(p, a) {
      OfLaneSnoc(w.log, (a.i, p.todo[0]), i);
    } else if Commits(job.work, p, a) {
      OfLaneSnoc(w.done, (a.i, p.todo[0]), i);
    }
    assert OfLane(w.log, i) + [] == OfLane(w.log, i) && OfLane(w.done, i) + [] == OfLane(w.done, i);
    if i != a.i {
      ClearedStays(w.processes[i], OfLane(w.done, i), w.reserved, z.reserved);
    }
  }

  lemma ClearedStays(p: Process, done: seq<Envelope>, reserved: set<Pair>, left: set<Pair>)
    requires Cleared(p, done, reserved) && left <= reserved
    ensures Cleared(p, done, left)
  {
    assert PairsOf(done) * left <= PairsOf(done) * reserved;
  }

  /** A step of one lane leaves a released reservation with its handler's success. */
  lemma {:induction false} ReleaseKeeps(job: Job, start: set<Pair>, w: World, a: Action, q: Pair)
    requires Orders(job.order) && |w.processes| == |job.lanes|
    requires !OfParent(a) && a.i < |job.lanes| && LaneOk(job, w, a.i)
    requires q in start - w.reserved ==> WasHandled(job, w.log, w.done, q)
    requires forall i: nat :: i < |job.lanes| ==> OfLane(Step(job, w, a).log, i) <= job.lanes[i].1
    ensures Step(job, w, a).reserved <= w.reserved
    ensures q in start - Step(job, w, a).reserved ==> WasHandled(job, Step(job, w, a).log, Step(job, w, a).done, q)
  {
    var z, p := Step(job, w, a), w.processes[a.i];
    ProcessKeeps(job, job.lanes[a.i].1, p, a, OfLane(w.log, a.i), OfLane(w.done, a.i), w.reserved);
    if q in start - z.reserved {
      if q in w.reserved {
        assert q in PairsOf(OfLane(w.done, a.i)) && Through(job, w.log, a.i);
      }
      assert WasHandled(job, w.log, w.done, q);
      if Commits(job.work, p, a) {
        HandledGrows(job, w.log, w.done, (a.i, p.todo[0]), q);
      } else if Begins(p, a) {
        ThroughStays(job, w.log, w.done, (a.i, p.todo[0]), q);
      }
    }
  }

  /** A lane that has reported stays as it is. */
  lemma {:induction false} NotesStay(job: Job, w: World, a: Action)
    requires Orders(job.order) && |w.processes| == |job.lanes| && ParentOk(job, w)
    requires !OfParent(a) && a.i < |job.lanes|
    ensures ParentOk(job, Step(job, w, a))
  {
    var z := Step(job, w, a);
    forall i: nat | i < |z.notes| ensures NoteOk(job, z, i) {
      assert NoteOk(job, w, i);
    }
  }

  lemma {:induction false} LanesKeep(job: Job, start: set<Pair>, w: World, a: Action)
    requires Orders(job.order) && |w.processes| == |job.lanes| && Good(job, start, w)
    requires !OfParent(a) && a.i < |job.lanes|
    ensures Good(job, start, Step(job, w, a))
  {
    var z := Step(job, w, a);
    assert LaneOk(job, w, a.i);
    forall i: nat | i < |job.lanes| ensures LaneOk(job, z, i) {
      assert LaneOk(job, w, i);
      LaneKeeps(job, w, a, i);
    }
    forall i: nat | i < |job.lanes| ensures OfLane(z.log, i) <= job.lanes[i].1 {
      assert LaneOk(job, z, i);
      LaneSoFar(job.work, job.lanes[i].1, z.processes[i], OfLane(z.log, i), OfLane(z.done, i));
    }
    forall q ensures z.reserved <= w.reserved && (q in start - z.reserved ==> WasHandled(job, z.log, z.done, q)) {
      ReleaseKeeps(job, start, w, a, q);
    }
    ReleaseKeeps(job, start, w, a, Pair(Undefined, Undefined));
    NotesStay(job, w, a);
  }

  /** Every reachable world is good. */
  lemma {:induction false} RunIsGood(job: Job, start: set<Pair>, actions: seq<Action>)
    requires Orders(job.order)
    ensures Good(job, start, Run(job, Start(job, start), actions))
    decreases |actions|
  {
    if actions == [] {
      StartIsGood(job, start);
    } else {
      var init, a := actions[..|actions| - 1], actions[|actions| - 1];
      RunIsGood(job, start, init);
      var w := Run(job, Start(job, start), init);
      if OfParent(a) {
        ParentKeeps(job, start, w, a);
      } else if a.i < |job.lanes| {
        LanesKeep(job, start, w, a);
      }
    }
  }
}
