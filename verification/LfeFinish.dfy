/** Lanes that are left alone finish: whatever has happened so far, a lane that is still
    running can go on to its report, and a flow whose handlers do not raise has a clean
    run. */
module LfeFinish {
  import opened Options
  import opened Sequences
  import opened LfeAcks
  import opened LfeCoalesce
  import opened LfePartition
  import opened LfeLanes
  import opened LfeFlow

  predicate Running(p: Process) { p.Handling? || p.Acking? }

  /** What a lane does next when nothing disturbs it. */
  function NextAction(p: Process, i: nat): Action {
    match p
    case Handling(todo, busy, _, _, _) =>
      if todo == [] then Group(i) else if busy then End(i) else Action.Begin(i)
    case Acking(groups, _, _) => if groups == [] then Finish(i) else Ack(i, Grant)
    case _ => Finish(i)
  }

  lemma {:induction false} RunConcat(job: Job, w: World, a: seq<Action>, b: seq<Action>)
    requires Orders(job.order) && |w.processes| == |job.lanes|
    ensures Run(job, w, a + b) == Run(job, Run(job, w, a), b)
    decreases |b|
  {
    hide Step;
    if b == [] {
      assert a + b == a;
    } else {
      var init, last := b[..|b| - 1], b[|b| - 1];
      assert (a + b)[..|a + b| - 1] == a + init && (a + b)[|a + b| - 1] == last;
      RunConcat(job, w, a, init);
    }
  }

  lemma RunOnce(job: Job, w: World, a: Action)
    requires Orders(job.order) && |w.processes| == |job.lanes|
    ensures Run(job, w, [a]) == Step(job, w, a)
  {
    assert [a][..0] == [];
  }

  /** Nothing but one lane, the reservations and the logs has moved. */
  ghost predicate OnlyLane(w: World, z: World, i: nat)
    requires i < |w.processes|
  {
    && |z.processes| == |w.processes| && z.processes == w.processes[i := z.processes[i]]
    && z.notes == w.notes
  }

  /** What a lane left alone reports: its counters when no handler raises and all that is
      handled has its ids, a failure otherwise. */
  ghost predicate Finished(job: Job, z: World, i: nat)
    requires i < |job.lanes| && |z.processes| == |job.lanes|
  {
    Reports(job.work, job.lanes[i].1, z.processes[i])
  }

  /** Two steps for each envelope still to do, then one for each group. */
  function StepsLeft(p: Process): int
    requires Running(p)
  {
    if p.Handling? then 2 * |p.todo| - (if p.busy then 1 else 0) else |p.groups|
  }

  predicate Closer(p: Process, q: Process)
    requires Running(p) && Running(q)
  {
    (p.Handling? && q.Acking?) || (p.Handling? == q.Handling? && StepsLeft(q) < StepsLeft(p))
  }

  /** A report of a lane with envelopes es. */
  ghost predicate Reports(work: Work, es: seq<Envelope>, q: Process) {
    q.Reported? && (q.result.Consumed? <==> NoneRaises(work, es) && HaveIds(Handled(work, es)))
  }

  /** All handled: the groups are collected, unless an id is missing. */
  lemma {:induction false} GroupingGoesOn(job: Job, es: seq<Envelope>, p: Process, begun: seq<Envelope>,
                                          done: seq<Envelope>, i: nat)
    requires Orders(job.order) && ProcessOk(job.work, es, p, begun, done) && p.Handling? && p.todo == []
    ensures var q := StepProcess(job, p, Group(i)); if Running(q) then q.Acking? else Reports(job.work, es, q)
  {
    hide Handled, NoneRaises, Reverse, CollectAcks, Succeeds, Raising;
    assert es[..|es|] == es;
    ReverseTwice(done);
    GroupingSucceeds(done, map[]);
  }

  /** A handler ends: the next envelope, or a crash. */
  lemma {:induction false} HandlingGoesOn(job: Job, es: seq<Envelope>, p: Process, begun: seq<Envelope>,
                                          done: seq<Envelope>, i: nat)
    requires Orders(job.order) && ProcessOk(job.work, es, p, begun, done) && p.Handling? && p.busy
    ensures var q := StepProcess(job, p, End(i));
            if Running(q) then q.Handling? && StepsLeft(q) < StepsLeft(p) else Reports(job.work, es, q)
  {
    hide Handled, Reverse, CollectAcks, Succeeds, Raising, HaveIds;
    EndKeeps(job, es, p, End(i), begun, done);
    assert p.todo[0] in es;
  }

  lemma {:induction false} AckingGoesOn(job: Job, es: seq<Envelope>, p: Process, begun: seq<Envelope>,
                                        done: seq<Envelope>, i: nat)
    requires Orders(job.order) && ProcessOk(job.work, es, p, begun, done) && p.Acking?
    ensures var q := StepProcess(job, p, NextAction(p, i));
            if Running(q) then q.Acking? && StepsLeft(q) < StepsLeft(p) else Reports(job.work, es, q)
  {
    hide Handled, NoneRaises, Succeeds, Raising, HaveIds, GroupPairs, PairsOf;
  }

  /** One step of a process left alone: it comes closer, or it reports. */
  lemma {:induction false} ProcessGoesOn(job: Job, es: seq<Envelope>, p: Process, begun: seq<Envelope>,
                                         done: seq<Envelope>, i: nat)
    requires Orders(job.order) && ProcessOk(job.work, es, p, begun, done) && Running(p)
    ensures var q := StepProcess(job, p, NextAction(p, i));
            if Running(q) then Closer(p, q) else Reports(job.work, es, q)
  {
    if p.Acking? {
      AckingGoesOn(job, es, p, begun, done, i);
    } else if p.todo == [] {
      GroupingGoesOn(job, es, p, begun, done, i);
    } else if p.busy {
      HandlingGoesOn(job, es, p, begun, done, i);
    }
  }

  /** One step of a lane left alone: it goes on, or it reports. */
  lemma {:induction false} LaneGoesOn(job: Job, w: World, i: nat)
    requires Orders(job.order) && |w.processes| == |job.lanes| && i < |job.lanes|
    requires LaneOk(job, w, i) && Running(w.processes[i])
    ensures var p, z := w.processes[i], Step(job, w, NextAction(w.processes[i], i));
            && OnlyLane(w, z, i) && LaneOk(job, z, i)
            && if Running(z.processes[i]) then Closer(p, z.processes[i]) else Finished(job, z, i)
  {
    hide ProcessOk, Cleared, StepProcess, ReservedAfter, Begins, Commits, Closer, NoneRaises, HaveIds;
    var p := w.processes[i];
    LaneKeeps(job, w, NextAction(p, i), i);
    ProcessGoesOn(job, job.lanes[i].1, p, OfLane(w.log, i), OfLane(w.done, i), i);
  }

  /** A lane that is still running can finish without another's help. */
  lemma {:induction false} LaneFinishes(job: Job, w: World, i: nat) returns (actions: seq<Action>)
    requires Orders(job.order) && |w.processes| == |job.lanes| && i < |job.lanes|
    requires LaneOk(job, w, i) && Running(w.processes[i])
    ensures OnlyLane(w, Run(job, w, actions), i) && Finished(job, Run(job, w, actions), i)
    decreases w.processes[i].Handling?, StepsLeft(w.processes[i]) + 1
  {
    hide Step, LaneOk, Finished;
    var a := NextAction(w.processes[i], i);
    var z := Step(job, w, a);
    LaneGoesOn(job, w, i);
    RunOnce(job, w, a);
    actions := [a];
    if Running(z.processes[i]) {
      var rest := LaneFinishes(job, z, i);
      RunConcat(job, w, [a], rest);
      actions := [a] + rest;
    }
  }

  lemma {:induction false} RunKeepsGood(job: Job, start: set<Pair>, w: World, actions: seq<Action>)
    requires Orders(job.order) && |w.processes| == |job.lanes| && Good(job, start, w)
    ensures Good(job, start, Run(job, w, actions))
    decreases |actions|
  {
    hide Good, StepProcess, StepParent;
    if actions != [] {
      var init, a := actions[..|actions| - 1], actions[|actions| - 1];
      RunKeepsGood(job, start, w, init);
      var z := Run(job, w, init);
      if OfParent(a) {
        ParentKeeps(job, start, z, a);
      } else if a.i < |job.lanes| {
        LanesKeep(job, start, z, a);
      }
    }
  }

  /** One lane after the other. */
  lemma {:induction false} AllLanesFinish(job: Job, start: set<Pair>, w: World, n: nat) returns (actions: seq<Action>)
    requires Orders(job.order) && |w.processes| == |job.lanes| && Good(job, start, w) && n <= |job.lanes|
    requires forall i: nat :: i < n ==> Finished(job, w, i)
    requires forall i :: n <= i < |job.lanes| ==> Running(w.processes[i])
    ensures var z := Run(job, w, actions);
            z.notes == w.notes && forall i: nat :: i < |job.lanes| ==> Finished(job, z, i)
    decreases |job.lanes| - n
  {
    actions := [];
    if n < |job.lanes| {
      assert LaneOk(job, w, n);
      var mine := LaneFinishes(job, w, n);
      RunKeepsGood(job, start, w, mine);
      var z := Run(job, w, mine);
      forall i: nat | i < n ensures Finished(job, z, i) {
        assert Finished(job, w, i) && z.processes[i] == w.processes[i];
      }
      var rest := AllLanesFinish(job, start, z, n + 1);
      RunConcat(job, w, mine, rest);
      actions := mine + rest;
    }
  }

  /** The parent takes what the lanes have sent. */
  lemma {:induction false} AwaitAll(job: Job, w: World) returns (actions: seq<Action>)
    requires Orders(job.order) && |w.processes| == |job.lanes| && |w.notes| <= |job.lanes|
    requires forall i :: 0 <= i < |job.lanes| ==> w.processes[i].Reported?
    ensures var z := Run(job, w, actions);
            && z.processes == w.processes && |z.notes| == |job.lanes| && w.notes <= z.notes
            && forall i :: |w.notes| <= i < |job.lanes| ==> (z.notes[i].Got? <==> w.processes[i].result.Consumed?)
    decreases |job.lanes| - |w.notes|
  {
    actions := [];
    if |w.notes| < |job.lanes| {
      var z := Step(job, w, Receive);
      RunOnce(job, w, Receive);
      var rest := AwaitAll(job, z);
      RunConcat(job, w, [Receive], rest);
      actions := [Receive] + rest;
    }
  }

  /** A flow none of whose handlers raises has a run in which every lane reports its
      counters and the parent takes them all; so what is said of clean runs is said of
      something. */
  lemma {:induction false} CleanRunExists(f: Flow, rt: Runtime) returns (actions: seq<Action>)
    requires Started(f, rt)
    requires forall e :: e in LfeFlow.Begin(f, rt).1.value && f.work.decode(e).Some? ==>
               !f.work.handler(f.work.decode(e).value, e).Raises?
    ensures var w := After(f, rt, actions);
            AllConsumed(w) && AllGot(w.notes) && |w.notes| == |LaneJob(f, LfeFlow.Begin(f, rt).1.value).lanes|
  {
    var (after, r) := LfeFlow.Begin(f, rt);
    var job := LaneJob(f, r.value);
    var w := Start(job, after.reserved);
    StartIsGood(job, after.reserved);
    var work := AllLanesFinish(job, after.reserved, w, 0);
    var z := Run(job, w, work);
    forall i: nat | i < |job.lanes| ensures z.processes[i].Reported? && z.processes[i].result.Consumed? {
      assert Finished(job, z, i);
      LaneIsCalm(f, rt, i);
    }
    var rest := AwaitAll(job, z);
    RunConcat(job, w, work, rest);
    actions := work + rest;
  }

  /** The lanes hold selected envelopes, which have their ids. */
  lemma {:induction false} LaneIsCalm(f: Flow, rt: Runtime, i: nat)
    requires Started(f, rt) && i < |LaneJob(f, LfeFlow.Begin(f, rt).1.value).lanes|
    requires forall e :: e in LfeFlow.Begin(f, rt).1.value ==> !Raising(f.work, e)
    ensures var es := LaneJob(f, LfeFlow.Begin(f, rt).1.value).lanes[i].1;
            NoneRaises(f.work, es) && HaveIds(Handled(f.work, es))
  {
    LatestReleasesSuperseded(rt, f.batch, f.coalesceKey, f.order, f.limit);
    PartitionLane(LfeFlow.Begin(f, rt).1.value, LaneOf(f.laneKey, f.hash, f.laneCount), f.order, i);
    var es := LaneJob(f, LfeFlow.Begin(f, rt).1.value).lanes[i].1;
    var handled := Handled(f.work, es);
    forall k | 0 <= k < |handled| ensures EnvelopeAck(handled[k]).Ok? {
      assert handled[k] in handled && handled[k] in es;
      LaneIsOfBatch(f, rt, i, handled[k]);
      var j :| 0 <= j < |f.batch| && f.batch[j] == handled[k];
    }
  }
}
