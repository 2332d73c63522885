/** Decode-late kernels and folds over one batch (wiregrid_kernel, wiregrid_fold). */
module LfeKernel {
  import opened Options
  import opened Sequences
  import opened LfeAcks

  /** What a handler of a kernel returns; raising is data here. */
  datatype Handling = Done | Drop | DoneWith(value: Term) | NotDone(value: Term)

  /** What a selector answers from the metadata alone; anything else, and raising,
      is a failure. */
  datatype Choice = AckOnly | KeepIt | Handle(handler: (Term, Envelope) -> Handling) | NoHandler | Reject(reason: Term)

  datatype Kernel = Kernel(decode: Envelope -> Option<Term>, selector: Envelope -> Choice)

  /** What becomes of one envelope. */
  datatype Fate = Handled | Acknowledged | Kept | Failed

  /** The selector names a handler, the envelope can be decoded, and the handler returns
      ok, drop or {ok, _}. */
  predicate IsHandled(k: Kernel, e: Envelope) {
    && k.selector(e).Handle? && k.decode(e).Some?
    && !k.selector(e).handler(k.decode(e).value, e).NotDone?
  }

  predicate Fails(k: Kernel, e: Envelope) {
    !k.selector(e).AckOnly? && !k.selector(e).KeepIt? && !IsHandled(k, e)
  }

  /** What the selector and the handler have to answer for a fate. */
  predicate Deserves(k: Kernel, e: Envelope, f: Fate) {
    match f
    case Handled => IsHandled(k, e)
    case Acknowledged => k.selector(e).AckOnly?
    case Kept => k.selector(e).KeepIt?
    case Failed => Fails(k, e)
  }

  function FateOf(k: Kernel, e: Envelope): (f: Fate)
    ensures forall g :: Deserves(k, e, g) <==> g == f
  {
    match k.selector(e)
    case AckOnly => Acknowledged
    case KeepIt => Kept
    case Handle(handler) =>
      (match k.decode(e)
       case None => Failed
       case Some(event) => if handler(event, e).NotDone? then Failed else Handled)
    case NoHandler => Failed
    case Reject(_) => Failed
  }

  predicate Consumes(f: Fate) { f == Handled || f == Acknowledged }

  datatype Tally = Tally(handled: nat, ackOnly: nat, kept: nat, failed: nat)

  function Count(t: Tally, f: Fate): Tally {
    match f
    case Handled => t.(handled := t.handled + 1)
    case Acknowledged => t.(ackOnly := t.ackOnly + 1)
    case Kept => t.(kept := t.kept + 1)
    case Failed => t.(failed := t.failed + 1)
  }

  function Total(t: Tally): nat { t.handled + t.ackOnly + t.kept + t.failed }

  /** consume-loop: every envelope is tried. */
  function ConsumeLoop(k: Kernel, es: seq<Envelope>, successful: seq<Envelope>, t: Tally): (seq<Envelope>, Tally)
    decreases |es|
  {
    if es == [] then (Reverse(successful), t)
    else
      var f := FateOf(k, es[0]);
      ConsumeLoop(k, es[1..], if Consumes(f) then [es[0]] + successful else successful, Count(t, f))
  }

  /** The envelopes to acknowledge: handled, or acknowledged undecoded. */
  function Consumed(k: Kernel, es: seq<Envelope>): (r: seq<Envelope>)
    ensures forall e :: e in r <==> e in es && (k.selector(e).AckOnly? || IsHandled(k, e))
  {
    if es == [] then []
    else
      assert es == [es[0]] + es[1..];
      (if k.selector(es[0]).AckOnly? || IsHandled(k, es[0]) then [es[0]] else []) + Consumed(k, es[1..])
  }

  ghost function FateCount(k: Kernel, es: seq<Envelope>, f: Fate): nat {
    if es == [] then 0 else (if Deserves(k, es[0], f) then 1 else 0) + FateCount(k, es[1..], f)
  }

  /** The count is the number of positions. */
  lemma {:induction false} FateCountIs(k: Kernel, es: seq<Envelope>, f: Fate)
    ensures FateCount(k, es, f) == |set i: nat | i < |es| && Deserves(k, es[i], f)|
    decreases |es|
  {
    if es != [] {
      var rest := es[1..];
      FateCountIs(k, rest, f);
      var here, there := set i: nat | i < |es| && Deserves(k, es[i], f), set i: nat | i < |rest| && Deserves(k, rest[i], f);
      SameSize(there, here - {0});
    }
  }

  /** Counting from one instead of zero. */
  lemma {:induction false} SameSize(a: set<nat>, b: set<nat>)
    requires forall y: nat :: y in b <==> y >= 1 && y - 1 in a
    ensures |a| == |b|
    decreases |a|
  {
    if a != {} {
      var x :| x in a;
      assert x + 1 in b;
      SameSize(a - {x}, b - {x + 1});
    } else {
      assert b == {};
    }
  }

  /** The loop acknowledges exactly what was handled or acknowledged undecoded, in
      order, and its four counters are the four fates. */
  lemma {:induction false} LoopSorts(k: Kernel, es: seq<Envelope>, successful: seq<Envelope>, t: Tally)
    ensures var (acks, u) := ConsumeLoop(k, es, successful, t);
            && acks == Reverse(successful) + Consumed(k, es)
            && Total(u) == Total(t) + |es|
            && u == Tally(t.handled + FateCount(k, es, Handled), t.ackOnly + FateCount(k, es, Acknowledged),
                          t.kept + FateCount(k, es, Kept), t.failed + FateCount(k, es, Failed))
    decreases |es|
  {
    if es == [] {
      assert Reverse(successful) + [] == Reverse(successful);
    } else {
      var f := FateOf(k, es[0]);
      LoopSorts(k, es[1..], if Consumes(f) then [es[0]] + successful else successful, Count(t, f));
      if Consumes(f) {
        ReverseCons(es[0], successful);
        Assoc(Reverse(successful), [es[0]], Consumed(k, es[1..]));
      }
    }
  }

  // ---- acknowledging at the end ----

  /** finish: nothing to acknowledge is no call at all. */
  ghost function Acknowledge(rt: Runtime, acks: seq<Envelope>, order: Order): (Runtime, Result<Counts>)
    requires Orders(order)
  {
    if acks == [] then (rt, Ok(Counts(0, 0))) else AckGrouped(rt, acks, order)
  }

  lemma {:induction false} AcknowledgeReleases(rt: Runtime, acks: seq<Envelope>, order: Order)
    requires Orders(order)
    ensures var (after, r) := Acknowledge(rt, acks, order);
            && rt.reserved - PairsOf(acks) <= after.reserved <= rt.reserved
            && (r.Ok? ==> after.reserved == rt.reserved - PairsOf(acks)
                          && r.value.acked + r.value.unknown == |acks|)
  {
    if acks != [] {
      AckGroupedReleases(rt, acks, order);
    }
  }

  /** wiregrid_kernel:consume. */
  ghost function Consume(rt: Runtime, k: Kernel, es: seq<Envelope>, order: Order, limit: nat)
    : (Runtime, Result<(Tally, Counts)>)
    requires Orders(order)
  {
    if BoundedList(es, limit).Error? then (rt, Error(BatchTooLarge))
    else
      var (acks, t) := ConsumeLoop(k, es, [], Tally(0, 0, 0, 0));
      var (after, r) := Acknowledge(rt, acks, order);
      (after, match r case Ok(c) => Ok((t, c)) case Error(e) => Error(e))
  }

  /** A kernel releases exactly what it consumed: kept and failed envelopes stay
      reserved; every envelope is counted once. */
  lemma {:induction false} KernelReleasesConsumed(rt: Runtime, k: Kernel, es: seq<Envelope>, order: Order, limit: nat)
    requires Orders(order)
    ensures var (after, r) := Consume(rt, k, es, order, limit);
            && rt.reserved - PairsOf(Consumed(k, es)) <= after.reserved <= rt.reserved
            && (|es| > limit ==> after == rt && r == Error(BatchTooLarge))
            && (r.Ok? ==>
                  && |es| <= limit && after.reserved == rt.reserved - PairsOf(Consumed(k, es))
                  && Total(r.value.0) == |es|
                  && r.value.0.kept == FateCount(k, es, Kept) && r.value.0.failed == FateCount(k, es, Failed)
                  && r.value.1.acked + r.value.1.unknown == |Consumed(k, es)|)
  {
    BoundedExactly(es, limit);
    LoopSorts(k, es, [], Tally(0, 0, 0, 0));
    assert Reverse<Envelope>([]) + Consumed(k, es) == Consumed(k, es);
    AcknowledgeReleases(rt, Consumed(k, es), order);
  }

  // ---- ordered consumption ----

  datatype OrderedEnd =
    | AllDone(t: Tally, acks: Counts)
    | Stopped(t: Tally, remaining: nat, acks: Counts)
    | AckFailed(t: Tally, remaining: nat)
    | Rejected

  /** consume-ordered-loop: up to the first failure. */
  function OrderedLoop(k: Kernel, es: seq<Envelope>, successful: seq<Envelope>, t: Tally): (seq<Envelope>, Tally, nat)
    decreases |es|
  {
    if es == [] then (Reverse(successful), t, 0)
    else
      var f := FateOf(k, es[0]);
      if f == Failed then (Reverse(successful), t, 1 + |es[1..]|)
      else OrderedLoop(k, es[1..], if Consumes(f) then [es[0]] + successful else successful, Count(t, f))
  }

  /** wiregrid_kernel:consume-ordered. */
  ghost function ConsumeOrdered(rt: Runtime, k: Kernel, es: seq<Envelope>, order: Order, limit: nat): (Runtime, OrderedEnd)
    requires Orders(order)
  {
    if BoundedList(es, limit).Error? then (rt, Rejected)
    else
      var (acks, t, remaining) := OrderedLoop(k, es, [], Tally(0, 0, 0, 0));
      var (after, r) := Acknowledge(rt, acks, order);
      (after, FinishOrdered(t, remaining, r))
  }

  /** finish-ordered and ordered-result. */
  function FinishOrdered(t: Tally, remaining: nat, r: Result<Counts>): OrderedEnd {
    match r
    case Error(_) => AckFailed(t, remaining)
    case Ok(c) => if remaining == 0 then AllDone(t, c) else Stopped(t, remaining, c)
  }

  /** n is where the first failure stands, or the end. */
  ghost predicate FailsFirstAt(k: Kernel, es: seq<Envelope>, n: nat) {
    && n <= |es|
    && (forall i :: 0 <= i < n ==> !Fails(k, es[i]))
    && (n < |es| ==> Fails(k, es[n]))
  }

  /** There always is such a place. */
  function FirstFailure(k: Kernel, es: seq<Envelope>): (n: nat)
    ensures FailsFirstAt(k, es, n)
  {
    if es == [] || Fails(k, es[0]) then 0
    else
      var n := FirstFailure(k, es[1..]);
      assert forall i :: 1 <= i <= n && i < |es| ==> es[i] == es[1..][i - 1];
      n + 1
  }

  /** Up to the first failure the ordered loop is the loop over the part before it. */
  lemma {:induction false} OrderedIsLoop(k: Kernel, es: seq<Envelope>, successful: seq<Envelope>, t: Tally, n: nat)
    requires FailsFirstAt(k, es, n)
    ensures var (acks, u) := ConsumeLoop(k, es[..n], successful, t);
            OrderedLoop(k, es, successful, t) == (acks, u, |es| - n)
    decreases |es|
  {
    if n > 0 {
      var f, rest := FateOf(k, es[0]), es[1..];
      forall i | 0 <= i < n - 1 ensures !Fails(k, rest[i]) {
        assert rest[i] == es[i + 1];
      }
      assert es[..n][0] == es[0] && es[..n][1..] == rest[..n - 1];
      OrderedIsLoop(k, rest, if Consumes(f) then [es[0]] + successful else successful, Count(t, f), n - 1);
    }
  }

  lemma {:induction false} NoneFail(k: Kernel, es: seq<Envelope>)
    requires forall i :: 0 <= i < |es| ==> !Fails(k, es[i])
    ensures FateCount(k, es, Failed) == 0
    decreases |es|
  {
    if es != [] {
      forall i | 0 <= i < |es[1..]| ensures !Fails(k, es[1..][i]) {
        assert es[1..][i] == es[i + 1];
      }
      NoneFail(k, es[1..]);
    }
  }

  lemma {:induction false} OrderedLoopStops(k: Kernel, es: seq<Envelope>, successful: seq<Envelope>, t: Tally, n: nat)
    requires FailsFirstAt(k, es, n)
    ensures var (acks, u, remaining) := OrderedLoop(k, es, successful, t);
            && acks == Reverse(successful) + Consumed(k, es[..n])
            && Total(u) == Total(t) + n && u.failed == t.failed
            && u.handled == t.handled + FateCount(k, es[..n], Handled)
            && u.ackOnly == t.ackOnly + FateCount(k, es[..n], Acknowledged)
            && u.kept == t.kept + FateCount(k, es[..n], Kept)
            && remaining == |es| - n
  {
    hide OrderedLoop, ConsumeLoop, Consumed, FateCount, Reverse;
    OrderedIsLoop(k, es, successful, t, n);
    LoopSorts(k, es[..n], successful, t);
    NoneFail(k, es[..n]);
  }

  /** The end of an ordered call over the part before the first failure and a rest. */
  ghost predicate OrderedOutcome(rt: Runtime, after: Runtime, end: OrderedEnd, k: Kernel, part: seq<Envelope>, rest: nat) {
    var gone := PairsOf(Consumed(k, part));
    && rt.reserved - gone <= after.reserved <= rt.reserved
    && match end
       case AllDone(t, _) => rest == 0 && OrderedTally(t, k, part) && after.reserved == rt.reserved - gone
       case Stopped(t, remaining, _) =>
         remaining == rest > 0 && OrderedTally(t, k, part) && after.reserved == rt.reserved - gone
       case AckFailed(t, remaining) => remaining == rest && OrderedTally(t, k, part)
       case Rejected => false
  }

  ghost predicate OrderedTally(t: Tally, k: Kernel, part: seq<Envelope>) {
    && t == Tally(FateCount(k, part, Handled), FateCount(k, part, Acknowledged), FateCount(k, part, Kept), 0)
    && Total(t) == |part|
  }

  lemma OrderedEnds(rt: Runtime, after: Runtime, r: Result<Counts>, k: Kernel, part: seq<Envelope>, t: Tally, rest: nat)
    requires rt.reserved - PairsOf(Consumed(k, part)) <= after.reserved <= rt.reserved
    requires r.Ok? ==> after.reserved == rt.reserved - PairsOf(Consumed(k, part))
    requires OrderedTally(t, k, part)
    ensures OrderedOutcome(rt, after, FinishOrdered(t, rest, r), k, part, rest)
  {
  }

  /** Ordered consumption: counters and remainder add up to the batch, exactly the
      consumed envelopes before the first failure are released, and it reports full
      success exactly when there was no failure and nothing refused. */
  lemma {:induction false} OrderedReleasesPrefix(rt: Runtime, k: Kernel, es: seq<Envelope>, order: Order,
                                                 limit: nat, n: nat)
    requires Orders(order) && FailsFirstAt(k, es, n) && |es| <= limit
    ensures OrderedOutcome(rt, ConsumeOrdered(rt, k, es, order, limit).0, ConsumeOrdered(rt, k, es, order, limit).1,
                           k, es[..n], |es| - n)
  {
    BoundedExactly(es, limit);
    OrderedLoopStops(k, es, [], Tally(0, 0, 0, 0), n);
    var acks := Consumed(k, es[..n]);
    assert Reverse<Envelope>([]) + acks == acks;
    AcknowledgeReleases(rt, acks, order);
    var (after, r) := Acknowledge(rt, acks, order);
    OrderedEnds(rt, after, r, k, es[..n], OrderedLoop(k, es, [], Tally(0, 0, 0, 0)).1, |es| - n);
  }

  // ---- envelope by envelope ----

  /** In a batch without duplicate ids the envelope at i is consumed or not by itself. */
  lemma ConsumedPair(k: Kernel, es: seq<Envelope>, part: seq<Envelope>, i: nat)
    requires DistinctPairs(es) && part <= es && i < |es|
    ensures EnvelopeAck(es[i]).value in PairsOf(Consumed(k, part))
            <==> i < |part| && (k.selector(es[i]).AckOnly? || IsHandled(k, es[i]))
  {
    var all := Consumed(k, part);
    if EnvelopeAck(es[i]).value in PairsOf(all) {
      var a :| 0 <= a < |all| && EnvelopeAck(all[a]) == EnvelopeAck(es[i]);
      assert all[a] in all;
      var j :| 0 <= j < |part| && part[j] == all[a];
      assert es[j] == part[j] && i == j;
    }
    if i < |part| && (k.selector(es[i]).AckOnly? || IsHandled(k, es[i])) {
      assert part[i] == es[i] && es[i] in all;
      var a :| 0 <= a < |all| && all[a] == es[i];
    }
  }

  /** What becomes of one reserved delivery, told by what the selector and the handler
      answer for it. */
  lemma {:induction false} KernelDecides(rt: Runtime, k: Kernel, es: seq<Envelope>, order: Order, limit: nat, i: nat)
    requires Orders(order) && DistinctPairs(es) && i < |es| && EnvelopeAck(es[i]).value in rt.reserved
    ensures var (after, r) := Consume(rt, k, es, order, limit);
            var reserved := EnvelopeAck(es[i]).value in after.reserved;
            match k.selector(es[i])
            case KeepIt => reserved
            case NoHandler => reserved
            case Reject(_) => reserved
            case AckOnly => r.Ok? ==> !reserved
            case Handle(handler) =>
              match k.decode(es[i])
              case None => reserved
              case Some(event) =>
                if handler(event, es[i]).NotDone? then reserved else r.Ok? ==> !reserved
  {
    KernelReleasesConsumed(rt, k, es, order, limit);
    ConsumedPair(k, es, es, i);
  }

  lemma AckOnlyCount(k: Kernel, es: seq<Envelope>)
    ensures FateCount(k, es, Acknowledged) == |set i: nat | i < |es| && k.selector(es[i]).AckOnly?|
  {
    FateCountIs(k, es, Acknowledged);
    assert (set i: nat | i < |es| && Deserves(k, es[i], Acknowledged)) == set i: nat | i < |es| && k.selector(es[i]).AckOnly?;
  }

  lemma KeptCount(k: Kernel, es: seq<Envelope>)
    ensures FateCount(k, es, Kept) == |set i: nat | i < |es| && k.selector(es[i]).KeepIt?|
  {
    FateCountIs(k, es, Kept);
    assert (set i: nat | i < |es| && Deserves(k, es[i], Kept)) == set i: nat | i < |es| && k.selector(es[i]).KeepIt?;
  }

  lemma HandledCount(k: Kernel, es: seq<Envelope>)
    ensures FateCount(k, es, Handled)
            == |set i: nat | i < |es| && k.selector(es[i]).Handle? && k.decode(es[i]).Some?
                             && !k.selector(es[i]).handler(k.decode(es[i]).value, es[i]).NotDone?|
  {
    FateCountIs(k, es, Handled);
    assert (set i: nat | i < |es| && Deserves(k, es[i], Handled))
        == set i: nat | i < |es| && k.selector(es[i]).Handle? && k.decode(es[i]).Some?
                        && !k.selector(es[i]).handler(k.decode(es[i]).value, es[i]).NotDone?;
  }

  /** The four counters of a kernel, told by the answers. */
  lemma {:induction false} KernelCounts(rt: Runtime, k: Kernel, es: seq<Envelope>, order: Order, limit: nat)
    requires Orders(order) && Consume(rt, k, es, order, limit).1.Ok?
    ensures var t := Consume(rt, k, es, order, limit).1.value.0;
            && t.ackOnly == |set i: nat | i < |es| && k.selector(es[i]).AckOnly?|
            && t.kept == |set i: nat | i < |es| && k.selector(es[i]).KeepIt?|
            && t.handled == |set i: nat | i < |es| && k.selector(es[i]).Handle? && k.decode(es[i]).Some?
                              && !k.selector(es[i]).handler(k.decode(es[i]).value, es[i]).NotDone?|
            && t.handled + t.ackOnly + t.kept + t.failed == |es|
  {
    hide ConsumeLoop, Acknowledge, Consumed, Reverse, BoundedList, FateCount;
    LoopSorts(k, es, [], Tally(0, 0, 0, 0));
    AckOnlyCount(k, es);
    KeptCount(k, es);
    HandledCount(k, es);
  }

  /** A kernel is refused exactly when the batch is too long or an envelope to be
      acknowledged lacks an id, unless the runtime refuses. */
  lemma {:induction false} KernelSucceeds(rt: Runtime, k: Kernel, es: seq<Envelope>, order: Order, limit: nat)
    requires Orders(order) && Willing(rt)
    ensures Consume(rt, k, es, order, limit).1.Ok? <==> |es| <= limit && HaveIds(Consumed(k, es))
  {
    hide ConsumeLoop, AckGrouped, Consumed, Reverse, BoundedList, FateCount, Willing;
    BoundedExactly(es, limit);
    LoopSorts(k, es, [], Tally(0, 0, 0, 0));
    assert Reverse<Envelope>([]) + Consumed(k, es) == Consumed(k, es);
    WillingAckGrouped(rt, Consumed(k, es), order);
  }

  /** Nothing from the first failure on was acknowledged, and a handler that fails, a
      payload that cannot be decoded or a selector that names nothing is a failure. */
  ghost predicate StopsAt(k: Kernel, es: seq<Envelope>, n: nat) {
    && n <= |es|
    && (forall i :: 0 <= i < n ==>
          || k.selector(es[i]).AckOnly? || k.selector(es[i]).KeepIt?
          || (k.selector(es[i]).Handle? && k.decode(es[i]).Some?
              && !k.selector(es[i]).handler(k.decode(es[i]).value, es[i]).NotDone?))
    && (n < |es| ==>
          || k.selector(es[n]).NoHandler? || k.selector(es[n]).Reject?
          || (k.selector(es[n]).Handle? &&
                (k.decode(es[n]).None? || k.selector(es[n]).handler(k.decode(es[n]).value, es[n]).NotDone?)))
  }

  /** The same for ordered consumption: n is where it stops. */
  lemma {:induction false} OrderedDecides(rt: Runtime, k: Kernel, es: seq<Envelope>, order: Order, limit: nat, n: nat, i: nat)
    requires Orders(order) && DistinctPairs(es) && |es| <= limit && StopsAt(k, es, n)
    requires i < |es| && EnvelopeAck(es[i]).value in rt.reserved
    ensures var (after, end) := ConsumeOrdered(rt, k, es, order, limit);
            var reserved := EnvelopeAck(es[i]).value in after.reserved;
            && (i >= n || k.selector(es[i]).KeepIt? ==> reserved)
            && (i < n && !k.selector(es[i]).KeepIt? && !end.AckFailed? ==> !reserved)
            && (end.AllDone? ==> n == |es|) && (end.Stopped? ==> n < |es| && end.remaining == |es| - n)
  {
    assert FailsFirstAt(k, es, n);
    OrderedReleasesPrefix(rt, k, es, order, limit, n);
    ConsumedPair(k, es, es[..n], i);
  }

  /** Ordered consumption reports full success exactly when nothing fails, unless the
      runtime refuses or an id is missing. */
  lemma {:induction false} OrderedSucceeds(rt: Runtime, k: Kernel, es: seq<Envelope>, order: Order, limit: nat, n: nat)
    requires Orders(order) && Willing(rt) && StopsAt(k, es, n) && |es| <= limit && HaveIds(Consumed(k, es[..n]))
    ensures var end := ConsumeOrdered(rt, k, es, order, limit).1;
            if n == |es| then end.AllDone? else end.Stopped?
  {
    hide OrderedLoop, AckGrouped, Consumed, Reverse, BoundedList, FateCount, Willing;
    assert FailsFirstAt(k, es, n);
    BoundedExactly(es, limit);
    OrderedLoopStops(k, es, [], Tally(0, 0, 0, 0), n);
    var acks := Consumed(k, es[..n]);
    assert Reverse<Envelope>([]) + acks == acks;
    WillingAckGrouped(rt, acks, order);
  }

  /** From the first failure on, a batch without duplicate ids stays reserved. */
  lemma {:induction false} SuffixStaysReserved(rt: Runtime, k: Kernel, es: seq<Envelope>, order: Order,
                                               limit: nat, n: nat, i: nat)
    requires Orders(order) && FailsFirstAt(k, es, n) && |es| <= limit && DistinctPairs(es)
    requires n <= i < |es| && EnvelopeAck(es[i]).value in rt.reserved
    ensures EnvelopeAck(es[i]).value in ConsumeOrdered(rt, k, es, order, limit).0.reserved
  {
    OrderedReleasesPrefix(rt, k, es, order, limit, n);
    var gone := Consumed(k, es[..n]);
    forall j | 0 <= j < |gone| ensures EnvelopeAck(gone[j]) != EnvelopeAck(es[i]) {
      assert gone[j] in es[..n];
      var m :| 0 <= m < n && es[m] == gone[j];
    }
  }
}
