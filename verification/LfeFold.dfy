/** Stateful folds over one batch (wiregrid_fold). */
module LfeFold {
  import opened Options
  import opened Sequences
  import opened LfeAcks
  import opened LfeKernel

  /** What a reducer returns; a reducer that raises takes the whole call with it. */
  datatype Reduced<A> = Next(value: A) | DropIt | DropWith(value: A) | Stop(reason: Term) | Raise

  datatype Fold<!A> = Fold(decode: Envelope -> Option<Term>, reducer: (Term, Envelope, A) -> Reduced<A>)

  /** One envelope: the new accumulator, a failure, or a crash. */
  datatype StepResult<A> = Go(value: A) | Halt | Boom

  function StepOf<A>(f: Fold<A>, e: Envelope, acc: A): StepResult<A> {
    match f.decode(e)
    case None => Halt
    case Some(event) =>
      match f.reducer(event, e, acc)
      case Next(v) => Go(v)
      case DropIt => Go(acc)
      case DropWith(v) => Go(v)
      case Stop(_) => Halt
      case Raise => Boom
  }

  datatype LoopEnd<A> = Ended(value: A, acks: seq<Envelope>, handled: nat, remaining: nat) | Aborted

  /** fold-loop. */
  function FoldLoop<A>(f: Fold<A>, es: seq<Envelope>, acc: A, successful: seq<Envelope>, handled: nat): LoopEnd<A>
    decreases |es|
  {
    if es == [] then Ended(acc, Reverse(successful), handled, 0)
    else match StepOf(f, es[0], acc)
      case Go(next) => FoldLoop(f, es[1..], next, [es[0]] + successful, handled + 1)
      case Halt => Ended(acc, Reverse(successful), handled, 1 + |es[1..]|)
      case Boom => Aborted
  }

  /** The plain left fold of the reducer's answers over a list, as long as every envelope
      can be decoded and every answer is {ok, _}, drop or {drop, _}. */
  ghost function PlainFold<A>(f: Fold<A>, es: seq<Envelope>, acc: A): Option<A> {
    if es == [] then Some(acc)
    else
      var e, before := es[|es| - 1], PlainFold(f, es[..|es| - 1], acc);
      if before.None? || f.decode(e).None? then None
      else
        match f.reducer(f.decode(e).value, e, before.value)
        case Next(v) => Some(v)
        case DropIt => before
        case DropWith(v) => Some(v)
        case Stop(_) => None
        case Raise => None
  }

  /** The fold goes on up to position n, and there, from the value so far, the envelope
      cannot be decoded or the reducer answers anything else. */
  ghost predicate HaltsAt<A>(f: Fold<A>, es: seq<Envelope>, acc: A, n: nat) {
    && n <= |es| && PlainFold(f, es[..n], acc).Some?
    && (n < |es| ==> f.decode(es[n]).None?
                     || f.reducer(f.decode(es[n]).value, es[n], PlainFold(f, es[..n], acc).value).Stop?)
  }

  ghost predicate RaisesAt<A>(f: Fold<A>, es: seq<Envelope>, acc: A, n: nat) {
    && n < |es| && PlainFold(f, es[..n], acc).Some? && f.decode(es[n]).Some?
    && f.reducer(f.decode(es[n]).value, es[n], PlainFold(f, es[..n], acc).value).Raise?
  }

  /** Every fold halts or raises somewhere. */
  lemma {:induction false} FoldEndsSomewhere<A>(f: Fold<A>, es: seq<Envelope>, acc: A, from: nat) returns (n: nat)
    requires from <= |es| && PlainFold(f, es[..from], acc).Some?
    ensures HaltsAt(f, es, acc, n) || RaisesAt(f, es, acc, n)
    decreases |es| - from
  {
    n := from;
    if from < |es| && StepOf(f, es[from], PlainFold(f, es[..from], acc).value).Go? {
      assert es[..from + 1][..from] == es[..from];
      n := FoldEndsSomewhere(f, es, acc, from + 1);
    }
  }

  lemma {:induction false} PlainFoldHead<A>(f: Fold<A>, es: seq<Envelope>, acc: A)
    requires es != []
    ensures PlainFold(f, es, acc)
            == match StepOf(f, es[0], acc) case Go(v) => PlainFold(f, es[1..], v) case _ => None
    decreases |es|
  {
    if |es| > 1 {
      var init, tail := es[..|es| - 1], es[1..];
      PlainFoldHead(f, init, acc);
      assert init[1..] == tail[..|tail| - 1];
    }
  }

  /** The loop stops where the plain fold halts, with the plain fold's value and
      exactly the envelopes before it. */
  lemma {:induction false} LoopIsPlainFold<A>(f: Fold<A>, es: seq<Envelope>, acc: A, successful: seq<Envelope>,
                                              handled: nat, n: nat)
    requires HaltsAt(f, es, acc, n)
    ensures FoldLoop(f, es, acc, successful, handled)
            == Ended(PlainFold(f, es[..n], acc).value, Reverse(successful) + es[..n], handled + n, |es| - n)
    decreases |es|
  {
    if n == 0 {
      assert Reverse(successful) + [] == Reverse(successful);
    } else {
      PlainFoldHead(f, es[..n], acc);
      var v, rest := StepOf(f, es[0], acc).value, es[1..];
      assert es[..n][1..] == rest[..n - 1];
      LoopIsPlainFold(f, rest, v, [es[0]] + successful, handled + 1, n - 1);
      ReverseCons(es[0], successful);
      assert es[..n] == [es[0]] + rest[..n - 1];
      Assoc(Reverse(successful), [es[0]], rest[..n - 1]);
    }
  }

  datatype FoldEnd<A> =
    | Complete(value: A, handled: nat, acks: Counts)
    | Partial(value: A, handled: nat, remaining: nat, acks: Counts)
    | AckFailed(value: A, handled: nat, remaining: nat)
    | Raised
    | Rejected

  /** wiregrid_fold:consume. */
  ghost function ConsumeFold<A>(rt: Runtime, f: Fold<A>, es: seq<Envelope>, acc: A, order: Order, limit: nat)
    : (Runtime, FoldEnd<A>)
    requires Orders(order)
  {
    if BoundedList(es, limit).Error? then (rt, FoldEnd.Rejected)
    else match FoldLoop(f, es, acc, [], 0)
      case Aborted => (rt, Raised)
      case Ended(v, acks, handled, remaining) =>
        var (after, r) := Acknowledge(rt, acks, order);
        (after, match r
                case Error(_) => FoldEnd.AckFailed(v, handled, remaining)
                case Ok(c) => if remaining == 0 then Complete(v, handled, c) else Partial(v, handled, remaining, c))
  }

  /** A fold's value is the plain left fold over its successful prefix, and exactly
      that prefix is released; the failing envelope and the rest stay. */
  lemma {:induction false} FoldIsPrefix<A>(rt: Runtime, f: Fold<A>, es: seq<Envelope>, acc: A, order: Order,
                                           limit: nat, n: nat)
    requires Orders(order) && HaltsAt(f, es, acc, n) && |es| <= limit
    ensures var (after, end) := ConsumeFold(rt, f, es, acc, order, limit);
            && !end.Rejected? && !end.Raised?
            && end.value == PlainFold(f, es[..n], acc).value && end.handled == n
            && (end.Complete? ==> n == |es|)
            && (end.Partial? ==> n < |es| && end.remaining == |es| - n)
            && (end.AckFailed? ==> end.remaining == |es| - n)
            && rt.reserved - PairsOf(es[..n]) <= after.reserved <= rt.reserved
            && (!end.AckFailed? ==> after.reserved == rt.reserved - PairsOf(es[..n]))
  {
    BoundedExactly(es, limit);
    LoopIsPlainFold(f, es, acc, [], 0, n);
    assert Reverse<Envelope>([]) + es[..n] == es[..n];
    AcknowledgeReleases(rt, es[..n], order);
  }

  // ---- step by step ----

  /** The envelope is decoded, and its reducer's answer leads from one value to the next. */
  ghost predicate Leads<A>(f: Fold<A>, e: Envelope, from: A, to: A) {
    && f.decode(e).Some?
    && match f.reducer(f.decode(e).value, e, from)
       case Next(v) => to == v
       case DropIt => to == from
       case DropWith(v) => to == v
       case Stop(_) => false
       case Raise => false
  }

  /** A run of values over the first envelopes. */
  ghost predicate Follows<A>(f: Fold<A>, es: seq<Envelope>, accs: seq<A>) {
    && 1 <= |accs| <= |es| + 1
    && forall i :: 0 <= i < |accs| - 1 ==> Leads(f, es[i], accs[i], accs[i + 1])
  }

  lemma {:induction false} FollowsIsFold<A>(f: Fold<A>, es: seq<Envelope>, accs: seq<A>, n: nat)
    requires Follows(f, es, accs) && n < |accs|
    ensures n <= |es| && PlainFold(f, es[..n], accs[0]) == Some(accs[n])
    decreases n
  {
    if n > 0 {
      FollowsIsFold(f, es, accs, n - 1);
      assert es[..n][..n - 1] == es[..n - 1];
    }
  }

  lemma {:induction false} FoldHasFollowed<A>(f: Fold<A>, es: seq<Envelope>, acc: A, n: nat) returns (accs: seq<A>)
    requires n <= |es| && PlainFold(f, es[..n], acc).Some?
    ensures |accs| == n + 1 && accs[0] == acc && Follows(f, es, accs)
    decreases n
  {
    accs := [acc];
    if n > 0 {
      assert es[..n][..n - 1] == es[..n - 1];
      var before := FoldHasFollowed(f, es, acc, n - 1);
      FollowsIsFold(f, es, before, n - 1);
      accs := before + [PlainFold(f, es[..n], acc).value];
      assert es[..n][n - 1] == es[n - 1];
      forall i | 0 <= i < n ensures Leads(f, es[i], accs[i], accs[i + 1]) {
        assert i < n - 1 ==> Leads(f, es[i], before[i], before[i + 1]);
      }
    }
  }

  /** A fold tells its value by the reducer's answers alone: it follows them envelope by
      envelope up to the first one that cannot be decoded or is answered with anything
      else; exactly the envelopes followed are released when the acknowledgement succeeds. */
  lemma {:induction false} FoldFollows<A>(rt: Runtime, f: Fold<A>, es: seq<Envelope>, accs: seq<A>, order: Order, limit: nat)
    requires Orders(order) && |es| <= limit && Follows(f, es, accs)
    requires var n := |accs| - 1;
             n < |es| ==> f.decode(es[n]).None? || f.reducer(f.decode(es[n]).value, es[n], accs[n]).Stop?
    ensures var (after, end) := ConsumeFold(rt, f, es, accs[0], order, limit);
            var n := |accs| - 1;
            && !end.Rejected? && !end.Raised? && end.value == accs[n] && end.handled == n
            && (end.Complete? ==> n == |es|) && (!end.Complete? ==> end.remaining == |es| - n)
            && rt.reserved - PairsOf(es[..n]) <= after.reserved <= rt.reserved
            && (!end.AckFailed? ==> after.reserved == rt.reserved - PairsOf(es[..n]))
  {
    FollowsIsFold(f, es, accs, |accs| - 1);
    FoldIsPrefix(rt, f, es, accs[0], order, limit, |accs| - 1);
  }

  /** Every fold has such a run, up to where it stops or raises. */
  lemma {:induction false} FoldRuns<A>(f: Fold<A>, es: seq<Envelope>, acc: A) returns (accs: seq<A>)
    ensures Follows(f, es, accs) && accs[0] == acc
    ensures var n := |accs| - 1;
            n < |es| && f.decode(es[n]).Some? ==>
              var answer := f.reducer(f.decode(es[n]).value, es[n], accs[n]); answer.Stop? || answer.Raise?
  {
    var n := FoldEndsSomewhere(f, es, acc, 0);
    accs := FoldHasFollowed(f, es, acc, n);
    FollowsIsFold(f, es, accs, n);
  }

  /** A fold over a batch within the limit ends complete exactly when nothing halts it,
      unless the runtime refuses or an id is missing. */
  lemma {:induction false} FoldSucceeds<A>(rt: Runtime, f: Fold<A>, es: seq<Envelope>, acc: A, order: Order,
                                           limit: nat, n: nat)
    requires Orders(order) && Willing(rt) && HaltsAt(f, es, acc, n) && HaveIds(es[..n])
    ensures var end := ConsumeFold(rt, f, es, acc, order, limit).1;
            if |es| > limit then end.Rejected? else if n == |es| then end.Complete? else end.Partial?
  {
    hide AckGrouped, PlainFold, BoundedList, Willing;
    BoundedExactly(es, limit);
    LoopIsPlainFold(f, es, acc, [], 0, n);
    assert Reverse<Envelope>([]) + es[..n] == es[..n];
    WillingAckGrouped(rt, es[..n], order);
  }

  /** A reducer that raises releases nothing, whatever it did before. */
  lemma {:induction false} RaisingReleasesNothing<A>(rt: Runtime, f: Fold<A>, es: seq<Envelope>, acc: A, order: Order,
                                                     limit: nat, n: nat)
    requires Orders(order) && |es| <= limit && RaisesAt(f, es, acc, n)
    ensures ConsumeFold(rt, f, es, acc, order, limit) == (rt, Raised)
  {
    BoundedExactly(es, limit);
    LoopCrashes(f, es, acc, [], 0, n);
  }

  lemma {:induction false} LoopCrashes<A>(f: Fold<A>, es: seq<Envelope>, acc: A, successful: seq<Envelope>,
                                          handled: nat, n: nat)
    requires RaisesAt(f, es, acc, n)
    ensures FoldLoop(f, es, acc, successful, handled) == Aborted
    decreases |es|
  {
    if n > 0 {
      PlainFoldHead(f, es[..n], acc);
      assert es[..n][1..] == es[1..][..n - 1];
      LoopCrashes(f, es[1..], StepOf(f, es[0], acc).value, [es[0]] + successful, handled + 1, n - 1);
    }
  }
}
