/** Envelopes, reservations and the grouped acknowledgement (wiregrid_fast). */
module LfeAcks {
  import opened Options
  import opened Sequences

  /** Any Erlang term, known only up to equality; one of them is the atom undefined. */
  datatype Term = Undefined | Term(name: nat)

  /** A delivery envelope: a map in which the session or the delivery id may be
      missing, and whose class is ephemeral or anything else. */
  datatype Envelope = Envelope(session: Option<Term>, delivery: Option<Term>, ephemeral: bool, payload: Term)

  /** What a reservation is known by. */
  datatype Pair = Pair(session: Term, delivery: Term)

  datatype Result<+V> = Ok(value: V) | Error(reason: Failure)

  datatype Failure =
    | MissingSession | MissingDelivery | EmptyBatch | BatchTooLarge
    | AckRefused(acked: nat, unknown: nat)
    | Crashed | InvalidLaneCount | InvalidLaneTimeout

  /** envelope-ack. */
  function EnvelopeAck(e: Envelope): Result<Pair> {
    match e.session
    case None => Error(MissingSession)
    case Some(s) =>
      match e.delivery
      case None => Error(MissingDelivery)
      case Some(d) => Ok(Pair(s, d))
  }

  ghost predicate HaveIds(es: seq<Envelope>) {
    forall i :: 0 <= i < |es| ==> EnvelopeAck(es[i]).Ok?
  }

  /** Every envelope has its ids and no two share them. */
  ghost predicate DistinctPairs(es: seq<Envelope>) {
    && HaveIds(es)
    && forall i, j :: 0 <= i < j < |es| ==> EnvelopeAck(es[i]) != EnvelopeAck(es[j])
  }

  ghost function PairsOf(es: seq<Envelope>): set<Pair> {
    set i | 0 <= i < |es| && EnvelopeAck(es[i]).Ok? :: EnvelopeAck(es[i]).value
  }

  ghost function Listed(session: Term, ids: seq<Term>): set<Pair> {
    set i | 0 <= i < |ids| :: Pair(session, ids[i])
  }

  // ---- the runtime ----

  /** How the runtime treats one ack_many: it grants it, or fails having released
      any part of what was listed. */
  datatype Mood = Grant | Fail(spared: set<Pair>)

  /** Outstanding reservations, and the moods to come; in the end it grants. */
  datatype Runtime = Runtime(reserved: set<Pair>, moods: seq<Mood>)

  datatype AckReply = Acked(acked: nat, unknown: seq<Term>) | Refused

  /** The ids of a list that are not reserved. */
  function Keep(ids: seq<Term>, session: Term, out: set<Pair>): (r: seq<Term>)
    ensures |r| <= |ids|
  {
    if ids == [] then []
    else (if Pair(session, ids[0]) in out then [] else [ids[0]]) + Keep(ids[1..], session, out)
  }

  /** ack_many: releases exactly the listed ids of that session. */
  ghost function AckMany(rt: Runtime, session: Term, ids: seq<Term>): (Runtime, AckReply) {
    var mood := if rt.moods == [] then Grant else rt.moods[0];
    var later := if rt.moods == [] then [] else rt.moods[1..];
    if ids == [] then (rt, Refused)
    else match mood
      case Grant =>
        var unknown := Keep(ids, session, rt.reserved);
        (Runtime(rt.reserved - Listed(session, ids), later), Acked(|ids| - |unknown|, unknown))
      case Fail(spared) =>
        (Runtime(rt.reserved - (Listed(session, ids) - spared), later), Refused)
  }

  lemma ReleasesOnlyListed(rt: Runtime, session: Term, ids: seq<Term>)
    ensures var (after, reply) := AckMany(rt, session, ids);
            && rt.reserved - Listed(session, ids) <= after.reserved <= rt.reserved
            && (reply.Acked? ==> after.reserved == rt.reserved - Listed(session, ids)
                                 && reply.acked + |reply.unknown| == |ids|)
  {
  }

  // ---- grouping ----

  /** The order in which an Erlang map lists its keys: any one, but fixed. */
  type Order = set<Term> -> seq<Term>

  ghost predicate Enumerates(keys: seq<Term>, s: set<Term>) {
    && (forall k :: k in keys <==> k in s)
    && Distinct(keys)
  }

  ghost predicate Orders(order: Order) {
    forall s :: Enumerates(order(s), s)
  }

  ghost function Listing(s: set<Term>): (r: seq<Term>)
    ensures Enumerates(r, s)
  {
    if s == {} then [] else
      var k :| k in s;
      var rest := Listing(s - {k});
      assert forall x :: x in [k] + rest <==> x == k || x in rest;
      [k] + rest
  }

  /** There are such orders. */
  lemma OrdersExist() returns (order: Order)
    ensures Orders(order)
  {
    order := s => Listing(s);
  }

  /** maps:to_list. */
  function ToList<V>(m: map<Term, V>, order: Order): (r: seq<(Term, V)>)
    requires Enumerates(order(m.Keys), m.Keys)
    ensures |r| == |order(m.Keys)|
    ensures forall i :: 0 <= i < |r| ==> r[i].0 == order(m.Keys)[i] && r[i].0 in m && r[i].1 == m[r[i].0]
  {
    var keys := order(m.Keys);
    assert forall i :: 0 <= i < |keys| ==> keys[i] in keys;
    seq(|keys|, i requires 0 <= i < |keys| => (keys[i], m[keys[i]]))
  }

  function At<V>(m: map<Term, seq<V>>, k: Term): seq<V> {
    if k in m then m[k] else []
  }

  function Reverse<T>(s: seq<T>): (r: seq<T>)
    ensures |r| == |s|
    ensures forall i :: 0 <= i < |s| ==> r[i] == s[|s| - 1 - i]
  {
    if s == [] then [] else Reverse(s[1..]) + [s[0]]
  }

  lemma {:induction false} ReverseTwice<T>(s: seq<T>)
    ensures Reverse(Reverse(s)) == s
  {
  }

  type Groups = map<Term, seq<Term>>

  /** collect-acks: newest id first, as the list is built by consing. */
  function CollectAcks(es: seq<Envelope>, grouped: Groups): Result<Groups>
    decreases |es|
  {
    if es == [] then Ok(grouped)
    else match EnvelopeAck(es[0])
      case Error(r) => Error(r)
      case Ok(p) => CollectAcks(es[1..], grouped[p.session := [p.delivery] + At(grouped, p.session)])
  }

  /** The delivery ids of one session, in order. */
  ghost function IdsOf(es: seq<Envelope>, session: Term): seq<Term> {
    if es == [] then []
    else (match EnvelopeAck(es[0])
          case Ok(p) => if p.session == session then [p.delivery] else []
          case Error(_) => []) + IdsOf(es[1..], session)
  }

  lemma HaveIdsStep(es: seq<Envelope>)
    requires es != []
    ensures HaveIds(es) <==> EnvelopeAck(es[0]).Ok? && HaveIds(es[1..])
  {
    if EnvelopeAck(es[0]).Ok? && HaveIds(es[1..]) {
      forall i | 0 <= i < |es| ensures EnvelopeAck(es[i]).Ok? {
        assert i > 0 ==> es[i] == es[1..][i - 1];
      }
    }
  }

  lemma {:induction false} GroupingSucceeds(es: seq<Envelope>, grouped: Groups)
    ensures CollectAcks(es, grouped).Ok? <==> HaveIds(es)
    decreases |es|
  {
    if es != [] {
      HaveIdsStep(es);
      if EnvelopeAck(es[0]).Ok? {
        var p := EnvelopeAck(es[0]).value;
        GroupingSucceeds(es[1..], grouped[p.session := [p.delivery] + At(grouped, p.session)]);
      }
    }
  }

  /** Grouping collects for every session its ids, once each occurrence, in reverse
      order; only sessions that occur get a group, and no group is empty. */
  lemma {:induction false} GroupedIds(es: seq<Envelope>, grouped: Groups, s: Term)
    requires CollectAcks(es, grouped).Ok?
    requires s in grouped ==> grouped[s] != []
    ensures var g := CollectAcks(es, grouped).value;
            && At(g, s) == Reverse(IdsOf(es, s)) + At(grouped, s)
            && (s in g ==> g[s] != [])
    decreases |es|
  {
    hide Reverse, EnvelopeAck;
    if es != [] {
      var p := EnvelopeAck(es[0]).value;
      var more := grouped[p.session := [p.delivery] + At(grouped, p.session)];
      GroupedIds(es[1..], more, s);
      if s == p.session {
        ReverseCons(p.delivery, IdsOf(es[1..], s));
        Assoc(Reverse(IdsOf(es[1..], s)), [p.delivery], At(grouped, s));
      } else {
        assert IdsOf(es, s) == IdsOf(es[1..], s);
      }
    }
  }

  lemma ReverseCons<T>(x: T, s: seq<T>)
    ensures Reverse([x] + s) == Reverse(s) + [x]
  {
    assert ([x] + s)[1..] == s;
  }

  /** ack-groups: one ack_many per session, until one is refused. */
  ghost function AckGroups(rt: Runtime, groups: seq<(Term, seq<Term>)>, acked: nat, unknown: nat)
    : (Runtime, Result<Counts>)
    decreases |groups|
  {
    if groups == [] then (rt, Ok(Counts(acked, unknown)))
    else
      var (session, ids) := groups[0];
      var (after, reply) := AckMany(rt, session, Reverse(ids));
      match reply
      case Acked(a, u) => AckGroups(after, groups[1..], acked + a, unknown + |u|)
      case Refused => (after, Error(AckRefused(acked, unknown)))
  }

  datatype Counts = Counts(acked: nat, unknown: nat)

  ghost function GroupPairs(groups: seq<(Term, seq<Term>)>): set<Pair> {
    if groups == [] then {} else Listed(groups[0].0, groups[0].1) + GroupPairs(groups[1..])
  }

  ghost function GroupSizes<U>(groups: seq<(Term, seq<U>)>): nat {
    if groups == [] then 0 else |groups[0].1| + GroupSizes(groups[1..])
  }

  lemma ListedReverse(session: Term, ids: seq<Term>)
    ensures Listed(session, Reverse(ids)) == Listed(session, ids)
  {
    var r := Reverse(ids);
    forall p | p in Listed(session, ids) ensures p in Listed(session, r) {
      var i :| 0 <= i < |ids| && p == Pair(session, ids[i]);
      assert r[|ids| - 1 - i] == ids[i];
    }
  }

  lemma {:induction false} AckGroupsReleases(rt: Runtime, groups: seq<(Term, seq<Term>)>, acked: nat, unknown: nat)
    ensures var (after, r) := AckGroups(rt, groups, acked, unknown);
            && rt.reserved - GroupPairs(groups) <= after.reserved <= rt.reserved
            && (r.Ok? ==> after.reserved == rt.reserved - GroupPairs(groups)
                          && r.value.acked + r.value.unknown == acked + unknown + GroupSizes(groups))
    decreases |groups|
  {
    hide AckMany, Listed, Reverse;
    if groups != [] {
      var (session, ids) := groups[0];
      ListedReverse(session, ids);
      ReleasesOnlyListed(rt, session, Reverse(ids));
      var (after, reply) := AckMany(rt, session, Reverse(ids));
      match reply
      case Acked(a, u) => AckGroupsReleases(after, groups[1..], acked + a, unknown + |u|);
      case Refused =>
    }
  }

  /** ack-grouped: group by session, then acknowledge group by group. */
  ghost function AckGrouped(rt: Runtime, es: seq<Envelope>, order: Order): (Runtime, Result<Counts>)
    requires Orders(order)
  {
    match CollectAcks(es, map[])
    case Error(r) => (rt, Error(r))
    case Ok(groups) => AckGroups(rt, ToList(groups, order), 0, 0)
  }

  lemma {:induction false} InGroups(groups: seq<(Term, seq<Term>)>, p: Pair)
    ensures p in GroupPairs(groups)
            <==> exists i :: 0 <= i < |groups| && groups[i].0 == p.session && p.delivery in groups[i].1
    decreases |groups|
  {
    if groups != [] {
      InGroups(groups[1..], p);
      assert p in Listed(groups[0].0, groups[0].1) <==> groups[0].0 == p.session && p.delivery in groups[0].1;
      if i :| 0 <= i < |groups| && groups[i].0 == p.session && p.delivery in groups[i].1 {
        assert i > 0 ==> groups[1..][i - 1] == groups[i];
      }
    }
  }

  lemma {:induction false} InPairs(es: seq<Envelope>, p: Pair)
    ensures p in PairsOf(es) <==> p.delivery in IdsOf(es, p.session)
    decreases |es|
  {
    if es != [] {
      InPairs(es[1..], p);
      if p in PairsOf(es[1..]) {
        var i :| 0 <= i < |es[1..]| && EnvelopeAck(es[1..][i]) == Ok(p);
        assert es[i + 1] == es[1..][i];
      }
      if p in PairsOf(es) {
        var i :| 0 <= i < |es| && EnvelopeAck(es[i]) == Ok(p);
        assert i > 0 ==> es[1..][i - 1] == es[i];
      }
    }
  }

  // ---- buckets ----

  /** The items of one class, in order. */
  function Pick<T(!new)>(items: seq<T>, classOf: T -> Term, k: Term): (r: seq<T>)
    ensures forall x :: x in r <==> x in items && classOf(x) == k
  {
    if items == [] then []
    else
      var rest := Pick(items[1..], classOf, k);
      assert items == [items[0]] + items[1..];
      if classOf(items[0]) == k then [items[0]] + rest else rest
  }

  ghost function PickCount<T(!new)>(keys: seq<Term>, items: seq<T>, classOf: T -> Term): nat {
    if keys == [] then 0 else |Pick(items, classOf, keys[0])| + PickCount(keys[1..], items, classOf)
  }

  ghost predicate Distinct<T>(s: seq<T>) {
    forall i, j :: 0 <= i < j < |s| ==> s[i] != s[j]
  }

  lemma {:induction false} PickCountNone<T(!new)>(keys: seq<Term>, classOf: T -> Term)
    ensures PickCount(keys, [], classOf) == 0
    decreases |keys|
  {
    if keys != [] {
      PickCountNone(keys[1..], classOf);
    }
  }

  lemma {:induction false} PickCountStep<T(!new)>(keys: seq<Term>, items: seq<T>, classOf: T -> Term)
    requires items != [] && Distinct(keys)
    ensures PickCount(keys, items, classOf)
            == PickCount(keys, items[1..], classOf) + if classOf(items[0]) in keys then 1 else 0
    decreases |keys|
  {
    if keys != [] {
      PickCountStep(keys[1..], items, classOf);
      assert keys == [keys[0]] + keys[1..];
      assert keys[0] !in keys[1..];
    }
  }

  /** Every item is in exactly one of the buckets of a full list of classes. */
  lemma {:induction false} EveryItemPicked<T(!new)>(keys: seq<Term>, items: seq<T>, classOf: T -> Term)
    requires Distinct(keys) && forall x :: x in items ==> classOf(x) in keys
    ensures PickCount(keys, items, classOf) == |items|
    decreases |items|
  {
    if items == [] {
      PickCountNone(keys, classOf);
    } else {
      PickCountStep(keys, items, classOf);
      assert items == [items[0]] + items[1..];
      EveryItemPicked(keys, items[1..], classOf);
    }
  }

  /** Lists as long as the buckets hold as much as the buckets. */
  lemma {:induction false} SizesAreCounts<T(!new), U>(groups: seq<(Term, seq<U>)>, keys: seq<Term>, items: seq<T>,
                                                classOf: T -> Term)
    requires |groups| == |keys|
    requires forall i :: 0 <= i < |keys| ==> |groups[i].1| == |Pick(items, classOf, keys[i])|
    ensures GroupSizes(groups) == PickCount(keys, items, classOf)
    decreases |keys|
  {
    if keys != [] {
      SizesAreCounts(groups[1..], keys[1..], items, classOf);
    }
  }

  function SessionOf(e: Envelope): Term {
    match e.session case None => Undefined case Some(s) => s
  }

  lemma {:induction false} IdsArePicked(es: seq<Envelope>, s: Term)
    requires HaveIds(es)
    ensures |IdsOf(es, s)| == |Pick(es, SessionOf, s)|
    decreases |es|
  {
    if es != [] {
      HaveIdsStep(es);
      IdsArePicked(es[1..], s);
    }
  }

  /** The sessions listed are those that occur, each with its ids. */
  lemma {:induction false} GroupOf(es: seq<Envelope>, order: Order, s: Term)
    requires Orders(order) && CollectAcks(es, map[]).Ok?
    ensures var g := CollectAcks(es, map[]).value;
            && Enumerates(order(g.Keys), g.Keys)
            && (s in order(g.Keys) <==> IdsOf(es, s) != []) && At(g, s) == Reverse(IdsOf(es, s))
  {
    GroupedIds(es, map[], s);
    var g := CollectAcks(es, map[]).value;
    assert Enumerates(order(g.Keys), g.Keys);
    assert Reverse(IdsOf(es, s)) + [] == Reverse(IdsOf(es, s));
  }

  lemma {:induction false} PairIsListed(es: seq<Envelope>, order: Order, p: Pair)
    requires Orders(order) && CollectAcks(es, map[]).Ok?
    ensures var g := CollectAcks(es, map[]).value;
            Enumerates(order(g.Keys), g.Keys) && (p in GroupPairs(ToList(g, order)) <==> p in PairsOf(es))
  {
    hide Reverse, PairsOf, GroupPairs, CollectAcks, IdsOf;
    var g := CollectAcks(es, map[]).value;
    GroupOf(es, order, p.session);
    var keys, list := order(g.Keys), ToList(g, order);
    InGroups(list, p);
    InPairs(es, p);
    SameElements(IdsOf(es, p.session), p.delivery);
    if p.session in keys {
      var i :| 0 <= i < |keys| && keys[i] == p.session;
      assert list[i].0 == p.session && list[i].1 == At(g, p.session);
    }
  }

  lemma {:induction false} GroupsHoldIds(es: seq<Envelope>, order: Order)
    requires Orders(order) && HaveIds(es) && CollectAcks(es, map[]).Ok?
    ensures var g := CollectAcks(es, map[]).value;
            Enumerates(order(g.Keys), g.Keys) && GroupSizes(ToList(g, order)) == |es|
  {
    hide Reverse, CollectAcks, IdsOf, GroupSizes, Pick;
    var g := CollectAcks(es, map[]).value;
    assert Enumerates(order(g.Keys), g.Keys);
    var keys, list := order(g.Keys), ToList(g, order);
    forall e | e in es ensures SessionOf(e) in keys {
      var i :| 0 <= i < |es| && es[i] == e;
      var p := EnvelopeAck(e).value;
      assert p in PairsOf(es);
      InPairs(es, p);
      GroupOf(es, order, p.session);
    }
    forall i | 0 <= i < |keys| ensures |list[i].1| == |Pick(es, SessionOf, keys[i])| {
      IdsArePicked(es, keys[i]);
      GroupOf(es, order, keys[i]);
      assert list[i].1 == At(g, keys[i]);
    }
    EveryItemPicked(keys, es, SessionOf);
    SizesAreCounts(list, keys, es, SessionOf);
  }

  /** The groups hold exactly the pairs of the envelopes. */
  lemma {:induction false} GroupsHoldPairs(es: seq<Envelope>, order: Order)
    requires Orders(order) && HaveIds(es)
    ensures var c := CollectAcks(es, map[]);
            && c.Ok?
            && GroupPairs(ToList(c.value, order)) == PairsOf(es)
            && GroupSizes(ToList(c.value, order)) == |es|
  {
    hide CollectAcks, GroupPairs, GroupSizes, PairsOf, HaveIds;
    GroupingSucceeds(es, map[]);
    var g := CollectAcks(es, map[]).value;
    GroupsHoldIds(es, order);
    forall p ensures p in GroupPairs(ToList(g, order)) <==> p in PairsOf(es) {
      PairIsListed(es, order, p);
    }
  }

  lemma SameElements<T>(s: seq<T>, x: T)
    ensures x in Reverse(s) <==> x in s
  {
    var r := Reverse(s);
    if x in s {
      var i :| 0 <= i < |s| && s[i] == x;
      assert r[|s| - 1 - i] == x;
    }
  }

  /** Grouped acknowledgement: when it succeeds, exactly the reservations of the
      given envelopes are gone and each id is counted; when it fails, nothing else
      has been released; a missing id fails before anything is. */
  lemma {:induction false} AckGroupedReleases(rt: Runtime, es: seq<Envelope>, order: Order)
    requires Orders(order)
    ensures var (after, r) := AckGrouped(rt, es, order);
            && rt.reserved - PairsOf(es) <= after.reserved <= rt.reserved
            && (r.Ok? ==> HaveIds(es) && after.reserved == rt.reserved - PairsOf(es)
                          && r.value.acked + r.value.unknown == |es|)
            && (!HaveIds(es) ==> r.Error? && after == rt)
  {
    GroupingSucceeds(es, map[]);
    if HaveIds(es) {
      GroupsHoldPairs(es, order);
      AckGroupsReleases(rt, ToList(CollectAcks(es, map[]).value, order), 0, 0);
    }
  }

  /** The same, reservation by reservation: on success a delivery is gone exactly when one
      of the envelopes carries its session and its delivery id. */
  lemma {:induction false} AckedByIds(rt: Runtime, es: seq<Envelope>, order: Order, p: Pair)
    requires Orders(order) && p in rt.reserved
    ensures var (after, r) := AckGrouped(rt, es, order);
            && (p !in after.reserved ==>
                  exists i :: 0 <= i < |es| && es[i].session == Some(p.session) && es[i].delivery == Some(p.delivery))
            && (r.Ok? ==>
                  (p !in after.reserved <==>
                     exists i :: 0 <= i < |es| && es[i].session == Some(p.session) && es[i].delivery == Some(p.delivery)))
  {
    hide AckGrouped, PairsOf, HaveIds;
    AckGroupedReleases(rt, es, order);
    PairsAreIds(es, p);
  }

  lemma PairsAreIds(es: seq<Envelope>, p: Pair)
    ensures p in PairsOf(es)
            <==> exists i :: 0 <= i < |es| && es[i].session == Some(p.session) && es[i].delivery == Some(p.delivery)
  {
    forall i | 0 <= i < |es| && es[i].session == Some(p.session) && es[i].delivery == Some(p.delivery)
      ensures p in PairsOf(es)
    {
      assert EnvelopeAck(es[i]) == Ok(p);
    }
  }

  // ---- a runtime that refuses nothing ----

  ghost predicate Willing(rt: Runtime) {
    forall i :: 0 <= i < |rt.moods| ==> rt.moods[i].Grant?
  }

  lemma {:induction false} WillingGrants(rt: Runtime, groups: seq<(Term, seq<Term>)>, acked: nat, unknown: nat)
    requires Willing(rt) && forall i :: 0 <= i < |groups| ==> groups[i].1 != []
    ensures var (after, r) := AckGroups(rt, groups, acked, unknown); Willing(after) && r.Ok?
    decreases |groups|
  {
    if groups != [] {
      var (session, ids) := groups[0];
      var (after, reply) := AckMany(rt, session, Reverse(ids));
      assert |Reverse(ids)| == |ids| > 0;
      assert reply.Acked? && Willing(after);
      WillingGrants(after, groups[1..], acked + reply.acked, unknown + |reply.unknown|);
    }
  }

  /** Then only a missing id makes a grouped acknowledgement fail. */
  lemma {:induction false} WillingAckGrouped(rt: Runtime, es: seq<Envelope>, order: Order)
    requires Orders(order) && Willing(rt)
    ensures var (after, r) := AckGrouped(rt, es, order); Willing(after) && (r.Ok? <==> HaveIds(es))
  {
    GroupingSucceeds(es, map[]);
    if HaveIds(es) {
      var g := CollectAcks(es, map[]).value;
      var keys, list := order(g.Keys), ToList(g, order);
      assert Enumerates(keys, g.Keys);
      forall i | 0 <= i < |list| ensures list[i].1 != [] {
        GroupedIds(es, map[], keys[i]);
        assert keys[i] in keys;
      }
      WillingGrants(rt, list, 0, 0);
    }
  }

  // ---- batches ----

  /** bounded-list-loop: walks at most limit items. */
  function BoundedList<T>(items: seq<T>, remaining: nat): Result<()>
    decreases |items|
  {
    if items == [] then Ok(())
    else if remaining == 0 then Error(BatchTooLarge)
    else BoundedList(items[1..], remaining - 1)
  }

  lemma {:induction false} BoundedExactly<T>(items: seq<T>, limit: nat)
    ensures BoundedList(items, limit).Ok? <==> |items| <= limit
    decreases |items|
  {
    if items != [] && limit > 0 {
      BoundedExactly(items[1..], limit - 1);
    }
  }
}
