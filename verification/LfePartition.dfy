/** Hash-partitioning a batch into ordered lanes (wiregrid_lane, first half). */
module LfePartition {
  import opened Options
  import opened Sequences
  import opened LfeAcks
  import opened LfeCoalesce

  /** erlang:phash2 before the range is applied. */
  type Hash = Term -> nat

  /** The lane of an envelope: the hash of its key, below the lane count. */
  function LaneOf(keyfun: KeyFun, hash: Hash, laneCount: nat): Envelope -> Term
    requires laneCount > 0
  {
    e => Term(hash(SafeKey(keyfun, e)) % laneCount)
  }

  type Lanes = map<Term, seq<Envelope>>

  /** partition-loop: every lane's list grows at the front. */
  function PartitionLoop(es: seq<Envelope>, laneOf: Envelope -> Term, lanes: Lanes): Lanes
    decreases |es|
  {
    if es == [] then lanes
    else
      var lane := laneOf(es[0]);
      PartitionLoop(es[1..], laneOf, lanes[lane := [es[0]] + At(lanes, lane)])
  }

  /** ordered-lanes: turn every list around. */
  function OrderedLanes(list: seq<(Term, seq<Envelope>)>): (r: seq<(Term, seq<Envelope>)>)
    ensures |r| == |list|
    ensures forall i :: 0 <= i < |list| ==> r[i] == (list[i].0, Reverse(list[i].1))
  {
    if list == [] then [] else [(list[0].0, Reverse(list[0].1))] + OrderedLanes(list[1..])
  }

  function Partition(es: seq<Envelope>, laneOf: Envelope -> Term, order: Order): seq<(Term, seq<Envelope>)>
    requires Orders(order)
  {
    var lanes := PartitionLoop(es, laneOf, map[]);
    assert Enumerates(order(lanes.Keys), lanes.Keys);
    OrderedLanes(ToList(lanes, order))
  }

  lemma {:induction false} PartitionPicks(es: seq<Envelope>, laneOf: Envelope -> Term, lanes: Lanes, lane: Term)
    requires lane in lanes ==> lanes[lane] != []
    ensures var r := PartitionLoop(es, laneOf, lanes);
            && At(r, lane) == Reverse(Pick(es, laneOf, lane)) + At(lanes, lane)
            && (lane in r ==> r[lane] != [])
    decreases |es|
  {
    if es != [] {
      var e := es[0];
      var more := lanes[laneOf(e) := [e] + At(lanes, laneOf(e))];
      PartitionPicks(es[1..], laneOf, more, lane);
      if laneOf(e) == lane {
        var rest := Pick(es[1..], laneOf, lane);
        ReverseCons(e, rest);
        Assoc(Reverse(rest), [e], At(lanes, lane));
      }
    }
  }

  /** One lane: the key's list turned around. */
  lemma {:induction false} LaneIs(es: seq<Envelope>, laneOf: Envelope -> Term, k: Term)
    ensures var m := PartitionLoop(es, laneOf, map[]);
            && (k in m <==> Pick(es, laneOf, k) != [])
            && (k in m ==> Reverse(m[k]) == Pick(es, laneOf, k))
  {
    PartitionPicks(es, laneOf, map[], k);
    var mine := Pick(es, laneOf, k);
    assert Reverse(mine) + [] == Reverse(mine);
    ReverseTwice(mine);
  }

  /** The keys of the lanes, in the order in which the map lists them. */
  function LaneKeys(es: seq<Envelope>, laneOf: Envelope -> Term, order: Order): seq<Term> {
    order(PartitionLoop(es, laneOf, map[]).Keys)
  }

  lemma {:induction false} KeysOnce(es: seq<Envelope>, laneOf: Envelope -> Term, order: Order)
    requires Orders(order)
    ensures var keys := LaneKeys(es, laneOf, order);
            && Distinct(keys) && |Partition(es, laneOf, order)| == |keys|
            && (forall k :: k in keys <==> k in PartitionLoop(es, laneOf, map[]))
  {
    var m := PartitionLoop(es, laneOf, map[]);
    assert Enumerates(order(m.Keys), m.Keys);
  }

  lemma {:induction false} PartitionLane(es: seq<Envelope>, laneOf: Envelope -> Term, order: Order, i: nat)
    requires Orders(order) && i < |Partition(es, laneOf, order)|
    ensures |Partition(es, laneOf, order)| == |LaneKeys(es, laneOf, order)|
    ensures var k := LaneKeys(es, laneOf, order)[i];
            Partition(es, laneOf, order)[i] == (k, Pick(es, laneOf, k)) && Pick(es, laneOf, k) != []
  {
    var m := PartitionLoop(es, laneOf, map[]);
    assert Enumerates(order(m.Keys), m.Keys);
    LaneIs(es, laneOf, LaneKeys(es, laneOf, order)[i]);
  }

  lemma {:induction false} PartitionCovers(es: seq<Envelope>, laneOf: Envelope -> Term, order: Order, e: Envelope)
    returns (i: nat)
    requires Orders(order) && e in es
    ensures i < |Partition(es, laneOf, order)| && Partition(es, laneOf, order)[i].0 == laneOf(e)
    ensures laneOf(e) in LaneKeys(es, laneOf, order)
  {
    KeysOnce(es, laneOf, order);
    assert e in Pick(es, laneOf, laneOf(e));
    LaneIs(es, laneOf, laneOf(e));
    var keys := LaneKeys(es, laneOf, order);
    i :| 0 <= i < |keys| && keys[i] == laneOf(e);
    PartitionLane(es, laneOf, order, i);
  }

  lemma {:induction false} PartitionSize(es: seq<Envelope>, laneOf: Envelope -> Term, order: Order)
    requires Orders(order)
    ensures GroupSizes(Partition(es, laneOf, order)) == |es|
  {
    var keys, lanes := LaneKeys(es, laneOf, order), Partition(es, laneOf, order);
    KeysOnce(es, laneOf, order);
    forall e | e in es ensures laneOf(e) in keys {
      var i := PartitionCovers(es, laneOf, order, e);
    }
    EveryItemPicked(keys, es, laneOf);
    forall i | 0 <= i < |keys| ensures |lanes[i].1| == |Pick(es, laneOf, keys[i])| {
      PartitionLane(es, laneOf, order, i);
    }
    SizesAreCounts(lanes, keys, es, laneOf);
  }

  /** What a list of lanes must be to be the partition of a batch. */
  ghost predicate Exact(es: seq<Envelope>, laneOf: Envelope -> Term, lanes: seq<(Term, seq<Envelope>)>) {
    && (forall i :: 0 <= i < |lanes| ==> lanes[i].1 == Pick(es, laneOf, lanes[i].0) && lanes[i].1 != [])
    && (forall i, j :: 0 <= i < j < |lanes| ==> lanes[i].0 != lanes[j].0)
    && (forall e :: e in es ==> exists i :: 0 <= i < |lanes| && lanes[i].0 == laneOf(e))
  }

  /** Each lane holds exactly its envelopes in input order, no lane is empty or
      listed twice, and every envelope is in the one lane of its key. */
  lemma {:induction false} PartitionIsExact(es: seq<Envelope>, laneOf: Envelope -> Term, order: Order)
    requires Orders(order)
    ensures Exact(es, laneOf, Partition(es, laneOf, order))
    ensures GroupSizes(Partition(es, laneOf, order)) == |es|
  {
    var keys, lanes := LaneKeys(es, laneOf, order), Partition(es, laneOf, order);
    KeysOnce(es, laneOf, order);
    forall i | 0 <= i < |lanes|
      ensures lanes[i].0 == keys[i] && lanes[i].1 == Pick(es, laneOf, lanes[i].0) && lanes[i].1 != []
    {
      PartitionLane(es, laneOf, order, i);
    }
    forall e | e in es ensures exists i :: 0 <= i < |lanes| && lanes[i].0 == laneOf(e) {
      var i := PartitionCovers(es, laneOf, order, e);
    }
    PartitionSize(es, laneOf, order);
  }

  /** Which envelopes share a lane: those whose keys, or else delivery ids, hash alike. */
  lemma {:induction false} LanesAreHashes(es: seq<Envelope>, keyfun: KeyFun, hash: Hash, laneCount: nat, order: Order,
                                          i: nat, e: Envelope)
    requires Orders(order) && laneCount > 0 && e in es && e.delivery.Some?
    requires i < |Partition(es, LaneOf(keyfun, hash, laneCount), order)|
    ensures var lane := Partition(es, LaneOf(keyfun, hash, laneCount), order)[i];
            e in lane.1 <==>
              lane.0 == Term(hash(if keyfun(e).Some? then keyfun(e).value else e.delivery.value) % laneCount)
  {
    hide Partition, LaneKeys, Pick;
    var laneOf := LaneOf(keyfun, hash, laneCount);
    PartitionLane(es, laneOf, order, i);
    assert laneOf(e) == Term(hash(SafeKey(keyfun, e)) % laneCount);
  }

  ghost function LaneIds(n: nat): set<Term> {
    if n == 0 then {} else LaneIds(n - 1) + {Term(n - 1)}
  }

  lemma {:induction false} LaneIdsAre(n: nat)
    ensures |LaneIds(n)| == n && forall k :: k in LaneIds(n) <==> k.Term? && k.name < n
  {
    if n > 0 {
      LaneIdsAre(n - 1);
    }
  }

  ghost function Ids(lanes: seq<(Term, seq<Envelope>)>): set<Term> {
    if lanes == [] then {} else {lanes[0].0} + Ids(lanes[1..])
  }

  lemma {:induction false} IdsAreDistinct(lanes: seq<(Term, seq<Envelope>)>)
    requires forall i, j :: 0 <= i < j < |lanes| ==> lanes[i].0 != lanes[j].0
    ensures |Ids(lanes)| == |lanes|
    ensures forall k :: k in Ids(lanes) <==> exists i :: 0 <= i < |lanes| && lanes[i].0 == k
    decreases |lanes|
  {
    if lanes != [] {
      var rest := lanes[1..];
      IdsAreDistinct(rest);
      forall k ensures k in Ids(lanes) <==> exists i :: 0 <= i < |lanes| && lanes[i].0 == k {
        if i :| 0 <= i < |lanes| && lanes[i].0 == k {
          assert i > 0 ==> rest[i - 1].0 == k;
        }
        if k in Ids(rest) {
          var i :| 0 <= i < |rest| && rest[i].0 == k;
          assert lanes[i + 1].0 == k;
        }
      }
      assert lanes[0].0 !in Ids(rest);
    }
  }

  lemma SubsetSize<T>(a: set<T>, b: set<T>)
    requires a <= b
    ensures |a| <= |b|
  {
    assert b == a + (b - a);
  }

  /** There are never more lanes than the caller allowed. */
  lemma {:induction false} LanesAreBounded(es: seq<Envelope>, keyfun: KeyFun, hash: Hash, laneCount: nat, order: Order)
    requires Orders(order) && laneCount > 0
    ensures var lanes := Partition(es, LaneOf(keyfun, hash, laneCount), order);
            && |lanes| <= laneCount
            && forall i :: 0 <= i < |lanes| ==> lanes[i].0.Term? && lanes[i].0.name < laneCount
  {
    var laneOf := LaneOf(keyfun, hash, laneCount);
    var lanes := Partition(es, laneOf, order);
    PartitionIsExact(es, laneOf, order);
    forall i | 0 <= i < |lanes| ensures lanes[i].0.Term? && lanes[i].0.name < laneCount {
      assert lanes[i].1[0] in lanes[i].1;
      assert laneOf(lanes[i].1[0]) == lanes[i].0;
    }
    IdsAreDistinct(lanes);
    LaneIdsAre(laneCount);
    SubsetSize(Ids(lanes), LaneIds(laneCount));
  }
}
