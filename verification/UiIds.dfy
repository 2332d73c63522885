/** The wrapping 32-bit request ids: the loop that skips ids in use ends. */
module UiIds {
  import opened Options
  import opened OrderedMap

  const MAX_ID: nat := 4294967295

  function Next(id: nat): nat { if id >= MAX_ID then 1 else id + 1 }

  /** The id k steps after id. */
  function Nth(id: nat, k: nat): nat {
    if k == 0 then id else Next(Nth(id, k - 1))
  }

  lemma {:induction false} NthIs(id: nat, k: nat)
    requires id <= MAX_ID && k >= 1
    ensures Nth(id, k) == (id + k - 1) % MAX_ID + 1
    decreases k
  {
    if k > 1 {
      NthIs(id, k - 1);
      OneOn(id + k - 2);
    }
  }

  /** Counting on by one, modulo. */
  lemma OneOn(x: nat)
    ensures (x + 1) % MAX_ID == if x % MAX_ID == MAX_ID - 1 then 0 else x % MAX_ID + 1
  {
    var q := x / MAX_ID;
    assert x == q * MAX_ID + x % MAX_ID;
    if x % MAX_ID == MAX_ID - 1 {
      assert x + 1 == (q + 1) * MAX_ID;
    } else {
      assert x + 1 == q * MAX_ID + (x % MAX_ID + 1);
    }
  }

  /** A full turn of ids has no repetition. */
  lemma NthDistinct(id: nat, j: nat, k: nat)
    requires id <= MAX_ID && 1 <= j < k <= MAX_ID
    ensures Nth(id, j) != Nth(id, k) && 1 <= Nth(id, k) <= MAX_ID
  {
    NthIs(id, j);
    NthIs(id, k);
  }

  lemma {:induction false} Pigeonhole<V>(ids: seq<nat>, m: Entries<nat, V>)
    requires DistinctKeys(m)
    requires forall i, j :: 0 <= i < j < |ids| ==> ids[i] != ids[j]
    requires forall i :: 0 <= i < |ids| ==> Has(m, ids[i])
    ensures |ids| <= |m|
    decreases |ids|
  {
    if ids != [] {
      var last := ids[|ids| - 1];
      var rest, left := ids[..|ids| - 1], Delete(m, last);
      UpdatesKeepKeys(m, last, m[Find(m, last).value].1);
      forall i | 0 <= i < |rest| ensures Has(left, rest[i]) {
        var at, gone := Find(m, rest[i]).value, Find(m, last).value;
        assert left[if at < gone then at else at - 1].0 == rest[i];
      }
      Pigeonhole(rest, left);
    }
  }

  /** Among the |m| + 1 ids that follow, one is free. */
  lemma StepsAreFew<V>(id: nat, steps: nat, m: Entries<nat, V>)
    requires id <= MAX_ID && DistinctKeys(m) && |m| < MAX_ID && steps <= MAX_ID
    requires forall k :: 1 <= k <= steps ==> Has(m, Nth(id, k))
    ensures steps <= |m|
  {
    var ids := seq(steps, i requires 0 <= i < steps => Nth(id, i + 1));
    forall i, j | 0 <= i < j < |ids| ensures ids[i] != ids[j] {
      NthDistinct(id, i + 1, j + 1);
    }
    Pigeonhole(ids, m);
  }

  /** The first id after the last one given out that no pending request has. */
  ghost predicate FirstFree<V>(id: nat, steps: nat, m: Entries<nat, V>) {
    && 1 <= steps <= |m| + 1 && !Has(m, Nth(id, steps))
    && forall k :: 1 <= k < steps ==> Has(m, Nth(id, k))
  }

  lemma FreeIsLegal<V>(id: nat, steps: nat, m: Entries<nat, V>)
    requires id <= MAX_ID && FirstFree(id, steps, m)
    ensures 1 <= Nth(id, steps) <= MAX_ID
  {
    NthIs(id, steps);
  }
}
