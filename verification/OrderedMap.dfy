/** A JavaScript Map as its entries in insertion order (ECMA-262, section 24.1):
    setting a known key keeps its place, a new key goes to the end. */
module OrderedMap {
  import opened Options

  type Entries<K, V> = seq<(K, V)>

  ghost predicate DistinctKeys<K, V>(m: Entries<K, V>) {
    forall i, j :: 0 <= i < j < |m| ==> m[i].0 != m[j].0
  }

  /** Where a key stands. */
  function Find<K(==), V>(m: Entries<K, V>, k: K): (r: Option<nat>)
    ensures r.Some? ==> r.value < |m| && m[r.value].0 == k
    ensures r.None? ==> forall i :: 0 <= i < |m| ==> m[i].0 != k
  {
    if m == [] then None
    else if m[0].0 == k then Some(0)
    else
      var r := Find(m[1..], k);
      assert r.None? ==> forall i :: 1 <= i < |m| ==> m[i] == m[1..][i - 1];
      match r case None => None case Some(i) => Some(i + 1)
  }

  function Get<K(==), V>(m: Entries<K, V>, k: K): Option<V> {
    match Find(m, k) case None => None case Some(i) => Some(m[i].1)
  }

  predicate Has<K(==), V>(m: Entries<K, V>, k: K) { Find(m, k).Some? }

  function Set<K(==), V>(m: Entries<K, V>, k: K, v: V): Entries<K, V> {
    match Find(m, k) case None => m + [(k, v)] case Some(i) => m[i := (k, v)]
  }

  function Delete<K(==), V>(m: Entries<K, V>, k: K): Entries<K, V> {
    match Find(m, k) case None => m case Some(i) => m[..i] + m[i + 1..]
  }

  lemma FindIs<K, V>(m: Entries<K, V>, k: K, i: nat)
    requires DistinctKeys(m) && i < |m| && m[i].0 == k
    ensures Find(m, k) == Some(i)
  {
  }

  /** Both updates keep the keys distinct. */
  lemma UpdatesKeepKeys<K, V>(m: Entries<K, V>, k: K, v: V)
    requires DistinctKeys(m)
    ensures DistinctKeys(Set(m, k, v)) && DistinctKeys(Delete(m, k))
  {
  }

  /** A key that is deleted and set again moves to the end; one that is only set
      keeps its place. */
  lemma SetAndMove<K, V>(m: Entries<K, V>, k: K, v: V)
    requires DistinctKeys(m) && Has(m, k)
    ensures Set(Delete(m, k), k, v) == Delete(m, k) + [(k, v)]
    ensures var i := Find(m, k).value; Set(m, k, v) == m[i := (k, v)]
  {
  }
}
