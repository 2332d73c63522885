/** Collapsing ephemeral deliveries to the newest of each key (wiregrid_coalesce). */
module LfeCoalesce {
  import opened Options
  import opened Sequences
  import opened LfeAcks

  /** A caller's key function; no value when it raises. */
  type KeyFun = Envelope -> Option<Term>

  /** safe-key: the delivery id stands in for a key that cannot be computed. */
  function SafeKey(keyfun: KeyFun, e: Envelope): Term {
    match keyfun(e)
    case Some(k) => k
    case None => match e.delivery case Some(d) => d case None => Undefined
  }

  type Indexed = (nat, Envelope)

  datatype State = State(latest: map<Term, Indexed>, durable: seq<Indexed>, superseded: seq<Envelope>)

  /** collect: one pass; the lists grow at the front. */
  function Collect(rest: seq<Envelope>, keyfun: KeyFun, index: nat, s: State): State
    decreases |rest|
  {
    if rest == [] then s
    else
      var e := rest[0];
      Collect(rest[1..], keyfun, index + 1, Absorb(s, e, SafeKey(keyfun, e), index))
  }

  /** One envelope of the pass. */
  function Absorb(s: State, e: Envelope, key: Term, index: nat): State {
    if !e.ephemeral then s.(durable := [(index, e)] + s.durable)
    else
      var superseded := if key in s.latest then [s.latest[key].1] + s.superseded else s.superseded;
      State(s.latest[key := (index, e)], s.durable, superseded)
  }

  // ---- lists:keysort ----

  function Insert(x: Indexed, s: seq<Indexed>): seq<Indexed> {
    if s == [] || x.0 < s[0].0 then [x] + s else [s[0]] + Insert(x, s[1..])
  }

  function KeySort(s: seq<Indexed>): seq<Indexed> {
    if s == [] then [] else Insert(s[|s| - 1], KeySort(s[..|s| - 1]))
  }

  ghost predicate Sorted(s: seq<Indexed>) {
    forall i, j :: 0 <= i < j < |s| ==> s[i].0 <= s[j].0
  }

  ghost predicate StrictlySorted(s: seq<Indexed>) {
    forall i, j :: 0 <= i < j < |s| ==> s[i].0 < s[j].0
  }

  lemma SortedCons(x: Indexed, s: seq<Indexed>)
    requires Sorted(s) && forall i :: 0 <= i < |s| ==> x.0 <= s[i].0
    ensures Sorted([x] + s)
  {
  }

  lemma {:induction false} InsertAdds(x: Indexed, s: seq<Indexed>)
    ensures multiset(Insert(x, s)) == multiset(s) + multiset{x}
    decreases |s|
  {
    if s != [] && s[0].0 <= x.0 {
      assert s == [s[0]] + s[1..];
      InsertAdds(x, s[1..]);
    }
  }

  lemma {:induction false} InsertSorts(x: Indexed, s: seq<Indexed>)
    requires Sorted(s)
    ensures Sorted(Insert(x, s))
    decreases |s|
  {
    if s == [] || x.0 < s[0].0 {
      SortedCons(x, s);
    } else {
      var tail := s[1..];
      InsertSorts(x, tail);
      InsertAdds(x, tail);
      var r := Insert(x, tail);
      forall i | 0 <= i < |r| ensures s[0].0 <= r[i].0 {
        assert r[i] in multiset(r);
        assert r[i] == x || r[i] in tail;
      }
      SortedCons(s[0], r);
    }
  }

  lemma {:induction false} KeySortSorts(s: seq<Indexed>)
    ensures Sorted(KeySort(s)) && multiset(KeySort(s)) == multiset(s)
    decreases |s|
  {
    if s != [] {
      TakeLast(s);
      KeySortSorts(s[..|s| - 1]);
      InsertSorts(s[|s| - 1], KeySort(s[..|s| - 1]));
      InsertAdds(s[|s| - 1], KeySort(s[..|s| - 1]));
    }
  }

  lemma {:induction false} SameSorted(a: seq<Indexed>, b: seq<Indexed>)
    requires StrictlySorted(a) && StrictlySorted(b)
    requires forall x :: x in a <==> x in b
    ensures a == b
    decreases |a|
  {
    assert a != [] ==> a[0] in b;
    assert b != [] ==> b[0] in a;
    if a != [] {
      assert a[0] == b[0];
      forall x ensures x in a[1..] <==> x in b[1..] {
        NotInTail(a, x);
        NotInTail(b, x);
      }
      SameSorted(a[1..], b[1..]);
    }
  }

  lemma NotInTail(a: seq<Indexed>, x: Indexed)
    requires StrictlySorted(a) && a != []
    ensures x in a[1..] <==> x in a && x != a[0]
  {
    assert a == [a[0]] + a[1..];
  }

  /** lists:map dropping the indices. */
  function Strip(s: seq<Indexed>): (r: seq<Envelope>)
    ensures |r| == |s| && forall i :: 0 <= i < |s| ==> r[i] == s[i].1
  {
    if s == [] then [] else [s[0].1] + Strip(s[1..])
  }

  lemma {:induction false} StripAdds(a: seq<Indexed>, b: seq<Indexed>)
    ensures Strip(a + b) == Strip(a) + Strip(b)
  {
  }

  lemma {:induction false} StripInserts(x: Indexed, s: seq<Indexed>)
    ensures multiset(Strip(Insert(x, s))) == multiset(Strip(s)) + multiset{x.1}
    decreases |s|
  {
    if s != [] && s[0].0 <= x.0 {
      StripInserts(x, s[1..]);
      assert Strip(Insert(x, s)) == [s[0].1] + Strip(Insert(x, s[1..]));
      assert Strip(s) == [s[0].1] + Strip(s[1..]);
    } else {
      assert Strip([x] + s) == [x.1] + Strip(s);
    }
  }

  lemma {:induction false} StripSorts(s: seq<Indexed>)
    ensures multiset(Strip(KeySort(s))) == multiset(Strip(s))
    decreases |s|
  {
    if s != [] {
      var init, last := s[..|s| - 1], s[|s| - 1];
      StripSorts(init);
      StripInserts(last, KeySort(init));
      TakeLast(s);
      StripAdds(init, [last]);
      assert Strip([last]) == [last.1];
    }
  }

  // ---- the quadratic specification ----

  /** A later ephemeral envelope of the same key makes this ephemeral one obsolete. */
  ghost predicate Superseded(es: seq<Envelope>, keyfun: KeyFun, i: nat)
    requires i < |es|
  {
    && es[i].ephemeral
    && exists j :: i < j < |es| && es[j].ephemeral && SafeKey(keyfun, es[j]) == SafeKey(keyfun, es[i])
  }

  /** What that says of the caller's key function and the delivery ids: two keys are
      computed and equal, or a delivery id stands in for a key that could not be. */
  lemma SupersededMeans(es: seq<Envelope>, keyfun: KeyFun, i: nat)
    requires HaveIds(es) && i < |es|
    ensures Superseded(es, keyfun, i) <==>
              && es[i].ephemeral
              && exists j :: i < j < |es| && es[j].ephemeral
                   && (if keyfun(es[j]).Some? then keyfun(es[j]) else es[j].delivery)
                      == (if keyfun(es[i]).Some? then keyfun(es[i]) else es[i].delivery)
  {
    forall j | 0 <= j < |es|
      ensures Some(SafeKey(keyfun, es[j])) == if keyfun(es[j]).Some? then keyfun(es[j]) else es[j].delivery
    {
      assert EnvelopeAck(es[j]).Ok?;
    }
  }

  /** Envelopes with different delivery ids whose keys cannot be computed do not
      supersede each other. */
  lemma RaisingKeysStandAlone(es: seq<Envelope>, keyfun: KeyFun, i: nat)
    requires HaveIds(es) && i < |es| && keyfun(es[i]).None?
    requires forall j :: i < j < |es| ==> keyfun(es[j]).None? && es[j].delivery != es[i].delivery
    ensures !Superseded(es, keyfun, i)
  {
    SupersededMeans(es, keyfun, i);
  }

  /** The input from position i on without the superseded envelopes. */
  ghost function Survivors(es: seq<Envelope>, keyfun: KeyFun, i: nat): seq<Indexed>
    requires i <= |es|
    decreases |es| - i
  {
    if i == |es| then []
    else (if Superseded(es, keyfun, i) then [] else [(i, es[i])]) + Survivors(es, keyfun, i + 1)
  }

  lemma {:induction false} SurvivorsSorted(es: seq<Envelope>, keyfun: KeyFun, i: nat)
    requires i <= |es|
    ensures StrictlySorted(Survivors(es, keyfun, i))
    ensures forall a :: 0 <= a < |Survivors(es, keyfun, i)| ==> i <= Survivors(es, keyfun, i)[a].0
    decreases |es| - i
  {
    if i < |es| {
      SurvivorsSorted(es, keyfun, i + 1);
    }
  }

  lemma {:induction false} SurvivesIff(es: seq<Envelope>, keyfun: KeyFun, i: nat, x: Indexed)
    requires i <= |es|
    ensures x in Survivors(es, keyfun, i) <==> i <= x.0 < |es| && x.1 == es[x.0] && !Superseded(es, keyfun, x.0)
    decreases |es| - i
  {
    if i < |es| {
      SurvivesIff(es, keyfun, i + 1, x);
    }
  }

  lemma {:induction false} SurvivorsAre(es: seq<Envelope>, keyfun: KeyFun, i: nat)
    requires i <= |es|
    ensures var s := Survivors(es, keyfun, i);
            && StrictlySorted(s)
            && (forall x: Indexed :: x in s <==> i <= x.0 < |es| && x.1 == es[x.0] && !Superseded(es, keyfun, x.0))
  {
    SurvivorsSorted(es, keyfun, i);
    forall x: Indexed
      ensures x in Survivors(es, keyfun, i) <==> i <= x.0 < |es| && x.1 == es[x.0] && !Superseded(es, keyfun, x.0)
    {
      SurvivesIff(es, keyfun, i, x);
    }
  }

  // ---- the pass keeps exactly the survivors ----

  ghost predicate DurableTracked(es: seq<Envelope>, n: nat, durable: seq<Indexed>)
    requires n <= |es|
  {
    && (forall x: Indexed :: x in durable <==> x.0 < n && x.1 == es[x.0] && !es[x.0].ephemeral)
    && (forall a, b :: 0 <= a < b < |durable| ==> durable[b].0 < durable[a].0)
  }

  ghost predicate LatestTracked(es: seq<Envelope>, keyfun: KeyFun, n: nat, latest: map<Term, Indexed>)
    requires n <= |es|
  {
    && (forall k :: k in latest ==>
          var x := latest[k];
          x.0 < n && x.1 == es[x.0] && es[x.0].ephemeral && SafeKey(keyfun, es[x.0]) == k)
    && (forall i :: 0 <= i < n && es[i].ephemeral ==>
          SafeKey(keyfun, es[i]) in latest && i <= latest[SafeKey(keyfun, es[i])].0)
  }

  ghost predicate SupersededTracked(es: seq<Envelope>, keyfun: KeyFun, superseded: seq<Envelope>) {
    forall e :: e in superseded ==> exists i :: 0 <= i < |es| && es[i] == e && Superseded(es, keyfun, i)
  }

  ghost predicate Tracked(es: seq<Envelope>, keyfun: KeyFun, n: nat, s: State)
    requires n <= |es|
  {
    && DurableTracked(es, n, s.durable)
    && LatestTracked(es, keyfun, n, s.latest)
    && SupersededTracked(es, keyfun, s.superseded)
  }

  lemma AbsorbDurable(es: seq<Envelope>, n: nat, durable: seq<Indexed>)
    requires n < |es| && DurableTracked(es, n, durable) && !es[n].ephemeral
    ensures DurableTracked(es, n + 1, [(n, es[n])] + durable)
  {
    var more := [(n, es[n])] + durable;
    assert forall i :: 0 <= i < |durable| ==> durable[i] in durable;
    forall x: Indexed ensures x in more <==> x.0 < n + 1 && x.1 == es[x.0] && !es[x.0].ephemeral {
      assert x in more <==> x == (n, es[n]) || x in durable;
    }
  }

  lemma SkipDurable(es: seq<Envelope>, n: nat, durable: seq<Indexed>)
    requires n < |es| && DurableTracked(es, n, durable) && es[n].ephemeral
    ensures DurableTracked(es, n + 1, durable)
  {
  }

  lemma {:induction false} AbsorbTracked(es: seq<Envelope>, keyfun: KeyFun, n: nat, s: State)
    requires n < |es| && Tracked(es, keyfun, n, s)
    ensures Tracked(es, keyfun, n + 1, Absorb(s, es[n], SafeKey(keyfun, es[n]), n))
  {
    var e, key := es[n], SafeKey(keyfun, es[n]);
    if !e.ephemeral {
      AbsorbDurable(es, n, s.durable);
    } else {
      SkipDurable(es, n, s.durable);
      if key in s.latest {
        var i := s.latest[key].0;
        assert Superseded(es, keyfun, i);
      }
    }
  }

  /** Everything seen is somewhere, as often as it was seen: the envelopes held
      under a set of keys. */
  ghost function Held(m: map<Term, Indexed>, keys: set<Term>): multiset<Envelope>
    requires keys <= m.Keys
  {
    if keys == {} then multiset{}
    else var k :| k in keys; multiset{m[k].1} + Held(m, keys - {k})
  }

  lemma {:induction false} HeldAny(m: map<Term, Indexed>, keys: set<Term>, k: Term)
    requires k in keys && keys <= m.Keys
    ensures Held(m, keys) == multiset{m[k].1} + Held(m, keys - {k})
    decreases |keys|
  {
    var j :| j in keys && Held(m, keys) == multiset{m[j].1} + Held(m, keys - {j});
    if j != k {
      var a, b := keys - {j}, keys - {k};
      assert a - {k} == b - {j};
      HeldAny(m, a, k);
      HeldAny(m, b, j);
      Swapped(multiset{m[j].1}, multiset{m[k].1}, Held(m, a - {k}));
    }
  }

  lemma Swapped<T>(x: multiset<T>, y: multiset<T>, z: multiset<T>)
    ensures x + (y + z) == y + (x + z)
  {
  }

  lemma {:induction false} HeldSame(m: map<Term, Indexed>, n: map<Term, Indexed>, keys: set<Term>)
    requires keys <= m.Keys && keys <= n.Keys
    requires forall k :: k in keys ==> m[k].1 == n[k].1
    ensures Held(m, keys) == Held(n, keys)
    decreases |keys|
  {
    if keys != {} {
      var k :| k in keys;
      HeldAny(m, keys, k);
      HeldAny(n, keys, k);
      HeldSame(m, n, keys - {k});
    }
  }

  ghost function AllHeld(s: State): multiset<Envelope> {
    multiset(Strip(s.durable)) + Held(s.latest, s.latest.Keys) + multiset(s.superseded)
  }

  lemma HeldPut(m: map<Term, Indexed>, key: Term, x: Indexed)
    ensures var n := m[key := x];
            Held(n, n.Keys) + (if key in m then multiset{m[key].1} else multiset{}) == Held(m, m.Keys) + multiset{x.1}
  {
    hide Held;
    var n, others := m[key := x], m.Keys - {key};
    assert n.Keys - {key} == others;
    HeldAny(n, n.Keys, key);
    HeldSame(m, n, others);
    if key in m {
      HeldAny(m, m.Keys, key);
      Exchanged(multiset{x.1}, Held(m, others), multiset{m[key].1});
    } else {
      assert others == m.Keys;
      Exchanged(multiset{x.1}, Held(m, others), multiset{});
    }
  }

  lemma Exchanged<T>(x: multiset<T>, y: multiset<T>, z: multiset<T>)
    ensures (x + y) + z == (z + y) + x && multiset{} + y == y
  {
  }

  lemma Rearrange<T>(d: multiset<T>, h: multiset<T>, s: multiset<T>, h': multiset<T>, old_: multiset<T>, e: multiset<T>)
    requires h' + old_ == h + e
    ensures d + h' + (old_ + s) == d + h + s + e
  {
    assert d + h' + (old_ + s) == d + (h' + old_) + s;
  }

  lemma AbsorbHolds(s: State, e: Envelope, key: Term, index: nat)
    ensures AllHeld(Absorb(s, e, key, index)) == AllHeld(s) + multiset{e}
  {
    var t := Absorb(s, e, key, index);
    if !e.ephemeral {
      assert Strip(t.durable) == [e] + Strip(s.durable);
    } else {
      HeldPut(s.latest, key, (index, e));
      var past := if key in s.latest then [s.latest[key].1] else [];
      assert t.superseded == past + s.superseded;
      Rearrange(multiset(Strip(s.durable)), Held(s.latest, s.latest.Keys), multiset(s.superseded),
                Held(t.latest, t.latest.Keys), multiset(past), multiset{e});
    }
  }

  lemma CollectStep(es: seq<Envelope>, keyfun: KeyFun, n: nat, s: State)
    requires n < |es|
    ensures Collect(es[n..], keyfun, n, s)
            == Collect(es[n + 1..], keyfun, n + 1, Absorb(s, es[n], SafeKey(keyfun, es[n]), n))
  {
    assert es[n..][1..] == es[n + 1..];
  }

  /** The whole pass keeps track of survivors and superseded alike. */
  lemma {:induction false} CollectTracked(es: seq<Envelope>, keyfun: KeyFun, n: nat, s: State)
    requires n <= |es| && Tracked(es, keyfun, n, s)
    ensures Tracked(es, keyfun, |es|, Collect(es[n..], keyfun, n, s))
    decreases |es| - n
  {
    if n < |es| {
      AbsorbTracked(es, keyfun, n, s);
      CollectTracked(es, keyfun, n + 1, Absorb(s, es[n], SafeKey(keyfun, es[n]), n));
      CollectStep(es, keyfun, n, s);
    }
  }

  /** The whole pass loses nothing. */
  lemma {:induction false} CollectHolds(rest: seq<Envelope>, keyfun: KeyFun, index: nat, s: State)
    ensures AllHeld(Collect(rest, keyfun, index, s)) == AllHeld(s) + multiset(rest)
    decreases |rest|
  {
    hide AllHeld, Absorb, SafeKey;
    if rest != [] {
      var key := SafeKey(keyfun, rest[0]);
      AbsorbHolds(s, rest[0], key, index);
      CollectHolds(rest[1..], keyfun, index + 1, Absorb(s, rest[0], key, index));
      assert rest == [rest[0]] + rest[1..];
    }
  }

  const START := State(map[], [], [])

  /** maps:values. */
  function Values(m: map<Term, Indexed>, order: Order): (r: seq<Indexed>)
    requires Enumerates(order(m.Keys), m.Keys)
  {
    var l := ToList(m, order);
    seq(|l|, i requires 0 <= i < |l| => l[i].1)
  }

  /** finish, its first half: the envelopes to go on with. */
  function Selected(s: State, order: Order): seq<Envelope>
    requires Enumerates(order(s.latest.Keys), s.latest.Keys)
  {
    Strip(KeySort(s.durable + Values(s.latest, order)))
  }

  /** The values listed are the surviving ephemeral entries, no index twice. */
  lemma {:induction false} ValuesAreLatest(es: seq<Envelope>, keyfun: KeyFun, latest: map<Term, Indexed>, order: Order)
    requires LatestTracked(es, keyfun, |es|, latest) && Enumerates(order(latest.Keys), latest.Keys)
    ensures var vals := Values(latest, order);
            && (forall x: Indexed :: x in vals <==>
                  x.0 < |es| && x.1 == es[x.0] && es[x.0].ephemeral && !Superseded(es, keyfun, x.0))
            && (forall a, b :: 0 <= a < b < |vals| ==> vals[a].0 != vals[b].0)
  {
    var vals, keys := Values(latest, order), order(latest.Keys);
    assert forall i :: 0 <= i < |vals| ==> keys[i] in latest && vals[i] == latest[keys[i]];
    forall x: Indexed
      ensures x in vals <==> x.0 < |es| && x.1 == es[x.0] && es[x.0].ephemeral && !Superseded(es, keyfun, x.0)
    {
      LatestIsLast(es, keyfun, latest, x);
      if k :| k in latest && latest[k] == x {
        assert k in keys;
        var i :| 0 <= i < |keys| && keys[i] == k;
        assert vals[i] == x;
      }
    }
  }

  /** The kept entries are the survivors, each once. */
  lemma {:induction false} KeptAreSurvivors(es: seq<Envelope>, keyfun: KeyFun, s: State, order: Order)
    requires Tracked(es, keyfun, |es|, s) && Enumerates(order(s.latest.Keys), s.latest.Keys)
    ensures var kept := s.durable + Values(s.latest, order);
            && (forall x :: x in kept <==> x in Survivors(es, keyfun, 0))
            && (forall a, b :: 0 <= a < b < |kept| ==> kept[a].0 != kept[b].0)
  {
    SurvivorsAre(es, keyfun, 0);
    ValuesAreLatest(es, keyfun, s.latest, order);
    var vals := Values(s.latest, order);
    forall i, j | 0 <= i < |s.durable| && 0 <= j < |vals| ensures s.durable[i].0 != vals[j].0 {
      assert s.durable[i] in s.durable && vals[j] in vals;
    }
  }

  /** An entry is the latest of its key exactly when nothing supersedes it. */
  lemma {:induction false} LatestIsLast(es: seq<Envelope>, keyfun: KeyFun, latest: map<Term, Indexed>, x: Indexed)
    requires LatestTracked(es, keyfun, |es|, latest)
    ensures (exists k :: k in latest && latest[k] == x)
            <==> x.0 < |es| && x.1 == es[x.0] && es[x.0].ephemeral && !Superseded(es, keyfun, x.0)
  {
    if x.0 < |es| && x.1 == es[x.0] && es[x.0].ephemeral {
      var key := SafeKey(keyfun, es[x.0]);
      assert latest[key].0 != x.0 ==> Superseded(es, keyfun, x.0);
    }
  }

  lemma CountTwice<T>(s: seq<T>, a: nat, b: nat)
    requires a < b < |s| && s[a] == s[b]
    ensures multiset(s)[s[a]] >= 2
  {
    assert s == s[..b] + [s[b]] + s[b + 1..];
    assert s[a] == s[..b][a] && s[a] in multiset(s[..b]);
  }

  lemma CountOnce<T>(s: seq<T>, i: nat)
    requires i < |s| && forall j :: 0 <= j < |s| && j != i ==> s[j] != s[i]
    ensures multiset(s)[s[i]] == 1
  {
    assert s == s[..i] + [s[i]] + s[i + 1..];
    assert s[i] !in s[..i] && s[i] !in s[i + 1..];
  }

  lemma SortedApart(kept: seq<Indexed>, s: seq<Indexed>, a: nat, b: nat)
    requires forall i, j :: 0 <= i < j < |kept| ==> kept[i].0 != kept[j].0
    requires multiset(s) == multiset(kept) && a < b < |s|
    ensures s[a].0 != s[b].0
  {
    assert s[a] in multiset(s) && s[b] in multiset(s);
    var i :| 0 <= i < |kept| && kept[i] == s[a];
    var j :| 0 <= j < |kept| && kept[j] == s[b];
    if i == j {
      CountTwice(s, a, b);
      CountOnce(kept, i);
    }
  }

  /** Sorting entries with distinct indices gives the one sorted list of them. */
  lemma SortingKept(kept: seq<Indexed>, target: seq<Indexed>)
    requires forall a, b :: 0 <= a < b < |kept| ==> kept[a].0 != kept[b].0
    requires StrictlySorted(target) && forall x :: x in kept <==> x in target
    ensures KeySort(kept) == target
  {
    KeySortSorts(kept);
    var s := KeySort(kept);
    forall x ensures x in s <==> x in kept {
      assert x in multiset(s) <==> x in multiset(kept);
    }
    forall a, b | 0 <= a < b < |s| ensures s[a].0 < s[b].0 {
      SortedApart(kept, s, a, b);
    }
    SameSorted(s, target);
  }

  lemma {:induction false} ValuesHeld(m: map<Term, Indexed>, list: seq<Term>, keys: set<Term>, vals: seq<Indexed>)
    requires keys <= m.Keys && Enumerates(list, keys) && |vals| == |list|
    requires forall i :: 0 <= i < |list| ==> list[i] in m && vals[i] == m[list[i]]
    ensures multiset(Strip(vals)) == Held(m, keys)
    decreases |list|
  {
    if list == [] {
      assert keys == {};
    } else {
      var k := list[0];
      assert k in list;
      HeldAny(m, keys, k);
      forall x ensures x in list[1..] <==> x in keys - {k} {
        assert list == [k] + list[1..];
      }
      ValuesHeld(m, list[1..], keys - {k}, vals[1..]);
      assert Strip(vals) == [m[k].1] + Strip(vals[1..]);
    }
  }

  /** One pass over the batch, in whatever order the runtime lists its map, equals
      the quadratic specification. */
  lemma {:induction false} OnePassIsSpecification(es: seq<Envelope>, keyfun: KeyFun, order: Order)
    requires Orders(order)
    ensures var s := Collect(es, keyfun, 0, START);
            && Enumerates(order(s.latest.Keys), s.latest.Keys)
            && Selected(s, order) == Strip(Survivors(es, keyfun, 0))
            && multiset(Selected(s, order)) + multiset(s.superseded) == multiset(es)
            && SupersededTracked(es, keyfun, s.superseded)
  {
    assert es[..0] == [] && es[0..] == es;
    CollectTracked(es, keyfun, 0, START);
    CollectHolds(es, keyfun, 0, START);
    var s := Collect(es, keyfun, 0, START);
    assert Enumerates(order(s.latest.Keys), s.latest.Keys);
    KeptAreSurvivors(es, keyfun, s, order);
    var kept := s.durable + Values(s.latest, order);
    SurvivorsAre(es, keyfun, 0);
    SortingKept(kept, Survivors(es, keyfun, 0));
    ValuesHeld(s.latest, order(s.latest.Keys), s.latest.Keys, Values(s.latest, order));
    StripAdds(s.durable, Values(s.latest, order));
    StripSorts(kept);
  }

  // ---- a second pass ----

  lemma {:induction false} NothingToDrop(es: seq<Envelope>, keyfun: KeyFun, i: nat)
    requires i <= |es| && forall j :: 0 <= j < |es| ==> !Superseded(es, keyfun, j)
    ensures Strip(Survivors(es, keyfun, i)) == es[i..]
    decreases |es| - i
  {
    if i < |es| {
      NothingToDrop(es, keyfun, i + 1);
      StripAdds([(i, es[i])], Survivors(es, keyfun, i + 1));
      assert es[i..] == [es[i]] + es[i + 1..];
    }
  }

  /** Among the survivors none is superseded. */
  lemma {:induction false} SurvivorsSurvive(es: seq<Envelope>, keyfun: KeyFun, a: nat)
    requires a < |Survivors(es, keyfun, 0)|
    ensures !Superseded(Strip(Survivors(es, keyfun, 0)), keyfun, a)
  {
    SurvivorsAre(es, keyfun, 0);
    var s := Survivors(es, keyfun, 0);
    var kept := Strip(s);
    assert s[a] in s;
    forall b | a < b < |kept| && kept[b].ephemeral && kept[a].ephemeral
      ensures SafeKey(keyfun, kept[b]) != SafeKey(keyfun, kept[a])
    {
      assert s[b] in s && s[a].0 < s[b].0;
      assert !Superseded(es, keyfun, s[a].0);
    }
  }

  /** Coalescing is idempotent: a second pass keeps everything and supersedes nothing. */
  lemma {:induction false} SecondPassKeepsAll(es: seq<Envelope>, keyfun: KeyFun, order: Order)
    requires Orders(order) && Enumerates(order(Collect(es, keyfun, 0, START).latest.Keys), Collect(es, keyfun, 0, START).latest.Keys)
    ensures var kept := Selected(Collect(es, keyfun, 0, START), order);
            var again := Collect(kept, keyfun, 0, START);
            && Enumerates(order(again.latest.Keys), again.latest.Keys)
            && Selected(again, order) == kept && again.superseded == []
  {
    OnePassIsSpecification(es, keyfun, order);
    var kept := Selected(Collect(es, keyfun, 0, START), order);
    OnePassIsSpecification(kept, keyfun, order);
    var again := Collect(kept, keyfun, 0, START);
    forall j | 0 <= j < |kept| ensures !Superseded(kept, keyfun, j) {
      SurvivorsSurvive(es, keyfun, j);
    }
    NothingToDrop(kept, keyfun, 0);
    assert kept[0..] == kept;
    assert |multiset(kept) + multiset(again.superseded)| == |kept| + |again.superseded|;
  }

  // ---- with acknowledgement ----

  datatype Coalesced = Coalesced(envelopes: seq<Envelope>, coalesced: nat, acks: Counts)

  /** latest: validate, collapse, release what was superseded. */
  ghost function Latest(rt: Runtime, es: seq<Envelope>, keyfun: KeyFun, order: Order, limit: nat)
    : (Runtime, Result<Coalesced>)
    requires Orders(order)
  {
    if BoundedList(es, limit).Error? then (rt, Error(BatchTooLarge))
    else match CollectAcks(es, map[])   // validate-envelopes
      case Error(r) => (rt, Error(r))
      case Ok(_) =>
        var s := Collect(es, keyfun, 0, START);
        assert Enumerates(order(s.latest.Keys), s.latest.Keys);
        var selected := Selected(s, order);
        if s.superseded == [] then (rt, Ok(Coalesced(selected, 0, Counts(0, 0))))
        else
          var (after, r) := AckGrouped(rt, s.superseded, order);
          match r
          case Ok(acks) => (after, Ok(Coalesced(selected, |s.superseded|, acks)))
          case Error(e) => (after, Error(e))
  }

  /** What coalescing may have released: only superseded envelopes of the batch. */
  ghost predicate ReleasedAsSuperseded(es: seq<Envelope>, keyfun: KeyFun, p: Pair) {
    exists i :: 0 <= i < |es| && EnvelopeAck(es[i]) == Ok(p) && Superseded(es, keyfun, i)
  }

  /** Whatever the runtime does, coalescing releases superseded envelopes only; on
      success all of them, and the rest of the batch is handed on in order. */
  lemma {:induction false} LatestReleasesSuperseded(rt: Runtime, es: seq<Envelope>, keyfun: KeyFun,
                                                    order: Order, limit: nat)
    requires Orders(order)
    ensures var (after, r) := Latest(rt, es, keyfun, order, limit);
            && after.reserved <= rt.reserved
            && (forall p :: p in rt.reserved - after.reserved ==> ReleasedAsSuperseded(es, keyfun, p))
            && (r.Ok? ==>
                  && HaveIds(es) && |es| <= limit
                  && r.value.envelopes == Strip(Survivors(es, keyfun, 0))
                  && |r.value.envelopes| + r.value.coalesced == |es|
                  && r.value.acks.acked + r.value.acks.unknown == r.value.coalesced)
  {
    BoundedExactly(es, limit);
    GroupingSucceeds(es, map[]);
    OnePassIsSpecification(es, keyfun, order);
    var s := Collect(es, keyfun, 0, START);
    var gone := s.superseded;
    AckGroupedReleases(rt, gone, order);
    assert |multiset(Selected(s, order)) + multiset(gone)| == |es|;
    forall p | p in PairsOf(gone) ensures ReleasedAsSuperseded(es, keyfun, p) {
      var i :| 0 <= i < |gone| && EnvelopeAck(gone[i]) == Ok(p);
      assert gone[i] in gone;
    }
  }

  /** A batch within the limit whose envelopes have their ids is only refused when the
      runtime refuses an acknowledgement. */
  lemma {:induction false} LatestSucceeds(rt: Runtime, es: seq<Envelope>, keyfun: KeyFun, order: Order, limit: nat)
    requires Orders(order) && Willing(rt)
    ensures Latest(rt, es, keyfun, order, limit).1.Ok? <==> |es| <= limit && HaveIds(es)
  {
    BoundedExactly(es, limit);
    GroupingSucceeds(es, map[]);
    OnePassIsSpecification(es, keyfun, order);
    var gone := Collect(es, keyfun, 0, START).superseded;
    WillingAckGrouped(rt, gone, order);
    if HaveIds(es) {
      forall j | 0 <= j < |gone| ensures EnvelopeAck(gone[j]).Ok? {
        assert gone[j] in gone;
      }
    }
  }

  /** On success every superseded envelope of a batch without duplicate ids has
      been released. */
  lemma {:induction false} LatestReleasesAll(rt: Runtime, es: seq<Envelope>, keyfun: KeyFun, order: Order,
                                             limit: nat, i: nat)
    requires Orders(order) && DistinctPairs(es) && Latest(rt, es, keyfun, order, limit).1.Ok?
    requires i < |es| && Superseded(es, keyfun, i)
    ensures EnvelopeAck(es[i]).value !in Latest(rt, es, keyfun, order, limit).0.reserved
  {
    OnePassIsSpecification(es, keyfun, order);
    SurvivorsAre(es, keyfun, 0);
    var s := Collect(es, keyfun, 0, START);
    var kept, gone := Selected(s, order), s.superseded;
    assert es[i] !in kept by {
      forall a | 0 <= a < |kept| ensures kept[a] != es[i] {
        var x := Survivors(es, keyfun, 0)[a];
        assert x in Survivors(es, keyfun, 0) && kept[a] == es[x.0] && x.0 != i;
        assert EnvelopeAck(es[x.0]) != EnvelopeAck(es[i]);
      }
    }
    assert es[i] in multiset(es) && es[i] in multiset(kept) + multiset(gone);
    assert es[i] in gone;
    var j :| 0 <= j < |gone| && gone[j] == es[i];
    assert EnvelopeAck(es[i]).value in PairsOf(gone);
    AckGroupedReleases(rt, gone, order);
  }
}
