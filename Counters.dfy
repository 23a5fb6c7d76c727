/**
 * `collections.Counter` as the core uses it: a dict from keys to counts whose
 * iteration order (`.items()`, `.keys()`, `.values()`) is the order in which
 * the keys were first inserted. A missing key reads as 0, and `c[k] += 1`
 * on a missing key appends it with count 1.
 */
module Counters {
  import opened Wrappers

  /** The (key, count) pairs in iteration order. */
  type Counter<K> = seq<(K, nat)>

  predicate DistinctKeys<K(==)>(c: Counter<K>)
  {
    forall i, j :: 0 <= i < j < |c| ==> c[i].0 != c[j].0
  }

  /** Every stored count is at least 1, as in a counter built only by increments. */
  predicate AllPositive<K>(c: Counter<K>)
  {
    forall i :: 0 <= i < |c| ==> c[i].1 >= 1
  }

  predicate Valid<K(==)>(c: Counter<K>)
  {
    DistinctKeys(c) && AllPositive(c)
  }

  /** `list(c.keys())`. */
  function Keys<K>(c: Counter<K>): (ks: seq<K>)
    ensures |ks| == |c| && forall i :: 0 <= i < |c| ==> ks[i] == c[i].0
  {
    if c == [] then [] else [c[0].0] + Keys(c[1..])
  }

  /** The position of key `k`, if present. */
  function IndexOf<K(==)>(c: Counter<K>, k: K): (r: Option<nat>)
    ensures r.Some? ==> r.value < |c| && c[r.value].0 == k
    ensures r.None? ==> forall i :: 0 <= i < |c| ==> c[i].0 != k
    ensures r.Some? ==> forall i :: 0 <= i < r.value ==> c[i].0 != k
  {
    if c == [] then None
    else if c[0].0 == k then Some(0)
    else match IndexOf(c[1..], k)
      case None => None
      case Some(i) => Some(i + 1)
  }

  /** `c[k]`, which is 0 for a missing key. */
  function Get<K(==)>(c: Counter<K>, k: K): nat
  {
    match IndexOf(c, k)
    case None => 0
    case Some(i) => c[i].1
  }

  /** `c[k] += 1`: bumps the count in place, or appends `k` with count 1. */
  function Increment<K(==)>(c: Counter<K>, k: K): Counter<K>
  {
    match IndexOf(c, k)
    case None => c + [(k, 1)]
    case Some(i) => c[i := (k, c[i].1 + 1)]
  }

  /** `sum(c.values())`. */
  function Total<K>(c: Counter<K>): nat
  {
    if c == [] then 0 else c[0].1 + Total(c[1..])
  }

  /** `Counter(xs)`: counts the elements of `xs`, inserting keys as they are first seen. */
  function CounterOf<K(==)>(xs: seq<K>): Counter<K>
  {
    if xs == [] then [] else Increment(CounterOf(xs[..|xs| - 1]), xs[|xs| - 1])
  }

  /** The number of occurrences of `k` in `xs`. */
  function Occurrences<K(==)>(xs: seq<K>, k: K): nat
  {
    if xs == [] then 0
    else Occurrences(xs[..|xs| - 1], k) + (if xs[|xs| - 1] == k then 1 else 0)
  }

  /** The distinct elements of `xs` in the order of their first occurrence. */
  function FirstSeen<K(==)>(xs: seq<K>): seq<K>
  {
    if xs == [] then []
    else
      var f := FirstSeen(xs[..|xs| - 1]);
      if xs[|xs| - 1] in f then f else f + [xs[|xs| - 1]]
  }

  // ------------------------------------------------------------------ lemmas

  lemma IndexOfDistinct<K>(c: Counter<K>, j: nat)
    requires DistinctKeys(c) && j < |c|
    ensures IndexOf(c, c[j].0) == Some(j)
  {
  }

  lemma {:induction false} TotalAppend<K>(c: Counter<K>, e: (K, nat))
    ensures Total(c + [e]) == Total(c) + e.1
  {
    if c == [] {
      assert c + [e] == [e];
    } else {
      TotalAppend(c[1..], e);
      assert (c + [e])[1..] == c[1..] + [e];
    }
  }

  lemma {:induction false} TotalUpdate<K>(c: Counter<K>, i: nat, e: (K, nat))
    requires i < |c|
    ensures Total(c[i := e]) + c[i].1 == Total(c) + e.1
  {
    if i > 0 {
      TotalUpdate(c[1..], i - 1, e);
      assert c[i := e][1..] == c[1..][i - 1 := e];
    } else {
      assert c[i := e][1..] == c[1..];
    }
  }

  lemma {:induction false} KeysAppend<K>(c: Counter<K>, e: (K, nat))
    ensures Keys(c + [e]) == Keys(c) + [e.0]
  {
  }

  /** What one `c[k] += 1` does to a counter. */
  lemma IncrementSpec<K>(c: Counter<K>, k: K)
    requires Valid(c)
    ensures Valid(Increment(c, k))
    ensures forall k' :: Get(Increment(c, k), k') == Get(c, k') + (if k' == k then 1 else 0)
    ensures Total(Increment(c, k)) == Total(c) + 1
    ensures Keys(Increment(c, k)) == if k in Keys(c) then Keys(c) else Keys(c) + [k]
  {
    IncrementValid(c, k);
    forall k' ensures Get(Increment(c, k), k') == Get(c, k') + (if k' == k then 1 else 0) {
      IncrementGet(c, k, k');
    }
    IncrementTotal(c, k);
    IncrementKeys(c, k);
  }

  lemma IncrementValid<K>(c: Counter<K>, k: K)
    requires Valid(c)
    ensures Valid(Increment(c, k))
  {
    match IndexOf(c, k)
    case None =>
      assert Increment(c, k) == c + [(k, 1)];
    case Some(i) =>
      assert Increment(c, k) == c[i := (c[i].0, c[i].1 + 1)];
  }

  /** The increment adds one to the count of `k` and leaves every other count alone. */
  lemma IncrementGet<K>(c: Counter<K>, k: K, k': K)
    requires Valid(c)
    ensures Get(Increment(c, k), k') == Get(c, k') + (if k' == k then 1 else 0)
  {
    IncrementValid(c, k);
    var r := Increment(c, k);
    match IndexOf(c, k)
    case None =>
      assert r == c + [(k, 1)];
      if k' == k {
        IndexOfDistinct(r, |c|);
      } else {
        match IndexOf(c, k')
        case None =>
        case Some(j) => IndexOfDistinct(r, j);
      }
    case Some(i) =>
      assert r == c[i := (k, c[i].1 + 1)];
      if k' == k {
        IndexOfDistinct(r, i);
      } else {
        match IndexOf(c, k')
        case None =>
          assert forall j :: 0 <= j < |r| ==> r[j].0 == c[j].0;
        case Some(j) => IndexOfDistinct(r, j);
      }
  }

  lemma IncrementTotal<K>(c: Counter<K>, k: K)
    ensures Total(Increment(c, k)) == Total(c) + 1
  {
    match IndexOf(c, k)
    case None => TotalAppend(c, (k, 1));
    case Some(i) => TotalUpdate(c, i, (k, c[i].1 + 1));
  }

  /** A new key is appended after the existing ones; an existing key keeps its place. */
  lemma IncrementKeys<K>(c: Counter<K>, k: K)
    ensures Keys(Increment(c, k)) == if k in Keys(c) then Keys(c) else Keys(c) + [k]
  {
    match IndexOf(c, k)
    case None =>
      KeysAppend(c, (k, 1));
      assert k !in Keys(c);
    case Some(i) =>
      assert Keys(c)[i] == k;
      assert Keys(c[i := (k, c[i].1 + 1)]) == Keys(c);
  }

  /** `Counter(xs)` counts every element, keeps its keys in first-seen order, and its values sum to `len(xs)`. */
  lemma {:induction false} CounterOfSpec<K>(xs: seq<K>)
    ensures Valid(CounterOf(xs))
    ensures forall k :: Get(CounterOf(xs), k) == Occurrences(xs, k)
    ensures Total(CounterOf(xs)) == |xs|
    ensures Keys(CounterOf(xs)) == FirstSeen(xs)
  {
    if xs != [] {
      var init := xs[..|xs| - 1];
      CounterOfSpec(init);
      IncrementSpec(CounterOf(init), xs[|xs| - 1]);
    }
  }

  lemma {:induction false} OccurrencesAppend<K>(a: seq<K>, b: seq<K>, k: K)
    ensures Occurrences(a + b, k) == Occurrences(a, k) + Occurrences(b, k)
    decreases |b|
  {
    if b == [] {
      assert a + b == a;
    } else {
      OccurrencesAppend(a, b[..|b| - 1], k);
      assert (a + b)[..|a + b| - 1] == a + b[..|b| - 1];
    }
  }

  /** The first-seen order lists every element of `xs` and nothing else. */
  lemma {:induction false} FirstSeenMembers<K>(xs: seq<K>)
    ensures forall x :: x in FirstSeen(xs) <==> x in xs
  {
    if xs != [] {
      var init := xs[..|xs| - 1];
      FirstSeenMembers(init);
      assert xs == init + [xs[|xs| - 1]];
    }
  }

  /** In a valid counter a key is present exactly when its count is positive. */
  lemma PresentIffPositive<K>(c: Counter<K>, k: K)
    requires Valid(c)
    ensures k in Keys(c) <==> Get(c, k) > 0
  {
    if k in Keys(c) {
      var j :| 0 <= j < |c| && Keys(c)[j] == k;
      IndexOfDistinct(c, j);
    }
  }
}
