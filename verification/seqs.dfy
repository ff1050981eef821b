/** Sequence helpers shared by the catalogue transforms: keeping the first
    record per key (the `seen`-set loops and insertion-ordered dicts of the
    Python code), filtering and counting. */
module Seqs {

  /** The keys that occur in `xs`. */
  function Keys<T, K>(xs: seq<T>, key: T -> K): set<K> {
    set i | 0 <= i < |xs| :: key(xs[i])
  }

  lemma KeysSnoc<T, K>(xs: seq<T>, x: T, key: T -> K)
    ensures Keys(xs + [x], key) == Keys(xs, key) + {key(x)}
  {
    var ys := xs + [x];
    assert key(ys[|xs|]) == key(x);
    forall c | c in Keys(xs, key) ensures c in Keys(ys, key) {
      var i :| 0 <= i < |xs| && key(xs[i]) == c;
      assert key(ys[i]) == c;
    }
  }

  /** `xs` with every element whose key was already seen dropped: the first
      element per key, in first-occurrence order. This is the Python loop
      that keeps a `seen` set and appends unseen elements. */
  function KeepFirst<T, K(==)>(xs: seq<T>, key: T -> K): (r: seq<T>)
    ensures |r| <= |xs|
    ensures Keys(r, key) == Keys(xs, key)
    ensures forall k, l | 0 <= k < l < |r| :: key(r[k]) != key(r[l])
    ensures forall k | 0 <= k < |r| :: r[k] in xs
  {
    if |xs| == 0 then []
    else
      var init := xs[..|xs| - 1];
      var x := xs[|xs| - 1];
      assert xs == init + [x];
      var rest := KeepFirst(init, key);
      KeysSnoc(init, x, key);
      if key(x) in Keys(init, key) then rest
      else
        KeysSnoc(rest, x, key);
        assert forall k | 0 <= k < |rest| :: key(rest[k]) in Keys(rest, key);
        rest + [x]
  }

  /** What the Python `seen`-set loop does with one more element. */
  lemma KeepFirstSnoc<T, K>(xs: seq<T>, x: T, key: T -> K)
    ensures KeepFirst(xs + [x], key)
         == if key(x) in Keys(xs, key) then KeepFirst(xs, key) else KeepFirst(xs, key) + [x]
  {
    assert (xs + [x])[..|xs|] == xs;
  }

  /** Keeping first occurrences twice changes nothing. */
  lemma {:induction false} KeepFirstIdempotent<T, K>(xs: seq<T>, key: T -> K)
    ensures KeepFirst(KeepFirst(xs, key), key) == KeepFirst(xs, key)
  {
    var r := KeepFirst(xs, key);
    DistinctKeysKept(r, key);
  }

  /** A sequence whose keys are already pairwise distinct is kept whole. */
  lemma {:induction false} DistinctKeysKept<T, K>(xs: seq<T>, key: T -> K)
    requires forall k, l | 0 <= k < l < |xs| :: key(xs[k]) != key(xs[l])
    ensures KeepFirst(xs, key) == xs
  {
    if |xs| > 0 {
      var init := xs[..|xs| - 1];
      DistinctKeysKept(init, key);
      assert key(xs[|xs| - 1]) !in Keys(init, key);
      assert init + [xs[|xs| - 1]] == xs;
    }
  }

  function Same<T>(x: T): T { x }

  /** `list(set(xs))` with the order fixed to first occurrences: every
      element of `xs` once. Callers promise no order. */
  function Distinct<T(==,!new)>(xs: seq<T>): (r: seq<T>)
    ensures |r| <= |xs|
    ensures forall x :: x in r <==> x in xs
    ensures forall k, l | 0 <= k < l < |r| :: r[k] != r[l]
  {
    var r := KeepFirst(xs, Same);
    assert forall x | x in xs :: x in r by {
      forall x | x in xs ensures x in r {
        var i :| 0 <= i < |xs| && xs[i] == x;
        assert Same(xs[i]) in Keys(xs, Same);
        var k :| 0 <= k < |r| && Same(r[k]) == x;
      }
    }
    r
  }

  /** The lists `f` gives for the elements of `xs`, concatenated in order:
      a Python loop that extends one list per element. */
  function FlatMap<A, B>(xs: seq<A>, f: A -> seq<B>): seq<B> {
    if |xs| == 0 then [] else FlatMap(xs[..|xs| - 1], f) + f(xs[|xs| - 1])
  }

  /** An element is in the concatenation exactly when one of the lists holds it. */
  lemma {:induction false} FlatMapMember<A, B>(xs: seq<A>, f: A -> seq<B>, y: B)
    ensures y in FlatMap(xs, f) <==> exists t | 0 <= t < |xs| :: y in f(xs[t])
  {
    if |xs| > 0 {
      var n := |xs| - 1;
      var init := xs[..n];
      FlatMapMember(init, f, y);
      if y in FlatMap(init, f) {
        var t :| 0 <= t < n && y in f(init[t]);
        assert init[t] == xs[t];
      }
      if exists t | 0 <= t < |xs| :: y in f(xs[t]) {
        var t :| 0 <= t < |xs| && y in f(xs[t]);
        if t < n {
          assert init[t] == xs[t];
        }
      }
    }
  }

  /** A property of every element of every list holds throughout the
      concatenation. */
  lemma {:induction false} FlatMapAll<A, B>(xs: seq<A>, f: A -> seq<B>, p: B -> bool)
    requires forall t, k | 0 <= t < |xs| && 0 <= k < |f(xs[t])| :: p(f(xs[t])[k])
    ensures forall k | 0 <= k < |FlatMap(xs, f)| :: p(FlatMap(xs, f)[k])
  {
    if |xs| > 0 {
      var n := |xs| - 1;
      var init := xs[..n];
      assert forall t | 0 <= t < n :: init[t] == xs[t];
      FlatMapAll(init, f, p);
      var a := FlatMap(init, f);
      var b := f(xs[n]);
      assert forall k | |a| <= k < |a + b| :: (a + b)[k] == b[k - |a|];
    }
  }

  /** The elements of `xs` satisfying `p`, in order. */
  function Filter<T>(xs: seq<T>, p: T -> bool): (r: seq<T>)
    ensures |r| <= |xs|
    ensures forall k | 0 <= k < |r| :: p(r[k])
    ensures forall k | 0 <= k < |r| :: r[k] in xs
    ensures forall k | 0 <= k < |xs| && p(xs[k]) :: xs[k] in r
  {
    if |xs| == 0 then []
    else Filter(xs[..|xs| - 1], p) + (if p(xs[|xs| - 1]) then [xs[|xs| - 1]] else [])
  }

  /** The list a dict of lists holds under `k`; empty when `k` is absent. */
  function Entries<K, V>(m: map<K, seq<V>>, k: K): seq<V> {
    if k in m then m[k] else []
  }

  /** The number of elements of `xs` satisfying `p`. */
  function Count<T>(xs: seq<T>, p: T -> bool): nat {
    |Filter(xs, p)|
  }

  /** Filtering a concatenation filters each part. */
  lemma {:induction false} FilterAppend<T>(a: seq<T>, b: seq<T>, p: T -> bool)
    ensures Filter(a + b, p) == Filter(a, p) + Filter(b, p)
    decreases |b|
  {
    if |b| > 0 {
      var n := |b| - 1;
      FilterAppend(a, b[..n], p);
      assert (a + b)[..|a + b| - 1] == a + b[..n];
    } else {
      assert a + b == a;
    }
  }

  /** Nothing is kept when no element satisfies the test. */
  lemma FilterNone<T>(xs: seq<T>, p: T -> bool)
    requires forall k | 0 <= k < |xs| :: !p(xs[k])
    ensures Filter(xs, p) == []
  {
  }

  /** `Filter` seen from the front, as a loop over the sequence walks it. */
  lemma {:induction false} FilterCons<T>(x: T, xs: seq<T>, p: T -> bool)
    ensures Filter([x] + xs, p) == (if p(x) then [x] else []) + Filter(xs, p)
    decreases |xs|
  {
    var ys := [x] + xs;
    if |xs| == 0 {
      assert ys[..0] == [];
    } else {
      var init := xs[..|xs| - 1];
      assert ys[..|ys| - 1] == [x] + init;
      FilterCons(x, init, p);
    }
  }

  /** `Filter` read from the front: the head, if it qualifies, then the
      filtered tail. */
  lemma FilterHead<T>(xs: seq<T>, p: T -> bool)
    requires |xs| > 0
    ensures Filter(xs, p) == (if p(xs[0]) then [xs[0]] else []) + Filter(xs[1..], p)
  {
    var x, rest := xs[0], xs[1..];
    FilterCons(x, rest, p);
    assert xs == [x] + rest;
  }

  /** Filtering keeps every pairwise relation the input had between an
      earlier and a later element (its order, its distinctness). */
  lemma {:induction false} FilterKeepsPairwise<T>(xs: seq<T>, p: T -> bool, rel: (T, T) -> bool)
    requires forall k, l | 0 <= k < l < |xs| :: rel(xs[k], xs[l])
    ensures forall k, l | 0 <= k < l < |Filter(xs, p)| :: rel(Filter(xs, p)[k], Filter(xs, p)[l])
    decreases |xs|
  {
    if |xs| > 0 {
      var init := xs[..|xs| - 1];
      var x := xs[|xs| - 1];
      FilterKeepsPairwise(init, p, rel);
      var f := Filter(init, p);
      forall k | 0 <= k < |f| ensures rel(f[k], x) {
        assert f[k] in init;
        var j :| 0 <= j < |init| && init[j] == f[k];
        assert xs[j] == f[k];
      }
    }
  }

  /** Filtering with a predicate every element meets keeps everything. */
  lemma {:induction false} FilterAll<T>(xs: seq<T>, p: T -> bool)
    requires forall k | 0 <= k < |xs| :: p(xs[k])
    ensures Filter(xs, p) == xs
    decreases |xs|
  {
    if |xs| > 0 {
      FilterAll(xs[..|xs| - 1], p);
      assert xs[..|xs| - 1] + [xs[|xs| - 1]] == xs;
    }
  }

  /** Filtering out one value of a duplicate-free sequence that holds it
      shortens it by exactly one. */
  lemma {:induction false} FilterOutOne<T>(xs: seq<T>, v: T, p: T -> bool)
    requires forall k, l | 0 <= k < l < |xs| :: xs[k] != xs[l]
    requires v in xs
    requires forall k | 0 <= k < |xs| :: p(xs[k]) <==> xs[k] != v
    ensures |Filter(xs, p)| == |xs| - 1
    decreases |xs|
  {
    var init := xs[..|xs| - 1];
    var x := xs[|xs| - 1];
    if x == v {
      assert v !in init;
      FilterAll(init, p);
    } else {
      assert v in init;
      FilterOutOne(init, v, p);
    }
  }
  /** `Count` grows by one exactly when the appended element qualifies. */
  lemma CountSnoc<T>(xs: seq<T>, x: T, p: T -> bool)
    ensures Count(xs + [x], p) == Count(xs, p) + (if p(x) then 1 else 0)
  {
    assert (xs + [x])[..|xs|] == xs;
  }

  /** A weaker predicate counts at least as many elements. */
  lemma {:induction false} CountMono<T>(xs: seq<T>, p: T -> bool, q: T -> bool)
    requires forall k | 0 <= k < |xs| :: p(xs[k]) ==> q(xs[k])
    ensures Count(xs, p) <= Count(xs, q)
    decreases |xs|
  {
    if |xs| > 0 {
      var init := xs[..|xs| - 1];
      CountMono(init, p, q);
      CountSnoc(init, xs[|xs| - 1], p);
      CountSnoc(init, xs[|xs| - 1], q);
      assert init + [xs[|xs| - 1]] == xs;
    }
  }

  /** Every element is counted by exactly one of two complementary
      predicates. */
  lemma {:induction false} CountComplement<T>(xs: seq<T>, p: T -> bool, q: T -> bool)
    requires forall k | 0 <= k < |xs| :: q(xs[k]) <==> !p(xs[k])
    ensures Count(xs, p) + Count(xs, q) == |xs|
    decreases |xs|
  {
    if |xs| > 0 {
      var init := xs[..|xs| - 1];
      CountComplement(init, p, q);
      CountSnoc(init, xs[|xs| - 1], p);
      CountSnoc(init, xs[|xs| - 1], q);
      assert init + [xs[|xs| - 1]] == xs;
    }
  }

  /** An element counted by `p` is counted by `q` or by `r`, so `p` counts no
      more than both together. */
  lemma {:induction false} CountUnionBound<T>(xs: seq<T>, p: T -> bool, q: T -> bool, r: T -> bool)
    requires forall k | 0 <= k < |xs| :: p(xs[k]) ==> q(xs[k]) || r(xs[k])
    ensures Count(xs, p) <= Count(xs, q) + Count(xs, r)
    decreases |xs|
  {
    if |xs| > 0 {
      var init := xs[..|xs| - 1];
      CountUnionBound(init, p, q, r);
      CountSnoc(init, xs[|xs| - 1], p);
      CountSnoc(init, xs[|xs| - 1], q);
      CountSnoc(init, xs[|xs| - 1], r);
      assert init + [xs[|xs| - 1]] == xs;
    }
  }

  /** The number of positions at which two equally long sequences differ. */
  function Mismatches<T(==)>(a: seq<T>, b: seq<T>): nat
    requires |a| == |b|
  {
    if |a| == 0 then 0
    else Mismatches(a[..|a| - 1], b[..|b| - 1]) + (if a[|a| - 1] != b[|b| - 1] then 1 else 0)
  }

  /** Appending one pair of elements adds one mismatch when they differ. */
  lemma MismatchesSnoc<T>(a: seq<T>, b: seq<T>, y: T)
    requires |a| == |b| + 1
    ensures Mismatches(a, b + [y]) == Mismatches(a[..|b|], b) + (if y != a[|b|] then 1 else 0)
  {
    assert (b + [y])[..|b|] == b;
  }

  /** A sequence differs from itself nowhere. */
  lemma {:induction false} MismatchesSelf<T>(a: seq<T>)
    ensures Mismatches(a, a) == 0
    decreases |a|
  {
    if |a| > 0 {
      MismatchesSelf(a[..|a| - 1]);
    }
  }

  /** Nothing is counted when no element qualifies. */
  lemma {:induction false} CountNone<T>(xs: seq<T>, p: T -> bool)
    requires forall k | 0 <= k < |xs| :: !p(xs[k])
    ensures Count(xs, p) == 0
    decreases |xs|
  {
    if |xs| > 0 {
      var init := xs[..|xs| - 1];
      CountNone(init, p);
      CountSnoc(init, xs[|xs| - 1], p);
      assert init + [xs[|xs| - 1]] == xs;
    }
  }
}
