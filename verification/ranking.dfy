/** The ranking half of `MedicineRecommender.recommend_similar`. The TF-IDF
    vectors and their cosine similarities are floating-point library code and
    are not modelled: the similarity of the query row to every trained row
    is an input `sims`, and the arrangement `np.argsort(sims)[::-1]` is an
    input `order` that may be any arrangement of the rows by non-increasing
    score (the default sort is not stable, so ties come in no promised
    order). */
module Ranking {
  import opened Wrappers
  import opened Seqs

  /** `order` lists every row 0..|sims|-1 exactly once, by non-increasing
      score. */
  predicate IsDescendingOrder(sims: seq<real>, order: seq<nat>) {
    && |order| == |sims|
    && (forall k | 0 <= k < |order| :: order[k] < |sims|)
    && (forall i | 0 <= i < |sims| :: i in order)
    && (forall k, l | 0 <= k < l < |order| :: order[k] != order[l])
    && (forall k, l | 0 <= k < l < |order| :: sims[order[k]] >= sims[order[l]])
  }

  predicate Descending(sims: seq<real>, rows: seq<nat>)
    requires forall k | 0 <= k < |rows| :: rows[k] < |sims|
  {
    forall k, l | 0 <= k < l < |rows| :: sims[rows[k]] >= sims[rows[l]]
  }

  /** Where row `i` goes in `sorted`: before the first row that does not
      score higher. */
  function InsertPos(sims: seq<real>, sorted: seq<nat>, i: nat): (p: nat)
    requires i < |sims|
    requires forall k | 0 <= k < |sorted| :: sorted[k] < |sims|
    ensures p <= |sorted|
    ensures forall k | 0 <= k < p :: sims[sorted[k]] > sims[i]
    ensures p < |sorted| ==> sims[i] >= sims[sorted[p]]
  {
    if |sorted| == 0 || sims[i] >= sims[sorted[0]] then 0
    else 1 + InsertPos(sims, sorted[1..], i)
  }

  /** Inserts row `i` in front of the first row that does not score higher. */
  function InsertByScore(sims: seq<real>, sorted: seq<nat>, i: nat): (r: seq<nat>)
    requires i < |sims|
    requires forall k | 0 <= k < |sorted| :: sorted[k] < |sims|
    requires Descending(sims, sorted)
    ensures |r| == |sorted| + 1
    ensures forall k | 0 <= k < |r| :: r[k] < |sims|
    ensures forall x :: x in r <==> x in sorted || x == i
    ensures Descending(sims, r)
    ensures i !in sorted && (forall k, l | 0 <= k < l < |sorted| :: sorted[k] != sorted[l])
            ==> forall k, l | 0 <= k < l < |r| :: r[k] != r[l]
  {
    var p := InsertPos(sims, sorted, i);
    var r := sorted[..p] + [i] + sorted[p..];
    InsertShape(sorted, i, p, r);
    InsertDescending(sims, sorted, i, p, r);
    r
  }

  lemma InsertShape(sorted: seq<nat>, i: nat, p: nat, r: seq<nat>)
    requires p <= |sorted|
    requires r == sorted[..p] + [i] + sorted[p..]
    ensures |r| == |sorted| + 1
    ensures forall k | 0 <= k < p :: r[k] == sorted[k]
    ensures r[p] == i
    ensures forall k | p < k < |r| :: r[k] == sorted[k - 1]
    ensures forall x :: x in r <==> x in sorted || x == i
    ensures i !in sorted && (forall k, l | 0 <= k < l < |sorted| :: sorted[k] != sorted[l])
            ==> forall k, l | 0 <= k < l < |r| :: r[k] != r[l]
  {
    assert sorted == sorted[..p] + sorted[p..];
  }

  lemma InsertDescending(sims: seq<real>, sorted: seq<nat>, i: nat, p: nat, r: seq<nat>)
    requires i < |sims|
    requires forall k | 0 <= k < |sorted| :: sorted[k] < |sims|
    requires Descending(sims, sorted)
    requires p <= |sorted|
    requires forall k | 0 <= k < p :: sims[sorted[k]] > sims[i]
    requires p < |sorted| ==> sims[i] >= sims[sorted[p]]
    requires |r| == |sorted| + 1
    requires forall k | 0 <= k < p :: r[k] == sorted[k]
    requires r[p] == i
    requires forall k | p < k < |r| :: r[k] == sorted[k - 1]
    ensures forall k | 0 <= k < |r| :: r[k] < |sims|
    ensures Descending(sims, r)
  {
    forall k, l | 0 <= k < l < |r| ensures sims[r[k]] >= sims[r[l]] {
      if l == p {
      } else if k == p {
        assert sims[sorted[p]] >= sims[sorted[l - 1]];
      } else if k < p && l > p {
        assert sims[sorted[k]] >= sims[sorted[l - 1]];
      } else if k > p {
        assert sims[sorted[k - 1]] >= sims[sorted[l - 1]];
      }
    }
  }

  /** Insertion sort of the rows 0..n-1 by non-increasing score. */
  function SortRows(sims: seq<real>, n: nat): (r: seq<nat>)
    requires n <= |sims|
    ensures |r| == n
    ensures forall k | 0 <= k < |r| :: r[k] < n
    ensures forall i | 0 <= i < n :: i in r
    ensures forall k, l | 0 <= k < l < |r| :: r[k] != r[l]
    ensures Descending(sims, r)
  {
    if n == 0 then []
    else
      var prev := SortRows(sims, n - 1);
      var r := InsertByScore(sims, prev, n - 1);
      assert forall k | 0 <= k < |r| :: r[k] < n by {
        forall k | 0 <= k < |r| ensures r[k] < n {
          assert r[k] in r;
        }
      }
      r
  }

  /** One arrangement `np.argsort(sims)[::-1]` may return; it shows that the
      order every ranking below is given can always be had. */
  function SortDescending(sims: seq<real>): (order: seq<nat>)
    ensures IsDescendingOrder(sims, order)
  {
    SortRows(sims, |sims|)
  }

  /** The rows the result loop may keep: all but the skipped one. */
  function Kept(skip: Option<nat>): nat -> bool {
    (i: nat) => skip != Some(i)
  }

  /** How many rows the loop collects at most: it appends before checking
      `len(recommendations) >= top_n`, so a bound of zero or less still lets
      one row through. */
  function Cap(topN: int): nat {
    if topN <= 0 then 1 else topN
  }

  function Min(a: int, b: int): int {
    if a <= b then a else b
  }

  /** The result loop of `recommend_similar` as written: walk `order`, skip
      the excluded row, append, and stop as soon as `top_n` rows are held. */
  function Pick(order: seq<nat>, skip: Option<nat>, topN: int, acc: seq<nat>): seq<nat>
    decreases |order|
  {
    if |order| == 0 then acc
    else if skip == Some(order[0]) then Pick(order[1..], skip, topN, acc)
    else
      var acc' := acc + [order[0]];
      if |acc'| >= topN then acc' else Pick(order[1..], skip, topN, acc')
  }

  /** One step of the loop: the first row is skipped, or appended and the
      loop stops once `top_n` rows are held, or appended and the loop goes
      on. */
  lemma PickStep(order: seq<nat>, skip: Option<nat>, topN: int, acc: seq<nat>)
    requires |order| > 0
    ensures skip == Some(order[0]) ==> Pick(order, skip, topN, acc) == Pick(order[1..], skip, topN, acc)
    ensures skip != Some(order[0]) && |acc| + 1 >= topN ==> Pick(order, skip, topN, acc) == acc + [order[0]]
    ensures skip != Some(order[0]) && |acc| + 1 < topN
            ==> Pick(order, skip, topN, acc) == Pick(order[1..], skip, topN, acc + [order[0]])
  {
  }

  /** The window of `Cap(top_n)` rows the loop collects, starting from the
      rows already held. */
  function Window(order: seq<nat>, skip: Option<nat>, topN: int, acc: seq<nat>): seq<nat> {
    var f := Filter(order, Kept(skip));
    (acc + f)[..Min(Cap(topN), |acc| + |f|)]
  }

  /** A skipped first row leaves the window as it is. */
  lemma WindowSkip(order: seq<nat>, skip: Option<nat>, topN: int, acc: seq<nat>)
    requires |order| > 0 && skip == Some(order[0])
    ensures Window(order, skip, topN, acc) == Window(order[1..], skip, topN, acc)
  {
    FilterHead(order, Kept(skip));
  }

  /** An appended first row that fills the window is the whole window. */
  lemma WindowStop(order: seq<nat>, skip: Option<nat>, topN: int, acc: seq<nat>)
    requires |acc| < Cap(topN)
    requires |order| > 0 && skip != Some(order[0]) && |acc| + 1 >= topN
    ensures Window(order, skip, topN, acc) == acc + [order[0]]
  {
    FilterHead(order, Kept(skip));
    var fr := Filter(order[1..], Kept(skip));
    assert (acc + ([order[0]] + fr))[..|acc| + 1] == acc + [order[0]];
  }

  /** A kept first row moves from the rows to come to the rows held. */
  lemma WindowKeep(order: seq<nat>, skip: Option<nat>, topN: int, acc: seq<nat>)
    requires |order| > 0 && skip != Some(order[0])
    ensures Window(order, skip, topN, acc) == Window(order[1..], skip, topN, acc + [order[0]])
  {
    FilterHead(order, Kept(skip));
    ShiftOne(acc, order[0], Filter(order[1..], Kept(skip)), Cap(topN));
  }

  /** Moving one row from the front of the remaining rows to the end of the
      rows held leaves the window as it is. */
  lemma ShiftOne(acc: seq<nat>, x: nat, rest: seq<nat>, cap: nat)
    ensures (acc + ([x] + rest))[..Min(cap, |acc| + |[x] + rest|)]
         == ((acc + [x]) + rest)[..Min(cap, |acc + [x]| + |rest|)]
  {
    assert acc + ([x] + rest) == (acc + [x]) + rest;
  }

  /** The loop collects the first `Cap(top_n)` rows of `order` that are not
      skipped, or all of them when there are fewer. */
  lemma {:induction false} PickTakesWindow(order: seq<nat>, skip: Option<nat>, topN: int, acc: seq<nat>)
    requires |acc| < Cap(topN)
    ensures Pick(order, skip, topN, acc) == Window(order, skip, topN, acc)
    decreases |order|
  {
    if |order| == 0 {
      assert (acc + [])[..|acc|] == acc;
    } else {
      PickStep(order, skip, topN, acc);
      if skip == Some(order[0]) {
        PickTakesWindow(order[1..], skip, topN, acc);
        WindowSkip(order, skip, topN, acc);
      } else if |acc| + 1 >= topN {
        WindowStop(order, skip, topN, acc);
      } else {
        PickTakesWindow(order[1..], skip, topN, acc + [order[0]]);
        WindowKeep(order, skip, topN, acc);
      }
    }
  }

  /** The rows `recommend_similar` returns, in order: the first
      `Cap(top_n)` rows of `order` other than the skipped one. */
  function Rank(order: seq<nat>, skip: Option<nat>, topN: int): (r: seq<nat>)
    ensures var f := Filter(order, Kept(skip)); r == f[..Min(Cap(topN), |f|)]
    ensures skip.Some? ==> skip.value !in r
    ensures topN <= 0 ==> |r| <= 1
  {
    PickTakesWindow(order, skip, topN, []);
    var f := Filter(order, Kept(skip));
    assert [] + f == f;
    var r := Pick(order, skip, topN, []);
    assert forall k | 0 <= k < |r| :: r[k] in f;
    r
  }

  /** The rows of a ranking over a genuine arrangement are rows of `sims`. */
  lemma RankRowsInRange(sims: seq<real>, order: seq<nat>, skip: Option<nat>, topN: int)
    requires IsDescendingOrder(sims, order)
    ensures forall k | 0 <= k < |Rank(order, skip, topN)| :: Rank(order, skip, topN)[k] < |sims|
  {
    var f := Filter(order, Kept(skip));
    assert forall k | 0 <= k < |f| :: f[k] in order;
  }

  /** What a ranking over a genuine arrangement promises: distinct rows in
      range, scores non-increasing, and its length: `min(top_n, n - 1)` when
      one present row is skipped, `min(top_n, n)` when none is. */
  lemma RankProperties(sims: seq<real>, order: seq<nat>, skip: Option<nat>, topN: int)
    requires IsDescendingOrder(sims, order)
    ensures var r := Rank(order, skip, topN);
            && (forall k | 0 <= k < |r| :: r[k] < |sims|)
            && (forall k, l | 0 <= k < l < |r| :: r[k] != r[l])
            && (forall k, l | 0 <= k < l < |r| :: sims[r[k]] >= sims[r[l]])
    ensures skip.Some? && skip.value < |sims| && topN >= 1
            ==> |Rank(order, skip, topN)| == Min(topN, |sims| - 1)
    ensures skip.None? && topN >= 1 ==> |Rank(order, skip, topN)| == Min(topN, |sims|)
  {
    RankRows(sims, order, skip, topN);
    KeptLength(sims, order, skip);
  }

  /** The rows of a ranking are in range, distinct and by non-increasing
      score. */
  lemma RankRows(sims: seq<real>, order: seq<nat>, skip: Option<nat>, topN: int)
    requires IsDescendingOrder(sims, order)
    ensures var r := Rank(order, skip, topN);
            && (forall k | 0 <= k < |r| :: r[k] < |sims|)
            && (forall k, l | 0 <= k < l < |r| :: r[k] != r[l])
            && (forall k, l | 0 <= k < l < |r| :: sims[r[k]] >= sims[r[l]])
  {
    var f := Filter<nat>(order, Kept(skip));
    var r := Rank(order, skip, topN);
    KeptRows(sims, order, skip, f);
    assert forall k | 0 <= k < |r| :: r[k] == f[k];
    PrefixRows(sims, f, r);
  }

  /** The rows a skip keeps are in range, distinct and by non-increasing
      score. */
  lemma KeptRows(sims: seq<real>, order: seq<nat>, skip: Option<nat>, f: seq<nat>)
    requires IsDescendingOrder(sims, order)
    requires f == Filter(order, Kept(skip))
    ensures forall k | 0 <= k < |f| :: f[k] < |sims|
    ensures forall k, l | 0 <= k < l < |f| :: f[k] != f[l]
    ensures forall k, l | 0 <= k < l < |f| :: sims[f[k]] >= sims[f[l]]
  {
    var p := Kept(skip);
    FilterKeepsPairwise(order, p, (a: nat, b: nat) => a != b);
    FilterKeepsPairwise(order, p, (a: nat, b: nat) => a < |sims| && b < |sims| && sims[a] >= sims[b]);
    forall k | 0 <= k < |f| ensures f[k] < |sims| {
      assert f[k] in order;
    }
  }

  /** A prefix of in-range, distinct rows by non-increasing score is so too. */
  lemma PrefixRows(sims: seq<real>, f: seq<nat>, r: seq<nat>)
    requires |r| <= |f| && forall k | 0 <= k < |r| :: r[k] == f[k]
    requires forall k | 0 <= k < |f| :: f[k] < |sims|
    requires forall k, l | 0 <= k < l < |f| :: f[k] != f[l]
    requires forall k, l | 0 <= k < l < |f| :: sims[f[k]] >= sims[f[l]]
    ensures forall k | 0 <= k < |r| :: r[k] < |sims|
    ensures forall k, l | 0 <= k < l < |r| :: r[k] != r[l]
    ensures forall k, l | 0 <= k < l < |r| :: sims[r[k]] >= sims[r[l]]
  {
  }

  /** A skipped row in range removes exactly one row; no skip removes
      none. */
  lemma KeptLength(sims: seq<real>, order: seq<nat>, skip: Option<nat>)
    requires IsDescendingOrder(sims, order)
    ensures skip.Some? && skip.value < |sims| ==> |Filter<nat>(order, Kept(skip))| == |sims| - 1
    ensures skip.None? ==> Filter<nat>(order, Kept(skip)) == order
  {
    var p := Kept(skip);
    if skip.Some? && skip.value < |sims| {
      assert skip.value in order;
      FilterOutOne(order, skip.value, p);
    }
    if skip.None? {
      FilterAll(order, p);
    }
  }
}
