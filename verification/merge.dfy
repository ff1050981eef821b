/** `DataEnricher.merge_duplicates`: records whose names agree after
    `lower().strip()` are folded into the first of them. The first record of
    a group absorbs each later one in turn: uses and components become the
    set union, a missing or "Unknown" category is replaced by a known one, a
    missing description by a present one. Python's set order is not
    modelled: the union is kept in first-occurrence order and only its
    contents are promised. */
module MergeDuplicates {
  import opened Wrappers
  import opened Text
  import opened Seqs
  import opened Medicines

  /** `medicine.get('name', '').lower().strip()` */
  function MergeKey(m: Medicine): string {
    Strip(Lower(m.name))
  }

  /** `list(set(a).union(set(b)))`: every element of either list, once. */
  function Union(a: seq<string>, b: seq<string>): (r: seq<string>)
    ensures forall x :: x in r <==> x in a || x in b
    ensures forall k, l | 0 <= k < l < |r| :: r[k] != r[l]
  {
    Distinct(a + b)
  }

  /** The existing record absorbing one later duplicate. */
  function Absorb(e: Medicine, m: Medicine): (r: Medicine)
    ensures r.name == e.name
    ensures forall u :: u in r.uses <==> u in e.uses || u in m.uses
    ensures forall c :: c in r.components <==> c in e.components || c in m.components
  {
    Medicine(
      e.name,
      Union(e.uses, m.uses),
      Union(e.components, m.components),
      if !KnownCategory(e.category) && KnownCategory(m.category) then m.category else e.category,
      if !Present(e.description) && Present(m.description) then m.description else e.description)
  }

  /** Record `i` is the first of the group with a known category. */
  predicate IsFirstKnown(g: seq<Medicine>, i: int) {
    && 0 <= i < |g|
    && KnownCategory(g[i].category)
    && forall j | 0 <= j < i :: !KnownCategory(g[j].category)
  }

  /** Record `i` is the first of the group with a present description. */
  predicate IsFirstDescribed(g: seq<Medicine>, i: int) {
    && 0 <= i < |g|
    && Present(g[i].description)
    && forall j | 0 <= j < i :: !Present(g[j].description)
  }

  /** What the first record of a group ends as once every later record of the
      group has been absorbed, in order. */
  function FoldGroup(g: seq<Medicine>): (r: Medicine)
    requires |g| > 0
    ensures r.name == g[0].name
  {
    if |g| == 1 then g[0] else Absorb(FoldGroup(g[..|g| - 1]), g[|g| - 1])
  }

  /** The folded record's uses are the union of the group's uses. */
  lemma {:induction false} FoldUses(g: seq<Medicine>)
    requires |g| > 0
    ensures forall u :: u in FoldGroup(g).uses <==> exists i | 0 <= i < |g| :: u in g[i].uses
    decreases |g|
  {
    if |g| > 1 {
      var init := g[..|g| - 1];
      FoldUses(init);
      assert forall i | 0 <= i < |init| :: init[i] == g[i];
    }
  }

  /** The folded record's components are the union of the group's
      components. */
  lemma {:induction false} FoldComponents(g: seq<Medicine>)
    requires |g| > 0
    ensures forall c :: c in FoldGroup(g).components <==> exists i | 0 <= i < |g| :: c in g[i].components
    decreases |g|
  {
    if |g| > 1 {
      var init := g[..|g| - 1];
      FoldComponents(init);
      assert forall i | 0 <= i < |init| :: init[i] == g[i];
    }
  }

  /** The folded record's category is the first known category of the group,
      or the first record's own when the group has none. */
  lemma {:induction false} FoldCategory(g: seq<Medicine>)
    requires |g| > 0
    ensures forall i | IsFirstKnown(g, i) :: FoldGroup(g).category == g[i].category
    ensures (forall i | 0 <= i < |g| :: !KnownCategory(g[i].category)) ==> FoldGroup(g).category == g[0].category
    decreases |g|
  {
    if |g| > 1 {
      var init := g[..|g| - 1];
      FoldCategory(init);
      assert forall j | 0 <= j < |init| :: init[j] == g[j];
      CategoryStep(g, FoldGroup(init));
    }
  }

  /** Absorbing the last record of a group keeps the first known category. */
  lemma CategoryStep(g: seq<Medicine>, prev: Medicine)
    requires |g| > 1
    requires forall i | IsFirstKnown(g[..|g| - 1], i) :: prev.category == g[i].category
    requires (forall i | 0 <= i < |g| - 1 :: !KnownCategory(g[i].category)) ==> prev.category == g[0].category
    ensures forall i | IsFirstKnown(g, i) :: Absorb(prev, g[|g| - 1]).category == g[i].category
    ensures (forall i | 0 <= i < |g| :: !KnownCategory(g[i].category)) ==> Absorb(prev, g[|g| - 1]).category == g[0].category
  {
    var n := |g| - 1;
    var init := g[..n];
    forall i | IsFirstKnown(g, i) ensures Absorb(prev, g[n]).category == g[i].category {
      if i < n {
        assert IsFirstKnown(init, i);
      } else {
        assert forall j | 0 <= j < n :: !KnownCategory(g[j].category);
      }
    }
  }

  /** The folded record's description is the first present description of
      the group, or the first record's own when the group has none. */
  lemma {:induction false} FoldDescription(g: seq<Medicine>)
    requires |g| > 0
    ensures forall i | IsFirstDescribed(g, i) :: FoldGroup(g).description == g[i].description
    ensures (forall i | 0 <= i < |g| :: !Present(g[i].description)) ==> FoldGroup(g).description == g[0].description
    decreases |g|
  {
    if |g| > 1 {
      var init := g[..|g| - 1];
      FoldDescription(init);
      assert forall j | 0 <= j < |init| :: init[j] == g[j];
      DescriptionStep(g, FoldGroup(init));
    }
  }

  /** Absorbing the last record of a group keeps the first present
      description. */
  lemma DescriptionStep(g: seq<Medicine>, prev: Medicine)
    requires |g| > 1
    requires forall i | IsFirstDescribed(g[..|g| - 1], i) :: prev.description == g[i].description
    requires (forall i | 0 <= i < |g| - 1 :: !Present(g[i].description)) ==> prev.description == g[0].description
    ensures forall i | IsFirstDescribed(g, i) :: Absorb(prev, g[|g| - 1]).description == g[i].description
    ensures (forall i | 0 <= i < |g| :: !Present(g[i].description)) ==> Absorb(prev, g[|g| - 1]).description == g[0].description
  {
    var n := |g| - 1;
    var init := g[..n];
    forall i | IsFirstDescribed(g, i) ensures Absorb(prev, g[n]).description == g[i].description {
      if i < n {
        assert IsFirstDescribed(init, i);
      } else {
        assert forall j | 0 <= j < n :: !Present(g[j].description);
      }
    }
  }

  /** Where a key already sits among the kept records, if anywhere. */
  function PositionOf(acc: seq<Medicine>, key: string): (r: Option<nat>)
    ensures r.Some? ==> r.value < |acc| && MergeKey(acc[r.value]) == key
    ensures r.None? ==> forall k | 0 <= k < |acc| :: MergeKey(acc[k]) != key
  {
    if |acc| == 0 then None
    else if MergeKey(acc[0]) == key then Some(0)
    else
      match PositionOf(acc[1..], key)
      case None => None
      case Some(p) => Some(p + 1)
  }

  /** The loop of `merge_duplicates`: the kept records and the number of
      records merged into an earlier one. */
  function Merge(meds: seq<Medicine>): (r: (seq<Medicine>, nat))
    ensures |r.0| + r.1 == |meds|
    ensures forall k, l | 0 <= k < l < |r.0| :: MergeKey(r.0[k]) != MergeKey(r.0[l])
  {
    if |meds| == 0 then ([], 0)
    else
      var (acc, count) := Merge(meds[..|meds| - 1]);
      var m := meds[|meds| - 1];
      match PositionOf(acc, MergeKey(m))
      case Some(p) => (acc[p := Absorb(acc[p], m)], count + 1)
      case None => (acc + [m], count)
  }

  /** The records of `meds` with merge key `key`, in order. */
  function Group(meds: seq<Medicine>, key: string): (g: seq<Medicine>)
    ensures forall k | 0 <= k < |g| :: MergeKey(g[k]) == key
  {
    if |meds| == 0 then []
    else Group(meds[..|meds| - 1], key) + (if MergeKey(meds[|meds| - 1]) == key then [meds[|meds| - 1]] else [])
  }

  lemma GroupSnoc(meds: seq<Medicine>, m: Medicine, key: string)
    ensures Group(meds + [m], key) == Group(meds, key) + (if MergeKey(m) == key then [m] else [])
  {
    assert (meds + [m])[..|meds|] == meds;
  }

  lemma {:induction false} GroupEmpty(meds: seq<Medicine>, key: string)
    requires key !in Keys(meds, MergeKey)
    ensures Group(meds, key) == []
    decreases |meds|
  {
    if |meds| > 0 {
      var n := |meds| - 1;
      assert meds == meds[..n] + [meds[n]];
      KeysSnoc(meds[..n], meds[n], MergeKey);
      GroupEmpty(meds[..n], key);
    }
  }

  lemma FoldSnoc(g: seq<Medicine>, m: Medicine)
    requires |g| > 0
    ensures FoldGroup(g + [m]) == Absorb(FoldGroup(g), m)
  {
    assert (g + [m])[..|g|] == g;
  }

  /** The kept records line up with the first record of each key: same key,
      and each is the fold of its key's whole group. */
  predicate Aligned(meds: seq<Medicine>, r: seq<Medicine>) {
    var firsts := KeepFirst(meds, MergeKey);
    && |r| == |firsts|
    && forall k | 0 <= k < |r| :: KeptAligned(meds, firsts[k], r[k])
  }

  /** `x` is the kept record for the key of `f`: same key, and the fold of
      that key's whole group. */
  predicate KeptAligned(meds: seq<Medicine>, f: Medicine, x: Medicine) {
    && MergeKey(x) == MergeKey(f)
    && |Group(meds, MergeKey(f))| > 0
    && x == FoldGroup(Group(meds, MergeKey(f)))
  }

  /** A record whose key was seen is absorbed by the kept record of that key. */
  lemma MergeStepFound(init: seq<Medicine>, m: Medicine, acc: seq<Medicine>, p: nat)
    requires Aligned(init, acc)
    requires p < |acc| && MergeKey(acc[p]) == MergeKey(m)
    ensures KeepFirst(init + [m], MergeKey) == KeepFirst(init, MergeKey)
    ensures Aligned(init + [m], acc[p := Absorb(acc[p], m)])
  {
    var key := MergeKey(m);
    var firsts := KeepFirst(init, MergeKey);
    assert MergeKey(firsts[p]) == key;
    assert key in Keys(firsts, MergeKey);
    KeepFirstSnoc(init, m, MergeKey);
    var r := acc[p := Absorb(acc[p], m)];
    forall k | 0 <= k < |r| ensures KeptAligned(init + [m], firsts[k], r[k]) {
      assert KeptAligned(init, firsts[k], acc[k]);
      if k == p {
        AbsorbedGroup(init, m, acc[p], key);
      } else {
        assert MergeKey(firsts[k]) != key;
        OtherGroupKept(init, m, acc[k], firsts[k]);
      }
    }
  }

  lemma AbsorbedGroup(init: seq<Medicine>, m: Medicine, x: Medicine, key: string)
    requires MergeKey(m) == key
    requires |Group(init, key)| > 0 && x == FoldGroup(Group(init, key))
    ensures Absorb(x, m) == FoldGroup(Group(init + [m], key))
  {
    GroupSnoc(init, m, key);
    FoldSnoc(Group(init, key), m);
  }

  /** A record with an unseen key is kept, at the end, as its own group. */
  lemma MergeStepNew(init: seq<Medicine>, m: Medicine, acc: seq<Medicine>)
    requires Aligned(init, acc)
    requires forall k | 0 <= k < |acc| :: MergeKey(acc[k]) != MergeKey(m)
    ensures KeepFirst(init + [m], MergeKey) == KeepFirst(init, MergeKey) + [m]
    ensures Aligned(init + [m], acc + [m])
  {
    var key := MergeKey(m);
    var firsts := KeepFirst(init, MergeKey);
    assert key !in Keys(firsts, MergeKey) by {
      forall k | 0 <= k < |firsts| ensures MergeKey(firsts[k]) != key {
        assert KeptAligned(init, firsts[k], acc[k]);
      }
    }
    KeepFirstSnoc(init, m, MergeKey);
    var r := acc + [m];
    var firsts' := firsts + [m];
    forall k | 0 <= k < |r| ensures KeptAligned(init + [m], firsts'[k], r[k]) {
      if k < |acc| {
        assert KeptAligned(init, firsts[k], acc[k]);
        OtherGroupKept(init, m, acc[k], firsts[k]);
        assert r[k] == acc[k] && firsts'[k] == firsts[k];
      } else {
        NewGroup(init, m);
      }
    }
  }

  /** A record whose key no earlier record has is its own group. */
  lemma NewGroup(init: seq<Medicine>, m: Medicine)
    requires MergeKey(m) !in Keys(init, MergeKey)
    ensures KeptAligned(init + [m], m, m)
  {
    GroupEmpty(init, MergeKey(m));
    GroupSnoc(init, m, MergeKey(m));
    assert Group(init + [m], MergeKey(m)) == [m];
  }

  lemma OtherGroupKept(init: seq<Medicine>, m: Medicine, x: Medicine, f: Medicine)
    requires MergeKey(m) != MergeKey(f)
    requires KeptAligned(init, f, x)
    ensures KeptAligned(init + [m], f, x)
  {
    GroupSnoc(init, m, MergeKey(f));
    assert Group(init, MergeKey(f)) + [] == Group(init, MergeKey(f));
  }

  /** The loop agrees with the group-wise reading: one record per merge key,
      in first-occurrence order, each the fold of its whole group, and the
      count is the number of records that were not first of their key. */
  lemma {:induction false} MergeByGroups(meds: seq<Medicine>)
    ensures Aligned(meds, Merge(meds).0)
    ensures Merge(meds).1 == |meds| - |KeepFirst(meds, MergeKey)|
    decreases |meds|
  {
    if |meds| > 0 {
      var n := |meds| - 1;
      var init := meds[..n];
      var m := meds[n];
      assert meds == init + [m];
      MergeByGroups(init);
      var (acc, count) := Merge(init);
      match PositionOf(acc, MergeKey(m))
      case Some(p) =>
        MergeStepFound(init, m, acc, p);
      case None =>
        MergeStepNew(init, m, acc);
    }
  }

  /** One kept record of an aligned result: the name of the first record of
      its key, the union of its group's uses and components, and its group's
      first known category and first present description. */
  lemma KeptRecord(meds: seq<Medicine>, r: seq<Medicine>, k: nat)
    requires Aligned(meds, r) && k < |r|
    ensures var g := Group(meds, MergeKey(r[k]));
            && |g| > 0
            && r[k].name == KeepFirst(meds, MergeKey)[k].name
            && (forall u :: u in r[k].uses <==> exists i | 0 <= i < |g| :: u in g[i].uses)
            && (forall c :: c in r[k].components <==> exists i | 0 <= i < |g| :: c in g[i].components)
            && (forall i | IsFirstKnown(g, i) :: r[k].category == g[i].category)
            && (forall i | IsFirstDescribed(g, i) :: r[k].description == g[i].description)
  {
    var g := Group(meds, MergeKey(r[k]));
    assert KeptAligned(meds, KeepFirst(meds, MergeKey)[k], r[k]);
    FirstOfGroup(meds, k);
    FoldUses(g);
    FoldComponents(g);
    FoldCategory(g);
    FoldDescription(g);
  }

  /** `merge_duplicates` as the rest of the enricher sees it: the kept names
      are the names of the first record per key, pairwise distinct by key;
      the count is the number of records folded away; each kept record holds
      the union of its group's uses and components, the category of the
      group's first record with a known category (its own if none), and the
      description of the first with one (its own if none). */
  lemma MergeSpec(meds: seq<Medicine>)
    ensures var (r, count) := Merge(meds);
            && |r| == |KeepFirst(meds, MergeKey)|
            && count == |meds| - |r|
            && (forall k, l | 0 <= k < l < |r| :: MergeKey(r[k]) != MergeKey(r[l]))
            && forall k | 0 <= k < |r| ::
                 var g := Group(meds, MergeKey(r[k]));
                 && |g| > 0
                 && r[k].name == KeepFirst(meds, MergeKey)[k].name
                 && (forall u :: u in r[k].uses <==> exists i | 0 <= i < |g| :: u in g[i].uses)
                 && (forall c :: c in r[k].components <==> exists i | 0 <= i < |g| :: c in g[i].components)
                 && (forall i | IsFirstKnown(g, i) :: r[k].category == g[i].category)
                 && (forall i | IsFirstDescribed(g, i) :: r[k].description == g[i].description)
  {
    MergeByGroups(meds);
    var r := Merge(meds).0;
    forall k | 0 <= k < |r|
      ensures var g := Group(meds, MergeKey(r[k]));
              && |g| > 0
              && r[k].name == KeepFirst(meds, MergeKey)[k].name
              && (forall u :: u in r[k].uses <==> exists i | 0 <= i < |g| :: u in g[i].uses)
              && (forall c :: c in r[k].components <==> exists i | 0 <= i < |g| :: c in g[i].components)
              && (forall i | IsFirstKnown(g, i) :: r[k].category == g[i].category)
              && (forall i | IsFirstDescribed(g, i) :: r[k].description == g[i].description)
    {
      KeptRecord(meds, r, k);
    }
  }

  /** The first record of a key's group is the record `KeepFirst` keeps. */
  lemma {:induction false} FirstOfGroup(meds: seq<Medicine>, k: nat)
    requires k < |KeepFirst(meds, MergeKey)|
    ensures var f := KeepFirst(meds, MergeKey)[k];
            |Group(meds, MergeKey(f))| > 0 && Group(meds, MergeKey(f))[0] == f
    decreases |meds|
  {
    var n := |meds| - 1;
    var init := meds[..n];
    var m := meds[n];
    assert meds == init + [m];
    KeepFirstSnoc(init, m, MergeKey);
    var f := KeepFirst(meds, MergeKey)[k];
    GroupSnoc(init, m, MergeKey(f));
    if k < |KeepFirst(init, MergeKey)| {
      FirstOfGroup(init, k);
    } else {
      assert f == m && MergeKey(m) !in Keys(init, MergeKey);
      GroupEmpty(init, MergeKey(m));
    }
  }

  /** One more record: counted as merged when its key was seen, otherwise
      kept at the end. */
  lemma MergeSnoc(init: seq<Medicine>, m: Medicine, prev: (seq<Medicine>, nat))
    requires prev == Merge(init)
    ensures PositionOf(prev.0, MergeKey(m)).Some? ==> Merge(init + [m]).1 == prev.1 + 1
    ensures PositionOf(prev.0, MergeKey(m)).None? ==> Merge(init + [m]) == (prev.0 + [m], prev.1)
  {
    var meds := init + [m];
    assert meds[..|meds| - 1] == init && meds[|meds| - 1] == m;
  }

  /** When nothing is merged the list is unchanged. */
  lemma {:induction false} NothingMergedNothingChanged(meds: seq<Medicine>)
    requires Merge(meds).1 == 0
    ensures Merge(meds).0 == meds
    decreases |meds|
  {
    if |meds| > 0 {
      var n := |meds| - 1;
      var init := meds[..n];
      var m := meds[n];
      assert meds == init + [m];
      MergeSnoc(init, m, Merge(init));
      NothingMergedNothingChanged(init);
    }
  }
}
