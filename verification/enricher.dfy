/** `DataEnricher`: the list-of-records transforms run by `enrich_medicines`,
    in its order: standardize uses, add missing categories, merge duplicates
    (module `MergeDuplicates`), fill missing fields, count completeness.
    Loading and saving the database are left out: the catalogue is a given
    sequence and every save is a no-op. */
module Enricher {
  import opened Wrappers
  import opened Text
  import opened Seqs
  import opened Medicines
  import opened Categories
  import opened MergeDuplicates

  // ---------------------------------------------------------------- standardize_uses

  /** TERM_STANDARDIZATION: from a lower-cased, stripped use to its standard
      wording. The table is a parameter; it is not part of this model. */
  type Terms = map<string, string>

  /** `use.lower().strip()` */
  function UseKey(u: string): string {
    Strip(Lower(u))
  }

  /** One use after standardization: the table's wording when its key is in
      the table, the use verbatim otherwise. */
  function StandardTerm(terms: Terms, u: string): string {
    if UseKey(u) in terms then terms[UseKey(u)] else u
  }

  /** The `standardized_uses` list, before duplicates are dropped. */
  function StandardTerms(terms: Terms, uses: seq<string>): (r: seq<string>)
    ensures |r| == |uses|
    ensures forall i | 0 <= i < |uses| && Strip(Lower(uses[i])) in terms :: r[i] == terms[Strip(Lower(uses[i]))]
    ensures forall i | 0 <= i < |uses| && Strip(Lower(uses[i])) !in terms :: r[i] == uses[i]
  {
    seq(|uses|, i requires 0 <= i < |uses| => StandardTerm(terms, uses[i]))
  }

  /** How many of `uses` the table rewrites. */
  function Rewritten(terms: Terms, uses: seq<string>): (n: nat)
    ensures n <= |uses|
  {
    if |uses| == 0 then 0
    else Rewritten(terms, uses[..|uses| - 1]) + (if UseKey(uses[|uses| - 1]) in terms then 1 else 0)
  }

  /** No use is rewritten exactly when no use's key is in the table. */
  lemma {:induction false} RewrittenZeroIff(terms: Terms, uses: seq<string>)
    ensures Rewritten(terms, uses) == 0 <==> forall i | 0 <= i < |uses| :: UseKey(uses[i]) !in terms
    decreases |uses|
  {
    if |uses| > 0 {
      var init := uses[..|uses| - 1];
      RewrittenZeroIff(terms, init);
      assert forall i | 0 <= i < |init| :: init[i] == uses[i];
    }
  }

  /** One record after `standardize_uses`: its uses standardized, then the
      first use per lower-cased form kept. */
  function StandardizeRecord(terms: Terms, m: Medicine): Medicine {
    m.(uses := KeepFirst(StandardTerms(terms, m.uses), Lower))
  }

  /** Standardizing a record changes nothing but its uses; they do not grow,
      their lower-cased forms are pairwise distinct and are exactly those of
      the standardized uses, and each is a standardized use. */
  lemma StandardizeRecordSpec(terms: Terms, m: Medicine)
    ensures var r := StandardizeRecord(terms, m);
            && r == m.(uses := r.uses)
            && |r.uses| <= |m.uses|
            && (forall k, l | 0 <= k < l < |r.uses| :: Lower(r.uses[k]) != Lower(r.uses[l]))
            && Keys(r.uses, Lower) == Keys(StandardTerms(terms, m.uses), Lower)
            && forall k | 0 <= k < |r.uses| :: r.uses[k] in StandardTerms(terms, m.uses)
  {
  }

  /** The number of uses over the whole catalogue. */
  function TotalUses(meds: seq<Medicine>): nat {
    if |meds| == 0 then 0 else TotalUses(meds[..|meds| - 1]) + |meds[|meds| - 1].uses|
  }

  /** The number of uses the table rewrites over the whole catalogue. */
  function Replacements(terms: Terms, meds: seq<Medicine>): nat {
    if |meds| == 0 then 0
    else Replacements(terms, meds[..|meds| - 1]) + Rewritten(terms, meds[|meds| - 1].uses)
  }

  /** The count `standardize_uses` returns is at most the number of uses, and
      zero exactly when no use of any record has its key in the table. */
  lemma {:induction false} ReplacementsSpec(terms: Terms, meds: seq<Medicine>)
    ensures Replacements(terms, meds) <= TotalUses(meds)
    ensures Replacements(terms, meds) == 0
        <==> forall i, k | 0 <= i < |meds| && 0 <= k < |meds[i].uses| :: UseKey(meds[i].uses[k]) !in terms
    decreases |meds|
  {
    if |meds| > 0 {
      var n := |meds| - 1;
      ReplacementsSpec(terms, meds[..n]);
      RewrittenZeroIff(terms, meds[n].uses);
      assert forall i | 0 <= i < n :: meds[..n][i] == meds[i];
    }
  }

  /** `standardize_uses`: every record standardized, and the number of uses
      the table rewrote. */
  function StandardizeUses(terms: Terms, meds: seq<Medicine>): (r: (seq<Medicine>, nat))
    ensures |r.0| == |meds|
    ensures forall i | 0 <= i < |meds| :: r.0[i] == StandardizeRecord(terms, meds[i])
    ensures r.1 == Replacements(terms, meds)
  {
    (seq(|meds|, i requires 0 <= i < |meds| => StandardizeRecord(terms, meds[i])), Replacements(terms, meds))
  }

  /** The first loop of `standardize_uses` on one record: rewrite each use
      found in the table and count the rewrites. */
  method RewriteUses(terms: Terms, uses: seq<string>) returns (standardized: seq<string>, replaced: nat)
    ensures standardized == StandardTerms(terms, uses)
    ensures replaced == Rewritten(terms, uses)
  {
    standardized := [];
    replaced := 0;
    for j := 0 to |uses|
      invariant standardized == StandardTerms(terms, uses[..j])
      invariant replaced == Rewritten(terms, uses[..j])
    {
      var use := uses[j];
      RewriteStep(terms, uses, j);
      var useLower := Strip(Lower(use));
      if useLower in terms {
        standardized := standardized + [terms[useLower]];
        replaced := replaced + 1;
      } else {
        standardized := standardized + [use];
      }
    }
    assert uses[..|uses|] == uses;
  }

  /** Extending the prefix of uses by one use extends the standardized
      list by that use's standard term and counts it when it is rewritten. */
  lemma RewriteStep(terms: Terms, uses: seq<string>, j: nat)
    requires j < |uses|
    ensures StandardTerms(terms, uses[..j + 1]) == StandardTerms(terms, uses[..j]) + [StandardTerm(terms, uses[j])]
    ensures Rewritten(terms, uses[..j + 1]) == Rewritten(terms, uses[..j]) + (if UseKey(uses[j]) in terms then 1 else 0)
  {
    assert uses[..j + 1][..j] == uses[..j];
  }

  /** The second loop: keep a use only when its lower-cased form was not
      seen yet. */
  method DropRepeats(uses: seq<string>) returns (unique: seq<string>)
    ensures unique == KeepFirst(uses, Lower)
  {
    var seen: set<string> := {};
    unique := [];
    for j := 0 to |uses|
      invariant seen == Keys(unique, Lower)
      invariant unique == KeepFirst(uses[..j], Lower)
    {
      var use := uses[j];
      assert uses[..j + 1] == uses[..j] + [use];
      KeepFirstSnoc(uses[..j], use, Lower);
      KeysSnoc(unique, use, Lower);
      if Lower(use) !in seen {
        seen := seen + {Lower(use)};
        unique := unique + [use];
      }
    }
    assert uses[..|uses|] == uses;
  }

  lemma ReplacementsPrefix(terms: Terms, meds: seq<Medicine>, i: nat)
    requires i < |meds|
    ensures Replacements(terms, meds[..i + 1]) == Replacements(terms, meds[..i]) + Rewritten(terms, meds[i].uses)
  {
    assert meds[..i + 1][..i] == meds[..i];
  }

  /** The loops of `standardize_uses` as written compute `StandardizeUses`. */
  method StandardizeUsesLoop(terms: Terms, meds: seq<Medicine>) returns (out: seq<Medicine>, count: nat)
    ensures (out, count) == StandardizeUses(terms, meds)
  {
    out := [];
    count := 0;
    for i := 0 to |meds|
      invariant |out| == i
      invariant forall k | 0 <= k < i :: out[k] == StandardizeRecord(terms, meds[k])
      invariant count == Replacements(terms, meds[..i])
    {
      var m := meds[i];
      var standardized, replaced := RewriteUses(terms, m.uses);
      var unique := DropRepeats(standardized);
      StandardizeStep(terms, meds, i, out, count, replaced, unique);
      out := out + [m.(uses := unique)];
      count := count + replaced;
    }
    assert meds[..|meds|] == meds;
    StandardizedAll(terms, meds, out);
  }

  /** One pass of the outer loop of `standardize_uses` keeps its
      invariant. */
  lemma StandardizeStep(terms: Terms, meds: seq<Medicine>, i: nat, out: seq<Medicine>, count: nat,
                        replaced: nat, unique: seq<string>)
    requires i < |meds| && |out| == i
    requires forall k | 0 <= k < i :: out[k] == StandardizeRecord(terms, meds[k])
    requires count == Replacements(terms, meds[..i])
    requires replaced == Rewritten(terms, meds[i].uses)
    requires unique == KeepFirst(StandardTerms(terms, meds[i].uses), Lower)
    ensures var out' := out + [meds[i].(uses := unique)];
            && |out'| == i + 1
            && (forall k | 0 <= k < i + 1 :: out'[k] == StandardizeRecord(terms, meds[k]))
            && count + replaced == Replacements(terms, meds[..i + 1])
  {
    ReplacementsPrefix(terms, meds, i);
    var out' := out + [meds[i].(uses := unique)];
    forall k | 0 <= k < i + 1 ensures out'[k] == StandardizeRecord(terms, meds[k]) {
      if k < i {
        assert out'[k] == out[k];
      }
    }
  }

  lemma StandardizedAll(terms: Terms, meds: seq<Medicine>, out: seq<Medicine>)
    requires |out| == |meds|
    requires forall k | 0 <= k < |meds| :: out[k] == StandardizeRecord(terms, meds[k])
    ensures out == StandardizeUses(terms, meds).0
  {
  }

  // ---------------------------------------------------------------- add_missing_categories

  /** The records `add_missing_categories` changes: no known category yet,
      some uses, and an inferred category that is truthy and not "Unknown". */
  predicate GetsCategory(mappings: Mappings, m: Medicine) {
    && !KnownCategory(m.category)
    && |m.uses| > 0
    && KnownCategory(Some(Infer(mappings, m.uses)))
  }

  /** How `add_missing_categories` treats one record `m`, giving `m'`: the
      record changes exactly when it gets a category, and only its category
      changes, to the inferred one. */
  predicate Categorized(mappings: Mappings, m: Medicine, m': Medicine) {
    && m' == m.(category := m'.category)
    && (m' != m <==> GetsCategory(mappings, m))
    && (m' != m ==> m'.category == Some(Infer(mappings, m.uses)))
  }

  /** `add_missing_categories`: every record is treated as `Categorized`
      says, and the count is the number of records that changed. */
  function AddMissingCategories(mappings: Mappings, meds: seq<Medicine>): (r: (seq<Medicine>, nat))
    ensures |r.0| == |meds|
    ensures forall i | 0 <= i < |meds| :: Categorized(mappings, meds[i], r.0[i])
    ensures r.1 == Mismatches(meds, r.0)
  {
    if |meds| == 0 then ([], 0)
    else
      var n := |meds| - 1;
      var prev := AddMissingCategories(mappings, meds[..n]);
      var m := meds[n];
      var m' := if GetsCategory(mappings, m) then m.(category := Some(Infer(mappings, m.uses))) else m;
      CategorizedSnoc(mappings, meds, prev.0, m');
      MismatchesSnoc(meds, prev.0, m');
      (prev.0 + [m'], prev.1 + (if m' != m then 1 else 0))
  }

  /** Treating the last record after the others keeps every record
      treated, and the count of changes grows by one when it changes. */
  lemma CategorizedSnoc(mappings: Mappings, meds: seq<Medicine>, prev: seq<Medicine>, m': Medicine)
    requires |meds| > 0 && |prev| == |meds| - 1
    requires forall i | 0 <= i < |prev| :: Categorized(mappings, meds[..|prev|][i], prev[i])
    requires Categorized(mappings, meds[|prev|], m')
    ensures forall i | 0 <= i < |meds| :: Categorized(mappings, meds[i], (prev + [m'])[i])
  {
    var n := |prev|;
    var r := prev + [m'];
    forall i | 0 <= i < |meds| ensures Categorized(mappings, meds[i], r[i]) {
      if i < n {
        var m, p := meds[i], prev[i];
        assert meds[..n][i] == m && r[i] == p;
      }
    }
  }

  /** A second `add_missing_categories` finds nothing to do. */
  lemma AddMissingCategoriesIdempotent(mappings: Mappings, meds: seq<Medicine>)
    ensures var once := AddMissingCategories(mappings, meds).0;
            AddMissingCategories(mappings, once) == (once, 0)
  {
    var once := AddMissingCategories(mappings, meds).0;
    var twice := AddMissingCategories(mappings, once);
    forall i | 0 <= i < |once| ensures !GetsCategory(mappings, once[i]) {
      if once[i] != meds[i] {
        assert KnownCategory(once[i].category);
      } else {
        assert !GetsCategory(mappings, meds[i]);
      }
    }
    assert twice.0 == once;
    MismatchesSelf(once);
  }

  // ---------------------------------------------------------------- fill_missing_fields

  /** The counts `fill_missing_fields` returns. */
  datatype FillCounts = FillCounts(categories: nat, descriptions: nat)

  /** `not medicine.get('category')` */
  predicate LacksCategory(m: Medicine) {
    !Present(m.category)
  }

  /** `fill_missing_fields`: every record ends with a category; a record
      lacking a truthy one gets the inferred category (possibly "Unknown"),
      every other record is unchanged; `categories` counts the records that
      lacked one and `descriptions` is always zero. */
  function FillMissingFields(mappings: Mappings, meds: seq<Medicine>): (r: (seq<Medicine>, FillCounts))
    ensures |r.0| == |meds|
    ensures forall i | 0 <= i < |meds| ::
              r.0[i] == meds[i].(category := r.0[i].category) && r.0[i].category.Some?
    ensures forall i | 0 <= i < |meds| && !LacksCategory(meds[i]) :: r.0[i] == meds[i]
    ensures forall i | 0 <= i < |meds| && LacksCategory(meds[i]) ::
              r.0[i].category == Some(Infer(mappings, meds[i].uses))
    ensures r.1.categories == Count(meds, LacksCategory)
    ensures r.1.descriptions == 0
  {
    if |meds| == 0 then ([], FillCounts(0, 0))
    else
      var n := |meds| - 1;
      var prev := FillMissingFields(mappings, meds[..n]);
      var m := meds[n];
      CountSnoc(meds[..n], m, LacksCategory);
      assert meds[..n] + [m] == meds;
      if LacksCategory(m) then
        (prev.0 + [m.(category := Some(Infer(mappings, m.uses)))],
         FillCounts(prev.1.categories + 1, 0))
      else
        (prev.0 + [m], prev.1)
  }

  /** With a table whose categories are all non-empty, a second
      `fill_missing_fields` changes nothing and counts nothing. */
  lemma FillMissingFieldsIdempotent(mappings: Mappings, meds: seq<Medicine>)
    requires forall j | 0 <= j < |mappings| :: mappings[j].1 != ""
    ensures var once := FillMissingFields(mappings, meds).0;
            FillMissingFields(mappings, once) == (once, FillCounts(0, 0))
  {
    var once := FillMissingFields(mappings, meds).0;
    forall i | 0 <= i < |once| ensures !LacksCategory(once[i]) {
      if LacksCategory(meds[i]) {
        var uses := meds[i].uses;
        if exists j | 0 <= j < |mappings| :: Hits(mappings, UseText(uses), j) {
          var j :| IsFirstHit(mappings, UseText(uses), j) && Infer(mappings, uses) == mappings[j].1;
        }
      }
    }
    CountNone(once, LacksCategory);
    assert FillMissingFields(mappings, once).0 == once;
  }

  // ---------------------------------------------------------------- validate_completeness

  /** The statistics `validate_completeness` returns. */
  datatype Completeness = Completeness(
    total: nat,
    complete: nat,
    missingName: nat,
    missingUses: nat,
    missingComponents: nat,
    missingCategory: nat,
    missingBoth: nat)

  predicate NoName(m: Medicine) { m.name == "" }
  predicate NoUses(m: Medicine) { |m.uses| == 0 }
  predicate NoComponents(m: Medicine) { |m.components| == 0 }
  predicate NoUsesNorComponents(m: Medicine) { NoUses(m) && NoComponents(m) }

  /** A name, and uses or components. */
  predicate IsComplete(m: Medicine) { !NoName(m) && !NoUsesNorComponents(m) }
  predicate Incomplete(m: Medicine) { !IsComplete(m) }

  /** `validate_completeness`: `complete` counts the records with a name and
      uses or components, so it is at most `total`, and every other record
      lacks a name or both lists; no record lacks both lists without lacking
      each. */
  function ValidateCompleteness(meds: seq<Medicine>): (s: Completeness)
    ensures s.total == |meds|
    ensures s.complete == Count(meds, IsComplete) && s.complete <= s.total
    ensures s.complete + Count(meds, Incomplete) == s.total
    ensures s.total <= s.complete + s.missingName + s.missingBoth
    ensures s.missingBoth <= s.missingUses && s.missingBoth <= s.missingComponents
  {
    CountMono(meds, NoUsesNorComponents, NoUses);
    CountMono(meds, NoUsesNorComponents, NoComponents);
    CountComplement(meds, IsComplete, Incomplete);
    CountUnionBound(meds, Incomplete, NoName, NoUsesNorComponents);
    Completeness(
      |meds|,
      Count(meds, IsComplete),
      Count(meds, NoName),
      Count(meds, NoUses),
      Count(meds, NoComponents),
      Count(meds, LacksCategory),
      Count(meds, NoUsesNorComponents))
  }

  // ---------------------------------------------------------------- enrich_medicines

  /** The statistics `enrich_medicines` returns. */
  datatype EnrichReport = EnrichReport(
    standardizedUses: nat,
    addedCategories: nat,
    mergedDuplicates: nat,
    filledFields: FillCounts,
    completeness: Completeness)

  /** `enrich_medicines`: the five steps in order. */
  function Enrich(terms: Terms, mappings: Mappings, meds: seq<Medicine>): (seq<Medicine>, EnrichReport) {
    var a := StandardizeUses(terms, meds);
    var b := AddMissingCategories(mappings, a.0);
    var c := Merge(b.0);
    var d := FillMissingFields(mappings, c.0);
    (d.0, EnrichReport(a.1, b.1, c.1, d.1, ValidateCompleteness(d.0)))
  }

  /** After `enrich_medicines` no two records share a merge key, every
      record has a category, the merge count is how much shorter the
      catalogue got, and the completeness figures describe the final
      catalogue. */
  lemma EnrichSpec(terms: Terms, mappings: Mappings, meds: seq<Medicine>)
    ensures var (out, report) := Enrich(terms, mappings, meds);
            && |out| + report.mergedDuplicates == |meds|
            && (forall k, l | 0 <= k < l < |out| :: MergeKey(out[k]) != MergeKey(out[l]))
            && (forall k | 0 <= k < |out| :: out[k].category.Some?)
            && report.completeness.total == |out|
  {
    var a := StandardizeUses(terms, meds);
    var b := AddMissingCategories(mappings, a.0);
    var c := Merge(b.0);
    assert |c.0| + c.1 == |meds|;
    FillKeepsKeysApart(mappings, c.0);
  }

  /** Filling categories keeps merge keys pairwise distinct. */
  lemma FillKeepsKeysApart(mappings: Mappings, meds: seq<Medicine>)
    requires forall k, l | 0 <= k < l < |meds| :: MergeKey(meds[k]) != MergeKey(meds[l])
    ensures var out := FillMissingFields(mappings, meds).0;
            forall k, l | 0 <= k < l < |out| :: MergeKey(out[k]) != MergeKey(out[l])
  {
    var out := FillMissingFields(mappings, meds).0;
    assert forall k | 0 <= k < |out| :: out[k].name == meds[k].name;
  }
}
