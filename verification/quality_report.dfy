/** `DataValidator.generate_quality_report`: runs the five checks over the
    catalogue and turns the number of issues they find into a score out of
    100. Scores are exact reals; the floating-point rounding of the Python
    division is not modelled. */
module QualityReport {
  import opened Wrappers
  import opened Seqs
  import opened JsonValues
  import opened StructureCheck
  import opened FieldChecks
  import opened DuplicateCheck

  /** The rough estimate of the most issues one record can have. */
  const IssuesPerMedicine: nat := 5

  /** `max(0, 100 - issues / (5 * n) * 100)`, and 0 for an empty catalogue:
      between 0 and 100, a full 100 exactly when there is no issue, and 0
      once there are five issues per record. */
  function QualityScore(issues: nat, n: nat): (q: real)
    ensures 0.0 <= q <= 100.0
    ensures n == 0 ==> q == 0.0
    ensures n > 0 ==> (q == 100.0 <==> issues == 0)
    ensures n > 0 && issues >= IssuesPerMedicine * n ==> q == 0.0
  {
    if n == 0 then 0.0
    else
      var raw := 100.0 - (issues as real / (IssuesPerMedicine * n) as real) * 100.0;
      if raw < 0.0 then 0.0 else raw
  }

  /** More issues never raise the score. */
  lemma ScoreMonotone(fewer: nat, more: nat, n: nat)
    requires fewer <= more
    ensures QualityScore(more, n) <= QualityScore(fewer, n)
  {
    if n > 0 {
      var d := (IssuesPerMedicine * n) as real;
      assert fewer as real / d <= more as real / d;
    }
  }

  /** The number of indices listed under `fields` in `m`. */
  function TotalListed(fields: seq<string>, m: Index): nat {
    if |fields| == 0 then 0
    else TotalListed(fields[..|fields| - 1], m) + |Entries(m, fields[|fields| - 1])|
  }

  lemma {:induction false} TotalListedZero(fields: seq<string>, m: Index)
    ensures TotalListed(fields, m) == 0 <==> forall k | 0 <= k < |fields| :: Entries(m, fields[k]) == []
  {
    if |fields| > 0 {
      var n := |fields| - 1;
      TotalListedZero(fields[..n], m);
      assert forall k | 0 <= k < n :: fields[..n][k] == fields[k];
    }
  }

  /** `sum(len(v) for v in missing_fields.values())`. Every key of the
      missing-fields map is a required field, so summing over the distinct
      required fields visits every value once. */
  function MissingTotal(required: seq<string>, r: RequiredFields): nat {
    TotalListed(Distinct(required), r.missing)
  }

  /** No missing field is counted exactly when every record holds every
      required field. */
  lemma MissingTotalZero(required: seq<string>, meds: seq<Record>)
    ensures MissingTotal(required, CheckRequiredFields(required, meds)) == 0 <==> AllPresent(required, meds)
  {
    var missing := CheckRequiredFields(required, meds).missing;
    var fs := Distinct(required);
    TotalListedZero(fs, missing);
    NoneListedIffAllPresent(required, meds, fs, missing);
  }

  /** Over the index map `check_required_fields` builds, the distinct
      required fields have empty lists exactly when no record lacks a
      required field. */
  lemma NoneListedIffAllPresent(required: seq<string>, meds: seq<Record>, fs: seq<string>, missing: Index)
    requires forall f :: f in fs <==> f in required
    requires forall g :: Entries(missing, g) == Listed(required, meds, IsMissingIn, g)
    ensures (forall k | 0 <= k < |fs| :: Entries(missing, fs[k]) == []) <==> AllPresent(required, meds)
  {
    forall k | 0 <= k < |fs| {
      ListedEmptyIff(required, meds, IsMissingIn, fs[k]);
    }
    if AllPresent(required, meds) {
      forall k, i | 0 <= k < |fs| && 0 <= i < |meds| ensures !(fs[k] in required && IsMissingIn(meds[i], fs[k])) {
        assert fs[k] in fs;
        if fs[k] in required {
          var l :| 0 <= l < |required| && required[l] == fs[k];
          assert required[l] in meds[i];
        }
      }
    } else {
      var i, k :| 0 <= i < |meds| && 0 <= k < |required| && required[k] !in meds[i];
      assert required[k] in fs;
      var j :| 0 <= j < |fs| && fs[j] == required[k];
      assert fs[j] in required && IsMissingIn(meds[i], fs[j]);
    }
  }

  /** The report's figures. */
  datatype Report = Report(
    totalMedicines: nat,
    structureValid: bool,
    structureErrors: seq<StructureError>,
    requiredFields: RequiredFields,
    duplicates: seq<Duplicate>,
    typeErrors: seq<TypeError>,
    completeness: CompletenessStats,
    issues: nat,
    qualityScore: real)

  /** The catalogue as `validate_structure` sees it: a list of objects. */
  function AsJson(meds: seq<Record>): (j: Json)
    ensures j.JArray? && |j.items| == |meds|
    ensures forall i | 0 <= i < |meds| :: j.items[i] == JObject(meds[i])
  {
    JArray(seq(|meds|, i requires 0 <= i < |meds| => JObject(meds[i])))
  }

  /** `generate_quality_report`; nothing when duplicate detection raises. */
  function GenerateQualityReport(required: seq<string>, meds: seq<Record>): (r: Option<Report>)
    ensures r.None? <==> exists i | 0 <= i < |meds| :: NameCrashes(meds[i])
    ensures r.Some? ==> r.value.totalMedicines == |meds| && 0.0 <= r.value.qualityScore <= 100.0
    ensures r.Some? ==> (r.value.qualityScore == 100.0 <==> |meds| > 0 && r.value.issues == 0)
  {
    var structure := ValidateStructure(required, AsJson(meds));
    var fields := CheckRequiredFields(required, meds);
    var dups := DetectDuplicates(meds);
    var types := ValidateDataTypes(meds);
    var completeness := CheckCompleteness(meds);
    if dups.None? then None
    else
      var issues := |structure.1| + MissingTotal(required, fields) + |dups.value| + |types| + completeness.hasNeither;
      Some(Report(|meds|, structure.0, structure.1, fields, dups.value, types, completeness,
                  issues, QualityScore(issues, |meds|)))
  }

  /** Every item of a list is a JSON object. */
  predicate AllObjects(items: seq<Json>) {
    forall k | 0 <= k < |items| :: items[k].JObject?
  }

  /** The records of a list of objects. */
  function Fields(items: seq<Json>): (meds: seq<Record>)
    requires AllObjects(items)
    ensures |meds| == |items| && forall k | 0 <= k < |items| :: JObject(meds[k]) == items[k]
  {
    seq(|items|, k requires 0 <= k < |items| && items[k].JObject? => items[k].fields)
  }

  /** A value `len()` accepts that holds nothing to iterate over: an empty
      object or an empty string. A number, a boolean or `null` has no
      length, and iterating a non-empty object or string yields strings,
      on which `.get` raises. */
  predicate EmptySized(root: Json) {
    (root.JObject? && |root.fields| == 0) || (root.JString? && |root.s| == 0)
  }

  /** `generate_quality_report` over whatever the `medicines` field holds.
      A list of objects is reported as above. A list holding anything else
      makes `detect_duplicates` raise at `.get`. A value that is not a list
      gets the single root message. If it is also an empty object or an
      empty string, every other check finds nothing, so the report counts
      one issue over zero records and scores 0. Any other non-list value
      raises, at `len` or at `.get`. */
  function ReportOf(required: seq<string>, root: Json): (r: Option<Report>)
    ensures root.JArray? && AllObjects(root.items) ==> r == GenerateQualityReport(required, Fields(root.items))
    ensures root.JArray? && !AllObjects(root.items) ==> r.None?
    ensures !root.JArray? ==> (r.Some? <==> EmptySized(root))
    ensures r.Some? ==> (r.value.structureValid, r.value.structureErrors) == ValidateStructure(required, root)
    ensures r.Some? && !root.JArray?
            ==> r.value.totalMedicines == 0 && r.value.issues == 1 && r.value.qualityScore == 0.0
  {
    if root.JArray? then
      if AllObjects(root.items) then
        var meds := Fields(root.items);
        assert AsJson(meds) == root;
        GenerateQualityReport(required, meds)
      else None
    else if EmptySized(root) then
      Some(Report(0, false, [RootNotList], CheckRequiredFields(required, []), [], [], CheckCompleteness([]),
                  1, QualityScore(1, 0)))
    else None
  }

  predicate AllWellFormed(required: seq<string>, meds: seq<Record>) {
    forall i | 0 <= i < |meds| :: WellFormed(required, JObject(meds[i]))
  }

  predicate AllPresent(required: seq<string>, meds: seq<Record>) {
    forall i, k | 0 <= i < |meds| && 0 <= k < |required| :: required[k] in meds[i]
  }

  predicate NamesDistinct(meds: seq<Record>) {
    forall i, i' | 0 <= i < i' < |meds| :: NameKey(meds[i]) == NameKey(meds[i']) ==> NameKey(meds[i]) == ""
  }

  predicate AllTypesOk(meds: seq<Record>) {
    forall i | 0 <= i < |meds| :: TypesOk(meds[i])
  }

  predicate NoneEmpty(meds: seq<Record>) {
    forall i | 0 <= i < |meds| :: !HasNeither(meds[i])
  }

  /** A catalogue with nothing to report: every record well formed and
      holding every required field, no name shared by two records, every
      type acceptable, and uses or components on every record. */
  predicate Clean(required: seq<string>, meds: seq<Record>) {
    AllWellFormed(required, meds) && AllPresent(required, meds) && NamesDistinct(meds)
    && AllTypesOk(meds) && NoneEmpty(meds)
  }

  /** No duplicate group is reported exactly when no two records share a
      non-empty name. */
  lemma NoDuplicatesIff(meds: seq<Record>)
    requires forall i | 0 <= i < |meds| :: !NameCrashes(meds[i])
    ensures DetectDuplicates(meds).Some?
    ensures |DetectDuplicates(meds).value| == 0 <==> NamesDistinct(meds)
  {
    DetectDuplicatesSpec(meds);
    var ds := DetectDuplicates(meds).value;
    if ds != [] {
      var d := ds[0];
      assert |d.indices| >= 2;
      var i, i' := d.indices[0], d.indices[1];
      assert i in d.indices && i' in d.indices;
      assert i < i' < |meds|;
    }
  }

  /** No record lacks both uses and components exactly when the counter is
      zero. */
  lemma NeitherZeroIff(meds: seq<Record>)
    ensures CheckCompleteness(meds).hasNeither == 0 <==> NoneEmpty(meds)
  {
    if NoneEmpty(meds) {
      CountNone(meds, HasNeither);
    } else {
      var i :| 0 <= i < |meds| && HasNeither(meds[i]);
      assert meds[i] in Filter(meds, HasNeither);
    }
  }

  /** `validate_structure` over the catalogue finds nothing exactly when
      every record is well formed. */
  lemma StructureCleanIff(required: seq<string>, meds: seq<Record>)
    ensures |ValidateStructure(required, AsJson(meds)).1| == 0 <==> AllWellFormed(required, meds)
  {
    var json := AsJson(meds);
    assert forall i | 0 <= i < |meds| :: json.items[i] == JObject(meds[i]);
  }

  /** `validate_data_types` finds nothing exactly when every record's
      types are acceptable. */
  lemma TypesCleanIff(meds: seq<Record>)
    ensures |ValidateDataTypes(meds)| == 0 <==> AllTypesOk(meds)
  {
  }

  /** The report counts no issue exactly when each of the five checks
      finds nothing. */
  lemma IssuesZeroIff(required: seq<string>, meds: seq<Record>)
    requires forall i | 0 <= i < |meds| :: !NameCrashes(meds[i])
    ensures GenerateQualityReport(required, meds).Some?
    ensures GenerateQualityReport(required, meds).value.issues == 0
            <==> && |ValidateStructure(required, AsJson(meds)).1| == 0
                 && MissingTotal(required, CheckRequiredFields(required, meds)) == 0
                 && |DetectDuplicates(meds).value| == 0
                 && |ValidateDataTypes(meds)| == 0
                 && CheckCompleteness(meds).hasNeither == 0
  {
  }

  /** The report counts no issue exactly when the catalogue is clean. */
  lemma NoIssuesIffClean(required: seq<string>, meds: seq<Record>)
    requires forall i | 0 <= i < |meds| :: !NameCrashes(meds[i])
    ensures GenerateQualityReport(required, meds).Some?
    ensures GenerateQualityReport(required, meds).value.issues == 0 <==> Clean(required, meds)
  {
    IssuesZeroIff(required, meds);
    StructureCleanIff(required, meds);
    MissingTotalZero(required, meds);
    NoDuplicatesIff(meds);
    TypesCleanIff(meds);
    NeitherZeroIff(meds);
  }

  /** The score is a full 100 exactly when the catalogue is non-empty and
      clean. */
  lemma PerfectScoreIffClean(required: seq<string>, meds: seq<Record>)
    requires forall i | 0 <= i < |meds| :: !NameCrashes(meds[i])
    ensures GenerateQualityReport(required, meds).Some?
    ensures GenerateQualityReport(required, meds).value.qualityScore == 100.0
            <==> |meds| > 0 && Clean(required, meds)
  {
    NoIssuesIffClean(required, meds);
  }

  /** The counters `fix_common_issues` reports. */
  datatype Fixes = Fixes(trimmedWhitespace: nat, removedEmptyLists: nat, convertedTypes: nat)

  /** `fix_common_issues`: reports what it fixed and leaves the catalogue as
      it found it. It fixes nothing, so every counter is zero. */
  function FixCommonIssues(meds: seq<Record>): (r: (seq<Record>, Fixes))
    ensures r.1.trimmedWhitespace + r.1.removedEmptyLists + r.1.convertedTypes == 0
    ensures |r.0| == |meds| && forall i | 0 <= i < |meds| :: r.0[i] == meds[i]
  {
    (meds, Fixes(0, 0, 0))
  }
}
