/** `DataValidator.check_required_fields` and `DataValidator.check_completeness`:
    two per-record scans of the catalogue that collect record indices. The
    list of required fields is configuration and comes in as a parameter. */
module FieldChecks {
  import opened Seqs
  import opened JsonValues

  /** A field name mapped to the indices of the records it was noted for;
      a field appears only once it has an index. */
  type Index = map<string, seq<nat>>


  /** `results[f].append(i)`, creating the list on first use. */
  function Note(m: Index, f: string, i: nat): (r: Index)
    ensures forall g :: Entries(r, g) == if g == f then Entries(m, g) + [i] else Entries(m, g)
    ensures forall g :: g in r <==> g in m || g == f
  {
    m[f := Entries(m, f) + [i]]
  }

  /** Every listed field has at least one index. */
  predicate NoEmptyLists(m: Index) {
    forall f | f in m :: |m[f]| > 0
  }

  // ---------------------------------------------------------------- check_required_fields

  datatype RequiredFields = RequiredFields(total: nat, complete: nat, missing: Index, empty: Index)

  predicate IsMissingIn(r: Record, f: string) {
    f !in r
  }

  /** A required field of `r` that is present but falsy. */
  predicate IsEmptyIn(r: Record, f: string) {
    f in r && !Truthy(r[f])
  }

  /** What `is_complete` ends as: every required field present and truthy. */
  function CompleteFor(required: seq<string>): Record -> bool {
    (r: Record) => forall k | 0 <= k < |required| :: required[k] in r && Truthy(r[required[k]])
  }

  /** `i` repeated `c` times. */
  function Repeat(i: nat, c: nat): (s: seq<nat>)
    ensures |s| == c
    ensures forall k | 0 <= k < c :: s[k] == i
  {
    if c == 0 then [] else Repeat(i, c - 1) + [i]
  }

  /** How often `g` occurs in `required`. */
  function Occurrences(required: seq<string>, g: string): (c: nat)
    ensures c > 0 <==> g in required
  {
    if |required| == 0 then 0
    else
      var n := |required| - 1;
      assert required == required[..n] + [required[n]];
      Occurrences(required[..n], g) + (if required[n] == g then 1 else 0)
  }

  /** How one of the two lists should read for field `g`: the indices of
      the records for which `g` is noted, in index order, each once per
      occurrence of `g` in the required list. */
  function Listed(required: seq<string>, meds: seq<Record>, noted: (Record, string) -> bool, g: string): (s: seq<nat>)
    ensures forall k | 0 <= k < |s| :: s[k] < |meds|
    ensures forall k, l | 0 <= k < l < |s| :: s[k] <= s[l]
    ensures forall i | 0 <= i < |meds| :: i in s <==> g in required && noted(meds[i], g)
  {
    if |meds| == 0 then []
    else
      var n := |meds| - 1;
      var prev := Listed(required, meds[..n], noted, g);
      assert forall i | 0 <= i < n :: meds[..n][i] == meds[i];
      prev + Repeat(n, if noted(meds[n], g) then Occurrences(required, g) else 0)
  }

  /** A field's list is empty exactly when no record has the field noted
      (or the field is not required at all). */
  lemma {:induction false} ListedEmptyIff(required: seq<string>, meds: seq<Record>, noted: (Record, string) -> bool, g: string)
    ensures |Listed(required, meds, noted, g)| == 0
            <==> forall i | 0 <= i < |meds| :: !(g in required && noted(meds[i], g))
  {
    if |meds| > 0 {
      var n := |meds| - 1;
      ListedEmptyIff(required, meds[..n], noted, g);
      assert forall i | 0 <= i < n :: meds[..n][i] == meds[i];
    }
  }

  /** The inner loop over the required fields for record `i`, for one of the
      two lists: every field `f` with `noted(r, f)` gets `i` appended. */
  function ScanRecord(required: seq<string>, i: nat, r: Record, m: Index, noted: (Record, string) -> bool): (out: Index)
    ensures NoEmptyLists(m) ==> NoEmptyLists(out)
    decreases |required|
  {
    if |required| == 0 then m
    else
      var n := |required| - 1;
      var prev := ScanRecord(required[..n], i, r, m, noted);
      var f := required[n];
      if noted(r, f) then Note(prev, f, i) else prev
  }

  /** The scan of one record appends `i` to the list of `g` once per
      occurrence of `g` in the required list when `g` is noted, and leaves
      it alone otherwise. */
  lemma {:induction false} ScanRecordAdds(required: seq<string>, i: nat, r: Record, m: Index, noted: (Record, string) -> bool, g: string)
    ensures Entries(ScanRecord(required, i, r, m, noted), g)
            == Entries(m, g) + Repeat(i, if noted(r, g) then Occurrences(required, g) else 0)
    decreases |required|
  {
    if |required| > 0 {
      var n := |required| - 1;
      ScanRecordAdds(required[..n], i, r, m, noted, g);
      ScanRecordStep(required, i, r, m, noted, g);
      var c := if noted(r, g) then Occurrences(required[..n], g) else 0;
      assert Repeat(i, c + 1) == Repeat(i, c) + [i];
    }
  }

  /** The scan of the last required field appends `i` to the list of `g`
      when that field is `g` and is noted. */
  lemma ScanRecordStep(required: seq<string>, i: nat, r: Record, m: Index, noted: (Record, string) -> bool, g: string)
    requires |required| > 0
    ensures var n := |required| - 1;
            && Entries(ScanRecord(required, i, r, m, noted), g)
               == Entries(ScanRecord(required[..n], i, r, m, noted), g)
                  + (if required[n] == g && noted(r, g) then [i] else [])
            && Occurrences(required, g) == Occurrences(required[..n], g) + (if required[n] == g then 1 else 0)
  {
  }

  /** One of the two lists of `check_required_fields` over the whole
      catalogue. Each record's scan touches the two lists independently, so
      each list is the fold of its own scan. */
  function Collect(required: seq<string>, meds: seq<Record>, noted: (Record, string) -> bool): (m: Index)
    ensures NoEmptyLists(m)
  {
    if |meds| == 0 then map[]
    else
      var n := |meds| - 1;
      ScanRecord(required, n, meds[n], Collect(required, meds[..n], noted), noted)
  }

  /** The fold produces, for every field, the list it should. */
  lemma {:induction false} CollectIsListed(required: seq<string>, meds: seq<Record>, noted: (Record, string) -> bool, g: string)
    ensures Entries(Collect(required, meds, noted), g) == Listed(required, meds, noted, g)
  {
    if |meds| > 0 {
      var n := |meds| - 1;
      CollectIsListed(required, meds[..n], noted, g);
      ScanRecordAdds(required, n, meds[n], Collect(required, meds[..n], noted), noted, g);
    }
  }

  /** `check_required_fields`: the total, the number of complete records,
      and for every field the list it should have among the missing and
      among the empty fields; a field is listed only with some index. */
  function CheckRequiredFields(required: seq<string>, meds: seq<Record>): (r: RequiredFields)
    ensures r.total == |meds|
    ensures r.complete == Count(meds, CompleteFor(required)) && r.complete <= r.total
    ensures NoEmptyLists(r.missing) && NoEmptyLists(r.empty)
    ensures forall g :: Entries(r.missing, g) == Listed(required, meds, IsMissingIn, g)
    ensures forall g :: Entries(r.empty, g) == Listed(required, meds, IsEmptyIn, g)
  {
    var missing := Collect(required, meds, IsMissingIn);
    var empty := Collect(required, meds, IsEmptyIn);
    assert forall g :: Entries(missing, g) == Listed(required, meds, IsMissingIn, g) by {
      forall g ensures Entries(missing, g) == Listed(required, meds, IsMissingIn, g) {
        CollectIsListed(required, meds, IsMissingIn, g);
      }
    }
    assert forall g :: Entries(empty, g) == Listed(required, meds, IsEmptyIn, g) by {
      forall g ensures Entries(empty, g) == Listed(required, meds, IsEmptyIn, g) {
        CollectIsListed(required, meds, IsEmptyIn, g);
      }
    }
    RequiredFields(|meds|, CompleteCount(required, meds), missing, empty)
  }

  /** The `complete` counter: the records whose every required field is
      present and truthy. */
  function CompleteCount(required: seq<string>, meds: seq<Record>): (c: nat)
    ensures c == Count(meds, CompleteFor(required))
    ensures c <= |meds|
  {
    if |meds| == 0 then 0
    else
      var n := |meds| - 1;
      CountSnoc(meds[..n], meds[n], CompleteFor(required));
      assert meds == meds[..n] + [meds[n]];
      CompleteCount(required, meds[..n]) + (if CompleteFor(required)(meds[n]) then 1 else 0)
  }

  /** What `check_required_fields` reports: a record's index is listed
      under a field as missing exactly when the field is required and
      absent, and as empty exactly when it is required, present and falsy;
      every list is in index order and non-empty. */
  lemma RequiredFieldsSpec(required: seq<string>, meds: seq<Record>, g: string)
    ensures var r := CheckRequiredFields(required, meds);
            && (forall i | 0 <= i < |meds| :: i in Entries(r.missing, g) <==> g in required && g !in meds[i])
            && (forall i | 0 <= i < |meds| :: i in Entries(r.empty, g) <==> g in required && IsEmptyIn(meds[i], g))
            && (forall k, l | 0 <= k < l < |Entries(r.missing, g)| :: Entries(r.missing, g)[k] <= Entries(r.missing, g)[l])
            && (forall k | 0 <= k < |Entries(r.missing, g)| :: Entries(r.missing, g)[k] < |meds|)
  {
    var r := CheckRequiredFields(required, meds);
    assert Entries(r.missing, g) == Listed(required, meds, IsMissingIn, g);
    assert Entries(r.empty, g) == Listed(required, meds, IsEmptyIn, g);
  }

  /** A record counts as complete exactly when its index is in no list. */
  lemma CompleteIffUnlisted(required: seq<string>, meds: seq<Record>, i: nat)
    requires i < |meds|
    ensures var r := CheckRequiredFields(required, meds);
            CompleteFor(required)(meds[i]) <==>
            forall g :: i !in Entries(r.missing, g) && i !in Entries(r.empty, g)
  {
    var r := CheckRequiredFields(required, meds);
    if !CompleteFor(required)(meds[i]) {
      var k :| 0 <= k < |required| && !(required[k] in meds[i] && Truthy(meds[i][required[k]]));
      var g := required[k];
      RequiredFieldsSpec(required, meds, g);
      assert g in required;
      assert i in Entries(r.missing, g) || i in Entries(r.empty, g);
    } else {
      forall g ensures i !in Entries(r.missing, g) && i !in Entries(r.empty, g) {
        RequiredFieldsSpec(required, meds, g);
      }
    }
  }

  // ---------------------------------------------------------------- check_completeness

  /** The counters of `check_completeness`; an empty entry is a record
      index with `medicine.get('name', 'Unknown')`. */
  datatype CompletenessStats = CompletenessStats(
    total: nat, hasUses: nat, hasComponents: nat, hasBoth: nat, hasNeither: nat,
    emptyEntries: seq<(nat, Json)>)

  predicate HasUses(r: Record) { HasTruthy(r, "uses") }
  predicate HasComponents(r: Record) { HasTruthy(r, "components") }
  predicate HasBoth(r: Record) { HasUses(r) && HasComponents(r) }
  predicate HasNeither(r: Record) { !HasUses(r) && !HasComponents(r) }

  /** The `empty_entries` list: the records with neither uses nor
      components, in index order, each with its name or "Unknown". */
  function EmptyEntries(meds: seq<Record>): (es: seq<(nat, Json)>)
    ensures |es| == Count(meds, HasNeither)
    ensures EntriesOk(meds, es)
  {
    if |meds| == 0 then []
    else
      var n := |meds| - 1;
      var prev := EmptyEntries(meds[..n]);
      var last := if HasNeither(meds[n]) then [(n, Get(meds[n], "name", JString("Unknown")))] else [];
      EntriesSnoc(meds, prev, last);
      prev + last
  }

  /** Each entry names a record with neither uses nor components, by
      index and name, and the indices ascend. */
  predicate EntriesOk(meds: seq<Record>, es: seq<(nat, Json)>) {
    && (forall k | 0 <= k < |es| ::
          es[k].0 < |meds| && HasNeither(meds[es[k].0]) && es[k].1 == Get(meds[es[k].0], "name", JString("Unknown")))
    && (forall k, l | 0 <= k < l < |es| :: es[k].0 < es[l].0)
  }

  /** One more record adds at most one entry, and keeps the entries
      well formed. */
  lemma EntriesSnoc(meds: seq<Record>, prev: seq<(nat, Json)>, last: seq<(nat, Json)>)
    requires |meds| > 0
    requires |prev| == Count(meds[..|meds| - 1], HasNeither) && EntriesOk(meds[..|meds| - 1], prev)
    requires last == if HasNeither(meds[|meds| - 1]) then [(|meds| - 1, Get(meds[|meds| - 1], "name", JString("Unknown")))] else []
    ensures |prev + last| == Count(meds, HasNeither) && EntriesOk(meds, prev + last)
  {
    var n := |meds| - 1;
    var init := meds[..n];
    CountSnoc(init, meds[n], HasNeither);
    assert meds == init + [meds[n]];
    assert forall i | 0 <= i < n :: init[i] == meds[i];
  }

  /** An entry for an earlier record stays an entry. */
  lemma EntryKept(meds: seq<Record>, e: (nat, Json))
    requires |meds| > 0 && e in EmptyEntries(meds[..|meds| - 1])
    ensures e in EmptyEntries(meds)
  {
  }

  /** The last record has an entry when it has neither uses nor
      components. */
  lemma EntryLast(meds: seq<Record>)
    requires |meds| > 0 && HasNeither(meds[|meds| - 1])
    ensures (|meds| - 1, Get(meds[|meds| - 1], "name", JString("Unknown"))) in EmptyEntries(meds)
  {
  }

  /** Every record with neither uses nor components has an entry. */
  lemma {:induction false} EmptyEntriesComplete(meds: seq<Record>, i: nat)
    requires i < |meds| && HasNeither(meds[i])
    ensures (i, Get(meds[i], "name", JString("Unknown"))) in EmptyEntries(meds)
  {
    var n := |meds| - 1;
    if i < n {
      var init := meds[..n];
      assert init[i] == meds[i];
      EmptyEntriesComplete(init, i);
      EntryKept(meds, (i, Get(meds[i], "name", JString("Unknown"))));
    } else {
      EntryLast(meds);
    }
  }

  /** `check_completeness`: each counter counts the records it names. */
  function CheckCompleteness(meds: seq<Record>): (s: CompletenessStats)
    ensures s.total == |meds|
    ensures s.hasUses + s.hasComponents + s.hasNeither == s.total + s.hasBoth
    ensures |s.emptyEntries| == s.hasNeither
  {
    InclusionExclusion(meds);
    CompletenessStats(|meds|, Count(meds, HasUses), Count(meds, HasComponents),
                      Count(meds, HasBoth), Count(meds, HasNeither), EmptyEntries(meds))
  }

  /** The four counters satisfy inclusion-exclusion: with uses, plus with
      components, plus with neither, is everything plus with both. */
  lemma {:induction false} InclusionExclusion(meds: seq<Record>)
    ensures Count(meds, HasUses) + Count(meds, HasComponents) + Count(meds, HasNeither)
            == |meds| + Count(meds, HasBoth)
  {
    if |meds| > 0 {
      var n := |meds| - 1;
      var init := meds[..n];
      var m := meds[n];
      assert meds == init + [m];
      InclusionExclusion(init);
      CountSnoc(init, m, HasUses);
      CountSnoc(init, m, HasComponents);
      CountSnoc(init, m, HasBoth);
      CountSnoc(init, m, HasNeither);
    }
  }
}
