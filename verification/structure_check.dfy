/** `DataValidator.validate_structure` and `DataValidator.validate_data_types`:
    the two type checks over the loaded `medicines` value. They disagree on
    one point: `validate_structure` flags a `null` category, while
    `validate_data_types` accepts a `null` category or description. Error
    messages are represented by what they say (which record, which field),
    not by their text. */
module StructureCheck {
  import opened Wrappers
  import opened Seqs
  import opened JsonValues

  // ---------------------------------------------------------------- validate_structure

  /** One message of `validate_structure`. */
  datatype StructureError =
    | RootNotList
    | RecordError(index: nat, problem: Problem)

  /** What is wrong with one record. */
  datatype Problem =
    | NotADict
    | MissingField(field: string)
    | NameNotString
    | UsesNotList
    | ComponentsNotList
    | CategoryNotString

  predicate NameOk(r: Record) { "name" !in r || r["name"].JString? }
  predicate UsesOk(r: Record) { "uses" !in r || r["uses"].JArray? }
  predicate ComponentsOk(r: Record) { "components" !in r || r["components"].JArray? }

  /** `isinstance(medicine.get('category'), str)` for a present category:
      `null` fails. */
  predicate CategoryOk(r: Record) { "category" !in r || r["category"].JString? }

  /** What `validate_structure` accepts of one record: an object holding
      every required field, with a string name, list uses and components,
      and a string category when there is one. */
  predicate WellFormed(required: seq<string>, j: Json) {
    && j.JObject?
    && (forall k | 0 <= k < |required| :: required[k] in j.fields)
    && NameOk(j.fields) && UsesOk(j.fields) && ComponentsOk(j.fields) && CategoryOk(j.fields)
  }

  /** The required fields a record lacks. */
  function Absent(r: Record): string -> bool {
    (f: string) => f !in r
  }

  function MissingErrors(i: nat, fields: seq<string>): (errs: seq<StructureError>)
    ensures |errs| == |fields|
    ensures forall k | 0 <= k < |errs| :: errs[k] == RecordError(i, MissingField(fields[k]))
  {
    seq(|fields|, k requires 0 <= k < |fields| => RecordError(i, MissingField(fields[k])))
  }

  function TypeErrors(i: nat, r: Record): (errs: seq<StructureError>)
    ensures forall k | 0 <= k < |errs| :: errs[k].RecordError? && errs[k].index == i
    ensures errs == [] <==> NameOk(r) && UsesOk(r) && ComponentsOk(r) && CategoryOk(r)
  {
    (if NameOk(r) then [] else [RecordError(i, NameNotString)])
    + (if UsesOk(r) then [] else [RecordError(i, UsesNotList)])
    + (if ComponentsOk(r) then [] else [RecordError(i, ComponentsNotList)])
    + (if CategoryOk(r) then [] else [RecordError(i, CategoryNotString)])
  }

  /** The number of the four field types a record gets wrong. */
  function Faults(r: Record): nat {
    (if NameOk(r) then 0 else 1) + (if UsesOk(r) then 0 else 1)
    + (if ComponentsOk(r) then 0 else 1) + (if CategoryOk(r) then 0 else 1)
  }

  /** The messages for record `i`, all naming record `i`: none exactly when
      the record is well formed. */
  function RecordErrors(required: seq<string>, i: nat, j: Json): (errs: seq<StructureError>)
    ensures forall k | 0 <= k < |errs| :: errs[k].RecordError? && errs[k].index == i
    ensures errs == [] <==> WellFormed(required, j)
  {
    if !j.JObject? then [RecordError(i, NotADict)]
    else
      var absent := Filter(required, Absent(j.fields));
      NoneAbsent(required, j.fields);
      var missing := MissingErrors(i, absent);
      var typed := TypeErrors(i, j.fields);
      assert missing + typed == [] <==> missing == [] && typed == [];
      missing + typed
  }

  /** No required field is absent exactly when the record holds them all. */
  lemma NoneAbsent(required: seq<string>, r: Record)
    ensures Filter(required, Absent(r)) == [] <==> forall k | 0 <= k < |required| :: required[k] in r
  {
    var absent := Filter(required, Absent(r));
    if absent != [] {
      assert Absent(r)(absent[0]);
    }
  }

  /** What the messages of a record say: one for a non-object; otherwise
      one per absent required field, in the order of the required list,
      then one per mistyped field. */
  lemma RecordErrorsSpec(required: seq<string>, i: nat, j: Json)
    ensures !j.JObject? ==> RecordErrors(required, i, j) == [RecordError(i, NotADict)]
    ensures j.JObject? ==> |RecordErrors(required, i, j)| == |Filter(required, Absent(j.fields))| + Faults(j.fields)
    ensures j.JObject? ==> forall k | 0 <= k < |Filter(required, Absent(j.fields))| ::
              RecordErrors(required, i, j)[k] == RecordError(i, MissingField(Filter(required, Absent(j.fields))[k]))
    ensures j.JObject? ==> forall k | |Filter(required, Absent(j.fields))| <= k < |RecordErrors(required, i, j)| ::
              !RecordErrors(required, i, j)[k].problem.MissingField?
    ensures j.JObject? ==> forall f ::
              RecordError(i, MissingField(f)) in RecordErrors(required, i, j) <==> f in required && f !in j.fields
    ensures j.JObject? ==> (RecordError(i, CategoryNotString) in RecordErrors(required, i, j) <==> !CategoryOk(j.fields))
  {
    if j.JObject? {
      var absent := Filter(required, Absent(j.fields));
      var missing := MissingErrors(i, absent);
      var typed := TypeErrors(i, j.fields);
      assert RecordErrors(required, i, j) == missing + typed;
      forall f | f in required && f !in j.fields ensures RecordError(i, MissingField(f)) in missing {
        var k :| 0 <= k < |required| && required[k] == f;
        assert Absent(j.fields)(required[k]);
        var l :| 0 <= l < |absent| && absent[l] == f;
        assert missing[l] == RecordError(i, MissingField(f));
      }
      assert forall e | e in typed :: !e.problem.MissingField?;
      assert RecordError(i, CategoryNotString) !in missing;
    }
  }

  /** The messages for the records of a list, in record order. */
  function AllErrors(required: seq<string>, items: seq<Json>): (errs: seq<StructureError>)
    ensures forall k | 0 <= k < |errs| :: errs[k].RecordError? && errs[k].index < |items|
    ensures forall k, l | 0 <= k < l < |errs| :: errs[k].index <= errs[l].index
    ensures errs == [] <==> forall i | 0 <= i < |items| :: WellFormed(required, items[i])
  {
    if |items| == 0 then []
    else
      var n := |items| - 1;
      var prev := AllErrors(required, items[..n]);
      var last := RecordErrors(required, n, items[n]);
      StructureErrorsSnoc(prev, last, n);
      WellFormedSnoc(required, items);
      assert prev + last == [] <==> prev == [] && last == [];
      prev + last
  }

  /** Appending the messages of record `n` to those of the records before
      it keeps every message naming a record and keeps record order. */
  lemma StructureErrorsSnoc(prev: seq<StructureError>, last: seq<StructureError>, n: nat)
    requires forall k | 0 <= k < |prev| :: prev[k].RecordError? && prev[k].index < n
    requires forall k, l | 0 <= k < l < |prev| :: prev[k].index <= prev[l].index
    requires forall k | 0 <= k < |last| :: last[k].RecordError? && last[k].index == n
    ensures forall k | 0 <= k < |prev + last| :: (prev + last)[k].RecordError? && (prev + last)[k].index < n + 1
    ensures forall k, l | 0 <= k < l < |prev + last| :: (prev + last)[k].index <= (prev + last)[l].index
  {
    var s := prev + last;
    forall k | 0 <= k < |s| ensures s[k].RecordError? && s[k].index <= n && (k >= |prev| ==> s[k].index == n) {
      if k < |prev| {
        assert s[k] == prev[k];
      } else {
        assert s[k] == last[k - |prev|];
      }
    }
    forall k, l | 0 <= k < l < |s| ensures s[k].index <= s[l].index {
      if l < |prev| {
        assert s[k] == prev[k] && s[l] == prev[l];
      }
    }
  }

  /** Every record of a list is well formed exactly when every record
      before the last one is and the last one is. */
  lemma WellFormedSnoc(required: seq<string>, items: seq<Json>)
    requires |items| > 0
    ensures var n := |items| - 1;
            (forall i | 0 <= i < |items| :: WellFormed(required, items[i]))
            <==> (forall i | 0 <= i < n :: WellFormed(required, items[..n][i])) && WellFormed(required, items[n])
  {
    var n := |items| - 1;
    assert forall i | 0 <= i < n :: items[..n][i] == items[i];
  }

  /** `validate_structure`: a root that is not a list gives exactly one
      message and False; otherwise the verdict is True exactly when there
      are no messages, which is exactly when every record is well formed,
      and the messages come in record order. */
  function ValidateStructure(required: seq<string>, root: Json): (r: (bool, seq<StructureError>))
    ensures r.0 <==> r.1 == []
    ensures !root.JArray? ==> r == (false, [RootNotList])
    ensures root.JArray? ==> (r.0 <==> forall i | 0 <= i < |root.items| :: WellFormed(required, root.items[i]))
    ensures root.JArray? ==> forall k | 0 <= k < |r.1| :: r.1[k].RecordError? && r.1[k].index < |root.items|
    ensures root.JArray? ==> forall k, l | 0 <= k < l < |r.1| :: r.1[k].index <= r.1[l].index
  {
    if !root.JArray? then (false, [RootNotList])
    else
      var errs := AllErrors(required, root.items);
      (errs == [], errs)
  }

  /** The test that a message is about record `i`. */
  function ForRecord(i: nat): StructureError -> bool {
    (e: StructureError) => e.RecordError? && e.index == i
  }

  /** The messages of record `i` within the whole list are exactly the
      record's own messages, in the same order. */
  lemma {:induction false} AllErrorsOfRecord(required: seq<string>, items: seq<Json>, i: nat)
    requires i < |items|
    ensures Filter(AllErrors(required, items), ForRecord(i)) == RecordErrors(required, i, items[i])
    decreases |items|
  {
    var n := |items| - 1;
    var init := items[..n];
    var prev := AllErrors(required, init);
    var last := RecordErrors(required, n, items[n]);
    assert AllErrors(required, items) == prev + last;
    FilterAppend(prev, last, ForRecord(i));
    if i < n {
      AllErrorsOfRecord(required, init, i);
      assert init[i] == items[i];
      FilterNone(last, ForRecord(i));
    } else {
      FilterNone(prev, ForRecord(i));
      FilterAll(last, ForRecord(i));
    }
  }

  // ---------------------------------------------------------------- validate_data_types

  /** One message of `validate_data_types`: field `field` of record `index`
      has the wrong type, or, with `element == Some(p)`, the element at
      position `p` of that list field is not a string. */
  datatype TypeError = TypeError(index: nat, field: string, element: Option<nat>)

  /** The positions of the non-string elements, in list order. */
  function NonStrings(items: seq<Json>): (ps: seq<nat>)
    ensures forall k | 0 <= k < |ps| :: ps[k] < |items| && !items[ps[k]].JString?
    ensures forall k, l | 0 <= k < l < |ps| :: ps[k] < ps[l]
    ensures forall p | 0 <= p < |items| :: p in ps <==> !items[p].JString?
  {
    if |items| == 0 then []
    else
      var n := |items| - 1;
      var prev := NonStrings(items[..n]);
      assert forall p | 0 <= p < n :: items[..n][p] == items[p];
      prev + (if items[n].JString? then [] else [n])
  }

  /** A list field that is absent, or a list of strings. */
  predicate StringList(r: Record, field: string) {
    field !in r || (r[field].JArray? && forall p | 0 <= p < |r[field].items| :: r[field].items[p].JString?)
  }

  /** A field that is absent, `null`, or a string. */
  predicate OptionalString(r: Record, field: string) {
    field !in r || r[field] == JNull || r[field].JString?
  }

  /** The messages for a list field: one for a non-list, else one per
      non-string element. */
  function ListFieldErrors(i: nat, field: string, r: Record): (errs: seq<TypeError>)
    ensures forall k | 0 <= k < |errs| :: errs[k].index == i && errs[k].field == field
    ensures errs == [] <==> StringList(r, field)
  {
    if field !in r then []
    else if !r[field].JArray? then [TypeError(i, field, None)]
    else
      var ps := NonStrings(r[field].items);
      assert ps == [] <==> StringList(r, field) by {
        if ps != [] {
          assert !r[field].items[ps[0]].JString?;
        }
      }
      seq(|ps|, k requires 0 <= k < |ps| => TypeError(i, field, Some(ps[k])))
  }

  function OptionalStringErrors(i: nat, field: string, r: Record): seq<TypeError> {
    if OptionalString(r, field) then [] else [TypeError(i, field, None)]
  }

  /** What `validate_data_types` accepts of one record. */
  predicate TypesOk(r: Record) {
    && NameOk(r)
    && StringList(r, "uses") && StringList(r, "components")
    && OptionalString(r, "category") && OptionalString(r, "description")
  }

  /** The messages for record `i`, in the order the checks run. */
  function RecordTypeErrors(i: nat, r: Record): (errs: seq<TypeError>)
    ensures forall k | 0 <= k < |errs| :: errs[k].index == i
    ensures errs == [] <==> TypesOk(r)
  {
    (if NameOk(r) then [] else [TypeError(i, "name", None)])
    + ListFieldErrors(i, "uses", r)
    + ListFieldErrors(i, "components", r)
    + OptionalStringErrors(i, "category", r)
    + OptionalStringErrors(i, "description", r)
  }

  /** `validate_data_types`: the messages of every record in record order;
      none exactly when every record's types are acceptable. */
  function ValidateDataTypes(meds: seq<Record>): (errs: seq<TypeError>)
    ensures forall k | 0 <= k < |errs| :: errs[k].index < |meds|
    ensures forall k, l | 0 <= k < l < |errs| :: errs[k].index <= errs[l].index
    ensures errs == [] <==> forall i | 0 <= i < |meds| :: TypesOk(meds[i])
  {
    if |meds| == 0 then []
    else
      var n := |meds| - 1;
      var prev := ValidateDataTypes(meds[..n]);
      var last := RecordTypeErrors(n, meds[n]);
      DataTypesSnoc(meds, n, prev, last);
      prev + last
  }

  /** The messages of the records before the last one, followed by the last
      one's, are the messages of all of them. */
  lemma DataTypesSnoc(meds: seq<Record>, n: nat, prev: seq<TypeError>, last: seq<TypeError>)
    requires n + 1 == |meds|
    requires forall k | 0 <= k < |prev| :: prev[k].index < n
    requires forall k, l | 0 <= k < l < |prev| :: prev[k].index <= prev[l].index
    requires prev == [] <==> forall i | 0 <= i < n :: TypesOk(meds[..n][i])
    requires forall k | 0 <= k < |last| :: last[k].index == n
    requires last == [] <==> TypesOk(meds[n])
    ensures forall k | 0 <= k < |prev + last| :: (prev + last)[k].index < |meds|
    ensures forall k, l | 0 <= k < l < |prev + last| :: (prev + last)[k].index <= (prev + last)[l].index
    ensures prev + last == [] <==> forall i | 0 <= i < |meds| :: TypesOk(meds[i])
  {
    TypeErrorsSnoc(prev, last, n);
    TypesOkSnoc(meds);
    assert prev + last == [] <==> prev == [] && last == [];
  }

  /** Appending the messages of record `n` to those of the records before
      it keeps record order. */
  lemma TypeErrorsSnoc(prev: seq<TypeError>, last: seq<TypeError>, n: nat)
    requires forall k | 0 <= k < |prev| :: prev[k].index < n
    requires forall k, l | 0 <= k < l < |prev| :: prev[k].index <= prev[l].index
    requires forall k | 0 <= k < |last| :: last[k].index == n
    ensures forall k | 0 <= k < |prev + last| :: (prev + last)[k].index < n + 1
    ensures forall k, l | 0 <= k < l < |prev + last| :: (prev + last)[k].index <= (prev + last)[l].index
  {
    var s := prev + last;
    forall k | 0 <= k < |s| ensures s[k].index <= n && (k >= |prev| ==> s[k].index == n) {
      if k < |prev| {
        assert s[k] == prev[k];
      } else {
        assert s[k] == last[k - |prev|];
      }
    }
    forall k, l | 0 <= k < l < |s| ensures s[k].index <= s[l].index {
      if l < |prev| {
        assert s[k] == prev[k] && s[l] == prev[l];
      }
    }
  }

  /** Every record's types are acceptable exactly when those of every
      record before the last one are and the last one's are. */
  lemma TypesOkSnoc(meds: seq<Record>)
    requires |meds| > 0
    ensures var n := |meds| - 1;
            (forall i | 0 <= i < |meds| :: TypesOk(meds[i]))
            <==> (forall i | 0 <= i < n :: TypesOk(meds[..n][i])) && TypesOk(meds[n])
  {
    var n := |meds| - 1;
    assert forall i | 0 <= i < n :: meds[..n][i] == meds[i];
  }

  /** A list-typed `uses` field draws one message per non-string element,
      naming its position. */
  lemma UseElementErrors(i: nat, r: Record)
    requires "uses" in r && r["uses"].JArray?
    ensures forall p | 0 <= p < |r["uses"].items| ::
              TypeError(i, "uses", Some(p)) in RecordTypeErrors(i, r) <==> !r["uses"].items[p].JString?
  {
    var own := ListFieldErrors(i, "uses", r);
    ListFieldElementErrors(i, "uses", r);
    var name: seq<TypeError> := if NameOk(r) then [] else [TypeError(i, "name", None)];
    var components := ListFieldErrors(i, "components", r);
    var category := OptionalStringErrors(i, "category", r);
    var description := OptionalStringErrors(i, "description", r);
    assert RecordTypeErrors(i, r) == name + own + components + category + description;
    forall p | 0 <= p < |r["uses"].items|
      ensures TypeError(i, "uses", Some(p)) in RecordTypeErrors(i, r) <==> TypeError(i, "uses", Some(p)) in own
    {
      var e := TypeError(i, "uses", Some(p));
      OtherFieldAbsent(components, "components", e);
      assert e !in name && e !in category && e !in description;
    }
  }

  /** A message about another field is not among a field's messages. */
  lemma OtherFieldAbsent(errs: seq<TypeError>, field: string, e: TypeError)
    requires forall k | 0 <= k < |errs| :: errs[k].field == field
    requires e.field != field
    ensures e !in errs
  {
  }

  /** A list field draws one message per non-string element, naming its
      position. */
  lemma ListFieldElementErrors(i: nat, field: string, r: Record)
    requires field in r && r[field].JArray?
    ensures forall p | 0 <= p < |r[field].items| ::
              TypeError(i, field, Some(p)) in ListFieldErrors(i, field, r) <==> !r[field].items[p].JString?
  {
    var own := ListFieldErrors(i, field, r);
    var ps := NonStrings(r[field].items);
    forall p | 0 <= p < |r[field].items| && p in ps ensures TypeError(i, field, Some(p)) in own {
      var k :| 0 <= k < |ps| && ps[k] == p;
      assert own[k] == TypeError(i, field, Some(p));
    }
  }

  /** The two checks disagree on a `null` category: `validate_structure`
      reports it, `validate_data_types` does not. */
  lemma NullCategoryDisagreement(required: seq<string>, i: nat, r: Record)
    requires "category" in r && r["category"] == JNull
    ensures RecordError(i, CategoryNotString) in RecordErrors(required, i, JObject(r))
    ensures TypeError(i, "category", None) !in RecordTypeErrors(i, r)
  {
    var typed := TypeErrors(i, r);
    assert typed[|typed| - 1] == RecordError(i, CategoryNotString);
    assert RecordErrors(required, i, JObject(r)) == MissingErrors(i, Filter(required, Absent(r))) + typed;
    var name: seq<TypeError> := if NameOk(r) then [] else [TypeError(i, "name", None)];
    var uses := ListFieldErrors(i, "uses", r);
    var components := ListFieldErrors(i, "components", r);
    var description := OptionalStringErrors(i, "description", r);
    var category := OptionalStringErrors(i, "category", r);
    var e := TypeError(i, "category", None);
    assert RecordTypeErrors(i, r) == name + uses + components + category + description;
    OtherFieldAbsent(uses, "uses", e);
    OtherFieldAbsent(components, "components", e);
    assert e !in name && category == [] && e !in description;
  }
}
