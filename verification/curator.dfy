/** `ManualCurator`: the duplicate check, the validation of a hand-entered
    record, its append with a default category, and the catalogue
    statistics. The catalogue is the list of JSON objects read from the
    database file; the file itself, the prompts and the previews are not
    modelled. A Python exception that the code does not catch is the `None`
    outcome. */
module Curator {
  import opened Wrappers
  import opened Text
  import opened Seqs
  import opened JsonValues
  import opened Medicines
  import opened Categories

  // ------------------------------------------------------------ check_duplicate

  /** `med.get('name', '').lower()`; `None` when the stored name is not a
      string, where `.lower()` raises. */
  function StoredName(r: Record): Option<string> {
    if "name" !in r then Some("")
    else if r["name"].JString? then Some(Lower(r["name"].s))
    else None
  }

  /** The query as `check_duplicate` compares it: lower-cased and stripped.
      Stored names are lower-cased but not stripped. */
  function QueryKey(name: string): string {
    Strip(Lower(name))
  }

  /** The scan of `check_duplicate` from record `i` on: it answers `true` at
      the first stored name equal to `q`, raises at the first unreadable
      name before that, and answers `false` after the last record. */
  function DuplicateFrom(meds: seq<Record>, q: string, i: nat): (r: Option<bool>)
    requires i <= |meds|
    ensures r == Some(true) <==>
              exists j | i <= j < |meds| :: StoredName(meds[j]) == Some(q)
                && forall l | i <= l < j :: StoredName(meds[l]).Some?
    ensures r == Some(false) <==>
              forall j | i <= j < |meds| :: StoredName(meds[j]).Some? && StoredName(meds[j]) != Some(q)
    decreases |meds| - i
  {
    if i == |meds| then Some(false)
    else
      match StoredName(meds[i])
      case None => None
      case Some(n) => if n == q then Some(true) else DuplicateFrom(meds, q, i + 1)
  }

  /** `check_duplicate(name)`: `true` when a stored name, lower-cased, equals
      the stripped lower-cased query and every earlier name is readable;
      `false` when every name is readable and none matches. */
  function CheckDuplicate(meds: seq<Record>, name: string): (r: Option<bool>)
    ensures r == Some(true) <==>
              exists j | 0 <= j < |meds| :: StoredName(meds[j]) == Some(QueryKey(name))
                && forall l | 0 <= l < j :: StoredName(meds[l]).Some?
    ensures r == Some(false) <==>
              forall j | 0 <= j < |meds| :: StoredName(meds[j]).Some? && StoredName(meds[j]) != Some(QueryKey(name))
  {
    DuplicateFrom(meds, QueryKey(name), 0)
  }

  /** Appending a record after a scan that found nothing scans just that
      record. */
  lemma {:induction false} DuplicateFromAppend(meds: seq<Record>, x: Record, q: string, i: nat)
    requires i <= |meds|
    requires DuplicateFrom(meds, q, i) == Some(false)
    ensures DuplicateFrom(meds + [x], q, i) == DuplicateFrom([x], q, 0)
    decreases |meds| - i
  {
    var ms := meds + [x];
    if i < |meds| {
      assert ms[i] == meds[i];
      DuplicateFromAppend(meds, x, q, i + 1);
    } else {
      assert ms[i] == x;
      assert DuplicateFrom(ms, q, i + 1) == Some(false);
    }
  }

  // ------------------------------------------------------------ validate_medicine_data

  /** Why `validate_medicine_data` rejects a record. */
  datatype Problem =
    | MissingField(field: string)
    | EmptyField(field: string)
    | NameNotString
    | UsesNotList
    | ComponentsNotList
    | NoUsesNorComponents

  datatype Verdict = Accepted | Rejected(problem: Problem)

  /** The message the code returns for each problem. */
  function Message(p: Problem): string {
    match p
    case MissingField(f) => "Missing required field: " + f
    case EmptyField(f) => "Required field '" + f + "' is empty"
    case NameNotString => "Field 'name' must be a string"
    case UsesNotList => "Field 'uses' must be a list"
    case ComponentsNotList => "Field 'components' must be a list"
    case NoUsesNorComponents => "At least one of 'uses' or 'components' must have values"
  }

  /** Required field `f` is present with a truthy value. */
  predicate Filled(m: Record, f: string) {
    f in m && Truthy(m[f])
  }

  /** The problem reported for an unfilled field: missing, or present but
      falsy. */
  function ProblemFor(m: Record, f: string): Problem {
    if f in m then EmptyField(f) else MissingField(f)
  }

  /** `required[k]` is the first required field at or after `from` that is
      not filled. */
  predicate FirstUnfilled(required: seq<string>, m: Record, from: nat, k: nat) {
    && from <= k < |required|
    && (forall l | from <= l < k :: Filled(m, required[l]))
    && !Filled(m, required[k])
  }

  /** The problem with the first required field at or after `from` that is
      missing or falsy; `None` when all of them are filled. */
  function FieldProblem(required: seq<string>, m: Record, from: nat): (r: Option<Problem>)
    requires from <= |required|
    ensures r.None? <==> forall k | from <= k < |required| :: Filled(m, required[k])
    ensures r.Some? ==> exists k: nat :: FirstUnfilled(required, m, from, k) && r.value == ProblemFor(m, required[k])
    decreases |required| - from
  {
    if from == |required| then None
    else
      var f := required[from];
      if f !in m then
        assert FirstUnfilled(required, m, from, from);
        Some(MissingField(f))
      else if !Truthy(m[f]) then
        assert FirstUnfilled(required, m, from, from);
        Some(EmptyField(f))
      else
        var r := FieldProblem(required, m, from + 1);
        FirstUnfilledStep(required, m, from, r);
        r
  }

  /** A filled field at `from` passes the first unfilled field after it
      through. */
  lemma FirstUnfilledStep(required: seq<string>, m: Record, from: nat, r: Option<Problem>)
    requires from < |required| && Filled(m, required[from])
    requires r.Some? ==> exists k: nat :: FirstUnfilled(required, m, from + 1, k) && r.value == ProblemFor(m, required[k])
    ensures r.Some? ==> exists k: nat :: FirstUnfilled(required, m, from, k) && r.value == ProblemFor(m, required[k])
  {
    if r.Some? {
      var k: nat :| FirstUnfilled(required, m, from + 1, k) && r.value == ProblemFor(m, required[k]);
      assert FirstUnfilled(required, m, from, k);
    }
  }

  /** Every required field is present with a truthy value. */
  predicate AllFilled(required: seq<string>, m: Record) {
    forall k | 0 <= k < |required| :: Filled(m, required[k])
  }

  /** What `validate_medicine_data` accepts: every required field filled, a
      string name, list-valued uses and components, and not both empty. */
  predicate Acceptable(required: seq<string>, m: Record) {
    && (forall k | 0 <= k < |required| :: Filled(m, required[k]))
    && "name" in m && m["name"].JString?
    && "uses" in m && m["uses"].JArray?
    && "components" in m && m["components"].JArray?
    && (|m["uses"].items| > 0 || |m["components"].items| > 0)
  }

  /** `validate_medicine_data(medicine)`: the checks run in order and the
      first failing one is reported. Reading `name`, `uses` or `components`
      when the field is absent (possible when it is not required) raises a
      `KeyError`, the `None` outcome. */
  function ValidateMedicineData(required: seq<string>, m: Record): (r: Option<Verdict>)
    ensures r == Some(Accepted) <==> Acceptable(required, m)
    ensures r.None? <==>
              && AllFilled(required, m)
              && ("name" !in m
                  || (m["name"].JString? && ("uses" !in m
                      || (m["uses"].JArray? && "components" !in m))))
    ensures r.Some? && r.value.Rejected? && r.value.problem.MissingField? ==>
              var f := r.value.problem.field;
              f in required && f !in m
    ensures r.Some? && r.value.Rejected? && r.value.problem.EmptyField? ==>
              var f := r.value.problem.field;
              f in required && f in m && !Truthy(m[f])
    ensures r.Some? && r.value.Rejected? && !r.value.problem.MissingField? && !r.value.problem.EmptyField? ==>
              forall k | 0 <= k < |required| :: Filled(m, required[k])
    ensures r == Some(Rejected(NameNotString)) <==>
              (forall k | 0 <= k < |required| :: Filled(m, required[k])) && "name" in m && !m["name"].JString?
    ensures r == Some(Rejected(UsesNotList)) <==>
              && AllFilled(required, m)
              && "name" in m && m["name"].JString?
              && "uses" in m && !m["uses"].JArray?
    ensures r == Some(Rejected(ComponentsNotList)) <==>
              && AllFilled(required, m)
              && "name" in m && m["name"].JString?
              && "uses" in m && m["uses"].JArray?
              && "components" in m && !m["components"].JArray?
    ensures r == Some(Rejected(NoUsesNorComponents)) <==>
              && AllFilled(required, m)
              && "name" in m && m["name"].JString?
              && "uses" in m && m["uses"] == JArray([])
              && "components" in m && m["components"] == JArray([])
  {
    match FieldProblem(required, m, 0)
    case Some(p) => Some(Rejected(p))
    case None =>
      if "name" !in m then None
      else if !m["name"].JString? then Some(Rejected(NameNotString))
      else if "uses" !in m then None
      else if !m["uses"].JArray? then Some(Rejected(UsesNotList))
      else if "components" !in m then None
      else if !m["components"].JArray? then Some(Rejected(ComponentsNotList))
      else if |m["uses"].items| == 0 && |m["components"].items| == 0 then Some(Rejected(NoUsesNorComponents))
      else Some(Accepted)
  }

  /** A rejection for a required field names the first required field that
      is not filled. */
  lemma FirstFieldReported(required: seq<string>, m: Record)
    requires exists k | 0 <= k < |required| :: !Filled(m, required[k])
    ensures ValidateMedicineData(required, m).Some?
    ensures var p := ValidateMedicineData(required, m).value;
            && p.Rejected? && (p.problem.MissingField? || p.problem.EmptyField?)
            && exists k | 0 <= k < |required| ::
                 && required[k] == p.problem.field
                 && !Filled(m, required[k])
                 && forall l | 0 <= l < k :: Filled(m, required[l])
  {
  }

  // ------------------------------------------------------------ add_medicine_from_dict

  /** The outcome of `add_medicine_from_dict`: its `(success, message)` pair
      and the catalogue afterwards. */
  datatype AddResult = AddResult(ok: bool, message: string, medicines: seq<Record>)

  /** `suggest_category(uses)` over the record's JSON list of uses; `None`
      when a use is not a string and `" ".join` raises. */
  function SuggestFor(mappings: Mappings, uses: seq<Json>): (r: Option<Option<string>>)
    ensures r.Some? <==> Strings(uses).Some?
    ensures r.Some? ==> r.value == Suggest(mappings, Strings(uses).value)
  {
    match Strings(uses)
    case None => None
    case Some(strs) => Some(Suggest(mappings, strs))
  }

  /** The category an accepted record is stored with: its own when truthy,
      otherwise the suggested one when that is a non-empty string, otherwise
      `"Unknown"`. */
  predicate StoredWithCategory(mappings: Mappings, m: Record, stored: Record)
    requires "uses" in m && m["uses"].JArray?
  {
    && stored.Keys == m.Keys + {"category"}
    && (forall k | k in m && k != "category" :: stored[k] == m[k])
    && (Filled(m, "category") ==> stored["category"] == m["category"])
    && (!Filled(m, "category") ==>
          SuggestFor(mappings, m["uses"].items).Some?
          && var s := SuggestFor(mappings, m["uses"].items).value;
             stored["category"] == JString(if s.Some? && s.value != "" then s.value else UNKNOWN))
  }

  /** `medicine.get('name')` as the duplicate message prints it. */
  function ShownName(m: Record): string {
    if "name" in m && m["name"].JString? then m["name"].s else "None"
  }

  /** `add_medicine_from_dict(medicine)`. */
  function AddMedicineFromDict(mappings: Mappings, required: seq<string>, meds: seq<Record>, m: Record): (r: Option<AddResult>)
    ensures r.Some? && !r.value.ok ==> r.value.medicines == meds
    ensures r.Some? && r.value.ok ==>
              && |r.value.medicines| == |meds| + 1
              && r.value.medicines[..|meds|] == meds
              && Acceptable(required, m)
              && StoredWithCategory(mappings, m, r.value.medicines[|meds|])
  {
    var query := Get(m, "name", JString(""));
    if !query.JString? then None
    else
      match CheckDuplicate(meds, query.s)
      case None => None
      case Some(true) => Some(AddResult(false, "Medicine '" + ShownName(m) + "' already exists", meds))
      case Some(false) =>
        match ValidateMedicineData(required, m)
        case None => None
        case Some(Rejected(p)) => Some(AddResult(false, Message(p), meds))
        case Some(Accepted) =>
          var stored :=
            if Filled(m, "category") then Some(m)
            else
              match SuggestFor(mappings, m["uses"].items)
              case None => None
              case Some(s) => Some(m["category" := JString(if s.Some? && s.value != "" then s.value else UNKNOWN)]);
          match stored
          case None => None
          case Some(x) => Some(AddResult(true, "Successfully added '" + m["name"].s + "'", meds + [x]))
  }

  /** The duplicate check runs first: a record whose name is already stored
      is refused with the duplicate message whether or not it is valid, and
      the catalogue is unchanged. */
  lemma DuplicateRefusedFirst(mappings: Mappings, required: seq<string>, meds: seq<Record>, m: Record)
    requires "name" in m && m["name"].JString?
    requires CheckDuplicate(meds, m["name"].s) == Some(true)
    ensures AddMedicineFromDict(mappings, required, meds, m)
         == Some(AddResult(false, "Medicine '" + m["name"].s + "' already exists", meds))
  {
  }

  /** A record is appended exactly when its name is new, it passes
      validation and its category can be settled; otherwise the reason is
      reported and nothing changes. */
  lemma AddSucceedsIff(mappings: Mappings, required: seq<string>, meds: seq<Record>, m: Record)
    requires "name" in m && m["name"].JString?
    ensures AddMedicineFromDict(mappings, required, meds, m).Some?
            && AddMedicineFromDict(mappings, required, meds, m).value.ok
            <==>
            && CheckDuplicate(meds, m["name"].s) == Some(false)
            && Acceptable(required, m)
            && (Filled(m, "category") || Strings(m["uses"].items).Some?)
    ensures CheckDuplicate(meds, m["name"].s) == Some(false) && ValidateMedicineData(required, m).Some?
            && ValidateMedicineData(required, m).value.Rejected?
            ==> AddMedicineFromDict(mappings, required, meds, m)
                == Some(AddResult(false, Message(ValidateMedicineData(required, m).value.problem), meds))
  {
  }

  /** Once a record is added, asking for its name again finds it, provided
      the name has no surrounding whitespace once lower-cased; with such
      whitespace the stored name never equals the stripped query. */
  lemma AddedNameIsDuplicate(mappings: Mappings, required: seq<string>, meds: seq<Record>, m: Record)
    requires AddMedicineFromDict(mappings, required, meds, m).Some?
    requires AddMedicineFromDict(mappings, required, meds, m).value.ok
    requires QueryKey(m["name"].s) == Lower(m["name"].s)
    ensures CheckDuplicate(AddMedicineFromDict(mappings, required, meds, m).value.medicines, m["name"].s) == Some(true)
  {
    var out := AddMedicineFromDict(mappings, required, meds, m).value.medicines;
    var x := out[|meds|];
    assert out == meds + [x];
    var q := QueryKey(m["name"].s);
    DuplicateFromAppend(meds, x, q, 0);
    assert x["name"] == m["name"];
  }

  /** A padded name is not caught: after `" Aspirin"` is added, asking for
      `" Aspirin"` again answers `false`, because the stored `" aspirin"` is
      compared with the stripped `"aspirin"`. */
  lemma PaddedNameNotCaught()
    ensures CheckDuplicate([map["name" := JString(" Aspirin")]], " Aspirin") == Some(false)
  {
    var stored := map["name" := JString(" Aspirin")];
    assert StoredName(stored) == Some(Lower(" Aspirin"));
    assert Lower(" Aspirin")[0] == ' ';
    assert QueryKey(" Aspirin") == "aspirin" by {
      assert Lower(" Aspirin") == " aspirin";
      assert TrimStart(" aspirin") == "aspirin";
      assert TrimEnd("aspirin") == "aspirin";
    }
  }

  // ------------------------------------------------------------ get_statistics

  /** `med.get('category', 'Unknown')` */
  function CategoryOf(r: Record): Json {
    Get(r, "category", JString(UNKNOWN))
  }

  /** JSON values Python can use as dict keys: lists and objects are
      unhashable. */
  predicate Hashable(j: Json) {
    !j.JArray? && !j.JObject?
  }

  /** The value a dict key compares by: Python's `True == 1` and
      `False == 0` share a key. */
  function KeyValue(j: Json): Json {
    if j.JBool? then JNum(if j.b then 1 else 0) else j
  }

  /** JSON values `len` accepts. */
  predicate Sized(j: Json) {
    j.JString? || j.JArray? || j.JObject?
  }

  /** `len(med.get(field, []))` is defined for this record. */
  predicate Measurable(r: Record, field: string) {
    Sized(Get(r, field, JArray([])))
  }

  /** What `get_statistics` can loop over without raising. */
  predicate Countable(r: Record) {
    Hashable(CategoryOf(r)) && Measurable(r, "uses") && Measurable(r, "components")
  }

  /** The `categories` dict in insertion order: each key once, with its
      count. */
  type Tally = seq<(Json, nat)>

  function SumCounts(t: Tally): nat {
    if |t| == 0 then 0 else SumCounts(t[..|t| - 1]) + t[|t| - 1].1
  }

  /** The position of the key equal to `c` under Python's key equality. */
  function KeyPos(t: Tally, c: Json): (r: Option<nat>)
    ensures r.Some? ==> r.value < |t| && KeyValue(t[r.value].0) == KeyValue(c)
    ensures r.None? <==> forall k | 0 <= k < |t| :: KeyValue(t[k].0) != KeyValue(c)
  {
    if |t| == 0 then None
    else if KeyValue(t[|t| - 1].0) == KeyValue(c) then Some(|t| - 1)
    else KeyPos(t[..|t| - 1], c)
  }

  /** Raising one count raises the sum by one. */
  lemma {:induction false} SumCountsBump(t: Tally, p: nat)
    requires p < |t|
    ensures SumCounts(t[p := (t[p].0, t[p].1 + 1)]) == SumCounts(t) + 1
  {
    var u := t[p := (t[p].0, t[p].1 + 1)];
    var n := |t| - 1;
    if p < n {
      assert u[..n] == t[..n][p := (t[p].0, t[p].1 + 1)];
      SumCountsBump(t[..n], p);
    } else {
      assert u[..n] == t[..n];
    }
  }

  /** `categories[c] = categories.get(c, 0) + 1` */
  function Bump(t: Tally, c: Json): (u: Tally)
    ensures SumCounts(u) == SumCounts(t) + 1
  {
    match KeyPos(t, c)
    case Some(p) => SumCountsBump(t, p); t[p := (t[p].0, t[p].1 + 1)]
    case None => assert (t + [(c, 1)])[..|t|] == t; t + [(c, 1)]
  }

  datatype Statistics = Statistics(total: nat, categories: Tally, totalUses: nat, totalComponents: nat)

  /** The records whose category shares a dict key with `c`. */
  function InCategory(c: Json): Record -> bool {
    (r: Record) => KeyValue(CategoryOf(r)) == KeyValue(c)
  }

  /** Sum of `len(med.get(field, []))` over the records. */
  function TotalLen(meds: seq<Record>, field: string): nat {
    if |meds| == 0 then 0 else TotalLen(meds[..|meds| - 1], field) + JsonLen(Get(meds[|meds| - 1], field, JArray([])))
  }

  /** `get_statistics()` without the averages: `None` when a category is
      unhashable or a list field has no length. Category counts sum to the
      number of records, each key is distinct and counts the records in that
      category, and every record's category is a key. */
  function GetStatistics(meds: seq<Record>): (r: Option<Statistics>)
    ensures r.None? <==> exists i | 0 <= i < |meds| :: !Countable(meds[i])
    ensures r.Some? ==>
              && r.value.total == |meds|
              && SumCounts(r.value.categories) == |meds|
              && r.value.totalUses == TotalLen(meds, "uses")
              && r.value.totalComponents == TotalLen(meds, "components")
  {
    if |meds| == 0 then Some(Statistics(0, [], 0, 0))
    else
      var n := |meds| - 1;
      var m := meds[n];
      assert forall i | 0 <= i < n :: meds[..n][i] == meds[i];
      match GetStatistics(meds[..n])
      case None => None
      case Some(s) =>
        if !Countable(m) then None
        else
          Some(Statistics(n + 1, Bump(s.categories, CategoryOf(m)),
                          s.totalUses + JsonLen(Get(m, "uses", JArray([]))),
                          s.totalComponents + JsonLen(Get(m, "components", JArray([])))))
  }

  /** One more record bumps its own category's count and no other; its
      category becomes a key if it was not one. */
  lemma {:induction false} BumpCounts(t: Tally, c: Json, d: Json)
    ensures (exists k | 0 <= k < |Bump(t, c)| :: KeyValue(Bump(t, c)[k].0) == KeyValue(d))
            <==> KeyValue(c) == KeyValue(d) || exists k | 0 <= k < |t| :: KeyValue(t[k].0) == KeyValue(d)
  {
    var u := Bump(t, c);
    match KeyPos(t, c)
    case Some(p) =>
      assert forall k | 0 <= k < |t| :: u[k].0 == t[k].0;
    case None =>
      assert u[|t|].0 == c;
      assert forall k | 0 <= k < |t| :: u[k].0 == t[k].0;
  }

  /** The keys of a tally are pairwise distinct under Python's key equality. */
  predicate KeysApart(t: Tally) {
    forall k, l | 0 <= k < l < |t| :: KeyValue(t[k].0) != KeyValue(t[l].0)
  }

  /** The counts of a tally agree with counting the records. */
  predicate CountsAgree(t: Tally, meds: seq<Record>) {
    forall k | 0 <= k < |t| :: t[k].1 == Count(meds, InCategory(t[k].0))
  }

  /** The tally of `get_statistics` for `meds`: distinct keys, exact
      counts, every record's category a key. */
  predicate Tallied(t: Tally, meds: seq<Record>) {
    KeysApart(t) && CountsAgree(t, meds) && Covers(t, meds)
  }

  /** Every record's category is a key of the tally. */
  predicate Covers(t: Tally, meds: seq<Record>) {
    forall i | 0 <= i < |meds| :: exists k | 0 <= k < |t| :: KeyValue(t[k].0) == KeyValue(CategoryOf(meds[i]))
  }

  /** Bumping keeps the keys apart. */
  lemma BumpApart(t: Tally, c: Json)
    requires KeysApart(t)
    ensures KeysApart(Bump(t, c))
  {
    var u := Bump(t, c);
    match KeyPos(t, c)
    case Some(p) =>
      assert forall k | 0 <= k < |t| :: u[k].0 == t[k].0;
    case None =>
      assert forall k | 0 <= k < |t| :: u[k].0 == t[k].0;
      assert u[|t|].0 == c;
  }

  /** Bumping for one more record keeps the counts exact. */
  lemma BumpKeeps(t: Tally, meds: seq<Record>, m: Record)
    requires KeysApart(t) && CountsAgree(t, meds) && Covers(t, meds)
    ensures CountsAgree(Bump(t, CategoryOf(m)), meds + [m])
  {
    var c := CategoryOf(m);
    var u := Bump(t, c);
    match KeyPos(t, c)
    case Some(p) =>
      assert u == t[p := (t[p].0, t[p].1 + 1)];
      forall k | 0 <= k < |u| ensures u[k].1 == Count(meds + [m], InCategory(u[k].0)) {
        CountSnoc(meds, m, InCategory(u[k].0));
        assert InCategory(u[k].0)(m) <==> k == p;
      }
    case None =>
      assert u == t + [(c, 1)];
      forall k | 0 <= k < |u| ensures u[k].1 == Count(meds + [m], InCategory(u[k].0)) {
        CountSnoc(meds, m, InCategory(u[k].0));
        if k == |t| {
          NoneInNewCategory(t, meds, c);
        }
      }
  }

  /** Bumping for one more record makes its category a key too. */
  lemma BumpCovers(t: Tally, meds: seq<Record>, m: Record)
    requires Covers(t, meds)
    ensures Covers(Bump(t, CategoryOf(m)), meds + [m])
  {
    var u := Bump(t, CategoryOf(m));
    var all := meds + [m];
    forall i | 0 <= i < |all|
      ensures exists k | 0 <= k < |u| :: KeyValue(u[k].0) == KeyValue(CategoryOf(all[i]))
    {
      BumpCounts(t, CategoryOf(m), CategoryOf(all[i]));
      if i < |meds| {
        assert all[i] == meds[i];
      }
    }
  }

  /** A category that is not yet a key counts no earlier record. */
  lemma NoneInNewCategory(t: Tally, meds: seq<Record>, c: Json)
    requires Covers(t, meds)
    requires forall k | 0 <= k < |t| :: KeyValue(t[k].0) != KeyValue(c)
    ensures Count(meds, InCategory(c)) == 0
  {
    forall i | 0 <= i < |meds| ensures !InCategory(c)(meds[i]) {
      var j :| 0 <= j < |t| && KeyValue(t[j].0) == KeyValue(CategoryOf(meds[i]));
    }
    CountNone(meds, InCategory(c));
  }

  /** The statistics of a non-empty list are those of all but its last
      record, bumped for the last record's category. */
  lemma StatisticsStep(meds: seq<Record>)
    requires |meds| > 0 && GetStatistics(meds).Some?
    ensures GetStatistics(meds[..|meds| - 1]).Some?
    ensures GetStatistics(meds).value.categories
         == Bump(GetStatistics(meds[..|meds| - 1]).value.categories, CategoryOf(meds[|meds| - 1]))
  {
  }

  /** The `categories` dict of `get_statistics`: one key per category in
      first-occurrence order, each counting exactly its records. */
  lemma {:induction false} CategoryCounts(meds: seq<Record>)
    requires GetStatistics(meds).Some?
    ensures Tallied(GetStatistics(meds).value.categories, meds)
  {
    if |meds| > 0 {
      var n := |meds| - 1;
      StatisticsStep(meds);
      CategoryCounts(meds[..n]);
      CategoryStep(meds[..n], meds[n], GetStatistics(meds[..n]).value.categories, meds, GetStatistics(meds).value.categories);
    }
  }

  /** One more record keeps the tally exact. */
  lemma CategoryStep(init: seq<Record>, m: Record, t: Tally, meds: seq<Record>, u: Tally)
    requires Tallied(t, init)
    requires |meds| > 0 && init == meds[..|meds| - 1] && m == meds[|meds| - 1] && u == Bump(t, CategoryOf(m))
    ensures Tallied(u, meds)
  {
    assert meds == init + [m];
    BumpApart(t, CategoryOf(m));
    BumpKeeps(t, init, m);
    BumpCovers(t, init, m);
  }
}
