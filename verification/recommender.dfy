/** `MedicineRecommender`: feature text, the lower-cased name index, two-tier
    name lookup, the trained/untrained lifecycle, and `recommend_similar`
    over abstract similarity scores (see module `Ranking`). The fitted TF-IDF
    matrix is represented only by its number of rows: that is all the control
    logic observes of it. */
module Recommender {
  import opened Wrappers
  import opened Text
  import opened Seqs
  import opened Medicines
  import opened Ranking

  // ---------------------------------------------------------------- features

  /** `prepare_features`: uses joined by spaces, a space, components joined by
      spaces, stripped. */
  function FeatureText(m: Medicine): string {
    Strip(Join(m.uses, " ") + " " + Join(m.components, " "))
  }

  /** The feature text is empty exactly when every use and every component is
      blank (in particular when both lists are empty). */
  lemma FeatureTextEmptyIff(m: Medicine)
    ensures FeatureText(m) == ""
        <==> ((forall k | 0 <= k < |m.uses| :: AllSpace(m.uses[k]))
              && (forall k | 0 <= k < |m.components| :: AllSpace(m.components[k])))
  {
    var a := Join(m.uses, " ");
    var b := Join(m.components, " ");
    var t := a + " " + b;
    StripEmptyIff(t);
    JoinAllSpace(m.uses, " ");
    JoinAllSpace(m.components, " ");
    assert AllSpace(t) <==> AllSpace(a) && AllSpace(b) by {
      if AllSpace(t) {
        assert forall i | 0 <= i < |a| :: a[i] == t[i];
        assert forall i | 0 <= i < |b| :: b[i] == t[|a| + 1 + i];
      }
    }
  }

  // ---------------------------------------------------------------- name index

  /** `med['name'].lower()`: the index key (lower-cased, not stripped). */
  function NameKey(m: Medicine): string {
    Lower(m.name)
  }

  /** The `{med['name'].lower(): idx for idx, med in enumerate(medicines)}`
      comprehension of `load_database`. A later record with the same key
      overwrites an earlier one, so every key maps to the position of its
      last occurrence. */
  function BuildIndex(meds: seq<Medicine>): (index: map<string, nat>)
    ensures index.Keys == Keys(meds, NameKey)
    ensures forall key | key in index :: index[key] < |meds| && NameKey(meds[index[key]]) == key
    ensures forall key, j | key in index && index[key] < j < |meds| :: NameKey(meds[j]) != key
  {
    if |meds| == 0 then map[]
    else
      var n := |meds| - 1;
      var init := meds[..n];
      assert meds == init + [meds[n]];
      var index := BuildIndex(init)[NameKey(meds[n]) := n];
      IndexSnoc(init, meds[n], BuildIndex(init), meds, index);
      index
  }

  /** Indexing one more record keeps every key at the position of its last
      occurrence. */
  lemma IndexSnoc(init: seq<Medicine>, m: Medicine, prev: map<string, nat>, meds: seq<Medicine>, index: map<string, nat>)
    requires prev.Keys == Keys(init, NameKey)
    requires forall key | key in prev :: prev[key] < |init| && NameKey(init[prev[key]]) == key
    requires forall key, j | key in prev && prev[key] < j < |init| :: NameKey(init[j]) != key
    requires meds == init + [m] && index == prev[NameKey(m) := |init|]
    ensures index.Keys == Keys(meds, NameKey)
    ensures forall key | key in index :: index[key] < |meds| && NameKey(meds[index[key]]) == key
    ensures forall key, j | key in index && index[key] < j < |meds| :: NameKey(meds[j]) != key
  {
    KeysSnoc(init, m, NameKey);
    IndexSnocAt(init, m, prev, meds, index);
    IndexSnocLater(init, m, prev, meds, index);
  }

  /** Every key still maps to a record with that key. */
  lemma IndexSnocAt(init: seq<Medicine>, m: Medicine, prev: map<string, nat>, meds: seq<Medicine>, index: map<string, nat>)
    requires forall key | key in prev :: prev[key] < |init| && NameKey(init[prev[key]]) == key
    requires meds == init + [m] && index == prev[NameKey(m) := |init|]
    ensures forall key | key in index :: index[key] < |meds| && NameKey(meds[index[key]]) == key
  {
    forall key | key in index ensures index[key] < |meds| && NameKey(meds[index[key]]) == key {
      if key != NameKey(m) {
        assert meds[prev[key]] == init[prev[key]];
      }
    }
  }

  /** No record after a key's position has that key. */
  lemma IndexSnocLater(init: seq<Medicine>, m: Medicine, prev: map<string, nat>, meds: seq<Medicine>, index: map<string, nat>)
    requires forall key, j | key in prev && prev[key] < j < |init| :: NameKey(init[j]) != key
    requires meds == init + [m] && index == prev[NameKey(m) := |init|]
    ensures forall key, j | key in index && index[key] < j < |meds| :: NameKey(meds[j]) != key
  {
    forall key, j | key in index && index[key] < j < |meds| ensures NameKey(meds[j]) != key {
      if j < |init| {
        assert meds[j] == init[j];
      }
    }
  }

  /** Every index position is a valid catalogue position. */
  predicate IndexInRange(meds: seq<Medicine>, index: map<string, nat>) {
    forall key | key in index :: index[key] < |meds|
  }

  // ---------------------------------------------------------------- lookup

  /** `name.lower().strip()`: the lookup key of a query. */
  function QueryKey(name: string): string {
    Strip(Lower(name))
  }

  /** Record `i` is the first whose lower-cased name contains `q`. */
  predicate IsFirstContaining(meds: seq<Medicine>, q: string, i: int) {
    && 0 <= i < |meds|
    && Contains(NameKey(meds[i]), q)
    && forall j | 0 <= j < i :: !Contains(NameKey(meds[j]), q)
  }

  /** The fuzzy tier of `find_medicine`: the first position at or after
      `from` whose lower-cased name contains `q`. */
  function FirstContaining(meds: seq<Medicine>, q: string, from: nat): (r: Option<nat>)
    requires from <= |meds|
    requires forall j | 0 <= j < from :: !Contains(NameKey(meds[j]), q)
    ensures r.Some? ==> IsFirstContaining(meds, q, r.value)
    ensures r.None? <==> forall j | 0 <= j < |meds| :: !Contains(NameKey(meds[j]), q)
    decreases |meds| - from
  {
    if from == |meds| then None
    else if Contains(NameKey(meds[from]), q) then Some(from)
    else FirstContaining(meds, q, from + 1)
  }

  /** `find_medicine`: an exact hit in the index first; otherwise the first
      record whose lower-cased name contains the query key; otherwise none. */
  function FindMedicine(meds: seq<Medicine>, index: map<string, nat>, name: string): (r: Option<Medicine>)
    requires IndexInRange(meds, index)
    ensures QueryKey(name) in index ==> r == Some(meds[index[QueryKey(name)]])
    ensures QueryKey(name) !in index && r.Some?
            ==> exists i | IsFirstContaining(meds, QueryKey(name), i) :: r.value == meds[i]
    ensures QueryKey(name) !in index
            ==> (r.None? <==> forall j | 0 <= j < |meds| :: !Contains(NameKey(meds[j]), QueryKey(name)))
  {
    var q := QueryKey(name);
    if q in index then Some(meds[index[q]])
    else
      match FirstContaining(meds, q, 0)
      case None => None
      case Some(i) => Some(meds[i])
  }

  /** With the index built from the catalogue, lookup fails exactly when no
      lower-cased name contains the query key. */
  lemma FindNoneIff(meds: seq<Medicine>, name: string)
    ensures FindMedicine(meds, BuildIndex(meds), name).None?
        <==> forall j | 0 <= j < |meds| :: !Contains(NameKey(meds[j]), QueryKey(name))
  {
    var index := BuildIndex(meds);
    var q := QueryKey(name);
    if q in index {
      var i := index[q];
      assert NameKey(meds[i]) == q;
      assert OccursAt(NameKey(meds[i]), q, 0);
    }
  }

  /** Lookup ignores case and surrounding whitespace of the query. */
  lemma FindIgnoresCase(meds: seq<Medicine>, index: map<string, nat>, a: string, b: string)
    requires IndexInRange(meds, index)
    requires Strip(Lower(a)) == Strip(Lower(b))
    ensures FindMedicine(meds, index, a) == FindMedicine(meds, index, b)
  {
  }

  // ---------------------------------------------------------------- lifecycle

  /** The recommender's state. `vectors` is `feature_vectors`: `None` until a
      training run, then the number of rows of the fitted matrix. */
  datatype State = State(medicines: seq<Medicine>, index: map<string, nat>, vectors: Option<nat>)

  /** `MedicineRecommender.__init__` */
  const Init: State := State([], map[], None)

  /** The index is the one built from the catalogue, as every load leaves it. */
  predicate Valid(st: State) {
    st.index == BuildIndex(st.medicines)
  }

  /** The vectors, if any, were fitted on the current catalogue. */
  predicate Fresh(st: State) {
    st.vectors.None? || st.vectors.value == |st.medicines|
  }

  /** `load_database`. `loaded` is the `medicines` list of the JSON file, or
      `None` when the file is missing or not JSON; then nothing changes and
      the call answers False. A successful load replaces the catalogue and
      the index and leaves `feature_vectors` as it was. */
  function Load(st: State, loaded: Option<seq<Medicine>>): (r: (State, bool))
    ensures loaded.None? ==> r == (st, false)
    ensures loaded.Some? ==> r.1 && r.0.medicines == loaded.value && Valid(r.0)
    ensures r.0.vectors == st.vectors
  {
    match loaded
    case None => (st, false)
    case Some(meds) => (State(meds, BuildIndex(meds), st.vectors), true)
  }

  /** `build_vectorizer`: a term is kept when it occurs in at least
      `MinDf` documents and in at most `MaxDf` of them, as a fraction. */
  const MinDf: nat := 1
  const MaxDf: real := 0.95

  /** The vectoriser refuses a fit whose upper document-frequency bound,
      scaled to the number of documents, falls below the lower one. */
  predicate BoundsClash(documents: nat) {
    MaxDf * (documents as real) < MinDf as real
  }

  /** The bounds clash for a single document and for no larger count. */
  lemma BoundsClashIff(documents: nat)
    requires documents > 0
    ensures BoundsClash(documents) <==> documents == 1
  {
    if documents > 1 {
      assert (documents as real) >= 2.0;
    }
  }

  /** `train_model`: refuses an empty catalogue (False, nothing changes).
      Otherwise `fit_transform` runs, and it raises `ValueError` (`None`,
      nothing changes) when the document-frequency bounds clash or when
      `fits` is false. `fits` stands for the parts of the fit the model
      leaves to the library: a vocabulary that is empty, or that pruning
      leaves empty. A fit that succeeds gives one row per record, and the
      call answers True. */
  function Train(st: State, fits: bool): (r: Option<(State, bool)>)
    ensures |st.medicines| == 0 ==> r == Some((st, false))
    ensures r.None? <==> |st.medicines| == 1 || (|st.medicines| > 1 && !fits)
    ensures r.Some? && |st.medicines| > 0
            ==> r.value.1 && r.value.0 == st.(vectors := Some(|st.medicines|)) && Fresh(r.value.0)
  {
    if |st.medicines| == 0 then Some((st, false))
    else
      BoundsClashIff(|st.medicines|);
      if BoundsClash(|st.medicines|) || !fits then None
      else Some((st.(vectors := Some(|st.medicines|)), true))
  }

  /** The calls that change the recommender's state. A training call that
      raises leaves the state as it was; the model assumes the caller
      catches the error and carries on. */
  datatype Op = LoadOp(loaded: Option<seq<Medicine>>) | TrainOp(fits: bool)

  function Step(st: State, op: Op): State {
    match op
    case LoadOp(loaded) => Load(st, loaded).0
    case TrainOp(fits) =>
      match Train(st, fits)
      case None => st
      case Some(r) => r.0
  }

  function Run(st: State, ops: seq<Op>): State
    decreases |ops|
  {
    if |ops| == 0 then st else Step(Run(st, ops[..|ops| - 1]), ops[|ops| - 1])
  }

  /** From a fresh recommender, whatever calls are made the index stays the
      one built from the catalogue, and vectors exist only if some training
      call found a catalogue of two or more records. */
  lemma {:induction false} RunKeepsInvariants(ops: seq<Op>)
    ensures Valid(Run(Init, ops))
    ensures Run(Init, ops).vectors.Some?
            ==> exists k | 0 <= k < |ops| :: ops[k].TrainOp? && |Run(Init, ops[..k]).medicines| > 1
    decreases |ops|
  {
    if |ops| > 0 {
      var n := |ops| - 1;
      var init := ops[..n];
      RunKeepsInvariants(init);
      var before := Run(Init, init);
      assert Run(Init, ops) == Step(before, ops[n]);
      assert forall k | 0 <= k < n :: ops[..k] == init[..k];
      if Run(Init, ops).vectors.Some? && before.vectors.None? {
        assert ops[..n] == init;
        assert ops[n].TrainOp? && |before.medicines| > 1;
      }
    }
  }

  /** Reloading a catalogue of a different size after training leaves the
      old vectors in place: they no longer match the catalogue. */
  lemma ReloadLeavesStaleVectors(st: State, meds: seq<Medicine>)
    requires |st.medicines| > 1 && |meds| != |st.medicines|
    ensures Train(st, true).Some?
    ensures var trained := Train(st, true).value.0;
            var reloaded := Load(trained, Some(meds)).0;
            reloaded.vectors == Some(|st.medicines|) && !Fresh(reloaded)
  {
  }

  // ---------------------------------------------------------------- recommend

  /** One entry of the result: the catalogue position, the record and its
      similarity score. */
  datatype Recommendation = Recommendation(position: nat, medicine: Medicine, score: real)

  /** What `recommend_similar` does: return a list, or raise IndexError when
      stale vectors do not match the catalogue. */
  datatype Outcome = Ranked(items: seq<Recommendation>) | IndexError

  /** A record `find_medicine` returns has its lower-cased name in the
      index. */
  lemma FoundIsIndexed(st: State, name: string)
    requires Valid(st)
    requires FindMedicine(st.medicines, st.index, name).Some?
    ensures NameKey(FindMedicine(st.medicines, st.index, name).value) in st.index
  {
    var found := FindMedicine(st.medicines, st.index, name).value;
    var i :| 0 <= i < |st.medicines| && st.medicines[i] == found;
    assert NameKey(st.medicines[i]) in Keys(st.medicines, NameKey);
  }

  /** The position `recommend_similar` excludes for a query it can resolve:
      `medicine_index_map[input_medicine['name'].lower()]`, the last record
      bearing the found record's lower-cased name, which need not be the
      found record itself. */
  function QueryPosition(st: State, name: string): (p: nat)
    requires Valid(st)
    requires FindMedicine(st.medicines, st.index, name).Some?
    ensures p < |st.medicines|
    ensures NameKey(st.medicines[p]) == NameKey(FindMedicine(st.medicines, st.index, name).value)
  {
    FoundIsIndexed(st, name);
    st.index[NameKey(FindMedicine(st.medicines, st.index, name).value)]
  }

  /** The rows `recommend_similar` keeps for a resolved query. */
  function ResultRows(st: State, name: string, topN: int, excludeSelf: bool, order: seq<nat>): seq<nat>
    requires Valid(st)
    requires FindMedicine(st.medicines, st.index, name).Some?
  {
    Rank(order, if excludeSelf then Some(QueryPosition(st, name)) else None, topN)
  }

  /** The result tuples for the kept rows. */
  function Items(meds: seq<Medicine>, sims: seq<real>, rows: seq<nat>): (items: seq<Recommendation>)
    requires forall k | 0 <= k < |rows| :: rows[k] < |meds| && rows[k] < |sims|
    ensures Seq(items) == rows
    ensures Describes(meds, sims, items)
  {
    seq(|rows|, k requires 0 <= k < |rows| => Recommendation(rows[k], meds[rows[k]], sims[rows[k]]))
  }

  /** Every entry names a catalogue position that has a score, together with
      the record at that position and its score. */
  predicate Describes(meds: seq<Medicine>, sims: seq<real>, items: seq<Recommendation>) {
    forall k | 0 <= k < |items| ::
      && items[k].position < |meds|
      && items[k].position < |sims|
      && items[k].medicine == meds[items[k].position]
      && items[k].score == sims[items[k].position]
  }

  /** `recommend_similar` once the model is trained and the query resolved:
      look the found record's name up in the index, then rank. Vectors
      fitted on another catalogue can send either step past its end. */
  function RecommendFound(st: State, name: string, topN: int, excludeSelf: bool,
                          sims: seq<real>, order: seq<nat>): (r: Outcome)
    requires Valid(st) && st.vectors.Some?
    requires |sims| == st.vectors.value && IsDescendingOrder(sims, order)
    requires FindMedicine(st.medicines, st.index, name).Some?
    ensures r.Ranked? ==> Describes(st.medicines, sims, r.items)
                          && Seq(r.items) == ResultRows(st, name, topN, excludeSelf, order)
    ensures Fresh(st) ==> r.Ranked?
  {
    var inputIdx := QueryPosition(st, name);
    if inputIdx >= st.vectors.value then IndexError
    else
      var rows := ResultRows(st, name, topN, excludeSelf, order);
      RankRowsInRange(sims, order, if excludeSelf then Some(inputIdx) else None, topN);
      if !AllBelow(rows, |st.medicines|) then IndexError
      else
        var items := Items(st.medicines, sims, rows);
        assert Seq(items) == rows;
        Ranked(items)
  }

  /** `recommend_similar(name, top_n, exclude_self)`. `sims` are the cosine
      similarities of the query row against every trained row, and `order`
      is what `argsort(sims)[::-1]` returned; both exist only once trained.
      Untrained or not found: the empty list. Vectors that do not match the
      catalogue can raise IndexError; vectors fitted on it never do. */
  function RecommendSimilar(st: State, name: string, topN: int, excludeSelf: bool,
                            sims: seq<real>, order: seq<nat>): (r: Outcome)
    requires Valid(st)
    requires st.vectors.Some? ==> |sims| == st.vectors.value && IsDescendingOrder(sims, order)
    ensures st.vectors.None? ==> r == Ranked([])
    ensures FindMedicine(st.medicines, st.index, name).None? ==> r == Ranked([])
    ensures r.Ranked? ==> Describes(st.medicines, sims, r.items)
    ensures r.Ranked? && |r.items| > 0 ==>
              FindMedicine(st.medicines, st.index, name).Some?
              && Seq(r.items) == ResultRows(st, name, topN, excludeSelf, order)
    ensures Fresh(st) ==> r.Ranked?
  {
    if st.vectors.None? then Ranked([])
    else if FindMedicine(st.medicines, st.index, name).None? then Ranked([])
    else RecommendFound(st, name, topN, excludeSelf, sims, order)
  }

  predicate AllBelow(rows: seq<nat>, n: nat) {
    forall k | 0 <= k < |rows| :: rows[k] < n
  }

  /** The positions of a result list, in order. */
  function Seq(items: seq<Recommendation>): (rows: seq<nat>)
    ensures |rows| == |items|
    ensures forall k | 0 <= k < |items| :: rows[k] == items[k].position
  {
    seq(|items|, k requires 0 <= k < |items| => items[k].position)
  }

  /** A recommendation list names distinct records, best score first, and
      when excluding never names the query position. */
  lemma RecommendRanking(st: State, name: string, topN: int, excludeSelf: bool,
                         sims: seq<real>, order: seq<nat>)
    requires Valid(st)
    requires st.vectors.Some? ==> |sims| == st.vectors.value && IsDescendingOrder(sims, order)
    ensures var r := RecommendSimilar(st, name, topN, excludeSelf, sims, order);
            r.Ranked? ==>
              && (forall k, l | 0 <= k < l < |r.items| ::
                    r.items[k].position != r.items[l].position
                    && r.items[k].score >= r.items[l].score)
              && (excludeSelf && |r.items| > 0 ==>
                    forall k | 0 <= k < |r.items| :: r.items[k].position != QueryPosition(st, name))
  {
    var r := RecommendSimilar(st, name, topN, excludeSelf, sims, order);
    if r.Ranked? && |r.items| > 0 {
      var skip := if excludeSelf then Some(QueryPosition(st, name)) else None;
      RankProperties(sims, order, skip, topN);
      var rows := ResultRows(st, name, topN, excludeSelf, order);
      assert forall k | 0 <= k < |r.items| :: r.items[k].position == rows[k];
    }
  }

  /** The length of a recommendation list from vectors fitted on the current
      catalogue: `min(top_n, n - 1)` when excluding the query,
      `min(top_n, n)` otherwise, at most one when `top_n <= 0`. */
  lemma RecommendLength(st: State, name: string, topN: int, excludeSelf: bool,
                        sims: seq<real>, order: seq<nat>)
    requires Valid(st) && st.vectors == Some(|st.medicines|)
    requires |sims| == |st.medicines| && IsDescendingOrder(sims, order)
    requires FindMedicine(st.medicines, st.index, name).Some?
    ensures var r := RecommendSimilar(st, name, topN, excludeSelf, sims, order);
            && r.Ranked?
            && (topN >= 1 && excludeSelf ==> |r.items| == Min(topN, |st.medicines| - 1))
            && (topN >= 1 && !excludeSelf ==> |r.items| == Min(topN, |st.medicines|))
            && (topN <= 0 ==> |r.items| <= 1)
  {
    var skip := if excludeSelf then Some(QueryPosition(st, name)) else None;
    RankProperties(sims, order, skip, topN);
    var r := RecommendSimilar(st, name, topN, excludeSelf, sims, order);
    var rows := ResultRows(st, name, topN, excludeSelf, order);
    if |rows| > 0 {
      assert |Seq(r.items)| == |rows|;
    }
  }

  /** Two records whose names differ only in case. */
  const TwoCases: seq<Medicine> :=
    [Medicine("ab", [], [], None, None), Medicine("AB", [], [], None, None)]

  /** Both names of `TwoCases` lower-case to "ab". */
  lemma TwoCasesKeys()
    ensures NameKey(TwoCases[0]) == "ab" && NameKey(TwoCases[1]) == "ab"
  {
  }

  lemma TwoCasesIndex()
    ensures BuildIndex(TwoCases) == map["ab" := 1]
  {
    var meds := TwoCases;
    TwoCasesKeys();
    assert meds[..1] == [meds[0]];
    assert meds[..1][..0] == [];
  }

  lemma TwoCasesFind()
    ensures FindMedicine(TwoCases, map["ab" := 1], "a") == Some(TwoCases[0])
  {
    var meds := TwoCases;
    assert QueryKey("a") == "a";
    assert Contains(NameKey(meds[0]), "a") by {
      assert OccursAt(NameKey(meds[0]), "a", 0);
    }
    assert FirstContaining(meds, "a", 0) == Some(0);
  }

  lemma RankSkippingSecond()
    ensures Rank([0, 1], Some(1), 5) == [0]
  {
    var order: seq<nat> := [0, 1];
    assert order[..1] == [0];
    assert Filter(order, Kept(Some(1))) == [0];
  }

  /** With repeated names the excluded position need not be the found
      record's own: the query "a" finds record 0 by substring, but the name
      index sends "ab" to record 1, so record 1 is excluded and record 0 is
      recommended as similar to itself. */
  lemma ExcludedPositionMayDiffer()
    ensures var st := State(TwoCases, BuildIndex(TwoCases), Some(2));
            && FindMedicine(TwoCases, st.index, "a") == Some(TwoCases[0])
            && QueryPosition(st, "a") == 1
            && Rank([0, 1], Some(QueryPosition(st, "a")), 5) == [0]
  {
    var st := State(TwoCases, BuildIndex(TwoCases), Some(2));
    TwoCasesPosition(st);
    RankSkippingSecond();
  }

  /** The query "a" over `TwoCases` finds record 0 but resolves to
      position 1. */
  lemma TwoCasesPosition(st: State)
    requires st == State(TwoCases, BuildIndex(TwoCases), Some(2))
    ensures Valid(st)
    ensures FindMedicine(TwoCases, st.index, "a") == Some(TwoCases[0])
    ensures QueryPosition(st, "a") == 1
  {
    TwoCasesIndex();
    TwoCasesFind();
    TwoCasesKeys();
    PositionOfKey(st, "a", "ab");
  }

  /** A query resolves to the index position of the found record's key. */
  lemma PositionOfKey(st: State, name: string, key: string)
    requires Valid(st) && FindMedicine(st.medicines, st.index, name).Some?
    requires NameKey(FindMedicine(st.medicines, st.index, name).value) == key
    ensures key in st.index && QueryPosition(st, name) == st.index[key]
  {
    FoundIsIndexed(st, name);
  }

  // ---------------------------------------------------------------- explanation

  /** `set(a).intersection(set(b))`, or `None` where the details text omits
      the line because the intersection is empty. */
  /** `r` is what the details text shows for the lists `a` and `b`: nothing
      when they share no element, and otherwise the set of shared elements. */
  ghost predicate SharedBy(a: seq<string>, b: seq<string>, r: Option<set<string>>) {
    && (r.None? <==> forall k | 0 <= k < |a| :: a[k] !in b)
    && (r.Some? ==> forall x :: x in r.value <==> x in a && x in b)
  }

  function Shared(a: seq<string>, b: seq<string>): (r: Option<set<string>>)
    ensures SharedBy(a, b, r)
  {
    var s := (set x | x in a) * (set x | x in b);
    assert forall k | 0 <= k < |a| && a[k] in b :: a[k] in s;
    if s == {} then None else Some(s)
  }

  /** The "why similar" part of `get_recommendation_details` for one
      recommended record. */
  datatype Explanation = Explanation(sharedUses: Option<set<string>>, sharedComponents: Option<set<string>>)

  function Explain(original: Medicine, recs: seq<Recommendation>): (r: seq<Explanation>)
    ensures |r| == |recs|
    ensures forall k | 0 <= k < |r| ::
              && SharedBy(original.uses, recs[k].medicine.uses, r[k].sharedUses)
              && SharedBy(original.components, recs[k].medicine.components, r[k].sharedComponents)
  {
    seq(|recs|, k requires 0 <= k < |recs| =>
      Explanation(Shared(original.uses, recs[k].medicine.uses),
                  Shared(original.components, recs[k].medicine.components)))
  }
}
