/** Category inference from uses, written three times in the source
    (`DataEnricher._infer_category`, `ManualCurator.suggest_category`,
    `FDAMedicineFetcher._infer_category`): the uses are joined with spaces and
    lower-cased, and the first entry of the CATEGORY_MAPPINGS table, in table
    order, whose lower-cased term occurs in that text gives the category. The
    table is a parameter; it is not part of this model. */
module Categories {
  import opened Wrappers
  import opened Text
  import opened Medicines

  /** CATEGORY_MAPPINGS as its ordered list of (use term, category) items. */
  type Mappings = seq<(string, string)>

  /** `" ".join(uses).lower()` */
  function UseText(uses: seq<string>): string {
    Lower(Join(uses, " "))
  }

  /** Entry `i`'s lower-cased term occurs in `text`. */
  predicate Hits(mappings: Mappings, text: string, i: int)
    requires 0 <= i < |mappings|
  {
    Contains(text, Lower(mappings[i].0))
  }

  /** Entry `i` is the first entry that hits. */
  predicate IsFirstHit(mappings: Mappings, text: string, i: int) {
    && 0 <= i < |mappings|
    && Hits(mappings, text, i)
    && forall j | 0 <= j < i :: !Hits(mappings, text, j)
  }

  /** The position of the first entry at or after `from` that hits `text`. */
  function FirstHit(mappings: Mappings, text: string, from: nat): (r: Option<nat>)
    requires from <= |mappings|
    requires forall j | 0 <= j < from :: !Hits(mappings, text, j)
    ensures r.Some? ==> IsFirstHit(mappings, text, r.value)
    ensures r.None? <==> forall j | 0 <= j < |mappings| :: !Hits(mappings, text, j)
    decreases |mappings| - from
  {
    if from == |mappings| then None
    else if Hits(mappings, text, from) then Some(from)
    else FirstHit(mappings, text, from + 1)
  }

  /** `suggest_category(uses)`: the category of the first hitting entry, or
      `None` when no entry hits. */
  function Suggest(mappings: Mappings, uses: seq<string>): (r: Option<string>)
    ensures r.None? <==> forall j | 0 <= j < |mappings| :: !Hits(mappings, UseText(uses), j)
    ensures r.Some? ==> exists i | IsFirstHit(mappings, UseText(uses), i) :: r.value == mappings[i].1
  {
    match FirstHit(mappings, UseText(uses), 0)
    case None => None
    case Some(i) => Some(mappings[i].1)
  }

  /** `_infer_category(uses)` of the enricher and of the FDA fetcher: the
      suggested category, or `"Unknown"` when no entry hits. */
  function Infer(mappings: Mappings, uses: seq<string>): (r: string)
    ensures (forall j | 0 <= j < |mappings| :: !Hits(mappings, UseText(uses), j)) ==> r == UNKNOWN
    ensures (exists i | 0 <= i < |mappings| :: Hits(mappings, UseText(uses), i))
            ==> exists i | IsFirstHit(mappings, UseText(uses), i) :: r == mappings[i].1
  {
    Suggest(mappings, uses).GetOr(UNKNOWN)
  }
}
