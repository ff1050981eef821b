# Alternate medicine recommender: a Dafny model

This project models the decision logic of a medicine recommender and of the
tools that curate its catalogue. The catalogue is a list of medicine records.
Each record has a name, a list of therapeutic uses, a list of active
components, and optionally a category and a description.

- **Recommendation engine** (`MedicineRecommender`). This covers:
  - the feature text of a record;
  - the lower-cased name index, where the last occurrence of a name wins;
  - two-tier lookup: an exact key first, then the first name containing the
    query;
  - the loaded/trained lifecycle;
  - the ranking in `recommend_similar`;
  - the shared uses and components shown for each recommendation.

  The TF-IDF vectoriser and cosine similarity are not modelled. The scores
  are an input `sims`, one per trained row. The order that `argsort`
  returns is an input `order`, constrained only to list every row once with
  scores non-increasing.
- **Enrichment** (`DataEnricher`): term standardisation, category
  inference, merging records whose names agree, filling categories, the
  completeness counts, and the whole `enrich_medicines` pipeline.
- **Validation** (`DataValidator`): the structure and type checks,
  required-field and completeness scans, duplicate groups, and the quality
  score. The validator sees untyped JSON.
- **Manual curation** (`ManualCurator`): the duplicate check, validation of
  a hand-entered record, its append with a default category, and the
  category statistics.
- **FDA label parsing** (`FDAMedicineFetcher._parse_fda_response`): one
  raw drug label becomes one catalogue record, or nothing.
- **Collection** (`collect_medicines.fetch_from_api`): reading the fetch
  limit, and merging fetched records into the stored catalogue without
  adding a stored name again.

## Representation

- **Configuration tables are parameters.** `REQUIRED_FIELDS`,
  `CATEGORY_MAPPINGS` (as its ordered list of items), `TERM_STANDARDIZATION`
  and the fetch limits all come in as parameters.
- **Exceptions are `None`.** A Python exception that the code does not
  catch, and the fetcher's blanket `except Exception`, are the `None`
  outcome of an `Option`.
- **Records.** JSON values are the `Json` datatype, and a record is a
  `map<string, Json>`. The recommender and the enricher work on a typed
  `Medicine` record.
- **Python semantics are written out.** Python truthiness is `Truthy`.
  `str.lower`, `str.strip` and `str.title` are ASCII-only.

### Behaviour of the code worth noting

- **Empty catalogue.** Loading an empty catalogue is not an error
  (`Recommender.Load`). The empty case is refused by `train_model`
  instead (`Recommender.Train`).
- **A one-record catalogue cannot be trained.** With `min_df=1` and
  `max_df=0.95`, a single document leaves the upper bound below the lower
  one. The fit then raises `ValueError`, which `train_model` does not
  catch (`Recommender.Train`, `Recommender.BoundsClashIff`).
- **Recommending before training.** This returns the empty list; it does
  not raise an error (`Recommender.RecommendSimilar`).
- **Ties in the ranking.** These are not broken by catalogue position,
  because `np.argsort` is not a stable sort. The model promises only
  non-increasing scores (`Ranking.IsDescendingOrder`).
- **`top_n <= 0`.** This still yields one recommendation, because the
  bound is checked after appending (`Ranking.Rank`).
- **The excluded position** is looked up by the found record's lower-cased
  name. With repeated names it can differ from the found record itself
  (`Recommender.ExcludedPositionMayDiffer`).
- **Reloading keeps stale vectors.** Loading a new catalogue keeps vectors
  fitted on the old one. A later recommendation can then raise
  `IndexError`, and that is modelled (`Recommender.ReloadLeavesStaleVectors`,
  `Recommender.RecommendFound`).
- **`check_duplicate` strips the query but not the stored names.** A stored
  name with surrounding blanks is never matched
  (`Curator.PaddedNameNotCaught`).

## Model

| member | source | states |
|---|---|---|
| Recommender.FeatureTextEmptyIff | medicine_recommender.py:61-66 | the feature text is empty exactly when every use and every component is blank, so in particular when both lists are empty |
| Recommender.BuildIndex | medicine_recommender.py:37-40 | the index has one key per lower-cased name in the catalogue; each key maps to a position holding that name, and no later position holds it (last write wins) |
| Recommender.FirstContaining | medicine_recommender.py:118-122 | the fuzzy tier returns the first position whose lower-cased name contains the query key, and nothing exactly when no name contains it |
| Recommender.FindMedicine | medicine_recommender.py:100-122 | an exact index hit returns the indexed record; otherwise the first record whose lower-cased name contains the stripped lower-cased query; otherwise nothing exactly when no name contains it |
| Recommender.FindNoneIff | medicine_recommender.py:110-122 | with the index built from the catalogue, lookup fails exactly when no lower-cased name contains the query key |
| Recommender.FindIgnoresCase | medicine_recommender.py:110 | two queries that agree after lower-casing and stripping find the same record |
| Recommender.Load | medicine_recommender.py:29-49 | a failed read changes nothing and answers False; a successful one replaces the catalogue, rebuilds the index and never touches the vectors |
| Recommender.Train | medicine_recommender.py:67-98 | an empty catalogue is refused with nothing changed; a single record always makes the fit raise, because the document-frequency bounds clash; with two or more records the fit raises exactly when the library's fit fails, and otherwise one vector row per record is fitted and the call answers True |
| Recommender.BoundsClashIff | medicine_recommender.py:74-75 | with `min_df=1` and `max_df=0.95`, the bounds clash for one document and for no larger count |
| Recommender.RunKeepsInvariants | medicine_recommender.py:29-98 | over any sequence of loads and trainings from a fresh recommender, the index matches the catalogue, and vectors exist only if some training saw a catalogue of two or more records |
| Recommender.ReloadLeavesStaleVectors | medicine_recommender.py:29-40 | training and then loading a catalogue of another size leaves the old vectors in place, no longer matching the catalogue |
| Recommender.FoundIsIndexed | medicine_recommender.py:141-147 | a record that lookup returns has its lower-cased name in the index, so the index read cannot fail |
| Recommender.QueryPosition | medicine_recommender.py:146-147 | the excluded position is a catalogue position bearing the found record's lower-cased name |
| Recommender.Items | medicine_recommender.py:159-165 | the result tuples list exactly the kept rows in order, and each carries the record at its row and that row's score |
| Recommender.RecommendFound | medicine_recommender.py:146-170 | for a found query, the result lists exactly the ranked rows, each with its record and score; vectors fitted on the current catalogue never raise IndexError |
| Recommender.RecommendSimilar | medicine_recommender.py:124-170 | untrained or not found gives the empty list; a non-empty result names catalogue records with their own scores in ranking order; fresh vectors never raise |
| Recommender.RecommendRanking | medicine_recommender.py:153-170 | the recommended positions are distinct, scores never increase along the list, and with exclusion the query position never appears |
| Recommender.RecommendLength | medicine_recommender.py:158-168 | with fresh vectors the list has min(top_n, n-1) entries when excluding, min(top_n, n) otherwise, and at most one when top_n <= 0 |
| Recommender.ExcludedPositionMayDiffer | medicine_recommender.py:141-147 | with the names "ab" and "AB", the query "a" finds record 0, record 1 is excluded, and record 0 is recommended as similar to itself |
| Recommender.Shared | medicine_recommender.py:204-215 | the shared items are exactly those in both lists, and none are shown exactly when no item of the first list is in the second |
| Recommender.Explain | medicine_recommender.py:197-215 | for each recommendation, the shown uses are exactly those in both its and the original's uses, and none are shown exactly when they share none; likewise for components |
| Ranking.SortRows | medicine_recommender.py:156 | insertion sort lists every row once, by non-increasing score |
| Ranking.SortDescending | medicine_recommender.py:156 | some arrangement that argsort may return always exists, so the ranking's precondition can be met |
| Ranking.PickTakesWindow | medicine_recommender.py:160-168 | the result loop collects the first max(1, top_n) rows of the order other than the skipped one |
| Ranking.Rank | medicine_recommender.py:160-168 | the rows returned are that window of the order with the skipped row removed; the skipped row is never returned; top_n <= 0 yields at most one row |
| Ranking.RankRowsInRange | medicine_recommender.py:160-165 | over a genuine arrangement every returned row has a score |
| Ranking.RankProperties | medicine_recommender.py:153-168 | returned rows are distinct with non-increasing scores, and the length is min(top_n, n-1) when a valid row is skipped and min(top_n, n) otherwise |
| Categories.FirstHit | data_enricher.py:128-130 | the first table entry at or after a position whose lower-cased term occurs in the text, and none exactly when no entry hits |
| Categories.Suggest | manual_curator.py:59-75 | suggest_category gives the category of the first entry whose term occurs in the joined lower-cased uses, and None exactly when no entry hits |
| Categories.Infer | data_enricher.py:116-132 | _infer_category (identical in fda_api_fetcher.py at 233-252) gives the first hitting entry's category, or "Unknown" when none hits |
| Enricher.StandardTerms | data_enricher.py:62-69 | a use whose stripped lower-cased form is a key of the table becomes the table's term for that key; any other use is kept verbatim; the order and count are kept |
| Enricher.Rewritten | data_enricher.py:62-69 | the count of rewritten uses never exceeds the number of uses |
| Enricher.RewrittenZeroIff | data_enricher.py:62-69 | nothing is rewritten exactly when no use's key is in the table |
| Enricher.StandardizeRecordSpec | data_enricher.py:71-80 | only the uses change; they do not grow, their lower-cased forms are pairwise distinct and the same as those of the standardised uses, and each is a standardised use |
| Enricher.ReplacementsSpec | data_enricher.py:56-85 | the returned count is at most the total number of uses, and is zero exactly when no use of any record is a table key |
| Enricher.StandardizeUses | data_enricher.py:49-85 | every record is standardised in place and the count is the number of rewritten uses over the catalogue |
| Enricher.RewriteUses | data_enricher.py:60-69 | the first inner loop computes the standardised list and its rewrite count |
| Enricher.DropRepeats | data_enricher.py:71-78 | the second inner loop keeps the first use of each lower-cased form, in order |
| Enricher.StandardizeUsesLoop | data_enricher.py:56-85 | the nested loops as written compute the standardised catalogue and its count |
| Enricher.AddMissingCategories | data_enricher.py:87-114 | a record changes exactly when it lacks a known category, has uses, and infers a known one; only its category changes, to the inferred one; the count is the number of records changed |
| Enricher.AddMissingCategoriesIdempotent | data_enricher.py:96-109 | a second run changes nothing and counts zero |
| Enricher.FillMissingFields | data_enricher.py:182-210 | a record with a truthy category is untouched; one without gets the inferred category; the count is the number of such records and descriptions count zero |
| Enricher.FillMissingFieldsIdempotent | data_enricher.py:194-200 | with non-empty table categories, a second run changes nothing and counts zero |
| Enricher.ValidateCompleteness | data_enricher.py:212-249 | complete counts the records with a name and uses or components, and complete <= total; missing both is at most missing uses and at most missing components |
| Enricher.EnrichSpec | data_enricher.py:251-289 | after the pipeline no two records share a merge key, every record has a category, the merge count is how much shorter the catalogue got, and the completeness total is its final size |
| Enricher.FillKeepsKeysApart | data_enricher.py:194-200 | filling categories keeps the names, so merge keys stay pairwise distinct |
| MergeDuplicates.Union | data_enricher.py:153-160 | the union list holds each element of either list exactly once |
| MergeDuplicates.Absorb | data_enricher.py:150-169 | absorbing a duplicate keeps the name and unions uses and components |
| MergeDuplicates.FoldUses | data_enricher.py:152-155 | a kept record's uses, as a set, are the union of its group's uses |
| MergeDuplicates.FoldComponents | data_enricher.py:157-160 | a kept record's components, as a set, are the union of its group's components |
| MergeDuplicates.FoldCategory | data_enricher.py:162-165 | the category is the first known one in the group, and the first record's own when none is known |
| MergeDuplicates.FoldDescription | data_enricher.py:167-169 | the description is the first present one in the group, and the first record's own when none is present |
| MergeDuplicates.Merge | data_enricher.py:141-180 | kept records plus merged count equal the input length, and kept records have pairwise distinct keys |
| MergeDuplicates.MergeByGroups | data_enricher.py:145-174 | the loop keeps the first record of each stripped lower-cased name, folded with its later duplicates, and counts the others |
| MergeDuplicates.MergeSpec | data_enricher.py:134-180 | each kept record has the first name of its key and holds its group's unions, first known category and first description; the count is the length lost |
| MergeDuplicates.MergeSnoc | data_enricher.py:145-174 | one more record whose key was seen raises the merged count by one; a record with a new key is kept at the end and the count stays |
| MergeDuplicates.NothingMergedNothingChanged | data_enricher.py:176-180 | when nothing is merged the catalogue is unchanged |
| StructureCheck.RecordErrors | data_validator.py:53-74 | a record's messages all name it, and there are none exactly when it is well formed |
| StructureCheck.RecordErrorsSpec | data_validator.py:53-74 | a non-object draws exactly one message; an object draws one per absent required field in table order, then one per mistyped name, uses, components or category |
| StructureCheck.ValidateStructure | data_validator.py:40-77 | a non-list root gives one message and False; otherwise True exactly when there are no messages, exactly when every record is well formed |
| StructureCheck.AllErrorsOfRecord | data_validator.py:53-74 | the messages naming record i in the whole list are exactly record i's own, in order |
| StructureCheck.NonStrings | data_validator.py:159-161 | the positions listed are exactly those of the non-string elements, ascending |
| StructureCheck.ListFieldErrors | data_validator.py:155-170 | a non-list field draws one message; a list draws one per non-string element |
| StructureCheck.RecordTypeErrors | data_validator.py:149-180 | a record's type messages all name it, and there are none exactly when its types are acceptable |
| StructureCheck.ValidateDataTypes | data_validator.py:140-182 | messages come in record order, and there are none exactly when every record's types are acceptable |
| StructureCheck.UseElementErrors | data_validator.py:155-161 | list-typed uses draw one message per non-string element, naming its position |
| StructureCheck.NullCategoryDisagreement | data_validator.py:73-74 | a null category is reported by the structure check (and accepted by the type check at lines 172-175) |
| FieldChecks.ListedEmptyIff | data_validator.py:93-106 | a field's index list is empty exactly when no record has it noted, or it is not required |
| FieldChecks.ScanRecordAdds | data_validator.py:96-106 | scanning one record appends its index to a noted field once per occurrence of the field in the table, and to no other |
| FieldChecks.CollectIsListed | data_validator.py:93-106 | the fold over the catalogue gives every field the list it should have |
| FieldChecks.CheckRequiredFields | data_validator.py:79-111 | the total, the complete count, and per field the missing and the empty lists; only fields with some index appear |
| FieldChecks.RequiredFieldsSpec | data_validator.py:93-106 | an index is listed as missing exactly when the field is required and absent, and as empty exactly when it is required, present and falsy; lists ascend |
| FieldChecks.CompleteIffUnlisted | data_validator.py:94-109 | a record counts as complete exactly when its index is in no list |
| FieldChecks.EmptyEntries | data_validator.py:210-215 | one entry per record with neither uses nor components, ascending, with its name or "Unknown" |
| FieldChecks.EmptyEntriesComplete | data_validator.py:210-215 | every record with neither uses nor components has an entry carrying its index and its name or "Unknown" |
| FieldChecks.CheckCompleteness | data_validator.py:184-217 | has_uses + has_components + has_neither = total + has_both, and there are as many empty entries as has_neither |
| FieldChecks.InclusionExclusion | data_validator.py:200-211 | the four counters satisfy inclusion and exclusion over the catalogue |
| DuplicateCheck.BuildNameMap | data_validator.py:120-128 | every non-empty name gets its indices; a new name goes to the end of the insertion order |
| DuplicateCheck.NameMapEntries | data_validator.py:123-128 | each name's entry lists exactly the positions carrying it, and the empty name is never entered |
| DuplicateCheck.NameMapFirsts | data_validator.py:126-128 | the insertion order is the order of first occurrence |
| DuplicateCheck.GroupsOrdered | data_validator.py:130-136 | groups come in insertion order |
| DuplicateCheck.GroupsComplete | data_validator.py:130-136 | every name in the order held by two or more records has a group |
| DuplicateCheck.DetectDuplicates | data_validator.py:113-138 | nothing exactly when some present name is not a string, so that lower() raises |
| DuplicateCheck.DetectDuplicatesSpec | data_validator.py:113-138 | each group has a non-empty name and count = number of indices >= 2; it lists exactly the records carrying that name, ascending; groups are in first-occurrence order; every shared name has a group |
| QualityReport.QualityScore | data_validator.py:263-268 | the score lies in [0, 100]; it is 0 for an empty catalogue, 100 exactly when there is no issue, and 0 from five issues per record |
| QualityReport.ScoreMonotone | data_validator.py:263-268 | more issues never raise the score |
| QualityReport.MissingTotalZero | data_validator.py:255-257 | the summed missing-field lists are zero exactly when every record holds every required field |
| QualityReport.GenerateQualityReport | data_validator.py:219-270 | nothing exactly when duplicate detection raises; otherwise the total is the catalogue size, the score lies in [0, 100], and it is 100 exactly when the catalogue is non-empty and no issue is counted |
| QualityReport.ReportOf | data_validator.py:219-270 | the report over the JSON `medicines` value: for a list of objects it is the report above, and a list holding any non-object raises; a non-list gives the single root message, and is reported only when it is an empty object or string, then with one issue, zero records and score 0 |
| QualityReport.NoDuplicatesIff | data_validator.py:113-138 | no group is reported exactly when no two records share a non-empty name |
| QualityReport.NeitherZeroIff | data_validator.py:210-211 | has_neither is zero exactly when every record has uses or components |
| QualityReport.StructureCleanIff | data_validator.py:53-77 | the structure check finds nothing exactly when every record is well formed |
| QualityReport.TypesCleanIff | data_validator.py:140-182 | the type check finds nothing exactly when every record's types are acceptable |
| QualityReport.NoIssuesIffClean | data_validator.py:237-261 | the report counts no issue exactly when the catalogue is clean (well formed, complete, no shared names, good types, uses or components everywhere) |
| QualityReport.PerfectScoreIffClean | data_validator.py:254-268 | the score is 100 exactly when the catalogue is non-empty and clean |
| QualityReport.FixCommonIssues | data_validator.py:331-347 | every fix counter is zero and every record is unchanged |
| Curator.DuplicateFrom | manual_curator.py:54-57 | true at a record whose lower-cased name equals the key when every earlier name is readable; false when every name is readable and none matches |
| Curator.CheckDuplicate | manual_curator.py:43-57 | the stripped lower-cased query is compared with each lower-cased (unstripped) stored name; a non-string stored name before any match raises |
| Curator.DuplicateFromAppend | manual_curator.py:54-57 | after a scan that found nothing, appending a record scans just that record |
| Curator.FieldProblem | manual_curator.py:88-93 | the first required field that is missing or falsy, and none exactly when all are filled |
| Curator.ValidateMedicineData | manual_curator.py:77-109 | accepted exactly when required fields are filled, the name is a string, uses and components are lists and not both empty; each rejection is reported exactly when every earlier check passed and its own fails (name, then uses, then components, then emptiness); KeyError exactly when an unrequired field the next check reads is absent |
| Curator.FirstFieldReported | manual_curator.py:88-93 | a rejection for a required field names the first unfilled one |
| Curator.SuggestFor | manual_curator.py:243-244 | the suggestion for a record's uses, or the raise when a use is not a string |
| Curator.AddMedicineFromDict | manual_curator.py:223-251 | on refusal the list is unchanged; on success exactly one acceptable record is appended, the prefix is unchanged, and its category is its own truthy one, else the suggestion, else "Unknown" |
| Curator.DuplicateRefusedFirst | manual_curator.py:233-235 | a stored name is refused with the duplicate message before validation, and nothing changes |
| Curator.AddSucceedsIff | manual_curator.py:233-251 | a record is appended exactly when its name is new, it passes validation and its category can be settled |
| Curator.AddedNameIsDuplicate | manual_curator.py:43-57 | after adding a record whose name has no surrounding blanks, the duplicate check finds it |
| Curator.PaddedNameNotCaught | manual_curator.py:53-55 | a stored " Aspirin" is not a duplicate of the query " Aspirin" |
| Curator.Bump | manual_curator.py:290-291 | one more record raises the tally's sum by one |
| Curator.GetStatistics | manual_curator.py:277-299 | nothing exactly when a category is unhashable or a list has no length; otherwise the category counts sum to the number of records and the totals are the summed lengths |
| Curator.BumpCounts | manual_curator.py:290-291 | after one more record, a category is a key exactly when it was one or is the record's |
| Curator.CategoryCounts | manual_curator.py:289-291 | category keys are distinct under Python key equality, each counts exactly its records (an absent category counted as "Unknown"), and every record's category is a key |
| Fetcher.LabelName | fda_api_fetcher.py:169-180 | the name is the first brand name when that list is truthy, else the first generic name; no name, an empty one or a non-string one drops the label |
| Fetcher.Cleaned | fda_api_fetcher.py:190-193 | the kept pieces are exactly the stripped lower-cased pieces longer than three characters |
| Fetcher.FragmentsShaped | fda_api_fetcher.py:189-193 | each fragment is longer than three characters, with no upper-case letter and none of ".", ";" or "," |
| Fetcher.AllFragmentsMember | fda_api_fetcher.py:187-193 | a use is parsed exactly when it is a fragment of some indication |
| Fetcher.ParsedUses | fda_api_fetcher.py:183-193 | a falsy list gives no use; otherwise the fragments of each indication in turn, each shaped like a use; a truthy value that is not a list of strings raises |
| Fetcher.CleanAll | fda_api_fetcher.py:199 | one result per ingredient, in order; each is a slice of the lower-cased ingredient with only whitespace cut off either side, has no upper-case letter and neither starts nor ends with whitespace |
| Text.CleanedUnique | fda_api_fetcher.py:199 | the description of a cleaned ingredient is complete: the only string meeting it is `x.lower().strip()` |
| Fetcher.ParsedComponents | fda_api_fetcher.py:195-205 | the active ingredients, and the substance names only when those come out empty; a non-string active ingredient raises, with no fallback |
| Fetcher.Cut | fda_api_fetcher.py:220 | a string or a list is cut to a prefix of at most 200, which is the whole of a shorter one; slicing anything else raises |
| Fetcher.ParsedDescription | fda_api_fetcher.py:210-220 | "" when the list is falsy or its first item is; the first item cut to 200 when it is truthy; indexing a truthy value without a first item raises |
| Fetcher.KeptUses | fda_api_fetcher.py:217 | each distinct use at most once, at most ten, all drawn from the parsed uses, and all of them when there are at most ten |
| Fetcher.ReadLabel | fda_api_fetcher.py:167-212 | a label is read exactly when every read succeeds, and its parts are the name, uses, components and description read |
| Fetcher.ParseFdaResponse | fda_api_fetcher.py:157-231 | a record exactly when the label reads and has uses or components; then it is the assembled record |
| Fetcher.KeptUsesListed | fda_api_fetcher.py:217 | the uses list is distinct, at most ten long, non-empty when there were uses, each a parsed use |
| Fetcher.ComponentsListed | fda_api_fetcher.py:218 | the components list holds each parsed component exactly once |
| Fetcher.BuildSpec | fda_api_fetcher.py:207-221 | the built record has the five fields: the title-cased name, the kept uses, the distinct components, the category inferred from all uses, and the description |
| Fetcher.ParsedLabel | fda_api_fetcher.py:183-220 | parsed uses are shaped like uses and a string description is at most 200 long |
| Fetcher.DroppedWithoutName | fda_api_fetcher.py:173-180 | a label with neither a truthy brand list nor a truthy generic list gives nothing |
| Fetcher.BrandNameFirst | fda_api_fetcher.py:174-175 | a leading non-empty brand name names the label |
| Fetcher.GenericNameSecond | fda_api_fetcher.py:176-177 | without brand names, a leading non-empty generic name names the label |
| Collector.ParseInt | collect_medicines.py:49 | text parses exactly when it is ASCII digits with an optional leading `+` or `-`; digits read as their decimal value, `+` keeps it and `-` negates it |
| Collector.ParseShowInt | collect_medicines.py:49 | int() reads back every number written in decimal |
| Collector.ReadLimit | collect_medicines.py:46-56 | an accepted limit lies in the range; empty input means the default; NotANumber exactly when non-empty input does not parse; a parsed number is accepted when in range and is otherwise OutOfRange |
| Collector.TypedLimitAccepted | collect_medicines.py:48-52 | a typed number is accepted exactly when it lies in [min, max] |
| Collector.MergeFetched | collect_medicines.py:69-95 | nothing fetched saves nothing; a non-string name raises; otherwise the stored list is an unchanged prefix followed by the fetched records with new names, in fetched order, and added + skipped = fetched |
| Collector.MergeAddsOnlyNew | collect_medicines.py:82-86 | no appended record shares a lower-cased name with a stored one, and every fetched record with a new name is appended |
| Collector.BatchDuplicatesKept | collect_medicines.py:83-86 | two fetched records with the same new name are both appended |
| Collector.NothingNewAfterMerge | collect_medicines.py:82-86 | after a merge no fetched record is new to the merged catalogue |
| Collector.MergeTwiceAddsNothing | collect_medicines.py:82-95 | merging the same batch again adds nothing and skips everything |

## Left out

- File reads and writes (`_load_database`, `_save_database`, `load_database`'s JSON read, `create_backup`): loaded data is a parameter, and saving changes nothing in the model.
- Network fetching (`_make_request`, `fetch_medicine_by_name`, `fetch_medicines_by_category`, `fetch_popular_medicines`, `batch_fetch`, `transform_to_our_format`): HTTP, sleeps and rate limiting. The fetched records are a parameter.
- The TF-IDF vectoriser and cosine similarity (`build_vectorizer`, the fit in `train_model`, the similarity in `recommend_similar`). These are library floating-point code. The scores are a parameter, and the fitted matrix is represented only by its row count.
- Recommender.Load: a record is read as a typed `Medicine`. The code reads `med['name'].lower()` at medicine_recommender.py:38, 120 and 147, so a record without a name raises `KeyError` and a non-string name raises `AttributeError`; `load_database` catches neither, after it has already replaced the catalogue. Non-string uses or components make `' '.join` raise `TypeError` at line 65. These records are outside the typed model, which reads a missing name as `""`.
- QualityReport.QualityScore: the score is an exact real. The floating-point rounding of the division at data_validator.py:266 is not modelled.
- Recommender.Train: the clash of the document-frequency bounds is modelled. Whether the library's fit otherwise succeeds is the parameter `fits`. An empty vocabulary (no token of two or more characters) and a vocabulary that `max_df` prunes to nothing both raise `ValueError` in the library. Tokenising and pruning are not modelled, so the model cannot tell when `fits` is false.
- Recommender.Run: a training call that raises leaves the state as it was, as if the caller caught the error. An uncaught error would end the program.
- Interactive and printing code (`add_medicine_interactive`, `preview_and_save`, `print_quality_report`, the collection menu, `view_statistics`, `main.py`, and the layout text of `get_recommendation_details`). It only prompts and prints. The order in which the details text joins sets is not deterministic.
- The prompt loop of the fetch limit: `Collector.ReadLimit` is one pass of it, so re-asking is the `OutOfRange` and `NotANumber` replies.
- The average uses and components per medicine in `get_statistics`, which are floating point.
- Unicode case mapping: `lower`, `strip` and `title` treat only ASCII letters and ASCII whitespace.
- Floating-point JSON numbers: JSON numbers are integers in the model.
- Python `dict` key equality is modelled for strings, `null`, integers and booleans (`True` is `1`, `False` is `0`). Other hashable keys do not occur in JSON.
- Collector.ParseInt: `int()` also accepts underscores between digits, surrounding Unicode whitespace, and Unicode decimal digits such as Arabic-Indic ones. The model accepts only an optional sign followed by ASCII digits, and rejects all of these.
- Fetcher.KeptUses: `list(set(uses))[:10]` keeps ten uses in hash order, which is unspecified. The model keeps first occurrences, and its contract promises only distinctness, the bound and provenance, not which ten.
- MergeDuplicates.Union: `list(set(a) | set(b))` has hash order; the contract states set contents only, not order.
- Fetcher.ParseFdaResponse: `list(set(components))` lists the components in hash order, which is unspecified. The model keeps them in first-occurrence order, so `Build` fixes an order the code does not. `Fetcher.ComponentsListed` promises only that each parsed component appears exactly once.
- Fetcher.ParseFdaResponse: iterating over a JSON object (a dict given where a list is expected) yields its keys in Python. The model treats that as a failure, because object key order is not part of the JSON value.
- Recommender.Explain: the shared sets are stated as sets. The joined text that displays them is not modelled.
