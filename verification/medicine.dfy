/** The medicine record every part of the catalogue code passes around: a
    JSON object with a `name`, lists of `uses` and `components`, and optional
    `category` and `description` strings. Missing lists read as `[]`, as
    `prepare_features` and the enricher read them with `.get(field, [])`. A
    missing name reads as `""`, which is the enricher's `.get('name', '')`;
    the recommender indexes `med['name']` directly and raises instead. */
module Medicines {
  import opened Wrappers

  datatype Medicine = Medicine(
    name: string,
    uses: seq<string>,
    components: seq<string>,
    category: Option<string>,
    description: Option<string>)

  /** The category the code writes when nothing better is known. */
  const UNKNOWN: string := "Unknown"

  /** Python truthiness of an optional string field: present and non-empty. */
  predicate Present(field: Option<string>) {
    field.Some? && field.value != ""
  }

  /** A category the enrichment code treats as already known: truthy and not
      `"Unknown"`. */
  predicate KnownCategory(category: Option<string>) {
    Present(category) && category.value != UNKNOWN
  }
}
