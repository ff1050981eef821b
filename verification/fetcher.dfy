/** `FDAMedicineFetcher._parse_fda_response`: one raw OpenFDA drug-label
    record turned into a catalogue record. The HTTP requests, the rate
    limiting and the batch loops around it are not modelled; the raw record
    is a parameter. Every exception the parse raises is caught and reported
    as "no record", so every failure here is `None`. */
module Fetcher {
  import opened Wrappers
  import opened Text
  import opened Seqs
  import opened JsonValues
  import opened Medicines
  import opened Categories

  /** At most this many uses are kept. */
  const MaxUses: nat := 10

  /** Descriptions are cut to this many characters. */
  const MaxDescription: nat := 200

  // ------------------------------------------------------------ Python access

  /** `obj.get(key, default)`; `None` when `obj` is not a dict. */
  function Lookup(obj: Json, key: string, default: Json): Option<Json> {
    if obj.JObject? then Some(Get(obj.fields, key, default)) else None
  }

  /** `v[0]`; a list gives its first item and a string its first character.
      Indexing anything else, or an empty value, raises. */
  function First(v: Json): Option<Json> {
    match v
    case JArray(items) => if |items| > 0 then Some(items[0]) else None
    case JString(s) => if |s| > 0 then Some(JString([s[0]])) else None
    case _ => None
  }

  /** The one-character strings a loop over a string walks. */
  function Chars(s: string): seq<Json> {
    seq(|s|, i requires 0 <= i < |s| => JString([s[i]]))
  }

  /** `for x in v` over a list or a string. */
  function Items(v: Json): Option<seq<Json>> {
    match v
    case JArray(items) => Some(items)
    case JString(s) => Some(Chars(s))
    case _ => None
  }

  /** The strings a loop over `v` reads, each of which must be a string for
      the string methods called on it. */
  function StringItems(v: Json): Option<seq<string>> {
    match Items(v)
    case None => None
    case Some(items) => Strings(items)
  }

  // ------------------------------------------------------------ name

  /** The name: the first brand name when the brand list is truthy, else the
      first generic name when that list is truthy; `None` when there is
      neither, when it is falsy, or when it is not a string. */
  function LabelName(openfda: Json): (r: Option<string>)
    ensures r.Some? ==> r.value != "" && openfda.JObject?
    ensures r.Some? && Truthy(Get(openfda.fields, "brand_name", JArray([]))) ==>
              First(Get(openfda.fields, "brand_name", JArray([]))) == Some(JString(r.value))
    ensures r.Some? && !Truthy(Get(openfda.fields, "brand_name", JArray([]))) ==>
              First(Get(openfda.fields, "generic_name", JArray([]))) == Some(JString(r.value))
  {
    match Lookup(openfda, "brand_name", JArray([]))
    case None => None
    case Some(brand) =>
      var generic := Get(openfda.fields, "generic_name", JArray([]));
      var name := if Truthy(brand) then First(brand) else if Truthy(generic) then First(generic) else Some(JNull);
      match name
      case Some(JString(s)) => if s == "" then None else Some(s)
      case _ => None
  }

  // ------------------------------------------------------------ uses

  /** `indication.replace(".", ",").replace(";", ",").split(",")` */
  function Pieces(s: string): seq<string> {
    Split(ReplaceChar(ReplaceChar(s, '.', ','), ';', ','), ',')
  }

  /** Each piece cleaned as `part.strip().lower()`, kept when longer than
      three characters. */
  function Cleaned(parts: seq<string>): (r: seq<string>)
    ensures forall k | 0 <= k < |r| :: |r[k]| > 3
    ensures forall k | 0 <= k < |r| :: exists j | 0 <= j < |parts| :: r[k] == Lower(Strip(parts[j]))
    ensures forall j | 0 <= j < |parts| :: |Lower(Strip(parts[j]))| > 3 ==> Lower(Strip(parts[j])) in r
  {
    if |parts| == 0 then []
    else
      var n := |parts| - 1;
      var init := Cleaned(parts[..n]);
      var u := Lower(Strip(parts[n]));
      assert forall j | 0 <= j < n :: parts[..n][j] == parts[j];
      init + (if |u| > 3 then [u] else [])
  }

  /** The uses read from one indication text. */
  function Fragments(s: string): seq<string> {
    Cleaned(Pieces(s))
  }

  /** What a parsed use looks like: longer than three characters, no
      upper-case letter and none of the delimiters `.`, `;` and `,`. */
  predicate UseShaped(u: string) {
    && |u| > 3
    && forall i | 0 <= i < |u| :: !IsUpper(u[i]) && u[i] != '.' && u[i] != ';' && u[i] != ','
  }

  /** A character of a joined list is a character of the separator or of
      one of the parts. */
  lemma {:induction false} JoinChars(xs: seq<string>, sep: string, k: nat, i: nat)
    requires k < |xs| && i < |xs[k]|
    ensures xs[k][i] in Join(xs, sep)
    decreases |xs|
  {
    if k == 0 {
      if |xs| > 1 {
        assert Join(xs, sep) == xs[0] + sep + Join(xs[1..], sep);
        assert Join(xs, sep)[i] == xs[0][i];
      }
    } else {
      JoinChars(xs[1..], sep, k - 1, i);
      assert Join(xs, sep) == xs[0] + sep + Join(xs[1..], sep);
      var j :| 0 <= j < |Join(xs[1..], sep)| && Join(xs[1..], sep)[j] == xs[k][i];
      assert Join(xs, sep)[|xs[0]| + |sep| + j] == xs[k][i];
    }
  }

  /** `strip()` keeps only characters of its input. */
  lemma StripChars(s: string, i: nat)
    requires i < |Strip(s)|
    ensures Strip(s)[i] in s
  {
    StripSpec(s);
    var a, b :| 0 <= a <= b <= |s| && Strip(s) == s[a..b] && AllSpace(s[..a]) && AllSpace(s[b..]);
    assert Strip(s)[i] == s[a + i];
  }

  /** Every use read from an indication has the shape of a use. */
  lemma FragmentsShaped(s: string)
    ensures forall k | 0 <= k < |Fragments(s)| :: UseShaped(Fragments(s)[k])
  {
    var parts := Pieces(s);
    forall k | 0 <= k < |Fragments(s)| ensures UseShaped(Fragments(s)[k]) {
      var j :| 0 <= j < |parts| && Fragments(s)[k] == Lower(Strip(parts[j]));
      PieceShaped(s, j);
    }
  }

  /** A cleaned piece of an indication holds no upper-case letter and no
      delimiter. */
  lemma PieceShaped(s: string, j: nat)
    requires j < |Pieces(s)|
    ensures var u := Lower(Strip(Pieces(s)[j]));
            forall i | 0 <= i < |u| :: !IsUpper(u[i]) && u[i] != '.' && u[i] != ';' && u[i] != ','
  {
    var t := ReplaceChar(ReplaceChar(s, '.', ','), ';', ',');
    var parts := Pieces(s);
    var p := parts[j];
    var u := Lower(Strip(p));
    forall i | 0 <= i < |u| ensures !IsUpper(u[i]) && u[i] != '.' && u[i] != ';' && u[i] != ',' {
      StripChars(p, i);
      var c := Strip(p)[i];
      var x :| 0 <= x < |p| && p[x] == c;
      JoinChars(parts, [','], j, x);
      assert c in t;
      assert c != ',';
    }
  }

  /** The fragments of every indication text, in order. */
  function AllFragments(texts: seq<string>): seq<string> {
    FlatMap(texts, Fragments)
  }

  /** Every use read from the indications is shaped like a use. */
  lemma AllFragmentsShaped(texts: seq<string>)
    ensures forall k | 0 <= k < |AllFragments(texts)| :: UseShaped(AllFragments(texts)[k])
  {
    forall t | 0 <= t < |texts| {
      FragmentsShaped(texts[t]);
    }
    FlatMapAll(texts, Fragments, UseShaped);
  }

  /** A use is read from the indications exactly when it is a fragment of
      one of them. */
  lemma AllFragmentsMember(texts: seq<string>, u: string)
    ensures u in AllFragments(texts) <==> exists t | 0 <= t < |texts| :: u in Fragments(texts[t])
  {
    FlatMapMember(texts, Fragments, u);
  }

  /** `uses` after the loop over the indications: the fragments of each in
      turn, nothing when the list is falsy; `None` when an indication is not
      a string. */
  function ParsedUses(indications: Json): (r: Option<seq<string>>)
    ensures !Truthy(indications) ==> r == Some([])
    ensures Truthy(indications) && StringItems(indications).Some? ==>
              r == Some(AllFragments(StringItems(indications).value))
    ensures Truthy(indications) && StringItems(indications).None? ==> r.None?
    ensures r.Some? ==> forall k | 0 <= k < |r.value| :: UseShaped(r.value[k])
  {
    if !Truthy(indications) then Some([])
    else
      match StringItems(indications)
      case None => None
      case Some(texts) => AllFragmentsShaped(texts); Some(AllFragments(texts))
  }

  // ------------------------------------------------------------ components

  /** `[x.lower().strip() for x in v]` */
  function CleanAll(xs: seq<string>): (r: seq<string>)
    ensures |r| == |xs|
    ensures forall k | 0 <= k < |xs| :: IsCleaned(xs[k], r[k])
  {
    var r := seq(|xs|, k requires 0 <= k < |xs| => Strip(Lower(xs[k])));
    assert forall k | 0 <= k < |xs| :: IsCleaned(xs[k], r[k]) by {
      forall k | 0 <= k < |xs| ensures IsCleaned(xs[k], r[k]) {
        CleanedSpec(xs[k]);
      }
    }
    r
  }

  /** The ingredient names of a truthy list, cleaned. */
  function Ingredients(v: Json): Option<seq<string>> {
    if !Truthy(v) then Some([])
    else
      match StringItems(v)
      case None => None
      case Some(xs) => Some(CleanAll(xs))
  }

  /** `components`: the active ingredients, or the substance names when that
      list comes out empty. */
  function ParsedComponents(raw: Record, openfda: Record): (r: Option<seq<string>>)
    ensures Ingredients(Get(raw, "active_ingredient", JArray([]))) == Some([]) ==>
              r == Ingredients(Get(openfda, "substance_name", JArray([])))
    ensures Ingredients(Get(raw, "active_ingredient", JArray([]))).Some?
            && Ingredients(Get(raw, "active_ingredient", JArray([]))) != Some([]) ==>
              r == Ingredients(Get(raw, "active_ingredient", JArray([])))
    ensures Ingredients(Get(raw, "active_ingredient", JArray([]))).None? ==> r.None?
  {
    match Ingredients(Get(raw, "active_ingredient", JArray([])))
    case None => None
    case Some(cs) =>
      if |cs| > 0 then Some(cs) else Ingredients(Get(openfda, "substance_name", JArray([])))
  }

  // ------------------------------------------------------------ description

  /** `text[:200]` for a string or a list; slicing anything else raises. */
  function Cut(text: Json): (r: Option<Json>)
    ensures r.Some? <==> text.JString? || text.JArray?
    ensures text.JString? ==> r.Some? && r.value.JString? && r.value.s <= text.s
                              && |r.value.s| == (if |text.s| <= MaxDescription then |text.s| else MaxDescription)
    ensures text.JArray? ==> r.Some? && r.value.JArray? && r.value.items <= text.items
                             && |r.value.items| == (if |text.items| <= MaxDescription then |text.items| else MaxDescription)
  {
    match text
    case JString(s) => Some(JString(if |s| <= MaxDescription then s else s[..MaxDescription]))
    case JArray(items) => Some(JArray(if |items| <= MaxDescription then items else items[..MaxDescription]))
    case _ => None
  }

  /** The description: the first item of a truthy `description` list, cut to
      200, or `""`. */
  function ParsedDescription(raw: Record): (r: Option<Json>)
    ensures r.Some? && r.value.JString? ==> |r.value.s| <= MaxDescription
    ensures var d := Get(raw, "description", JArray([]));
            && (!Truthy(d) ==> r == Some(JString("")))
            && (Truthy(d) && First(d).None? ==> r.None?)
            && (Truthy(d) && First(d).Some? && !Truthy(First(d).value) ==> r == Some(JString("")))
            && (Truthy(d) && First(d).Some? && Truthy(First(d).value) ==> r == Cut(First(d).value))
  {
    var d := Get(raw, "description", JArray([]));
    if !Truthy(d) then Some(JString(""))
    else
      match First(d)
      case None => None
      case Some(text) => if Truthy(text) then Cut(text) else Some(JString(""))
  }

  // ------------------------------------------------------------ the parse

  /** The kept uses: each distinct fragment once, at most ten. Which ten the
      Python set yields is unspecified; this model keeps first occurrences,
      and the contracts promise no order. */
  function KeptUses(uses: seq<string>): (r: seq<string>)
    ensures |r| == if |Distinct(uses)| <= MaxUses then |Distinct(uses)| else MaxUses
    ensures forall k | 0 <= k < |r| :: r[k] in uses
    ensures forall k, l | 0 <= k < l < |r| :: r[k] != r[l]
    ensures |Distinct(uses)| <= MaxUses ==> forall u :: u in uses <==> u in r
  {
    var d := Distinct(uses);
    if |d| <= MaxUses then d else d[..MaxUses]
  }

  /** The parts read from a label before they are assembled. */
  datatype Label = Label(name: string, uses: seq<string>, components: seq<string>, description: Json)

  /** Every read of `_parse_fda_response`, in order; `None` when one raises
      or the label has no name. */
  function ReadLabel(raw: Json): (r: Option<Label>)
    ensures r.Some? ==> raw.JObject? && Get(raw.fields, "openfda", JObject(map[])).JObject?
    ensures r.Some? ==>
              var openfda := Get(raw.fields, "openfda", JObject(map[]));
              && LabelName(openfda) == Some(r.value.name)
              && ParsedUses(Get(raw.fields, "indications_and_usage", JArray([]))) == Some(r.value.uses)
              && ParsedComponents(raw.fields, openfda.fields) == Some(r.value.components)
              && ParsedDescription(raw.fields) == Some(r.value.description)
    ensures raw.JObject? ==>
              var openfda := Get(raw.fields, "openfda", JObject(map[]));
              && openfda.JObject?
              && LabelName(openfda).Some?
              && ParsedUses(Get(raw.fields, "indications_and_usage", JArray([]))).Some?
              && ParsedComponents(raw.fields, openfda.fields).Some?
              && ParsedDescription(raw.fields).Some?
              ==> r.Some?
  {
    match Lookup(raw, "openfda", JObject(map[]))
    case None => None
    case Some(openfda) =>
      match LabelName(openfda)
      case None => None
      case Some(name) =>
        match ParsedUses(Get(raw.fields, "indications_and_usage", JArray([])))
        case None => None
        case Some(uses) =>
          match ParsedComponents(raw.fields, openfda.fields)
          case None => None
          case Some(components) =>
            match ParsedDescription(raw.fields)
            case None => None
            case Some(description) => Some(Label(name, uses, components, description))
  }

  /** A list of strings as a JSON list. */
  function JsonStrings(xs: seq<string>): (j: Json)
    ensures j.JArray? && |j.items| == |xs|
    ensures forall k | 0 <= k < |xs| :: j.items[k] == JString(xs[k])
  {
    JArray(seq(|xs|, k requires 0 <= k < |xs| => JString(xs[k])))
  }

  /** The record `_parse_fda_response` builds: title-cased name, each
      distinct use once (at most ten), each distinct component once, the
      category inferred from all the uses, and the description. */
  function Build(mappings: Mappings, l: Label): Record {
    map["name" := JString(Title(l.name)),
        "uses" := JsonStrings(KeptUses(l.uses)),
        "components" := JsonStrings(Distinct(l.components)),
        "category" := JString(Infer(mappings, l.uses)),
        "description" := l.description]
  }

  /** `_parse_fda_response(fda_data)`: `None` when a read raises, when the
      label has no name, or when both uses and components come out empty. */
  function ParseFdaResponse(mappings: Mappings, raw: Json): (r: Option<Record>)
    ensures r.Some? <==> ReadLabel(raw).Some? && (|ReadLabel(raw).value.uses| > 0 || |ReadLabel(raw).value.components| > 0)
    ensures r.Some? ==> r.value == Build(mappings, ReadLabel(raw).value)
  {
    match ReadLabel(raw)
    case None => None
    case Some(l) =>
      if |l.uses| == 0 && |l.components| == 0 then None
      else Some(Build(mappings, l))
  }

  /** The kept uses as a JSON list: distinct strings, each one of the
      parsed uses and so shaped like a use. */
  lemma KeptUsesListed(uses: seq<string>)
    requires forall k | 0 <= k < |uses| :: UseShaped(uses[k])
    ensures var items := JsonStrings(KeptUses(uses)).items;
            && |items| <= MaxUses
            && (|uses| > 0 ==> |items| > 0)
            && (forall k | 0 <= k < |items| :: exists u | u in uses :: items[k] == JString(u) && UseShaped(u))
            && (forall k, l | 0 <= k < l < |items| :: items[k] != items[l])
  {
    var kept := KeptUses(uses);
    var items := JsonStrings(kept).items;
    if |uses| > 0 {
      assert uses[0] in uses;
      assert |Distinct(uses)| > 0;
    }
    forall k | 0 <= k < |items| ensures exists u | u in uses :: items[k] == JString(u) && UseShaped(u) {
      var u := kept[k];
      var j :| 0 <= j < |uses| && uses[j] == u;
    }
  }

  /** The distinct components as a JSON list: each parsed component once. */
  lemma ComponentsListed(components: seq<string>)
    ensures var items := JsonStrings(Distinct(components)).items;
            && (|components| > 0 ==> |items| > 0)
            && (forall x :: JString(x) in items <==> x in components)
            && (forall k, l | 0 <= k < l < |items| :: items[k] != items[l])
  {
    var parts := Distinct(components);
    var items := JsonStrings(parts).items;
    if |components| > 0 {
      assert components[0] in components;
    }
    forall x ensures JString(x) in items <==> x in components {
      if x in components {
        var k :| 0 <= k < |parts| && parts[k] == x;
        assert items[k] == JString(x);
      }
    }
  }

  /** What a built record holds: the five fields; the name is the label
      name title-cased; the uses are distinct, at most ten, each one of the
      parsed uses and shaped like a use; the components are exactly the
      distinct parsed components; the category is inferred from every parsed
      use (before the cut to ten); uses and components are not both empty
      when the label had either. */
  lemma BuildSpec(mappings: Mappings, l: Label)
    requires forall k | 0 <= k < |l.uses| :: UseShaped(l.uses[k])
    ensures var r := Build(mappings, l);
            && r.Keys == {"name", "uses", "components", "category", "description"}
            && r["name"] == JString(Title(l.name))
            && r["uses"].JArray? && r["components"].JArray?
            && (|l.uses| > 0 || |l.components| > 0 ==> |r["uses"].items| > 0 || |r["components"].items| > 0)
            && |r["uses"].items| <= MaxUses
            && (forall k | 0 <= k < |r["uses"].items| ::
                  exists u | u in l.uses :: r["uses"].items[k] == JString(u) && UseShaped(u))
            && (forall k, l' | 0 <= k < l' < |r["uses"].items| :: r["uses"].items[k] != r["uses"].items[l'])
            && (forall x :: JString(x) in r["components"].items <==> x in l.components)
            && (forall k, l' | 0 <= k < l' < |r["components"].items| :: r["components"].items[k] != r["components"].items[l'])
            && r["category"] == JString(Infer(mappings, l.uses))
            && r["description"] == l.description
  {
    KeptUsesListed(l.uses);
    ComponentsListed(l.components);
  }

  /** A parsed record's uses come from its indications and its description,
      when a string, is at most 200 characters long. */
  lemma ParsedLabel(raw: Json)
    requires ReadLabel(raw).Some?
    ensures forall k | 0 <= k < |ReadLabel(raw).value.uses| :: UseShaped(ReadLabel(raw).value.uses[k])
    ensures ReadLabel(raw).value.description.JString? ==> |ReadLabel(raw).value.description.s| <= MaxDescription
  {
  }

  /** No name, no record: a label with neither a truthy brand list nor a
      truthy generic list is dropped, and so is one whose uses and
      components both come out empty. */
  lemma DroppedWithoutName(mappings: Mappings, raw: Json)
    requires raw.JObject?
    requires var openfda := Get(raw.fields, "openfda", JObject(map[]));
             openfda.JObject?
             && !Truthy(Get(openfda.fields, "brand_name", JArray([])))
             && !Truthy(Get(openfda.fields, "generic_name", JArray([])))
    ensures ParseFdaResponse(mappings, raw).None?
  {
  }

  /** A label whose brand list starts with a non-empty string is named by it
      even when a generic name is also present. */
  lemma BrandNameFirst(openfda: Record, brand: string, rest: seq<Json>)
    requires brand != ""
    requires "brand_name" in openfda && openfda["brand_name"] == JArray([JString(brand)] + rest)
    ensures LabelName(JObject(openfda)) == Some(brand)
  {
  }

  /** Without a truthy brand list, a generic list starting with a non-empty
      string names the label. */
  lemma GenericNameSecond(openfda: Record, generic: string, rest: seq<Json>)
    requires !Truthy(Get(openfda, "brand_name", JArray([])))
    requires generic != ""
    requires "generic_name" in openfda && openfda["generic_name"] == JArray([JString(generic)] + rest)
    ensures LabelName(JObject(openfda)) == Some(generic)
  {
  }
}
