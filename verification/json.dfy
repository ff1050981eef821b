/** The untyped JSON values the validator and the curator read: a catalogue
    record is a JSON object, `map<string, Json>`. Numbers are integers; JSON
    fractions are not modelled. */
module JsonValues {
  import opened Wrappers

  datatype Json =
    | JNull
    | JBool(b: bool)
    | JNum(n: int)
    | JString(s: string)
    | JArray(items: seq<Json>)
    | JObject(fields: map<string, Json>)

  /** A catalogue record as `json.load` gives it. */
  type Record = map<string, Json>

  /** Python truthiness: `None`, `False`, `0`, `""`, `[]` and `{}` are false. */
  predicate Truthy(j: Json) {
    match j
    case JNull => false
    case JBool(b) => b
    case JNum(n) => n != 0
    case JString(s) => s != ""
    case JArray(items) => |items| > 0
    case JObject(fields) => |fields| > 0
  }

  /** `record.get(field, default)` */
  function Get(r: Record, field: string, default: Json): Json {
    if field in r then r[field] else default
  }

  /** `bool(record.get(field))`: present and truthy. */
  predicate HasTruthy(r: Record, field: string) {
    field in r && Truthy(r[field])
  }

  /** `len(value)` for the values that have one. */
  function JsonLen(j: Json): nat {
    match j
    case JString(s) => |s|
    case JArray(items) => |items|
    case JObject(fields) => |fields|
    case _ => 0
  }

  /** A JSON list whose items are all strings, as those strings; `None` when
      some item is not a string (where `" ".join` or `.lower()` raises). */
  function Strings(items: seq<Json>): (r: Option<seq<string>>)
    ensures r.Some? <==> forall k | 0 <= k < |items| :: items[k].JString?
    ensures r.Some? ==> |r.value| == |items| && forall k | 0 <= k < |items| :: items[k] == JString(r.value[k])
  {
    if |items| == 0 then Some([])
    else
      var n := |items| - 1;
      match Strings(items[..n])
      case None => None
      case Some(init) =>
        match items[n]
        case JString(s) => Some(init + [s])
        case _ => None
  }
}
