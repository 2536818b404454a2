/**
 * Decoded JSON values as the Python code sees them after `json.loads`, with
 * the handful of Python operations the core applies to them.
 */
module Json {
  import opened Wrappers

  /** `None`, `bool`, `int`, `float`, `str`, `list` and `dict` as produced by `json.loads`. */
  datatype Json =
    | JNull
    | JBool(b: bool)
    | JInt(i: int)
    | JFloat(f: real)
    | JStr(s: string)
    | JArray(items: seq<Json>)
    | JObject(fields: map<string, Json>)

  /** Python truthiness, `bool(x)`. */
  predicate Truthy(j: Json) {
    match j
    case JNull => false
    case JBool(b) => b
    case JInt(i) => i != 0
    case JFloat(f) => f != 0.0
    case JStr(s) => s != ""
    case JArray(items) => items != []
    case JObject(fields) => fields != map[]
  }

  /** `len(x)`; `None` where Python raises `TypeError` (numbers, booleans, `None`). */
  function Len(j: Json): (n: Option<nat>)
    ensures n.Some? <==> j.JStr? || j.JArray? || j.JObject?
  {
    match j
    case JStr(s) => Some(|s|)
    case JArray(items) => Some(|items|)
    case JObject(fields) => Some(|fields|)
    case _ => None
  }

  /** `isinstance(x, int)`: Python's `bool` is a subclass of `int`. */
  predicate IsInt(j: Json) {
    j.JInt? || j.JBool?
  }

  /** `d.get(key)`: `None` for a missing key. */
  function Get(fields: map<string, Json>, key: string): Json {
    if key in fields then fields[key] else JNull
  }

  /** The `Optional[str]` values the views pass through: `None` or a string. */
  function OptionalString(s: Option<string>): Json {
    match s
    case None => JNull
    case Some(v) => JStr(v)
  }
}
