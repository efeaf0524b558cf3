/** The JSON values that the modelled records hold, and Python's dictionary access on them. */
module Json {

  /** A string field or `null` (Python `None`). */
  datatype Value = Null | Str(s: string)

  /** A JSON object, read in Python as a dict. */
  type Object = map<string, Value>

  /** `obj.get(key)`: a missing key reads as `None`. */
  function Get(obj: Object, key: string): (v: Value)
    ensures key in obj ==> v == obj[key]
    ensures key !in obj ==> v == Null
  {
    if key in obj then obj[key] else Null
  }

  /** `m.get(key, default)`: the default is used only when the key is absent. */
  function GetOr<V>(m: map<string, V>, key: string, default: V): (v: V)
    ensures key in m ==> v == m[key]
    ensures key !in m ==> v == default
  {
    if key in m then m[key] else default
  }

  /** Python truthiness of a field: a non-empty string. */
  predicate Truthy(v: Value)
  {
    v.Str? && v.s != ""
  }

  /** `str(v)`: `None` prints as "None". */
  function ToStr(v: Value): string
  {
    match v
    case Null => "None"
    case Str(s) => s
  }
}
