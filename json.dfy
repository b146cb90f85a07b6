/** JSON-like values as the deployer sees them after YAML.parse or JSON.parse,
    with the JavaScript notions the deployer relies on: truthiness, `||` with a
    default, and strict equality against a string. */
module Json {

  /** A parsed document. Numbers are mathematical reals, so `-0` and `0` are the
      same (falsy) value; object keys are unordered. */
  datatype Json =
    | JNull
    | JBool(b: bool)
    | JNumber(n: real)
    | JString(s: string)
    | JArray(items: seq<Json>)
    | JObject(fields: map<string, Json>)

  type Object = map<string, Json>

  /** JavaScript truthiness of a property value; `None` is `undefined`. */
  predicate Truthy(v: Option<Json>)
    ensures Truthy(v) ==> v.Some? && v.value != JNull
    ensures v.Some? && (v.value.JArray? || v.value.JObject?) ==> Truthy(v)
  {
    match v
    case None => false
    case Some(j) =>
      match j
      case JNull => false
      case JBool(b) => b
      case JNumber(n) => n != 0.0
      case JString(s) => s != ""
      case JArray(_) => true
      case JObject(_) => true
  }

  datatype Option<+T> = None | Some(value: T)

  /** `o[key]`: the property, or `undefined` when it is missing. */
  function Get(o: Object, key: string): (r: Option<Json>)
    ensures r.Some? <==> key in o
    ensures r.Some? ==> r.value == o[key]
  {
    if key in o then Some(o[key]) else None
  }

  /** `o[key] || fallback`: the property when it is truthy, the fallback otherwise. */
  function OrElse(o: Object, key: string, fallback: Json): (r: Json)
    ensures Truthy(Get(o, key)) ==> key in o && r == o[key]
    ensures !Truthy(Get(o, key)) ==> r == fallback
  {
    if key in o && Truthy(Some(o[key])) then o[key] else fallback
  }
}
