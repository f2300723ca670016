/**
 A decoded JSON value as the relay's Python code sees it, with the few
 Python operations the relay applies to it: truthiness, `a or b`,
 `dict.get` and comparison with the integer 1.
 */
module PyJson {

  datatype Json =
    | JNull
    | JBool(b: bool)
    | JInt(i: int)
    | JFloat(r: real)
    | JString(s: string)
    | JArray(items: seq<Json>)
    | JObject(fields: map<string, Json>)

  /** Python truthiness: null, false, zero and empty containers are falsy. */
  predicate Truthy(v: Json) {
    match v
    case JNull => false
    case JBool(b) => b
    case JInt(i) => i != 0
    case JFloat(r) => r != 0.0
    case JString(s) => s != ""
    case JArray(items) => items != []
    case JObject(fields) => fields != map[]
  }

  /** Python's `a or b`: `a` when it is truthy, `b` otherwise. */
  function Or(a: Json, b: Json): (r: Json)
    ensures Truthy(r) <==> Truthy(a) || Truthy(b)
    ensures r == a || r == b
    ensures Truthy(a) ==> r == a
    ensures !Truthy(a) ==> r == b
  {
    if Truthy(a) then a else b
  }

  /** `d.get(key, default)` on a dictionary. */
  function Get(fields: map<string, Json>, key: string, default: Json): Json {
    if key in fields then fields[key] else default
  }

  /** Python's `v == 1`: true for the integer 1, the float 1.0 and `True`. */
  predicate EqualsOne(v: Json) {
    v == JInt(1) || v == JFloat(1.0) || v == JBool(true)
  }
}
