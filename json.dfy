/**
  JSON values as the handlers see them after Flask has decoded a request
  body, with the two Python notions the handlers rely on: truthiness
  (`if not name:`) and `isinstance` checks.
 */
module Json {

  datatype Json =
    | JNull
    | JBool(b: bool)
    | JInt(n: int)
    | JStr(s: string)
    | JList(items: seq<Json>)
    | JObj(fields: map<string, Json>)

  /** A decoded JSON object body: `request.json`. */
  type Body = map<string, Json>

  /** Python truthiness: `None`, `False`, `0`, `""`, `[]` and `{}` are false. */
  predicate Truthy(v: Json)
  {
    match v
    case JNull => false
    case JBool(b) => b
    case JInt(n) => n != 0
    case JStr(s) => s != ""
    case JList(items) => items != []
    case JObj(fields) => fields != map[]
  }

  /** `isinstance(v, str)`. */
  predicate IsStr(v: Json) { v.JStr? }

  /** `isinstance(v, int)`: in Python `bool` is a subclass of `int`, so booleans pass. */
  predicate IsInt(v: Json) { v.JInt? || v.JBool? }

  /** `isinstance(v, list)`. */
  predicate IsList(v: Json) { v.JList? }

  /** `request.json.get(key, default)`. */
  function GetOr(body: Body, key: string, default: Json): Json
  {
    if key in body then body[key] else default
  }

  /** `request.json.get(key)`: a missing key reads as `None`. */
  function Get(body: Body, key: string): Json
  {
    GetOr(body, key, JNull)
  }
}
