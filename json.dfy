/** Decoded JSON values, as `json.loads` returns them, and the decoder itself
    as an abstract partial function. */
module Json {
  import opened Outcomes

  datatype Json =
    | JNull
    | JBool(b: bool)
    | JInt(i: int)
    | JFloat(f: real)
    | JString(s: string)
    | JArray(items: seq<Json>)
    | JObject(fields: map<string, Json>)

  /** `json.loads`: a decoded value, or the `JSONDecodeError` it raises. */
  type Parser = string -> Result<Json>

  /** `type(value).__name__` of a decoded value. */
  function PyTypeName(j: Json): string
  {
    match j
    case JNull => "NoneType"
    case JBool(_) => "bool"
    case JInt(_) => "int"
    case JFloat(_) => "float"
    case JString(_) => "str"
    case JArray(_) => "list"
    case JObject(_) => "dict"
  }
}
