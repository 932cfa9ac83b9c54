/** The parsed configuration document: the `Map<String, Object>` that the
    JSON parser hands to every configuration reader. */
module ConfigValue {

  /** A JSON value as the parser represents it; numbers are kept abstract
      because no reader of the core accepts one. */
  datatype Value =
    | Null
    | Bool(b: bool)
    | Number(n: real)
    | Text(s: string)
    | List(items: seq<Value>)
    | Object(fields: map<string, Value>)

  /** Java `Map.get`: an absent key reads as null. */
  function Get(m: map<string, Value>, key: string): (v: Value)
    ensures key !in m ==> v == Null
    ensures key in m ==> v == m[key]
  {
    if key in m then m[key] else Null
  }
}
