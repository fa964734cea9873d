/** The JSON values `JSON.parse` produces and `JSON.stringify` consumes.
    Both library calls are passed to the parsers as functions; only the
    shape of a value is fixed here. */
module JsonValue {
  datatype Json =
    | JNull
    | JBool(b: bool)
    | JNumber(n: real)
    | JString(s: string)
    | JArray(items: seq<Json>)
    | JObject(fields: seq<(string, Json)>)
}
