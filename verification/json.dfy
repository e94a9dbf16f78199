/** The shape of a parsed JSON document, as Python's `json.loads` returns it:
    `None`, bool, number, str, list and dict. Parsing itself is not modelled;
    callers receive it as a function `string -> Option<Json>`. */
module JsonValue {

  datatype Json =
    | JNull
    | JBool(b: bool)
    | JNumber(n: real)
    | JString(s: string)
    | JArray(items: seq<Json>)
    | JObject(fields: map<string, Json>)
}
