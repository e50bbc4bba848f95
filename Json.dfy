/** JSON values as the analyser handles them: what `json.loads` returns and
    what `json.dump` writes. Object key order is not represented. */
module Json {

  datatype Json =
    | JNull
    | JBool(b: bool)
    | JNumber(n: int)
    | JString(s: string)
    | JArray(items: seq<Json>)
    | JObject(fields: map<string, Json>)
}
