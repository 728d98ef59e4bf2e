/** JSON values as exchanged with the script workers and stored in workflow documents.
    Numbers are kept as integers: floating-point JSON numbers are not part of this model. */
module JsonValues {
  import opened Wrappers

  datatype Json =
    | JNull
    | JBool(b: bool)
    | JInt(i: int)
    | JString(s: string)
    | JArray(items: seq<Json>)
    | JObject(fields: map<string, Json>)

  /** `serde_json::Value::get(key)` / Python `dict.get(key)`: a lookup that is None on a
      missing key and on any value that is not an object. */
  function Get(j: Json, key: string): (r: Option<Json>)
    ensures r.Some? <==> j.JObject? && key in j.fields
    ensures r.Some? ==> r.value == j.fields[key]
  {
    if j.JObject? && key in j.fields then Some(j.fields[key]) else None
  }
}
