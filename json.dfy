/**
 * The parsed JSON payload. Numbers are integers here: the records only use
 * numbers for years, and fractional or overflowing numbers are not modelled.
 */
module Json {
  import opened Wrappers

  datatype Json =
    | JNull
    | JBool(b: bool)
    | JNumber(n: int)
    | JString(s: string)
    | JArray(items: seq<Json>)
    | JObject(fields: map<string, Json>)

  /**
   * Property access `raw[key]`; `None` is `undefined`. Arrays are objects in
   * JavaScript too, but none of the keys the records read is a property of
   * an array.
   */
  function Field(raw: Json, key: string): (v: Option<Json>)
    ensures v.Some? <==> raw.JObject? && key in raw.fields
    ensures v.Some? ==> v.value == raw.fields[key]
  {
    if raw.JObject? && key in raw.fields then Some(raw.fields[key]) else None
  }
}
