/**
 * Parsed JSON values, as JavaScript sees them after `JSON.parse`, together with
 * the JavaScript notions the response validation relies on: property access
 * (a missing property reads as `undefined`), truthiness and `Array.isArray`.
 */
module Json {
  import opened Wrappers

  /**
   * A JSON value. `JNumber` holds the value of the IEEE double `JSON.parse`
   * produced for the number text, not the text itself: a literal too small for
   * a double arrives here as `0`, and any non-zero value may stand for
   * `Infinity`.
   */
  datatype Json =
    | JNull
    | JBool(b: bool)
    | JNumber(n: real)
    | JString(s: string)
    | JArray(items: seq<Json>)
    | JObject(members: map<string, Json>)

  /** The members of a JSON object; this is what `JSON.parse` yields for a text that starts with `{`. */
  type JsonObject = map<string, Json>

  /** `obj.key`: the member's value, or `None` for `undefined`. */
  function Member(obj: JsonObject, key: string): (r: Option<Json>)
    ensures r.Some? <==> key in obj
    ensures r.Some? ==> r.value == obj[key]
  {
    if key in obj then Some(obj[key]) else None
  }

  /**
   * JavaScript truthiness of a property read: `undefined`, `null`, `false`,
   * `0` and `""` are falsy; every other value (arrays and objects included,
   * even empty ones) is truthy. `NaN` cannot come out of `JSON.parse`.
   */
  predicate Truthy(v: Option<Json>)
    ensures Truthy(v) ==> v.Some? && !v.value.JNull?
    ensures v.Some? && (v.value.JArray? || v.value.JObject?) ==> Truthy(v)
    ensures v.Some? && v.value.JString? ==> (Truthy(v) <==> |v.value.s| > 0)
  {
    match v
    case None => false
    case Some(JNull) => false
    case Some(JBool(b)) => b
    case Some(JNumber(n)) => n != 0.0
    case Some(JString(s)) => s != ""
    case Some(JArray(_)) => true
    case Some(JObject(_)) => true
  }

  /** `Array.isArray` of a property read. */
  predicate IsArray(v: Option<Json>)
    ensures IsArray(v) ==> Truthy(v)
  {
    v.Some? && v.value.JArray?
  }
}
