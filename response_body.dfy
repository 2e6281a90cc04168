/**
 * The body the harness reports for a completed exchange: the parsed JSON
 * value or the raw text (`result.json || result.body` in `main`).
 * `JSON.parse` itself is not modelled: its outcome is an input, None when
 * it throws.
 */
module ResponseBody {

  import opened Wrappers

  /** A parsed JSON value. Object members keep their textual order. */
  datatype Json =
    | JNull
    | JBool(b: bool)
    | JNumber(x: real)
    | JString(s: string)
    | JArray(items: seq<Json>)
    | JObject(members: seq<(string, Json)>)

  /** JavaScript truthiness: null, false, 0 and "" are falsy; arrays and objects never are. */
  predicate Truthy(j: Json) {
    match j
    case JNull => false
    case JBool(b) => b
    case JNumber(x) => x != 0.0
    case JString(s) => s != ""
    case JArray(_) => true
    case JObject(_) => true
  }

  /** What the report's `body` field holds. */
  datatype Body = JsonBody(value: Json) | TextBody(text: string)

  /**
   * `result.json || result.body`: the parsed value when parsing succeeded and
   * the value is truthy, otherwise the text as received.
   */
  function ReportedBody(data: string, parsed: Option<Json>): (b: Body)
    ensures b.JsonBody? <==> parsed.Some? && Truthy(parsed.value)
    ensures b.JsonBody? ==> b.value == parsed.value
    ensures b.TextBody? ==> b.text == data
  {
    if parsed.Some? && Truthy(parsed.value) then JsonBody(parsed.value) else TextBody(data)
  }

  /** The body as evidently intended: the parsed value whenever the text is well-formed JSON. */
  function IntendedBody(data: string, parsed: Option<Json>): (b: Body)
    ensures b.JsonBody? <==> parsed.Some?
    ensures b.JsonBody? ==> b.value == parsed.value
    ensures b.TextBody? ==> b.text == data
  {
    match parsed
    case Some(v) => JsonBody(v)
    case None => TextBody(data)
  }

  /**
   * The reported body differs from the intended one exactly when the text
   * parses to a falsy JSON value (null, false, 0 or "").
   */
  lemma ReportedMatchesIntendedIff(data: string, parsed: Option<Json>)
    ensures ReportedBody(data, parsed) == IntendedBody(data, parsed) <==> parsed.None? || Truthy(parsed.value)
  {
  }

  /** A response of `0` is valid JSON but is reported as the text "0", not the number. */
  lemma ZeroReportedAsText()
    ensures ReportedBody("0", Some(JNumber(0.0))) == TextBody("0")
    ensures IntendedBody("0", Some(JNumber(0.0))) == JsonBody(JNumber(0.0))
  {
  }
}
