/** The slice of the JavaScript runtime the review bot relies on: parsed JSON values,
    JavaScript truthiness, the string coercion that `+=` applies, and `JSON.parse`
    itself, which is foreign code and is therefore passed in as a partial function. */
module JsRuntime {

  datatype Option<+T> = None | Some(value: T)

  /** A value produced by `JSON.parse`. Object keys are a map because `JSON.parse`
      keeps only the last of duplicate keys. */
  datatype Json =
    | JNull
    | JBool(b: bool)
    | JNumber(n: real)
    | JString(s: string)
    | JArray(elems: seq<Json>)
    | JObject(fields: map<string, Json>)

  /** The foreign functions: `parse` is `JSON.parse` (None when it throws) and
      `numberText` is the engine's Number-to-String conversion. */
  datatype Runtime = Runtime(parse: string -> Option<Json>, numberText: real -> string)

  /** The one fact about `JSON.parse` the model may rely on: text that starts with `[`
      and parses at all parses to an array. Used only as a precondition. */
  ghost predicate ParsesBracketAsArray(rt: Runtime)
  {
    forall s :: |s| > 0 && s[0] == '[' && rt.parse(s).Some? ==> rt.parse(s).value.JArray?
  }

  /** JavaScript truthiness of a JSON value: `null`, `false`, `0` and `""` are falsy;
      every array and object, even an empty one, is truthy. */
  predicate Truthy(v: Json)
  {
    match v
    case JNull => false
    case JBool(b) => b
    case JNumber(n) => n != 0.0
    case JString(s) => s != ""
    case JArray(_) => true
    case JObject(_) => true
  }

  /** Property lookup `v.key` on a JSON value: only objects have own properties here;
      `None` is `undefined`. (Lookup on `null` throws; callers handle that case first.) */
  function Property(v: Json, key: string): (r: Option<Json>)
    ensures r.Some? <==> v.JObject? && key in v.fields
    ensures r.Some? ==> r.value == v.fields[key]
  {
    if v.JObject? && key in v.fields then Some(v.fields[key]) else None
  }

  /** Whether converting `v` to a string throws a TypeError. A parsed object inherits
      `valueOf`, which returns the object itself, so the conversion falls to `toString`;
      an own `toString` key holds data, not a function, and the conversion throws. An
      array converts through `join`, which converts every element that is not `null`. */
  predicate ConversionThrows(v: Json)
    decreases v
  {
    match v
    case JObject(fields) => "toString" in fields
    case JArray(xs) => exists k :: 0 <= k < |xs| && ConversionThrows(xs[k])
    case _ => false
  }

  /** The string `"" + v` produces, `None` when the conversion throws: strings as they
      are, numbers through the engine, arrays joined with "," (null elements as ""),
      other objects as "[object Object]". */
  function ToText(rt: Runtime, v: Json): (r: Option<string>)
    ensures r.None? <==> ConversionThrows(v)
    ensures v.JString? ==> r == Some(v.s)
    ensures v.JObject? && r.Some? ==> r.value == "[object Object]"
    decreases v
  {
    match v
    case JNull => Some("null")
    case JBool(b) => Some(if b then "true" else "false")
    case JNumber(n) => Some(rt.numberText(n))
    case JString(s) => Some(s)
    case JArray(xs) =>
      var parts := seq(|xs|, k requires 0 <= k < |xs| => if xs[k].JNull? then Some("") else ToText(rt, xs[k]));
      if exists k :: 0 <= k < |xs| && parts[k].None? then None
      else
        assert !ConversionThrows(v) by {
          forall k | 0 <= k < |xs| ensures !ConversionThrows(xs[k]) {
            if !xs[k].JNull? {
              assert parts[k] == ToText(rt, xs[k]);
            }
          }
        }
        Some(JoinWithComma(seq(|xs|, k requires 0 <= k < |xs| => parts[k].value)))
    case JObject(fields) => if "toString" in fields then None else Some("[object Object]")
  }

  /** `Array.prototype.join(",")` on already-converted elements. */
  function JoinWithComma(parts: seq<string>): string
  {
    if |parts| <= 1 then (if parts == [] then "" else parts[0])
    else parts[0] + "," + JoinWithComma(parts[1..])
  }
}
