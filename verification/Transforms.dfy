/**
 * Payload decoders and their selection (src/mqtt.transform.ts). UTF-8
 * decoding and `JSON.parse` belong to the JavaScript runtime and are passed
 * in as functions (`Platform`).
 */
module Transforms {
  import opened Common

  /** A value `JSON.parse` can produce. */
  datatype Json =
    | JNull
    | JBool(b: bool)
    | JNumber(n: real)
    | JString(s: string)
    | JArray(items: seq<Json>)
    | JObject(members: seq<(string, Json)>)

  /** What a transform hands to the handler as its payload argument. */
  datatype Value = Buffer(bytes: seq<byte>) | Text(text: string) | Parsed(json: Json)

  /** `Buffer.toString('utf-8')` and `JSON.parse` (the latter throws on malformed text). */
  datatype Platform = Platform(
    utf8: seq<byte> -> string,
    parseJson: string -> Result<Json, Exception>)

  /** A user-supplied `MqttMessageTransformer`; it may throw. */
  type CustomTransform = seq<byte> -> Result<Value, Exception>

  /** The `transform` option of a subscription: a name or a function. */
  datatype TransformOption = Named(name: string) | Function(f: CustomTransform)

  /** The transformer functions `getTransform` can return. */
  datatype Transformer = JsonTransform | TextTransform | RawTransform | UserTransform(f: CustomTransform)

  /** Calling a transformer on a payload. */
  function Apply(t: Transformer, platform: Platform, payload: seq<byte>): Result<Value, Exception> {
    match t
    case JsonTransform =>
      (match platform.parseJson(platform.utf8(payload))
       case Success(j) => Success(Parsed(j))
       case Failure(e) => Failure(e))
    case TextTransform => Success(Text(platform.utf8(payload)))
    case RawTransform => Success(Buffer(payload))
    case UserTransform(f) => f(payload)
  }

  /** The names the `switch` of `getTransform` recognises. */
  predicate KnownName(name: string) {
    name == "text" || name == "json" || name == "raw"
  }

  /**
   * `getTransform`; the absent argument defaults to `'json'`. An unrecognised
   * name falls out of the `switch`, so the result is `undefined` (`None`).
   */
  function GetTransform(t: Option<TransformOption>): (r: Option<Transformer>)
    ensures r.Some? <==> (t.None? || t.value.Function? || KnownName(t.value.name))
  {
    var option := t.GetOr(Named("json"));
    match option
    case Function(f) => Some(UserTransform(f))
    case Named(name) =>
      if name == "text" then Some(TextTransform)
      else if name == "json" then Some(JsonTransform)
      else if name == "raw" then Some(RawTransform)
      else None
  }

  /** No transform option decodes every payload exactly as `'json'` does. */
  lemma DefaultIsJson(platform: Platform, payload: seq<byte>)
    ensures GetTransform(None) == GetTransform(Some(Named("json"))) == Some(JsonTransform)
    ensures Apply(GetTransform(None).value, platform, payload) ==
            match platform.parseJson(platform.utf8(payload))
            case Success(j) => Success(Parsed(j))
            case Failure(e) => Failure(e)
  {
  }

  /** A function option is used as it is: its result, or its exception, is the payload's. */
  lemma CustomPassesThrough(f: CustomTransform, platform: Platform, payload: seq<byte>)
    ensures GetTransform(Some(Function(f))).Some?
    ensures Apply(GetTransform(Some(Function(f))).value, platform, payload) == f(payload)
  {
  }

  /** `'raw'` hands over the payload bytes unchanged; it never fails. */
  lemma RawIsIdentity(platform: Platform, payload: seq<byte>)
    ensures GetTransform(Some(Named("raw"))) == Some(RawTransform)
    ensures Apply(RawTransform, platform, payload) == Success(Buffer(payload))
  {
  }

  /** `'text'` is the UTF-8 decoding of the payload; it never fails. */
  lemma TextIsUtf8(platform: Platform, payload: seq<byte>)
    ensures GetTransform(Some(Named("text"))) == Some(TextTransform)
    ensures Apply(TextTransform, platform, payload) == Success(Text(platform.utf8(payload)))
  {
  }

  /** `'json'` fails exactly when `JSON.parse` of the UTF-8 text throws, with that exception. */
  lemma JsonFailsWithParse(platform: Platform, payload: seq<byte>)
    ensures GetTransform(Some(Named("json"))) == Some(JsonTransform)
    ensures Apply(JsonTransform, platform, payload).Failure? <==> platform.parseJson(platform.utf8(payload)).Failure?
    ensures Apply(JsonTransform, platform, payload).Failure? ==>
            Apply(JsonTransform, platform, payload).error == platform.parseJson(platform.utf8(payload)).error
  {
  }
}
