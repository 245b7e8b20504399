/**
 * The HTTP client of the translation service (client.ts): `translate` builds
 * the request URL from its options, reads the JSON reply through a shape
 * check and returns the first translation; `preloadModel` sends one fixed
 * text. The HTTP exchange itself is an input (`server` maps a URL to the
 * JSON body it answers with), and so is the byte-level percent-encoding of
 * the query (`encode`).
 */
module Client {
  import opened Wrappers
  import opened Text
  import Defaults

  /** The options `translate` accepts. */
  datatype TranslateOptions = TranslateOptions(
    host: Option<string>,
    port: Option<int>,
    text: string,
    target_lang: string,
    source_lang: Option<string>,  // auto-detected by the service when absent or empty
    debug: Option<bool>)

  /** One query parameter, name and value. */
  type Param = (string, string)

  /** Where the request goes and what it asks. */
  datatype Request = Request(host: string, port: int, query: seq<Param>)

  /** The parameters other than those named `name`, in order. */
  function Without(params: seq<Param>, name: string): (r: seq<Param>)
    ensures |r| <= |params|
    ensures forall k :: 0 <= k < |r| ==> r[k].0 != name
    decreases |params|
  {
    if params == [] then []
    else if params[0].0 == name then Without(params[1..], name)
    else [params[0]] + Without(params[1..], name)
  }

  /** The value of the first parameter named `name`, if any (`params.get(name)`). */
  function Lookup(params: seq<Param>, name: string): Option<string>
    decreases |params|
  {
    if params == [] then None
    else if params[0].0 == name then Some(params[0].1)
    else Lookup(params[1..], name)
  }

  /** Replaces the first parameter named `name` and drops the later ones. */
  function ReplaceFirst(params: seq<Param>, name: string, value: string): seq<Param>
    decreases |params|
  {
    if params == [] then []
    else if params[0].0 == name then [(name, value)] + Without(params[1..], name)
    else [params[0]] + ReplaceFirst(params[1..], name, value)
  }

  /** `URLSearchParams.set(name, value)`: the first parameter of that name
      takes the value and the others go; without one, the pair is appended. */
  function SetParam(params: seq<Param>, name: string, value: string): seq<Param> {
    if Lookup(params, name).Some? then ReplaceFirst(params, name, value) else params + [(name, value)]
  }

  /** Without a parameter of that name, `Without` keeps everything. */
  lemma {:induction false} WithoutAbsent(params: seq<Param>, name: string)
    requires Lookup(params, name).None?
    ensures Without(params, name) == params
    decreases |params|
  {
    if params != [] {
      WithoutAbsent(params[1..], name);
    }
  }

  /** `Without` distributes over concatenation. */
  lemma {:induction false} WithoutAppend(xs: seq<Param>, ys: seq<Param>, name: string)
    ensures Without(xs + ys, name) == Without(xs, name) + Without(ys, name)
    decreases |xs|
  {
    if xs == [] {
      assert xs + ys == ys;
    } else {
      assert (xs + ys)[1..] == xs[1..] + ys;
      WithoutAppend(xs[1..], ys, name);
    }
  }

  /** After `set`, the parameter has the new value, it occurs exactly once
      (the length is one more than that of the others), and the other
      parameters are the same and in the same order. */
  lemma {:induction false} SetParamSpec(params: seq<Param>, name: string, value: string)
    ensures Lookup(SetParam(params, name, value), name) == Some(value)
    ensures Without(SetParam(params, name, value), name) == Without(params, name)
    ensures |SetParam(params, name, value)| == |Without(params, name)| + 1
    ensures Lookup(params, name).None? ==> SetParam(params, name, value) == params + [(name, value)]
    decreases |params|
  {
    if Lookup(params, name).Some? {
      ReplaceFirstSpec(params, name, value);
    } else {
      WithoutAbsent(params, name);
      WithoutAppend(params, [(name, value)], name);
      AppendedLookup(params, name, value);
    }
  }

  lemma {:induction false} ReplaceFirstSpec(params: seq<Param>, name: string, value: string)
    requires Lookup(params, name).Some?
    ensures Lookup(ReplaceFirst(params, name, value), name) == Some(value)
    ensures Without(ReplaceFirst(params, name, value), name) == Without(params, name)
    ensures |ReplaceFirst(params, name, value)| == |Without(params, name)| + 1
    decreases |params|
  {
    if params[0].0 != name {
      ReplaceFirstSpec(params[1..], name, value);
    } else {
      WithoutTwice(params[1..], name);
    }
  }

  lemma {:induction false} WithoutTwice(params: seq<Param>, name: string)
    ensures Without(Without(params, name), name) == Without(params, name)
    decreases |params|
  {
    if params != [] {
      WithoutTwice(params[1..], name);
    }
  }

  lemma {:induction false} AppendedLookup(params: seq<Param>, name: string, value: string)
    requires Lookup(params, name).None?
    ensures Lookup(params + [(name, value)], name) == Some(value)
    decreases |params|
  {
    if params == [] {
    } else {
      assert (params + [(name, value)])[1..] == params[1..] + [(name, value)];
      AppendedLookup(params[1..], name, value);
    }
  }

  /** The request `translate` sends: host and port default when absent or
      falsy, the query holds `target_lang` then `text`, and `source_lang`
      after them exactly when one was given and is not empty. */
  function BuildRequest(options: TranslateOptions): (r: Request)
    ensures r.host != [] && r.port != 0
    ensures r.host == (if options.host.Some? && options.host.value != [] then options.host.value else Defaults.Host)
    ensures r.port == (if options.port.Some? && options.port.value != 0 then options.port.value else Defaults.Port)
    ensures |r.query| >= 2 && r.query[0] == ("target_lang", options.target_lang) && r.query[1] == ("text", options.text)
    ensures |r.query| == 3 <==> options.source_lang.Some? && options.source_lang.value != []
    ensures |r.query| == 2 || |r.query| == 3
    ensures |r.query| == 3 ==> r.query[2] == ("source_lang", options.source_lang.value)
  {
    var host := if options.host.Some? && options.host.value != [] then options.host.value else Defaults.Host;
    var port := if options.port.Some? && options.port.value != 0 then options.port.value else Defaults.Port;
    var params := [("target_lang", options.target_lang), ("text", options.text)];
    if options.source_lang.Some? && options.source_lang.value != [] then
      assert params[0].0 != "source_lang" by { assert "target_lang"[0] != "source_lang"[0]; }
      assert params[1].0 != "source_lang" by { assert |"text"| != |"source_lang"|; }
      assert Lookup(params[1..], "source_lang") == Lookup([], "source_lang") by { assert params[1..][1..] == []; }
      assert Lookup(params, "source_lang").None?;
      SetParamSpec(params, "source_lang", options.source_lang.value);
      Request(host, port, SetParam(params, "source_lang", options.source_lang.value))
    else
      Request(host, port, params)
  }

  /** One parameter as it appears in the query: `name=value`, both encoded. */
  function EncodedPair(p: Param, encode: string -> string): string {
    encode(p.0) + "=" + encode(p.1)
  }

  /** The `application/x-www-form-urlencoded` serialisation of the parameters
      (section 5.2 of the WHATWG URL Standard), with `encode` standing for
      the percent-encoding of one name or value. */
  function QueryString(params: seq<Param>, encode: string -> string): string {
    Join(seq(|params|, k requires 0 <= k < |params| => EncodedPair(params[k], encode)), "&")
  }

  /** `http://{host}:{port}/translate?{query}`. */
  function RequestUrl(r: Request, encode: string -> string): string {
    "http://" + r.host + ":" + IntToString(r.port) + "/translate?" + QueryString(r.query, encode)
  }

  /** For a host free of `:` and `/`, the address reads back: the part
      after `http://` and before the first `/` splits at `:` into the host
      and the decimal port. */
  lemma RequestUrlReadsBack(r: Request, encode: string -> string)
    requires r.port > 0 && ':' !in r.host && '/' !in r.host
    ensures StartsWith(RequestUrl(r, encode), "http://")
    ensures var authority := Split(RequestUrl(r, encode)[7..], "/")[0];
      Split(authority, ":") == [r.host, NatToString(r.port)] &&
      ParseDecimal(Split(authority, ":")[1]) == Some(r.port)
  {
    var u := RequestUrl(r, encode);
    var digits := NatToString(r.port);
    assert ':' !in digits && '/' !in digits by {
      forall i | 0 <= i < |digits| ensures digits[i] != ':' && digits[i] != '/' {
        assert IsDigit(digits[i]);
      }
    }
    var authority := r.host + ":" + digits;
    var path := "translate?" + QueryString(r.query, encode);
    assert u == "http://" + (authority + "/" + path);
    assert u[7..] == authority + "/" + path;
    assert '/' !in authority;
    SplitFront(authority, '/', path);
    SplitFront(r.host, ':', digits);
    SplitWhole(digits, ':');
    ParseNatToString(r.port);
  }

  /** When the encoder never produces `&` or `=` (form encoding escapes both),
      the query splits back into its parameters, in order: each piece
      between `&` is one encoded name and value around one `=`. */
  lemma QueryStringSplits(params: seq<Param>, encode: string -> string)
    requires |params| >= 1
    requires forall s :: '&' !in encode(s) && '=' !in encode(s)
    ensures |Split(QueryString(params, encode), "&")| == |params|
    ensures forall k :: 0 <= k < |params| ==>
      Split(Split(QueryString(params, encode), "&")[k], "=") == [encode(params[k].0), encode(params[k].1)]
  {
    var pieces := seq(|params|, k requires 0 <= k < |params| => EncodedPair(params[k], encode));
    forall p | p in pieces ensures '&' !in p {
      var k :| 0 <= k < |pieces| && pieces[k] == p;
      assert '&' !in encode(params[k].0) && '&' !in encode(params[k].1);
    }
    SplitJoin(pieces, '&');
    forall k | 0 <= k < |params|
      ensures Split(pieces[k], "=") == [encode(params[k].0), encode(params[k].1)]
    {
      SplitFront(encode(params[k].0), '=', encode(params[k].1));
      SplitWhole(encode(params[k].1), '=');
    }
  }

  /** A JSON value, as `res.json()` returns it. */
  datatype Json =
    | JNull
    | JBool(b: bool)
    | JNumber(n: real)
    | JString(s: string)
    | JArray(items: seq<Json>)
    | JObject(fields: map<string, Json>)

  /** The reply of the service once it passed the shape check. */
  datatype TranslationResult = TranslationResult(
    target_lang: string,
    source_lang: Option<string>,         // null in the reply when absent
    detected_langs: Option<seq<string>>, // may be missing from the reply
    translated: seq<string>,
    translation_time: real)

  /** Which field of the reply failed the shape check. */
  datatype ProtocolError = NotAnObject | BadField(name: string)

  /** The strings of a JSON array of strings. */
  function Strings(j: Json): (r: Option<seq<string>>)
    ensures r.Some? <==> j.JArray? && forall k :: 0 <= k < |j.items| ==> j.items[k].JString?
    ensures r.Some? ==> |r.value| == |j.items| && forall k :: 0 <= k < |j.items| ==> j.items[k] == JString(r.value[k])
  {
    if j.JArray? && forall k :: 0 <= k < |j.items| ==> j.items[k].JString?
    then Some(seq(|j.items|, k requires 0 <= k < |j.items| => j.items[k].s))
    else None
  }

  /** The JSON array of the given strings. */
  function StringArray(xs: seq<string>): Json {
    JArray(seq(|xs|, k requires 0 <= k < |xs| => JString(xs[k])))
  }

  /** The shape check of client.ts: `target_lang` a string, `source_lang` a
      string or null, `detected_langs` missing or an array of strings,
      `translated` an array of strings, `translation_time` a number; fields
      are checked in that order and the first bad one is reported. */
  function ReadResponse(j: Json): Result<TranslationResult, ProtocolError> {
    if !j.JObject? then Failure(NotAnObject)
    else
      var f := j.fields;
      if !("target_lang" in f && f["target_lang"].JString?) then Failure(BadField("target_lang"))
      else if !("source_lang" in f && (f["source_lang"].JString? || f["source_lang"].JNull?)) then Failure(BadField("source_lang"))
      else if "detected_langs" in f && Strings(f["detected_langs"]).None? then Failure(BadField("detected_langs"))
      else if !("translated" in f && Strings(f["translated"]).Some?) then Failure(BadField("translated"))
      else if !("translation_time" in f && f["translation_time"].JNumber?) then Failure(BadField("translation_time"))
      else
        Success(TranslationResult(
          f["target_lang"].s,
          if f["source_lang"].JString? then Some(f["source_lang"].s) else None,
          if "detected_langs" in f then Strings(f["detected_langs"]) else None,
          Strings(f["translated"]).value,
          f["translation_time"].n))
  }

  /** The fields a reply carrying `t` has. */
  function Render(t: TranslationResult): Json {
    var fields := map[
      "target_lang" := JString(t.target_lang),
      "source_lang" := (if t.source_lang.Some? then JString(t.source_lang.value) else JNull),
      "translated" := StringArray(t.translated),
      "translation_time" := JNumber(t.translation_time)];
    JObject(if t.detected_langs.Some? then fields["detected_langs" := StringArray(t.detected_langs.value)] else fields)
  }

  /** `j` is an object that holds every field of `Render(t)` with the same
      value, and no `detected_langs` when `t` has none. */
  ghost predicate Carries(j: Json, t: TranslationResult) {
    && j.JObject?
    && (forall name :: name in Render(t).fields ==> name in j.fields && j.fields[name] == Render(t).fields[name])
    && (t.detected_langs.None? ==> "detected_langs" !in j.fields)
  }

  /** The shape check accepts exactly the replies that carry a result, and
      then returns that result. */
  lemma ReadResponseExact(j: Json, t: TranslationResult)
    ensures ReadResponse(j) == Success(t) <==> Carries(j, t)
  {
    if ReadResponse(j) == Success(t) {
      AcceptedCarries(j, t);
    }
    if Carries(j, t) {
      CarriedAccepted(j, t);
    }
  }

  /** A reply the shape check accepts carries the result it returns. */
  lemma AcceptedCarries(j: Json, t: TranslationResult)
    requires ReadResponse(j) == Success(t)
    ensures Carries(j, t)
  {
    var f := j.fields;
    StringsDetermine(f["translated"], t.translated);
    if t.detected_langs.Some? {
      StringsDetermine(f["detected_langs"], t.detected_langs.value);
    }
    var r := Render(t).fields;
    assert r["target_lang"] == f["target_lang"];
    assert r["source_lang"] == f["source_lang"];
  }

  /** A reply that carries a result passes the shape check with it. */
  lemma CarriedAccepted(j: Json, t: TranslationResult)
    requires Carries(j, t)
    ensures ReadResponse(j) == Success(t)
  {
    var f := j.fields;
    var r := Render(t).fields;
    assert "target_lang" in r && "source_lang" in r && "translated" in r && "translation_time" in r;
    assert f["target_lang"] == JString(t.target_lang);
    assert f["translated"] == StringArray(t.translated);
    StringsRoundTrip(t.translated);
    assert f["translation_time"] == JNumber(t.translation_time);
    if t.detected_langs.Some? {
      assert "detected_langs" in r;
      assert f["detected_langs"] == StringArray(t.detected_langs.value);
      StringsRoundTrip(t.detected_langs.value);
    }
  }

  /** Reading a rendered result gives it back. */
  lemma ReadRender(t: TranslationResult)
    ensures ReadResponse(Render(t)) == Success(t)
  {
    ReadResponseExact(Render(t), t);
  }

  lemma StringsRoundTrip(xs: seq<string>)
    ensures Strings(StringArray(xs)) == Some(xs)
  {
    var j := StringArray(xs);
    assert seq(|j.items|, k requires 0 <= k < |j.items| => j.items[k].s) == xs;
  }

  lemma StringsDetermine(j: Json, xs: seq<string>)
    requires Strings(j) == Some(xs)
    ensures j == StringArray(xs)
  {
    assert j.items == StringArray(xs).items;
  }

  /** `translate`: the first string of `translated` in the reply to the
      request; None when that array is empty (`translated[0]` is then
      `undefined`). */
  function Translate(options: TranslateOptions, encode: string -> string, server: string -> Json): (r: Result<Option<string>, ProtocolError>)
    ensures var reply := ReadResponse(server(RequestUrl(BuildRequest(options), encode)));
      && (r.Failure? <==> reply.Failure?)
      && (r.Success? ==> (r.value.Some? <==> |reply.value.translated| > 0))
      && (r.Success? && r.value.Some? ==> r.value.value == reply.value.translated[0])
  {
    match ReadResponse(server(RequestUrl(BuildRequest(options), encode)))
    case Failure(e) => Failure(e)
    case Success(t) => Success(if |t.translated| > 0 then Some(t.translated[0]) else None)
  }

  /** A service answering with a result whose `translated` is not empty makes
      `translate` return its first string. */
  lemma TranslateReturnsFirst(options: TranslateOptions, encode: string -> string, server: string -> Json, t: TranslationResult)
    requires server(RequestUrl(BuildRequest(options), encode)) == Render(t)
    requires |t.translated| > 0
    ensures Translate(options, encode, server) == Success(Some(t.translated[0]))
  {
    ReadRender(t);
  }

  /** The options `preloadModel` accepts. */
  datatype PreloadOptions = PreloadOptions(target_lang: string, source_lang: string, debug: Option<bool>)

  /** The text `preloadModel` sends. */
  const PreloadText: string := "preload model"

  /** `preloadModel`'s call of `translate`: the fixed text with the given
      languages; debug, host and port are not passed on. */
  function PreloadTranslateOptions(options: PreloadOptions): (t: TranslateOptions)
    ensures t.text == PreloadText && t.target_lang == options.target_lang && t.source_lang == Some(options.source_lang)
    ensures t.host.None? && t.port.None? && t.debug.None?
  {
    TranslateOptions(None, None, PreloadText, options.target_lang, Some(options.source_lang), None)
  }

  /** `preloadModel`: translates the fixed text and drops the result; only
      a failure of the shape check comes back. */
  function Preload(options: PreloadOptions, encode: string -> string, server: string -> Json): (r: Option<ProtocolError>)
    ensures r.Some? <==> Translate(PreloadTranslateOptions(options), encode, server).Failure?
  {
    match Translate(PreloadTranslateOptions(options), encode, server)
    case Failure(e) => Some(e)
    case Success(_) => None
  }

  /** The preload request always goes to the default host and port, whatever
      debug flag it was given. */
  lemma PreloadRequest(options: PreloadOptions)
    ensures var r := BuildRequest(PreloadTranslateOptions(options));
      && r.host == Defaults.Host && r.port == Defaults.Port
      && r.query == [("target_lang", options.target_lang), ("text", PreloadText)] +
                    (if options.source_lang != [] then [("source_lang", options.source_lang)] else [])
  {
    var r := BuildRequest(PreloadTranslateOptions(options));
    if options.source_lang != [] {
      assert r.query == r.query[..2] + [r.query[2]];
    } else {
      assert r.query == r.query[..2];
    }
  }
}
