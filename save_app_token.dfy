/** `saveAppTokenToEnv.js`: pull the access token out of whatever the OAuth
    client returned, refuse anything that does not look like a token, and
    write `EBAY_APP_ACCESS_TOKEN=<token>` into the `.env` text. The OAuth
    client call, `JSON.parse` and the file system are outside the model:
    the client's answer and the `.env` contents are parameters, and
    `JSON.parse` is a partial function passed in (`None` when it throws). */
module SaveAppToken {
  import opened Wrappers
  import opened JsText
  import opened EnvFile

  const AppKey := "EBAY_APP_ACCESS_TOKEN"
  const InvalidTokenMessage := "Did not receive a valid application access token."

  /** A JavaScript value as far as the script inspects it. Numbers are
      integers here; `NaN` and fractions are not modelled. */
  datatype JsValue =
    | JsUndefined
    | JsNull
    | JsBool(b: bool)
    | JsNumber(n: int)
    | JsString(s: string)
    | JsArray(items: seq<JsValue>)
    | JsObject(fields: map<string, JsValue>)

  predicate Truthy(v: JsValue) {
    match v
    case JsUndefined => false
    case JsNull => false
    case JsBool(b) => b
    case JsNumber(n) => n != 0
    case JsString(s) => s != []
    case JsArray(_) => true
    case JsObject(_) => true
  }

  /** `typeof v === 'object'`. */
  predicate IsObjectType(v: JsValue) {
    v.JsNull? || v.JsArray? || v.JsObject?
  }

  /** Property access `v.name`; reading a property of `null` or `undefined` throws, so it is excluded. */
  function Get(v: JsValue, name: string): JsValue
    requires !v.JsNull? && !v.JsUndefined?
  {
    match v
    case JsObject(fields) => if name in fields then fields[name] else JsUndefined
    case JsString(s) => if name == "length" then JsNumber(Utf16Length(s)) else JsUndefined
    case JsArray(items) => if name == "length" then JsNumber(|items|) else JsUndefined
    case _ => JsUndefined
  }

  /** `v && v.name` as a value: falsy `v` short-circuits (to `undefined` here,
      which is as falsy as `v` itself). */
  function Field(v: JsValue, name: string): JsValue {
    if Truthy(v) then Get(v, name) else JsUndefined
  }

  /** `extractAccessToken`: the object's own `access_token`, then the
      `access_token` of the string parsed as JSON, then `body.access_token`,
      then `data.access_token`, else `null`; only truthy fields count. */
  function ExtractAccessToken(resp: JsValue, parse: string -> Option<JsValue>): (r: JsValue)
    ensures r == JsNull || Truthy(r)
  {
    if Truthy(resp) && IsObjectType(resp) && Truthy(Get(resp, "access_token")) then
      Get(resp, "access_token")
    else if resp.JsString? && parse(resp.s).Some? && Truthy(parse(resp.s).value)
         && Truthy(Get(parse(resp.s).value, "access_token")) then
      Get(parse(resp.s).value, "access_token")
    else if Truthy(resp) && Truthy(Get(resp, "body")) && Truthy(Get(Get(resp, "body"), "access_token")) then
      Get(Get(resp, "body"), "access_token")
    else if Truthy(resp) && Truthy(Get(resp, "data")) && Truthy(Get(Get(resp, "data"), "access_token")) then
      Get(Get(resp, "data"), "access_token")
    else
      JsNull
  }

  /** The four places a token may sit, in the order the script looks. */
  function TokenCandidates(resp: JsValue, parse: string -> Option<JsValue>): (c: seq<JsValue>)
    ensures |c| == 4
  {
    [ if IsObjectType(resp) then Field(resp, "access_token") else JsUndefined,
      if resp.JsString? && parse(resp.s).Some? then Field(parse(resp.s).value, "access_token") else JsUndefined,
      Field(Field(resp, "body"), "access_token"),
      Field(Field(resp, "data"), "access_token") ]
  }

  /** The first truthy value of a list, or `null` when there is none. */
  function FirstTruthy(vs: seq<JsValue>): JsValue {
    if vs == [] then JsNull
    else if Truthy(vs[0]) then vs[0]
    else FirstTruthy(vs[1..])
  }

  /** `FirstTruthy` is `null` exactly when no entry is truthy, and otherwise
      an entry all of whose predecessors are falsy. */
  lemma {:induction false} FirstTruthySpec(vs: seq<JsValue>) returns (i: nat)
    ensures FirstTruthy(vs) == JsNull <==> forall j :: 0 <= j < |vs| ==> !Truthy(vs[j])
    ensures FirstTruthy(vs) != JsNull ==>
      i < |vs| && vs[i] == FirstTruthy(vs) && forall j :: 0 <= j < i ==> !Truthy(vs[j])
  {
    if vs == [] || Truthy(vs[0]) {
      i := 0;
    } else {
      var k := FirstTruthySpec(vs[1..]);
      i := k + 1;
      forall j | 1 <= j < |vs| ensures vs[j] == vs[1..][j - 1] {
      }
    }
  }

  /** The chain of `if`s is the first truthy candidate in priority order. */
  lemma {:induction false} ExtractIsFirstTruthy(resp: JsValue, parse: string -> Option<JsValue>)
    ensures ExtractAccessToken(resp, parse) == FirstTruthy(TokenCandidates(resp, parse))
  {
    var c := TokenCandidates(resp, parse);
    FirstTruthyOfFour(c[0], c[1], c[2], c[3]);
    assert c == [c[0], c[1], c[2], c[3]];
  }

  lemma {:induction false} FirstTruthyOfFour(a: JsValue, b: JsValue, c: JsValue, d: JsValue)
    ensures FirstTruthy([a, b, c, d]) ==
      if Truthy(a) then a else if Truthy(b) then b else if Truthy(c) then c else if Truthy(d) then d else JsNull
  {
    assert [d][1..] == [];
    assert FirstTruthy([d]) == if Truthy(d) then d else JsNull;
    assert [c, d][1..] == [d];
    assert FirstTruthy([c, d]) == if Truthy(c) then c else FirstTruthy([d]);
    assert [b, c, d][1..] == [c, d];
    assert FirstTruthy([b, c, d]) == if Truthy(b) then b else FirstTruthy([c, d]);
    assert [a, b, c, d][1..] == [b, c, d];
  }

  /** A string that is not JSON does not make the extraction fail: it yields `null`. */
  lemma {:induction false} ExtractNonJson(s: string, parse: string -> Option<JsValue>)
    requires parse(s).None?
    ensures ExtractAccessToken(JsString(s), parse) == JsNull
  {
  }

  /** The `.length < 100` comparison; `undefined < 100` is false, so a value
      without a `length` passes. A `length` that is neither a number nor
      absent is not modelled and counts as passing. */
  predicate BelowHundred(len: JsValue) {
    len.JsNumber? && len.n < 100
  }

  /** `!accessToken || accessToken.length < 100`. */
  predicate GateRejects(tok: JsValue) {
    !Truthy(tok) || BelowHundred(Get(tok, "length"))
  }

  /** For a string token the gate is exactly "fewer than 100 UTF-16 units". */
  lemma {:induction false} GateOnStrings(s: string)
    ensures GateRejects(JsString(s)) <==> Utf16Length(s) < 100
  {
  }

  /** Decimal digits of a natural number, without leading zeros. */
  function NatString(n: nat): (r: string)
    ensures r != []
    ensures forall i :: 0 <= i < |r| ==> IsDigit(r[i])
    ensures |r| == 1 || r[0] != '0'
  {
    if n < 10 then [('0' as int + n) as char]
    else NatString(n / 10) + [('0' as int + n % 10) as char]
  }

  /** The number a string of decimal digits denotes, read left to right. */
  function DigitsValue(s: string): nat
    requires forall i :: 0 <= i < |s| ==> IsDigit(s[i])
  {
    if s == [] then 0
    else
      assert IsDigit(s[|s| - 1]);
      DigitsValue(s[..|s| - 1]) * 10 + (s[|s| - 1] as int - '0' as int)
  }

  /** `${n}` writes the decimal value of `n`: its digits read back to `n`. */
  lemma {:induction false} NatStringValue(n: nat)
    ensures DigitsValue(NatString(n)) == n
  {
    var r := NatString(n);
    if n >= 10 {
      var p := NatString(n / 10);
      NatStringValue(n / 10);
      assert r[..|r| - 1] == p;
    }
  }

  /** A digit string without a leading zero is `NatString` of its value:
      every number has exactly one such spelling. */
  lemma {:induction false} NatStringOfValue(s: string)
    requires s != [] && forall i :: 0 <= i < |s| ==> IsDigit(s[i])
    requires |s| == 1 || s[0] != '0'
    decreases |s|
    ensures NatString(DigitsValue(s)) == s
  {
    if |s| > 1 {
      var p := s[..|s| - 1];
      assert p[0] == s[0];
      NatStringOfValue(p);
      LeadingDigitValue(p);
      var v := DigitsValue(s);
      assert v / 10 == DigitsValue(p) && v % 10 == s[|s| - 1] as int - '0' as int;
      assert s == p + [s[|s| - 1]];
    }
  }

  /** A digit string that does not start with `0` denotes a positive number. */
  lemma {:induction false} LeadingDigitValue(s: string)
    requires s != [] && forall i :: 0 <= i < |s| ==> IsDigit(s[i])
    requires s[0] != '0'
    decreases |s|
    ensures DigitsValue(s) >= 1
  {
    if |s| > 1 {
      var p := s[..|s| - 1];
      assert p[0] == s[0];
      LeadingDigitValue(p);
    }
  }

  /** `${v}` in a template literal. */
  function ToJsString(v: JsValue): string
    decreases v, 1
  {
    match v
    case JsUndefined => "undefined"
    case JsNull => "null"
    case JsBool(b) => if b then "true" else "false"
    case JsNumber(n) => if n < 0 then "-" + NatString(-n) else NatString(n)
    case JsString(s) => s
    case JsArray(items) => JoinItems(items, v)
    case JsObject(_) => "[object Object]"
  }

  /** `Array.prototype.join(",")`, where `null` and `undefined` elements print as nothing. */
  function JoinItems(items: seq<JsValue>, ghost parent: JsValue): string
    requires forall i :: 0 <= i < |items| ==> items[i] < parent
    decreases parent, 0, |items|
  {
    if items == [] then ""
    else
      var first := if items[0].JsNull? || items[0].JsUndefined? then "" else ToJsString(items[0]);
      if |items| == 1 then first else first + "," + JoinItems(items[1..], parent)
  }

  function EnvText(envFile: Option<string>): string {
    if envFile.Some? then envFile.value else ""
  }

  /** What `run` ends with: the error it throws, or the text written to `.env`. */
  function SaveAppTokenOutcome(resp: JsValue, parse: string -> Option<JsValue>, envFile: Option<string>): Result<string, string> {
    var tok := ExtractAccessToken(resp, parse);
    if GateRejects(tok) then Err(InvalidTokenMessage)
    else Ok(UpsertEnvLine(EnvText(envFile), AppKey, ToJsString(tok)))
  }

  /** `run` after the OAuth call: extract, gate, then rewrite `env` in place. */
  method RunSaveAppToken(resp: JsValue, parse: string -> Option<JsValue>, envFile: Option<string>)
    returns (result: Result<string, string>)
    ensures result == SaveAppTokenOutcome(resp, parse, envFile)
  {
    var accessToken := ExtractAccessToken(resp, parse);
    if !Truthy(accessToken) || BelowHundred(Get(accessToken, "length")) {
      return Err(InvalidTokenMessage);
    }
    var env := if envFile.Some? then envFile.value else "";
    var line := AppKey + "=" + ToJsString(accessToken);
    if FindKeyLine(env, AppKey).Some? {
      env := ReplaceKeyLine(env, AppKey, line);
    } else {
      env := TrimEnd(env) + "\n" + line + "\n";
    }
    return Ok(env);
  }

  /** Nothing is written unless a token was found and it is long enough; a
      string token must have at least 100 UTF-16 units. */
  lemma {:induction false} SaveAppTokenGate(resp: JsValue, parse: string -> Option<JsValue>, envFile: Option<string>)
    ensures ExtractAccessToken(resp, parse) == JsNull ==> SaveAppTokenOutcome(resp, parse, envFile) == Err(InvalidTokenMessage)
    ensures ExtractAccessToken(resp, parse).JsString? ==>
      (SaveAppTokenOutcome(resp, parse, envFile).Ok? <==> Utf16Length(ExtractAccessToken(resp, parse).s) >= 100)
  {
  }

  /** When the token is written, the text holds `EBAY_APP_ACCESS_TOKEN=<token>`
      as a whole line, provided the token is one line and has no `$`. */
  lemma {:induction false} SaveAppTokenWritesLine(resp: JsValue, parse: string -> Option<JsValue>, envFile: Option<string>)
    requires SaveAppTokenOutcome(resp, parse, envFile).Ok?
    requires OneLine(ToJsString(ExtractAccessToken(resp, parse)))
    requires NoDollar(ToJsString(ExtractAccessToken(resp, parse)))
    ensures HasLine(SaveAppTokenOutcome(resp, parse, envFile).value, AppKey + "=" + ToJsString(ExtractAccessToken(resp, parse)))
  {
    UpsertHasLine(EnvText(envFile), AppKey, ToJsString(ExtractAccessToken(resp, parse)));
  }

  /** Only the first `EBAY_APP_ACCESS_TOKEN=` line is rewritten, up to its line
      end; with none, the new line is appended after `trimEnd()`, and a
      missing file gives just the line between two newlines. */
  lemma {:induction false} SaveAppTokenEdits(tok: string, env: string)
    requires OneLine(tok) && NoDollar(tok)
    ensures FindKeyLine(env, AppKey).Some? ==>
      var p := FindKeyLine(env, AppKey).value;
      var e := LineEnd(env, p + |AppKey| + 1);
      UpsertEnvLine(env, AppKey, tok) == env[..p] + (AppKey + "=" + tok) + env[e..]
    ensures FindKeyLine(env, AppKey).None? ==>
      UpsertEnvLine(env, AppKey, tok) == TrimEnd(env) + "\n" + (AppKey + "=" + tok) + "\n"
    ensures UpsertEnvLine("", AppKey, tok) == "\n" + (AppKey + "=" + tok) + "\n"
  {
    assert Writable(AppKey, tok);
    if FindKeyLine(env, AppKey).Some? {
      UpsertReplacesFirst(env, AppKey, tok);
    }
    assert FindKeyLine("", AppKey) == None;
  }
}
