/** `saveProdAppToken.js`: the pasted production token is trimmed, refused
    when shorter than 100 UTF-16 units, and otherwise stored base64-encoded
    as `EBAY_APP_ACCESS_TOKEN_B64_PROD=<b64>` in the `.env` text. Reading the
    token from the terminal and the file system are outside the model, and
    `Buffer`'s base64 encoder is a function passed in. */
module SaveProdToken {
  import opened Wrappers
  import opened JsText
  import opened EnvFile
  import SaveAppToken

  const ProdKey := "EBAY_APP_ACCESS_TOKEN_B64_PROD"
  const TooShortMessage := "\U{274C} Token too short \U{2014} did not look valid."

  /** What the callback ends with: the message it reports without writing,
      or the text written to `.env`. */
  function SaveProdOutcome(token: string, base64: string -> string, envFile: Option<string>): Result<string, string> {
    var clean := Trim(token);
    if Utf16Length(clean) < 100 then Err(TooShortMessage)
    else Ok(UpsertEnvLine(SaveAppToken.EnvText(envFile), ProdKey, base64(clean)))
  }

  /** The `rl.question` callback: trim, gate, encode, then rewrite `env` in place. */
  method RunSaveProdToken(token: string, base64: string -> string, envFile: Option<string>)
    returns (result: Result<string, string>)
    ensures result == SaveProdOutcome(token, base64, envFile)
  {
    var clean := Trim(token);
    if Utf16Length(clean) < 100 {
      return Err(TooShortMessage);
    }
    var b64 := base64(clean);
    var env := if envFile.Some? then envFile.value else "";
    var line := ProdKey + "=" + b64;
    if FindKeyLine(env, ProdKey).Some? {
      env := ReplaceKeyLine(env, ProdKey, line);
    } else {
      env := TrimEnd(env) + "\n" + line + "\n";
    }
    return Ok(env);
  }

  /** Surrounding whitespace plays no part: neither in the length gate nor in
      what is encoded. */
  lemma {:induction false} ProdIgnoresSurroundingSpace(token: string, base64: string -> string, envFile: Option<string>)
    ensures SaveProdOutcome(Trim(token), base64, envFile) == SaveProdOutcome(token, base64, envFile)
    ensures SaveProdOutcome(token, base64, envFile).Err? <==> Utf16Length(Trim(token)) < 100
  {
    var a := TrimSlice(token);
    TrimFixed(Trim(token));
  }

  /** The characters base64 produces. */
  predicate Base64Text(s: string) {
    forall i :: 0 <= i < |s| ==> IsUpper(s[i]) || IsLower(s[i]) || IsDigit(s[i]) || s[i] == '+' || s[i] == '/' || s[i] == '='
  }

  /** After a successful run the text holds `EBAY_APP_ACCESS_TOKEN_B64_PROD=<b64>`
      as a whole line, the value being the encoding of the trimmed token. */
  lemma {:induction false} ProdWritesLine(token: string, base64: string -> string, envFile: Option<string>)
    requires Base64Text(base64(Trim(token)))
    requires SaveProdOutcome(token, base64, envFile).Ok?
    ensures HasLine(SaveProdOutcome(token, base64, envFile).value, ProdKey + "=" + base64(Trim(token)))
  {
    var b := base64(Trim(token));
    Base64Writable(b);
    assert SaveProdOutcome(token, base64, envFile).value == UpsertEnvLine(SaveAppToken.EnvText(envFile), ProdKey, b);
    UpsertHasLine(SaveAppToken.EnvText(envFile), ProdKey, b);
  }

  /** Base64 text is written verbatim after the key: no line break, no `$`. */
  lemma {:induction false} Base64Writable(b: string)
    requires Base64Text(b)
    ensures Writable(ProdKey, b)
  {
    assert OneLine(ProdKey) && NoDollar(ProdKey);
    assert OneLine(b) && NoDollar(b);
  }

  /** Only the first `EBAY_APP_ACCESS_TOKEN_B64_PROD=` line is rewritten, up to
      its line end; with none, the line is appended after `trimEnd()`. */
  lemma {:induction false} ProdEdits(b: string, env: string)
    requires Base64Text(b)
    ensures FindKeyLine(env, ProdKey).Some? ==>
      var p := FindKeyLine(env, ProdKey).value;
      var e := LineEnd(env, p + |ProdKey| + 1);
      UpsertEnvLine(env, ProdKey, b) == env[..p] + (ProdKey + "=" + b) + env[e..]
    ensures FindKeyLine(env, ProdKey).None? ==>
      UpsertEnvLine(env, ProdKey, b) == TrimEnd(env) + "\n" + (ProdKey + "=" + b) + "\n"
  {
    Base64Writable(b);
    if FindKeyLine(env, ProdKey).Some? {
      UpsertReplacesFirst(env, ProdKey, b);
    }
  }

  /** The two scripts never touch each other's line, although one key is a
      prefix of the other: the line either one rewrites does not start with
      the other key followed by `=`. */
  lemma {:induction false} KeysKeepApart(env: string)
    ensures FindKeyLine(env, ProdKey).Some? ==> !KeyLineAt(env, SaveAppToken.AppKey, FindKeyLine(env, ProdKey).value)
    ensures FindKeyLine(env, SaveAppToken.AppKey).Some? ==> !KeyLineAt(env, ProdKey, FindKeyLine(env, SaveAppToken.AppKey).value)
  {
    assert SaveAppToken.AppKey != ProdKey;
    if FindKeyLine(env, ProdKey).Some? {
      KeyLinesDistinct(env, ProdKey, SaveAppToken.AppKey, FindKeyLine(env, ProdKey).value);
    }
    if FindKeyLine(env, SaveAppToken.AppKey).Some? {
      KeyLinesDistinct(env, SaveAppToken.AppKey, ProdKey, FindKeyLine(env, SaveAppToken.AppKey).value);
    }
  }
}
