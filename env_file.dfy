/** The `.env` update both token scripts perform: the first line that starts
    with `KEY=` is replaced by `KEY=value` (through `String.prototype.replace`
    with the regular expression `/^KEY=.*$/m`), and when there is no such line
    the text loses its trailing whitespace and gets `"\n" + KEY=value + "\n"`
    appended. The file itself is a string here; reading and writing it are not
    modelled. */
module EnvFile {
  import opened Wrappers
  import opened JsText

  /** No line terminator: the text fits on one line. */
  predicate OneLine(s: string) {
    forall i :: 0 <= i < |s| ==> !IsLineTerminator(s[i])
  }

  predicate NoDollar(s: string) {
    forall i :: 0 <= i < |s| ==> s[i] != '$'
  }

  /** `^` under the `m` flag: the start of the text or just after a line terminator. */
  predicate LineStart(env: string, p: nat) {
    p == 0 || (p <= |env| && IsLineTerminator(env[p - 1]))
  }

  /** A line starting with `KEY=` begins at `p`. */
  predicate KeyLineAt(env: string, key: string, p: nat) {
    && LineStart(env, p)
    && p + |key| + 1 <= |env|
    && env[p..p + |key| + 1] == key + "="
  }

  /** `.*$` under the `m` flag, from `k`: the first line terminator, or the end. */
  function LineEnd(env: string, k: nat): (e: nat)
    requires k <= |env|
    decreases |env| - k
    ensures k <= e <= |env|
    ensures forall m :: k <= m < e ==> !IsLineTerminator(env[m])
    ensures e == |env| || IsLineTerminator(env[e])
  {
    if k == |env| || IsLineTerminator(env[k]) then k else LineEnd(env, k + 1)
  }

  /** The first `KEY=` line at or after `i`: where the regular expression matches. */
  function FirstKeyLineFrom(env: string, key: string, i: nat): (r: Option<nat>)
    requires i <= |env|
    decreases |env| - i
    ensures r.Some? ==> i <= r.value <= |env| && KeyLineAt(env, key, r.value)
    ensures r.Some? ==> forall q :: i <= q < r.value ==> !KeyLineAt(env, key, q)
    ensures r.None? ==> forall q :: i <= q ==> !KeyLineAt(env, key, q)
  {
    if KeyLineAt(env, key, i) then Some(i)
    else if i == |env| then None
    else FirstKeyLineFrom(env, key, i + 1)
  }

  function FindKeyLine(env: string, key: string): Option<nat> {
    FirstKeyLineFrom(env, key, 0)
  }

  /** The replacement string of `String.prototype.replace`: `$$` is a dollar,
      `$&` the matched text, `` $` `` the text before the match and `$'` the
      text after it; the pattern has no capture groups, so `$1`, `$<` and any
      other `$` stay as written. */
  function Substitute(rep: string, matched: string, before: string, after: string): string
    decreases |rep|
  {
    if rep == [] then []
    else if rep[0] == '$' && |rep| >= 2 && rep[1] == '$' then "$" + Substitute(rep[2..], matched, before, after)
    else if rep[0] == '$' && |rep| >= 2 && rep[1] == '&' then matched + Substitute(rep[2..], matched, before, after)
    else if rep[0] == '$' && |rep| >= 2 && rep[1] == '`' then before + Substitute(rep[2..], matched, before, after)
    else if rep[0] == '$' && |rep| >= 2 && rep[1] == '\'' then after + Substitute(rep[2..], matched, before, after)
    else [rep[0]] + Substitute(rep[1..], matched, before, after)
  }

  /** A replacement without `$` is inserted literally. */
  lemma {:induction false} SubstituteLiteral(rep: string, matched: string, before: string, after: string)
    requires NoDollar(rep)
    ensures Substitute(rep, matched, before, after) == rep
  {
    if rep != [] {
      SubstituteLiteral(rep[1..], matched, before, after);
    }
  }

  /** `env.replace(/^KEY=.*$/m, rep)`: only the first matching line is replaced. */
  function ReplaceKeyLine(env: string, key: string, rep: string): string {
    match FindKeyLine(env, key)
    case None => env
    case Some(p) =>
      var e := LineEnd(env, p + |key| + 1);
      env[..p] + Substitute(rep, env[p..e], env[..p], env[e..]) + env[e..]
  }

  /** The upsert: replace the first `KEY=` line, or append the line after `trimEnd()`. */
  function UpsertEnvLine(env: string, key: string, value: string): string {
    var line := key + "=" + value;
    if FindKeyLine(env, key).Some? then ReplaceKeyLine(env, key, line)
    else TrimEnd(env) + "\n" + line + "\n"
  }

  /** `line` is a whole line of `text`, starting at `p`. */
  predicate LineAt(text: string, line: string, p: nat) {
    && LineStart(text, p)
    && p + |line| <= |text|
    && text[p..p + |line|] == line
    && (p + |line| == |text| || IsLineTerminator(text[p + |line|]))
  }

  predicate HasLine(text: string, line: string) {
    exists p: nat :: p <= |text| && LineAt(text, line, p)
  }

  /** What the key and value must be for the upsert to write the line verbatim. */
  predicate Writable(key: string, value: string) {
    key != [] && OneLine(key) && OneLine(value) && NoDollar(key) && NoDollar(value)
  }

  lemma {:induction false} WritableLine(key: string, value: string)
    requires Writable(key, value)
    ensures OneLine(key + "=" + value) && NoDollar(key + "=" + value)
    ensures OneLine(key + "=")
  {
    var line := key + "=" + value;
    forall i | 0 <= i < |line| ensures !IsLineTerminator(line[i]) && line[i] != '$' {
      if i < |key| {
        assert line[i] == key[i];
      } else if i > |key| {
        assert line[i] == value[i - |key| - 1];
      }
    }
    assert (key + "=") == line[..|key| + 1];
  }

  /** When a `KEY=` line exists, the text before it and the text from its line
      end on are kept, and the line itself becomes `KEY=value`. */
  lemma {:induction false} UpsertReplacesFirst(env: string, key: string, value: string)
    requires Writable(key, value)
    requires FindKeyLine(env, key).Some?
    ensures
      var p := FindKeyLine(env, key).value;
      var e := LineEnd(env, p + |key| + 1);
      UpsertEnvLine(env, key, value) == env[..p] + (key + "=" + value) + env[e..]
  {
    var line := key + "=" + value;
    var p := FindKeyLine(env, key).value;
    var e := LineEnd(env, p + |key| + 1);
    assert NoDollar(line) by {
      WritableLine(key, value);
    }
    assert UpsertEnvLine(env, key, value) == ReplaceKeyLine(env, key, line);
    SubstituteLiteral(line, env[p..e], env[..p], env[e..]);
  }

  /** The text that is replaced is one whole line: from the start of the
      first `KEY=` line up to, not including, its line terminator. */
  lemma {:induction false} ReplacedSpanIsOneLine(env: string, key: string)
    requires key != [] && OneLine(key)
    requires FindKeyLine(env, key).Some?
    ensures
      var p := FindKeyLine(env, key).value;
      OneLine(env[p..LineEnd(env, p + |key| + 1)])
  {
    var p := FindKeyLine(env, key).value;
    var e := LineEnd(env, p + |key| + 1);
    forall i | 0 <= i < e - p ensures !IsLineTerminator(env[p..e][i]) {
      if i <= |key| {
        KeyLineChar(env, key, p, i);
      }
    }
  }

  /** With no `KEY=` line, the text is trimmed at the end and the new line appended. */
  lemma {:induction false} UpsertAppends(env: string, key: string, value: string)
    requires FindKeyLine(env, key).None?
    ensures UpsertEnvLine(env, key, value) == TrimEnd(env) + "\n" + (key + "=" + value) + "\n"
    ensures env == [] ==> UpsertEnvLine(env, key, value) == "\n" + (key + "=" + value) + "\n"
  {
  }

  /** After the upsert the text holds `KEY=value` as a whole line. */
  lemma {:induction false} UpsertHasLine(env: string, key: string, value: string)
    requires Writable(key, value)
    ensures HasLine(UpsertEnvLine(env, key, value), key + "=" + value)
  {
    var line := key + "=" + value;
    var r := UpsertEnvLine(env, key, value);
    WritableLine(key, value);
    if FindKeyLine(env, key).Some? {
      var p := FindKeyLine(env, key).value;
      var e := LineEnd(env, p + |key| + 1);
      UpsertReplacesFirst(env, key, value);
      assert r[p..p + |line|] == line;
      if p > 0 {
        assert r[p - 1] == env[p - 1];
      }
      if p + |line| < |r| {
        assert r[p + |line|] == env[e];
      }
      assert LineAt(r, line, p);
    } else {
      var t := TrimEnd(env);
      var p := |t| + 1;
      assert r == t + "\n" + line + "\n";
      assert r[p - 1] == '\n';
      assert r[p..p + |line|] == line;
      assert r[p + |line|] == '\n';
      assert LineAt(r, line, p);
    }
  }

  /** Texts that agree up to `n` have the same `KEY=` lines wholly inside that prefix. */
  lemma {:induction false} KeyLineAgree(a: string, b: string, key: string, n: nat, q: nat)
    requires n <= |a| && n <= |b| && a[..n] == b[..n]
    requires q + |key| + 1 <= n
    ensures KeyLineAt(a, key, q) <==> KeyLineAt(b, key, q)
  {
    assert a[q..q + |key| + 1] == a[..n][q..q + |key| + 1];
    assert b[q..q + |key| + 1] == b[..n][q..q + |key| + 1];
    if q > 0 {
      assert a[q - 1] == a[..n][q - 1];
      assert b[q - 1] == b[..n][q - 1];
    }
  }

  /** A `KEY=` line cannot span a line terminator at position `t`. */
  lemma {:induction false} KeyLineNotAcross(r: string, key: string, q: nat, t: nat)
    requires OneLine(key + "=")
    requires q <= t < q + |key| + 1 && t < |r| && IsLineTerminator(r[t])
    ensures !KeyLineAt(r, key, q)
  {
  }

  /** In the replace case the new text's first `KEY=` line is the written one. */
  lemma {:induction false} FirstKeyLineAfterReplace(env: string, key: string, value: string)
    requires Writable(key, value)
    requires FindKeyLine(env, key).Some?
    ensures
      var p := FindKeyLine(env, key).value;
      var r := UpsertEnvLine(env, key, value);
      FindKeyLine(r, key) == Some(p) && LineEnd(r, p + |key| + 1) == p + |key + "=" + value|
  {
    var p := FindKeyLine(env, key).value;
    UpsertReplacesFirst(env, key, value);
    WritableLine(key, value);
    SplicedFirst(env, key, key + "=" + value, p, LineEnd(env, p + |key| + 1));
  }

  /** A `KEY=` line put in place of the first one, up to its line end, is the
      new first one and ends where it ends. */
  lemma {:induction false} SplicedFirst(env: string, key: string, line: string, p: nat, e: nat)
    requires FindKeyLine(env, key) == Some(p) && p <= e <= |env| && (e == |env| || IsLineTerminator(env[e]))
    requires OneLine(line) && |key| + 1 <= |line| && line[..|key| + 1] == key + "="
    ensures FindKeyLine(env[..p] + line + env[e..], key) == Some(p)
    ensures LineEnd(env[..p] + line + env[e..], p + |key| + 1) == p + |line|
  {
    SpliceKeepsFirst(env, key, line, p, e);
    SpliceLineEnd(env, line, p, e, |key| + 1);
  }

  /** Putting a `KEY=` line in place of the first one leaves it the first one. */
  lemma {:induction false} SpliceKeepsFirst(env: string, key: string, line: string, p: nat, e: nat)
    requires FindKeyLine(env, key) == Some(p) && p <= e <= |env|
    requires |key| + 1 <= |line| && line[..|key| + 1] == key + "="
    ensures FindKeyLine(env[..p] + line + env[e..], key) == Some(p)
  {
    var r := env[..p] + line + env[e..];
    var n := p + |key| + 1;
    assert r[..n] == env[..n] by {
      assert r[..p] == env[..p];
      assert r[p..n] == line[..|key| + 1] == env[p..n];
    }
    forall q | 0 <= q < p ensures !KeyLineAt(r, key, q) {
      KeyLineAgree(r, env, key, n, q);
    }
    KeyLineAgree(r, env, key, n, p);
    FirstKeyLineSkips(r, key, 0, p);
  }

  /** A line without terminators put before a line end ends where it ends. */
  lemma {:induction false} SpliceLineEnd(env: string, line: string, p: nat, e: nat, k: nat)
    requires p <= e <= |env| && (e == |env| || IsLineTerminator(env[e]))
    requires OneLine(line) && k <= |line|
    ensures LineEnd(env[..p] + line + env[e..], p + k) == p + |line|
  {
    var r := env[..p] + line + env[e..];
    var m := p + |line|;
    forall j | p + k <= j < m ensures !IsLineTerminator(r[j]) {
      assert r[j] == line[j - p];
    }
    if m < |r| {
      assert r[m] == env[e];
    }
    LineEndIs(r, p + k, m);
  }

  /** The search finds `p` when no `KEY=` line precedes it. */
  lemma {:induction false} FirstKeyLineSkips(r: string, key: string, i: nat, p: nat)
    requires i <= p <= |r| && KeyLineAt(r, key, p)
    requires forall q :: i <= q < p ==> !KeyLineAt(r, key, q)
    decreases p - i
    ensures FirstKeyLineFrom(r, key, i) == Some(p)
  {
    if i < p {
      FirstKeyLineSkips(r, key, i + 1, p);
    }
  }

  lemma {:induction false} LineEndIs(r: string, k: nat, m: nat)
    requires k <= m <= |r|
    requires forall j :: k <= j < m ==> !IsLineTerminator(r[j])
    requires m == |r| || IsLineTerminator(r[m])
    decreases m - k
    ensures LineEnd(r, k) == m
  {
    if k < m {
      LineEndIs(r, k + 1, m);
    }
  }

  /** In the append case the new text's first `KEY=` line is the appended one. */
  lemma {:induction false} FirstKeyLineAfterAppend(env: string, key: string, value: string)
    requires Writable(key, value)
    requires FindKeyLine(env, key).None?
    ensures
      var p := |TrimEnd(env)| + 1;
      var r := UpsertEnvLine(env, key, value);
      FindKeyLine(r, key) == Some(p) && LineEnd(r, p + |key| + 1) == p + |key + "=" + value|
  {
    var line := key + "=" + value;
    var t := TrimEnd(env);
    assert OneLine(line) && OneLine(key + "=") && line[..|key| + 1] == key + "=" by {
      WritableLine(key, value);
    }
    AppendedFirst(env, |t|, key, line);
    AppendedLineEnd(t, line, |key| + 1);
  }

  /** With no `KEY=` line in `env`, the one after a prefix of `env` and a
      newline is the first. */
  lemma {:induction false} AppendedFirst(env: string, n: nat, key: string, line: string)
    requires n <= |env| && FindKeyLine(env, key).None?
    requires OneLine(key + "=")
    requires |key| + 1 <= |line| && line[..|key| + 1] == key + "="
    ensures FindKeyLine(env[..n] + "\n" + line + "\n", key) == Some(n + 1)
  {
    var t := env[..n];
    var r := t + "\n" + line + "\n";
    assert r[..n] == env[..n];
    forall q | 0 <= q < n + 1 ensures !KeyLineAt(r, key, q) {
      if q + |key| + 1 <= n {
        KeyLineAgree(r, env, key, n, q);
      } else {
        KeyLineNotAcross(r, key, q, n);
      }
    }
    assert r[n + 1..n + 1 + |key| + 1] == line[..|key| + 1];
    FirstKeyLineSkips(r, key, 0, n + 1);
  }

  lemma {:induction false} AppendedLineEnd(t: string, line: string, k: nat)
    requires OneLine(line) && k <= |line|
    ensures LineEnd(t + "\n" + line + "\n", |t| + 1 + k) == |t| + 1 + |line|
  {
    var r := t + "\n" + line + "\n";
    var p := |t| + 1;
    forall j | p + k <= j < p + |line| ensures !IsLineTerminator(r[j]) {
      assert r[j] == line[j - p];
    }
    LineEndIs(r, p + k, p + |line|);
  }

  /** Writing the same line twice changes nothing the second time. */
  lemma {:induction false} UpsertIdempotent(env: string, key: string, value: string)
    requires Writable(key, value)
    ensures UpsertEnvLine(UpsertEnvLine(env, key, value), key, value) == UpsertEnvLine(env, key, value)
  {
    var line := key + "=" + value;
    var r := UpsertEnvLine(env, key, value);
    var p: nat := if FindKeyLine(env, key).Some? then FindKeyLine(env, key).value else |TrimEnd(env)| + 1;
    assert FindKeyLine(r, key) == Some(p) && LineEnd(r, p + |key| + 1) == p + |line| by {
      if FindKeyLine(env, key).Some? {
        FirstKeyLineAfterReplace(env, key, value);
      } else {
        FirstKeyLineAfterAppend(env, key, value);
      }
    }
    assert p + |line| <= |r| && r[p..p + |line|] == line by {
      UpsertHasLineAt(env, key, value, p);
    }
    RewriteOwnLine(r, key, value, p);
  }

  /** Upserting the line a text already holds as its first `KEY=` line keeps the text. */
  lemma {:induction false} RewriteOwnLine(r: string, key: string, value: string, p: nat)
    requires Writable(key, value)
    requires FindKeyLine(r, key) == Some(p)
    requires LineEnd(r, p + |key| + 1) == p + |key + "=" + value|
    requires r[p..p + |key + "=" + value|] == key + "=" + value
    ensures UpsertEnvLine(r, key, value) == r
  {
    var n := |key + "=" + value|;
    UpsertReplacesFirst(r, key, value);
    SplitAround(r, p, n);
  }

  lemma {:induction false} SplitAround(s: string, p: nat, n: nat)
    requires p + n <= |s|
    ensures s == s[..p] + s[p..p + n] + s[p + n..]
  {
  }

  lemma {:induction false} UpsertHasLineAt(env: string, key: string, value: string, p: nat)
    requires Writable(key, value)
    requires p == if FindKeyLine(env, key).Some? then FindKeyLine(env, key).value else |TrimEnd(env)| + 1
    ensures p + |key + "=" + value| <= |UpsertEnvLine(env, key, value)|
    ensures UpsertEnvLine(env, key, value)[p..p + |key + "=" + value|] == key + "=" + value
  {
    var line := key + "=" + value;
    var r := UpsertEnvLine(env, key, value);
    if FindKeyLine(env, key).Some? {
      UpsertReplacesFirst(env, key, value);
    } else {
      assert r == TrimEnd(env) + "\n" + line + "\n";
    }
  }

  /** The `KEY=` test never mistakes another key's line for this key's: for
      two different keys without `=` in them, no line starts with both. */
  lemma {:induction false} KeyLinesDistinct(env: string, key: string, other: string, p: nat)
    requires key != other
    requires forall i :: 0 <= i < |key| ==> key[i] != '='
    requires forall i :: 0 <= i < |other| ==> other[i] != '='
    ensures !(KeyLineAt(env, key, p) && KeyLineAt(env, other, p))
  {
    if KeyLineAt(env, key, p) && KeyLineAt(env, other, p) {
      if |key| < |other| {
        KeyLineChar(env, key, p, |key|);
        KeyLineChar(env, other, p, |key|);
      } else if |other| < |key| {
        KeyLineChar(env, other, p, |other|);
        KeyLineChar(env, key, p, |other|);
      } else {
        KeyLineText(env, key, p);
        KeyLineText(env, other, p);
      }
    }
  }

  lemma {:induction false} KeyLineChar(env: string, key: string, p: nat, i: nat)
    requires KeyLineAt(env, key, p) && i <= |key|
    ensures env[p + i] == if i < |key| then key[i] else '='
  {
    assert env[p + i] == env[p..p + |key| + 1][i];
  }

  lemma {:induction false} KeyLineText(env: string, key: string, p: nat)
    requires KeyLineAt(env, key, p)
    ensures env[p..p + |key|] == key
  {
    assert env[p..p + |key|] == env[p..p + |key| + 1][..|key|];
  }
}
