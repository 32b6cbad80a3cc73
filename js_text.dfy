/** The pieces of JavaScript string behaviour that the scripts rely on:
    the class `\s` (which is also what `trim` strips), `\w` and `\d` as
    regular expressions without the `u` flag see them, line terminators,
    `trim`, `trimEnd`, `.replace(/\s+/g, " ")`, ASCII lower-casing and
    `.length`, which counts UTF-16 code units. */
module JsText {

  /** ECMAScript WhiteSpace or LineTerminator: the class `\s`, and what `trim` removes. */
  predicate IsSpace(c: char) {
    c == '\t' || c == '\n' || c == '\U{000B}' || c == '\U{000C}' || c == '\r' || c == ' '
    || c == '\U{00A0}' || c == '\U{1680}' || ('\U{2000}' <= c <= '\U{200A}')
    || c == '\U{2028}' || c == '\U{2029}' || c == '\U{202F}' || c == '\U{205F}'
    || c == '\U{3000}' || c == '\U{FEFF}'
  }

  /** ECMAScript LineTerminator: where `^` and `$` match under the `m` flag, and what `.` refuses. */
  predicate IsLineTerminator(c: char) {
    c == '\n' || c == '\r' || c == '\U{2028}' || c == '\U{2029}'
  }

  predicate IsDigit(c: char) { '0' <= c <= '9' }

  predicate IsUpper(c: char) { 'A' <= c <= 'Z' }

  predicate IsLower(c: char) { 'a' <= c <= 'z' }

  /** `\w` in a regular expression without the `u` flag. */
  predicate IsWordChar(c: char) { IsDigit(c) || IsUpper(c) || IsLower(c) || c == '_' }

  predicate AllSpace(s: string) {
    forall i :: 0 <= i < |s| ==> IsSpace(s[i])
  }

  /** The first position at or after `i` that does not hold a `\s` character. */
  function SpaceRunEnd(s: string, i: nat): (k: nat)
    requires i <= |s|
    decreases |s| - i
    ensures i <= k <= |s|
    ensures forall j :: i <= j < k ==> IsSpace(s[j])
    ensures k == |s| || !IsSpace(s[k])
  {
    if i == |s| || !IsSpace(s[i]) then i else SpaceRunEnd(s, i + 1)
  }

  /** The position after the last character before `j` that is not `\s`. */
  function SpaceRunStart(s: string, j: nat): (k: nat)
    requires j <= |s|
    ensures k <= j
    ensures forall i :: k <= i < j ==> IsSpace(s[i])
    ensures k == 0 || !IsSpace(s[k - 1])
  {
    if j == 0 || !IsSpace(s[j - 1]) then j else SpaceRunStart(s, j - 1)
  }

  /** Leading `\s` characters removed (the first half of `trim`). */
  function TrimStart(s: string): (r: string)
    ensures |r| <= |s| && r == s[|s| - |r|..]
    ensures AllSpace(s[..|s| - |r|])
    ensures r != [] ==> !IsSpace(r[0])
  {
    s[SpaceRunEnd(s, 0)..]
  }

  /** `String.prototype.trimEnd`. */
  function TrimEnd(s: string): (r: string)
    ensures |r| <= |s| && r == s[..|r|]
    ensures AllSpace(s[|r|..])
    ensures r != [] ==> !IsSpace(r[|r| - 1])
  {
    s[..SpaceRunStart(s, |s|)]
  }

  /** `String.prototype.trim`. */
  function Trim(s: string): string {
    TrimEnd(TrimStart(s))
  }

  /** Every `\s` is a plain space and no two stand in a row: the shape `Collapse` produces. */
  predicate SpacesCollapsed(s: string) {
    && (forall i :: 0 <= i < |s| ==> IsSpace(s[i]) ==> s[i] == ' ')
    && (forall i :: 0 < i < |s| ==> !(IsSpace(s[i - 1]) && IsSpace(s[i])))
  }

  /** `.replace(/\s+/g, " ")`: every maximal run of `\s` characters becomes one space. */
  function Collapse(s: string): (r: string)
    decreases |s|
    ensures |r| <= |s|
    ensures r == [] <==> s == []
    ensures SpacesCollapsed(r)
    ensures r != [] ==> (IsSpace(r[0]) <==> IsSpace(s[0]))
    ensures r != [] ==> (IsSpace(r[|r| - 1]) <==> IsSpace(s[|s| - 1]))
  {
    if s == [] then []
    else if IsSpace(s[0]) then
      var rest := TrimStart(s[1..]);
      assert rest != [] ==> s[|s| - 1] == rest[|rest| - 1];
      assert rest == [] ==> IsSpace(s[|s| - 1]) by {
        if rest == [] && |s| > 1 {
          assert s[|s| - 1] == s[1..][..|s| - 1][|s| - 2];
        }
      }
      SpacesCollapsedCons(' ', Collapse(rest));
      [' '] + Collapse(rest)
    else
      SpacesCollapsedCons(s[0], Collapse(s[1..]));
      [s[0]] + Collapse(s[1..])
  }

  /** Collapsing introduces no character other than the plain space. */
  lemma {:induction false} CollapseChars(s: string, p: char -> bool)
    decreases |s|
    requires !p(' ')
    requires forall i :: 0 <= i < |s| ==> !p(s[i])
    ensures forall i :: 0 <= i < |Collapse(s)| ==> !p(Collapse(s)[i])
  {
    if s == [] {
    } else if IsSpace(s[0]) {
      var t := TrimStart(s[1..]);
      SuffixAvoids(s, |s| - |t|, p);
      CollapseChars(t, p);
      assert Collapse(s) == [' '] + Collapse(t);
    } else {
      SuffixAvoids(s, 1, p);
      CollapseChars(s[1..], p);
      assert Collapse(s) == [s[0]] + Collapse(s[1..]);
    }
  }

  lemma {:induction false} SuffixAvoids(s: string, k: nat, p: char -> bool)
    requires k <= |s|
    requires forall i :: 0 <= i < |s| ==> !p(s[i])
    ensures forall i :: 0 <= i < |s[k..]| ==> !p(s[k..][i])
  {
    forall i | 0 <= i < |s[k..]| ensures !p(s[k..][i]) {
      assert s[k..][i] == s[k + i];
    }
  }

  lemma {:induction false} SpacesCollapsedCons(c: char, t: string)
    requires SpacesCollapsed(t)
    requires IsSpace(c) ==> c == ' ' && (t != [] ==> !IsSpace(t[0]))
    ensures SpacesCollapsed([c] + t)
  {
    var s := [c] + t;
    forall i | 0 < i < |s| ensures !(IsSpace(s[i - 1]) && IsSpace(s[i])) {
      if i > 1 {
        assert s[i - 1] == t[i - 2] && s[i] == t[i - 1];
      }
    }
  }

  /** The characters of `s` that are not `\s`, in order. */
  function Visible(s: string): (r: string)
    ensures |r| <= |s|
    ensures forall i :: 0 <= i < |r| ==> !IsSpace(r[i])
  {
    if s == [] then []
    else (if IsSpace(s[0]) then [] else [s[0]]) + Visible(s[1..])
  }

  /** `.toLowerCase()` on ASCII letters; every other character is kept. */
  function LowerChar(c: char): char {
    if IsUpper(c) then (c as int - 'A' as int + 'a' as int) as char else c
  }

  function Lower(s: string): (r: string)
    ensures |r| == |s|
    ensures forall i :: 0 <= i < |s| ==> r[i] == LowerChar(s[i])
  {
    seq(|s|, i requires 0 <= i < |s| => LowerChar(s[i]))
  }

  /** `.length`: a character outside the Basic Multilingual Plane is a surrogate pair. */
  function Utf16Length(s: string): (n: nat)
    ensures |s| <= n <= 2 * |s|
  {
    if s == [] then 0 else (if s[0] as int >= 0x1_0000 then 2 else 1) + Utf16Length(s[1..])
  }

  // ---------------------------------------------------------------------------
  // Lemmas

  lemma {:induction false} VisibleAppend(a: string, b: string)
    ensures Visible(a + b) == Visible(a) + Visible(b)
  {
    if a != [] {
      assert (a + b)[0] == a[0];
      assert (a + b)[1..] == a[1..] + b;
      VisibleAppend(a[1..], b);
    } else {
      assert a + b == b;
    }
  }

  lemma {:induction false} VisibleAllSpace(s: string)
    requires AllSpace(s)
    ensures Visible(s) == []
  {
    if s != [] {
      VisibleAllSpace(s[1..]);
    }
  }

  /** `trim` drops only whitespace: the visible characters survive, in order. */
  lemma {:induction false} TrimVisible(s: string)
    ensures Visible(Trim(s)) == Visible(s)
  {
    TrimStartVisible(s);
    TrimEndVisible(TrimStart(s));
  }

  lemma {:induction false} TrimStartVisible(s: string)
    ensures Visible(TrimStart(s)) == Visible(s)
  {
    var t := TrimStart(s);
    var k := |s| - |t|;
    assert s == s[..k] + t;
    VisibleAppend(s[..k], t);
    VisibleAllSpace(s[..k]);
  }

  lemma {:induction false} TrimEndVisible(s: string)
    ensures Visible(TrimEnd(s)) == Visible(s)
  {
    var u := TrimEnd(s);
    assert s == u + s[|u|..];
    VisibleAppend(u, s[|u|..]);
    VisibleAllSpace(s[|u|..]);
  }

  /** Collapsing whitespace runs keeps every visible character, in order. */
  lemma {:induction false} CollapseVisible(s: string)
    decreases |s|
    ensures Visible(Collapse(s)) == Visible(s)
  {
    if s == [] {
    } else if IsSpace(s[0]) {
      var rest := TrimStart(s[1..]);
      var cut := s[1..][..|s| - 1 - |rest|];
      assert s[1..] == cut + rest;
      VisibleAppend(cut, rest);
      VisibleAllSpace(cut);
      CollapseVisible(rest);
      assert Collapse(s) == [' '] + Collapse(rest);
      VisibleAppend([' '], Collapse(rest));
    } else {
      CollapseVisible(s[1..]);
      assert Collapse(s) == [s[0]] + Collapse(s[1..]);
      VisibleAppend([s[0]], Collapse(s[1..]));
    }
  }

  lemma {:induction false} SpacesCollapsedTail(s: string)
    requires s != [] && SpacesCollapsed(s)
    ensures SpacesCollapsed(s[1..])
    ensures IsSpace(s[0]) ==> s[0] == ' ' && (|s| > 1 ==> !IsSpace(s[1]))
  {
    var t := s[1..];
    forall i | 0 < i < |t| ensures !(IsSpace(t[i - 1]) && IsSpace(t[i])) {
      assert t[i - 1] == s[i] && t[i] == s[i + 1];
    }
    if |s| > 1 {
      assert !(IsSpace(s[0]) && IsSpace(s[1]));
    }
  }

  /** Text already in collapsed shape is its own collapse. */
  lemma {:induction false} CollapseFixed(s: string)
    requires SpacesCollapsed(s)
    ensures Collapse(s) == s
  {
    if s != [] {
      var tail := s[1..];
      SpacesCollapsedTail(s);
      CollapseFixed(tail);
      if IsSpace(s[0]) {
        assert TrimStart(tail) == tail;
        assert Collapse(s) == [' '] + Collapse(tail);
      } else {
        assert Collapse(s) == [s[0]] + Collapse(tail);
      }
      assert s == [s[0]] + tail;
    }
  }

  /** A run of `\s` from `i` that stops at `k` ends at `k`: the contract of
      `SpaceRunEnd` fixes its result. */
  lemma {:induction false} SpaceRunEndIs(s: string, i: nat, k: nat)
    requires i <= k <= |s|
    requires forall j :: i <= j < k ==> IsSpace(s[j])
    requires k == |s| || !IsSpace(s[k])
    ensures SpaceRunEnd(s, i) == k
  {
  }

  /** Leading whitespace followed by text that starts with a visible character is all `trimStart` removes. */
  lemma {:induction false} TrimStartSpaces(x: string, b: string)
    requires AllSpace(x)
    requires b == [] || !IsSpace(b[0])
    ensures TrimStart(x + b) == b
  {
    var s := x + b;
    forall j | 0 <= j < |x| ensures IsSpace(s[j]) {
      assert s[j] == x[j];
    }
    if b != [] {
      assert s[|x|] == b[0];
    }
    SpaceRunEndIs(s, 0, |x|);
    assert s[|x|..] == b;
  }

  /** Once a visible character is reached, what follows is kept by `trimStart`. */
  lemma {:induction false} TrimStartAppend(a: string, b: string)
    requires TrimStart(a) != []
    ensures TrimStart(a + b) == TrimStart(a) + b
  {
    var s := a + b;
    var k := SpaceRunEnd(a, 0);
    forall j | 0 <= j < k ensures IsSpace(s[j]) {
      assert s[j] == a[j];
    }
    assert s[k] == a[k];
    SpaceRunEndIs(s, 0, k);
    assert s[k..] == a[k..] + b;
  }

  /** One step of `Collapse`. */
  lemma {:induction false} CollapseStep(s: string)
    requires s != []
    ensures Collapse(s) == if IsSpace(s[0]) then [' '] + Collapse(TrimStart(s[1..])) else [s[0]] + Collapse(s[1..])
  {
  }

  lemma {:induction false} ConcatAssoc(p: string, q: string, r: string)
    ensures p + (q + r) == (p + q) + r
  {
  }

  /** Text that ends in a visible character collapses on its own: the
      collapse of a concatenation is the concatenation of the collapses. */
  lemma {:induction false} CollapseAppend(a: string, b: string)
    requires a == [] || !IsSpace(a[|a| - 1])
    decreases |a|
    ensures Collapse(a + b) == Collapse(a) + Collapse(b)
  {
    if a == [] {
      assert a + b == b;
    } else if !IsSpace(a[0]) {
      var a' := a[1..];
      assert Collapse(a + b) == [a[0]] + Collapse(a' + b) by {
        assert (a + b)[0] == a[0] && (a + b)[1..] == a' + b;
        CollapseStep(a + b);
      }
      assert Collapse(a) == [a[0]] + Collapse(a') by {
        CollapseStep(a);
      }
      CollapseAppend(a', b);
      ConcatAssoc([a[0]], Collapse(a'), Collapse(b));
    } else {
      var a' := a[1..];
      var t := TrimStart(a');
      assert t != [] && t[|t| - 1] == a[|a| - 1] by {
        assert a'[..|a'|] == a' && a'[|a'| - 1] == a[|a| - 1];
      }
      assert Collapse(a + b) == [' '] + Collapse(t + b) by {
        assert (a + b)[0] == a[0] && (a + b)[1..] == a' + b;
        CollapseStep(a + b);
        TrimStartAppend(a', b);
      }
      assert Collapse(a) == [' '] + Collapse(t) by {
        CollapseStep(a);
      }
      CollapseAppend(t, b);
      ConcatAssoc([' '], Collapse(t), Collapse(b));
    }
  }

  /** A whitespace run, up to the next visible character, collapses to one space. */
  lemma {:induction false} CollapseSpaces(w: string, b: string)
    requires w != [] && AllSpace(w)
    requires b == [] || !IsSpace(b[0])
    ensures Collapse(w + b) == [' '] + Collapse(b)
  {
    var s := w + b;
    assert s[0] == w[0] && s[1..] == w[1..] + b;
    CollapseStep(s);
    forall j | 0 <= j < |w[1..]| ensures IsSpace(w[1..][j]) {
      assert w[1..][j] == w[j + 1];
    }
    TrimStartSpaces(w[1..], b);
  }

  /** `.replace(/\s+/g, " ")` turns a whitespace run between two pieces of
      text into exactly one space: the words on either side are neither
      glued together nor otherwise changed. */
  lemma {:induction false} CollapseRun(a: string, w: string, b: string)
    requires a == [] || !IsSpace(a[|a| - 1])
    requires w != [] && AllSpace(w)
    requires b == [] || !IsSpace(b[0])
    ensures Collapse(a + w + b) == Collapse(a) + " " + Collapse(b)
  {
    assert a + w + b == a + (w + b);
    CollapseAppend(a, w + b);
    CollapseSpaces(w, b);
    ConcatAssoc(Collapse(a), " ", Collapse(b));
  }

  /** The string `trim` leaves is exactly the text between the leading and trailing whitespace. */
  lemma {:induction false} TrimSlice(s: string) returns (a: nat)
    ensures a + |Trim(s)| <= |s|
    ensures Trim(s) == s[a..a + |Trim(s)|]
    ensures AllSpace(s[..a]) && AllSpace(s[a + |Trim(s)|..])
    ensures Trim(s) != [] ==> !IsSpace(Trim(s)[0]) && !IsSpace(Trim(s)[|Trim(s)| - 1])
  {
    var t := TrimStart(s);
    a := |s| - |t|;
    var u := TrimEnd(t);
    assert s[a + |u|..] == t[|u|..];
    if u != [] {
      assert u[0] == t[0];
    }
  }

  /** `trim` yields the empty string exactly for whitespace-only input. */
  lemma {:induction false} TrimEmptyIffAllSpace(s: string)
    ensures Trim(s) == [] <==> AllSpace(s)
  {
    var a := TrimSlice(s);
    if Trim(s) == [] {
      assert s == s[..a] + s[a..];
    } else {
      assert !IsSpace(s[a]);
    }
  }

  /** Text without leading or trailing whitespace is its own `trim`. */
  lemma {:induction false} TrimFixed(s: string)
    requires s != [] ==> !IsSpace(s[0]) && !IsSpace(s[|s| - 1])
    ensures Trim(s) == s
  {
  }
}
