/** The rewrite rules `buildVariations` in soldLinks.js applies to one card
    query: `normalize`, the bracket strip, the year removal, the
    "autograph" to "auto" swap, the quoted player name and the serial-number
    notations. Each rule is a function of the normalised query; the lemmas
    say what each rule changes and that it changes nothing else. */
module QueryRules {
  import opened Wrappers
  import opened JsText

  // ---------------------------------------------------------------------------
  // normalize

  /** The curly quotes `normalize` straightens: U+201C, U+201D and U+2019. */
  predicate IsCurlyQuote(c: char) {
    c == '\U{201C}' || c == '\U{201D}' || c == '\U{2019}'
  }

  function StraightenChar(c: char): char {
    if c == '\U{201C}' || c == '\U{201D}' then '"' else if c == '\U{2019}' then '\'' else c
  }

  /** `.replace(/[“”]/g, '"').replace(/[’]/g, "'")` */
  function Straighten(s: string): (r: string)
    ensures |r| == |s|
    ensures forall i :: 0 <= i < |s| ==> r[i] == StraightenChar(s[i])
  {
    seq(|s|, i requires 0 <= i < |s| => StraightenChar(s[i]))
  }

  /** `normalize(q)`: straight quotes, whitespace runs collapsed to one space, trimmed. */
  function Normalize(q: string): string {
    Trim(Collapse(Straighten(q)))
  }

  /** The form `normalize` produces: no curly quote, only plain single spaces, none at either end. */
  predicate IsNormalized(s: string) {
    && (forall i :: 0 <= i < |s| ==> !IsCurlyQuote(s[i]))
    && SpacesCollapsed(s)
    && (s != [] ==> !IsSpace(s[0]) && !IsSpace(s[|s| - 1]))
  }

  lemma {:induction false} NormalizedSlice(s: string, a: nat, b: nat)
    requires a <= b <= |s|
    requires forall i :: 0 <= i < |s| ==> !IsCurlyQuote(s[i])
    requires SpacesCollapsed(s)
    requires s[a..b] != [] ==> !IsSpace(s[a]) && !IsSpace(s[b - 1])
    ensures IsNormalized(s[a..b])
  {
    var t := s[a..b];
    forall i | 0 < i < |t| ensures !(IsSpace(t[i - 1]) && IsSpace(t[i])) {
      assert t[i - 1] == s[a + i - 1] && t[i] == s[a + i];
    }
  }

  /** Every string `normalize` returns is in normalised form. */
  lemma {:induction false} NormalizeIsNormalized(q: string)
    ensures IsNormalized(Normalize(q))
  {
    var x := Straighten(q);
    CollapseChars(x, IsCurlyQuote);
    TrimNormalizes(Collapse(x));
  }

  lemma {:induction false} TrimNormalizes(y: string)
    requires forall i :: 0 <= i < |y| ==> !IsCurlyQuote(y[i])
    requires SpacesCollapsed(y)
    ensures IsNormalized(Trim(y))
  {
    var a := TrimSlice(y);
    var u := Trim(y);
    var b := a + |u|;
    if u != [] {
      assert y[a] == u[0] && y[b - 1] == u[|u| - 1];
    }
    NormalizedSlice(y, a, b);
  }

  /** Normalised text is left as it is. */
  lemma {:induction false} NormalizedFixed(s: string)
    requires IsNormalized(s)
    ensures Normalize(s) == s
  {
    assert Straighten(s) == s;
    CollapseFixed(s);
    TrimFixed(s);
  }

  /** `normalize` is idempotent. */
  lemma {:induction false} NormalizeIdempotent(q: string)
    ensures Normalize(Normalize(q)) == Normalize(q)
  {
    NormalizeIsNormalized(q);
    NormalizedFixed(Normalize(q));
  }

  /** `normalize` changes only whitespace and quote shapes: the visible characters,
      quotes straightened, survive in order. */
  lemma {:induction false} NormalizeVisible(q: string)
    ensures Visible(Normalize(q)) == Visible(Straighten(q))
  {
    CollapseVisible(Straighten(q));
    TrimVisible(Collapse(Straighten(q)));
  }

  // ---------------------------------------------------------------------------
  // noPunct

  /** The class `[|()[\]{}]`. */
  predicate IsBracket(c: char) {
    c == '|' || c == '(' || c == ')' || c == '[' || c == ']' || c == '{' || c == '}'
  }

  /** `.replace(/[|()[\]{}]/g, " ")` */
  function BracketsToSpaces(s: string): (r: string)
    ensures |r| == |s|
    ensures forall i :: 0 <= i < |s| ==> r[i] == if IsBracket(s[i]) then ' ' else s[i]
  {
    seq(|s|, i requires 0 <= i < |s| => if IsBracket(s[i]) then ' ' else s[i])
  }

  /** `noPunct`: brackets become spaces, then whitespace is collapsed and trimmed. */
  function NoPunct(q: string): string {
    Trim(Collapse(BracketsToSpaces(q)))
  }

  /** The characters of `s` other than brackets, in order. */
  function DropBrackets(s: string): (r: string)
    ensures forall i :: 0 <= i < |r| ==> !IsBracket(r[i])
  {
    if s == [] then [] else (if IsBracket(s[0]) then [] else [s[0]]) + DropBrackets(s[1..])
  }

  lemma {:induction false} BracketsToSpacesVisible(s: string)
    ensures Visible(BracketsToSpaces(s)) == Visible(DropBrackets(s))
  {
    if s != [] {
      var r := BracketsToSpaces(s);
      BracketsToSpacesVisible(s[1..]);
      assert r == [r[0]] + BracketsToSpaces(s[1..]);
      VisibleAppend([r[0]], BracketsToSpaces(s[1..]));
      VisibleAppend(if IsBracket(s[0]) then [] else [s[0]], DropBrackets(s[1..]));
    }
  }

  /** noPunct removes every bracket and otherwise keeps the visible characters, in order. */
  lemma {:induction false} NoPunctSpec(q: string)
    ensures forall i :: 0 <= i < |NoPunct(q)| ==> !IsBracket(NoPunct(q)[i])
    ensures Visible(NoPunct(q)) == Visible(DropBrackets(q))
  {
    var x := BracketsToSpaces(q);
    CollapseChars(x, IsBracket);
    TrimAvoids(Collapse(x), IsBracket);
    BracketsToSpacesVisible(q);
    CollapseVisible(x);
    TrimVisible(Collapse(x));
  }

  /** `trim` introduces no character. */
  lemma {:induction false} TrimAvoids(y: string, p: char -> bool)
    requires forall i :: 0 <= i < |y| ==> !p(y[i])
    ensures forall i :: 0 <= i < |Trim(y)| ==> !p(Trim(y)[i])
  {
    var a := TrimSlice(y);
    var u := Trim(y);
    forall i | 0 <= i < |u| ensures !p(u[i]) {
      assert u[i] == y[a + i];
    }
  }

  // ---------------------------------------------------------------------------
  // noYear and autoSwap: `/\bP\b/g` where P matches a fixed number of word characters

  /** The two whole-word rules: `/\b(19|20)\d{2}\b/g` replaced by "" and
      `/\bautograph\b/gi` replaced by "auto". */
  datatype WordRule = YearRule | AutographRule

  function PatternLength(rule: WordRule): nat {
    match rule
    case YearRule => 4
    case AutographRule => 9
  }

  function Replacement(rule: WordRule): string {
    match rule
    case YearRule => ""
    case AutographRule => "auto"
  }

  /** Whether a window of `PatternLength(rule)` characters is what the pattern
      matches. The `i` flag compares ASCII letters without case; without the
      `u` flag no other character folds onto an ASCII letter. */
  predicate PatternMatches(rule: WordRule, w: string)
    requires |w| == PatternLength(rule)
  {
    match rule
    case YearRule => (w[..2] == "19" || w[..2] == "20") && IsDigit(w[2]) && IsDigit(w[3])
    case AutographRule => Lower(w) == "autograph"
  }

  /** The pattern, with its `\b` on both sides, matches `t` at `j`; `before` says
      whether the character just before `t` (if any) is a word character. */
  predicate MatchAfter(rule: WordRule, before: bool, t: string, j: nat) {
    && j + PatternLength(rule) <= |t|
    && PatternMatches(rule, t[j..j + PatternLength(rule)])
    && (if j == 0 then !before else !IsWordChar(t[j - 1]))
    && (j + PatternLength(rule) == |t| || !IsWordChar(t[j + PatternLength(rule)]))
  }

  /** The regular expression matches at position `i` of `s`. */
  predicate MatchAt(rule: WordRule, s: string, i: nat) {
    MatchAfter(rule, false, s, i)
  }

  /** No match anywhere in `t`, when the text before `t` ends in a word character iff `before`. */
  predicate FreeAfter(rule: WordRule, before: bool, t: string) {
    forall j :: 0 <= j <= |t| ==> !MatchAfter(rule, before, t, j)
  }

  /** `s.replace(regex, replacement)` with the `g` flag, scanned from position `i`:
      at a match the replacement is emitted and the matched text skipped,
      otherwise one character is copied. */
  function ReplaceWordsFrom(rule: WordRule, s: string, i: nat): string
    requires i <= |s|
    decreases |s| - i
  {
    if i == |s| then []
    else if MatchAt(rule, s, i) then Replacement(rule) + ReplaceWordsFrom(rule, s, i + PatternLength(rule))
    else [s[i]] + ReplaceWordsFrom(rule, s, i + 1)
  }

  function ReplaceWords(rule: WordRule, s: string): string {
    ReplaceWordsFrom(rule, s, 0)
  }

  /** `noYear`: whole-word years 19xx and 20xx deleted, whitespace collapsed and trimmed. */
  function NoYear(q: string): string {
    Trim(Collapse(ReplaceWords(YearRule, q)))
  }

  /** `autoSwap`: the whole word "autograph", in any case, becomes "auto"; collapsed and trimmed. */
  function AutoSwap(q: string): string {
    Trim(Collapse(ReplaceWords(AutographRule, q)))
  }

  /** The characters of `s` that are not word characters, in order. */
  function NonWord(s: string): string {
    if s == [] then [] else (if IsWordChar(s[0]) then [] else [s[0]]) + NonWord(s[1..])
  }

  lemma {:induction false} PatternIsWord(rule: WordRule, w: string)
    requires |w| == PatternLength(rule) && PatternMatches(rule, w)
    ensures forall k :: 0 <= k < |w| ==> IsWordChar(w[k])
  {
    if rule == AutographRule {
      forall k | 0 <= k < |w| ensures IsWordChar(w[k]) {
        assert LowerChar(w[k]) == "autograph"[k];
      }
    } else {
      assert w[0] == w[..2][0] && w[1] == w[..2][1];
    }
  }

  lemma {:induction false} NonWordAppend(a: string, b: string)
    ensures NonWord(a + b) == NonWord(a) + NonWord(b)
  {
    if a == [] {
      assert a + b == b;
    } else {
      assert (a + b)[0] == a[0];
      assert (a + b)[1..] == a[1..] + b;
      NonWordAppend(a[1..], b);
    }
  }

  lemma {:induction false} NonWordOfWords(s: string)
    requires forall k :: 0 <= k < |s| ==> IsWordChar(s[k])
    ensures NonWord(s) == []
  {
    if s != [] {
      NonWordOfWords(s[1..]);
    }
  }

  lemma {:induction false} ReplaceWordsFromNonWord(rule: WordRule, s: string, i: nat)
    requires i <= |s|
    decreases |s| - i
    ensures NonWord(ReplaceWordsFrom(rule, s, i)) == NonWord(s[i..])
  {
    if i < |s| {
      if MatchAt(rule, s, i) {
        var L := PatternLength(rule);
        var rest := ReplaceWordsFrom(rule, s, i + L);
        assert ReplaceWordsFrom(rule, s, i) == Replacement(rule) + rest;
        ReplaceWordsFromNonWord(rule, s, i + L);
        ReplacementNonWord(rule, rest);
        MatchedNonWord(rule, s, i);
      } else {
        var rest := ReplaceWordsFrom(rule, s, i + 1);
        assert ReplaceWordsFrom(rule, s, i) == [s[i]] + rest;
        ReplaceWordsFromNonWord(rule, s, i + 1);
        NonWordCons(s, i, rest);
      }
    }
  }

  /** The replacement text holds no non-word character. */
  lemma {:induction false} ReplacementNonWord(rule: WordRule, rest: string)
    ensures NonWord(Replacement(rule) + rest) == NonWord(rest)
  {
    assert Replacement(rule) == "" || Replacement(rule) == "auto";
    NonWordOfWords(Replacement(rule));
    NonWordAppend(Replacement(rule), rest);
  }

  /** Nor does the matched text. */
  lemma {:induction false} MatchedNonWord(rule: WordRule, s: string, i: nat)
    requires i < |s| && MatchAt(rule, s, i)
    ensures NonWord(s[i..]) == NonWord(s[i + PatternLength(rule)..])
  {
    var L := PatternLength(rule);
    PatternIsWord(rule, s[i..i + L]);
    NonWordOfWords(s[i..i + L]);
    assert s[i..] == s[i..i + L] + s[i + L..];
    NonWordAppend(s[i..i + L], s[i + L..]);
  }

  /** Copying one character keeps the non-word characters in step. */
  lemma {:induction false} NonWordCons(s: string, i: nat, rest: string)
    requires i < |s| && NonWord(rest) == NonWord(s[i + 1..])
    ensures NonWord([s[i]] + rest) == NonWord(s[i..])
  {
    NonWordAppend([s[i]], rest);
    assert s[i..] == [s[i]] + s[i + 1..];
    NonWordAppend([s[i]], s[i + 1..]);
  }

  /** A whole-word rule touches only word characters: every space and punctuation mark survives, in order. */
  lemma {:induction false} ReplaceWordsKeepsNonWord(rule: WordRule, s: string)
    ensures NonWord(ReplaceWords(rule, s)) == NonWord(s)
  {
    ReplaceWordsFromNonWord(rule, s, 0);
    assert s[0..] == s;
  }

  lemma {:induction false} ReplaceWordsFromIdentity(rule: WordRule, s: string, i: nat)
    requires i <= |s|
    requires forall k :: i <= k < |s| ==> !MatchAt(rule, s, k)
    decreases |s| - i
    ensures ReplaceWordsFrom(rule, s, i) == s[i..]
  {
    if i < |s| {
      ReplaceWordsFromIdentity(rule, s, i + 1);
      assert s[i..] == [s[i]] + s[i + 1..];
    }
  }

  /** Text in which the pattern never matches is left unchanged. */
  lemma {:induction false} ReplaceWordsIdentity(rule: WordRule, s: string)
    requires FreeAfter(rule, false, s)
    ensures ReplaceWords(rule, s) == s
  {
    ReplaceWordsFromIdentity(rule, s, 0);
    assert s[0..] == s;
  }

  /** Looking at `a + t` from inside `t`: a match past the end of `a` is a match in `t`,
      whose preceding character is the last of `a` (or what preceded `a`). */
  lemma {:induction false} MatchShift(rule: WordRule, before: bool, a: string, t: string, j: nat)
    requires |a| <= j
    requires MatchAfter(rule, before, a + t, j)
    ensures MatchAfter(rule, if a == [] then before else IsWordChar(a[|a| - 1]), t, j - |a|)
  {
    var L := PatternLength(rule);
    var s := a + t;
    var k := j - |a|;
    assert s[j..j + L] == t[k..k + L];
    assert j > 0 ==> s[j - 1] == if k > 0 then t[k - 1] else a[|a| - 1];
    assert j + L < |s| ==> s[j + L] == t[k + L];
  }

  /** No match can start at a non-word character, nor at the end of the text. */
  lemma {:induction false} NoMatchAtNonWord(rule: WordRule, before: bool, t: string, j: nat)
    requires j < |t| ==> !IsWordChar(t[j])
    ensures !MatchAfter(rule, before, t, j)
  {
    var L := PatternLength(rule);
    if j + L <= |t| && PatternMatches(rule, t[j..j + L]) {
      PatternIsWord(rule, t[j..j + L]);
    }
  }

  /** The first position at or after `k` that is not a word character (or the end). */
  function WordRunEnd(s: string, k: nat): (e: nat)
    requires k <= |s|
    decreases |s| - k
    ensures k <= e <= |s|
    ensures forall m :: k <= m < e ==> IsWordChar(s[m])
    ensures e == |s| || !IsWordChar(s[e])
  {
    if k == |s| || !IsWordChar(s[k]) then k else WordRunEnd(s, k + 1)
  }

  /** Inside a run of word characters no match can start, so the scan copies the run. */
  lemma {:induction false} CopyWordRun(rule: WordRule, s: string, i: nat, e: nat)
    requires 0 < i <= e <= |s|
    requires forall m :: i - 1 <= m < e ==> IsWordChar(s[m])
    decreases e - i
    ensures ReplaceWordsFrom(rule, s, i) == s[i..e] + ReplaceWordsFrom(rule, s, e)
  {
    if i < e {
      assert !MatchAt(rule, s, i);
      CopyWordRun(rule, s, i + 1, e);
      assert s[i..e] == [s[i]] + s[i + 1..e];
    }
  }

  /** At a non-word character the scan copies it and moves on. */
  lemma {:induction false} StepNonWord(rule: WordRule, s: string, e: nat)
    requires e < |s| && !IsWordChar(s[e])
    ensures ReplaceWordsFrom(rule, s, e) == [s[e]] + ReplaceWordsFrom(rule, s, e + 1)
  {
    NoMatchAtNonWord(rule, false, s, e);
  }

  lemma {:induction false} RunThenRest(rule: WordRule, s: string, i: nat) returns (e: nat)
    requires i < |s| && IsWordChar(s[i]) && !MatchAt(rule, s, i)
    ensures e == WordRunEnd(s, i) && i < e
    ensures ReplaceWordsFrom(rule, s, i) == s[i..e] + ReplaceWordsFrom(rule, s, e)
  {
    e := WordRunEnd(s, i);
    var rest := ReplaceWordsFrom(rule, s, i + 1);
    assert ReplaceWordsFrom(rule, s, i) == [s[i]] + rest;
    CopyWordRun(rule, s, i + 1, e);
    ConsSlice(s, i, e, ReplaceWordsFrom(rule, s, e));
  }

  lemma {:induction false} ConsSlice(s: string, i: nat, e: nat, t: string)
    requires i < e <= |s|
    ensures [s[i]] + (s[i + 1..e] + t) == s[i..e] + t
  {
    assert s[i..e] == [s[i]] + s[i + 1..e];
  }

  /** Step of the "no match remains" proof at a match: the replacement is shorter
      than the pattern and is followed by a non-word character, so no match can
      start inside it or right after it. */
  lemma {:induction false} FreeAfterMatch(rule: WordRule, s: string, i: nat)
    requires i < |s| && MatchAt(rule, s, i)
    requires FreeAfter(rule, true, ReplaceWordsFrom(rule, s, i + PatternLength(rule)))
    ensures FreeAfter(rule, i > 0 && IsWordChar(s[i - 1]), ReplaceWordsFrom(rule, s, i))
  {
    var L := PatternLength(rule);
    var rest := ReplaceWordsFrom(rule, s, i + L);
    assert ReplaceWordsFrom(rule, s, i) == Replacement(rule) + rest;
    if i + L < |s| {
      StepNonWord(rule, s, i + L);
      assert rest[0] == s[i + L];
    }
    assert Replacement(rule) == "" || Replacement(rule) == "auto";
    FreeAfterReplacement(rule, i > 0 && IsWordChar(s[i - 1]), Replacement(rule), rest);
  }

  /** A run of word characters shorter than the pattern, followed by a
      non-word character or the end, leaves no room for a match. */
  lemma {:induction false} FreeAfterReplacement(rule: WordRule, before: bool, rep: string, rest: string)
    requires |rep| < PatternLength(rule)
    requires forall k :: 0 <= k < |rep| ==> IsWordChar(rep[k])
    requires rest == [] || !IsWordChar(rest[0])
    requires FreeAfter(rule, true, rest)
    ensures FreeAfter(rule, before, rep + rest)
  {
    var L := PatternLength(rule);
    var r := rep + rest;
    forall j | 0 <= j <= |r| ensures !MatchAfter(rule, before, r, j) {
      if j < |rep| {
        NoMatchAtNonWord(rule, before, r, |rep|);
        if MatchAfter(rule, before, r, j) {
          PatternIsWord(rule, r[j..j + L]);
        }
      } else if j == |rep| {
        NoMatchAtNonWord(rule, before, r, j);
      } else if MatchAfter(rule, before, r, j) {
        MatchShift(rule, before, rep, rest, j);
        assert MatchAfter(rule, true, rest, j - |rep|);
      }
    }
  }

  /** Step of the "no match remains" proof over a run of word characters: a
      match cannot start inside the run, nor straddle its end. */
  lemma {:induction false} FreeAfterRun(rule: WordRule, before: bool, run: string, rest: string)
    requires run != [] && forall k :: 0 <= k < |run| ==> IsWordChar(run[k])
    requires FreeAfter(rule, true, rest)
    requires !MatchAfter(rule, before, run + rest, 0)
    ensures FreeAfter(rule, before, run + rest)
  {
    var r := run + rest;
    forall j | 0 <= j <= |r| ensures !MatchAfter(rule, before, r, j) {
      if 0 < j < |run| {
        assert r[j - 1] == run[j - 1];
      } else if j >= |run| && MatchAfter(rule, before, r, j) {
        MatchShift(rule, before, run, rest, j);
      }
    }
  }

  lemma {:induction false} ShortRunNoMatch(rule: WordRule, before: bool, run: string, rest: string)
    requires |run| < PatternLength(rule)
    requires rest != [] ==> !IsWordChar(rest[0])
    ensures !MatchAfter(rule, before, run + rest, 0)
  {
    var L := PatternLength(rule);
    var r := run + rest;
    if L <= |r| {
      assert r[..L][|run|] == rest[0];
      if PatternMatches(rule, r[..L]) {
        PatternIsWord(rule, r[..L]);
      }
    }
  }

  lemma {:induction false} LongRunNoMatch(rule: WordRule, before: bool, run: string, rest: string)
    requires |run| > PatternLength(rule)
    requires forall k :: 0 <= k < |run| ==> IsWordChar(run[k])
    ensures !MatchAfter(rule, before, run + rest, 0)
  {
    assert (run + rest)[PatternLength(rule)] == run[PatternLength(rule)];
  }

  lemma {:induction false} ExactRunNoMatch(rule: WordRule, before: bool, run: string, rest: string)
    requires |run| == PatternLength(rule)
    requires !PatternMatches(rule, run) || before
    ensures !MatchAfter(rule, before, run + rest, 0)
  {
    assert (run + rest)[..|run|] == run;
  }

  /** A run of word characters copied by the scan does not start with a match:
      had it been one, the scan would have replaced it. */
  lemma {:induction false} WordRunNoMatchAtStart(rule: WordRule, s: string, i: nat, e: nat)
    requires i < e <= |s| && e == WordRunEnd(s, i) && !MatchAt(rule, s, i)
    ensures !MatchAfter(rule, i > 0 && IsWordChar(s[i - 1]), s[i..e] + ReplaceWordsFrom(rule, s, e), 0)
  {
    var L := PatternLength(rule);
    var before := i > 0 && IsWordChar(s[i - 1]);
    var run := s[i..e];
    var rest := ReplaceWordsFrom(rule, s, e);
    if e < |s| {
      StepNonWord(rule, s, e);
    }
    if e - i < L {
      ShortRunNoMatch(rule, before, run, rest);
    } else if e - i > L {
      LongRunNoMatch(rule, before, run, rest);
    } else {
      ExactRunNoMatch(rule, before, run, rest);
    }
  }

  lemma {:induction false} FreeAfterWordRun(rule: WordRule, s: string, i: nat, e: nat)
    requires i < e <= |s| && e == WordRunEnd(s, i) && !MatchAt(rule, s, i)
    requires ReplaceWordsFrom(rule, s, i) == s[i..e] + ReplaceWordsFrom(rule, s, e)
    requires FreeAfter(rule, true, ReplaceWordsFrom(rule, s, e))
    ensures FreeAfter(rule, i > 0 && IsWordChar(s[i - 1]), ReplaceWordsFrom(rule, s, i))
  {
    WordRunNoMatchAtStart(rule, s, i, e);
    FreeAfterRun(rule, i > 0 && IsWordChar(s[i - 1]), s[i..e], ReplaceWordsFrom(rule, s, e));
  }

  /** Step of the "no match remains" proof at a non-word character. */
  lemma {:induction false} FreeAfterNonWord(rule: WordRule, s: string, i: nat)
    requires i < |s| && !IsWordChar(s[i])
    requires FreeAfter(rule, false, ReplaceWordsFrom(rule, s, i + 1))
    ensures FreeAfter(rule, i > 0 && IsWordChar(s[i - 1]), ReplaceWordsFrom(rule, s, i))
  {
    var before := i > 0 && IsWordChar(s[i - 1]);
    var rest := ReplaceWordsFrom(rule, s, i + 1);
    var r := ReplaceWordsFrom(rule, s, i);
    StepNonWord(rule, s, i);
    forall j | 0 <= j <= |r| ensures !MatchAfter(rule, before, r, j) {
      if j == 0 {
        NoMatchAtNonWord(rule, before, r, 0);
      } else if MatchAfter(rule, before, r, j) {
        MatchShift(rule, before, [s[i]], rest, j);
      }
    }
  }

  /** The core of the "no match remains" proof: the scan from `i` leaves no
      match, judged with the character before position `i` as context. */
  lemma {:induction false} ReplaceWordsFromFree(rule: WordRule, s: string, i: nat)
    requires i <= |s|
    decreases |s| - i
    ensures FreeAfter(rule, i > 0 && IsWordChar(s[i - 1]), ReplaceWordsFrom(rule, s, i))
  {
    if i == |s| {
    } else if MatchAt(rule, s, i) {
      var L := PatternLength(rule);
      PatternIsWord(rule, s[i..i + L]);
      assert s[i..i + L][L - 1] == s[i + L - 1];
      ReplaceWordsFromFree(rule, s, i + L);
      FreeAfterMatch(rule, s, i);
    } else if IsWordChar(s[i]) {
      var e := RunThenRest(rule, s, i);
      ReplaceWordsFromFree(rule, s, e);
      FreeAfterWordRun(rule, s, i, e);
    } else {
      ReplaceWordsFromFree(rule, s, i + 1);
      FreeAfterNonWord(rule, s, i);
    }
  }

  /** After a whole-word rule has run, its pattern matches nowhere in the result:
      no whole-word year (resp. "autograph") is left over or newly formed. */
  lemma {:induction false} ReplaceWordsRemovesAll(rule: WordRule, s: string)
    ensures FreeAfter(rule, false, ReplaceWords(rule, s))
  {
    ReplaceWordsFromFree(rule, s, 0);
  }

  /** Applying a whole-word rule twice is the same as applying it once. */
  lemma {:induction false} ReplaceWordsIdempotent(rule: WordRule, s: string)
    ensures ReplaceWords(rule, ReplaceWords(rule, s)) == ReplaceWords(rule, s)
  {
    ReplaceWordsRemovesAll(rule, s);
    ReplaceWordsIdentity(rule, ReplaceWords(rule, s));
  }

  // ---------------------------------------------------------------------------
  // the same rules, word by word

  /** What a rule does to one whole word, i.e. one maximal run of word
      characters: a year 19xx or 20xx is deleted, "autograph" in any ASCII letter
      case becomes "auto", and every other word is kept as it is. */
  function RewriteWord(rule: WordRule, w: string): string {
    match rule
    case YearRule =>
      if |w| == 4 && (w[..2] == "19" || w[..2] == "20") && IsDigit(w[2]) && IsDigit(w[3]) then "" else w
    case AutographRule =>
      if Lower(w) == "autograph" then "auto" else w
  }

  /** The rule applied to `s[i..]` word by word: each character that is not a
      word character is copied, each maximal run of word characters is
      rewritten as a whole. */
  function RewriteWordsFrom(rule: WordRule, s: string, i: nat): string
    requires i <= |s|
    decreases |s| - i
  {
    if i == |s| then []
    else if !IsWordChar(s[i]) then [s[i]] + RewriteWordsFrom(rule, s, i + 1)
    else RewriteWord(rule, s[i..WordRunEnd(s, i)]) + RewriteWordsFrom(rule, s, WordRunEnd(s, i))
  }

  /** `i` is not inside a run of word characters. */
  predicate RunBoundary(s: string, i: nat)
    requires i <= |s|
  {
    i == 0 || i == |s| || !IsWordChar(s[i - 1]) || !IsWordChar(s[i])
  }

  /** The `\b`-anchored global replacement is the word-by-word rewrite: whole
      years are deleted, a whole "autograph" becomes "auto", and every other
      word and every other character is kept, in order. */
  lemma {:induction false} ReplaceWordsByWord(rule: WordRule, s: string)
    ensures ReplaceWords(rule, s) == RewriteWordsFrom(rule, s, 0)
  {
    ReplaceWordsFromByWord(rule, s, 0);
  }

  lemma {:induction false} ReplaceWordsFromByWord(rule: WordRule, s: string, i: nat)
    requires i <= |s| && RunBoundary(s, i)
    decreases |s| - i
    ensures ReplaceWordsFrom(rule, s, i) == RewriteWordsFrom(rule, s, i)
  {
    if i == |s| {
    } else if !IsWordChar(s[i]) {
      StepNonWord(rule, s, i);
      ReplaceWordsFromByWord(rule, s, i + 1);
    } else {
      var e := WordRunEnd(s, i);
      var L := PatternLength(rule);
      if MatchAt(rule, s, i) {
        MatchedWord(rule, s, i);
        assert ReplaceWordsFrom(rule, s, i) == Replacement(rule) + ReplaceWordsFrom(rule, s, i + L);
      } else {
        var e' := RunThenRest(rule, s, i);
        UnmatchedWord(rule, s, i);
      }
      ReplaceWordsFromByWord(rule, s, e);
    }
  }

  /** A whole-word match is exactly one word, which the rule rewrites into the replacement. */
  lemma {:induction false} MatchedWord(rule: WordRule, s: string, i: nat)
    requires i < |s| && MatchAt(rule, s, i)
    ensures WordRunEnd(s, i) == i + PatternLength(rule)
    ensures RewriteWord(rule, s[i..i + PatternLength(rule)]) == Replacement(rule)
  {
    var L := PatternLength(rule);
    var w := s[i..i + L];
    PatternIsWord(rule, w);
    forall m | i <= m < i + L ensures IsWordChar(s[m]) {
      assert s[m] == w[m - i];
    }
    WordRunEndIs(s, i, i + L);
  }

  /** A word at a word boundary that the pattern does not match is kept. */
  lemma {:induction false} UnmatchedWord(rule: WordRule, s: string, i: nat)
    requires i < |s| && IsWordChar(s[i]) && RunBoundary(s, i) && !MatchAt(rule, s, i)
    ensures RewriteWord(rule, s[i..WordRunEnd(s, i)]) == s[i..WordRunEnd(s, i)]
  {
  }

  /** A run of word characters from `k` that stops at `m` ends at `m`:
      the contract of `WordRunEnd` fixes its result. */
  lemma {:induction false} WordRunEndIs(s: string, k: nat, m: nat)
    requires k <= m <= |s|
    requires forall j :: k <= j < m ==> IsWordChar(s[j])
    requires m == |s| || !IsWordChar(s[m])
    ensures WordRunEnd(s, k) == m
  {
  }

  // ---------------------------------------------------------------------------
  // words and the quoted player name

  /** `s.split(" ")`: the pieces between single spaces; the empty string gives one empty piece. */
  function Split(s: string): (ws: seq<string>)
    ensures |ws| >= 1
    ensures forall k, m :: 0 <= k < |ws| && 0 <= m < |ws[k]| ==> ws[k][m] != ' '
  {
    if s == [] then [[]]
    else
      var rest := Split(s[1..]);
      if s[0] == ' ' then [[]] + rest else [[s[0]] + rest[0]] + rest[1..]
  }

  /** `ws.join(" ")`. */
  function Join(ws: seq<string>): string
    requires |ws| >= 1
  {
    if |ws| == 1 then ws[0] else ws[0] + " " + Join(ws[1..])
  }

  /** Joining the pieces of a split gives the text back. */
  lemma {:induction false} JoinSplit(s: string)
    ensures Join(Split(s)) == s
  {
    if s != [] {
      var rest := Split(s[1..]);
      JoinSplit(s[1..]);
      if s[0] == ' ' {
        assert Split(s)[1..] == rest;
      } else {
        var ws := Split(s);
        assert ws[1..] == rest[1..];
        if |rest| == 1 {
          assert Join(ws) == [s[0]] + rest[0];
        } else {
          assert Join(ws) == [s[0]] + rest[0] + " " + Join(rest[1..]);
          assert Join(rest) == rest[0] + " " + Join(rest[1..]);
        }
      }
    }
  }

  /** Splitting joined words that contain no space gives the words back. */
  lemma {:induction false} SplitJoin(ws: seq<string>)
    requires |ws| >= 1
    requires forall k, m :: 0 <= k < |ws| && 0 <= m < |ws[k]| ==> ws[k][m] != ' '
    decreases |Join(ws)|, |ws[0]|
    ensures Split(Join(ws)) == ws
  {
    var s := Join(ws);
    if ws[0] == [] {
      if |ws| > 1 {
        assert s == " " + Join(ws[1..]);
        assert s[1..] == Join(ws[1..]);
        SplitJoin(ws[1..]);
        assert ws == [[]] + ws[1..];
      }
    } else {
      var ws' := [ws[0][1..]] + ws[1..];
      assert ws'[1..] == ws[1..];
      assert s == [ws[0][0]] + Join(ws') by {
        if |ws| == 1 {
        } else {
          assert ws[0] == [ws[0][0]] + ws[0][1..];
        }
      }
      assert s[1..] == Join(ws');
      SplitJoin(ws');
      assert ws[0] == [ws[0][0]] + ws'[0];
    }
  }

  /** `s` occurs in `t` at position `a`. */
  predicate OccursAt(t: string, s: string, a: nat) {
    a + |s| <= |t| && t[a..a + |s|] == s
  }

  /** `s` occurs in `t` at some position. */
  predicate Contains(t: string, s: string) {
    exists a: nat :: a <= |t| && OccursAt(t, s, a)
  }

  /** Adjacent words `ws[k]` and `ws[k + 1]`, with the space between them, occur in the joined text. */
  lemma {:induction false} JoinContainsPair(ws: seq<string>, k: nat)
    requires k + 1 < |ws|
    ensures Contains(Join(ws), ws[k] + " " + ws[k + 1])
  {
    var pair := ws[k] + " " + ws[k + 1];
    if k == 0 {
      var t := Join(ws[1..]);
      assert Join(ws) == ws[0] + " " + t;
      if |ws| == 2 {
        assert OccursAt(Join(ws), pair, 0);
      } else {
        assert t == ws[1] + " " + Join(ws[2..]);
        assert OccursAt(Join(ws), pair, 0);
      }
    } else {
      JoinContainsPair(ws[1..], k - 1);
      var t := Join(ws[1..]);
      var a: nat :| OccursAt(t, pair, a);
      assert OccursAt(t, pair, a);
      assert a + |pair| <= |t|;
      var off := |ws[0]| + 1;
      assert Join(ws) == ws[0] + " " + t;
      assert |Join(ws)| == off + |t|;
      assert Join(ws)[off + a..off + a + |pair|] == t[a..a + |pair|];
      assert OccursAt(Join(ws), pair, off + a);
    }
  }

  /** `/^[A-Z][a-z]+$/`: a capital letter followed by at least one lower-case letter. */
  predicate IsName(w: string) {
    |w| >= 2 && IsUpper(w[0]) && forall m :: 1 <= m < |w| ==> IsLower(w[m])
  }

  predicate NamePairAt(words: seq<string>, k: nat) {
    k + 1 < |words| && IsName(words[k]) && IsName(words[k + 1])
  }

  /** The first index at or after `i` where two names stand side by side. */
  function NamePairFrom(words: seq<string>, i: nat): (r: Option<nat>)
    requires i <= |words|
    decreases |words| - i
    ensures r.Some? ==> i <= r.value && NamePairAt(words, r.value)
    ensures r.Some? ==> forall m :: i <= m < r.value ==> !NamePairAt(words, m)
    ensures r.None? ==> forall m :: i <= m < |words| ==> !NamePairAt(words, m)
  {
    if i + 1 >= |words| then None
    else if IsName(words[i]) && IsName(words[i + 1]) then Some(i)
    else NamePairFrom(words, i + 1)
  }

  /** `new RegExp(pat, "g")` with a pattern of letters and a space, and
      a replacement without `$`: every occurrence of `pat` found scanning
      left to right, each after the previous one, is replaced by `rep`. */
  function ReplaceAllFrom(s: string, pat: string, rep: string, i: nat): string
    requires pat != [] && i <= |s|
    decreases |s| - i
  {
    if i == |s| then []
    else if i + |pat| <= |s| && s[i..i + |pat|] == pat then rep + ReplaceAllFrom(s, pat, rep, i + |pat|)
    else [s[i]] + ReplaceAllFrom(s, pat, rep, i + 1)
  }

  /** The characters of `s` other than `"`. */
  function DropQuotes(s: string): string {
    if s == [] then [] else (if s[0] == '"' then [] else [s[0]]) + DropQuotes(s[1..])
  }

  lemma {:induction false} DropQuotesAppend(a: string, b: string)
    ensures DropQuotes(a + b) == DropQuotes(a) + DropQuotes(b)
  {
    if a == [] {
      assert a + b == b;
    } else {
      assert (a + b)[0] == a[0];
      assert (a + b)[1..] == a[1..] + b;
      DropQuotesAppend(a[1..], b);
    }
  }

  /** When the replacement differs from the pattern only in `"` characters,
      replacing changes nothing but `"` characters. */
  lemma {:induction false} ReplaceAllFromDropQuotes(s: string, pat: string, rep: string, i: nat)
    requires pat != [] && i <= |s|
    requires DropQuotes(rep) == DropQuotes(pat)
    decreases |s| - i
    ensures DropQuotes(ReplaceAllFrom(s, pat, rep, i)) == DropQuotes(s[i..])
  {
    if i < |s| {
      if i + |pat| <= |s| && s[i..i + |pat|] == pat {
        var rest := ReplaceAllFrom(s, pat, rep, i + |pat|);
        assert ReplaceAllFrom(s, pat, rep, i) == rep + rest;
        ReplaceAllFromDropQuotes(s, pat, rep, i + |pat|);
        DropQuotesSplice(s[i..], pat, rep, rest);
      } else {
        var rest := ReplaceAllFrom(s, pat, rep, i + 1);
        assert ReplaceAllFrom(s, pat, rep, i) == [s[i]] + rest;
        ReplaceAllFromDropQuotes(s, pat, rep, i + 1);
        DropQuotesSplice(s[i..], [s[i]], [s[i]], rest);
      }
    }
  }

  /** Putting `rep` in place of a leading `pat` of `t` keeps the characters other than `"`. */
  lemma {:induction false} DropQuotesSplice(t: string, pat: string, rep: string, rest: string)
    requires |pat| <= |t| && t[..|pat|] == pat
    requires DropQuotes(rep) == DropQuotes(pat)
    requires DropQuotes(rest) == DropQuotes(t[|pat|..])
    ensures DropQuotes(rep + rest) == DropQuotes(t)
  {
    DropQuotesAppend(rep, rest);
    assert t == pat + t[|pat|..];
    DropQuotesAppend(pat, t[|pat|..]);
  }

  /** If `pat` occurs at or after position `i`, the scan emits `rep` at least once. */
  lemma {:induction false} ReplaceAllFromEmits(s: string, pat: string, rep: string, i: nat, k: nat)
    requires pat != [] && i <= k && k + |pat| <= |s| && s[k..k + |pat|] == pat
    decreases |s| - i
    ensures Contains(ReplaceAllFrom(s, pat, rep, i), rep)
  {
    var r := ReplaceAllFrom(s, pat, rep, i);
    if i + |pat| <= |s| && s[i..i + |pat|] == pat {
      assert OccursAt(r, rep, 0);
    } else {
      ReplaceAllFromEmits(s, pat, rep, i + 1, k);
      var t := ReplaceAllFrom(s, pat, rep, i + 1);
      var a: nat :| OccursAt(t, rep, a);
      assert OccursAt(t, rep, a);
      assert r == [s[i]] + t;
      assert r[a + 1..a + 1 + |rep|] == t[a..a + |rep|];
      assert OccursAt(r, rep, a + 1);
    }
  }

  /** `"First Last"`, the quoted name. */
  function Quoted(first: string, last: string): string {
    "\"" + first + " " + last + "\""
  }

  /** `withQuotedName`: when two names stand side by side, every occurrence of
      "First Last" in the query is wrapped in double quotes. */
  function WithQuotedName(q: string): Option<string> {
    var words := Split(q);
    match NamePairFrom(words, 0)
    case None => None
    case Some(k) => Some(ReplaceAllFrom(q, words[k] + " " + words[k + 1], Quoted(words[k], words[k + 1]), 0))
  }

  /** Wrapping every occurrence of an adjacent name pair of `q` in quotes
      yields text that holds the quoted name and differs from `q` only in `"`. */
  lemma {:induction false} QuotePairSpec(q: string, k: nat)
    requires NamePairAt(Split(q), k)
    ensures
      var words := Split(q);
      var r := ReplaceAllFrom(q, words[k] + " " + words[k + 1], Quoted(words[k], words[k + 1]), 0);
      Contains(r, Quoted(words[k], words[k + 1])) && DropQuotes(r) == DropQuotes(q)
  {
    var words := Split(q);
    var pat := words[k] + " " + words[k + 1];
    assert Contains(q, pat) by {
      JoinSplit(q);
      JoinContainsPair(words, k);
    }
    var rep := Quoted(words[k], words[k + 1]);
    assert rep == "\"" + pat + "\"";
    QuotesAroundDropped(pat);
    ReplaceAllSpec(q, pat, rep);
  }

  /** Quoting adds nothing but the two `"` characters. */
  lemma {:induction false} QuotesAroundDropped(pat: string)
    ensures DropQuotes("\"" + pat + "\"") == DropQuotes(pat)
  {
    DropQuotesAppend("\"", pat);
    DropQuotesAppend("\"" + pat, "\"");
  }

  /** Replacing every occurrence of a pattern that occurs at all emits the
      replacement, and changes nothing but `"` when the two differ only in `"`. */
  lemma {:induction false} ReplaceAllSpec(q: string, pat: string, rep: string)
    requires pat != [] && Contains(q, pat)
    requires DropQuotes(rep) == DropQuotes(pat)
    ensures Contains(ReplaceAllFrom(q, pat, rep, 0), rep)
    ensures DropQuotes(ReplaceAllFrom(q, pat, rep, 0)) == DropQuotes(q)
  {
    var a: nat :| OccursAt(q, pat, a);
    assert OccursAt(q, pat, a);
    ReplaceAllFromEmits(q, pat, rep, 0, a);
    ReplaceAllFromDropQuotes(q, pat, rep, 0);
    assert q[0..] == q;
  }

  /** The quoted-name candidate exists exactly when two capitalised words stand
      side by side; it then holds the first such pair, quoted, and it differs
      from the query only in `"` characters. */
  lemma {:induction false} WithQuotedNameSpec(q: string)
    ensures WithQuotedName(q).Some? <==> exists k :: NamePairAt(Split(q), k)
    ensures WithQuotedName(q).Some? ==>
      var words := Split(q);
      var k := NamePairFrom(words, 0).value;
      && Contains(WithQuotedName(q).value, Quoted(words[k], words[k + 1]))
      && DropQuotes(WithQuotedName(q).value) == DropQuotes(q)
  {
    var words := Split(q);
    if NamePairFrom(words, 0).Some? {
      QuotePairSpec(q, NamePairFrom(words, 0).value);
    }
  }

  // ---------------------------------------------------------------------------
  // the global replacement as split and join

  /** The first position at or after `i` where `pat` occurs in `s`. */
  function FirstOccurrence(s: string, pat: string, i: nat): (r: Option<nat>)
    requires i <= |s|
    decreases |s| - i
    ensures r.Some? ==> i <= r.value && OccursAt(s, pat, r.value)
    ensures r.Some? ==> forall m :: i <= m < r.value ==> !OccursAt(s, pat, m)
    ensures r.None? ==> forall m :: i <= m <= |s| ==> !OccursAt(s, pat, m)
  {
    if OccursAt(s, pat, i) then Some(i)
    else if i == |s| then None
    else FirstOccurrence(s, pat, i + 1)
  }

  /** `s.slice(i).split(pat)`: the text cut at each occurrence of `pat`,
      found left to right, each after the previous one. */
  function Pieces(s: string, pat: string, i: nat): (ps: seq<string>)
    requires pat != [] && i <= |s|
    decreases |s| - i
    ensures |ps| >= 1
  {
    match FirstOccurrence(s, pat, i)
    case None => [s[i..]]
    case Some(a) => [s[i..a]] + Pieces(s, pat, a + |pat|)
  }

  /** `ps.join(sep)`. */
  function JoinWith(ps: seq<string>, sep: string): string
    requires |ps| >= 1
  {
    if |ps| == 1 then ps[0] else ps[0] + sep + JoinWith(ps[1..], sep)
  }

  /** Where `pat` does not occur, the replacement copies the text. */
  lemma {:induction false} ReplaceAllCopies(s: string, pat: string, rep: string, i: nat, a: nat)
    requires pat != [] && i <= a <= |s|
    requires forall m :: i <= m < a ==> !OccursAt(s, pat, m)
    decreases a - i
    ensures ReplaceAllFrom(s, pat, rep, i) == s[i..a] + ReplaceAllFrom(s, pat, rep, a)
  {
    if i < a {
      assert !OccursAt(s, pat, i);
      assert ReplaceAllFrom(s, pat, rep, i) == [s[i]] + ReplaceAllFrom(s, pat, rep, i + 1);
      ReplaceAllCopies(s, pat, rep, i + 1, a);
      assert s[i..a] == [s[i]] + s[i + 1..a];
    }
  }

  /** The global replacement is the text split on `pat` and joined with `rep`. */
  lemma {:induction false} ReplaceAllPieces(s: string, pat: string, rep: string, i: nat)
    requires pat != [] && i <= |s|
    decreases |s| - i
    ensures ReplaceAllFrom(s, pat, rep, i) == JoinWith(Pieces(s, pat, i), rep)
  {
    match FirstOccurrence(s, pat, i)
    case None =>
      ReplaceAllCopies(s, pat, rep, i, |s|);
    case Some(a) =>
      ReplaceAllCopies(s, pat, rep, i, a);
      assert ReplaceAllFrom(s, pat, rep, a) == rep + ReplaceAllFrom(s, pat, rep, a + |pat|);
      ReplaceAllPieces(s, pat, rep, a + |pat|);
      var ps := Pieces(s, pat, i);
      assert ps[1..] == Pieces(s, pat, a + |pat|);
  }

  /** Joining the pieces with `pat` gives the text back. */
  lemma {:induction false} PiecesJoin(s: string, pat: string, i: nat)
    requires pat != [] && i <= |s|
    decreases |s| - i
    ensures JoinWith(Pieces(s, pat, i), pat) == s[i..]
  {
    match FirstOccurrence(s, pat, i)
    case None =>
    case Some(a) =>
      PiecesJoin(s, pat, a + |pat|);
      var ps := Pieces(s, pat, i);
      assert ps[1..] == Pieces(s, pat, a + |pat|);
      assert s[i..] == s[i..a] + pat + s[a + |pat|..];
  }

  /** A stretch of `s` where `pat` starts nowhere does not contain `pat`. */
  lemma {:induction false} SliceFree(s: string, pat: string, i: nat, a: nat)
    requires pat != [] && i <= a <= |s|
    requires forall m :: i <= m < a ==> !OccursAt(s, pat, m)
    ensures !Contains(s[i..a], pat)
  {
    var t := s[i..a];
    forall b: nat | b <= |t| ensures !OccursAt(t, pat, b) {
      if b + |pat| <= |t| {
        assert i + b < a && !OccursAt(s, pat, i + b);
        var u, v := t[b..b + |pat|], s[i + b..i + b + |pat|];
        forall n | 0 <= n < |pat| ensures u[n] == v[n] {
          assert u[n] == t[b + n] == s[i + b + n];
        }
      }
    }
  }

  /** No piece contains `pat`: every occurrence was cut out. */
  lemma {:induction false} PiecesFree(s: string, pat: string, i: nat)
    requires pat != [] && i <= |s|
    decreases |s| - i
    ensures forall j :: 0 <= j < |Pieces(s, pat, i)| ==> !Contains(Pieces(s, pat, i)[j], pat)
  {
    var ps := Pieces(s, pat, i);
    match FirstOccurrence(s, pat, i)
    case None =>
      SliceFree(s, pat, i, |s|);
      assert s[i..|s|] == s[i..];
    case Some(a) =>
      SliceFree(s, pat, i, a);
      PiecesFree(s, pat, a + |pat|);
      assert ps[1..] == Pieces(s, pat, a + |pat|);
      assert forall j :: 1 <= j < |ps| ==> ps[j] == ps[1..][j - 1];
  }

  /** The `g` flag: the quoted-name candidate is the query split on "First Last",
      which occurs in none of the pieces, and joined with the quoted name, so every
      occurrence of the pair is quoted and the text between them is kept. */
  lemma {:induction false} WithQuotedNameQuotesAll(q: string)
    ensures WithQuotedName(q).Some? ==>
      var words := Split(q);
      var k := NamePairFrom(words, 0).value;
      var pat := words[k] + " " + words[k + 1];
      var ps := Pieces(q, pat, 0);
      && q == JoinWith(ps, pat)
      && WithQuotedName(q).value == JoinWith(ps, Quoted(words[k], words[k + 1]))
      && forall j :: 0 <= j < |ps| ==> !Contains(ps[j], pat)
  {
    var words := Split(q);
    if NamePairFrom(words, 0).Some? {
      var k := NamePairFrom(words, 0).value;
      var pat := words[k] + " " + words[k + 1];
      PiecesJoin(q, pat, 0);
      assert q[0..] == q;
      ReplaceAllPieces(q, pat, Quoted(words[k], words[k + 1]), 0);
      PiecesFree(q, pat, 0);
    }
  }

  // ---------------------------------------------------------------------------
  // serial numbers

  /** `/\/\d+/` matches at `p`: a slash followed by a digit. */
  predicate SerialAt(q: string, p: nat) {
    p + 1 < |q| && q[p] == '/' && IsDigit(q[p + 1])
  }

  /** The first serial position at or after `i`. */
  function FirstSerialFrom(q: string, i: nat): (r: Option<nat>)
    requires i <= |q|
    decreases |q| - i
    ensures r.Some? ==> i <= r.value && SerialAt(q, r.value)
    ensures r.Some? ==> forall m :: i <= m < r.value ==> !SerialAt(q, m)
    ensures r.None? ==> forall m :: i <= m < |q| ==> !SerialAt(q, m)
  {
    if i + 1 >= |q| then None
    else if SerialAt(q, i) then Some(i)
    else FirstSerialFrom(q, i + 1)
  }

  /** Where the run of digits starting at `k` ends: `\d+` is greedy. */
  function DigitRunEnd(q: string, k: nat): (e: nat)
    requires k <= |q|
    decreases |q| - k
    ensures k <= e <= |q|
    ensures forall m :: k <= m < e ==> IsDigit(q[m])
    ensures e == |q| || !IsDigit(q[e])
  {
    if k == |q| || !IsDigit(q[k]) then k else DigitRunEnd(q, k + 1)
  }

  /** The first `/digits`: the query without it (`q.replace(/\/\d+/, "")`) and
      the digits (`q.match(/\/(\d+)/)[1]`). */
  datatype Serial = Serial(base: string, digits: string)

  function FindSerial(q: string): Option<Serial> {
    match FirstSerialFrom(q, 0)
    case None => None
    case Some(p) =>
      var e := DigitRunEnd(q, p + 1);
      Some(Serial(q[..p] + q[e..], q[p + 1..e]))
  }

  /** The three alternative serial notations: "base /n", "base #/n" and "base n/n". */
  function SerialVariants(q: string): (vs: seq<string>)
    ensures |vs| == 0 || |vs| == 3
  {
    match FindSerial(q)
    case None => []
    case Some(Serial(base, n)) => [base + " /" + n, base + " #/" + n, base + " " + n + "/" + n]
  }

  /** A serial is found exactly when a slash is followed by a digit; the digits
      are the whole run after the first such slash, and putting "/digits" back
      where it was gives the query. */
  lemma {:induction false} FindSerialSpec(q: string)
    ensures FindSerial(q).Some? <==> exists p :: SerialAt(q, p)
    ensures |SerialVariants(q)| == 3 <==> FindSerial(q).Some?
    ensures FindSerial(q).Some? ==>
      var p := FirstSerialFrom(q, 0).value;
      var sr := FindSerial(q).value;
      && sr.digits != []
      && (forall m :: 0 <= m < |sr.digits| ==> IsDigit(sr.digits[m]))
      && (p + 1 + |sr.digits| == |q| || !IsDigit(q[p + 1 + |sr.digits|]))
      && sr.base[..p] + "/" + sr.digits + sr.base[p..] == q
  {
    match FirstSerialFrom(q, 0)
    case None =>
    case Some(p) =>
      var e := DigitRunEnd(q, p + 1);
      var base := q[..p] + q[e..];
      assert base[..p] == q[..p] && base[p..] == q[e..];
      assert q == q[..p] + [q[p]] + q[p + 1..e] + q[e..];
  }
}
