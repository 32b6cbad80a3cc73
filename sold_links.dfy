/** soldLinks.js: from one card query, the list of query variations worth
    searching and, for each, the eBay search address restricted to sold and
    completed listings. */
module SoldLinks {
  import opened Wrappers
  import opened JsText
  import opened UriComponent
  import opened QueryRules

  // ---------------------------------------------------------------------------
  // search addresses

  /** `enc`: trimmed, whitespace runs collapsed, then `encodeURIComponent`. */
  function Enc(s: string): string {
    Encode(Collapse(Trim(s)))
  }

  const SearchPrefix: string := "https://www.ebay.com/sch/i.html?_nkw="

  const SoldParams: string := "&LH_Sold=1&LH_Complete=1&rt=nc"

  /** `ebaySoldUrl(keywordString, extraParams)`. */
  function EbaySoldUrl(keywords: string, extra: string): string {
    SearchPrefix + Enc(keywords) + SoldParams + extra
  }

  /** The text of `s` before its first `c`. */
  function TakeUntil(s: string, c: char): (r: string)
    ensures |r| <= |s| && r == s[..|r|]
    ensures forall i :: 0 <= i < |r| ==> r[i] != c
  {
    if s == [] || s[0] == c then [] else [s[0]] + TakeUntil(s[1..], c)
  }

  /** Reading a search address back: the `_nkw` parameter, percent-decoded. */
  function KeywordsOf(url: string): Option<string> {
    if |url| >= |SearchPrefix| && url[..|SearchPrefix|] == SearchPrefix
    then Decode(TakeUntil(url[|SearchPrefix|..], '&'))
    else None
  }

  lemma {:induction false} TakeUntilAppend(a: string, b: string, c: char)
    requires forall i :: 0 <= i < |a| ==> a[i] != c
    requires b != [] && b[0] == c
    ensures TakeUntil(a + b, c) == a
  {
    if a == [] {
      assert a + b == b;
    } else {
      assert (a + b)[1..] == a[1..] + b;
      TakeUntilAppend(a[1..], b, c);
    }
  }

  /** The keywords read back from a search address are the ones it was built
      from, trimmed and with whitespace collapsed; the extra parameters never
      disturb them. */
  lemma {:induction false} KeywordsRoundTrip(keywords: string, extra: string)
    ensures KeywordsOf(EbaySoldUrl(keywords, extra)) == Some(Collapse(Trim(keywords)))
  {
    var n := Collapse(Trim(keywords));
    EncodedHasNoAmpersand(n);
    ReadBack(Encode(n), extra);
    DecodeEncode(n);
  }

  /** Whatever follows the `_nkw` value, reading stops at the `&` of `&LH_Sold`. */
  lemma {:induction false} ReadBack(e: string, extra: string)
    requires forall i :: 0 <= i < |e| ==> e[i] != '&'
    ensures KeywordsOf(SearchPrefix + e + SoldParams + extra) == Decode(e)
  {
    var tail := SoldParams + extra;
    assert tail[0] == '&';
    ReadField(SearchPrefix, e, tail);
    AppendAssoc3(SearchPrefix + e, SoldParams, extra);
  }

  lemma {:induction false} AppendAssoc3(a: string, b: string, c: string)
    ensures a + b + c == a + (b + c)
  {
  }

  lemma {:induction false} EncodedHasNoAmpersand(s: string)
    ensures forall i :: 0 <= i < |Encode(s)| ==> Encode(s)[i] != '&'
  {
  }

  lemma {:induction false} ReadField(prefix: string, e: string, tail: string)
    requires forall i :: 0 <= i < |e| ==> e[i] != '&'
    requires tail != [] && tail[0] == '&'
    ensures (prefix + e + tail)[..|prefix|] == prefix
    ensures (prefix + e + tail)[|prefix|..] == e + tail
    ensures TakeUntil((prefix + e + tail)[|prefix|..], '&') == e
  {
    assert (prefix + e + tail)[|prefix|..] == e + tail;
    TakeUntilAppend(e, tail, '&');
  }

  /** A normalised query is searched for exactly as it is. */
  lemma {:induction false} KeywordsRoundTripNormalized(q: string, extra: string)
    requires IsNormalized(q)
    ensures KeywordsOf(EbaySoldUrl(q, extra)) == Some(q)
  {
    KeywordsRoundTrip(q, extra);
    TrimFixed(q);
    CollapseFixed(q);
  }

  /** The extra parameters are appended after the sold-and-completed ones. */
  lemma {:induction false} EbaySoldUrlExtra(keywords: string, extra: string)
    ensures EbaySoldUrl(keywords, extra) == EbaySoldUrl(keywords, "") + extra
  {
    AppendLast(SearchPrefix + Enc(keywords) + SoldParams, extra);
  }

  lemma {:induction false} AppendLast(a: string, b: string)
    ensures a + b == (a + "") + b
  {
    assert a + "" == a;
  }

  // ---------------------------------------------------------------------------
  // the variations

  /** The candidate list before normalising: the query, noPunct, noYear,
      autoSwap, the quoted-name form when there is one, and the serial forms. */
  function Candidates(q: string): seq<string> {
    [q, NoPunct(q), NoYear(q), AutoSwap(q)] + IfTruthy(WithQuotedName(q)) + SerialVariants(q)
  }

  /** `...(w ? [w] : [])`: a string is spread in when it exists and is not empty. */
  function IfTruthy(w: Option<string>): seq<string> {
    if w.Some? && w.value != [] then [w.value] else []
  }

  /** `.map((s) => normalize(s))` */
  function NormalizeAll(cs: seq<string>): (ns: seq<string>)
    ensures |ns| == |cs|
    ensures forall i :: 0 <= i < |cs| ==> ns[i] == Normalize(cs[i])
  {
    seq(|cs|, i requires 0 <= i < |cs| => Normalize(cs[i]))
  }

  /** `.filter((s) => s.length >= 5)` */
  function KeepLong(xs: seq<string>): (ys: seq<string>)
    ensures forall i :: 0 <= i < |ys| ==> Utf16Length(ys[i]) >= 5 && ys[i] in xs
  {
    if xs == [] then []
    else (if Utf16Length(xs[0]) >= 5 then [xs[0]] else []) + KeepLong(xs[1..])
  }

  /** No earlier entry has the same lower-cased key. */
  predicate FirstOfKey(vs: seq<string>, i: nat)
    requires i < |vs|
  {
    forall j :: 0 <= j < i ==> Lower(vs[j]) != Lower(vs[i])
  }

  /** The dedupe step: the entries whose lower-cased key has not been seen
      before, in their original order. */
  function Dedupe(vs: seq<string>): seq<string>
    decreases |vs|
  {
    if vs == [] then []
    else Dedupe(vs[..|vs| - 1]) + (if FirstOfKey(vs, |vs| - 1) then [vs[|vs| - 1]] else [])
  }

  function KeySet(vs: seq<string>): set<string> {
    set i | 0 <= i < |vs| :: Lower(vs[i])
  }

  /** `buildVariations(raw)`. */
  function Variations(raw: string): seq<string> {
    Dedupe(KeepLong(NormalizeAll(Candidates(Normalize(raw)))))
  }

  // ---------------------------------------------------------------------------
  // the dedupe step

  lemma {:induction false} KeySetSnoc(vs: seq<string>, v: string)
    ensures KeySet(vs + [v]) == KeySet(vs) + {Lower(v)}
  {
    var ws := vs + [v];
    forall k | k in KeySet(ws) ensures k in KeySet(vs) + {Lower(v)} {
      var i :| 0 <= i < |ws| && Lower(ws[i]) == k;
      if i < |vs| {
        assert ws[i] == vs[i];
      }
    }
    forall k | k in KeySet(vs) + {Lower(v)} ensures k in KeySet(ws) {
      if k in KeySet(vs) {
        var i :| 0 <= i < |vs| && Lower(vs[i]) == k;
        assert ws[i] == vs[i];
      } else {
        assert ws[|vs|] == v;
      }
    }
  }

  lemma {:induction false} FirstOfKeyIff(vs: seq<string>, i: nat)
    requires i < |vs|
    ensures FirstOfKey(vs, i) <==> Lower(vs[i]) !in KeySet(vs[..i])
  {
    if Lower(vs[i]) in KeySet(vs[..i]) {
      var j :| 0 <= j < i && Lower(vs[..i][j]) == Lower(vs[i]);
      assert vs[..i][j] == vs[j];
    }
    if !FirstOfKey(vs, i) {
      var j :| 0 <= j < i && Lower(vs[j]) == Lower(vs[i]);
      assert vs[..i][j] == vs[j];
    }
  }

  /** Deduplicating keeps one entry per lower-cased key: the key set is unchanged. */
  lemma {:induction false} DedupeKeys(vs: seq<string>)
    decreases |vs|
    ensures KeySet(Dedupe(vs)) == KeySet(vs)
  {
    if vs != [] {
      var n := |vs| - 1;
      var init := vs[..n];
      DedupeKeys(init);
      assert vs == init + [vs[n]];
      KeySetSnoc(init, vs[n]);
      FirstOfKeyIff(vs, n);
      if FirstOfKey(vs, n) {
        assert Dedupe(vs) == Dedupe(init) + [vs[n]];
        KeySetSnoc(Dedupe(init), vs[n]);
      } else {
        assert Dedupe(vs) == Dedupe(init);
      }
    }
  }

  /** No two entries left by the dedupe step share a lower-cased key. */
  lemma {:induction false} DedupeDistinct(vs: seq<string>)
    decreases |vs|
    ensures forall i, j :: 0 <= i < j < |Dedupe(vs)| ==> Lower(Dedupe(vs)[i]) != Lower(Dedupe(vs)[j])
  {
    if vs != [] {
      var n := |vs| - 1;
      var init := vs[..n];
      var d := Dedupe(init);
      DedupeDistinct(init);
      if FirstOfKey(vs, n) {
        DedupeKeys(init);
        FirstOfKeyIff(vs, n);
        forall i | 0 <= i < |d| ensures Lower(d[i]) != Lower(vs[n]) {
          assert Lower(d[i]) in KeySet(d);
        }
      }
    }
  }

  /** Every entry the dedupe step keeps comes from its input. */
  lemma {:induction false} DedupeSubset(vs: seq<string>)
    decreases |vs|
    ensures forall x :: x in Dedupe(vs) ==> x in vs
  {
    if vs != [] {
      var n := |vs| - 1;
      DedupeSubset(vs[..n]);
      assert forall x :: x in vs[..n] ==> x in vs;
    }
  }

  /** The first entry always survives the dedupe step, in first place. */
  lemma {:induction false} DedupeFirst(vs: seq<string>)
    requires vs != []
    decreases |vs|
    ensures Dedupe(vs) != [] && Dedupe(vs)[0] == vs[0]
  {
    var n := |vs| - 1;
    if n > 0 {
      DedupeFirst(vs[..n]);
    }
  }

  // ---------------------------------------------------------------------------
  // buildVariations, step by step

  /** The name search of `buildVariations`: the first two adjacent words that
      both look like names, quoted; the loop stops at the first such pair. */
  method FindQuotedName(words: seq<string>) returns (quotedName: Option<string>)
    requires |words| >= 1
    ensures quotedName.None? <==> NamePairFrom(words, 0).None?
    ensures quotedName.Some? ==>
      var k := NamePairFrom(words, 0).value;
      quotedName.value == Quoted(words[k], words[k + 1])
  {
    quotedName := None;
    var i := 0;
    while i < |words| - 1
      invariant 0 <= i < |words|
      invariant NamePairFrom(words, 0) == NamePairFrom(words, i)
    {
      if IsName(words[i]) && IsName(words[i + 1]) {
        quotedName := Some(Quoted(words[i], words[i + 1]));
        return;
      }
      i := i + 1;
    }
  }

  /** The dedupe loop of `buildVariations`: a set of the lower-cased keys seen
      so far decides whether each entry is kept. */
  method DedupeByKey(variations: seq<string>) returns (out: seq<string>)
    ensures out == Dedupe(variations)
  {
    var seen: set<string> := {};
    out := [];
    for k := 0 to |variations|
      invariant seen == KeySet(variations[..k])
      invariant out == Dedupe(variations[..k])
    {
      var key := Lower(variations[k]);
      DedupePrefixStep(variations, k);
      if key !in seen {
        seen := seen + {key};
        out := out + [variations[k]];
      }
    }
    assert variations[..|variations|] == variations;
  }

  /** One more entry of the input: its key joins the set, and it is kept
      exactly when its key was not in the set before. */
  lemma {:induction false} DedupePrefixStep(vs: seq<string>, k: nat)
    requires k < |vs|
    ensures KeySet(vs[..k + 1]) == KeySet(vs[..k]) + {Lower(vs[k])}
    ensures Dedupe(vs[..k + 1]) ==
      Dedupe(vs[..k]) + (if Lower(vs[k]) !in KeySet(vs[..k]) then [vs[k]] else [])
  {
    assert vs[..k + 1][..k] == vs[..k];
    FirstOfKeyIff(vs[..k + 1], k);
    KeySetSnoc(vs[..k], vs[k]);
    assert vs[..k + 1] == vs[..k] + [vs[k]];
  }

  /** The serial block of `buildVariations`: when the query holds `/digits`,
      the three alternative notations are pushed in order. */
  method PushSerialVariants(q: string) returns (serialVariants: seq<string>)
    ensures serialVariants == SerialVariants(q)
  {
    var serial := FindSerial(q);
    serialVariants := [];
    if serial.Some? {
      var base := serial.value.base;
      var n := serial.value.digits;
      serialVariants := serialVariants + [base + " /" + n];
      serialVariants := serialVariants + [base + " #/" + n];
      serialVariants := serialVariants + [base + " " + n + "/" + n];
    }
  }

  /** The quoted-name block of `buildVariations`: the name pair is searched
      for, and its occurrences in the query are wrapped in quotes through the
      regular expression built from the quoted name with its quotes removed. */
  method QuoteName(q: string) returns (withQuotedName: Option<string>)
    ensures withQuotedName == WithQuotedName(q)
  {
    var words := Split(q);
    var quotedName := FindQuotedName(words);
    withQuotedName := None;
    if quotedName.Some? {
      var name := quotedName.value;
      var k := NamePairFrom(words, 0).value;
      QuotedDropQuotes(words[k], words[k + 1]);
      withQuotedName := Some(ReplaceAllFrom(q, DropQuotes(name), name, 0));
    }
  }

  /** `buildVariations` as written: the candidates are assembled in the same
      order, normalised, filtered by length and deduplicated. */
  method BuildVariations(raw: string) returns (out: seq<string>)
    ensures out == Variations(raw)
  {
    var q := Normalize(raw);
    var noPunct := NoPunct(q);
    var serialVariants := PushSerialVariants(q);
    var noYear := NoYear(q);
    var autoSwap := AutoSwap(q);
    var withQuotedName := QuoteName(q);
    var list := [q, noPunct, noYear, autoSwap] + IfTruthy(withQuotedName) + serialVariants;
    var variations := KeepLong(NormalizeAll(list));
    out := DedupeByKey(variations);
  }

  /** The pattern `new RegExp(quotedName.replace(/"/g, ""), "g")` is the
      unquoted pair of names. */
  lemma {:induction false} QuotedDropQuotes(first: string, last: string)
    requires IsName(first) && IsName(last)
    ensures DropQuotes(Quoted(first, last)) == first + " " + last
  {
    var pat := first + " " + last;
    assert Quoted(first, last) == "\"" + pat + "\"";
    QuotesAroundDropped(pat);
    forall m | 0 <= m < |pat| ensures pat[m] != '"' {
      if m < |first| {
        assert pat[m] == first[m];
      } else if m > |first| {
        assert pat[m] == last[m - |first| - 1];
      }
    }
    NoQuotesDropQuotes(pat);
  }

  lemma {:induction false} NoQuotesDropQuotes(s: string)
    requires forall m :: 0 <= m < |s| ==> s[m] != '"'
    ensures DropQuotes(s) == s
  {
    if s != [] {
      NoQuotesDropQuotes(s[1..]);
    }
  }

  // ---------------------------------------------------------------------------
  // what buildVariations promises

  lemma {:induction false} KeepLongFirst(xs: seq<string>)
    requires xs != [] && Utf16Length(xs[0]) >= 5
    ensures KeepLong(xs) != [] && KeepLong(xs)[0] == xs[0]
  {
  }

  /** Every variation is a normalised query of at least five UTF-16 units. */
  lemma {:induction false} VariationsShape(raw: string)
    ensures forall i :: 0 <= i < |Variations(raw)| ==>
      IsNormalized(Variations(raw)[i]) && Utf16Length(Variations(raw)[i]) >= 5
  {
    PipelineShape(Candidates(Normalize(raw)));
  }

  /** No two variations differ only in letter case. */
  lemma {:induction false} VariationsDistinct(raw: string)
    ensures forall i, j :: 0 <= i < j < |Variations(raw)| ==>
      Lower(Variations(raw)[i]) != Lower(Variations(raw)[j])
  {
    PipelineShape(Candidates(Normalize(raw)));
  }

  /** The normalise, filter and dedupe steps, whatever the candidates. */
  lemma {:induction false} PipelineShape(cs: seq<string>)
    ensures forall i :: 0 <= i < |Dedupe(KeepLong(NormalizeAll(cs)))| ==>
      IsNormalized(Dedupe(KeepLong(NormalizeAll(cs)))[i]) && Utf16Length(Dedupe(KeepLong(NormalizeAll(cs)))[i]) >= 5
    ensures forall i, j :: 0 <= i < j < |Dedupe(KeepLong(NormalizeAll(cs)))| ==>
      Lower(Dedupe(KeepLong(NormalizeAll(cs)))[i]) != Lower(Dedupe(KeepLong(NormalizeAll(cs)))[j])
  {
    var ns := NormalizeAll(cs);
    var ks := KeepLong(ns);
    DedupeSubset(ks);
    DedupeDistinct(ks);
    NormalizeAllNormalized(cs);
    var vs := Dedupe(ks);
    forall i | 0 <= i < |vs| ensures IsNormalized(vs[i]) && Utf16Length(vs[i]) >= 5 {
      assert vs[i] in ks;
      var j :| 0 <= j < |ks| && ks[j] == vs[i];
      assert ks[j] in ns;
    }
  }

  lemma {:induction false} NormalizeAllNormalized(cs: seq<string>)
    ensures forall x :: x in NormalizeAll(cs) ==> IsNormalized(x)
  {
    forall x | x in NormalizeAll(cs) ensures IsNormalized(x) {
      var i :| 0 <= i < |cs| && NormalizeAll(cs)[i] == x;
      NormalizeIsNormalized(cs[i]);
    }
  }

  /** When the normalised query is long enough it is the first variation. */
  lemma {:induction false} VariationsFirst(raw: string)
    requires Utf16Length(Normalize(raw)) >= 5
    ensures Variations(raw) != [] && Variations(raw)[0] == Normalize(raw)
  {
    var q := Normalize(raw);
    var ns := NormalizeAll(Candidates(q));
    NormalizeIdempotent(raw);
    assert ns[0] == q;
    KeepLongFirst(ns);
    DedupeFirst(KeepLong(ns));
  }

  lemma {:induction false} KeepLongKeeps(xs: seq<string>, i: nat)
    requires i < |xs| && Utf16Length(xs[i]) >= 5
    ensures xs[i] in KeepLong(xs)
  {
    if i > 0 {
      KeepLongKeeps(xs[1..], i - 1);
    }
  }

  /** The filter keeps the candidates' order: filtering a concatenation
      filters each part in turn. */
  lemma {:induction false} KeepLongAppend(a: seq<string>, b: seq<string>)
    decreases |a|
    ensures KeepLong(a + b) == KeepLong(a) + KeepLong(b)
  {
    if a == [] {
      assert a + b == b;
    } else {
      assert (a + b)[0] == a[0] && (a + b)[1..] == a[1..] + b;
      KeepLongAppend(a[1..], b);
      var head := if Utf16Length(a[0]) >= 5 then [a[0]] else [];
      assert head + (KeepLong(a[1..]) + KeepLong(b)) == (head + KeepLong(a[1..])) + KeepLong(b);
    }
  }

  /** A single candidate is kept exactly when it has at least five UTF-16 units. */
  lemma {:induction false} KeepLongSingle(x: string)
    ensures KeepLong([x]) == if Utf16Length(x) >= 5 then [x] else []
  {
  }

  /** Every candidate that is still long enough once normalised is searched
      for, possibly in another letter case. */
  lemma {:induction false} VariationsCover(raw: string, i: nat)
    requires i < |Candidates(Normalize(raw))|
    requires Utf16Length(Normalize(Candidates(Normalize(raw))[i])) >= 5
    ensures Lower(Normalize(Candidates(Normalize(raw))[i])) in KeySet(Variations(raw))
  {
    var ns := NormalizeAll(Candidates(Normalize(raw)));
    var ks := KeepLong(ns);
    KeepLongKeeps(ns, i);
    var j :| 0 <= j < |ks| && ks[j] == ns[i];
    assert Lower(ks[j]) in KeySet(ks);
    DedupeKeys(ks);
  }

  // ---------------------------------------------------------------------------
  // main

  /** One numbered line of the report: a variation and its search address. */
  datatype Link = Link(query: string, url: string)

  /** The three sections printed by `main`. */
  datatype Report = Report(core: seq<Link>, auctionOnly: seq<Link>, category: seq<Link>)

  const Usage: string := "Usage: node soldLinks.js <card query>"

  const AuctionParam: string := "&LH_Auction=1"

  const CategoryParam: string := "&_sacat=212"

  function LinksFor(vs: seq<string>, extra: string): (ls: seq<Link>)
    ensures |ls| == |vs|
    ensures forall i :: 0 <= i < |vs| ==> ls[i] == Link(vs[i], EbaySoldUrl(vs[i], extra))
  {
    seq(|vs|, i requires 0 <= i < |vs| => Link(vs[i], EbaySoldUrl(vs[i], extra)))
  }

  /** `process.argv.slice(2).join(" ")` */
  function JoinArgs(args: seq<string>): string {
    if args == [] then [] else Join(args)
  }

  /** `main`: the usage message (exit status 1) when the arguments are blank,
      otherwise every variation, then the first four again restricted to
      auctions and to category 212. */
  function SoldLinksMain(args: seq<string>): Result<Report, string> {
    var input := Trim(JoinArgs(args));
    if input == [] then Err(Usage)
    else
      var vars := Variations(input);
      var top := if |vars| <= 4 then vars else vars[..4];
      Ok(Report(LinksFor(vars, ""), LinksFor(top, AuctionParam), LinksFor(top, CategoryParam)))
  }

  /** The three sections of the report built from the variations `vars`: every
      variation, then the first four with the auction filter and with the
      category filter appended to the same address. */
  lemma {:induction false} ReportSpec(vars: seq<string>)
    ensures
      var top := if |vars| <= 4 then vars else vars[..4];
      var core := LinksFor(vars, "");
      var auctionOnly := LinksFor(top, AuctionParam);
      var category := LinksFor(top, CategoryParam);
      && |core| == |vars|
      && |auctionOnly| == |category| == (if |vars| < 4 then |vars| else 4)
      && (forall i :: 0 <= i < |core| ==> core[i].query == vars[i])
      && (forall i :: 0 <= i < |auctionOnly| ==>
            auctionOnly[i].query == vars[i] && auctionOnly[i].url == core[i].url + AuctionParam
            && category[i].query == vars[i] && category[i].url == core[i].url + CategoryParam)
  {
    var top := if |vars| <= 4 then vars else vars[..4];
    forall i | 0 <= i < |top|
      ensures top[i] == vars[i]
      ensures EbaySoldUrl(vars[i], AuctionParam) == EbaySoldUrl(vars[i], "") + AuctionParam
      ensures EbaySoldUrl(vars[i], CategoryParam) == EbaySoldUrl(vars[i], "") + CategoryParam
    {
      EbaySoldUrlExtra(vars[i], AuctionParam);
      EbaySoldUrlExtra(vars[i], CategoryParam);
    }
  }

  /** The usage message is printed exactly when the arguments are all
      whitespace; otherwise the report is the one built from the variations of
      the trimmed, joined arguments. */
  lemma {:induction false} SoldLinksMainSpec(args: seq<string>)
    ensures SoldLinksMain(args).Err? <==> AllSpace(JoinArgs(args))
    ensures SoldLinksMain(args).Err? ==> SoldLinksMain(args).error == Usage
    ensures SoldLinksMain(args).Ok? ==>
      var vars := Variations(Trim(JoinArgs(args)));
      var top := if |vars| <= 4 then vars else vars[..4];
      SoldLinksMain(args).value == Report(LinksFor(vars, ""), LinksFor(top, AuctionParam), LinksFor(top, CategoryParam))
  {
    TrimEmptyIffAllSpace(JoinArgs(args));
  }
}
