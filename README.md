# eBay card tools: token cache, sold-listing links and `.env` token storage

This project models the core of a small Node.js toolset for pricing
trading cards on eBay, and proves properties of that model.

- **`server.js`** keeps an eBay production application token between
  requests.
  - `getProdAppToken` serves the cached token while it is live.
  - `fetchProdAppToken` refills the cache with a 60-second safety margin.
  - `/ebay/browse` proxies a search and, when eBay answers 401, clears the
    cache and retries once.
  - `/ebay/sold-links` formats three sold-listing search addresses.
- **`soldLinks.js`** turns one card query into an ordered, deduplicated list
  of query variations.
  - The rewrite rules are: bracket strip, year removal, "autograph" to
    "auto", the quoted player name, and serial-number notations.
  - For each variation it builds the eBay search address restricted to sold
    and completed listings.
  - `main` prints every variation, then the first four again with an
    auction-only filter and a category-212 filter.
- **`saveAppTokenToEnv.js`** and **`saveProdAppToken.js`** take a token from
  an OAuth answer (or from the terminal, for the second script).
  - Each refuses a token shorter than 100 characters.
  - Each writes `KEY=value` into the `.env` text. The first `KEY=` line is
    replaced through `String.prototype.replace` with `/^KEY=.*$/m`; with no
    such line, the new line is appended after `trimEnd()`.

**Dafny modules**

- `JsText` holds the JavaScript string operations the scripts rely on:
  - the ECMAScript whitespace set behind `\s`, `trim` and `trimEnd`;
  - whitespace collapsing;
  - ASCII `toLowerCase`;
  - `.length` in UTF-16 code units.
- `UriComponent` models `encodeURIComponent`.
  - It encodes each character as UTF-8 bytes.
  - It escapes every character outside the unreserved set of section 2.3 of
    RFC 3986 (keeping `!'()*`, as `encodeURIComponent` does).
  - It comes with a percent-decoder that inverts it.
- `QueryRules` holds the rewrite rules of `buildVariations`, each as a
  function of the query.
- `SoldLinks` holds the address builder, the variation pipeline and `main`.
  The imperative parts of `buildVariations` are methods proved equal to
  the pipeline function: the serial pushes, the name loop with `break`,
  and the dedupe loop over a `Set`.
- `EnvFile` holds the `.env` upsert both token scripts share.
  - It follows the `m`-flag regular expression line by line.
  - It includes the `$` substitution patterns of `String.prototype.replace`.
- `SaveAppToken` and `SaveProdToken` hold the two scripts' extraction, gate
  and rewrite. The `let env` reassignments are methods proved equal to an
  outcome function.
- `TokenServer` holds `server.js`.
  - Pure step functions (`GetStep`, `FetchStep`, `CallOnceStep`,
    `BrowseStep`) say what each operation returns, what the cache becomes,
    and which requests it sends to eBay.
  - The class `ProdTokenCache` holds the two module-level variables, with a
    ghost log of sent requests. Its methods follow the source statement by
    statement and are proved to agree with the step functions.

Parameters stand in for what the model does not run: the clock, the
environment variables, eBay's answers, `JSON.parse`, `Buffer`'s base64
encoder and the contents of `.env`.

**Behaviour of the source worth noting**

- `/ebay/sold-links` only rejects a query that is empty once trimmed; there
  is no minimum length.
- `buildSoldLinks` in `server.js` encodes the trimmed query without
  collapsing inner whitespace.
  - `TokenServer.BuildSoldLinksAgrees` shows it agrees with `soldLinks.js`
    whenever there is nothing to collapse.
- `buildVariations` filters every candidate by length, the query itself
  included. A normalised query shorter than 5 units therefore yields no
  variation at all.
  - `SoldLinks.VariationsShape` states this for every result.
  - `SoldLinks.VariationsFirst` gives the normalised query first place only
    when it is at least 5 long.

## Model

| member | source | states |
|---|---|---|
| JsText.TrimStart | soldLinks.js:26 | the result is a suffix of the input, the removed prefix is all whitespace, and the result does not start with whitespace |
| JsText.TrimEnd | saveAppTokenToEnv.js:47 | the result is a prefix of the input, the removed suffix is all whitespace, and the result does not end with whitespace |
| JsText.TrimSlice | soldLinks.js:26 | `trim()` is one contiguous slice of the input, with only whitespace cut on either side and no whitespace left at either end |
| JsText.TrimEmptyIffAllSpace | server.js:23-24 | trimming gives the empty string exactly when the input is all whitespace |
| JsText.TrimFixed | soldLinks.js:26 | trimming a string with no whitespace at either end returns it unchanged |
| JsText.TrimVisible | soldLinks.js:26 | trimming never removes a non-whitespace character |
| JsText.Collapse | soldLinks.js:25 | `replace(/\s+/g, " ")` leaves no whitespace other than single plain spaces, never lengthens the text, keeps it non-empty, and keeps whitespace at either end as it was; `CollapseRun` states that each run becomes exactly one space |
| JsText.CollapseVisible | soldLinks.js:25 | collapsing keeps every non-whitespace character, in order |
| JsText.CollapseChars | soldLinks.js:25 | collapsing introduces no character except the space |
| JsText.CollapseFixed | soldLinks.js:25 | collapsing text that is already collapsed changes nothing |
| JsText.CollapseAppend | soldLinks.js:25 | text ending in a visible character collapses independently of what follows: the collapse of `a + b` is the collapse of `a` followed by the collapse of `b` |
| JsText.CollapseSpaces | soldLinks.js:25 | a non-empty whitespace run up to the next visible character becomes a single plain space |
| JsText.CollapseRun | soldLinks.js:25 | a whitespace run between two pieces of text becomes exactly one space, and each piece collapses on its own, so no two words are glued together |
| JsText.TrimStartSpaces | soldLinks.js:26 | `trimStart` of whitespace followed by text starting with a visible character is that text |
| JsText.TrimStartAppend | soldLinks.js:26 | once a visible character is reached, `trimStart` keeps everything that follows |
| UriComponent.Encode | soldLinks.js:6 | `encodeURIComponent` output holds only unreserved characters and `%` |
| UriComponent.EncodeAppend | soldLinks.js:6 | encoding works character by character: the encoding of a concatenation is the concatenation of the encodings |
| UriComponent.Utf8RoundTrip | soldLinks.js:6 | every character's UTF-8 bytes decode back to the character, with a correct lead byte |
| UriComponent.DecodeEncode | soldLinks.js:6 | percent-decoding the encoding of any string gives the string back |
| UriComponent.EncodeInjective | server.js:81-83 | different queries are encoded differently |
| QueryRules.Straighten | soldLinks.js:23-24 | curly double quotes become `"`, the curly apostrophe `'`, and every other character is kept |
| QueryRules.Normalize | soldLinks.js:21-27 | defines `normalize` as straightening quotes, then collapsing whitespace runs, then trimming; `NormalizeIsNormalized`, `NormalizedFixed`, `NormalizeIdempotent` and `NormalizeVisible` state what it guarantees |
| QueryRules.NormalizeIsNormalized | soldLinks.js:21-27 | `normalize` output has no curly quote, no whitespace other than single plain spaces, and no whitespace at either end |
| QueryRules.NormalizedFixed | soldLinks.js:21-27 | a string already in normal form is left unchanged by `normalize` |
| QueryRules.NormalizeIdempotent | soldLinks.js:21-27 | `normalize` is idempotent |
| QueryRules.NormalizeVisible | soldLinks.js:21-27 | apart from straightening quotes, `normalize` only changes whitespace |
| QueryRules.BracketsToSpaces | soldLinks.js:38 | each of `\| ( ) [ ] { }` becomes a space and every other character is kept |
| QueryRules.NoPunct | soldLinks.js:38 | defines `noPunct` as brackets to spaces, then collapse and trim; `NoPunctSpec` states what it keeps and removes |
| QueryRules.NoPunctSpec | soldLinks.js:38 | `noPunct` holds no bracket, and its non-whitespace characters are exactly those of the query without brackets |
| QueryRules.ReplaceWordsFrom | soldLinks.js:53-57 | defines the global whole-word replacement as a left-to-right scan: at a `\b`-bounded match the replacement is emitted and the match skipped, otherwise one character is copied; `ReplaceWordsByWord` relates it to a word-by-word rewrite |
| QueryRules.NoYear | soldLinks.js:53 | defines `noYear` as the year rule, then collapse and trim |
| QueryRules.AutoSwap | soldLinks.js:56-59 | defines `autoSwap` as the "autograph" rule, then collapse and trim |
| QueryRules.ReplaceWordsByWord | soldLinks.js:53-59 | the scan equals a rewrite of the text run by run: every character outside a word is copied; a maximal word run that is a four-digit year starting 19 or 20 becomes "", one equal to "autograph" in any ASCII case becomes "auto", and every other run is copied unchanged |
| QueryRules.ReplaceWordsKeepsNonWord | soldLinks.js:53 | the characters outside words are the same, in the same order, before and after a whole-word replacement |
| QueryRules.ReplaceWordsRemovesAll | soldLinks.js:53 | after the global replacement no whole-word match is left, even where a replacement made new word boundaries |
| QueryRules.ReplaceWordsIdentity | soldLinks.js:56-57 | text with no whole-word match is left as it is |
| QueryRules.ReplaceWordsIdempotent | soldLinks.js:56-57 | applying a whole-word rule twice is the same as applying it once |
| QueryRules.JoinSplit | soldLinks.js:62 | joining the words of `q.split(" ")` with spaces gives `q` back |
| QueryRules.SplitJoin | soldLinks.js:62 | splitting space-free words joined by spaces gives the words back |
| QueryRules.Split | soldLinks.js:62 | `split(" ")` gives at least one piece and no piece holds a space |
| QueryRules.JoinContainsPair | soldLinks.js:62-67 | two adjacent words, with a space between them, occur in the query they were split from |
| QueryRules.NamePairFrom | soldLinks.js:65-70 | the result is the first index from which two consecutive words both match `^[A-Z][a-z]+$`; with no result, no such pair exists |
| QueryRules.DropQuotesAppend | soldLinks.js:73 | `replace(/"/g, "")` distributes over concatenation |
| QueryRules.ReplaceAllSpec | soldLinks.js:73 | a global replacement of a pattern that occurs emits the replacement, and changes nothing but `"` characters when pattern and replacement differ only in `"` |
| QueryRules.WithQuotedName | soldLinks.js:62-74 | defines `withQuotedName`: `None` without an adjacent name pair, otherwise the query with every occurrence of the first pair replaced by the quoted pair |
| QueryRules.QuotePairSpec | soldLinks.js:62-74 | quoting a name pair of the query yields text that contains the quoted name and differs from the query only in `"` |
| QueryRules.WithQuotedNameSpec | soldLinks.js:62-74 | the quoted-name candidate exists exactly when two capitalised words stand side by side, holds the first such pair quoted, and differs from the query only in `"` |
| QueryRules.FirstOccurrence | soldLinks.js:73 | the result is the first position at or after the start where the pattern occurs; with no result, it occurs nowhere from there on |
| QueryRules.ReplaceAllPieces | soldLinks.js:73 | the `g`-flag replacement equals the text split on the pattern (leftmost occurrences, each after the previous one) and joined with the replacement |
| QueryRules.PiecesJoin | soldLinks.js:73 | joining the pieces with the pattern gives the text back |
| QueryRules.PiecesFree | soldLinks.js:73 | no piece contains the pattern, so every occurrence was cut out |
| QueryRules.WithQuotedNameQuotesAll | soldLinks.js:62-74 | the quoted-name candidate is the query split on "First Last" and joined with the quoted name; the pieces rebuild the query and none contains the pair, so every occurrence is quoted and all other text is kept |
| QueryRules.SerialVariants | soldLinks.js:45-50 | there are no serial variants or exactly three: the base followed by ` /n`, ` #/n` and ` n/n` |
| QueryRules.FirstSerialFrom | soldLinks.js:33-34 | the result is the first position where `/` is followed by a digit; with no result, there is none |
| QueryRules.DigitRunEnd | soldLinks.js:34 | `\d+` takes the whole run of digits |
| QueryRules.FindSerialSpec | soldLinks.js:33-50 | serial variants exist exactly when a `/` is followed by a digit, and then there are three; the digits are the whole run after the first such slash, and putting `/digits` back into the base gives the query |
| SoldLinks.Enc | soldLinks.js:5-7 | defines `enc` as trim, collapse, then `encodeURIComponent`; `KeywordsRoundTrip` states that decoding gives the trimmed, collapsed text back |
| SoldLinks.EbaySoldUrl | soldLinks.js:10-18 | defines `ebaySoldUrl` as the search address, the encoded keywords, the sold-and-completed parameters and the extra parameters; `KeywordsRoundTrip` and `EbaySoldUrlExtra` state its properties |
| SoldLinks.TakeUntil | soldLinks.js:13-14 | the value read back from an address is a prefix free of `&` |
| SoldLinks.KeywordsRoundTrip | soldLinks.js:5-18 | the `_nkw` parameter of `ebaySoldUrl(k, extra)` decodes to `k` trimmed and collapsed, whatever `extra` is |
| SoldLinks.KeywordsRoundTripNormalized | soldLinks.js:5-18 | a normalised query is searched for exactly as it is |
| SoldLinks.EbaySoldUrlExtra | soldLinks.js:10-18 | the extra parameters come after the sold-and-completed ones: `ebaySoldUrl(k, extra) == ebaySoldUrl(k) + extra` |
| SoldLinks.Candidates | soldLinks.js:77-84 | defines the candidate list: the query, `noPunct`, `noYear`, `autoSwap`, the quoted-name form when it is a non-empty string, then the serial forms |
| SoldLinks.NormalizeAll | soldLinks.js:85 | the map keeps the length and normalises each candidate in place |
| SoldLinks.KeepLong | soldLinks.js:86 | every kept string is a candidate of at least 5 UTF-16 units |
| SoldLinks.KeepLongKeeps | soldLinks.js:86 | every candidate of at least 5 units is kept |
| SoldLinks.KeepLongAppend | soldLinks.js:86 | the filter keeps the candidates in their order: filtering a concatenation is filtering each part, one after the other |
| SoldLinks.KeepLongSingle | soldLinks.js:86 | a single candidate is kept exactly when it has at least 5 UTF-16 units |
| SoldLinks.Dedupe | soldLinks.js:88-98 | defines the dedupe step as the entries whose lower-cased key no earlier entry has, in order; `DedupeKeys`, `DedupeDistinct`, `DedupeSubset` and `DedupeFirst` state its properties |
| SoldLinks.DedupeKeys | soldLinks.js:88-98 | deduplication keeps one entry for every lower-cased key of the input |
| SoldLinks.DedupeDistinct | soldLinks.js:88-98 | no two kept entries share a lower-cased key |
| SoldLinks.DedupeSubset | soldLinks.js:88-98 | every kept entry comes from the input |
| SoldLinks.DedupeFirst | soldLinks.js:88-98 | the first entry always survives, in first place |
| SoldLinks.FirstOfKeyIff | soldLinks.js:92-93 | an entry is the first with its key exactly when its key is not in the set of keys seen before it |
| SoldLinks.DedupePrefixStep | soldLinks.js:91-96 | one more loop iteration adds the key to `seen` and pushes the entry exactly when its key was not there |
| SoldLinks.DedupeByKey | soldLinks.js:88-98 | the loop over a `Set` of lower-cased keys computes the order-preserving first-of-each-key subsequence |
| SoldLinks.FindQuotedName | soldLinks.js:62-70 | the loop with `break` finds a name exactly when a pair exists, and then quotes the first pair |
| SoldLinks.PushSerialVariants | soldLinks.js:45-50 | the pushes produce the three serial notations, or nothing without a serial |
| SoldLinks.QuoteName | soldLinks.js:72-74 | the regular expression built from the quoted name with its quotes removed gives the quoted-name candidate |
| SoldLinks.QuotedDropQuotes | soldLinks.js:73 | removing the quotes from `"First Last"` gives the pattern `First Last` |
| SoldLinks.Variations | soldLinks.js:29-99 | defines `buildVariations` as normalise, candidates, normalise each, keep at least 5 units, dedupe; `VariationsShape`, `VariationsDistinct`, `VariationsFirst` and `VariationsCover` state its properties |
| SoldLinks.BuildVariations | soldLinks.js:29-99 | `buildVariations` as written computes the variation pipeline |
| SoldLinks.VariationsShape | soldLinks.js:85-86 | every variation is in normal form and at least 5 UTF-16 units long |
| SoldLinks.VariationsDistinct | soldLinks.js:88-98 | no two variations are equal after lower-casing |
| SoldLinks.PipelineShape | soldLinks.js:77-98 | normalise, filter and dedupe give normalised, long, case-distinct results for any candidate list |
| SoldLinks.VariationsFirst | soldLinks.js:30-86 | when the normalised query is at least 5 long, it is the first variation |
| SoldLinks.VariationsCover | soldLinks.js:77-98 | every candidate still long enough once normalised is searched for, possibly in another letter case |
| SoldLinks.LinksFor | soldLinks.js:114-116 | one numbered link per variation, each pairing the variation with its search address |
| SoldLinks.ReportSpec | soldLinks.js:113-132 | section A lists every variation; sections B and C list the first four, with addresses equal to A's plus `&LH_Auction=1` or `&_sacat=212` |
| SoldLinks.SoldLinksMain | soldLinks.js:101-135 | defines `main`: the usage error for blank arguments, otherwise every variation and the first four with the auction and category filters |
| SoldLinks.SoldLinksMainSpec | soldLinks.js:101-135 | usage (exit 1) exactly when the joined arguments are blank; otherwise the report of the variations of the trimmed, joined arguments |
| EnvFile.LineEnd | saveAppTokenToEnv.js:44-45 | `.*$` under the `m` flag stops at the first line terminator or at the end |
| EnvFile.FirstKeyLineFrom | saveAppTokenToEnv.js:44 | the result is the first position that starts a line beginning with `KEY=`; with no result, no line does |
| EnvFile.Substitute | saveAppTokenToEnv.js:45 | defines the replacement string of `String.prototype.replace`: `$$`, `$&`, `` $` `` and `$'` are expanded, every other character is copied |
| EnvFile.SubstituteLiteral | saveAppTokenToEnv.js:45 | a replacement string without `$` is inserted literally |
| EnvFile.ReplaceKeyLine | saveAppTokenToEnv.js:44-45 | defines `env.replace(/^KEY=.*$/m, rep)`: the first `KEY=` line, up to its line end, is replaced through `Substitute`; without one the text is unchanged |
| EnvFile.UpsertEnvLine | saveAppTokenToEnv.js:44-47 | defines the upsert: the first `KEY=` line is replaced, or the line is appended after `trimEnd()` |
| EnvFile.UpsertReplacesFirst | saveAppTokenToEnv.js:42-45 | with a `KEY=` line present, only the first one, up to its line end, becomes `KEY=value`; the text before and after is kept |
| EnvFile.ReplacedSpanIsOneLine | saveAppTokenToEnv.js:45 | the replaced text is one whole line, without its terminator |
| EnvFile.UpsertAppends | saveAppTokenToEnv.js:46-47 | with no `KEY=` line, the result is `trimEnd(env) + "\n" + line + "\n"`, and `"\n" + line + "\n"` for an empty file |
| EnvFile.UpsertHasLine | saveAppTokenToEnv.js:42-48 | afterwards the text holds `KEY=value` as a whole line, when the value is one line without `$` |
| EnvFile.FirstKeyLineAfterReplace | saveAppTokenToEnv.js:44-45 | after a replacement the written line is the first `KEY=` line and ends where the written text ends |
| EnvFile.FirstKeyLineAfterAppend | saveAppTokenToEnv.js:46-47 | after an append the appended line is the first `KEY=` line |
| EnvFile.UpsertIdempotent | saveAppTokenToEnv.js:42-48 | writing the same line a second time changes nothing |
| EnvFile.KeyLinesDistinct | saveProdAppToken.js:23-25 | no line starts with `KEY=` for two different keys free of `=` |
| SaveAppToken.ExtractAccessToken | saveAppTokenToEnv.js:4-25 | the extracted token is `null` or truthy |
| SaveAppToken.ExtractIsFirstTruthy | saveAppTokenToEnv.js:4-25 | the chain of cases is the first truthy value of `obj.access_token`, the parsed string's `access_token`, `body.access_token` and `data.access_token` |
| SaveAppToken.FirstTruthySpec | saveAppTokenToEnv.js:4-25 | the first truthy value is `null` exactly when no candidate is truthy, and otherwise every earlier candidate is falsy |
| SaveAppToken.ExtractNonJson | saveAppTokenToEnv.js:10-24 | a string that is not JSON yields `null` rather than an error |
| SaveAppToken.GateOnStrings | saveAppTokenToEnv.js:33 | for a string token the gate rejects exactly fewer than 100 UTF-16 units |
| SaveAppToken.NatString | saveAppTokenToEnv.js:42 | a number's decimal text is a non-empty run of digits with no leading zero |
| SaveAppToken.NatStringValue | saveAppTokenToEnv.js:42 | the digits written for `n` read back, left to right in base 10, as `n` |
| SaveAppToken.NatStringOfValue | saveAppTokenToEnv.js:42 | every digit string without a leading zero is the text written for its value, so each number has exactly one spelling |
| SaveAppToken.SaveAppTokenOutcome | saveAppTokenToEnv.js:31-50 | defines what `run` ends with after the OAuth call: the error for a falsy or short token, otherwise the `.env` text with the token line upserted |
| SaveAppToken.RunSaveAppToken | saveAppTokenToEnv.js:31-50 | `run` after the OAuth call ends with the outcome function: the error, or the `.env` text written |
| SaveAppToken.SaveAppTokenGate | saveAppTokenToEnv.js:33-37 | a `null` token raises before anything is written; a string token is written exactly when it has at least 100 units |
| SaveAppToken.SaveAppTokenWritesLine | saveAppTokenToEnv.js:42-50 | a written token appears as the whole line `EBAY_APP_ACCESS_TOKEN=<token>` when it is one line without `$` |
| SaveAppToken.SaveAppTokenEdits | saveAppTokenToEnv.js:40-47 | only the first `EBAY_APP_ACCESS_TOKEN=` line is rewritten, else the line is appended after `trimEnd()`; a missing file gives the line between two newlines |
| SaveProdToken.SaveProdOutcome | saveProdAppToken.js:10-32 | defines what the callback ends with: the too-short message when the trimmed token is under 100 units, otherwise the `.env` text with the base64 line upserted |
| SaveProdToken.RunSaveProdToken | saveProdAppToken.js:10-32 | the callback ends with the outcome function: the message, or the `.env` text written |
| SaveProdToken.ProdIgnoresSurroundingSpace | saveProdAppToken.js:11-13 | surrounding whitespace changes neither the gate nor what is stored; the gate rejects exactly a trimmed length below 100 |
| SaveProdToken.ProdWritesLine | saveProdAppToken.js:19-32 | after a successful run the text holds `EBAY_APP_ACCESS_TOKEN_B64_PROD=<base64 of the trimmed token>` as a whole line |
| SaveProdToken.Base64Writable | saveProdAppToken.js:19-26 | base64 text is written verbatim after the key |
| SaveProdToken.ProdEdits | saveProdAppToken.js:23-30 | only the first `EBAY_APP_ACCESS_TOKEN_B64_PROD=` line is rewritten up to its line end; otherwise the line is appended after `trimEnd()` |
| SaveProdToken.KeysKeepApart | saveProdAppToken.js:23-25 | the line either script rewrites never starts with the other script's key and `=` |
| TokenServer.RequireEnv | server.js:22-26 | defines `requireEnv`: the missing-variable error for an absent or blank variable, otherwise the trimmed value |
| TokenServer.RequireEnvFails | server.js:22-26 | `requireEnv` throws exactly when the variable is missing or blank, and otherwise returns the trimmed value |
| TokenServer.RequireEnvSpec | server.js:22-26 | a returned value is non-empty, has no whitespace at either end, and keeps every other character of the variable |
| TokenServer.ExpiryBounds | server.js:55-58 | the expiry is never before `now`; it is `now + (expiresIn - 60) * 1000` or `now`, and `now + 7140000` for the default 7200 seconds |
| TokenServer.FetchStep | server.js:28-61 | defines `fetchProdAppToken`: the first missing credential as error with nothing sent, otherwise the token step |
| TokenServer.TokenStep | server.js:40-60 | defines the token request: one `TokenRequest`; an unreadable body, a non-ok status or a falsy `access_token` is an error with the cache kept, otherwise the token is returned and cached with its expiry |
| TokenServer.FetchWithoutCredentials | server.js:28-30 | without both credentials the fetch fails before any request, naming the first one missing, and the cache is kept |
| TokenServer.FetchWithCredentials | server.js:28-47 | with both credentials set the fetch is the token request |
| TokenServer.FetchNeedsCredentials | server.js:28-53 | exactly one token request with credentials, none without; a failed fetch leaves the cache as it was |
| TokenServer.TokenStepSpec | server.js:40-60 | the fetch succeeds exactly for an ok reply with a non-empty `access_token`; it then returns and caches that token with an expiry no earlier than `now`, and otherwise leaves the cache alone |
| TokenServer.GetStep | server.js:63-68 | defines `getProdAppToken`: the cached token while it is set and live, otherwise the fetch step |
| TokenServer.GetSpec | server.js:63-68 | the cached token is returned with no request and no change exactly while it is set and `now < expiresAt`; otherwise a fetch happens |
| TokenServer.FreshTokenServed | server.js:57-65 | a token just fetched is served from the cache, without a request, at any later time before its expiry |
| TokenServer.CallOnceStep | server.js:79-94 | defines `callOnce`: get a token, then one search with it; a failed get or an unanswered search is an error |
| TokenServer.GetSendsNoSearch | server.js:63-68 | getting a token sends no search request |
| TokenServer.SearchCountAppend | server.js:97-103 | searches in two request logs add up |
| TokenServer.CallOnceSpec | server.js:79-94 | `callOnce` sends at most one search, as its last request and with the token it got; it succeeds exactly when the search was answered |
| TokenServer.BrowseStep | server.js:74-110 | defines the `/ebay/browse` handler: 400 for a trimmed query under 3 units, otherwise `Retrying` |
| TokenServer.Retrying | server.js:96-108 | defines the call and single retry: a failed call is a 500, a non-401 answer is passed on, and a 401 leads to a second call from the cleared cache |
| TokenServer.BrowseShortQuery | server.js:76-77 | a trimmed query shorter than 3 UTF-16 units is answered 400 with no request and no cache change; no other query gets that answer |
| TokenServer.RetryingAnswersUpstream | server.js:79-108 | past the length check the answer is eBay's or a 500 failure, never the 400 body |
| TokenServer.AtMostTwoSearches | server.js:97-104 | at most two searches, the second only after the first was answered 401 |
| TokenServer.RetryFetchesFresh | server.js:100-103 | the second search follows a fresh token request and carries the token it returned |
| TokenServer.RetryCallSpec | server.js:101-103 | a `callOnce` from the cleared cache that reaches the search sends exactly a token request and that search |
| TokenServer.AnswersLast | server.js:96-108 | an answered first search other than 401 is passed on as it is; after a 401 an answered retry is passed on as it is, a second 401 included; the response is a 500 failure exactly when the first call fails or it is answered 401 and the retry fails |
| TokenServer.ProdTokenCache.constructor | server.js:19-20 | the server starts with no token and expiry 0, having sent nothing |
| TokenServer.ProdTokenCache.FetchProdAppToken | server.js:28-61 | the method's result, new cache and sent requests are those of the fetch step |
| TokenServer.ProdTokenCache.RequestToken | server.js:40-60 | the token request and its handling update the cache as the token step says |
| TokenServer.ProdTokenCache.GetProdAppToken | server.js:63-68 | the method follows the get step |
| TokenServer.ProdTokenCache.CallOnce | server.js:79-94 | the method follows the `callOnce` step |
| TokenServer.ProdTokenCache.Browse | server.js:74-110 | the handler, with its cache clearing and single retry, follows the browse step |
| TokenServer.BuildSoldLinks | server.js:113-122 | defines `buildSoldLinks`: the encoded trimmed query in the core address, and the core address with `&LH_Auction=1` or `&_sacat=212` |
| TokenServer.BuildSoldLinksSpec | server.js:113-122 | the core address searches for the trimmed query; the other two are the core address plus `&LH_Auction=1` or `&_sacat=212` |
| TokenServer.BuildSoldLinksAgrees | server.js:113-122 | when the trimmed query has nothing to collapse, the server builds the same three addresses as `soldLinks.js` |
| TokenServer.SoldLinksRoute | server.js:124-129 | defines the `/ebay/sold-links` handler: 400 for a blank query, otherwise 200 with the trimmed query and its links |
| TokenServer.SoldLinksRouteSpec | server.js:124-129 | 400 exactly for a missing or blank query; otherwise 200 with the trimmed query and its links |

## Left out

- I/O is not modelled. This covers `fs` reads and writes, `readline`, `process.argv`, `process.exit`, and every console message (the raw-response dump, success lines, token prefixes). File contents, arguments and pasted text are parameters.
- Printing in `main` is not modelled. `SoldLinksMain` returns the three sections as lists of (variation, address) pairs; the banner, headings and tip lines are left out.
- HTTP is not modelled. Each `fetch`, `res.json()` and `res.text()` is an answer passed in.
  - A token answer whose body is not JSON is `json: None`.
  - A failed network call for the token request is represented the same way: both throw.
  - A failed search call is `search: None`.
  - The Basic and Bearer headers and the form body are not modelled.
- Express wiring is not modelled: `app.listen`, `/health`, `/openapi.json` and `dotenv`. A query parameter given as an array is not modelled; `q` is an optional string.
- TokenServer: the 500 body is the thrown error itself, not the text of `String(e)`. The token error keeps only the status, not the `JSON.stringify` text.
- TokenServer: `access_token` is a string. A non-string `access_token` is not modelled.
- TokenServer.ExpiresIn: `expires_in` is an integer. `Number()` of a non-numeric or fractional value (`NaN`, floating point) is not modelled.
- TokenServer: the clock is read once per `callOnce`, both for the cache test and for the new expiry. The source reads it twice, milliseconds apart.
- TokenServer: concurrent requests sharing the cache are not modelled. Each handler runs to completion on its own.
- JsText.Lower: `toLowerCase` folds ASCII letters only. Non-ASCII case mapping is not modelled, so two keys differing only in a non-ASCII letter's case count as distinct.
- UriComponent.Encode: Dafny characters are Unicode scalar values. A lone surrogate, on which `encodeURIComponent` throws, cannot be represented.
- QueryRules: `new RegExp(pair, "g")` is modelled as a literal search for the pair. This is exact because the pair is letters and one space, so it has no metacharacters.
- QueryRules: the `i` flag folds only ASCII letters. This matches a regular expression without the `u` flag, for the word "autograph".
- SoldLinks: `hasSlash` (soldLinks.js:33) is computed but never used, so it is not modelled.
- SaveAppToken: `JSON.parse` is a partial function passed in. It returns `None` where it throws.
- SaveAppToken: the client library call `getApplicationToken` is not modelled; its answer is a parameter.
- SaveAppToken: numbers are integers (`JsNumber`).
- SaveAppToken.BelowHundred: a `length` property that is neither a number nor absent counts as passing the gate. Relational comparison with coercion is not modelled.
- SaveProdToken: `Buffer`'s base64 encoder is a function passed in. Base64 itself is not modelled.
