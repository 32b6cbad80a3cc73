/** `server.js`: the production application token kept between requests,
    the `/ebay/browse` handler that retries once with a fresh token when eBay
    rejects the cached one, and the `/ebay/sold-links` address builder.

    The clock, the environment variables and eBay's answers are parameters:
    a token answer is its status and its parsed JSON (absent when the body
    is not JSON), and a search answer is its status and text (absent when
    the request fails). The requests the server sends are recorded, in
    order, so that "no request", "one token request" and "at most two
    searches" can be stated. The pure functions below are the
    specification; the class `ProdTokenCache` holds the two module-level
    variables and its methods follow the source statement by statement. */
module TokenServer {
  import opened Wrappers
  import opened JsText
  import opened UriComponent
  import SoldLinks

  const ClientIdVar := "EBAY_PROD_CLIENT_ID"
  const ClientSecretVar := "EBAY_PROD_CLIENT_SECRET"
  /** Seconds assumed when `expires_in` is missing or zero. */
  const DefaultExpiresIn := 7200
  /** Seconds by which the cached token is retired early. */
  const SafetyMargin := 60
  const BrowsePrefix := "https://api.ebay.com/buy/browse/v1/item_summary/search?q="
  const BrowseLimit := "&limit=10"
  const QueryTooShortMessage := "Query too short"
  const MissingQueryMessage := "Missing q query param"

  /** What a handler can throw; the 500 response carries `String(e)`, whose
      exact text is not modelled. */
  datatype ServerError =
    | MissingEnv(name: string)
    | UnreadableTokenJson
    | TokenFetchFailed(status: int)
    | SearchFailed

  /** The JSON fields of a token answer the server reads. */
  datatype TokenJson = TokenJson(accessToken: Option<string>, expiresIn: Option<int>)

  datatype TokenReply = TokenReply(status: int, json: Option<TokenJson>)

  datatype SearchReply = SearchReply(status: int, text: string)

  /** A request the server sends to eBay. */
  datatype Request = TokenRequest | SearchRequest(url: string, bearer: string)

  /** `cachedProdToken` and `cachedProdTokenExpiresAt` (milliseconds). */
  datatype CacheState = CacheState(token: Option<string>, expiresAt: int)

  /** The outcome of one operation: its result, the cache after it, and the
      requests it sent. */
  datatype Step<T> = Step(result: Result<T, ServerError>, cache: CacheState, sent: seq<Request>)

  function Max(a: int, b: int): int {
    if a < b then b else a
  }

  /** `res.ok`. */
  predicate ResOk(status: int) {
    200 <= status <= 299
  }

  /** A truthy token: present and not the empty string. */
  predicate HasToken(token: Option<string>) {
    token.Some? && token.value != []
  }

  // ---------------------------------------------------------------------------
  // requireEnv

  /** `requireEnv(name)`: the trimmed value, or an error when it is missing
      or blank. The source trims first and tests the result for emptiness;
      `RequireEnvFails` shows the test here is the same one. */
  function RequireEnv(env: map<string, string>, name: string): Result<string, ServerError> {
    if name !in env || AllSpace(env[name]) then Err(MissingEnv(name)) else Ok(Trim(env[name]))
  }

  /** `requireEnv` throws exactly when `(process.env[name] || "").trim()` is
      empty, and returns that trimmed text otherwise. */
  lemma {:induction false} RequireEnvFails(env: map<string, string>, name: string)
    ensures RequireEnv(env, name).Err? <==> Trim(if name in env then env[name] else "") == []
    ensures RequireEnv(env, name).Ok? ==> RequireEnv(env, name).value == Trim(env[name])
  {
    if name in env {
      TrimEmptyIffAllSpace(env[name]);
    }
  }

  /** Otherwise it returns the value without its surrounding whitespace. */
  lemma {:induction false} RequireEnvSpec(env: map<string, string>, name: string)
    ensures RequireEnv(env, name).Ok? ==>
      var v := RequireEnv(env, name).value;
      v != [] && !IsSpace(v[0]) && !IsSpace(v[|v| - 1]) && Visible(v) == Visible(env[name])
  {
    RequireEnvFails(env, name);
    if name in env {
      var a := TrimSlice(env[name]);
      TrimVisible(env[name]);
    }
  }

  // ---------------------------------------------------------------------------
  // fetchProdAppToken and getProdAppToken

  /** `Number(json.expires_in || 7200)`. */
  function ExpiresIn(json: TokenJson): int {
    if json.expiresIn.None? || json.expiresIn.value == 0 then DefaultExpiresIn else json.expiresIn.value
  }

  /** `now + Math.max(0, expiresIn - 60) * 1000`. */
  function ExpiryFor(now: int, expiresIn: int): int {
    now + Max(0, expiresIn - SafetyMargin) * 1000
  }

  /** The expiry never lies in the past; it is the lifetime less the margin,
      or `now` for a lifetime within the margin. */
  lemma {:induction false} ExpiryBounds(now: int, expiresIn: int)
    ensures ExpiryFor(now, expiresIn) >= now
    ensures expiresIn >= SafetyMargin ==> ExpiryFor(now, expiresIn) == now + (expiresIn - SafetyMargin) * 1000
    ensures expiresIn <= SafetyMargin ==> ExpiryFor(now, expiresIn) == now
    ensures ExpiryFor(now, DefaultExpiresIn) == now + 7_140_000
  {
  }

  /** `fetchProdAppToken` at time `now`, eBay answering `reply`. */
  function FetchStep(env: map<string, string>, now: int, reply: TokenReply, c: CacheState): Step<string> {
    var clientId := RequireEnv(env, ClientIdVar);
    var clientSecret := RequireEnv(env, ClientSecretVar);
    if clientId.Err? then Step(Err(clientId.error), c, [])
    else if clientSecret.Err? then Step(Err(clientSecret.error), c, [])
    else TokenStep(now, reply, c)
  }

  /** The token request itself, once both credentials are known. */
  function TokenStep(now: int, reply: TokenReply, c: CacheState): Step<string> {
    if reply.json.None? then Step(Err(UnreadableTokenJson), c, [TokenRequest])
    else if !ResOk(reply.status) || !HasToken(reply.json.value.accessToken) then
      Step(Err(TokenFetchFailed(reply.status)), c, [TokenRequest])
    else
      var token := reply.json.value.accessToken.value;
      Step(Ok(token), CacheState(Some(token), ExpiryFor(now, ExpiresIn(reply.json.value))), [TokenRequest])
  }

  /** Both credentials are set and not blank. */
  predicate CredentialsSet(env: map<string, string>) {
    && ClientIdVar in env && !AllSpace(env[ClientIdVar])
    && ClientSecretVar in env && !AllSpace(env[ClientSecretVar])
  }

  /** Credentials come first: without both, the fetch fails before any
      request, naming the first one missing, and the cache is left alone. */
  lemma {:induction false} FetchWithoutCredentials(env: map<string, string>, now: int, reply: TokenReply, c: CacheState)
    requires !CredentialsSet(env)
    ensures FetchStep(env, now, reply, c).sent == []
    ensures FetchStep(env, now, reply, c).cache == c
    ensures FetchStep(env, now, reply, c).result ==
      Err(MissingEnv(if ClientIdVar !in env || AllSpace(env[ClientIdVar]) then ClientIdVar else ClientSecretVar))
  {
  }

  /** With both credentials set, the fetch is the token request. */
  lemma {:induction false} FetchWithCredentials(env: map<string, string>, now: int, reply: TokenReply, c: CacheState)
    requires CredentialsSet(env)
    ensures FetchStep(env, now, reply, c) == TokenStep(now, reply, c)
  {
  }

  /** Exactly one token request when the credentials are set, none otherwise. */
  lemma {:induction false} FetchNeedsCredentials(env: map<string, string>, now: int, reply: TokenReply, c: CacheState)
    ensures FetchStep(env, now, reply, c).sent == if CredentialsSet(env) then [TokenRequest] else []
    ensures FetchStep(env, now, reply, c).result.Err? ==> FetchStep(env, now, reply, c).cache == c
  {
    if CredentialsSet(env) {
      FetchWithCredentials(env, now, reply, c);
      TokenStepSpec(now, reply, c);
    } else {
      FetchWithoutCredentials(env, now, reply, c);
    }
  }

  /** A failed token request leaves the cache as it was; a successful one
      caches the returned token with an expiry no earlier than `now`. */
  lemma {:induction false} TokenStepSpec(now: int, reply: TokenReply, c: CacheState)
    ensures TokenStep(now, reply, c).sent == [TokenRequest]
    ensures TokenStep(now, reply, c).result.Err? ==> TokenStep(now, reply, c).cache == c
    ensures TokenStep(now, reply, c).result.Ok? <==>
      reply.json.Some? && ResOk(reply.status) && HasToken(reply.json.value.accessToken)
    ensures var s := TokenStep(now, reply, c);
      s.result.Ok? ==>
        && s.result == Ok(reply.json.value.accessToken.value)
        && s.cache.token == Some(s.result.value) && s.result.value != []
        && s.cache.expiresAt == ExpiryFor(now, ExpiresIn(reply.json.value))
        && s.cache.expiresAt >= now
  {
    if reply.json.Some? {
      ExpiryBounds(now, ExpiresIn(reply.json.value));
    }
  }

  /** `cachedProdToken && Date.now() < cachedProdTokenExpiresAt`. */
  predicate Serves(c: CacheState, now: int) {
    HasToken(c.token) && now < c.expiresAt
  }

  /** `getProdAppToken` at time `now`. */
  function GetStep(env: map<string, string>, now: int, reply: TokenReply, c: CacheState): Step<string> {
    if Serves(c, now) then Step(Ok(c.token.value), c, []) else FetchStep(env, now, reply, c)
  }

  /** The cached token is returned, with nothing sent and nothing changed,
      exactly while it is live; otherwise a fetch happens. */
  lemma {:induction false} GetSpec(env: map<string, string>, now: int, reply: TokenReply, c: CacheState)
    ensures Serves(c, now) ==> GetStep(env, now, reply, c) == Step(Ok(c.token.value), c, [])
    ensures !Serves(c, now) ==> GetStep(env, now, reply, c) == FetchStep(env, now, reply, c)
    ensures GetStep(env, now, reply, c).sent == [] && GetStep(env, now, reply, c).result.Ok? <==> Serves(c, now)
  {
    FetchNeedsCredentials(env, now, reply, c);
    TokenStepSpec(now, reply, c);
  }

  /** A token just fetched is served from the cache, without a request, at
      any later moment before its expiry. */
  lemma {:induction false} FreshTokenServed(env: map<string, string>, now: int, reply: TokenReply, c: CacheState,
                         later: int, env2: map<string, string>, reply2: TokenReply)
    requires FetchStep(env, now, reply, c).result.Ok?
    requires later < FetchStep(env, now, reply, c).cache.expiresAt
    ensures var s := FetchStep(env, now, reply, c);
      GetStep(env2, later, reply2, s.cache) == Step(Ok(s.result.value), s.cache, [])
  {
    FetchNeedsCredentials(env, now, reply, c);
    TokenStepSpec(now, reply, c);
  }

  // ---------------------------------------------------------------------------
  // the /ebay/browse handler

  /** One round of `callOnce`: the clock reading, eBay's token answer (used
      only if a fetch happens) and its search answer. */
  datatype Attempt = Attempt(now: int, tokenReply: TokenReply, search: Option<SearchReply>)

  function SearchUrl(q: string): string {
    BrowsePrefix + Encode(q) + BrowseLimit
  }

  /** `callOnce`: get a token, then search with it. */
  function CallOnceStep(q: string, env: map<string, string>, a: Attempt, c: CacheState): Step<SearchReply> {
    var g := GetStep(env, a.now, a.tokenReply, c);
    if g.result.Err? then Step(Err(g.result.error), g.cache, g.sent)
    else
      var sent := g.sent + [SearchRequest(SearchUrl(q), g.result.value)];
      if a.search.None? then Step(Err(SearchFailed), g.cache, sent)
      else Step(Ok(a.search.value), g.cache, sent)
  }

  datatype BrowseBody = ErrorJson(message: string) | Upstream(text: string) | Failure(error: ServerError)

  datatype Response = Response(status: int, body: BrowseBody)

  datatype BrowseOutcome = BrowseOutcome(response: Response, cache: CacheState, sent: seq<Request>)

  /** `String(req.query.q || "").trim()`. */
  function QueryParam(q: Option<string>): string {
    Trim(if q.Some? then q.value else "")
  }

  /** The `/ebay/browse` handler: `first` is the first `callOnce`, `retry`
      the one made after a 401. */
  function BrowseStep(q: Option<string>, env: map<string, string>, first: Attempt, retry: Attempt, c: CacheState): BrowseOutcome {
    var query := QueryParam(q);
    if Utf16Length(query) < 3 then BrowseOutcome(Response(400, ErrorJson(QueryTooShortMessage)), c, [])
    else Retrying(query, env, first, retry, c)
  }

  /** The handler once the query is long enough: one `callOnce`, and a
      second one from a cleared cache when the first was answered 401. */
  function Retrying(query: string, env: map<string, string>, first: Attempt, retry: Attempt, c: CacheState): BrowseOutcome {
    var s1 := CallOnceStep(query, env, first, c);
    if s1.result.Err? then BrowseOutcome(Response(500, Failure(s1.result.error)), s1.cache, s1.sent)
    else if s1.result.value.status != 401 then
      BrowseOutcome(Response(s1.result.value.status, Upstream(s1.result.value.text)), s1.cache, s1.sent)
    else
      var s2 := CallOnceStep(query, env, retry, CacheState(None, 0));
      if s2.result.Err? then BrowseOutcome(Response(500, Failure(s2.result.error)), s2.cache, s1.sent + s2.sent)
      else BrowseOutcome(Response(s2.result.value.status, Upstream(s2.result.value.text)), s2.cache, s1.sent + s2.sent)
  }

  /** How many searches a list of requests holds. */
  function SearchCount(sent: seq<Request>): nat {
    if sent == [] then 0 else (if sent[0].SearchRequest? then 1 else 0) + SearchCount(sent[1..])
  }

  lemma {:induction false} SearchCountAppend(a: seq<Request>, b: seq<Request>)
    ensures SearchCount(a + b) == SearchCount(a) + SearchCount(b)
  {
    if a == [] {
      assert a + b == b;
    } else {
      assert (a + b)[1..] == a[1..] + b;
      SearchCountAppend(a[1..], b);
    }
  }

  /** `callOnce` sends at most one search, and it is its last request; it
      succeeds exactly when the search got an answer. */
  lemma {:induction false} CallOnceSpec(q: string, env: map<string, string>, a: Attempt, c: CacheState)
    ensures var s := CallOnceStep(q, env, a, c);
      && SearchCount(s.sent) <= 1
      && (SearchCount(s.sent) == 1 <==> GetStep(env, a.now, a.tokenReply, c).result.Ok?)
      && (SearchCount(s.sent) == 1 ==> s.sent[|s.sent| - 1] == SearchRequest(SearchUrl(q), GetStep(env, a.now, a.tokenReply, c).result.value))
      && (s.result.Ok? <==> SearchCount(s.sent) == 1 && a.search.Some?)
      && (s.result.Ok? ==> s.result.value == a.search.value)
  {
    var g := GetStep(env, a.now, a.tokenReply, c);
    GetSendsNoSearch(env, a.now, a.tokenReply, c);
    if g.result.Ok? {
      var r := SearchRequest(SearchUrl(q), g.result.value);
      SearchCountAppend(g.sent, [r]);
      assert SearchCount([r]) == 1;
    }
  }

  /** Getting a token sends no search. */
  lemma {:induction false} GetSendsNoSearch(env: map<string, string>, now: int, reply: TokenReply, c: CacheState)
    ensures SearchCount(GetStep(env, now, reply, c).sent) == 0
  {
    FetchNeedsCredentials(env, now, reply, c);
    var sent := GetStep(env, now, reply, c).sent;
    assert sent == [] || sent == [TokenRequest];
    if sent != [] {
      assert SearchCount(sent) == SearchCount(sent[1..]) && sent[1..] == [];
    }
  }

  /** A query that is shorter than three units once trimmed is answered 400
      before anything is sent or the cache is touched; no other request gets
      that answer body. */
  lemma {:induction false} BrowseShortQuery(q: Option<string>, env: map<string, string>, first: Attempt, retry: Attempt, c: CacheState)
    ensures var b := BrowseStep(q, env, first, retry, c);
      b.response.body == ErrorJson(QueryTooShortMessage) <==> Utf16Length(QueryParam(q)) < 3
    ensures var b := BrowseStep(q, env, first, retry, c);
      Utf16Length(QueryParam(q)) < 3 ==> b.response.status == 400 && b.sent == [] && b.cache == c
    ensures Utf16Length(QueryParam(q)) >= 3 ==>
      BrowseStep(q, env, first, retry, c) == Retrying(QueryParam(q), env, first, retry, c)
  {
    if Utf16Length(QueryParam(q)) >= 3 {
      RetryingAnswersUpstream(QueryParam(q), env, first, retry, c);
    }
  }

  /** Past the length check the answer is eBay's or a failure, never the 400 body. */
  lemma {:induction false} RetryingAnswersUpstream(query: string, env: map<string, string>, first: Attempt, retry: Attempt, c: CacheState)
    ensures !Retrying(query, env, first, retry, c).response.body.ErrorJson?
  {
  }

  /** At most two searches, and a second one only after the first was answered 401. */
  lemma {:induction false} AtMostTwoSearches(query: string, env: map<string, string>, first: Attempt, retry: Attempt, c: CacheState)
    ensures SearchCount(Retrying(query, env, first, retry, c).sent) <= 2
    ensures SearchCount(Retrying(query, env, first, retry, c).sent) == 2 ==> first.search.Some? && first.search.value.status == 401
  {
    var s1 := CallOnceStep(query, env, first, c);
    CallOnceSpec(query, env, first, c);
    if s1.result.Ok? && s1.result.value.status == 401 {
      var s2 := CallOnceStep(query, env, retry, CacheState(None, 0));
      CallOnceSpec(query, env, retry, CacheState(None, 0));
      SearchCountAppend(s1.sent, s2.sent);
    }
  }

  /** The second search never reuses the rejected token: the cache was
      cleared, so a token request precedes it and it carries the token that
      request returned. */
  lemma {:induction false} RetryFetchesFresh(query: string, env: map<string, string>, first: Attempt, retry: Attempt, c: CacheState)
    requires SearchCount(Retrying(query, env, first, retry, c).sent) == 2
    ensures var sent := Retrying(query, env, first, retry, c).sent;
      && |sent| >= 2
      && sent[|sent| - 2] == TokenRequest
      && retry.tokenReply.json.Some? && HasToken(retry.tokenReply.json.value.accessToken)
      && sent[|sent| - 1] == SearchRequest(SearchUrl(query), retry.tokenReply.json.value.accessToken.value)
  {
    var cleared := CacheState(None, 0);
    var b := Retrying(query, env, first, retry, c);
    var s1 := CallOnceStep(query, env, first, c);
    var s2 := CallOnceStep(query, env, retry, cleared);
    assert s1.result.Ok? && s1.result.value.status == 401 by {
      CallOnceSpec(query, env, first, c);
    }
    assert b.sent == s1.sent + s2.sent;
    assert SearchCount(s2.sent) == 1 by {
      CallOnceSpec(query, env, first, c);
      CallOnceSpec(query, env, retry, cleared);
      SearchCountAppend(s1.sent, s2.sent);
    }
    RetryCallSpec(query, env, retry);
    LastTwo(s1.sent, s2.sent);
  }

  lemma {:induction false} LastTwo(a: seq<Request>, b: seq<Request>)
    requires |b| == 2
    ensures |a + b| >= 2 && (a + b)[|a + b| - 2] == b[0] && (a + b)[|a + b| - 1] == b[1]
  {
  }

  /** A `callOnce` that starts from the cleared cache and reaches the search
      has just requested a token, and searches with the token it got. */
  lemma {:induction false} RetryCallSpec(query: string, env: map<string, string>, a: Attempt)
    ensures var s := CallOnceStep(query, env, a, CacheState(None, 0));
      SearchCount(s.sent) == 1 ==>
        && a.tokenReply.json.Some? && HasToken(a.tokenReply.json.value.accessToken)
        && s.sent == [TokenRequest, SearchRequest(SearchUrl(query), a.tokenReply.json.value.accessToken.value)]
  {
    var cleared := CacheState(None, 0);
    var s := CallOnceStep(query, env, a, cleared);
    var g := GetStep(env, a.now, a.tokenReply, cleared);
    if SearchCount(s.sent) == 1 {
      CallOnceSpec(query, env, a, cleared);
      assert g == FetchStep(env, a.now, a.tokenReply, cleared);
      if !CredentialsSet(env) {
        FetchWithoutCredentials(env, a.now, a.tokenReply, cleared);
        assert false;
      }
      FetchWithCredentials(env, a.now, a.tokenReply, cleared);
      TokenStepSpec(a.now, a.tokenReply, cleared);
    }
  }

  /** The token of attempt `a`, starting from cache `c`, was obtained, so its
      search was sent, and the search got an answer. */
  predicate Answered(env: map<string, string>, a: Attempt, c: CacheState) {
    GetStep(env, a.now, a.tokenReply, c).result.Ok? && a.search.Some?
  }

  /** The response is the last search's status and text; a second 401 is
      passed on as it is. A failure anywhere becomes a 500: the first call
      fails, or it is answered 401 and the retry from the cleared cache fails.
      An answered first search other than 401 is passed on as it is, and so
      is the answered retry after a 401. */
  lemma {:induction false} AnswersLast(query: string, env: map<string, string>, first: Attempt, retry: Attempt, c: CacheState)
    ensures var b := Retrying(query, env, first, retry, c);
      Answered(env, first, c) && first.search.value.status != 401 ==>
        b.response == Response(first.search.value.status, Upstream(first.search.value.text))
    ensures var b := Retrying(query, env, first, retry, c);
      Answered(env, first, c) && first.search.value.status == 401 && Answered(env, retry, CacheState(None, 0)) ==>
        b.response == Response(retry.search.value.status, Upstream(retry.search.value.text))
    ensures var b := Retrying(query, env, first, retry, c);
      b.response.body.Failure? <==>
        || !Answered(env, first, c)
        || (first.search.value.status == 401 && !Answered(env, retry, CacheState(None, 0)))
    ensures var b := Retrying(query, env, first, retry, c);
      b.response.body.Upstream? ==>
        || (SearchCount(b.sent) == 1 && first.search == Some(SearchReply(b.response.status, b.response.body.text))
            && b.response.status != 401)
        || (SearchCount(b.sent) == 2 && retry.search == Some(SearchReply(b.response.status, b.response.body.text)))
    ensures var b := Retrying(query, env, first, retry, c);
      b.response.body.Failure? ==> b.response.status == 500
  {
    var s1 := CallOnceStep(query, env, first, c);
    CallOnceSpec(query, env, first, c);
    if s1.result.Ok? && s1.result.value.status == 401 {
      var s2 := CallOnceStep(query, env, retry, CacheState(None, 0));
      CallOnceSpec(query, env, retry, CacheState(None, 0));
      SearchCountAppend(s1.sent, s2.sent);
    }
  }

  // ---------------------------------------------------------------------------
  // the state itself

  lemma {:induction false} AppendNothing(sent: seq<Request>)
    ensures sent + [] == sent
  {
  }

  lemma {:induction false} AppendAssoc(a: seq<Request>, b: seq<Request>, c: seq<Request>)
    ensures a + b + c == a + (b + c)
  {
  }

  /** The two module-level variables, and the requests sent so far. */
  class ProdTokenCache {
    var cachedProdToken: Option<string>
    var cachedProdTokenExpiresAt: int
    ghost var sent: seq<Request>

    function State(): CacheState
      reads this
    {
      CacheState(cachedProdToken, cachedProdTokenExpiresAt)
    }

    /** The server starts with no token and expiry 0. */
    constructor ()
      ensures State() == CacheState(None, 0) && sent == []
    {
      cachedProdToken := None;
      cachedProdTokenExpiresAt := 0;
      sent := [];
    }

    method FetchProdAppToken(env: map<string, string>, now: int, reply: TokenReply)
      returns (r: Result<string, ServerError>)
      modifies this
      ensures var s := FetchStep(env, now, reply, old(State()));
        r == s.result && State() == s.cache && sent == old(sent) + s.sent
    {
      var clientId := RequireEnv(env, ClientIdVar);
      if clientId.Err? {
        AppendNothing(sent);
        return Err(clientId.error);
      }
      var clientSecret := RequireEnv(env, ClientSecretVar);
      if clientSecret.Err? {
        AppendNothing(sent);
        return Err(clientSecret.error);
      }
      r := RequestToken(now, reply);
    }

    /** The POST to the token endpoint and what follows it. */
    method RequestToken(now: int, reply: TokenReply) returns (r: Result<string, ServerError>)
      modifies this
      ensures var s := TokenStep(now, reply, old(State()));
        r == s.result && State() == s.cache && sent == old(sent) + s.sent
    {
      sent := sent + [TokenRequest];
      if reply.json.None? {
        return Err(UnreadableTokenJson);
      }
      var json := reply.json.value;
      if !ResOk(reply.status) || !HasToken(json.accessToken) {
        return Err(TokenFetchFailed(reply.status));
      }
      var expiresIn := if json.expiresIn.None? || json.expiresIn.value == 0 then DefaultExpiresIn else json.expiresIn.value;
      cachedProdToken := json.accessToken;
      cachedProdTokenExpiresAt := now + Max(0, expiresIn - SafetyMargin) * 1000;
      return Ok(cachedProdToken.value);
    }

    method GetProdAppToken(env: map<string, string>, now: int, reply: TokenReply)
      returns (r: Result<string, ServerError>)
      modifies this
      ensures var s := GetStep(env, now, reply, old(State()));
        r == s.result && State() == s.cache && sent == old(sent) + s.sent
    {
      if HasToken(cachedProdToken) && now < cachedProdTokenExpiresAt {
        AppendNothing(sent);
        return Ok(cachedProdToken.value);
      }
      r := FetchProdAppToken(env, now, reply);
    }

    method CallOnce(q: string, env: map<string, string>, a: Attempt)
      returns (r: Result<SearchReply, ServerError>)
      modifies this
      ensures var s := CallOnceStep(q, env, a, old(State()));
        r == s.result && State() == s.cache && sent == old(sent) + s.sent
    {
      var token := GetProdAppToken(env, a.now, a.tokenReply);
      if token.Err? {
        return Err(token.error);
      }
      var url := SearchUrl(q);
      sent := sent + [SearchRequest(url, token.value)];
      if a.search.None? {
        return Err(SearchFailed);
      }
      return Ok(a.search.value);
    }

    /** The `/ebay/browse` handler: `out` is reassigned by the retry, and the
        cache is cleared in between. */
    method Browse(q: Option<string>, env: map<string, string>, first: Attempt, retry: Attempt)
      returns (response: Response)
      modifies this
      ensures var b := BrowseStep(q, env, first, retry, old(State()));
        response == b.response && State() == b.cache && sent == old(sent) + b.sent
    {
      var query := Trim(if q.Some? then q.value else "");
      if Utf16Length(query) < 3 {
        AppendNothing(sent);
        return Response(400, ErrorJson(QueryTooShortMessage));
      }
      var out := CallOnce(query, env, first);
      if out.Ok? && out.value.status == 401 {
        cachedProdToken := None;
        cachedProdTokenExpiresAt := 0;
        out := CallOnce(query, env, retry);
        AppendAssoc(old(sent), CallOnceStep(query, env, first, old(State())).sent,
                    CallOnceStep(query, env, retry, CacheState(None, 0)).sent);
      }
      if out.Err? {
        return Response(500, Failure(out.error));
      }
      return Response(out.value.status, Upstream(out.value.text));
    }
  }

  // ---------------------------------------------------------------------------
  // /ebay/sold-links

  datatype SoldLinkSet = SoldLinkSet(core: string, auctionOnly: string, category212: string)

  /** `buildSoldLinks(q)`: the trimmed query is encoded as it is, without the
      whitespace collapsing `soldLinks.js` applies. */
  function BuildSoldLinks(q: string): SoldLinkSet {
    var base := SoldLinks.SearchPrefix + Encode(Trim(q)) + SoldLinks.SoldParams;
    SoldLinkSet(base, base + SoldLinks.AuctionParam, base + SoldLinks.CategoryParam)
  }

  /** The core address searches for the trimmed query, and the two others
      are the core address with one more parameter. */
  lemma {:induction false} BuildSoldLinksSpec(q: string)
    ensures SoldLinks.KeywordsOf(BuildSoldLinks(q).core) == Some(Trim(q))
    ensures BuildSoldLinks(q).auctionOnly == BuildSoldLinks(q).core + "&LH_Auction=1"
    ensures BuildSoldLinks(q).category212 == BuildSoldLinks(q).core + "&_sacat=212"
  {
    var e := Encode(Trim(q));
    SoldLinks.EncodedHasNoAmpersand(Trim(q));
    SoldLinks.ReadField(SoldLinks.SearchPrefix, e, SoldLinks.SoldParams);
    DecodeEncode(Trim(q));
  }

  /** When the trimmed query has no whitespace run to collapse, the server and
      `soldLinks.js` build the same addresses. */
  lemma {:induction false} BuildSoldLinksAgrees(q: string)
    requires SpacesCollapsed(Trim(q))
    ensures BuildSoldLinks(q).core == SoldLinks.EbaySoldUrl(q, "")
    ensures BuildSoldLinks(q).auctionOnly == SoldLinks.EbaySoldUrl(q, SoldLinks.AuctionParam)
    ensures BuildSoldLinks(q).category212 == SoldLinks.EbaySoldUrl(q, SoldLinks.CategoryParam)
  {
    CollapseFixed(Trim(q));
  }

  datatype SoldLinksBody = MissingQuery(message: string) | Links(query: string, links: SoldLinkSet)

  datatype SoldLinksResponse = SoldLinksResponse(status: int, body: SoldLinksBody)

  /** The `/ebay/sold-links` handler. */
  function SoldLinksRoute(q: Option<string>): SoldLinksResponse {
    var query := QueryParam(q);
    if query == [] then SoldLinksResponse(400, MissingQuery(MissingQueryMessage))
    else SoldLinksResponse(200, Links(query, BuildSoldLinks(query)))
  }

  /** 400 exactly for a missing or blank query; otherwise the links for the
      trimmed query. */
  lemma {:induction false} SoldLinksRouteSpec(q: Option<string>)
    ensures SoldLinksRoute(q).status == 400 <==> q.None? || AllSpace(q.value)
    ensures SoldLinksRoute(q).status == 400 ==> SoldLinksRoute(q).body == MissingQuery(MissingQueryMessage)
    ensures SoldLinksRoute(q).status != 400 ==>
      SoldLinksRoute(q).status == 200 && SoldLinksRoute(q).body == Links(Trim(q.value), BuildSoldLinks(q.value))
  {
    var raw := if q.Some? then q.value else "";
    TrimEmptyIffAllSpace(raw);
    var a := TrimSlice(raw);
    TrimFixed(Trim(raw));
  }
}
