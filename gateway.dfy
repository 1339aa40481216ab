/**
 * The four route handlers of the worker and its catch-all. Each handler is a total
 * function from the request (and the world outside the worker: random draws, hash,
 * AES-GCM, the Microsoft token endpoint and Graph) to an `Outcome`: the response it
 * returns, or `Throw` where the source lets an exception escape, together with the
 * outbound calls it made, in order.
 */
module Gateway {
  import opened Wrappers
  import opened Text
  import opened Base64
  import opened Pkce
  import opened Cookies
  import opened Envelope

  /** The worker's bindings: `MS_CLIENT_ID`, `MS_CLIENT_SECRET`, `APP_ORIGIN`, `ENCRYPTION_KEY`. */
  datatype Config = Config(clientId: string, clientSecret: string, appOrigin: string, encryptionKey: string)

  /** An HTTP status as `fetch` hands it back. */
  type Status = s: int | 200 <= s <= 599 witness 200

  /** `response.ok`. */
  predicate Ok(status: int)
  {
    200 <= status <= 299
  }

  /**
   * What the worker reads of an incoming request: the method, the URL's path, the
   * first value of each query parameter, and the `Cookie` header if there is one.
   */
  datatype Request = Request(httpMethod: string, path: string, query: map<string, string>, cookie: Option<string>)

  /** The two fields of the token endpoint's JSON answer that the worker reads. */
  datatype Tokens = Tokens(refreshToken: string, accessToken: string)

  /** The token endpoint's answer: status, body text, and the body as JSON (`None` when it does not parse). */
  datatype TokenReply = TokenReply(status: Status, text: string, json: Option<Tokens>)

  /** Graph's `/me` answer: status, and the profile as `JSON.stringify` writes it back (`None` when the body does not parse). */
  datatype ProfileReply = ProfileReply(status: Status, json: Option<string>)

  /** An outbound `fetch`: a form POSTed to the token endpoint, or a GET of Graph's `/me` with a bearer token. */
  datatype Call = TokenCall(form: seq<(string, string)>) | ProfileCall(accessToken: string)

  /** Everything outside the worker's own code that a request may consult. */
  datatype World = World(
    draw: nat -> Draw,
    sha256: seq<byte> -> Digest,
    iv: Iv,
    aead: Aead,
    tokenEndpoint: seq<(string, string)> -> TokenReply,
    graph: string -> ProfileReply)

  /** A `Location` header: a plain URL, or the authorize endpoint with its query parameters in order. */
  datatype Location = To(url: string) | Authorize(params: seq<(string, string)>)

  /** The response: status, `Location`, `Content-Type`, the `Set-Cookie` lines in order, body. */
  datatype Response = Response(status: int, location: Option<Location>, contentType: Option<string>,
                               setCookies: seq<string>, body: Option<string>)

  /** A handler either returns a response or lets an exception escape. */
  datatype Result = Respond(response: Response) | Throw

  datatype Outcome = Outcome(result: Result, calls: seq<Call>)

  const Scope: string := "User.Read Files.ReadWrite offline_access"

  /** The `Content-Type` the Fetch standard gives a response built from a string. */
  const TextPlain: string := "text/plain;charset=UTF-8"

  /** `new Response(body, { status })` for a string body. */
  function PlainText(status: int, body: string): (r: Response)
  {
    Response(status, None, Some(TextPlain), [], Some(body))
  }

  /** JavaScript truthiness of a `string | null | undefined`. */
  predicate Present(s: Option<string>)
  {
    s.Some? && s.value != ""
  }

  /** `url.searchParams.get(name)`. */
  function Param(req: Request, name: string): (r: Option<string>)
  {
    if name in req.query then Some(req.query[name]) else None
  }

  /** `parseCookies(request)[name]`. */
  function Cookie(req: Request, name: string): (r: Option<string>)
  {
    Get(ParseCookies(req.cookie), name)
  }

  function RedirectUri(cfg: Config): (r: string)
  {
    cfg.appOrigin + "/auth/callback"
  }

  /** The authorize request's parameters, in the order `URLSearchParams` keeps them. */
  function AuthorizeParams(cfg: Config, state: string, challenge: string): (r: seq<(string, string)>)
  {
    [("client_id", cfg.clientId), ("response_type", "code"), ("redirect_uri", RedirectUri(cfg)),
     ("scope", Scope), ("state", state), ("code_challenge", challenge), ("code_challenge_method", "S256")]
  }

  /** The authorization-code grant POSTed by the callback. */
  function ExchangeForm(cfg: Config, code: string, verifier: string): (r: seq<(string, string)>)
  {
    [("client_id", cfg.clientId), ("scope", Scope), ("code", code), ("redirect_uri", RedirectUri(cfg)),
     ("grant_type", "authorization_code"), ("code_verifier", verifier), ("client_secret", cfg.clientSecret)]
  }

  /** The refresh-token grant POSTed by `/api/me`. */
  function RefreshForm(cfg: Config, refreshToken: string): (r: seq<(string, string)>)
  {
    [("client_id", cfg.clientId), ("scope", Scope), ("refresh_token", refreshToken),
     ("grant_type", "refresh_token"), ("client_secret", cfg.clientSecret)]
  }

  /** `GET /auth/login`: fresh `state` and `code_verifier`, remembered in cookies for five minutes. */
  function Login(cfg: Config, w: World): (r: Outcome)
    ensures r.calls == [] && r.result.Respond? && r.result.response.status == 302
  {
    var state := RandomString(16, w.draw);
    var codeVerifier := RandomString(128, After(w.draw, 16));
    var codeChallenge := CreateSha256Hash(w.sha256, codeVerifier);
    var cookies := [SetCookie("state", state, "300"), SetCookie("code_verifier", codeVerifier, "300")];
    Outcome(Respond(Response(302, Some(Authorize(AuthorizeParams(cfg, state, codeChallenge))), None, cookies, None)), [])
  }

  /** `GET /auth/callback`: the state check, then the code exchange, then the refresh-token cookie. */
  function Callback(cfg: Config, req: Request, w: World): (r: Outcome)
    ensures |r.calls| <= 1
    ensures r.calls != [] ==> Present(Param(req, "state")) && Param(req, "state") == Cookie(req, "state")
  {
    var code := Param(req, "code");
    var state := Param(req, "state");
    var savedState := Cookie(req, "state");
    var codeVerifier := Cookie(req, "code_verifier");
    if !Present(state) || state != savedState then
      Outcome(Respond(PlainText(400, "Invalid state.")), [])
    else if !Present(code) || !Present(codeVerifier) then
      Outcome(Respond(PlainText(400, "Missing code or verifier.")), [])
    else
      var form := ExchangeForm(cfg, code.value, codeVerifier.value);
      var reply := w.tokenEndpoint(form);
      if !Ok(reply.status) then
        Outcome(Respond(PlainText(reply.status, "Token exchange failed: " + reply.text)), [TokenCall(form)])
      else if reply.json == None then
        Outcome(Throw, [TokenCall(form)])
      else
        var encryptedRefreshToken := Encrypt(w.aead, cfg.encryptionKey, w.iv, reply.json.value.refreshToken);
        var cookies := [SetCookie("refresh_token", encryptedRefreshToken, "2592000"),
                        SetCookie("state", "", "0"), SetCookie("code_verifier", "", "0")];
        Outcome(Respond(Response(302, Some(To(cfg.appOrigin)), None, cookies, None)), [TokenCall(form)])
  }

  /** The `catch` of `/api/me`: 500, and the refresh-token cookie cleared. */
  function Failure(): (r: Response)
  {
    Response(500, None, Some(TextPlain), [SetCookie("refresh_token", "", "0")], Some("An error occurred."))
  }

  /** `GET /api/me`: decrypt the cookie, then refresh and fetch the profile. */
  function Me(cfg: Config, req: Request, w: World): (r: Outcome)
    ensures r.result.Respond? && |r.calls| <= 2
  {
    var encryptedRefreshToken := Cookie(req, "refresh_token");
    if !Present(encryptedRefreshToken) then
      Outcome(Respond(PlainText(401, "Unauthorized.")), [])
    else match Decrypt(w.aead, cfg.encryptionKey, encryptedRefreshToken.value)
      case None => Outcome(Respond(Failure()), [])
      case Some(refreshToken) => Profile(cfg, refreshToken, w)
  }

  /** The rest of the `try` of `/api/me`, once the refresh token is decrypted. */
  function Profile(cfg: Config, refreshToken: string, w: World): (r: Outcome)
    ensures r.result.Respond? && r.result.response.status in {200, 500}
  {
    var form := RefreshForm(cfg, refreshToken);
    var reply := w.tokenEndpoint(form);
    if !Ok(reply.status) || reply.json == None then
      Outcome(Respond(Failure()), [TokenCall(form)])
    else
      var accessToken := reply.json.value.accessToken;
      var user := w.graph(accessToken);
      var calls := [TokenCall(form), ProfileCall(accessToken)];
      if !Ok(user.status) || user.json == None then
        Outcome(Respond(Failure()), calls)
      else
        Outcome(Respond(Response(200, None, Some("application/json"), [], Some(user.json.value))), calls)
  }

  /** `GET /auth/logout`: clear the refresh-token cookie. */
  function Logout(): (r: Outcome)
    ensures r.calls == [] && r.result.Respond? && r.result.response.status == 200
  {
    Outcome(Respond(Response(200, None, Some(TextPlain), [SetCookie("refresh_token", "", "0")], Some("Logged out."))), [])
  }

  /** `router.all('*')`. */
  function NotFound(): (r: Outcome)
    ensures r.calls == [] && r.result.Respond? && r.result.response.status == 404
  {
    Outcome(Respond(PlainText(404, "Not Found.")), [])
  }

  /** The routes the router knows, all for `GET`. */
  predicate Routed(req: Request)
  {
    req.httpMethod == "GET" && req.path in {"/auth/login", "/auth/callback", "/api/me", "/auth/logout"}
  }

  /** The router: the first route whose method and path match, else the catch-all. */
  function Handle(cfg: Config, req: Request, w: World): (r: Outcome)
    ensures !Routed(req) ==> r == NotFound()
  {
    if req.httpMethod == "GET" && req.path == "/auth/login" then Login(cfg, w)
    else if req.httpMethod == "GET" && req.path == "/auth/callback" then Callback(cfg, req, w)
    else if req.httpMethod == "GET" && req.path == "/api/me" then Me(cfg, req, w)
    else if req.httpMethod == "GET" && req.path == "/auth/logout" then Logout()
    else NotFound()
  }

  // ----- /auth/login -----

  /**
   * Login redirects to the authorize endpoint with the S256 challenge of the
   * verifier it stores (RFC 7636 section 4.2: BASE64URL(SHA256(ASCII(verifier)))),
   * and stores the same state it sends; it calls nothing upstream.
   */
  lemma LoginRedirect(cfg: Config, w: World)
    ensures var o := Login(cfg, w);
      var state := RandomString(16, w.draw);
      var verifier := RandomString(128, After(w.draw, 16));
      o.calls == [] && o.result.Respond? && o.result.response.status == 302 &&
      o.result.response.body == None &&
      o.result.response.location == Some(Authorize(AuthorizeParams(cfg, state, EncodeUrl(w.sha256(Utf8(verifier)))))) &&
      o.result.response.setCookies == [SetCookie("state", state, "300"), SetCookie("code_verifier", verifier, "300")]
  {
    LoginVerifier(After(w.draw, 16), w.sha256);
  }

  /**
   * The values login draws: a 16-character alphanumeric state, a 128-character
   * verifier that meets RFC 7636 section 4.1, and a 43-character base64url challenge.
   */
  lemma LoginValues(w: World)
    ensures var state := RandomString(16, w.draw);
      |state| == 16 && forall i :: 0 <= i < 16 ==> IsAlnum(state[i])
    ensures var verifier := RandomString(128, After(w.draw, 16));
      IsCodeVerifier(verifier) && |verifier| == 128
    ensures var challenge := CreateSha256Hash(w.sha256, RandomString(128, After(w.draw, 16)));
      |challenge| == 43 && forall i :: 0 <= i < 43 ==> IsUrlChar(challenge[i])
  {
    RandomStringShape(16, w.draw);
    LoginVerifier(After(w.draw, 16), w.sha256);
    ChallengeShape(w.sha256(Utf8(RandomString(128, After(w.draw, 16)))));
  }

  // ----- /auth/callback -----

  /** The CSRF check of the callback: a non-empty `state` parameter equal to the `state` cookie. */
  predicate StateMatches(req: Request)
  {
    Present(Param(req, "state")) && Param(req, "state") == Cookie(req, "state")
  }

  /** Both a non-empty `code` parameter and a non-empty `code_verifier` cookie. */
  predicate HasCodeAndVerifier(req: Request)
  {
    Present(Param(req, "code")) && Present(Cookie(req, "code_verifier"))
  }

  /** The token reply the callback's exchange receives. */
  function ExchangeReply(cfg: Config, req: Request, w: World): (r: TokenReply)
    requires HasCodeAndVerifier(req)
  {
    w.tokenEndpoint(ExchangeForm(cfg, Param(req, "code").value, Cookie(req, "code_verifier").value))
  }

  /**
   * The state check comes first: a missing, empty or mismatched `state` (a missing
   * cookie included) is 400 "Invalid state." with no upstream call, whatever else the
   * request carries; and that answer comes from nowhere else.
   */
  lemma CallbackInvalidState(cfg: Config, req: Request, w: World)
    ensures !StateMatches(req) <==>
      Callback(cfg, req, w) == Outcome(Respond(PlainText(400, "Invalid state.")), [])
  {
    if StateMatches(req) && HasCodeAndVerifier(req) {
      var reply := ExchangeReply(cfg, req, w);
      if !Ok(reply.status) {
        assert ("Token exchange failed: " + reply.text)[0] == 'T';
      }
    }
  }

  /** After the state check, a missing or empty `code` or `code_verifier` is 400 with no upstream call. */
  lemma CallbackMissingCode(cfg: Config, req: Request, w: World)
    requires StateMatches(req)
    ensures !HasCodeAndVerifier(req) <==>
      Callback(cfg, req, w) == Outcome(Respond(PlainText(400, "Missing code or verifier.")), [])
  {
  }

  /**
   * Once both checks pass, exactly one call is made: the authorization-code grant
   * carrying the query's `code` and the cookie's `code_verifier`. A failed exchange
   * forwards the upstream status with its text; a reply that is not JSON escapes as
   * an exception; otherwise the answer is 302 to the app with the encrypted refresh
   * token stored for 30 days and the two login cookies cleared, in that order.
   */
  lemma CallbackExchange(cfg: Config, req: Request, w: World)
    requires StateMatches(req) && HasCodeAndVerifier(req)
    ensures var o := Callback(cfg, req, w);
      var reply := ExchangeReply(cfg, req, w);
      o.calls == [TokenCall(ExchangeForm(cfg, Param(req, "code").value, Cookie(req, "code_verifier").value))] &&
      (!Ok(reply.status) ==> o.result == Respond(PlainText(reply.status, "Token exchange failed: " + reply.text))) &&
      (Ok(reply.status) && reply.json == None ==> o.result == Throw) &&
      (Ok(reply.status) && reply.json.Some? ==>
        o.result == Respond(Response(302, Some(To(cfg.appOrigin)), None,
          [SetCookie("refresh_token", Encrypt(w.aead, cfg.encryptionKey, w.iv, reply.json.value.refreshToken), "2592000"),
           SetCookie("state", "", "0"), SetCookie("code_verifier", "", "0")], None)))
  {
  }

  /**
   * The callback talks to the token endpoint only for a request that passed the state
   * check and carried a code and a verifier, and then sends exactly those.
   */
  lemma CallbackCallsOnlyAfterChecks(cfg: Config, req: Request, w: World)
    ensures var o := Callback(cfg, req, w);
      |o.calls| > 0 ==>
        (StateMatches(req) && HasCodeAndVerifier(req) &&
         o.calls == [TokenCall(ExchangeForm(cfg, Param(req, "code").value, Cookie(req, "code_verifier").value))])
  {
  }

  /**
   * The callback sets cookies exactly when the exchange succeeded; the refresh-token
   * cookie it sets then holds an envelope that opens to the refresh token received.
   */
  lemma CallbackStoresToken(cfg: Config, req: Request, w: World)
    requires Lawful(w.aead)
    ensures var o := Callback(cfg, req, w);
      (o.result.Respond? && o.result.response.setCookies != []) <==>
        (StateMatches(req) && HasCodeAndVerifier(req) && Ok(ExchangeReply(cfg, req, w).status) &&
         ExchangeReply(cfg, req, w).json.Some?)
    ensures var o := Callback(cfg, req, w);
      o.result.Respond? && o.result.response.setCookies != [] ==>
        exists envelope :: o.result.response.setCookies[0] == SetCookie("refresh_token", envelope, "2592000") &&
          Decrypt(w.aead, cfg.encryptionKey, envelope) == Some(ExchangeReply(cfg, req, w).json.value.refreshToken)
  {
    var o := Callback(cfg, req, w);
    if o.result.Respond? && o.result.response.setCookies != [] {
      assert StateMatches(req) && HasCodeAndVerifier(req);
      var reply := ExchangeReply(cfg, req, w);
      var envelope := Encrypt(w.aead, cfg.encryptionKey, w.iv, reply.json.value.refreshToken);
      DecryptEncrypt(w.aead, cfg.encryptionKey, w.iv, reply.json.value.refreshToken);
      assert o.result.response.setCookies[0] == SetCookie("refresh_token", envelope, "2592000");
    }
  }

  // ----- /api/me -----

  /** The status `/api/me` answers with: 401 without a cookie, 200 when every step succeeds, 500 otherwise. */
  lemma MeStatus(cfg: Config, req: Request, w: World)
    ensures Me(cfg, req, w).result.Respond?
    ensures Me(cfg, req, w).result.response.status ==
      if !Present(Cookie(req, "refresh_token")) then 401 else if MeSucceeds(cfg, req, w) then 200 else 500
  {
  }

  /** A missing or empty `refresh_token` cookie, and only that, is 401 with no upstream call. */
  lemma MeUnauthorized(cfg: Config, req: Request, w: World)
    ensures !Present(Cookie(req, "refresh_token")) <==>
      Me(cfg, req, w) == Outcome(Respond(PlainText(401, "Unauthorized.")), [])
  {
    MeStatus(cfg, req, w);
  }

  /** Every step of `/api/me` succeeded: the cookie decrypts, the refresh grant is ok and JSON, the profile is ok and JSON. */
  predicate MeSucceeds(cfg: Config, req: Request, w: World)
  {
    Present(Cookie(req, "refresh_token")) &&
    match Decrypt(w.aead, cfg.encryptionKey, Cookie(req, "refresh_token").value)
      case None => false
      case Some(refreshToken) => ProfileSucceeds(cfg, refreshToken, w)
  }

  /** The refresh grant is ok and JSON, and so is the profile fetched with its access token. */
  predicate ProfileSucceeds(cfg: Config, refreshToken: string, w: World)
  {
    var reply := w.tokenEndpoint(RefreshForm(cfg, refreshToken));
    Ok(reply.status) && reply.json.Some? &&
    Ok(w.graph(reply.json.value.accessToken).status) && w.graph(reply.json.value.accessToken).json.Some?
  }

  /**
   * With a refresh-token cookie present, `/api/me` answers, when every step succeeds,
   * 200 with the profile Graph returned for the access token of the refresh reply, as
   * `application/json` and with no cookie, after exactly the refresh grant and the
   * profile request; otherwise 500 with exactly one cookie, the one clearing `refresh_token`.
   */
  lemma MeAnswers(cfg: Config, req: Request, w: World)
    requires Present(Cookie(req, "refresh_token"))
    ensures MeSucceeds(cfg, req, w) ==>
      var refreshToken := Decrypt(w.aead, cfg.encryptionKey, Cookie(req, "refresh_token").value).value;
      var accessToken := w.tokenEndpoint(RefreshForm(cfg, refreshToken)).json.value.accessToken;
      Me(cfg, req, w) ==
        Outcome(Respond(Response(200, None, Some("application/json"), [], Some(w.graph(accessToken).json.value))),
                [TokenCall(RefreshForm(cfg, refreshToken)), ProfileCall(accessToken)])
    ensures var r := Me(cfg, req, w).result;
      !MeSucceeds(cfg, req, w) ==>
        (r == Respond(Failure()) &&
         r.response.status == 500 && r.response.setCookies == [SetCookie("refresh_token", "", "0")])
  {
  }

  /**
   * `/api/me` always answers, with 200, 401 or 500; only a 500 sets a cookie; and any
   * upstream call it makes starts with the refresh grant for the token its own key
   * decrypted from the cookie, followed at most by the profile request, which carries
   * the access token of the refresh reply.
   */
  lemma MeCalls(cfg: Config, req: Request, w: World)
    ensures var o := Me(cfg, req, w);
      o.result.Respond? && o.result.response.status in {200, 401, 500} &&
      (o.result.response.setCookies != [] <==> o.result.response.status == 500) &&
      |o.calls| <= 2
    ensures var o := Me(cfg, req, w);
      |o.calls| > 0 ==>
        Present(Cookie(req, "refresh_token")) &&
        Decrypt(w.aead, cfg.encryptionKey, Cookie(req, "refresh_token").value).Some? &&
        var refreshToken := Decrypt(w.aead, cfg.encryptionKey, Cookie(req, "refresh_token").value).value;
        var reply := w.tokenEndpoint(RefreshForm(cfg, refreshToken));
        o.calls[0] == TokenCall(RefreshForm(cfg, refreshToken)) &&
        (|o.calls| == 2 ==> Ok(reply.status) && reply.json.Some? && o.calls[1] == ProfileCall(reply.json.value.accessToken))
  {
  }

  /** With a cookie that decrypts to a refresh token, `/api/me` carries on with that token. */
  lemma MeDecrypted(cfg: Config, req: Request, w: World, refreshToken: string)
    requires Present(Cookie(req, "refresh_token"))
    requires Decrypt(w.aead, cfg.encryptionKey, Cookie(req, "refresh_token").value) == Some(refreshToken)
    ensures Me(cfg, req, w) == Profile(cfg, refreshToken, w)
  {
  }

  /**
   * Once the refresh token is decrypted, the refresh grant for it is the first call.
   * When every later step succeeds the answer is 200 with the profile Graph returned
   * for the refresh reply's access token, after exactly those two calls; otherwise it
   * is the 500. A second call is always the profile request with that access token.
   */
  lemma ProfileAnswers(cfg: Config, refreshToken: string, w: World)
    ensures var o := Profile(cfg, refreshToken, w);
      1 <= |o.calls| <= 2 && o.calls[0] == TokenCall(RefreshForm(cfg, refreshToken))
    ensures var reply := w.tokenEndpoint(RefreshForm(cfg, refreshToken));
      ProfileSucceeds(cfg, refreshToken, w) ==>
        var accessToken := reply.json.value.accessToken;
        Profile(cfg, refreshToken, w) ==
          Outcome(Respond(Response(200, None, Some("application/json"), [], Some(w.graph(accessToken).json.value))),
                  [TokenCall(RefreshForm(cfg, refreshToken)), ProfileCall(accessToken)])
    ensures !ProfileSucceeds(cfg, refreshToken, w) ==> Profile(cfg, refreshToken, w).result == Respond(Failure())
    ensures var o := Profile(cfg, refreshToken, w);
      var reply := w.tokenEndpoint(RefreshForm(cfg, refreshToken));
      |o.calls| == 2 ==> Ok(reply.status) && reply.json.Some? && o.calls[1] == ProfileCall(reply.json.value.accessToken)
  {
  }

  // ----- routing -----

  /** `/auth/logout` always answers 200 "Logged out." and clears the refresh-token cookie. */
  lemma LogoutClears(cfg: Config, req: Request, w: World)
    requires req.httpMethod == "GET" && req.path == "/auth/logout"
    ensures var o := Handle(cfg, req, w);
      o.calls == [] && o.result.Respond? && o.result.response.status == 200 &&
      o.result.response.body == Some("Logged out.") &&
      o.result.response.setCookies == [SetCookie("refresh_token", "", "0")]
  {
  }

  /** Every request the routes do not match, any method other than `GET` included, and only those, gets the catch-all's 404 with no cookie and no call. */
  lemma HandleNotFound(cfg: Config, req: Request, w: World)
    ensures !Routed(req) <==> Handle(cfg, req, w) == NotFound()
  {
    if Routed(req) {
      if req.path == "/auth/callback" {
        CallbackNotNotFound(cfg, req, w);
      } else if req.path == "/api/me" {
        MeStatus(cfg, req, w);
      }
    }
  }

  /** No callback answer is the catch-all's: even a forwarded 404 carries the exchange's own text. */
  lemma CallbackNotNotFound(cfg: Config, req: Request, w: World)
    ensures Callback(cfg, req, w) != NotFound()
  {
    if StateMatches(req) && HasCodeAndVerifier(req) {
      var reply := ExchangeReply(cfg, req, w);
      if !Ok(reply.status) {
        assert ("Token exchange failed: " + reply.text)[0] == 'T';
      }
    }
  }

  /** The only request that ends in an escaping exception is a callback whose successful exchange answered something other than JSON. */
  lemma HandleThrows(cfg: Config, req: Request, w: World)
    ensures Handle(cfg, req, w).result == Throw <==>
      req.httpMethod == "GET" && req.path == "/auth/callback" && StateMatches(req) && HasCodeAndVerifier(req) &&
      Ok(ExchangeReply(cfg, req, w).status) && ExchangeReply(cfg, req, w).json == None
  {
    if req.httpMethod == "GET" && req.path == "/auth/callback" {
      CallbackThrows(cfg, req, w);
    } else if req.httpMethod == "GET" && req.path == "/api/me" {
      MeCalls(cfg, req, w);
    }
  }

  /** The callback throws exactly when the checks pass and a successful exchange's body is not JSON. */
  lemma CallbackThrows(cfg: Config, req: Request, w: World)
    ensures Callback(cfg, req, w).result == Throw <==>
      StateMatches(req) && HasCodeAndVerifier(req) &&
      Ok(ExchangeReply(cfg, req, w).status) && ExchangeReply(cfg, req, w).json == None
  {
  }
}
