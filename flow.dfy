/** The authorization-code flow end to end: the login form, the login it
    posts back and the exchange of the code for a token, run against one
    set of bindings. */
module Flow {
  import opened Common
  import Kv
  import opened Registry
  import opened Keys
  import opened Authorization
  import Token

  /** The same login posted twice: the CSRF token is spent by the first
      submission whatever its outcome, so the second is always rejected. */
  method ReplayedLogin(env: Env, form: Params, parseContext: string -> Option<FormContext>,
                       check: PasswordCheck, code1: string, code2: string,
                       parseUrl: string -> Option<Url>, firstMs: int, secondMs: int)
    returns (first: Response, second: Response)
    requires ParseLogin(form).Ok? && parseContext(ParseLogin(form).value.contextJson).Some?
    requires firstMs <= secondMs
    modifies env
    ensures second == BadRequest(CsrfExpired)
    ensures first != BadRequest(CsrfExpired) ==> first.Forbidden? || first.Found? || first.Thrown?
  {
    first := env.AuthorizationEndpoint(form, parseContext, check, code1, parseUrl, firstMs);
    second := env.AuthorizationEndpoint(form, parseContext, check, code2, parseUrl, secondMs);
  }

  /** The token form a client posts to redeem `code`. */
  function TokenForm(code: string): (form: Params)
    ensures Param(form, "grant_type") == Some("authorization_code") && Param(form, "code") == Some(code)
  {
    ParamCons(("grant_type", "authorization_code"), [("code", code)], "grant_type");
    ParamCons(("grant_type", "authorization_code"), [("code", code)], "code");
    ParamCons(("code", code), [], "code");
    [("grant_type", "authorization_code"), ("code", code)]
  }

  /** A code just stored for a user and a registered client is redeemed
      for a token naming them, signed with the newest key, until it
      expires; after that it is refused. */
  lemma ExchangeIssuedCode(authCodes: Kv.Store<CodeData>, clients: seq<Client>, users: seq<User>,
                           jwks: seq<DbKey>, domain: string, authorization: Option<string>,
                           code: string, data: CodeData, user: User, loginMs: int, exchangeMs: int,
                           sign: Token.Signer)
    requires Token.HasSecret(authorization) && ValidCount(jwks) > 0
    requires ClientById(clients, data.clientId).Some? && UserById(users, data.userId) == Some(user)
    requires loginMs <= exchangeMs
    ensures var snap := Token.Snapshot(Kv.Put(authCodes, code, data, CodeTtl, loginMs), clients, users, jwks);
            var r := Token.TokenEndpoint(snap, domain, authorization, TokenForm(code), exchangeMs, sign);
            var key := GetSigningKey(GetKeyset(jwks)).value;
            if exchangeMs < loginMs + CodeTtl * 1000 then
              r.Success? &&
              r.body.idToken == sign(Token.JwtHeader(key.alg, "JWT"),
                                     Token.TokenClaims(domain, user, ClientById(clients, data.clientId).value, exchangeMs),
                                     key.privateJwk)
            else r == Token.Forbidden("Invalid code")
  {
    var snap := Token.Snapshot(Kv.Put(authCodes, code, data, CodeTtl, loginMs), clients, users, jwks);
    CodeLifetime(authCodes, code, data, loginMs, exchangeMs);
    if exchangeMs < loginMs + CodeTtl * 1000 {
      assert Token.Redeemable(snap, code, exchangeMs);
      Token.IssuedToken(snap, domain, authorization, TokenForm(code), exchangeMs, sign);
    }
  }

  /** A user who logs in through the form within the CSRF token's lifetime
      is redirected to the client with a code; the code exchanged at the
      token endpoint before it expires yields a token for that user and
      that client, signed with the newest key. Exchanged after it expires,
      it is refused. */
  method CodeFlow(env: Env, jwks: seq<DbKey>, domain: string, query: Params, csrfToken: string,
                  username: string, password: string, contextJson: string,
                  parseContext: string -> Option<FormContext>, check: PasswordCheck,
                  code: string, redirect: Url, parseUrl: string -> Option<Url>,
                  authorization: Option<string>, sign: Token.Signer,
                  formMs: int, loginMs: int, exchangeMs: int)
    returns (page: Response, login: Response, token: Token.TokenResponse)
    // The authorization request is well formed and names a registered client.
    requires ParseQuery(query).Ok? && ClientById(env.clients, ParseQuery(query).value.clientId).Some?
    // The browser posts back the context it was served, in time.
    requires parseContext(contextJson) == Some(ParseQuery(query).value.(csrfToken := csrfToken))
    requires formMs <= loginMs < formMs + CsrfTtl * 1000
    // The credentials are right and the redirect URI is a URL.
    requires UserByUsername(env.users, username).Some? && UniqueUserIds(env.users)
    requires CheckPassword(check, UserByUsername(env.users, username).value, password)
    requires parseUrl(ParseQuery(query).value.redirectUri) == Some(redirect)
    // The client presents some secret, and the ring has a valid key.
    requires Token.HasSecret(authorization) && ValidCount(jwks) > 0
    requires loginMs <= exchangeMs
    modifies env
    ensures page.LoginPage? && page.context.csrfToken == csrfToken
    ensures login.Found? && Param(login.location.query, "code") == Some(code)
    ensures login.location.base == redirect.base
    ensures exchangeMs < loginMs + CodeTtl * 1000 ==>
              var user := UserByUsername(env.users, username).value;
              var client := ClientById(env.clients, ParseQuery(query).value.clientId).value;
              var key := GetSigningKey(GetKeyset(jwks)).value;
              token.Success? &&
              token.body.idToken == sign(Token.JwtHeader(key.alg, "JWT"),
                                         Token.TokenClaims(domain, user, client, exchangeMs), key.privateJwk)
    ensures exchangeMs >= loginMs + CodeTtl * 1000 ==> token == Token.Forbidden("Invalid code")
  {
    page := env.AuthorizationForm(query, csrfToken, formMs);
    var request := ParseQuery(query).value;
    assert Kv.Get(env.csrfTokens, csrfToken, loginMs) == Some(CsrfOk) by {
      Kv.GetAfterPut(old(env.csrfTokens), csrfToken, CsrfOk, CsrfTtl, formMs, loginMs);
    }
    var form := [("username", username), ("password", password), ("context", contextJson)];
    assert ParseLogin(form) == Ok(LoginForm(username, password, contextJson)) by {
      ParamCons(form[0], form[1..], "username");
      ParamCons(form[0], form[1..], "password");
      ParamCons(form[1], form[2..], "password");
      ParamCons(form[0], form[1..], "context");
      ParamCons(form[1], form[2..], "context");
      ParamCons(form[2], [], "context");
    }
    ghost var codesBefore := env.authCodes;
    login := env.AuthorizationEndpoint(form, parseContext, check, code, parseUrl, loginMs);
    var user := UserByUsername(env.users, username).value;
    var data := CodeData(user.id, request.clientId, request.redirectUri);
    assert env.authCodes == Kv.Put(codesBefore, code, data, CodeTtl, loginMs);
    assert login == Found(RedirectTarget(redirect, code, request.state));
    var snap := Token.Snapshot(env.authCodes, env.clients, env.users, jwks);
    token := Token.TokenEndpoint(snap, domain, authorization, TokenForm(code), exchangeMs, sign);
    UserByIdFindsNamedUser(env.users, username);
    ExchangeIssuedCode(codesBefore, env.clients, env.users, jwks, domain, authorization,
                       code, data, user, loginMs, exchangeMs, sign);
  }
}
