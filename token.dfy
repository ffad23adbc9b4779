/** The token endpoint of the authorization-code flow (section 3.1.3 of
    OpenID Connect Core 1.0, section 4.1.3 of RFC 6749): an authorization
    code is exchanged for an ID token signed with the newest key of the
    ring. The endpoint only reads the stores, so it is a function of a
    snapshot of them. */
module Token {
  import opened Common
  import Kv
  import opened Registry
  import opened Keys
  import Authorization

  /** Lifetime of an issued token, in seconds (one day). */
  const ExpirationTime: int := 60 * 60 * 24

  // ---------------------------------------------------------------------
  // The client credential

  /** `s.replace(/^prefix/, "")`. */
  function StripPrefix(s: string, prefix: string): (r: string)
    ensures prefix <= s ==> s == prefix + r
    ensures !(prefix <= s) ==> r == s
  {
    if prefix <= s then
      assert s == prefix + s[|prefix|..];
      s[|prefix|..]
    else s
  }

  /** The client secret read from the `Authorization` header: the header
      with a leading `Bearer ` and then a leading `Basic ` removed. */
  function ClientSecret(authorization: Option<string>): Option<string>
  {
    match authorization
    case None => None
    case Some(h) => Some(StripPrefix(StripPrefix(h, "Bearer "), "Basic "))
  }

  /** The credential check of the endpoint: a secret that is present and
      non-empty. Its value is never used. */
  predicate HasSecret(authorization: Option<string>)
  {
    ClientSecret(authorization).Some? && ClientSecret(authorization).value != ""
  }

  /** Exactly four header values, and a missing header, carry no secret. */
  lemma MissingSecretExactly(authorization: Option<string>)
    ensures !HasSecret(authorization) <==>
            authorization.None? || authorization.value in {"", "Bearer ", "Basic ", "Bearer Basic "}
  {
    if authorization.Some? {
      var h := authorization.value;
      var afterBearer := StripPrefix(h, "Bearer ");
      var secret := StripPrefix(afterBearer, "Basic ");
      if secret == "" {
        assert afterBearer == "" || afterBearer == "Basic ";
        if "Bearer " <= h {
          assert h == "Bearer " + afterBearer;
        }
      }
      if h == "Bearer Basic " {
        assert afterBearer == "Basic ";
      } else if h == "Basic " {
        assert !("Bearer " <= h) by { assert h[0] != "Bearer "[0] || h[1] != "Bearer "[1]; }
      } else if h == "Bearer " {
        assert afterBearer == "";
      }
    }
  }

  // ---------------------------------------------------------------------
  // The token

  /** The protected header of the token. */
  datatype JwtHeader = JwtHeader(alg: string, typ: string)

  /** The claim set of the token (section 4.1 of RFC 7519) and the two
      profile claims. Times are whole seconds since the epoch. */
  datatype Claims = Claims(
    preferredUsername: string,
    email: string,
    iat: int,
    iss: string,
    sub: string,
    aud: string,
    exp: int)

  /** `SignJWT.sign`: the compact serialization of header and claims signed
      with a private JWK. Signing is opaque. */
  type Signer = (JwtHeader, Claims, Jwk) -> string

  /** The issuer identifier, `https://DOMAIN/`. */
  function Issuer(domain: string): string
  {
    "https://" + domain + "/"
  }

  /** The claims `generateToken` sets at `nowMs` milliseconds: issued in the
      current second (rounded down), expiring one day after the current
      time rounded to the nearest second (halves up). */
  function TokenClaims(domain: string, user: User, client: Client, nowMs: int): (c: Claims)
    ensures c.sub == user.username && c.preferredUsername == user.username && c.email == user.email
    ensures c.aud == client.id && c.iss == "https://" + domain + "/"
    ensures c.iat * 1000 <= nowMs < c.iat * 1000 + 1000
    ensures (c.exp - ExpirationTime) * 1000 - 500 <= nowMs < (c.exp - ExpirationTime) * 1000 + 500
    ensures c.exp - c.iat == ExpirationTime || c.exp - c.iat == ExpirationTime + 1
  {
    Claims(user.username, user.email, nowMs / 1000, Issuer(domain), user.username, client.id,
           (nowMs + 500) / 1000 + ExpirationTime)
  }

  /** `generateToken`: the claims signed with the key's private JWK under a
      header naming the key's algorithm. */
  function GenerateToken(domain: string, key: Key, user: User, client: Client, nowMs: int, sign: Signer): string
  {
    sign(JwtHeader(key.alg, "JWT"), TokenClaims(domain, user, client, nowMs), key.privateJwk)
  }

  // ---------------------------------------------------------------------
  // The endpoint

  /** The stores the endpoint reads. */
  datatype Snapshot = Snapshot(
    authCodes: Kv.Store<Authorization.CodeData>,
    clients: seq<Client>,
    users: seq<User>,
    jwks: seq<DbKey>)

  /** An exception escaping the endpoint. */
  datatype Fault =
    | InvalidClientId(clientId: string)
    | InvalidUserId(userId: int)
    | NoSigningKey(message: string)

  /** The JSON body of a successful exchange. */
  datatype TokenBody = TokenBody(accessToken: string, idToken: string, tokenType: string, expiresIn: int, scope: string)

  datatype TokenResponse =
    | Forbidden(message: string)
    | BadRequest(message: string)
    | Success(body: TokenBody)
    | Thrown(fault: Fault)

  /** Every lookup of an exchange succeeds: the code is live, its client and
      user exist and the ring has a valid key. */
  predicate Redeemable(snap: Snapshot, code: string, nowMs: int)
  {
    Authorization.GetCodeData(snap.authCodes, code, nowMs).Some? &&
    ClientById(snap.clients, Authorization.GetCodeData(snap.authCodes, code, nowMs).value.clientId).Some? &&
    UserById(snap.users, Authorization.GetCodeData(snap.authCodes, code, nowMs).value.userId).Some? &&
    GetSigningKey(GetKeyset(snap.jwks)).Ok?
  }

  /** `tokenEndpoint`: the credential, the grant type and the code are
      checked in that order; the code's client and user, and the signing
      key, must exist, or the handler throws. Nothing is written: the code
      stays redeemable. */
  function TokenEndpoint(snap: Snapshot, domain: string, authorization: Option<string>, form: Params,
                         nowMs: int, sign: Signer): (r: TokenResponse)
    ensures !HasSecret(authorization) ==> r == Forbidden("Missing auth token")
    ensures HasSecret(authorization) && Param(form, "grant_type") != Some("authorization_code") ==>
              r == BadRequest("Invalid grant type")
    ensures (HasSecret(authorization) && Param(form, "grant_type") == Some("authorization_code") &&
             Param(form, "code").None?) ==> r == BadRequest("Missing authorization code")
    ensures (HasSecret(authorization) && Param(form, "grant_type") == Some("authorization_code") &&
             Param(form, "code").Some? && Authorization.GetCodeData(snap.authCodes, Param(form, "code").value, nowMs).None?) ==>
              r == Forbidden("Invalid code")
    ensures r.Thrown? ==> HasSecret(authorization) && Param(form, "code").Some? &&
                          Authorization.GetCodeData(snap.authCodes, Param(form, "code").value, nowMs).Some? &&
                          !Redeemable(snap, Param(form, "code").value, nowMs)
    ensures r.Success? <==> HasSecret(authorization) && Param(form, "grant_type") == Some("authorization_code") &&
                            Param(form, "code").Some? && Redeemable(snap, Param(form, "code").value, nowMs)
    ensures r.Success? ==> r.body.accessToken == r.body.idToken && r.body.tokenType == "id_token" &&
                           r.body.expiresIn == ExpirationTime && r.body.scope == "openid"
  {
    if !HasSecret(authorization) then Forbidden("Missing auth token")
    else if Param(form, "grant_type") != Some("authorization_code") then BadRequest("Invalid grant type")
    else match Param(form, "code")
    case None => BadRequest("Missing authorization code")
    case Some(code) =>
      match Authorization.GetCodeData(snap.authCodes, code, nowMs)
      case None => Forbidden("Invalid code")
      case Some(codeData) =>
        match ClientById(snap.clients, codeData.clientId)
        case None => Thrown(InvalidClientId(codeData.clientId))
        case Some(client) =>
          match UserById(snap.users, codeData.userId)
          case None => Thrown(InvalidUserId(codeData.userId))
          case Some(user) =>
            match GetSigningKey(GetKeyset(snap.jwks))
            case Err(message) => Thrown(NoSigningKey(message))
            case Ok(key) =>
              var token := GenerateToken(domain, key, user, client, nowMs, sign);
              Success(TokenBody(token, token, "id_token", ExpirationTime, "openid"))
  }

  /** Which exception escapes when a live code cannot be redeemed: its
      client is checked before its user, and both before the key ring. */
  lemma ThrownFaults(snap: Snapshot, domain: string, authorization: Option<string>, form: Params,
                     nowMs: int, sign: Signer)
    requires HasSecret(authorization) && Param(form, "grant_type") == Some("authorization_code")
    requires Param(form, "code").Some? && Authorization.GetCodeData(snap.authCodes, Param(form, "code").value, nowMs).Some?
    ensures var data := Authorization.GetCodeData(snap.authCodes, Param(form, "code").value, nowMs).value;
            var r := TokenEndpoint(snap, domain, authorization, form, nowMs, sign);
            (ClientById(snap.clients, data.clientId).None? ==> r == Thrown(InvalidClientId(data.clientId))) &&
            (ClientById(snap.clients, data.clientId).Some? && UserById(snap.users, data.userId).None? ==>
               r == Thrown(InvalidUserId(data.userId))) &&
            ((ClientById(snap.clients, data.clientId).Some? && UserById(snap.users, data.userId).Some? &&
              ValidCount(snap.jwks) == 0) ==> r == Thrown(NoSigningKey("Missing signing key")))
  {
  }

  /** The token issued: signed with the newest valid key of the ring, under
      that key's algorithm, for the code's user and client. */
  lemma IssuedToken(snap: Snapshot, domain: string, authorization: Option<string>, form: Params,
                    nowMs: int, sign: Signer)
    requires TokenEndpoint(snap, domain, authorization, form, nowMs, sign).Success?
    ensures var data := Authorization.GetCodeData(snap.authCodes, Param(form, "code").value, nowMs).value;
            var key := GetSigningKey(GetKeyset(snap.jwks)).value;
            var claims := TokenClaims(domain, UserById(snap.users, data.userId).value,
                                      ClientById(snap.clients, data.clientId).value, nowMs);
            TokenEndpoint(snap, domain, authorization, form, nowMs, sign).body.idToken ==
              sign(JwtHeader(key.alg, "JWT"), claims, key.privateJwk) &&
            claims.aud == data.clientId &&
            (exists row :: row in snap.jwks && row.valid != 0 && key == InterpretKey(row)) &&
            (forall row :: row in snap.jwks && row.valid != 0 ==> row.created <= key.created)
  {
    SigningKeyIsNewest(snap.jwks);
  }

  // ---------------------------------------------------------------------
  // What the endpoint does not check

  /** The secret is never compared: any two headers that carry one, and any
      two client tables that agree on the ids, give the same answer. */
  lemma SecretNeverCompared(snap: Snapshot, clients: seq<Client>, domain: string,
                            h1: Option<string>, h2: Option<string>, form: Params, nowMs: int, sign: Signer)
    requires HasSecret(h1) && HasSecret(h2)
    requires |clients| == |snap.clients|
    requires forall i :: 0 <= i < |clients| ==> clients[i].id == snap.clients[i].id
    ensures TokenEndpoint(snap, domain, h1, form, nowMs, sign) ==
            TokenEndpoint(snap.(clients := clients), domain, h2, form, nowMs, sign)
  {
    if Param(form, "grant_type") == Some("authorization_code") && Param(form, "code").Some? {
      var data := Authorization.GetCodeData(snap.authCodes, Param(form, "code").value, nowMs);
      if data.Some? {
        var id := data.value.clientId;
        ClientByIdSameIds(snap.clients, clients, id);
        var a := ClientById(snap.clients, id);
        var b := ClientById(clients, id);
        if a.Some? && UserById(snap.users, data.value.userId).Some? && GetSigningKey(GetKeyset(snap.jwks)).Ok? {
          var user := UserById(snap.users, data.value.userId).value;
          assert TokenClaims(domain, user, a.value, nowMs) == TokenClaims(domain, user, b.value, nowMs);
        }
      }
    }
  }

  /** `redirect_uri` is never checked: neither a form field beyond
      `grant_type` and `code`, nor the redirect URI stored with the code,
      changes the answer. */
  lemma RedirectUriIgnored(snap: Snapshot, authCodes: Kv.Store<Authorization.CodeData>, domain: string,
                           authorization: Option<string>, f1: Params, f2: Params, nowMs: int, sign: Signer)
    requires Param(f1, "grant_type") == Param(f2, "grant_type") && Param(f1, "code") == Param(f2, "code")
    requires authCodes.Keys == snap.authCodes.Keys
    requires forall k :: k in authCodes ==>
               authCodes[k].expiresAt == snap.authCodes[k].expiresAt &&
               authCodes[k].value.userId == snap.authCodes[k].value.userId &&
               authCodes[k].value.clientId == snap.authCodes[k].value.clientId
    ensures TokenEndpoint(snap, domain, authorization, f1, nowMs, sign) ==
            TokenEndpoint(snap.(authCodes := authCodes), domain, authorization, f2, nowMs, sign)
  {
    if HasSecret(authorization) && Param(f1, "grant_type") == Some("authorization_code") && Param(f1, "code").Some? {
      var code := Param(f1, "code").value;
      var d1 := Authorization.GetCodeData(snap.authCodes, code, nowMs);
      var d2 := Authorization.GetCodeData(authCodes, code, nowMs);
      assert d1.Some? <==> d2.Some?;
      if d1.Some? {
        assert d1.value.clientId == d2.value.clientId && d1.value.userId == d2.value.userId;
        var client := ClientById(snap.clients, d1.value.clientId);
        var user := UserById(snap.users, d1.value.userId);
        var key := GetSigningKey(GetKeyset(snap.jwks));
        if client.Some? && user.Some? && key.Ok? {
          var token := GenerateToken(domain, key.value, user.value, client.value, nowMs, sign);
          assert TokenEndpoint(snap, domain, authorization, f1, nowMs, sign) ==
                 Success(TokenBody(token, token, "id_token", ExpirationTime, "openid"));
        }
      }
    }
  }

  /** The code is not consumed: an exchange that succeeded succeeds again at
      any later time before the code expires, for the same user, client and
      key. Once it expires the answer is `Invalid code`. */
  lemma CodeReplayable(snap: Snapshot, domain: string, authorization: Option<string>, form: Params,
                       nowMs: int, laterMs: int, sign: Signer)
    requires TokenEndpoint(snap, domain, authorization, form, nowMs, sign).Success?
    requires nowMs <= laterMs
    ensures var code := Param(form, "code").value;
            var r := TokenEndpoint(snap, domain, authorization, form, laterMs, sign);
            if laterMs < snap.authCodes[code].expiresAt then
              r.Success? && Authorization.GetCodeData(snap.authCodes, code, laterMs) == Authorization.GetCodeData(snap.authCodes, code, nowMs)
            else r == Forbidden("Invalid code")
  {
  }
}
