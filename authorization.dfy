/** The authorization endpoint of the authorization-code flow (section 3.1.2
    of OpenID Connect Core 1.0, section 4.1.1 of RFC 6749): the login form
    served for an authorization request, the login it posts back, and the
    authorization codes it hands out. */
module Authorization {
  import opened Common
  import Kv
  import opened Registry

  /** Lifetime of a CSRF token, in seconds. */
  const CsrfTtl: nat := 120

  /** Lifetime of an authorization code, in seconds. */
  const CodeTtl: nat := 60

  /** The value stored under a live CSRF token. */
  const CsrfOk := "ok"

  const CsrfExpired := "Your CSRF token has expired. Please try again."

  /** The one answer to a failed login, whichever check failed. */
  const InvalidCredentials := "Invalid username or password"

  /** The validated authorization request, carried through the login form
      together with the CSRF token issued for it. */
  datatype FormContext = FormContext(
    responseType: string,
    clientId: string,
    scope: string,
    redirectUri: string,
    state: Option<string>,
    nonce: Option<string>,
    csrfToken: string)

  /** What an authorization code stands for. */
  datatype CodeData = CodeData(userId: int, clientId: string, redirectUri: string)

  /** The fields of the posted login form; the context is still JSON text. */
  datatype LoginForm = LoginForm(username: string, password: string, contextJson: string)

  /** The outcomes of the two handlers. `Thrown` is an exception escaping the
      handler (a context that is not JSON, a redirect URI that is not a URL). */
  datatype Response =
    | BadRequest(message: string)
    | Forbidden(message: string)
    | LoginPage(context: FormContext, client: Client)
    | Found(location: Url)
    | Thrown

  /** JavaScript truthiness of `string | null`. */
  predicate Truthy(s: Option<string>)
  {
    s.Some? && s.value != ""
  }

  // ---------------------------------------------------------------------
  // Reading the requests

  /** The query checks of `authorizationForm`, in their order. On success the
      context still lacks its CSRF token. */
  function ParseQuery(query: Params): (r: Result<FormContext, string>)
    ensures r.Ok? <==> Param(query, "response_type") == Some("code") && Param(query, "client_id").Some? &&
                       Param(query, "scope").Some? && Param(query, "redirect_uri").Some?
    ensures Param(query, "response_type").None? ==> r == Err("Missing response type")
    ensures Param(query, "response_type").Some? && Param(query, "response_type") != Some("code") ==>
              r == Err("Invalid response type")
    ensures Param(query, "response_type") == Some("code") && Param(query, "client_id").None? ==>
              r == Err("Missing client ID")
    ensures (Param(query, "response_type") == Some("code") && Param(query, "client_id").Some? &&
             Param(query, "scope").None?) ==> r == Err("Missing scope")
    ensures (Param(query, "response_type") == Some("code") && Param(query, "client_id").Some? &&
             Param(query, "scope").Some? && Param(query, "redirect_uri").None?) ==> r == Err("Missing redirect URI")
    ensures r.Ok? ==> r.value.responseType == "code" &&
                      Some(r.value.clientId) == Param(query, "client_id") &&
                      Some(r.value.scope) == Param(query, "scope") &&
                      Some(r.value.redirectUri) == Param(query, "redirect_uri") &&
                      r.value.state == Param(query, "state") && r.value.nonce == Param(query, "nonce")
  {
    match Param(query, "response_type")
    case None => Err("Missing response type")
    case Some(responseType) =>
      if responseType != "code" then Err("Invalid response type")
      else match Param(query, "client_id")
      case None => Err("Missing client ID")
      case Some(clientId) =>
        match Param(query, "scope")
        case None => Err("Missing scope")
        case Some(scope) =>
          match Param(query, "redirect_uri")
          case None => Err("Missing redirect URI")
          case Some(redirectUri) =>
            Ok(FormContext(responseType, clientId, scope, redirectUri,
                           Param(query, "state"), Param(query, "nonce"), ""))
  }

  /** The field checks of `authorizationEndpoint`, in their order. */
  function ParseLogin(form: Params): (r: Result<LoginForm, string>)
    ensures r.Ok? <==> Param(form, "username").Some? && Param(form, "password").Some? &&
                       Param(form, "context").Some?
    ensures Param(form, "username").None? ==> r == Err("Missing username")
    ensures Param(form, "username").Some? && Param(form, "password").None? ==> r == Err("Missing password")
    ensures (Param(form, "username").Some? && Param(form, "password").Some? &&
             Param(form, "context").None?) ==> r == Err("Missing context")
    ensures r.Ok? ==> Some(r.value.username) == Param(form, "username") &&
                      Some(r.value.password) == Param(form, "password") &&
                      Some(r.value.contextJson) == Param(form, "context")
  {
    match Param(form, "username")
    case None => Err("Missing username")
    case Some(username) =>
      match Param(form, "password")
      case None => Err("Missing password")
      case Some(password) =>
        match Param(form, "context")
        case None => Err("Missing context")
        case Some(contextJson) => Ok(LoginForm(username, password, contextJson))
  }

  /** The redirect after a successful login: the client's redirect URI with
      `code` set and, when the request carried a non-empty one, `state` set.
      Everything else in the URI is kept, including a `state` of its own
      when the request had none. */
  function RedirectTarget(redirectUri: Url, code: string, state: Option<string>): (r: Url)
    ensures r.base == redirectUri.base
    ensures Param(r.query, "code") == Some(code)
    ensures Param(r.query, "state") == if Truthy(state) then state else Param(redirectUri.query, "state")
    ensures forall n :: n != "code" && n != "state" ==> Param(r.query, n) == Param(redirectUri.query, n)
    ensures Only(r.query, "code") == [("code", code)]
    ensures Truthy(state) ==> Only(r.query, "state") == [("state", state.value)]
    // Every pair other than `code` and `state` is kept, in order.
    ensures RemoveParam(RemoveParam(r.query, "state"), "code") ==
            RemoveParam(RemoveParam(redirectUri.query, "state"), "code")
    ensures !Truthy(state) ==> RemoveParam(r.query, "code") == RemoveParam(redirectUri.query, "code")
  {
    if Truthy(state) then
      StateSetKeepsOthers(redirectUri.query, code, state.value);
      Url(redirectUri.base, SetParam(SetParam(redirectUri.query, "code", code), "state", state.value))
    else
      CodeSetKeepsOthers(redirectUri.query, code);
      Url(redirectUri.base, SetParam(redirectUri.query, "code", code))
  }

  /** Setting `code` alone keeps every pair of another name, `state`
      included. */
  lemma CodeSetKeepsOthers(query: Params, code: string)
    ensures var r := SetParam(query, "code", code);
            Param(r, "code") == Some(code) && Param(r, "state") == Param(query, "state") &&
            (forall n :: n != "code" && n != "state" ==> Param(r, n) == Param(query, n)) &&
            Only(r, "code") == [("code", code)] &&
            RemoveParam(r, "code") == RemoveParam(query, "code") &&
            RemoveParam(RemoveParam(r, "state"), "code") == RemoveParam(RemoveParam(query, "state"), "code")
  {
    var r := SetParam(query, "code", code);
    RemoveParamCommutes(r, "state", "code");
    RemoveParamCommutes(query, "state", "code");
    OthersKept(r, query, "state", "code");
  }

  /** Setting `state` after `code` keeps the single `code` pair and every
      pair of another name. */
  lemma StateSetKeepsOthers(query: Params, code: string, state: string)
    ensures var r := SetParam(SetParam(query, "code", code), "state", state);
            Param(r, "code") == Some(code) && Param(r, "state") == Some(state) &&
            (forall n :: n != "code" && n != "state" ==> Param(r, n) == Param(query, n)) &&
            Only(r, "code") == [("code", code)] && Only(r, "state") == [("state", state)] &&
            RemoveParam(RemoveParam(r, "state"), "code") == RemoveParam(RemoveParam(query, "state"), "code")
  {
    var withCode := SetParam(query, "code", code);
    var r := SetParam(withCode, "state", state);
    RemoveParamCommutes(withCode, "state", "code");
    RemoveParamCommutes(query, "state", "code");
    OnlyOfRemove(withCode, "state", "code");
    OnlyOfRemove(r, "state", "code");
    OthersKept(r, query, "state", "code");
  }

  /** `getCodeData`: the data of a code that is stored and not expired. */
  function GetCodeData(authCodes: Kv.Store<CodeData>, code: string, nowMs: int): (r: Option<CodeData>)
    ensures r.Some? <==> code in authCodes && nowMs < authCodes[code].expiresAt
    ensures r.Some? ==> r.value == authCodes[code].value
  {
    Kv.Get(authCodes, code, nowMs)
  }

  /** A code issued at `issuedMs` is redeemable for exactly `CodeTtl`
      seconds. */
  lemma CodeLifetime(authCodes: Kv.Store<CodeData>, code: string, data: CodeData, issuedMs: int, nowMs: int)
    requires issuedMs <= nowMs
    ensures GetCodeData(Kv.Put(authCodes, code, data, CodeTtl, issuedMs), code, nowMs) ==
            if nowMs < issuedMs + CodeTtl * 1000 then Some(data) else None
  {
    Kv.GetAfterPut(authCodes, code, data, CodeTtl, issuedMs, nowMs);
  }

  // ---------------------------------------------------------------------
  // The handlers

  /** The worker's bindings this core uses: the two TTL namespaces it
      writes, and the client and user tables it only reads. */
  class Env {
    var csrfTokens: Kv.Store<string>
    var authCodes: Kv.Store<CodeData>
    const clients: seq<Client>
    const users: seq<User>

    constructor (clients: seq<Client>, users: seq<User>)
      ensures this.clients == clients && this.users == users
      ensures csrfTokens == map[] && authCodes == map[]
    {
      this.clients := clients;
      this.users := users;
      csrfTokens := map[];
      authCodes := map[];
    }

    /** `authorizationForm`: validates the authorization request and the
        client, then stores `csrfToken` (a fresh UUID) for `CsrfTtl`
        seconds and serves the login form carrying it. A rejected request
        writes nothing. */
    method AuthorizationForm(query: Params, csrfToken: string, nowMs: int) returns (resp: Response)
      modifies this
      ensures authCodes == old(authCodes)
      ensures ParseQuery(query).Err? ==>
                resp == BadRequest(ParseQuery(query).error) && csrfTokens == old(csrfTokens)
      ensures ParseQuery(query).Ok? && ClientById(clients, ParseQuery(query).value.clientId).None? ==>
                resp == BadRequest("Invalid client ID") && csrfTokens == old(csrfTokens)
      ensures ParseQuery(query).Ok? && ClientById(clients, ParseQuery(query).value.clientId).Some? ==>
                resp == LoginPage(ParseQuery(query).value.(csrfToken := csrfToken),
                                  ClientById(clients, ParseQuery(query).value.clientId).value) &&
                csrfTokens == Kv.Put(old(csrfTokens), csrfToken, CsrfOk, CsrfTtl, nowMs)
    {
      var request := ParseQuery(query);
      if request.Err? {
        return BadRequest(request.error);
      }
      var client := ClientById(clients, request.value.clientId);
      if client.None? {
        return BadRequest("Invalid client ID");
      }
      csrfTokens := Kv.Put(csrfTokens, csrfToken, CsrfOk, CsrfTtl, nowMs);
      resp := LoginPage(request.value.(csrfToken := csrfToken), client.value);
    }

    /** `authorizationEndpoint`: checks the posted fields and the CSRF token,
        consumes the token, checks the credentials, stores `code` (a fresh
        UUID) for `CodeTtl` seconds and redirects to the client with it.
        `parseContext` stands for `JSON.parse` of the context, `check` for
        bcrypt, `parseUrl` for `new URL`. */
    method AuthorizationEndpoint(form: Params, parseContext: string -> Option<FormContext>,
                                 check: PasswordCheck, code: string,
                                 parseUrl: string -> Option<Url>, nowMs: int) returns (resp: Response)
      modifies this
      // The form is incomplete: nothing is touched.
      ensures ParseLogin(form).Err? ==>
                resp == BadRequest(ParseLogin(form).error) &&
                csrfTokens == old(csrfTokens) && authCodes == old(authCodes)
      // The context is not JSON: the parse throws before any store is read.
      ensures ParseLogin(form).Ok? && parseContext(ParseLogin(form).value.contextJson).None? ==>
                resp == Thrown && csrfTokens == old(csrfTokens) && authCodes == old(authCodes)
      ensures ParseLogin(form).Ok? && parseContext(ParseLogin(form).value.contextJson).Some? ==>
                var login := ParseLogin(form).value;
                var context := parseContext(login.contextJson).value;
                var user := UserByUsername(users, login.username);
                if Kv.Get(old(csrfTokens), context.csrfToken, nowMs) != Some(CsrfOk) then
                  // No live token: rejected, nothing is touched.
                  resp == BadRequest(CsrfExpired) &&
                  csrfTokens == old(csrfTokens) && authCodes == old(authCodes)
                else
                  // From here on the token is spent, whatever follows.
                  csrfTokens == Kv.Delete(old(csrfTokens), context.csrfToken) &&
                  if user.None? || !CheckPassword(check, user.value, login.password) then
                    resp == Forbidden(InvalidCredentials) && authCodes == old(authCodes)
                  else
                    authCodes == Kv.Put(old(authCodes), code,
                                        CodeData(user.value.id, context.clientId, context.redirectUri),
                                        CodeTtl, nowMs) &&
                    resp == match parseUrl(context.redirectUri)
                            case None => Thrown
                            case Some(url) => Found(RedirectTarget(url, code, context.state))
    {
      var login := ParseLogin(form);
      if login.Err? {
        return BadRequest(login.error);
      }
      var context := parseContext(login.value.contextJson);
      if context.None? {
        return Thrown;
      }
      var csrfToken := context.value.csrfToken;
      var hasCsrf := Kv.Get(csrfTokens, csrfToken, nowMs) == Some(CsrfOk);
      if !hasCsrf {
        return BadRequest(CsrfExpired);
      }
      csrfTokens := Kv.Delete(csrfTokens, csrfToken);
      resp := LogIn(login.value, context.value, check, code, parseUrl, nowMs);
    }

    /** The rest of `authorizationEndpoint` once the CSRF token is spent:
        the credentials are checked and the code is stored and sent. */
    method LogIn(login: LoginForm, context: FormContext, check: PasswordCheck, code: string,
                 parseUrl: string -> Option<Url>, nowMs: int) returns (resp: Response)
      modifies this
      ensures csrfTokens == old(csrfTokens)
      ensures var user := UserByUsername(users, login.username);
              if user.None? || !CheckPassword(check, user.value, login.password) then
                resp == Forbidden(InvalidCredentials) && authCodes == old(authCodes)
              else
                authCodes == Kv.Put(old(authCodes), code,
                                    CodeData(user.value.id, context.clientId, context.redirectUri),
                                    CodeTtl, nowMs) &&
                resp == match parseUrl(context.redirectUri)
                        case None => Thrown
                        case Some(url) => Found(RedirectTarget(url, code, context.state))
    {
      var user := UserByUsername(users, login.username);
      if user.None? {
        return Forbidden(InvalidCredentials);
      }
      var passwordOk := CheckPassword(check, user.value, login.password);
      if !passwordOk {
        return Forbidden(InvalidCredentials);
      }
      authCodes := Kv.Put(authCodes, code,
                          CodeData(user.value.id, context.clientId, context.redirectUri),
                          CodeTtl, nowMs);
      var redirectUri := parseUrl(context.redirectUri);
      if redirectUri.None? {
        return Thrown;
      }
      resp := Found(RedirectTarget(redirectUri.value, code, context.state));
    }
  }
}
