# basicauth OIDC core, modelled in Dafny

This project models the core of the basicauth OpenID Connect identity provider.
That core is the authorization-code flow (section 3.1 of OpenID Connect Core 1.0,
on top of section 4.1 of RFC 6749) together with the signing-key ring behind it.
Three source files make up the core:

- `src/jwks/keys.ts`. The `jwks` table of signing keys. The keyset holds the
  valid rows, oldest first (`getKeyset`). The newest key signs
  (`getSigningKey`). `saveNewKey` rotates the ring: it inserts a new key and
  retires the oldest valid one once more than two are valid. `clearKeys`
  empties the table. `keysetToJwks` publishes the JSON Web Key Set.
  Model: `keys.dfy`. The pure parts are functions over a sequence of rows.
  The table is the class `Keys.KeyTable`, whose methods `SaveNewKey` and
  `ClearKeys` reassign its `rows`.
- `src/oidc/authorization.tsx`. `authorizationForm` validates the
  authorization request and stores a CSRF token. `authorizationEndpoint`
  checks and spends the CSRF token, checks the credentials, stores an
  authorization code and redirects to the client. `getCodeData` reads a code.
  Model: `authorization.dfy`. The two TTL namespaces are fields of the class
  `Authorization.Env`, and the two handlers are its methods.
- `src/oidc/token.ts`. `tokenEndpoint` exchanges a code for an ID token, and
  `generateToken` builds and signs its claims. This file only reads the
  stores. Model: `token.dfy`, a function `Token.TokenEndpoint` over a
  snapshot of the stores.

Supporting modules:

- `common.dfy`: optional values, results, first-match lookup, and the
  name/value lists behind `URLSearchParams` and `FormData`.
- `kv.dfy`: the TTL key-value namespaces.
- `registry.dfy`: the client and user tables, read by `getClientById`,
  `getUserById` and `getUserByUsername`.
- `flow.dfy`: the whole flow, modelled end to end.

Time is one millisecond clock, `nowMs`, passed to every operation that reads
the time:

- A KV entry put with a TTL of `ttl` seconds at `now` is live while the
  clock is below `now + ttl * 1000`.
- SQLite's `unixepoch()` is `nowMs / 1000`.
- The token's `iat` is the current second, rounded down.
- Its `exp` is `Math.round(nowMs / 1000 + 86400)`, computed on integers as
  `(nowMs + 500) / 1000 + 86400`.

Values the source draws from outside are parameters of the model:

- the random UUIDs used for CSRF tokens and codes;
- the generated key pair;
- `bcrypt.compare`;
- `JSON.parse` of the posted context;
- `new URL`;
- the JWT signer;
- the `success` flag of each D1 write.

Where the code departs from the standards it implements, the model follows
the code:

- The token endpoint never deletes the code. A code can be redeemed again
  until its 60-second TTL runs out (`Token.CodeReplayable`). Section 4.1.2 of
  RFC 6749 requires that an authorization code be used only once.
- `state` is added to the redirect only when the request's `state` is a
  non-empty string (JavaScript truthiness). Section 4.1.2 of RFC 6749
  returns `state` whenever the parameter was present in the authorization
  request, empty or not.
- The published key set is free of private-key members if every key's
  public JWK is (`Keys.JwksCarryNoPrivateMembers`). The code copies the
  public JWK's members as they are.
- The client secret is never compared, and `redirect_uri` is never checked at
  the token endpoint. The corresponding lines are commented out in the code.

## Model

| member | source | states |
|---|---|---|
| Common.Param | src/oidc/authorization.tsx:23-43 | `searchParams.get` / `formData.get`: absent exactly when no pair has the name; otherwise the value of the first pair that has it |
| Common.SetParam | src/oidc/authorization.tsx:132-134 | `searchParams.set`: afterwards exactly one pair carries the name, with the new value; every pair of another name is kept, in order, so every other name reads as before |
| Kv.GetAfterPut | src/oidc/authorization.tsx:114-124 | a value put with a TTL reads back until `ttl` seconds have passed, and reads as absent from then on |
| Kv.GetAfterDelete | src/oidc/authorization.tsx:88-92 | a deleted key reads as absent at any time, so a spent CSRF token no longer reads as `"ok"` |
| Kv.OtherKeysUnaffected | src/oidc/authorization.tsx:88-124 | a put or delete of one key leaves what every other key reads unchanged |
| Registry.ClientById | src/clients/clients.ts:9-21 | `getClientById`: null exactly when no client has the id; otherwise a client of the table with that id |
| Registry.ClientByIdSameIds | src/clients/clients.ts:9-21 | whether a client is found depends only on the table's ids, not on names or secrets |
| Registry.UserByUsername | src/users.ts/users.ts:34-45 | `getUserByUsername`: null exactly when no user has the name; otherwise a user of the table with that name |
| Registry.UserById | src/users.ts/users.ts:24-32 | `getUserById`: null exactly when no user has the id; otherwise a user of the table with that id |
| Registry.PasswordCheckedAgainstHash | src/users.ts/users.ts:47-52 | `checkPassword`: the password is checked against the user's stored hash and nothing else of the user |
| Registry.UserByIdFindsNamedUser | src/users.ts/users.ts:24-45 | with ids as the primary key, looking up the id of the user found by name finds that same user |
| Keys.SerializeKey | src/jwks/keys.ts:43-52 | the row always has `valid` 1, and reading it back gives the key with `valid` true |
| Keys.SerializeInterpret | src/jwks/keys.ts:30-52 | `interpretKey`: a row reads as valid exactly when its `valid` is 1; serializing the key read gives back the row with `valid` 1, so a row whose `valid` is 1 is unchanged |
| Keys.Interpreted | src/jwks/keys.ts:61 | `.map(interpretKey)`: one key per row, in row order |
| Keys.ValidRowsSpec | src/jwks/keys.ts:57 | `WHERE valid`: a row is kept exactly when it is in the table with a non-zero `valid` |
| Keys.InsertPermutes | src/jwks/keys.ts:57 | inserting one row by `created` adds exactly that row: one longer, same multiset plus the row |
| Keys.InsertKeepsSorted | src/jwks/keys.ts:57 | inserting by `created` into a list ordered by `created` leaves it ordered |
| Keys.SortSpec | src/jwks/keys.ts:57 | `ORDER BY created ASC`: the result is ordered by `created` and is a permutation of its input |
| Keys.KeysOfValidRows | src/jwks/keys.ts:54-63 | the keys read from an ordered arrangement of the valid rows are ordered, include every valid row's key, and contain nothing else |
| Keys.GetKeyset | src/jwks/keys.ts:54-63 | `getKeyset`: one key per valid row, ordered by `created` ascending; every valid row's key is in it and every key comes from a valid row |
| Keys.KeysetOrdered | src/jwks/keys.ts:57 | a key earlier in the keyset was created no later than one after it |
| Keys.GetSigningKey | src/jwks/keys.ts:65-71 | `getSigningKey`: fails with "Missing signing key" exactly when the keyset is empty; otherwise returns its last key |
| Keys.SigningKeyIsNewest | src/jwks/keys.ts:54-71 | a signing key exists exactly when some row is valid; it comes from a valid row, and no valid row was created after it |
| Keys.JwkEntry | src/jwks/keys.ts:130-133 | a published entry has `alg` and exactly the public JWK's members; a public `alg` member overrides the key's `alg` |
| Keys.KeysetToJwks | src/jwks/keys.ts:128-135 | `keysetToJwks`: one entry per key, in keyset order; entry i is `{alg, ...publicJWK}` of key i |
| Keys.JwksIgnorePrivateMaterial | src/jwks/keys.ts:128-135 | two keysets that agree, key by key, on `alg` and the public JWK publish the same set, whatever their private JWKs, ids, validity or dates |
| Keys.JwksCarryNoPrivateMembers | src/jwks/keys.ts:128-135 | if no public JWK carries a private RSA member (section 6.3.2 of RFC 7518), no published entry does |
| Keys.FreshId | src/jwks/keys.ts:94 | the rowid of an inserted row is larger than every id in the table |
| Keys.NewRow | src/jwks/keys.ts:73-98 | `generateNewKey` then the insert: the inserted row is valid, `RS256`, created at `unixepoch()`, holds the generated pair, and has an id no other row has |
| Keys.Invalidate | src/jwks/keys.ts:106-112 | `UPDATE … SET valid = FALSE WHERE id = ?`: same length; exactly the rows with that id get `valid` 0 |
| Keys.ValidRowsAppend | src/jwks/keys.ts:57 | the valid rows of a concatenation are the valid rows of each part, in order |
| Keys.InvalidateAbsent | src/jwks/keys.ts:106-112 | invalidating an id that no row has changes nothing |
| Keys.InvalidateOneValid | src/jwks/keys.ts:106-112 | with unique ids, invalidating the id of a valid row lowers the valid count by exactly one |
| Keys.OldestRow | src/jwks/keys.ts:102-103 | the oldest key of a non-empty keyset comes from a valid row of the table |
| Keys.InsertedWellFormed | src/jwks/keys.ts:92-98 | the insert keeps `valid` boolean and ids unique |
| Keys.InvalidateWellFormed | src/jwks/keys.ts:106-112 | the update keeps `valid` boolean and ids unique |
| Keys.InvalidateRetiresOne | src/jwks/keys.ts:106-112 | with unique ids, invalidating row `k`'s id gives the table with row `k`'s `valid` set to 0 and every other row unchanged |
| Keys.RotatedWellFormed | src/jwks/keys.ts:89-119 | a rotation keeps `valid` boolean and ids unique |
| Keys.RotatedValidCount | src/jwks/keys.ts:102-118 | after a rotation the valid count is one more than before, unless that exceeds two, in which case it is unchanged |
| Keys.RotationKeepsAtMostTwo | src/jwks/keys.ts:102-118 | from at most two valid keys, a rotation leaves at most two |
| Keys.RotationAddsOneRow | src/jwks/keys.ts:89-119 | a rotation (`Rotated`, the table `saveNewKey` leaves) adds exactly one valid `RS256` row holding the generated pair; nothing else changes, except that the one row holding the oldest valid key is retired exactly when more than two keys are valid after the insert |
| Keys.NewestRowSigns | src/jwks/keys.ts:65-71 | a valid row created strictly after every other valid row holds the signing key |
| Keys.AppendedStaysNewest | src/jwks/keys.ts:106-112 | retiring some other id leaves the appended newest row in place and still the newest |
| Keys.AppendedNewestSigns | src/jwks/keys.ts:92-98 | a row created after every earlier row holds the signing key once appended |
| Keys.RetiredNewestSigns | src/jwks/keys.ts:102-118 | it still holds the signing key after the oldest valid key is retired |
| Keys.NewKeySigns | src/jwks/keys.ts:89-119 | when the clock is past every `created` in the table, the key just saved is the signing key afterwards |
| Keys.RotationsSettleAtTwo | src/jwks/keys.ts:102-118 | from at most two valid keys, after n rotations exactly min(count + n, 2) keys are valid |
| Keys.TwoRotationsFromEmpty | src/jwks/keys.ts:89-119 | two or more rotations of an empty ring leave exactly two valid keys |
| Keys.OldestIsFirstOfLast | src/jwks/keys.ts:102-103 | in a table in time order whose valid rows are its last `c`, the oldest key is the first of those rows |
| Keys.RotatedKeepsNewestValid | src/jwks/keys.ts:89-119 | with the clock past every `created`, one rotation keeps the table in time order and the valid rows its newest ones, one more of them up to two |
| Keys.RotationsKeepNewestValid | src/jwks/keys.ts:89-119 | on an advancing clock, rotations keep the valid rows the newest ones, min(c + n, 2) of them |
| Keys.TwoNewestValidFromEmpty | src/jwks/keys.ts:89-119 | after two or more rotations of an empty ring on an advancing clock, exactly the two most recently created rows are valid |
| Keys.RotateAllLength | src/jwks/keys.ts:92-98 | each rotation adds exactly one row |
| Keys.ClearedRing | src/jwks/keys.ts:121-135 | after `clearKeys` the keyset is empty, the published set is `{keys: []}`, and no signing key exists |
| Keys.KeyTable.SaveNewKey | src/jwks/keys.ts:89-119 | `saveNewKey`: a failed insert fails with nothing written; a failed update of the oldest key fails with the new row kept; otherwise the table is rotated; the table invariant is kept |
| Keys.KeyTable.ClearKeys | src/jwks/keys.ts:121-126 | `clearKeys`: on success the table is empty, nothing is published and nothing can sign; on failure it fails with the table unchanged |
| Authorization.ParseQuery | src/oidc/authorization.tsx:23-43 | the request is accepted exactly when `response_type` is `code` and `client_id`, `scope` and `redirect_uri` are present; otherwise the first check that fails, in source order, names the error; an accepted request carries those values plus `state` and `nonce` |
| Authorization.ParseLogin | src/oidc/authorization.tsx:74-86 | the login is accepted exactly when `username`, `password` and `context` are present; otherwise the first missing field, in that order, names the error |
| Authorization.RedirectTarget | src/oidc/authorization.tsx:131-136 | the redirect keeps the URI's base; exactly one `code` pair, with the new code; `state` is the request's, in exactly one pair, when that is non-empty, else the URI's own `state` pairs are kept; every other pair is kept, in order |
| Authorization.GetCodeData | src/oidc/authorization.tsx:139-148 | `getCodeData`: data exactly when the code is stored and not expired, and then the stored data |
| Authorization.CodeLifetime | src/oidc/authorization.tsx:113-124 | a code stored at a given time is redeemable for exactly 60 seconds |
| Authorization.Env.AuthorizationForm | src/oidc/authorization.tsx:20-64 | a malformed request or an unknown client gives the matching bad request with no write; otherwise exactly one CSRF entry `token ↦ "ok"` is stored for 120 s, and the form carries the request and that token; codes are untouched |
| Authorization.Env.AuthorizationEndpoint | src/oidc/authorization.tsx:72-137 | a missing field, or a CSRF token that is not live, gives a bad request with no store change; otherwise the token is deleted whatever follows; an unknown user and a wrong password give the same forbidden answer with no code; otherwise the code is stored for 60 s and the answer is a redirect to `RedirectTarget` (or an exception when the URI does not parse) |
| Authorization.Env.LogIn | src/oidc/authorization.tsx:93-136 | after the CSRF check: the same forbidden answer for an unknown user or a wrong password with no code written; otherwise the code `{user id, client id, redirect URI}` is stored for 60 s before the redirect; CSRF tokens are untouched |
| Token.StripPrefix | src/oidc/token.ts:38-39 | `replace(/^p/, "")`: removes the prefix exactly when the string starts with it |
| Token.MissingSecretExactly | src/oidc/token.ts:36-43 | `clientSecret` and the `!clientSecret` check: the header yields no secret exactly when it is missing or is one of `""`, `"Bearer "`, `"Basic "`, `"Bearer Basic "` |
| Token.TokenClaims | src/oidc/token.ts:15-32 | the claims `generateToken` signs: `sub` and `preferred_username` are the username, `email` the user's, `aud` the client id, `iss` is `https://DOMAIN/`; `iat` is the current second; `exp` is the current time plus one day, rounded to the nearest second, so `exp − iat` is 86400 or 86401 |
| Token.TokenEndpoint | src/oidc/token.ts:34-100 | the checks run in order: header, then grant type, then code present, then code live, each with its own answer; an exception escapes only for a live code whose client, user or signing key is missing; success exactly when all lookups succeed, with `access_token == id_token`, type `id_token`, `expires_in` 86400 and scope `openid` |
| Token.ThrownFaults | src/oidc/token.ts:69-88 | for a live code, a missing client throws first, then a missing user, then an empty keyset |
| Token.IssuedToken | src/oidc/token.ts:87-88 | the token is the claims for the code's user and client, signed with the private JWK of the newest valid key under its `alg`; `aud` is the code's client id |
| Token.SecretNeverCompared | src/oidc/token.ts:76-79 | any two headers that carry some secret, and any two client tables with the same ids, give the same answer |
| Token.RedirectUriIgnored | src/oidc/token.ts:55-68 | the answer depends neither on form fields other than `grant_type` and `code` nor on the redirect URI stored with the code |
| Token.CodeReplayable | src/oidc/token.ts:60-64 | a code once exchanged is exchanged again, with the same data, at any later time before it expires; after that the answer is `Invalid code` |
| Flow.ReplayedLogin | src/oidc/authorization.tsx:88-92 | a complete login form submitted a second time is rejected as an expired CSRF token, whatever the outcome of the first |
| Flow.ExchangeIssuedCode | src/oidc/token.ts:60-99 | a code just stored for a known user and client yields, until it expires, a token signed by the newest key for that user and client; afterwards `Invalid code` |
| Flow.CodeFlow | src/oidc/authorization.tsx:20-137 | form, then login within 120 s with the right password, gives a redirect to the client's URI carrying the code; exchanging the code before it expires yields the token for that user and client; after expiry it is refused |

## Left out

- Analytics (`writeDataPoint`) and logging (`console.log`, `console.warn`):
  best-effort side effects that change no state the core reads.
- JSON text. JWKs are maps from member name to value. The posted context is
  parsed by a function parameter that may fail (an exception). Stored code
  data is read back as stored.
- Cryptography. Key generation is a parameter. `importJWK` is assumed to
  succeed and the imported key is represented by its JWK. Signing is an
  opaque function of header, claims and private JWK. `bcrypt.compare` is an
  opaque predicate.
- `crypto.randomUUID` is a parameter. Nothing requires it to be fresh, since
  every write states the whole new store.
- `req.formData()` and `new URL(req.url)` failing on a malformed request,
  and HTTP routing: the handlers start from the parsed query or form.
- HTML rendering: the login page is represented by the context and client it
  is rendered from.
- The D1 reply beyond its `success` flag. Failure messages leave out the
  `JSON.stringify` of the reply.
- Floating point. `Math.round(Date.now() / 1000 + 86400)` is computed exactly
  on integers. `new Date(row.created)` keeps the stored number as it is
  (milliseconds are not distinguished from the seconds `unixepoch()`
  writes).
- Separate clock reads: the two reads in `generateNewKey` and `generateToken`
  are the single `nowMs` of the call.
- Ties in `ORDER BY created`: SQLite leaves the order of rows with the same
  `created` unspecified. The model keeps table order for ties. The signing-key
  lemmas require a strictly newer `created`, so they hold whatever the tie
  order is.
- Concurrency. Each handler and each `saveNewKey` runs atomically. The
  interleavings of two rotations, or of a read and delete of one CSRF token,
  are not modelled.
- The errors a store itself can raise outside `saveNewKey`/`clearKeys`:
  every KV and SELECT call is taken to succeed.
