# OAuth2 + PKCE gateway worker, modelled in Dafny

The worker in `src/worker.ts` is a small Cloudflare-style gateway. It signs a user in
with Microsoft's identity platform using the OAuth2 authorization-code grant with PKCE.
It keeps the refresh token, encrypted, in a cookie held by the browser, and on
`/api/me` it exchanges that token for an access token and fetches the user's Graph profile.

The model has one Dafny module per concern:

- `Text` (`text.dfy`): the JavaScript string operations the worker uses. These are
  `split` on one character, `trim`, a global one-character `replace`, and removing a
  trailing run of `=`. `IndexOf` and `Join` are not used by the worker; they are helpers
  for the proofs about `split`.
- `Base64` (`base64.dfy`):
  - `btoa`, the padded base64 of RFC 4648 section 4;
  - the unpadded base64url of section 5;
  - `atob`, read as the WHATWG forgiving-base64 decode. It drops ASCII white space,
    accepts missing padding, and throws (`None`) on a length of 4k+1 or a foreign
    character.
- `Pkce` (`pkce.dfy`): `generateRandomString`, as a method with a loop over an oracle of
  draws in [0, 62), and `createSha256Hash`, with SHA-256 a parameter.
- `Cookies` (`cookies.dfy`): `parseCookies` as written, the `Set-Cookie` directive
  the handlers write, and the `Cookie` header a browser sends back.
- `Envelope` (`envelope.dfy`): `encrypt`/`decrypt` and their envelope
  `base64(iv) "." base64(ciphertext)`, with AES-GCM as a pair of function parameters.
  The `Lawful` hypothesis states that opening what was sealed gives the plaintext back.
- `Gateway` (`gateway.dfy`): the four `GET` routes and the catch-all. Each is a total
  function from a request and a `World` to an `Outcome`. The `World` holds the random
  draws, the IV, SHA-256, AES-GCM, and the replies of the token endpoint and of Graph.
  The `Outcome` holds either the response or `Throw` (an exception escapes the handler),
  and the outbound calls the handler made, in order.
- `Flow` (`flow.dfy`): the browser side, after RFC 6265. It covers how a user agent
  stores the `Set-Cookie` lines (sections 5.2, 5.2.2 and 5.3) and the `Cookie` header
  it sends (section 5.4). On top of that it covers the sign-in end to end: login, the
  provider's callback, then `/api/me`.

Two facts come out of the end-to-end proofs:

- `parseCookies` cuts the stored envelope at its first `=`, the base64 padding of the
  ciphertext.
- `decrypt` still recovers the refresh token from what is left, because forgiving
  base64 decode accepts missing padding.

So the user agent that finished the callback calls the refresh grant with exactly the
token the exchange returned (`Flow.SignIn`).

The model keeps these behaviours of the code:

- `parseCookies` splits each entry on every `=`, not only the first. The value is the
  text between the first and the second `=`.
- An entry without `=` is not skipped: its trimmed text maps to `undefined`.
- `decrypt` splits on every `.` and reads parts 0 and 1, ignoring the rest. A missing
  part, a failed base64 decode and a failed tag check are one and the same failure:
  `/api/me` turns every one of them into the same 500.
- The callback's `response.json()` and `encrypt` lie outside any `try`. A successful
  exchange whose body is not JSON therefore escapes as an exception (`Throw`) rather
  than a handled error.

## Model

| member | source | states |
|---|---|---|
| Pkce.GenerateRandomString | src/worker.ts:6-14 | the loop's result is the string the first `length` draws spell |
| Pkce.RandomStringDraws | src/worker.ts:9-13 | the result has exactly `length` characters and the i-th is the alphabet character at the i-th draw |
| Pkce.RandomStringShape | src/worker.ts:6-14 | a random string has the requested length and only characters from A–Z a–z 0–9 |
| Pkce.CharactersAreAlnum | src/worker.ts:7-8 | the alphabet has 62 characters, all alphanumeric |
| Pkce.Utf8Ascii | src/worker.ts:18 | `TextEncoder` writes an ASCII string as one byte per character, each its code |
| Pkce.RewriteEncode | src/worker.ts:21-23 | rewriting `+` to `-` and `/` to `_` in `btoa`'s output gives the base64url text of the same bytes, padding included |
| Pkce.ChallengeIsBase64Url | src/worker.ts:17-25 | the challenge pipeline equals the unpadded base64url encoding of the digest (RFC 7636 section 4.2) |
| Pkce.ChallengeShape | src/worker.ts:17-25 | for a 32-byte digest the challenge is 43 base64url characters, with no `+`, `/` or `=` |
| Pkce.LoginVerifier | src/worker.ts:88-89 | the 128-character verifier is an RFC 7636 section 4.1 `code_verifier`, and its challenge is BASE64URL(SHA256(ASCII(verifier))) |
| Pkce.AlnumVerifier | src/worker.ts:88-89 | any 128 alphanumerics form a valid verifier whose challenge is the base64url of the hash of its own character codes |
| Base64.DecodeEncode | src/worker.ts:67-76 | `atob(btoa(b)) == b` for every byte string |
| Base64.DecodeUnpadded | src/worker.ts:67-76 | `atob` also gives `b` back from the encoding with its padding removed |
| Base64.EncodeChars | src/worker.ts:51 | `btoa`'s output is base64 characters and `=`, of length 4·⌈n/3⌉ |
| Base64.StripPaddingOfEncode | src/worker.ts:67-76 | `btoa`'s output has no white space, and its padding is exactly what decode strips |
| Base64.UnsextetsSextets | src/worker.ts:67-76 | decoding the 6-bit groups of `b` gives `b` back |
| Text.SplitPieces | src/worker.ts:32 | `split` gives one more piece than there are separators, and no piece holds a separator |
| Text.TrimFixed | src/worker.ts:32 | `trim` leaves no white space at either end and leaves a trimmed string as it is |
| Cookies.ParseCookiesEmpty | src/worker.ts:29-33 | the object is empty exactly when the `Cookie` header is missing or empty |
| Cookies.FromEntriesLastWins | src/worker.ts:31-33 | a name is in the object iff some entry carries it, and it holds the value of the last such entry |
| Cookies.EntryWithoutValue | src/worker.ts:32 | an entry without `=` maps its trimmed text to `undefined` |
| Cookies.EntryWithValue | src/worker.ts:32 | an entry `name=value` (and `name=value=rest`) gives the name and only the text up to the second `=` |
| Cookies.EntrySpace | src/worker.ts:32 | white space after a `;` does not change the entry |
| Cookies.EntriesCons | src/worker.ts:32 | the entries of `first; rest` are `first`'s entry followed by those of `rest` |
| Cookies.EntriesOfCookieHeader | src/worker.ts:31-33 | a header of plain `name=value` pairs gives exactly those pairs as entries, each with its value |
| Cookies.ParseCookieHeader | src/worker.ts:28-34 | round trip: for plain names and values each name reads the value of its last pair, and any other name reads `undefined` |
| Cookies.LastValueIsLast | src/worker.ts:31-33 | the value read is that of the last pair with the name, and there is none iff no pair has it |
| Envelope.NoDot | src/worker.ts:51 | base64 text never holds `.` |
| Envelope.EncryptShape | src/worker.ts:45-51 | the envelope splits on `.` into exactly `b64(iv)` (16 characters for the 12-byte IV) and a non-empty `b64(ct)` |
| Envelope.DecryptEncrypt | src/worker.ts:37-84 | under the AEAD law, decrypting an envelope gives back the token encrypted |
| Envelope.DecryptNeedsTwoParts | src/worker.ts:63-66 | a successful decrypt needs two non-empty `.`-parts; no `.` or a leading `.` fails |
| Envelope.DecryptTrailingDot | src/worker.ts:63-66 | a trailing `.` (empty second part) fails |
| Envelope.DecryptIgnoresRest | src/worker.ts:63 | parts after the second `.` do not change the result |
| Envelope.TwoParts | src/worker.ts:63 | `x.y` of dot-free parts splits into exactly `[x, y]` |
| Envelope.FirstTwoParts | src/worker.ts:63 | `x.y.rest` of dot-free `x`, `y` has `x` and `y` as its first two parts |
| Envelope.EnvelopeUpToPadding | src/worker.ts:51 | cutting an envelope at its first `=` leaves `b64(iv) "." ` followed by the ciphertext's base64 with its padding removed |
| Envelope.DecryptUpToPadding | src/worker.ts:67-83 | under the AEAD law, decrypting the envelope cut at its first `=` still gives the token back |
| Gateway.LoginRedirect | src/worker.ts:86-118 | login makes no call and answers 302 to the authorize endpoint with the state it stores and the S256 challenge of the verifier it stores, both as 300-second cookies |
| Gateway.LoginValues | src/worker.ts:87-89 | the state is 16 alphanumerics, the verifier a valid 128-character verifier, the challenge 43 base64url characters |
| Gateway.CallbackInvalidState | src/worker.ts:129-131 | a missing, empty or mismatched `state` (a missing cookie included) gives 400 "Invalid state." with no call, and that answer arises in no other case |
| Gateway.CallbackMissingCode | src/worker.ts:133-135 | once the state matches, a missing or empty `code` or `code_verifier` gives 400 with no call, and only then |
| Gateway.CallbackExchange | src/worker.ts:137-191 | after both checks there is exactly one call, the code grant with the query's code and the cookie's verifier. A failed exchange forwards its status and text; a body that is not JSON throws; otherwise the answer is 302 to the app origin with the envelope cookie (2592000 s) and then the two clearing cookies |
| Gateway.CallbackCallsOnlyAfterChecks | src/worker.ts:129-156 | the token endpoint is called only after both checks passed, and then with exactly those values |
| Gateway.CallbackStoresToken | src/worker.ts:158-191 | cookies are set iff the exchange succeeded, and the refresh-token cookie then holds an envelope that decrypts to the token received |
| Gateway.CallbackThrows | src/worker.ts:158-169 | among the modelled failures, the callback throws iff both checks pass and an ok exchange answers something other than JSON |
| Gateway.MeStatus | src/worker.ts:194-256 | `/api/me` always answers: 401 with no cookie, 200 when every step succeeds, 500 otherwise |
| Gateway.MeUnauthorized | src/worker.ts:198-200 | a missing or empty `refresh_token` cookie, and only that, gives 401 with no upstream call |
| Gateway.MeAnswers | src/worker.ts:202-255 | with a cookie, success is 200 `application/json` with no cookie and as body the profile Graph returned for the refresh reply's access token, after exactly the refresh grant for the decrypted token and the profile request with that access token; any failure is 500 with exactly one cookie, the one clearing `refresh_token` |
| Gateway.MeCalls | src/worker.ts:202-243 | `/api/me` always answers, 200, 401 or 500, and sets a cookie only with the 500. It makes at most two calls: first the refresh grant for the token its key decrypted from the cookie, then the profile request with the refresh reply's access token |
| Gateway.MeDecrypted | src/worker.ts:202-206 | a cookie that decrypts to a token makes `/api/me` carry on with that very token |
| Gateway.ProfileAnswers | src/worker.ts:208-255 | after decryption the first call is the refresh grant for the token; when the later steps succeed the outcome is exactly 200 with the profile Graph returned for the refresh reply's access token, after the refresh grant and the profile request with that token; otherwise the 500. A second call always carries the refresh reply's access token |
| Gateway.LogoutClears | src/worker.ts:258-265 | logout makes no call and answers 200 "Logged out." with the one cookie clearing `refresh_token` |
| Gateway.HandleNotFound | src/worker.ts:267 | a request gets the 404 "Not Found." iff it is not a `GET` of one of the four routes |
| Gateway.CallbackNotNotFound | src/worker.ts:158-163 | no callback answer equals the catch-all's, not even a forwarded 404 |
| Gateway.HandleThrows | src/worker.ts:165-169 | among the modelled failures, the only request that throws is a callback whose checks pass and whose ok exchange answers something other than JSON |
| Pkce.RandomString | src/worker.ts:6-14 | the string spelled by the first `length` draws; `Pkce.GenerateRandomString` is proved to compute it |
| Pkce.Challenge | src/worker.ts:21-24 | `btoa` of the digest with `+` and `/` rewritten and the trailing `=` run removed |
| Pkce.CreateSha256Hash | src/worker.ts:17-25 | the challenge of the SHA-256 digest of the verifier's UTF-8 bytes |
| Base64.Encode | src/worker.ts:51 | `btoa`: the padded base64 text of the bytes |
| Base64.Decode | src/worker.ts:67-76 | `atob`: none for a length of 4k+1 or a foreign character once white space and padding are stripped, else the bytes |
| Text.Split | src/worker.ts:32 | `split` on one character; there is always at least one piece |
| Text.Trim | src/worker.ts:32 | `trim`: white space removed at both ends |
| Text.Replace | src/worker.ts:22-23 | a global one-character `replace`: same length, each occurrence rewritten and every other character kept |
| Text.StripTrailing | src/worker.ts:24 | `replace(/=+$/, '')`: a prefix of the input, the removed tail all `=`, and no `=` left at the end |
| Cookies.Entry | src/worker.ts:32 | one entry: the trimmed text split on `=`, the name its first piece and the value its second, if any |
| Cookies.FromEntries | src/worker.ts:31-33 | `Object.fromEntries`: later entries overwrite earlier ones of the same name |
| Cookies.ParseCookies | src/worker.ts:28-34 | `parseCookies`: empty for a missing or empty header, else the object of the `;`-separated entries |
| Cookies.SetCookie | src/worker.ts:108-115 | the `Set-Cookie` directive: `name=value`, then HttpOnly, Secure, SameSite=Lax, Path=/ and Max-Age |
| Envelope.Encrypt | src/worker.ts:37-52 | `encrypt`: `b64(iv) "." b64(seal(token))` |
| Envelope.Decrypt | src/worker.ts:55-84 | `decrypt`: none where the source throws (a missing or empty part, a rejected `atob`, a rejected tag), else the opened plaintext |
| Gateway.Login | src/worker.ts:86-118 | the `/auth/login` handler; it makes no call and answers 302 |
| Gateway.Callback | src/worker.ts:120-192 | the `/auth/callback` handler; it makes at most one call, and only when the query's `state` is present and equals the cookie's |
| Gateway.Me | src/worker.ts:194-256 | the `/api/me` handler; it never throws and makes at most two calls |
| Gateway.Profile | src/worker.ts:208-255 | the `try` of `/api/me` after decryption; it never throws and answers 200 or 500 |
| Gateway.Logout | src/worker.ts:258-265 | the `/auth/logout` handler; it makes no call and answers 200 |
| Gateway.NotFound | src/worker.ts:267 | the catch-all; it makes no call and answers 404 |
| Gateway.Handle | src/worker.ts:86-267 | the router; a request that is not a `GET` of one of the four routes gets the catch-all |
| Flow.SetCookieParts | src/worker.ts:108-115 | a `Set-Cookie` line splits on `;` into `name=value` and the five attributes, Max-Age last |
| Flow.ReadSetCookie | src/worker.ts:108-115 | round trip: the user agent reads from a `Set-Cookie` line exactly the name, value and Max-Age written |
| Flow.MaxAgeAttribute | src/worker.ts:110 | the last attribute of a line sets its Max-Age |
| Flow.StoreKept | src/worker.ts:108-115 | a line with a positive Max-Age stores the cookie in place of any cookie of the same name |
| Flow.StoreExpired | src/worker.ts:182-189 | a line with `Max-Age=0` deletes the cookie of that name |
| Flow.StoreNew | src/worker.ts:176-179 | a positive Max-Age for a name the jar lacks appends the cookie |
| Flow.StoreGone | src/worker.ts:182-189 | an expiring line for the jar's first cookie drops exactly it |
| Flow.StoreLoginCookies | src/worker.ts:108-115 | a user agent with no cookie keeps exactly the state and the verifier login sets |
| Flow.StoreCallbackCookies | src/worker.ts:176-189 | after a successful callback the user agent holds only the envelope |
| Flow.ParseSingleCookie | src/worker.ts:31-33 | a header of one cookie reads that cookie's value only up to its first `=` |
| Flow.EnvelopeCookieValue | src/worker.ts:176-179 | an envelope holds no `;` and no white space at its ends, so it is stored as written |
| Flow.LoginJar | src/worker.ts:86-118 | after login the user agent holds exactly the drawn state and verifier |
| Flow.ReadLoginCookies | src/worker.ts:125-127 | the callback reads back from those cookies the state and verifier login drew |
| Flow.CallbackAccepts | src/worker.ts:129-156 | a callback echoing the stored state exchanges its code with the stored verifier |
| Flow.CallbackRejects | src/worker.ts:129-131 | a callback with any other state gets 400 and makes no call |
| Flow.CallbackStores | src/worker.ts:165-191 | after a successful exchange the user agent holds only the envelope of the refresh token received |
| Flow.MeReadsEnvelope | src/worker.ts:194-206 | a user agent holding the envelope gets, from `/api/me`, the answer for the very token that was encrypted |
| Flow.LoginThenCallback | src/worker.ts:86-156 | the callback after login exchanges the code with the verifier whose challenge login sent iff the state echoed is the one drawn; otherwise 400 |
| Flow.SignIn | src/worker.ts:86-256 | the whole sign-in: after a successful exchange the jar holds only the envelope, `/api/me` answers as the profile step for the token received does, its first call is the refresh grant for that token, and it answers 200 iff the refresh and the profile request succeed |

## Left out

- `Math.random` and its floating-point arithmetic: each character's index is a draw in [0, 62) supplied by an oracle. Nothing is said about the quality of the randomness.
- SHA-256, AES-GCM, `importKey` and `crypto.getRandomValues` are parameters. There is no cryptographic strength, no tag checking and no tamper detection. Only the round-trip law `Lawful` is assumed, and only by the lemmas that name it. An `importKey` that rejects the key (thrown in `encrypt`/`decrypt`) is not modelled.
- `TextEncoder`/`TextDecoder` around AES-GCM are folded into the AEAD parameter, which seals and opens strings. `TextEncoder` before SHA-256 is modelled as UTF-8 (`Pkce.Utf8`).
- The Microsoft token endpoint and Graph are functions from the form sent (or the bearer token) to a reply. `fetch` redirects, timeouts and network errors are not modelled.
- `response.json()` is read only for the fields the worker uses. A JSON answer that lacks `refresh_token` or `access_token` (read as `undefined`) is not modelled.
- `URLSearchParams` percent-encoding and `new URL` parsing: the query is a map from name to first value, and the authorize URL and the token forms are ordered parameter lists.
- itty-router's matching: routes match only the exact path for `GET`. Its internals and any other path syntax, such as trailing slashes, are not modelled.
- `console.log` and the `export default` wrapper (src/worker.ts:269-281) do nothing the model needs. `src/App.tsx` is not part of this model.
- Gateway.CallbackExchange: forwards every upstream status. `new Response` throws for a status that may not carry a body (such as 304), and that throw is not modelled.
- Flow.MaxAgeOf: compares attribute names case-sensitively and trims white space. RFC 6265 compares case-insensitively and trims only WSP. The gateway's own lines are not affected.
- Gateway.CallbackThrows: covers only the throws of the modelled failures. The callback also throws when `new Response` gets a forwarded null-body status such as 304 (src/worker.ts:160), when `fetch` rejects (src/worker.ts:147), and when `importKey` rejects the key in `encrypt` (src/worker.ts:38, 166). None of these is modelled.
- Gateway.HandleThrows: covers only the throws of the modelled failures, for the same reason as `Gateway.CallbackThrows`. A rejected `fetch` in `/api/me` is caught there and is not modelled either.
- Flow.SignIn: assumes the genuine callback: the provider echoes the drawn state. Other callbacks are covered by `Flow.LoginThenCallback`.
