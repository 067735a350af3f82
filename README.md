# OAuth 2.0 credential: token state machine

A model of the `Credential` class of the Google OAuth client library for Java: the holder of
an access token, a refresh token and an expiry time that puts the access token on every
outgoing HTTP request and refreshes it, before the request when the token is missing or
about to expire (`intercept`), and after a 401 response (`handleResponse`). A refresh
either applies the token server's new triple and calls every refresh listener's
`onTokenResponse`, or, on an error response, calls every listener's `onTokenErrorResponse`
after clearing the access token and its expiry when the error carries details (without
details the tokens stay as they were). A credential that holds no refresh token does nothing.
A plain I/O failure propagates.

Layout:

- `java_long.dfy` (module `JavaLong`): Java `long` arithmetic. It has two's-complement
  wrap-around and division truncated toward zero. The expiry arithmetic needs both:
  `(expiry - now) / 1000` and `now + expiresIn * 1000`.
- `oauth_types.dfy` (module `OAuthTypes`): the values exchanged with collaborators.
  - Token responses and error details.
  - The token server's reply: granted, rejected with optional details, or transport failure.
  - Listeners, and the event log of token requests and listener calls.
- `credential_spec.dfy` (module `CredentialSpec`): each operation as a pure step on the
  token triple. A step gives the new triple, the events caused in order, and the result.
  The lemmas state what the source promises about these steps.
- `credential.dfy` (module `OAuth2`): the classes `Credential`, `Builder` and
  `HttpRequest`. Their methods update fields in place. `setFromTokenResponse`, the listener loop,
  `refreshToken`, `intercept` and `handleResponse` are proved to take the steps of
  `CredentialSpec`. The setters and `executeRefreshToken` state their new fields and events
  directly. The getters return the fields, and the `Builder` methods state their new fields
  directly.
- `scenarios.dfy` (module `Scenarios`): properties that span several calls.
  - De-duplication of concurrent 401s.
  - Invalidation after a rejection.
  - End-to-end scenarios, including client methods that drive the classes.

Modelling choices:

- Time is a parameter `now`, in milliseconds since the epoch, of type `Long`.
- The token server is an input `TokenServerReply`. It stands for what the refresh exchange
  would yield if `executeRefreshToken` performed it.
- Calls to the refresh listeners and to the token server are appended to the credential's
  `events` field.
- A request is one token slot, which `intercept` writes and `handleResponse` reads back. That
  is all that `AccessMethod.intercept` and `getAccessTokenFromRequest` do for the credential.
- The constructor's parameter comment (Credential.java line 182) and the Builder's field and
  setter comments (lines 560, 656 and 669) call a missing token server URL "not refreshing
  tokens". But `executeRefreshToken` (lines 520-527) tests only for a missing
  refresh token. So a credential with a refresh token and no URL still attempts the exchange.
  The model follows the code.
- An overflowing `expires_in` wraps around, as in the source. `setExpiresInSeconds` computes
  `now + expiresIn * 1000` in Java `long` arithmetic. A huge lifetime can become an expiry in
  the past (`FromTokenResponseOverflowExample`). It can also become an ordinary-looking one,
  such as an hour ahead (`OverflowLooksLikeAnHour`). An expiry near the bottom of the `long`
  range makes `expiry - now` underflow soon after. The remaining lifetime then jumps from
  hugely negative to hugely positive, and proactive refresh stops
  (`OverflowedExpiryUnderflowsLater`).

## Model

| member | source | states |
|---|---|---|
| `JavaLong.Wrap` | google-oauth-client/src/main/java/com/google/api/client/auth/oauth2/Credential.java:412 | a Java `long` result: the value itself when in range, otherwise the unique `long` congruent to it modulo 2^64 |
| `JavaLong.Div` | google-oauth-client/src/main/java/com/google/api/client/auth/oauth2/Credential.java:392 | Java `/`: the quotient is truncated toward zero; it has the sign of the dividend and is no larger in magnitude |
| `JavaLong.DivBounds` | google-oauth-client/src/main/java/com/google/api/client/auth/oauth2/Credential.java:392 | the truncated quotient times the divisor is the multiple of the divisor next to the dividend on the side of zero |
| `JavaLong.DivOfMultiple` | google-oauth-client/src/main/java/com/google/api/client/auth/oauth2/Credential.java:392 | dividing `k * b` by `b` gives back `k`, for either sign of `k` |
| `JavaLong.DivMonotone` | google-oauth-client/src/main/java/com/google/api/client/auth/oauth2/Credential.java:392 | truncating division by a positive divisor preserves order |
| `CredentialSpec.ExpiresInRoundTrip` | google-oauth-client/src/main/java/com/google/api/client/auth/oauth2/Credential.java:386-413 | setting a lifetime of `s` seconds at `now` and reading it back at `now` gives `s`, when `s * 1000` and `now + s * 1000` do not overflow |
| `CredentialSpec.ExpiresInNonIncreasing` | google-oauth-client/src/main/java/com/google/api/client/auth/oauth2/Credential.java:386-396 | while `expiry - now` does not overflow, the remaining lifetime is recomputed from the clock and never grows as time passes |
| `CredentialSpec.ExpiresInTruncatesTowardZero` | google-oauth-client/src/main/java/com/google/api/client/auth/oauth2/Credential.java:383-392 | within one second either side of the expiry the remaining lifetime is 0, never -1 (the truncation of Java's division) |
| `CredentialSpec.NeedsRefreshExactly` | google-oauth-client/src/main/java/com/google/api/client/auth/oauth2/Credential.java:219-221 | the proactive test holds exactly when there is no access token, or the expiry is known and fewer than 61000 ms remain, with `expiry - now` computed in Java `long` arithmetic (an expiry so far past that the subtraction underflows reads as far ahead; see `FarPastExpiryReadsAsAhead` and `OverflowedExpiryUnderflowsLater`) |
| `CredentialSpec.FarPastExpiryReadsAsAhead` | google-oauth-client/src/main/java/com/google/api/client/auth/oauth2/Credential.java:386-392 | an expiry at the smallest `long`, read 1 ms later, underflows to the largest difference: 9223372036854775 s remain and no refresh is needed |
| `CredentialSpec.Notify` | google-oauth-client/src/main/java/com/google/api/client/auth/oauth2/Credential.java:449-451 | one listener loop: exactly one callback per listener, the k-th call going to the k-th listener |
| `CredentialSpec.FromTokenResponseMerge` | google-oauth-client/src/main/java/com/google/api/client/auth/oauth2/Credential.java:488-497 | the access token is always overwritten; the refresh token is replaced only when the response carries one, and otherwise kept; the expiry is none without a lifetime, and otherwise reads back as the response's lifetime |
| `CredentialSpec.FromTokenResponseIdempotent` | google-oauth-client/src/main/java/com/google/api/client/auth/oauth2/Credential.java:488-497 | applying the same response twice at the same time equals applying it once |
| `CredentialSpec.FromTokenResponseKeepsRefreshCapability` | google-oauth-client/src/main/java/com/google/api/client/auth/oauth2/Credential.java:490-494 | applying a response never loses a stored refresh token |
| `CredentialSpec.FromTokenResponseOverflowExample` | google-oauth-client/src/main/java/com/google/api/client/auth/oauth2/Credential.java:410-413 | example: at time 0 a lifetime of 9223372036854776 s overflows `* 1000` and wraps to a negative expiry, so the new token needs a refresh at once |
| `CredentialSpec.OverflowLooksLikeAnHour` | google-oauth-client/src/main/java/com/google/api/client/auth/oauth2/Credential.java:410-413 | a lifetime of 18446744073713152 s wraps, at any time, to an expiry 3600384 ms ahead: 3600 s remain and no refresh is needed |
| `CredentialSpec.OverflowedExpiryUnderflowsLater` | google-oauth-client/src/main/java/com/google/api/client/auth/oauth2/Credential.java:386-413 | a wrapped expiry applied at 1700000000000 needs a refresh then, but 193 ms later `expiry - now` underflows, 9223372036854775 s remain and proactive refresh stops |
| `CredentialSpec.RefreshNotPossible` | google-oauth-client/src/main/java/com/google/api/client/auth/oauth2/Credential.java:446-466 | without a refresh token, refresh returns false, changes no field and has no event (no request, no listener call) |
| `CredentialSpec.RefreshGranted` | google-oauth-client/src/main/java/com/google/api/client/auth/oauth2/Credential.java:446-452 | on success the triple becomes `setFromTokenResponse` of the old one, one token request is followed by exactly one `onTokenResponse` per listener in list order, and the result is true |
| `CredentialSpec.RefreshRejected` | google-oauth-client/src/main/java/com/google/api/client/auth/oauth2/Credential.java:454-466 | on an error response with details the access token and expiry are cleared and the refresh token kept; without details nothing changes; either way each listener gets `onTokenErrorResponse` once, in order, and the result is false |
| `CredentialSpec.RefreshTransportFailure` | google-oauth-client/src/main/java/com/google/api/client/auth/oauth2/Credential.java:442-470 | a plain I/O failure propagates as IOException with no state change and no listener call |
| `CredentialSpec.RefreshKeepsRefreshToken` | google-oauth-client/src/main/java/com/google/api/client/auth/oauth2/Credential.java:446-466 | after any refresh the refresh token is the old one or the one in the granted response; a stored refresh token is never cleared |
| `CredentialSpec.RefreshResult` | google-oauth-client/src/main/java/com/google/api/client/auth/oauth2/Credential.java:440-466 | refresh returns true exactly when a refresh token is stored and the server grants; events happen exactly when a refresh token is stored, and they start with the token request |
| `CredentialSpec.InterceptWithoutRefresh` | google-oauth-client/src/main/java/com/google/api/client/auth/oauth2/Credential.java:219-228 | when no refresh is needed, the token is present and is attached; nothing else happens |
| `CredentialSpec.InterceptContactsServerIff` | google-oauth-client/src/main/java/com/google/api/client/auth/oauth2/Credential.java:219-222 | `intercept` sends a token request exactly when a refresh is needed and a refresh token is stored |
| `CredentialSpec.InterceptAttaches` | google-oauth-client/src/main/java/com/google/api/client/auth/oauth2/Credential.java:222-228 | after `intercept` returns, the request carries exactly the credential's current access token if there is one, and is untouched otherwise; when the refresh throws, the triple and the request are unchanged |
| `CredentialSpec.HandleResponseIgnoresOtherStatus` | google-oauth-client/src/main/java/com/google/api/client/auth/oauth2/Credential.java:242-257 | a status other than 401 answers false without any event or state change |
| `CredentialSpec.HandleResponseStaleToken` | google-oauth-client/src/main/java/com/google/api/client/auth/oauth2/Credential.java:247-248 | for a 401 whose request carried a token other than the current one, the answer is true with no refresh and no state change |
| `CredentialSpec.HandleResponseRefreshes` | google-oauth-client/src/main/java/com/google/api/client/auth/oauth2/Credential.java:248-255 | for a 401 on the current token, the credential takes the refresh step; the answer is true exactly when the refresh succeeded; an I/O failure gives false and leaves the state unchanged |
| `OAuth2.Credential.constructor` | google-oauth-client/src/main/java/com/google/api/client/auth/oauth2/Credential.java:189-205 | a new credential has no tokens; a null listener list becomes the empty list |
| `OAuth2.Credential.GetAccessToken` | google-oauth-client/src/main/java/com/google/api/client/auth/oauth2/Credential.java:266-273 | returns the stored access token |
| `OAuth2.Credential.GetRefreshToken` | google-oauth-client/src/main/java/com/google/api/client/auth/oauth2/Credential.java:325-332 | returns the stored refresh token |
| `OAuth2.Credential.GetExpirationTimeMilliseconds` | google-oauth-client/src/main/java/com/google/api/client/auth/oauth2/Credential.java:355-362 | returns the stored expiry |
| `OAuth2.Credential.SetAccessToken` | google-oauth-client/src/main/java/com/google/api/client/auth/oauth2/Credential.java:285-293 | changes the access token only |
| `OAuth2.Credential.SetRefreshToken` | google-oauth-client/src/main/java/com/google/api/client/auth/oauth2/Credential.java:344-352 | changes the refresh token only |
| `OAuth2.Credential.SetExpirationTimeMilliseconds` | google-oauth-client/src/main/java/com/google/api/client/auth/oauth2/Credential.java:372-380 | changes the expiry only |
| `OAuth2.Credential.GetExpiresInSeconds` | google-oauth-client/src/main/java/com/google/api/client/auth/oauth2/Credential.java:386-396 | returns none without an expiry; otherwise returns `(expiry - now) / 1000` in Java `long` arithmetic |
| `OAuth2.Credential.SetExpiresInSeconds` | google-oauth-client/src/main/java/com/google/api/client/auth/oauth2/Credential.java:410-413 | none clears the expiry; otherwise stores `now + expiresIn * 1000` in Java `long` arithmetic; changes nothing else |
| `OAuth2.Credential.SetFromTokenResponse` | google-oauth-client/src/main/java/com/google/api/client/auth/oauth2/Credential.java:488-497 | the triple becomes the merge of the old triple with the response; no listener is called |
| `OAuth2.Credential.ExecuteRefreshToken` | google-oauth-client/src/main/java/com/google/api/client/auth/oauth2/Credential.java:520-527 | without a refresh token returns null and sends nothing; otherwise sends one token request with the stored refresh token and yields the server's reply |
| `OAuth2.Credential.NotifyListeners` | google-oauth-client/src/main/java/com/google/api/client/auth/oauth2/Credential.java:449-464 | one listener loop, used for both the success loop (449-451) and the error loop (462-464): calls every listener once, in list order |
| `OAuth2.Credential.RefreshToken` | google-oauth-client/src/main/java/com/google/api/client/auth/oauth2/Credential.java:442-470 | takes exactly the refresh step: new triple, appended events and result |
| `OAuth2.Credential.Intercept` | google-oauth-client/src/main/java/com/google/api/client/auth/oauth2/Credential.java:216-232 | takes exactly the intercept step, and writes to the request only when it returns |
| `OAuth2.Credential.HandleResponse` | google-oauth-client/src/main/java/com/google/api/client/auth/oauth2/Credential.java:242-258 | takes exactly the response-handling step for the token the request carried |
| `OAuth2.Builder.constructor` | google-oauth-client/src/main/java/com/google/api/client/auth/oauth2/Credential.java:576-585 | a new builder has no token server URL and an empty listener list |
| `OAuth2.Builder.SetTokenServerEncodedUrl` | google-oauth-client/src/main/java/com/google/api/client/auth/oauth2/Credential.java:676-680 | stores the URL, or none |
| `OAuth2.Builder.SetRefreshListeners` | google-oauth-client/src/main/java/com/google/api/client/auth/oauth2/Credential.java:754-757 | replaces the listener list, which may be none |
| `OAuth2.Builder.AddRefreshListener` | google-oauth-client/src/main/java/com/google/api/client/auth/oauth2/Credential.java:736-739 | appends the listener at the end; a null listener, or a null list, throws NullPointerException and changes nothing |
| `OAuth2.Builder.Build` | google-oauth-client/src/main/java/com/google/api/client/auth/oauth2/Credential.java:588-596 | a new credential with no tokens, the builder's URL (none if unset), and the builder's listeners in order (empty if null) |
| `Scenarios.RefreshRequestsAtMostOnce` | google-oauth-client/src/main/java/com/google/api/client/auth/oauth2/Credential.java:520-527 | one refresh sends exactly one token request when a refresh token is stored, and none otherwise |
| `Scenarios.DeduplicatedRefresh` | google-oauth-client/src/main/java/com/google/api/client/auth/oauth2/Credential.java:247-249 | two 401s for requests with the same token: the first refreshes to a different token; the second answers retry at once, whatever the server would say; together they cost one token request |
| `Scenarios.RejectionInvalidates` | google-oauth-client/src/main/java/com/google/api/client/auth/oauth2/Credential.java:456-464 | after a rejection with details, no access token or expiry remains, every later request needs a refresh, and the listener calls are exactly one error callback per listener |
| `Scenarios.AccessTokenOnly` | google-oauth-client/src/main/java/com/google/api/client/auth/oauth2/Credential.java:219-228 | a credential with only an access token and no expiry attaches the token and never refreshes |
| `Scenarios.RefreshNearExpiry` | google-oauth-client/src/main/java/com/google/api/client/auth/oauth2/Credential.java:219-228 | a token 30 s from expiry is refreshed first; the request carries the new token, and the expiry is 3600 s ahead |
| `Scenarios.RejectedOnUnauthorized` | google-oauth-client/src/main/java/com/google/api/client/auth/oauth2/Credential.java:242-257 | a 401 on the current token with an `invalid_grant` rejection: one token request and one error callback, tokens cleared except the refresh token, answer false |
| `Scenarios.BuildInInsertionOrder` | google-oauth-client/src/main/java/com/google/api/client/auth/oauth2/Credential.java:736-739 | listeners are called in the order they were added; no URL is set unless one was given |
| `Scenarios.InterceptNearExpiry` | google-oauth-client/src/main/java/com/google/api/client/auth/oauth2/Credential.java:216-232 | through the classes: build, set a token expiring in 30 s, then intercept; the request carries the refreshed token, the listener is called once, and 3600 s remain |

## Left out

- The `ReentrantLock` and every question of thread interleaving. Each public method is one
  atomic step, which is the guarantee the lock gives; the de-duplication of concurrent 401s
  is stated over sequential calls.
- The refresh network exchange. This covers `RefreshTokenRequest.execute`, the HTTP
  transport, the JSON factory, client authentication and the request initializer. They are
  calls into code that is not part of this model, so an input `TokenServerReply` replaces
  them. The fields and getters for these collaborators are absent.
- `GenericUrl`, which is not part of this model. The URL is an opaque optional string.
  `Builder.setTokenServerUrl` and the URL's `build()` are taken to store and return that
  string unchanged. What `new GenericUrl(null)` does when a refresh runs without a URL is not
  modelled. The exchange is assumed to end in one of the three replies: granted, rejected, or
  an I/O failure. A non-I/O exception from the exchange (from a null URL or a null transport,
  say) is not modelled. Such an exception would propagate out of `refreshToken`, and also out
  of `handleResponse`, whose `catch` (line 253) takes only `IOException`.
- `System.currentTimeMillis` is the parameter `now`, read once per public call. The source
  reads the clock twice in a refreshing `intercept`: once to test the expiry, once to set the
  new one.
- The log record written by `handleResponse` when the refresh throws.
- The `supportsRetry` argument of `handleResponse`, which the source never reads.
- `initialize`, which only registers the credential as the request's callbacks.
- The `AccessMethod` encoding (header, query parameter, form body). The model does not
  include an access method that fails, where `AccessMethod.intercept` throws IOException,
  nor the non-null checks on the access method.
- Exceptions thrown by refresh listeners, and listeners that re-enter the credential.
- Aliasing of the listener list. Java wraps the builder's list in an unmodifiable view without
  copying it, so later changes through the builder would show through. The model copies the
  list at `build`.
- OAuth2.Builder.AddRefreshListener: the builder's list is taken to be a modifiable list that
  the builder owns. After `setRefreshListeners(list)`, Java's `add` writes through to the
  caller's own list; that aliasing is not modelled. Neither is the
  `UnsupportedOperationException` that `add` throws on an unmodifiable or fixed-size list
  (such as `Collections.emptyList()` or `Arrays.asList(...)`): the model appends.
- Subclasses that override `intercept`, `handleResponse` or `executeRefreshToken`.
- The Builder's trivial getters and setters (transport, JSON factory, client authentication,
  request initializer), and the token response's fields that the credential does not read
  (token type, scope).
