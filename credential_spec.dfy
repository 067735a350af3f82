/** The credential's token state machine as pure functions: each public operation of the
    credential is one step from an old token triple to a new one, with the events it causes
    (token requests and listener calls) and its result. The imperative credential in module
    OAuth2 is proved to take exactly these steps. */
module CredentialSpec {

  import opened JavaLong
  import opened OAuthTypes

  /** HTTP status code 401 (Unauthorized). */
  const UNAUTHORIZED: int := 401
  /** A token with at most this many whole seconds left is refreshed before use. */
  const REFRESH_MARGIN_SECONDS: int := 60
  const MILLIS_PER_SECOND: Long := 1000

  /** The three mutable fields of a credential. */
  datatype Tokens = Tokens(
    accessToken: Option<string>,
    refreshToken: Option<string>,
    expirationTimeMilliseconds: Option<Long>)

  /** One step of the credential: the new token triple, the events it caused in order, and
      what the operation returned. */
  datatype Transition<+R> = Transition(tokens: Tokens, events: seq<Event>, result: R)

  /** Remaining lifetime in whole seconds at time `now` (milliseconds since the epoch), computed
      in Java `long` arithmetic, or none when the expiration is unknown. */
  function ExpiresInSeconds(expiration: Option<Long>, now: Long): Option<Long> {
    match expiration
    case None => None
    case Some(e) => Some(Div(Sub(e, now), MILLIS_PER_SECOND))
  }

  /** The expiration time that a lifetime of `expiresIn` seconds, set at time `now`, stands for. */
  function ExpirationFor(expiresIn: Option<Long>, now: Long): Option<Long> {
    match expiresIn
    case None => None
    case Some(s) => Some(Add(now, Mul(s, MILLIS_PER_SECOND)))
  }

  /** The proactive refresh test of `intercept`: no access token, or a known expiry at most a
      minute away. */
  predicate NeedsRefresh(t: Tokens, now: Long) {
    var expiresIn := ExpiresInSeconds(t.expirationTimeMilliseconds, now);
    t.accessToken.None? || (expiresIn.Some? && expiresIn.value <= REFRESH_MARGIN_SECONDS)
  }

  /** `setFromTokenResponse`: overwrite the access token and the expiry, and keep the old
      refresh token unless the response carries a new one. */
  function FromTokenResponse(t: Tokens, response: TokenResponse, now: Long): Tokens {
    Tokens(
      response.accessToken,
      if response.refreshToken.Some? then response.refreshToken else t.refreshToken,
      ExpirationFor(response.expiresInSeconds, now))
  }

  /** The triple after an error response with details: the access token and its expiry are
      cleared, the refresh token is kept. */
  function Invalidated(t: Tokens): Tokens {
    t.(accessToken := None, expirationTimeMilliseconds := None)
  }

  /** The listener calls of one notification loop: each listener's callback, in list order. */
  function Notify(listeners: seq<Listener>, notice: Notice): (r: seq<Event>)
    ensures |r| == |listeners|
    ensures forall k :: 0 <= k < |listeners| ==> r[k] == ListenerCalled(listeners[k], notice)
  {
    if listeners == [] then []
    else
      var last := |listeners| - 1;
      Notify(listeners[..last], notice) + [ListenerCalled(listeners[last], notice)]
  }

  /** `refreshToken`, with `reply` standing for what the token server's exchange yields if
      `executeRefreshToken` performs it. */
  function Refresh(t: Tokens, listeners: seq<Listener>, reply: TokenServerReply, now: Long)
    : Transition<Outcome<bool>>
  {
    match t.refreshToken
    case None => Transition(t, [], Returned(false))
    case Some(rt) =>
      var sent := [TokenRequestSent(rt)];
      match reply
      case Granted(response) =>
        Transition(FromTokenResponse(t, response, now),
                   sent + Notify(listeners, OnTokenResponse(response)), Returned(true))
      case Rejected(details) =>
        Transition(if details.Some? then Invalidated(t) else t,
                   sent + Notify(listeners, OnTokenErrorResponse(details)), Returned(false))
      case TransportFailure =>
        Transition(t, sent, Threw(IOException))
  }

  /** `intercept`: refresh first if needed, then attach the access token to the request.
      `slot` is the token the request carries before the call; a returned value is the token
      it carries afterwards. */
  function InterceptStep(t: Tokens, listeners: seq<Listener>, slot: Option<string>,
                         reply: TokenServerReply, now: Long): Transition<Outcome<Option<string>>>
  {
    if NeedsRefresh(t, now) then
      var st := Refresh(t, listeners, reply, now);
      if st.result.Threw? then Transition(st.tokens, st.events, Threw(st.result.exception))
      else if st.tokens.accessToken.None? then Transition(st.tokens, st.events, Returned(slot))
      else Transition(st.tokens, st.events, Returned(st.tokens.accessToken))
    else
      Transition(t, [], Returned(t.accessToken))
  }

  /** `handleResponse` for a response with status `status` to a request that carried the
      token `sent`; the result says whether the request should be retried. */
  function HandleResponseStep(t: Tokens, listeners: seq<Listener>, status: int,
                              sent: Option<string>, reply: TokenServerReply, now: Long)
    : Transition<bool>
  {
    if status != UNAUTHORIZED then Transition(t, [], false)
    else if t.accessToken != sent then Transition(t, [], true)
    else
      var st := Refresh(t, listeners, reply, now);
      Transition(st.tokens, st.events, st.result == Returned(true))
  }

  // ---------------------------------------------------------------------------------------
  // Expiry arithmetic

  /** Neither `s * 1000` nor `now + s * 1000` overflows a Java long. */
  predicate NoOverflow(s: Long, now: Long) {
    InLongRange(s as int * 1000) && InLongRange(now as int + s as int * 1000)
  }

  /** Setting a lifetime and reading it back at the same instant gives the same lifetime, as
      long as the millisecond arithmetic does not overflow. */
  lemma ExpiresInRoundTrip(s: Long, now: Long)
    requires NoOverflow(s, now)
    ensures ExpiresInSeconds(ExpirationFor(Some(s), now), now) == Some(s)
  {
    var e := Add(now, Mul(s, MILLIS_PER_SECOND));
    assert e == now as int + s as int * 1000;
    assert Sub(e, now) == s as int * 1000;
    DivOfMultiple(s, 1000);
  }

  /** The remaining lifetime is recomputed from the clock: while `expiry - now` does not
      overflow, it never grows as time passes (OverflowedExpiryUnderflowsLater shows why the
      condition is needed). */
  lemma ExpiresInNonIncreasing(e: Long, now1: Long, now2: Long)
    requires now1 <= now2 && InLongRange(e as int - now1 as int) && InLongRange(e as int - now2 as int)
    ensures ExpiresInSeconds(Some(e), now2).value <= ExpiresInSeconds(Some(e), now1).value
  {
    DivMonotone(Sub(e, now2), Sub(e, now1), MILLIS_PER_SECOND);
  }

  /** Java's division truncates toward zero: within a second on either side of the expiry the
      remaining lifetime reads as 0, so a token up to 999 ms past its expiry is not negative. */
  lemma ExpiresInTruncatesTowardZero(e: Long, now: Long)
    requires -1000 < e as int - now as int < 1000
    ensures ExpiresInSeconds(Some(e), now) == Some(0)
  {
    assert Sub(e, now) == e as int - now as int;
  }

  /** The proactive test in milliseconds: with truncating division, "at most 60 seconds left"
      means fewer than 61000 ms left, `expiry - now` computed in Java `long` arithmetic (an
      expiry so far past that the subtraction underflows reads as far ahead; see
      FarPastExpiryReadsAsAhead and OverflowedExpiryUnderflowsLater). */
  lemma NeedsRefreshExactly(t: Tokens, now: Long)
    ensures NeedsRefresh(t, now) <==>
      t.accessToken.None? ||
      (t.expirationTimeMilliseconds.Some? && Sub(t.expirationTimeMilliseconds.value, now) < 61000)
  {
    if t.expirationTimeMilliseconds.Some? {
      DivBounds(Sub(t.expirationTimeMilliseconds.value, now), MILLIS_PER_SECOND);
    }
  }

  /** The smallest expiry a `long` can hold, read one millisecond later, underflows to the
      largest difference: the token looks valid for about 292 million years and is not
      refreshed. */
  lemma FarPastExpiryReadsAsAhead(token: string, rt: Option<string>)
    ensures Sub(MIN_LONG, 1) == MAX_LONG
    ensures ExpiresInSeconds(Some(MIN_LONG), 1) == Some(9223372036854775)
    ensures !NeedsRefresh(Tokens(Some(token), rt, Some(MIN_LONG)), 1)
  {
    assert Div(MAX_LONG, 1000) == 9223372036854775;
  }

  // ---------------------------------------------------------------------------------------
  // setFromTokenResponse

  /** The merge rule: the access token is always overwritten, the refresh token only when the
      response carries one, and the expiry is the response's lifetime counted from now. */
  lemma FromTokenResponseMerge(t: Tokens, response: TokenResponse, now: Long)
    ensures FromTokenResponse(t, response, now).accessToken == response.accessToken
    ensures response.refreshToken.Some? ==>
      FromTokenResponse(t, response, now).refreshToken == response.refreshToken
    ensures response.refreshToken.None? ==>
      FromTokenResponse(t, response, now).refreshToken == t.refreshToken
    ensures response.expiresInSeconds.None? ==>
      FromTokenResponse(t, response, now).expirationTimeMilliseconds.None?
    ensures response.expiresInSeconds.Some? && NoOverflow(response.expiresInSeconds.value, now) ==>
      ExpiresInSeconds(FromTokenResponse(t, response, now).expirationTimeMilliseconds, now)
        == response.expiresInSeconds
  {
    if response.expiresInSeconds.Some? {
      var s := response.expiresInSeconds.value;
      if NoOverflow(s, now) {
        ExpiresInRoundTrip(s, now);
      }
    }
  }

  /** Applying the same response twice at the same time is the same as applying it once. */
  lemma FromTokenResponseIdempotent(t: Tokens, response: TokenResponse, now: Long)
    ensures FromTokenResponse(FromTokenResponse(t, response, now), response, now)
         == FromTokenResponse(t, response, now)
  {
  }

  /** The refresh token is sticky: applying a response never loses a stored refresh token. */
  lemma FromTokenResponseKeepsRefreshCapability(t: Tokens, response: TokenResponse, now: Long)
    requires t.refreshToken.Some?
    ensures FromTokenResponse(t, response, now).refreshToken.Some?
  {
  }

  /** Example of the source's wrap-around: at time 0, a lifetime of 9223372036854776 s makes
      `expiresIn * 1000` overflow to a negative expiry, so the freshly applied token needs a
      refresh at once. */
  lemma FromTokenResponseOverflowExample(t: Tokens)
    ensures var r := FromTokenResponse(t, TokenResponse(Some("T"), None, Some(9223372036854776)), 0);
      r.expirationTimeMilliseconds == Some(-9223372036854775616) && NeedsRefresh(r, 0)
  {
  }

  /** The wrap-around can also yield an ordinary expiry: a lifetime of 18446744073713152 s
      (about 5.8e8 years) is stored, at any time `now`, as one hour and 384 ms ahead. */
  lemma OverflowLooksLikeAnHour(t: Tokens, now: Long)
    requires InLongRange(now as int + 3600384)
    ensures var r := FromTokenResponse(t, TokenResponse(Some("T"), None, Some(18446744073713152)), now);
      && r.expirationTimeMilliseconds == Some(now as int + 3600384)
      && ExpiresInSeconds(r.expirationTimeMilliseconds, now) == Some(3600)
      && !NeedsRefresh(r, now)
  {
    assert Mul(18446744073713152, MILLIS_PER_SECOND) == 3600384;
    assert Sub(now as int + 3600384, now) == 3600384;
  }

  /** Once the expiry has wrapped to a value far in the past, `expiry - now` itself underflows
      a little later: a response with a lifetime of 9223372036854776 s applied at time
      1700000000000 needs a refresh at that instant, but 193 ms later the remaining lifetime
      reads 9223372036854775 s and proactive refresh stops. Without the no-overflow condition
      of ExpiresInNonIncreasing, the remaining lifetime can grow. */
  lemma OverflowedExpiryUnderflowsLater(t: Tokens)
    ensures var applied := 1700000000000;
      var later := 1700000000193;
      var r := FromTokenResponse(t, TokenResponse(Some("T"), None, Some(9223372036854776)), applied);
      && ExpiresInSeconds(r.expirationTimeMilliseconds, applied) == Some(-9223372036854775)
      && NeedsRefresh(r, applied)
      && ExpiresInSeconds(r.expirationTimeMilliseconds, later) == Some(9223372036854775)
      && !NeedsRefresh(r, later)
  {
    var product := Mul(9223372036854776, MILLIS_PER_SECOND);
    assert product == -9223372036854775616;
    var expiry := Add(1700000000000, product);
    assert expiry == -9223370336854775616;
    assert Sub(expiry, 1700000000000) == -9223372036854775616;
    assert Div(-9223372036854775616, 1000) == -9223372036854775;
    assert Sub(expiry, 1700000000193) == 9223372036854775807;
    assert Div(9223372036854775807, 1000) == 9223372036854775;
  }

  // ---------------------------------------------------------------------------------------
  // refreshToken

  /** Without a refresh token nothing happens: no request, no listener call, no change. */
  lemma RefreshNotPossible(t: Tokens, listeners: seq<Listener>, reply: TokenServerReply, now: Long)
    requires t.refreshToken.None?
    ensures Refresh(t, listeners, reply, now) == Transition(t, [], Returned(false))
  {
  }

  /** A successful exchange applies the response and then calls every listener's
      `onTokenResponse` exactly once, in list order, and returns true. */
  lemma RefreshGranted(t: Tokens, listeners: seq<Listener>, response: TokenResponse, now: Long)
    requires t.refreshToken.Some?
    ensures var st := Refresh(t, listeners, Granted(response), now);
      && st.tokens == FromTokenResponse(t, response, now)
      && st.result == Returned(true)
      && |st.events| == 1 + |listeners|
      && st.events[0] == TokenRequestSent(t.refreshToken.value)
      && forall k :: 0 <= k < |listeners| ==>
           st.events[1..][k] == ListenerCalled(listeners[k], OnTokenResponse(response))
  {
  }

  /** An error response invalidates the access token when it has details (and changes nothing
      without them); either way every listener's `onTokenErrorResponse` is called exactly once,
      in list order, and the result is false. */
  lemma RefreshRejected(t: Tokens, listeners: seq<Listener>, details: Option<TokenErrorResponse>,
                        now: Long)
    requires t.refreshToken.Some?
    ensures var st := Refresh(t, listeners, Rejected(details), now);
      && (details.Some? ==> st.tokens == Tokens(None, t.refreshToken, None))
      && (details.None? ==> st.tokens == t)
      && st.result == Returned(false)
      && |st.events| == 1 + |listeners|
      && st.events[0] == TokenRequestSent(t.refreshToken.value)
      && forall k :: 0 <= k < |listeners| ==>
           st.events[1..][k] == ListenerCalled(listeners[k], OnTokenErrorResponse(details))
  {
  }

  /** A plain I/O failure propagates and changes nothing; no listener is called. */
  lemma RefreshTransportFailure(t: Tokens, listeners: seq<Listener>, now: Long)
    requires t.refreshToken.Some?
    ensures Refresh(t, listeners, TransportFailure, now)
         == Transition(t, [TokenRequestSent(t.refreshToken.value)], Threw(IOException))
  {
  }

  /** Whatever the server answers, a refresh leaves either the old refresh token or the one
      that the granted response carries; it never clears it. */
  lemma RefreshKeepsRefreshToken(t: Tokens, listeners: seq<Listener>, reply: TokenServerReply,
                                 now: Long)
    ensures var rt := Refresh(t, listeners, reply, now).tokens.refreshToken;
      rt == t.refreshToken || (reply.Granted? && rt == reply.response.refreshToken && rt.Some?)
    ensures t.refreshToken.Some? ==> Refresh(t, listeners, reply, now).tokens.refreshToken.Some?
  {
  }

  /** Listeners are called only after a token request, and the result is true exactly when the
      server granted a new token. */
  lemma RefreshResult(t: Tokens, listeners: seq<Listener>, reply: TokenServerReply, now: Long)
    ensures var st := Refresh(t, listeners, reply, now);
      && (st.result == Returned(true) <==> t.refreshToken.Some? && reply.Granted?)
      && (st.events != [] <==> t.refreshToken.Some?)
      && (st.events != [] ==> st.events[0] == TokenRequestSent(t.refreshToken.value))
  {
  }

  // ---------------------------------------------------------------------------------------
  // intercept

  /** Without a need to refresh, `intercept` attaches the current token and does nothing else. */
  lemma InterceptWithoutRefresh(t: Tokens, listeners: seq<Listener>, slot: Option<string>,
                                reply: TokenServerReply, now: Long)
    requires !NeedsRefresh(t, now)
    ensures t.accessToken.Some?
    ensures InterceptStep(t, listeners, slot, reply, now) == Transition(t, [], Returned(t.accessToken))
  {
  }

  /** `intercept` contacts the token server exactly when the token is missing or at most a
      minute from expiry and a refresh token is stored. */
  lemma InterceptContactsServerIff(t: Tokens, listeners: seq<Listener>, slot: Option<string>,
                                   reply: TokenServerReply, now: Long)
    ensures var st := InterceptStep(t, listeners, slot, reply, now);
      (st.events != [] && st.events[0].TokenRequestSent?) <==>
        (NeedsRefresh(t, now) && t.refreshToken.Some?)
  {
    if NeedsRefresh(t, now) {
      RefreshResult(t, listeners, reply, now);
    }
  }

  /** After `intercept` returns, the request carries exactly the credential's access token if
      it has one and is untouched otherwise; when the refresh throws, the state and the request
      are unchanged. */
  lemma InterceptAttaches(t: Tokens, listeners: seq<Listener>, slot: Option<string>,
                          reply: TokenServerReply, now: Long)
    ensures var st := InterceptStep(t, listeners, slot, reply, now);
      && (st.result.Returned? && st.tokens.accessToken.Some? ==>
            st.result.value == st.tokens.accessToken)
      && (st.result.Returned? && st.tokens.accessToken.None? ==> st.result.value == slot)
      && (st.result.Threw? ==> st.tokens == t && st.result.exception == IOException)
  {
  }

  // ---------------------------------------------------------------------------------------
  // handleResponse

  /** Only a 401 is handled: any other status answers "no retry" and changes nothing. */
  lemma HandleResponseIgnoresOtherStatus(t: Tokens, listeners: seq<Listener>, status: int,
                                         sent: Option<string>, reply: TokenServerReply, now: Long)
    requires status != UNAUTHORIZED
    ensures HandleResponseStep(t, listeners, status, sent, reply, now) == Transition(t, [], false)
  {
  }

  /** A 401 for a request whose token is no longer the current one answers "retry" without any
      token request or state change: the token was already replaced. */
  lemma HandleResponseStaleToken(t: Tokens, listeners: seq<Listener>, sent: Option<string>,
                                 reply: TokenServerReply, now: Long)
    requires sent != t.accessToken
    ensures HandleResponseStep(t, listeners, UNAUTHORIZED, sent, reply, now)
         == Transition(t, [], true)
  {
  }

  /** A 401 for the current token refreshes; the answer is the refresh's result, and an I/O
      failure of the refresh reads as "no retry" with the state unchanged. */
  lemma HandleResponseRefreshes(t: Tokens, listeners: seq<Listener>, reply: TokenServerReply,
                                now: Long)
    ensures var st := HandleResponseStep(t, listeners, UNAUTHORIZED, t.accessToken, reply, now);
      var rf := Refresh(t, listeners, reply, now);
      && st.tokens == rf.tokens && st.events == rf.events
      && (st.result <==> t.refreshToken.Some? && reply.Granted?)
      && (reply.TransportFailure? ==> st.tokens == t && !st.result)
  {
    RefreshResult(t, listeners, reply, now);
  }
}
