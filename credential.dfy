/** The credential and its builder as classes over mutable fields. Each public method is one
    atomic step (the source serialises them with a lock). `SetFromTokenResponse`, the listener
    loop, `RefreshToken`, `Intercept` and `HandleResponse` are proved to take the steps that
    module CredentialSpec defines; the setters and `ExecuteRefreshToken` state their new fields
    and events directly, the getters return fields, and the Builder states its new fields. */
module OAuth2 {

  import opened JavaLong
  import opened OAuthTypes
  import opened CredentialSpec

  /** An outgoing HTTP request, reduced to the one place where the access method puts the
      access token and from which it reads it back. */
  class HttpRequest {
    var accessToken: Option<string>

    constructor (accessToken: Option<string>)
      ensures this.accessToken == accessToken
    {
      this.accessToken := accessToken;
    }
  }

  class Credential {
    var accessToken: Option<string>
    var refreshToken: Option<string>
    var expirationTimeMilliseconds: Option<Long>
    /** The token requests sent and the listener callbacks made, oldest first. */
    var events: seq<Event>
    const tokenServerEncodedUrl: Option<string>
    const refreshListeners: seq<Listener>

    /** The credential's token triple. */
    function State(): Tokens
      reads this
    {
      Tokens(accessToken, refreshToken, expirationTimeMilliseconds)
    }

    /** A credential with no tokens; a missing listener list becomes the empty list. */
    constructor (tokenServerEncodedUrl: Option<string>, refreshListeners: Option<seq<Listener>>)
      ensures State() == Tokens(None, None, None) && events == []
      ensures this.tokenServerEncodedUrl == tokenServerEncodedUrl
      ensures this.refreshListeners == if refreshListeners.Some? then refreshListeners.value else []
    {
      accessToken, refreshToken, expirationTimeMilliseconds := None, None, None;
      events := [];
      this.tokenServerEncodedUrl := tokenServerEncodedUrl;
      this.refreshListeners := if refreshListeners.None? then [] else refreshListeners.value;
    }

    method GetAccessToken() returns (r: Option<string>)
      ensures r == accessToken
    {
      r := accessToken;
    }

    method GetRefreshToken() returns (r: Option<string>)
      ensures r == refreshToken
    {
      r := refreshToken;
    }

    method GetExpirationTimeMilliseconds() returns (r: Option<Long>)
      ensures r == expirationTimeMilliseconds
    {
      r := expirationTimeMilliseconds;
    }

    method SetAccessToken(accessToken: Option<string>)
      modifies this`accessToken
      ensures State() == old(State()).(accessToken := accessToken)
    {
      this.accessToken := accessToken;
    }

    method SetRefreshToken(refreshToken: Option<string>)
      modifies this`refreshToken
      ensures State() == old(State()).(refreshToken := refreshToken)
    {
      this.refreshToken := refreshToken;
    }

    method SetExpirationTimeMilliseconds(expirationTimeMilliseconds: Option<Long>)
      modifies this`expirationTimeMilliseconds
      ensures State() == old(State()).(expirationTimeMilliseconds := expirationTimeMilliseconds)
    {
      this.expirationTimeMilliseconds := expirationTimeMilliseconds;
    }

    /** The remaining lifetime in seconds at time `now`, or none when the expiry is unknown. */
    method GetExpiresInSeconds(now: Long) returns (r: Option<Long>)
      ensures r == ExpiresInSeconds(expirationTimeMilliseconds, now)
    {
      if expirationTimeMilliseconds.None? {
        return None;
      }
      r := Some(Div(Sub(expirationTimeMilliseconds.value, now), MILLIS_PER_SECOND));
    }

    /** Stores the expiry that a lifetime of `expiresIn` seconds from `now` amounts to. */
    method SetExpiresInSeconds(expiresIn: Option<Long>, now: Long)
      modifies this`expirationTimeMilliseconds
      ensures State() == old(State()).(expirationTimeMilliseconds := ExpirationFor(expiresIn, now))
    {
      SetExpirationTimeMilliseconds(
        if expiresIn.None? then None else Some(Add(now, Mul(expiresIn.value, MILLIS_PER_SECOND))));
    }

    /** Applies a successful token response; the listeners are not called. */
    method SetFromTokenResponse(response: TokenResponse, now: Long)
      modifies this`accessToken, this`refreshToken, this`expirationTimeMilliseconds
      ensures State() == FromTokenResponse(old(State()), response, now)
    {
      SetAccessToken(response.accessToken);
      if response.refreshToken.Some? {
        SetRefreshToken(response.refreshToken);
      }
      SetExpiresInSeconds(response.expiresInSeconds, now);
    }

    /** Performs the refresh exchange, whose outcome is `reply`, or returns none without
        contacting the token server when there is no refresh token. */
    method ExecuteRefreshToken(reply: TokenServerReply) returns (r: Option<TokenServerReply>)
      modifies this`events
      ensures refreshToken.None? ==> r.None? && events == old(events)
      ensures refreshToken.Some? ==>
        r == Some(reply) && events == old(events) + [TokenRequestSent(refreshToken.value)]
    {
      if refreshToken.None? {
        return None;
      }
      events := events + [TokenRequestSent(refreshToken.value)];
      r := Some(reply);
    }

    /** Calls every listener with `notice`, in list order. */
    method NotifyListeners(notice: Notice)
      modifies this`events
      ensures events == old(events) + Notify(refreshListeners, notice)
    {
      for i := 0 to |refreshListeners|
        invariant events == old(events) + Notify(refreshListeners[..i], notice)
      {
        assert refreshListeners[..i + 1][..i] == refreshListeners[..i];
        events := events + [ListenerCalled(refreshListeners[i], notice)];
      }
      assert refreshListeners[..|refreshListeners|] == refreshListeners;
    }

    /** Requests a new access token and reports whether one was obtained. */
    method RefreshToken(reply: TokenServerReply, now: Long) returns (r: Outcome<bool>)
      modifies this`accessToken, this`refreshToken, this`expirationTimeMilliseconds, this`events
      ensures var st := Refresh(old(State()), refreshListeners, reply, now);
        State() == st.tokens && events == old(events) + st.events && r == st.result
    {
      var response := ExecuteRefreshToken(reply);
      match response
      case None =>
        r := Returned(false);
      case Some(Granted(tokenResponse)) =>
        SetFromTokenResponse(tokenResponse, now);
        NotifyListeners(OnTokenResponse(tokenResponse));
        r := Returned(true);
      case Some(Rejected(details)) =>
        if details.Some? {
          SetAccessToken(None);
          SetExpiresInSeconds(None, now);
        }
        NotifyListeners(OnTokenErrorResponse(details));
        r := Returned(false);
      case Some(TransportFailure) =>
        r := Threw(IOException);
    }

    /** Runs right before `request` is sent: refreshes the token if it is missing or expires
        within a minute, then puts the access token on the request if there is one. */
    method Intercept(request: HttpRequest, reply: TokenServerReply, now: Long)
      returns (r: Outcome<()>)
      modifies this`accessToken, this`refreshToken, this`expirationTimeMilliseconds, this`events
      modifies request
      ensures var st := InterceptStep(old(State()), refreshListeners, old(request.accessToken), reply, now);
        && State() == st.tokens && events == old(events) + st.events
        && (st.result.Returned? ==> r == Returned(()) && request.accessToken == st.result.value)
        && (st.result.Threw? ==>
              r == Threw(st.result.exception) && request.accessToken == old(request.accessToken))
    {
      var expiresIn := GetExpiresInSeconds(now);
      if accessToken.None? || (expiresIn.Some? && expiresIn.value <= REFRESH_MARGIN_SECONDS) {
        var refreshed := RefreshToken(reply, now);
        if refreshed.Threw? {
          return Threw(refreshed.exception);
        }
        if accessToken.None? {
          return Returned(());
        }
      }
      request.accessToken := accessToken;
      r := Returned(());
    }

    /** Handles an unsuccessful response with status `statusCode` to `request`, and answers
        whether the request should be retried. */
    method HandleResponse(request: HttpRequest, statusCode: int, reply: TokenServerReply, now: Long)
      returns (retry: bool)
      modifies this`accessToken, this`refreshToken, this`expirationTimeMilliseconds, this`events
      ensures var st := HandleResponseStep(old(State()), refreshListeners, statusCode,
                                           request.accessToken, reply, now);
        State() == st.tokens && events == old(events) + st.events && retry == st.result
    {
      if statusCode == UNAUTHORIZED {
        if accessToken != request.accessToken {
          return true;
        }
        var refreshed := RefreshToken(reply, now);
        if refreshed.Returned? {
          return refreshed.value;
        }
        // the I/O failure is logged and the request is not retried
      }
      retry := false;
    }
  }

  /** Collects the configuration of a credential before it is built. */
  class Builder {
    var tokenServerUrl: Option<string>
    var refreshListeners: Option<seq<Listener>>

    constructor ()
      ensures tokenServerUrl == None && refreshListeners == Some([])
    {
      tokenServerUrl := None;
      refreshListeners := Some([]);
    }

    method SetTokenServerEncodedUrl(tokenServerEncodedUrl: Option<string>)
      modifies this`tokenServerUrl
      ensures tokenServerUrl == tokenServerEncodedUrl
    {
      tokenServerUrl := tokenServerEncodedUrl;
    }

    method SetRefreshListeners(refreshListeners: Option<seq<Listener>>)
      modifies this`refreshListeners
      ensures this.refreshListeners == refreshListeners
    {
      this.refreshListeners := refreshListeners;
    }

    /** Appends a listener; a missing listener, or a listener list set to none, throws. */
    method AddRefreshListener(listener: Option<Listener>) returns (r: Outcome<()>)
      modifies this`refreshListeners
      ensures listener.Some? && old(refreshListeners).Some? ==>
        r == Returned(()) && refreshListeners == Some(old(refreshListeners).value + [listener.value])
      ensures listener.None? || old(refreshListeners).None? ==>
        r == Threw(NullPointerException) && refreshListeners == old(refreshListeners)
    {
      if listener.None? || refreshListeners.None? {
        return Threw(NullPointerException);
      }
      refreshListeners := Some(refreshListeners.value + [listener.value]);
      r := Returned(());
    }

    /** A new credential with this configuration and no tokens. */
    method Build() returns (c: Credential)
      ensures fresh(c)
      ensures c.State() == Tokens(None, None, None) && c.events == []
      ensures c.tokenServerEncodedUrl == tokenServerUrl
      ensures c.refreshListeners == if refreshListeners.Some? then refreshListeners.value else []
    {
      c := new Credential(tokenServerUrl, refreshListeners);
    }
  }
}
