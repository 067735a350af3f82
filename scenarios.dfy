/** Properties that span several operations of the credential, and end-to-end scenarios, both
    on the specification and through the classes. */
module Scenarios {

  import opened JavaLong
  import opened OAuthTypes
  import opened CredentialSpec
  import opened OAuth2

  /** The number of exchanges with the token server among `events`. */
  function TokenRequests(events: seq<Event>): nat {
    if events == [] then 0
    else TokenRequests(events[..|events| - 1]) + (if events[|events| - 1].TokenRequestSent? then 1 else 0)
  }

  lemma {:induction false} TokenRequestsAppend(a: seq<Event>, b: seq<Event>)
    ensures TokenRequests(a + b) == TokenRequests(a) + TokenRequests(b)
  {
    if b != [] {
      var last := |b| - 1;
      assert (a + b)[..|a + b| - 1] == a + b[..last];
      TokenRequestsAppend(a, b[..last]);
    } else {
      assert a + b == a;
    }
  }

  /** Listener calls are not token requests. */
  lemma {:induction false} NotifySendsNoRequest(listeners: seq<Listener>, notice: Notice)
    ensures TokenRequests(Notify(listeners, notice)) == 0
  {
    if listeners != [] {
      var last := |listeners| - 1;
      var calls := Notify(listeners, notice);
      assert calls[..|calls| - 1] == Notify(listeners[..last], notice);
      NotifySendsNoRequest(listeners[..last], notice);
    }
  }

  /** A refresh contacts the token server once when it holds a refresh token and not at all
      otherwise. */
  lemma RefreshRequestsAtMostOnce(t: Tokens, listeners: seq<Listener>, reply: TokenServerReply,
                                  now: Long)
    ensures TokenRequests(Refresh(t, listeners, reply, now).events)
         == if t.refreshToken.Some? then 1 else 0
  {
    if t.refreshToken.Some? {
      var sent := [TokenRequestSent(t.refreshToken.value)];
      assert TokenRequests(sent) == 1 by {
        assert sent[..0] == [];
      }
      match reply
      case Granted(response) =>
        NotifySendsNoRequest(listeners, OnTokenResponse(response));
        TokenRequestsAppend(sent, Notify(listeners, OnTokenResponse(response)));
      case Rejected(details) =>
        NotifySendsNoRequest(listeners, OnTokenErrorResponse(details));
        TokenRequestsAppend(sent, Notify(listeners, OnTokenErrorResponse(details)));
      case TransportFailure =>
    }
  }

  /** Two requests sent with the same token both get a 401. Handling the first refreshes and
      obtains a different token; handling the second then answers "retry" at once, whatever the
      server would say, so the two 401s cost a single token request. */
  lemma DeduplicatedRefresh(t: Tokens, listeners: seq<Listener>, response: TokenResponse,
                            reply: TokenServerReply, now1: Long, now2: Long)
    requires t.refreshToken.Some? && response.accessToken != t.accessToken
    ensures var first := HandleResponseStep(t, listeners, UNAUTHORIZED, t.accessToken,
                                            Granted(response), now1);
      var second := HandleResponseStep(first.tokens, listeners, UNAUTHORIZED, t.accessToken,
                                       reply, now2);
      && first.result && second.result
      && second.tokens == first.tokens && second.events == []
      && TokenRequests(first.events + second.events) == 1
  {
    var first := HandleResponseStep(t, listeners, UNAUTHORIZED, t.accessToken, Granted(response), now1);
    RefreshRequestsAtMostOnce(t, listeners, Granted(response), now1);
    assert first.events + [] == first.events;
  }

  /** After an error response with details the credential holds no usable token: every later
      request refreshes first, and every listener heard of the error once. */
  lemma RejectionInvalidates(t: Tokens, listeners: seq<Listener>, details: TokenErrorResponse,
                             now: Long, later: Long)
    requires t.refreshToken.Some?
    ensures var st := Refresh(t, listeners, Rejected(Some(details)), now);
      && st.tokens.accessToken.None? && st.tokens.expirationTimeMilliseconds.None?
      && NeedsRefresh(st.tokens, later)
      && st.events[1..] == Notify(listeners, OnTokenErrorResponse(Some(details)))
  {
    var st := Refresh(t, listeners, Rejected(Some(details)), now);
    assert st.events == [TokenRequestSent(t.refreshToken.value)]
                        + Notify(listeners, OnTokenErrorResponse(Some(details)));
  }

  /** A credential with only an access token and no expiry attaches it and never refreshes. */
  lemma AccessTokenOnly(token: string, listeners: seq<Listener>, slot: Option<string>,
                        reply: TokenServerReply, now: Long)
    ensures InterceptStep(Tokens(Some(token), None, None), listeners, slot, reply, now)
         == Transition(Tokens(Some(token), None, None), [], Returned(Some(token)))
  {
  }

  /** A token 30 seconds from expiry is refreshed before use; the request carries the new token
      and the new expiry lies an hour ahead. */
  lemma RefreshNearExpiry(listeners: seq<Listener>, slot: Option<string>, now: Long)
    requires NoOverflow(3600, now) && NoOverflow(30, now)
    ensures var t := Tokens(Some("T1"), Some("R"), ExpirationFor(Some(30), now));
      var st := InterceptStep(t, listeners, slot,
                              Granted(TokenResponse(Some("T2"), None, Some(3600))), now);
      && st.result == Returned(Some("T2"))
      && st.tokens == Tokens(Some("T2"), Some("R"), Some(now as int + 3_600_000))
      && ExpiresInSeconds(st.tokens.expirationTimeMilliseconds, now) == Some(3600)
  {
    ExpiresInRoundTrip(30, now);
    ExpiresInRoundTrip(3600, now);
  }

  /** A 401 for the current token whose refresh is rejected with `invalid_grant` clears the
      access token and its expiry, calls the one listener's error callback once, and answers
      "no retry". */
  lemma RejectedOnUnauthorized(token: string, rt: string, listener: Listener, now: Long)
    ensures var details := Some(TokenErrorResponse("invalid_grant", None, None));
      var st := HandleResponseStep(Tokens(Some(token), Some(rt), Some(now)), [listener],
                                   UNAUTHORIZED, Some(token), Rejected(details), now);
      st == Transition(Tokens(None, Some(rt), None),
                       [TokenRequestSent(rt), ListenerCalled(listener, OnTokenErrorResponse(details))],
                       false)
  {
    var details := Some(TokenErrorResponse("invalid_grant", None, None));
    assert Notify([listener], OnTokenErrorResponse(details))
        == [ListenerCalled(listener, OnTokenErrorResponse(details))];
  }

  /** Listeners added to a builder are called in the order they were added; without a token
      server URL the credential gets none. */
  method BuildInInsertionOrder(first: Listener, second: Listener) returns (c: Credential)
    ensures c.refreshListeners == [first, second]
    ensures c.tokenServerEncodedUrl == None
    ensures c.State() == Tokens(None, None, None)
  {
    var builder := new Builder();
    var _ := builder.AddRefreshListener(Some(first));
    var _ := builder.AddRefreshListener(Some(second));
    c := builder.Build();
  }

  /** Through the classes: a credential built with a token server URL, holding a token that
      expires in 30 seconds, refreshes in `intercept` and sends the new token. */
  method InterceptNearExpiry(url: string, listener: Listener, now: Long)
    returns (sent: Option<string>, expiresIn: Option<Long>, calls: seq<Event>)
    requires NoOverflow(3600, now) && NoOverflow(30, now)
    ensures sent == Some("T2") && expiresIn == Some(3600)
    ensures calls == [TokenRequestSent("R"),
                      ListenerCalled(listener, OnTokenResponse(TokenResponse(Some("T2"), None, Some(3600))))]
  {
    var builder := new Builder();
    builder.SetTokenServerEncodedUrl(Some(url));
    var _ := builder.AddRefreshListener(Some(listener));
    var credential := builder.Build();
    credential.SetAccessToken(Some("T1"));
    credential.SetRefreshToken(Some("R"));
    credential.SetExpiresInSeconds(Some(30), now);
    ExpiresInRoundTrip(30, now);
    ExpiresInRoundTrip(3600, now);
    var request := new HttpRequest(None);
    var response := TokenResponse(Some("T2"), None, Some(3600));
    assert Notify([listener], OnTokenResponse(response)) == [ListenerCalled(listener, OnTokenResponse(response))];
    var _ := credential.Intercept(request, Granted(response), now);
    sent := request.accessToken;
    expiresIn := credential.GetExpiresInSeconds(now);
    calls := credential.events;
  }
}
