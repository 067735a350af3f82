/** The values the credential exchanges with its collaborators: the token server's
    responses, the refresh listeners and the record of calls made to them. */
module OAuthTypes {

  import opened JavaLong

  /** A Java reference that may be `null`. */
  datatype Option<+T> = None | Some(value: T)

  /** The exceptions of the credential's operations that the model distinguishes. */
  datatype Exception = IOException | NullPointerException

  /** How a Java call ends: it returns a value or throws. */
  datatype Outcome<+T> = Returned(value: T) | Threw(exception: Exception)

  /** A successful response of the token server (only the fields the credential reads). */
  datatype TokenResponse = TokenResponse(
    accessToken: Option<string>,
    refreshToken: Option<string>,
    expiresInSeconds: Option<Long>)

  /** The error details of a token server's error response. */
  datatype TokenErrorResponse = TokenErrorResponse(
    error: string,
    errorDescription: Option<string>,
    errorUri: Option<string>)

  /** What the token server's refresh exchange yields when it is performed: a token response,
      a `TokenResponseException` (with its details, `null` when the error body could not be
      parsed), or any other I/O failure. */
  datatype TokenServerReply =
    | Granted(response: TokenResponse)
    | Rejected(details: Option<TokenErrorResponse>)
    | TransportFailure

  /** A registered refresh listener, identified by name. */
  datatype Listener = Listener(name: string)

  /** The callback a listener receives. */
  datatype Notice =
    | OnTokenResponse(response: TokenResponse)
    | OnTokenErrorResponse(details: Option<TokenErrorResponse>)

  /** An observable interaction of the credential: a refresh exchange sent to the token server
      with the given refresh token, or one call of a listener's callback. */
  datatype Event =
    | TokenRequestSent(refreshToken: string)
    | ListenerCalled(listener: Listener, notice: Notice)
}
