/**
 * The credential payloads the OAuth handlers of the SMS web application carry
 * in signed cookies: `key|secret` of the request token in `FF_API_REQ`
 * (authorize handler), `key|secret|username` of the access token in
 * `FF_API_AUTH` (callback handler), and the `authenticated` guard that turns
 * the latter back into a FriendFeed session.
 *
 * A handler's effect on its response object is modelled as the value it
 * leaves there: the cookie it sets, if any, and where it redirects. The
 * fetches from the provider are parameters. Cookies are written and checked
 * with the codec of module Cookies as it stands, so an exception raised inside
 * `parse_cookie` escapes the handler.
 */
module Handlers {
  import opened Wrappers
  import opened Bytes
  import opened Primitives
  import opened OAuth
  import opened Cookies

  /** `FRIENDFEED_API_TOKEN`, the application's consumer token. */
  const FRIENDFEED_API_TOKEN: Dict := map[KEY := API_TOKEN_SECRET, SECRET := API_TOKEN_SECRET]

  const FF_API_REQ: Bytes := Ascii("FF_API_REQ")
  const FF_API_AUTH: Bytes := Ascii("FF_API_AUTH")
  const USERNAME: Bytes := Ascii("username")

  /** Where a handler sends the browser: the site root or the provider's page. */
  datatype Location = Home | Provider(url: Url)

  /** What a handler leaves in its response: one `Set-Cookie` (name, value) at most, and a redirect. */
  datatype Response = Response(cookie: Option<(Bytes, Bytes)>, location: Location)

  /** Python truthiness of `parse_cookie`'s result: present and non-empty. */
  predicate TruthyStr(v: Option<Bytes>) { v.Some? && v.value != [] }

  /** `s.strip() == s`: no whitespace at either end. */
  predicate Trimmed(s: Bytes) { s == [] || (!IsSpace(s[0]) && !IsSpace(s[|s| - 1])) }

  /** `"|".join([token["key"], token["secret"]])`, the payload of `FF_API_REQ`. */
  function RequestPayload(token: Dict): Bytes
    requires IsToken(token)
  {
    Join(PIPE, [token[KEY], token[SECRET]])
  }

  predicate HasAccessFields(access: Dict) { KEY in access && SECRET in access && USERNAME in access }

  /** `"|".join(access_token[k] for k in ["key", "secret", "username"])`, the payload of `FF_API_AUTH`. */
  function AccessPayload(access: Dict): Bytes
    requires HasAccessFields(access)
  {
    Join(PIPE, [access[KEY], access[SECRET], access[USERNAME]])
  }

  /**
   * `parse_cookie` of a cookie and, when the payload is truthy, its
   * '|'-separated fields; the ValueError `parse_cookie` may raise passes through.
   */
  function SavedFields(p: Primitives, cookie: Option<Bytes>, now: real): Result<Option<seq<Bytes>>, PyError>
  {
    match ParseCookieAsWritten(p, cookie, now)
    case Err(e) => Err(e)
    case Ok(saved) => Ok(if TruthyStr(saved) then Some(Split(saved.value, PIPE)) else None)
  }

  // ---------------------------------------------------------------------
  // OAuthAuthorizeHandler.get

  /**
   * Saves `key|secret` of the freshly fetched request token in `FF_API_REQ`
   * and redirects to the provider's authentication page for it.
   */
  function Authorize(p: Primitives, requestToken: Dict, now: real): (r: Result<Response, PyError>)
    ensures r.Err? <==> !IsToken(requestToken)
    ensures r.Ok? ==>
      && r.value.cookie == Some((FF_API_REQ, SetCookieValueAsWritten(p, RequestPayload(requestToken), now)))
      && r.value.location == Provider(Url(FRIENDFEED_OAUTH_BASE + Ascii("/authenticate"),
                                          map[OAUTH_TOKEN := requestToken[KEY]]))
  {
    if !IsToken(requestToken) then Err(KeyError)
    else
      var data := RequestPayload(requestToken);
      match GetOAuthAuthenticationUrl(requestToken)
      case Err(e) => Err(e)
      case Ok(url) => Ok(Response(Some((FF_API_REQ, SetCookieValueAsWritten(p, data, now))), Provider(url)))
  }

  // ---------------------------------------------------------------------
  // OAuthCallbackHandler.get

  /**
   * Checks the returned `oauth_token` against the request token saved in
   * `FF_API_REQ`, fetches the access token with it and saves
   * `key|secret|username` in `FF_API_AUTH`. Every failure short of an
   * exception redirects home without a cookie; `parse_cookie` may raise
   * ValueError, a cookie payload that is not two fields raises ValueError,
   * an access token without the three fields KeyError.
   */
  function Callback(p: Primitives, requestKey: Bytes, requestCookie: Option<Bytes>,
                    fetchAccessToken: Dict -> Option<Dict>, now: real): (r: Result<Response, PyError>)
    ensures var fields := SavedFields(p, requestCookie, now);
      && (fields.Err? ==> r == Err(fields.error))
      && (fields == Ok(None) ==> r == Ok(Response(None, Home)))
      && (fields.Ok? && fields.value.Some? && |fields.value.value| != 2 ==> r == Err(ValueError))
      && (fields.Ok? && fields.value.Some? && |fields.value.value| == 2 && fields.value.value[0] != requestKey ==>
            r == Ok(Response(None, Home)))
    ensures var fields := SavedFields(p, requestCookie, now);
      fields.Ok? && fields.value.Some? && |fields.value.value| == 2 && fields.value.value[0] == requestKey ==>
      var saved := fields.value.value;
      var access := fetchAccessToken(map[KEY := saved[0], SECRET := saved[1]]);
      && (access.None? ==> r == Ok(Response(None, Home)))
      && (access.Some? && !HasAccessFields(access.value) ==> r == Err(KeyError))
      && (access.Some? && HasAccessFields(access.value) ==>
            r == Ok(Response(Some((FF_API_AUTH, SetCookieValueAsWritten(p, AccessPayload(access.value), now))), Home)))
  {
    match SavedFields(p, requestCookie, now)
    case Err(e) => Err(e)
    case Ok(None) => Ok(Response(None, Home))
    case Ok(Some(fields)) =>
      if |fields| != 2 then Err(ValueError)
      else if fields[0] != requestKey then Ok(Response(None, Home))
      else match fetchAccessToken(map[KEY := fields[0], SECRET := fields[1]])
        case None => Ok(Response(None, Home))
        case Some(access) =>
          if !HasAccessFields(access) then Err(KeyError)
          else Ok(Response(Some((FF_API_AUTH, SetCookieValueAsWritten(p, AccessPayload(access), now))), Home))
  }

  // ---------------------------------------------------------------------
  // The `authenticated` decorator

  /** The session the decorator hands to the wrapped method, or its JSON redirect to `/oauth/authorize`. */
  datatype Session = Authenticated(consumerToken: Dict, accessToken: Dict, username: Bytes) | RedirectToAuthorize

  /**
   * A session exists exactly when `FF_API_AUTH` parses to a non-empty payload
   * of three '|'-separated fields; it pairs the application's consumer token
   * with the access token those fields name. `parse_cookie` is called outside
   * the decorator's `try`, so its ValueError escapes.
   */
  function Authenticate(p: Primitives, authCookie: Option<Bytes>, now: real): (r: Result<Session, PyError>)
    ensures var fields := SavedFields(p, authCookie, now);
      && (r.Err? <==> fields.Err?)
      && (fields.Err? ==> r.error == fields.error)
      && (r.Ok? && r.value.Authenticated? <==> fields.Ok? && fields.value.Some? && |fields.value.value| == 3)
      && (r.Ok? && r.value.Authenticated? ==>
            var saved := fields.value.value;
            && r.value.consumerToken == FRIENDFEED_API_TOKEN
            && r.value.accessToken == map[KEY := saved[0], SECRET := saved[1]]
            && r.value.username == saved[2])
  {
    match SavedFields(p, authCookie, now)
    case Err(e) => Err(e)
    case Ok(None) => Ok(RedirectToAuthorize)
    case Ok(Some(fields)) =>
      if |fields| != 3 then Ok(RedirectToAuthorize)
      else Ok(Authenticated(FRIENDFEED_API_TOKEN, map[KEY := fields[0], SECRET := fields[1]], fields[2]))
  }

  // ---------------------------------------------------------------------
  // The handshake end to end

  /** A request token whose fields survive the trip through `FF_API_REQ`. */
  predicate CarriableRequestToken(token: Dict)
  {
    IsToken(token) && PIPE !in token[KEY] && PIPE !in token[SECRET] && Trimmed(RequestPayload(token))
  }

  /** `FF_API_REQ` as the authorize handler saved it reads back as the token's two fields. */
  lemma RequestCookieFields(p: Primitives, token: Dict, t0: real, now: real)
    requires Valid(p)
    requires CarriableRequestToken(token)
    requires Trunc(t0) as real >= now - MAX_AGE as real
    ensures SavedFields(p, Some(SetCookieValueAsWritten(p, RequestPayload(token), t0)), now)
         == Ok(Some([token[KEY], token[SECRET]]))
  {
    var data := RequestPayload(token);
    RoundTripAsWritten(p, data, t0, now);
    StripTrimmed(data);
    SplitJoin([token[KEY], token[SECRET]], PIPE);
    assert data != [] by {
      assert |data| == |token[KEY]| + 1 + |token[SECRET]| by { JoinTwo(token[KEY], token[SECRET]); }
    }
  }

  lemma JoinTwo(a: Bytes, b: Bytes)
    ensures Join(PIPE, [a, b]) == a + [PIPE] + b
  {
    JoinThree(a, b, [], PIPE);
  }

  /**
   * The callback within thirty days of the authorize redirect, for the same
   * request token, fetches the access token with exactly that token's key
   * and secret; whatever the fetch yields decides the rest.
   */
  lemma AuthorizeThenCallback(p: Primitives, token: Dict, t0: real, now: real,
                              fetchAccessToken: Dict -> Option<Dict>)
    requires Valid(p)
    requires CarriableRequestToken(token)
    requires Trunc(t0) as real >= now - MAX_AGE as real
    ensures var saved := Authorize(p, token, t0).value.cookie.value.1;
      var access := fetchAccessToken(map[KEY := token[KEY], SECRET := token[SECRET]]);
      var r := Callback(p, token[KEY], Some(saved), fetchAccessToken, now);
      && (access.None? ==> r == Ok(Response(None, Home)))
      && (access.Some? && !HasAccessFields(access.value) ==> r == Err(KeyError))
      && (access.Some? && HasAccessFields(access.value) ==>
            r == Ok(Response(Some((FF_API_AUTH, SetCookieValueAsWritten(p, AccessPayload(access.value), now))), Home)))
  {
    RequestCookieFields(p, token, t0, now);
  }

  /** With the returned token's key different from the saved one, nothing is fetched or saved. */
  lemma CallbackKeyMismatch(p: Primitives, token: Dict, requestKey: Bytes, t0: real, now: real,
                            fetchAccessToken: Dict -> Option<Dict>)
    requires Valid(p)
    requires CarriableRequestToken(token)
    requires Trunc(t0) as real >= now - MAX_AGE as real
    requires requestKey != token[KEY]
    ensures Callback(p, requestKey, Some(Authorize(p, token, t0).value.cookie.value.1), fetchAccessToken, now)
         == Ok(Response(None, Home))
  {
    RequestCookieFields(p, token, t0, now);
  }

  /** An access token whose fields survive the trip through `FF_API_AUTH`. */
  predicate CarriableAccessToken(access: Dict)
  {
    && HasAccessFields(access)
    && PIPE !in access[KEY] && PIPE !in access[SECRET] && PIPE !in access[USERNAME]
    && Trimmed(AccessPayload(access))
  }

  /**
   * The cookie the callback saves at `t1` authenticates every request within
   * thirty days as the access token's user, and none after.
   */
  lemma CallbackThenAuthenticate(p: Primitives, access: Dict, t1: real, now: real)
    requires Valid(p)
    requires CarriableAccessToken(access)
    ensures Authenticate(p, Some(SetCookieValueAsWritten(p, AccessPayload(access), t1)), now)
        == if Trunc(t1) as real >= now - MAX_AGE as real
           then Ok(Authenticated(FRIENDFEED_API_TOKEN, map[KEY := access[KEY], SECRET := access[SECRET]], access[USERNAME]))
           else Ok(RedirectToAuthorize)
  {
    var data := AccessPayload(access);
    RoundTripAsWritten(p, data, t1, now);
    StripTrimmed(data);
    SplitJoinThree(access[KEY], access[SECRET], access[USERNAME], PIPE);
    JoinThree(access[KEY], access[SECRET], access[USERNAME], PIPE);
  }

  /** A payload of two fields, such as a request token's, opens no session. */
  lemma TwoFieldsNoSession(p: Primitives, token: Dict, t0: real, now: real)
    requires Valid(p)
    requires CarriableRequestToken(token)
    ensures Authenticate(p, Some(SetCookieValueAsWritten(p, RequestPayload(token), t0)), now) == Ok(RedirectToAuthorize)
  {
    if Trunc(t0) as real >= now - MAX_AGE as real {
      RequestCookieFields(p, token, t0, now);
    } else {
      RoundTripAsWritten(p, RequestPayload(token), t0, now);
    }
  }

  /**
   * A genuine cookie with the last letter of its value moved across the first
   * '|' makes both the `authenticated` guard and the callback raise
   * ValueError, whichever cookie name it is presented under.
   */
  lemma ShiftedLetterEscapesHandlers(p: Primitives, raw: Bytes, front: Bytes, letter: byte, t0: real, now: real,
                                     requestKey: Bytes, fetchAccessToken: Dict -> Option<Dict>)
    requires Valid(p)
    requires p.base64Encode(raw) == front + [letter]
    requires IsUpperAscii(letter) || IsLowerAscii(letter)
    ensures var timestamp := Timestamp(t0);
      var forged := Join(PIPE, [front, [letter] + timestamp, CookieSignature(p, [front + [letter], timestamp])]);
      && Authenticate(p, Some(forged), now) == Err(ValueError)
      && Callback(p, requestKey, Some(forged), fetchAccessToken, now) == Err(ValueError)
  {
    ShiftedLetterRaises(p, raw, front, letter, t0, now);
  }
}
