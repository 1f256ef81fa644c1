/**
 * The OAuth 1.0 request signer of the FriendFeed client library
 * (OAuth Core 1.0 section 9, equivalently section 3.4 of RFC 5849):
 * percent-encoding, URL normalisation, the parameter and base strings, the
 * HMAC-SHA1 signing key, the signed argument sets of the request-token,
 * access-token, installed-application and resource requests, and the parsing
 * of the provider's token response.
 *
 * `urllib.urlencode` is opaque: a URL is modelled as its endpoint and the
 * argument dict handed to `urlencode`. The clock and the uuid4 nonce are
 * parameters.
 */
module OAuth {
  import opened Wrappers
  import opened Bytes
  import opened Primitives
  import UrlParse

  /** A Python dict of byte-string keys and values (values taken as already `str(v)`). */
  type Dict = map<Bytes, Bytes>

  /** `url + "?" + urllib.urlencode(query)` */
  datatype Url = Url(endpoint: Bytes, query: Dict)

  /** `uuid.uuid4().bytes` */
  type Uuid = s: Bytes | |s| == 16 witness [0, 0, 0, 0, 0, 0, 0, 0, 0, 0, 0, 0, 0, 0, 0, 0]

  const FRIENDFEED_API_BASE: Bytes := Ascii("http://friendfeed-api.com/v2")
  const FRIENDFEED_OAUTH_BASE: Bytes := Ascii("https://friendfeed.com/account/oauth")

  const KEY: Bytes := Ascii("key")
  const SECRET: Bytes := Ascii("secret")
  const OAUTH_CONSUMER_KEY: Bytes := Ascii("oauth_consumer_key")
  const OAUTH_TOKEN: Bytes := Ascii("oauth_token")
  const OAUTH_TOKEN_SECRET: Bytes := Ascii("oauth_token_secret")
  const OAUTH_SIGNATURE_METHOD: Bytes := Ascii("oauth_signature_method")
  const OAUTH_TIMESTAMP: Bytes := Ascii("oauth_timestamp")
  const OAUTH_NONCE: Bytes := Ascii("oauth_nonce")
  const OAUTH_VERSION: Bytes := Ascii("oauth_version")
  const OAUTH_SIGNATURE: Bytes := Ascii("oauth_signature")
  const FF_USERNAME: Bytes := Ascii("ff_username")
  const FF_PASSWORD: Bytes := Ascii("ff_password")
  const HMAC_SHA1: Bytes := Ascii("HMAC-SHA1")
  const VERSION_1_0: Bytes := Ascii("1.0")
  const GET: Bytes := Ascii("GET")
  const POST: Bytes := Ascii("POST")

  /** The protocol parameter names are pairwise different. */
  lemma ProtocolNamesDistinct()
    ensures OAUTH_CONSUMER_KEY != OAUTH_TOKEN_SECRET
    ensures OAUTH_TOKEN != OAUTH_NONCE && OAUTH_TOKEN != FF_USERNAME && OAUTH_TOKEN != FF_PASSWORD
    ensures OAUTH_NONCE != FF_USERNAME && OAUTH_NONCE != FF_PASSWORD && FF_USERNAME != FF_PASSWORD
    ensures OAUTH_TIMESTAMP != OAUTH_SIGNATURE
  {
    assert OAUTH_CONSUMER_KEY[6] != OAUTH_TOKEN_SECRET[6];
    assert OAUTH_TOKEN[6] != OAUTH_NONCE[6];
    assert OAUTH_TOKEN[0] != FF_USERNAME[0] && OAUTH_TOKEN[0] != FF_PASSWORD[0];
    assert OAUTH_NONCE[0] != FF_USERNAME[0] && OAUTH_NONCE[0] != FF_PASSWORD[0];
    assert FF_USERNAME[3] != FF_PASSWORD[3];
    assert OAUTH_TIMESTAMP[6] != OAUTH_SIGNATURE[6];
  }

  // ---------------------------------------------------------------------
  // Percent-encoding: `urllib.quote(val, safe="~")`, section 3.6 of RFC 5849

  /** The unreserved bytes of section 2.3 of RFC 3986: ALPHA DIGIT '-' '.' '_' '~'. */
  predicate IsUnreserved(b: byte)
  {
    IsUpperAscii(b) || IsLowerAscii(b) || IsDigit(b) || b == MINUS || b == 0x2E || b == 0x5F || b == 0x7E
  }

  function HexDigitUpper(d: nat): (r: byte)
    requires d < 16
    ensures IsUnreserved(r)
  {
    if d < 10 then DigitByte(d) else (0x41 + d - 10) as byte
  }

  function EscapeByte(b: byte): Bytes
  {
    if IsUnreserved(b) then [b] else [PERCENT, HexDigitUpper(b as int / 16), HexDigitUpper(b as int % 16)]
  }

  /** `_oauth_escape(val)`: unreserved bytes as they are, any other byte as '%' and two upper-case hex digits. */
  function Escape(s: Bytes): (r: Bytes)
    ensures forall i :: 0 <= i < |r| ==> IsUnreserved(r[i]) || r[i] == PERCENT
    ensures |r| >= |s|
  {
    if s == [] then [] else EscapeByte(s[0]) + Escape(s[1..])
  }

  /** The value of a hex digit of either case, 16 for any other byte. */
  function HexValue(b: byte): nat
  {
    if IsDigit(b) then (b - 0x30) as nat
    else if 0x41 <= b <= 0x46 then (b - 0x41 + 10) as nat
    else if 0x61 <= b <= 0x66 then (b - 0x61 + 10) as nat
    else 16
  }

  /** Percent-decoding, the inverse the provider applies. */
  function Unescape(t: Bytes): Bytes
    decreases |t|
  {
    if t == [] then []
    else if |t| >= 3 && t[0] == PERCENT && HexValue(t[1]) < 16 && HexValue(t[2]) < 16 then
      [(16 * HexValue(t[1]) + HexValue(t[2])) as byte] + Unescape(t[3..])
    else [t[0]] + Unescape(t[1..])
  }

  lemma UnescapeAfterEscapedByte(b: byte, t: Bytes)
    ensures Unescape(EscapeByte(b) + t) == [b] + Unescape(t)
  {
    var e := EscapeByte(b) + t;
    if IsUnreserved(b) {
      assert e[1..] == t;
    } else {
      assert e[3..] == t;
      assert HexValue(HexDigitUpper(b as int / 16)) == b as int / 16;
      assert HexValue(HexDigitUpper(b as int % 16)) == b as int % 16;
    }
  }

  /** Decoding undoes `_oauth_escape`: no two inputs share an encoding. */
  lemma {:induction false} UnescapeEscape(s: Bytes)
    ensures Unescape(Escape(s)) == s
  {
    if s != [] {
      UnescapeAfterEscapedByte(s[0], Escape(s[1..]));
      UnescapeEscape(s[1..]);
      assert [s[0]] + s[1..] == s;
    }
  }

  lemma {:induction false} EscapeAppend(s: Bytes, t: Bytes)
    ensures Escape(s + t) == Escape(s) + Escape(t)
  {
    if s == [] {
      assert s + t == t;
    } else {
      assert (s + t)[1..] == s[1..] + t;
      EscapeAppend(s[1..], t);
    }
  }

  lemma EscapeSingle(b: byte)
    ensures Escape([b]) == EscapeByte(b)
  {
    assert [b][1..] == [];
  }

  /** A string of unreserved bytes is its own encoding. */
  lemma {:induction false} EscapeUnreserved(s: Bytes)
    requires forall i :: 0 <= i < |s| ==> IsUnreserved(s[i])
    ensures Escape(s) == s
  {
    if s != [] {
      EscapeUnreserved(s[1..]);
      assert [s[0]] + s[1..] == s;
    }
  }

  /** The encoding never holds a byte that is neither unreserved nor '%', such as '&' or '='. */
  lemma EscapeOmits(s: Bytes, b: byte)
    requires !IsUnreserved(b) && b != PERCENT
    ensures b !in Escape(s)
  {
  }

  /** `_oauth_escape("a b/c~d") == "a%20b%2Fc~d"`: space and '/' encoded, '~' kept. */
  lemma EscapeExample()
    ensures Escape(Ascii("a b/c~d")) == Ascii("a%20b%2Fc~d")
  {
    var t0: Bytes := [0x64];
    var t1: Bytes := [0x7E, 0x64];
    var t2: Bytes := [0x63, 0x7E, 0x64];
    var t3: Bytes := [0x2F, 0x63, 0x7E, 0x64];
    var t4: Bytes := [0x62, 0x2F, 0x63, 0x7E, 0x64];
    var t5: Bytes := [0x20, 0x62, 0x2F, 0x63, 0x7E, 0x64];
    var t6: Bytes := [0x61, 0x20, 0x62, 0x2F, 0x63, 0x7E, 0x64];
    EscapeSingle(0x64);
    assert t1[1..] == t0;
    assert Escape(t1) == [0x7E] + Escape(t0);
    assert t2[1..] == t1;
    assert Escape(t2) == [0x63] + Escape(t1);
    assert t3[1..] == t2;
    assert Escape(t3) == [PERCENT, 0x32, 0x46] + Escape(t2);
    assert t4[1..] == t3;
    assert Escape(t4) == [0x62] + Escape(t3);
    assert t5[1..] == t4;
    assert Escape(t5) == [PERCENT, 0x32, 0x30] + Escape(t4);
    assert t6[1..] == t5;
    assert Escape(t6) == [0x61] + Escape(t5);
    assert Ascii("a b/c~d") == t6;
    assert Ascii("a%20b%2Fc~d") == [0x61, PERCENT, 0x32, 0x30, 0x62, PERCENT, 0x32, 0x46, 0x63, 0x7E, 0x64];
  }

  // ---------------------------------------------------------------------
  // Normalised URL, parameter string, base string

  /** `scheme.lower() + "://" + netloc.lower() + path` of the parsed URL. */
  function NormalizedUrl(url: Bytes): Bytes
  {
    var parts := UrlParse.UrlParse(url);
    Lower(parts.scheme) + Ascii("://") + Lower(parts.netloc) + parts.path
  }

  /**
   * The port stays in the network location; `;params`, `?query` and
   * `#fragment` are dropped; scheme and host are lower-cased.
   */
  lemma NormalizedUrlOfAbsolute(scheme: Bytes, netloc: Bytes, path: Bytes, tail: Bytes)
    requires scheme != [] && UrlParse.AllSchemeChars(scheme)
    requires forall j :: 0 <= j < |netloc| ==> UrlParse.IsNetlocByte(netloc[j])
    requires path == [] || path[0] == UrlParse.SLASH
    requires forall j :: 0 <= j < |path| ==>
      path[j] != UrlParse.QUESTION && path[j] != UrlParse.HASH && path[j] != UrlParse.SEMICOLON
    requires tail == [] || tail[0] == UrlParse.QUESTION || tail[0] == UrlParse.HASH
    ensures NormalizedUrl(scheme + Ascii("://") + netloc + path + tail)
         == Lower(scheme) + Ascii("://") + Lower(netloc) + path
  {
    UrlParse.UrlParseOfAbsolute(scheme, netloc, path, tail);
    assert Lower(Lower(scheme)) == Lower(scheme);
  }

  /** `"%s=%s" % (k, _oauth_escape(str(v)))` for the keys in the given order. */
  function Pairs(params: Dict, keys: seq<Bytes>): (r: seq<Bytes>)
    requires forall i :: 0 <= i < |keys| ==> keys[i] in params
    ensures |r| == |keys|
    ensures forall i :: 0 <= i < |keys| ==> r[i] == keys[i] + [EQUALS] + Escape(params[keys[i]])
  {
    if keys == [] then [] else [keys[0] + [EQUALS] + Escape(params[keys[0]])] + Pairs(params, keys[1..])
  }

  /** The `&`-joined `key=escaped-value` pairs in ascending key order. */
  function ParamString(params: Dict): Bytes
  {
    var keys := SortedKeys(params.Keys);
    Join(AMP, Pairs(params, keys))
  }

  /**
   * Split at '&', the parameter string gives one `key=escape(value)` piece
   * per parameter, in strictly ascending key order, when no key holds '&'.
   */
  lemma ParamStringPieces(params: Dict)
    requires params != map[]
    requires forall k :: k in params ==> AMP !in k
    ensures var pieces := Split(ParamString(params), AMP);
      var keys := SortedKeys(params.Keys);
      && |pieces| == |params|
      && StrictlyAscending(keys)
      && forall i :: 0 <= i < |pieces| ==> keys[i] in params && pieces[i] == keys[i] + [EQUALS] + Escape(params[keys[i]])
  {
    var keys := SortedKeys(params.Keys);
    var pairs := Pairs(params, keys);
    assert |params.Keys| == |params|;
    forall i | 0 <= i < |pairs|
      ensures AMP !in pairs[i]
    {
      assert keys[i] in params;
      EscapeOmits(params[keys[i]], AMP);
    }
    SplitJoin(pairs, AMP);
  }

  /** A Python dict built by inserting `items` (distinct keys) one after another. */
  function BuildDict(items: seq<(Bytes, Bytes)>): Dict
  {
    if items == [] then map[] else BuildDict(items[..|items| - 1])[items[|items| - 1].0 := items[|items| - 1].1]
  }

  predicate DistinctKeys(items: seq<(Bytes, Bytes)>)
  {
    forall i, j :: 0 <= i < j < |items| ==> items[i].0 != items[j].0
  }

  lemma {:induction false} BuildDictLookup(items: seq<(Bytes, Bytes)>, k: Bytes)
    requires DistinctKeys(items)
    ensures k in BuildDict(items) <==> exists i :: 0 <= i < |items| && items[i].0 == k
    ensures forall i :: 0 <= i < |items| && items[i].0 == k ==> BuildDict(items)[k] == items[i].1
  {
    if items != [] {
      var init := items[..|items| - 1];
      BuildDictLookup(init, k);
      assert forall i :: 0 <= i < |init| ==> init[i] == items[i];
    }
  }

  /**
   * Two dicts built from the same key/value pairs inserted in any two orders
   * are the same dict, so their parameter strings and signatures agree.
   */
  lemma InsertionOrderIrrelevant(xs: seq<(Bytes, Bytes)>, ys: seq<(Bytes, Bytes)>)
    requires DistinctKeys(xs) && DistinctKeys(ys)
    requires forall x :: x in xs <==> x in ys
    ensures BuildDict(xs) == BuildDict(ys)
    ensures ParamString(BuildDict(xs)) == ParamString(BuildDict(ys))
  {
    forall k
      ensures k in BuildDict(xs) <==> k in BuildDict(ys)
      ensures k in BuildDict(xs) ==> BuildDict(xs)[k] == BuildDict(ys)[k]
    {
      BuildDictLookup(xs, k);
      BuildDictLookup(ys, k);
      if k in BuildDict(xs) {
        var i :| 0 <= i < |xs| && xs[i].0 == k;
        assert xs[i] in ys;
      }
      if k in BuildDict(ys) {
        var j :| 0 <= j < |ys| && ys[j].0 == k;
        assert ys[j] in xs;
      }
    }
  }

  /** `"&".join(_oauth_escape(e) for e in [method.upper(), normalized_url, params])` */
  function BaseString(httpMethod: Bytes, url: Bytes, params: Dict): Bytes
  {
    Join(AMP, [Escape(Upper(httpMethod)), Escape(NormalizedUrl(url)), Escape(ParamString(params))])
  }

  /** Every element is escaped, so the base string holds exactly the two joining '&'. */
  lemma BaseStringAmpersands(httpMethod: Bytes, url: Bytes, params: Dict)
    ensures Count(BaseString(httpMethod, url, params), AMP) == 2
  {
    EscapeOmits(Upper(httpMethod), AMP);
    EscapeOmits(NormalizedUrl(url), AMP);
    EscapeOmits(ParamString(params), AMP);
    CountJoinThree(Escape(Upper(httpMethod)), Escape(NormalizedUrl(url)), Escape(ParamString(params)), AMP);
  }

  /** Split at '&' and decoded, the base string gives back its three elements. */
  lemma BaseStringElements(httpMethod: Bytes, url: Bytes, params: Dict)
    ensures var pieces := Split(BaseString(httpMethod, url, params), AMP);
      |pieces| == 3 && Unescape(pieces[0]) == Upper(httpMethod)
      && Unescape(pieces[1]) == NormalizedUrl(url) && Unescape(pieces[2]) == ParamString(params)
  {
    var m, u, ps := Upper(httpMethod), NormalizedUrl(url), ParamString(params);
    EscapeOmits(m, AMP);
    EscapeOmits(u, AMP);
    EscapeOmits(ps, AMP);
    SplitJoinThree(Escape(m), Escape(u), Escape(ps), AMP);
    UnescapeEscape(m);
    UnescapeEscape(u);
    UnescapeEscape(ps);
  }

  /** The base string determines the upper-cased method, the normalised URL and the parameter string. */
  lemma BaseStringDetermines(m1: Bytes, u1: Bytes, p1: Dict, m2: Bytes, u2: Bytes, p2: Dict)
    requires BaseString(m1, u1, p1) == BaseString(m2, u2, p2)
    ensures Upper(m1) == Upper(m2)
    ensures NormalizedUrl(u1) == NormalizedUrl(u2)
    ensures ParamString(p1) == ParamString(p2)
  {
    BaseStringElements(m1, u1, p1);
    BaseStringElements(m2, u2, p2);
  }

  // ---------------------------------------------------------------------
  // Signing key and signature

  /** Python truthiness of an optional dict: present and non-empty. */
  predicate Truthy(t: Option<Dict>) { t.Some? && t.value != map[] }

  predicate IsToken(t: Dict) { KEY in t && SECRET in t }

  /** `binascii.b2a_base64(hmac.new(key, base_string, hashlib.sha1).digest())[:-1]` */
  function Sign(p: Primitives, key: Bytes, baseString: Bytes): Bytes
  {
    var encoded := B2aBase64(p, p.hmacSha1(key, baseString));
    encoded[..|encoded| - 1]
  }

  /** Cutting the last byte removes exactly the newline `b2a_base64` appended. */
  lemma SignIsBase64OfHmac(p: Primitives, key: Bytes, baseString: Bytes)
    ensures Sign(p, key, baseString) == p.base64Encode(p.hmacSha1(key, baseString))
  {
  }

  /**
   * `_oauth_signature(consumer_token, method, url, parameters, token)`. The
   * key is `consumer_secret + "&" + token_secret`, with "" when no token is
   * given; neither secret is escaped. A missing "secret" raises KeyError.
   */
  function OAuthSignature(p: Primitives, consumer: Dict, httpMethod: Bytes, url: Bytes, params: Dict,
                          token: Option<Dict>): (r: Result<Bytes, PyError>)
    ensures r.Err? <==> SECRET !in consumer || (Truthy(token) && SECRET !in token.value)
    ensures r.Ok? ==> r.value == p.base64Encode(p.hmacSha1(
      consumer[SECRET] + [AMP] + (if Truthy(token) then token.value[SECRET] else []),
      BaseString(httpMethod, url, params)))
  {
    if SECRET !in consumer then Err(KeyError)
    else if Truthy(token) && SECRET !in token.value then Err(KeyError)
    else
      var key := consumer[SECRET] + [AMP] + (if Truthy(token) then token.value[SECRET] else []);
      Ok(Sign(p, key, BaseString(httpMethod, url, params)))
  }

  /**
   * What the provider checks of a signed request: `oauth_signature` is the
   * base64 HMAC-SHA1, under `consumerSecret&tokenSecret`, of the base string
   * of all the other parameters it received.
   */
  predicate SignatureVerifies(p: Primitives, consumerSecret: Bytes, tokenSecret: Bytes,
                              httpMethod: Bytes, url: Bytes, received: Dict)
  {
    && OAUTH_SIGNATURE in received
    && received[OAUTH_SIGNATURE] == p.base64Encode(p.hmacSha1(
         consumerSecret + [AMP] + tokenSecret,
         BaseString(httpMethod, url, received - {OAUTH_SIGNATURE})))
  }

  // ---------------------------------------------------------------------
  // Signed URLs of the three handshake requests

  /** `binascii.b2a_hex(uuid.uuid4().bytes)`: 32 lower-case hex digits. */
  function Nonce(uuid: Uuid): (r: Bytes)
    ensures |r| == 32
  {
    HexLower(uuid)
  }

  /** The five arguments every handshake request starts from. */
  function CommonArgs(consumerKey: Bytes, now: real, uuid: Uuid): Dict
  {
    map[OAUTH_CONSUMER_KEY := consumerKey,
        OAUTH_SIGNATURE_METHOD := HMAC_SHA1,
        OAUTH_TIMESTAMP := Timestamp(now),
        OAUTH_NONCE := Nonce(uuid),
        OAUTH_VERSION := VERSION_1_0]
  }

  const COMMON_NAMES: set<Bytes> :=
    {OAUTH_CONSUMER_KEY, OAUTH_SIGNATURE_METHOD, OAUTH_TIMESTAMP, OAUTH_NONCE, OAUTH_VERSION}

  predicate HasCommonArgs(q: Dict, consumerKey: Bytes, now: real, uuid: Uuid)
  {
    forall k :: k in COMMON_NAMES ==> k in q && q[k] == CommonArgs(consumerKey, now, uuid)[k]
  }

  lemma KeysOfUpdate(m: Dict, k: Bytes, v: Bytes)
    ensures m[k := v].Keys == m.Keys + {k}
  {
  }

  lemma RemoveAfterUpdate(m: Dict, k: Bytes, v: Bytes)
    requires k !in m
    ensures m[k := v] - {k} == m
  {
  }

  lemma UpdateEmpty(m: Dict)
    ensures map[] + m == m
  {
  }

  lemma CommonArgsShape(consumerKey: Bytes, now: real, uuid: Uuid)
    ensures CommonArgs(consumerKey, now, uuid).Keys == COMMON_NAMES
    ensures HasCommonArgs(CommonArgs(consumerKey, now, uuid), consumerKey, now, uuid)
    ensures OAUTH_SIGNATURE !in COMMON_NAMES && OAUTH_TOKEN !in COMMON_NAMES
    ensures FF_USERNAME !in COMMON_NAMES && FF_PASSWORD !in COMMON_NAMES
    ensures OAUTH_SIGNATURE != OAUTH_TOKEN && OAUTH_SIGNATURE != FF_USERNAME && OAUTH_SIGNATURE != FF_PASSWORD
    ensures FF_USERNAME != FF_PASSWORD
  {
    ProtocolNamesDistinct();
  }

  /** Adding or removing a name outside the common five keeps the common arguments. */
  lemma HasCommonArgsFrame(q: Dict, q': Dict, consumerKey: Bytes, now: real, uuid: Uuid)
    requires HasCommonArgs(q, consumerKey, now, uuid)
    requires forall k :: k in COMMON_NAMES ==> k in q' && q'[k] == q[k]
    ensures HasCommonArgs(q', consumerKey, now, uuid)
  {
  }

  /**
   * `args["oauth_signature"] = _oauth_signature(consumer_token, "GET", url,
   * args, token)` on arguments without a signature: the URL carries the
   * arguments plus the signature, and the provider accepts it.
   */
  function Signed(p: Primitives, consumer: Dict, url: Bytes, args: Dict, token: Option<Dict>): (r: Result<Url, PyError>)
    requires OAUTH_SIGNATURE !in args
    ensures r.Err? <==> SECRET !in consumer || (Truthy(token) && SECRET !in token.value)
    ensures r.Ok? ==> r.value.endpoint == url && r.value.query.Keys == args.Keys + {OAUTH_SIGNATURE}
    ensures r.Ok? ==> forall k :: k in args ==> r.value.query[k] == args[k]
    ensures r.Ok? ==> SignatureVerifies(p, consumer[SECRET], if Truthy(token) then token.value[SECRET] else [],
                                        GET, url, r.value.query)
  {
    var signature := OAuthSignature(p, consumer, GET, url, args, token);
    if signature.Err? then Err(signature.error)
    else
      KeysOfUpdate(args, OAUTH_SIGNATURE, signature.value);
      RemoveAfterUpdate(args, OAUTH_SIGNATURE, signature.value);
      Ok(Url(url, args[OAUTH_SIGNATURE := signature.value]))
  }

  /**
   * `get_oauth_request_token_url(consumer_token)`: the five common arguments
   * signed with the consumer secret alone (key `secret&`), no `oauth_token`.
   */
  function GetOAuthRequestTokenUrl(p: Primitives, consumer: Dict, now: real, uuid: Uuid): (r: Result<Url, PyError>)
    ensures r.Err? <==> !IsToken(consumer)
    ensures r.Ok? ==> r.value.endpoint == FRIENDFEED_OAUTH_BASE + Ascii("/request_token")
    ensures r.Ok? ==> r.value.query.Keys == COMMON_NAMES + {OAUTH_SIGNATURE}
    ensures r.Ok? ==> HasCommonArgs(r.value.query, consumer[KEY], now, uuid)
    ensures r.Ok? ==> SignatureVerifies(p, consumer[SECRET], [], GET, r.value.endpoint, r.value.query)
  {
    if KEY !in consumer then Err(KeyError)
    else
      var args := CommonArgs(consumer[KEY], now, uuid);
      CommonArgsShape(consumer[KEY], now, uuid);
      var r := Signed(p, consumer, FRIENDFEED_OAUTH_BASE + Ascii("/request_token"), args, None);
      if r.Ok? then HasCommonArgsFrame(args, r.value.query, consumer[KEY], now, uuid); r else r
  }

  /** `get_oauth_authorization_url(request_token)`: a plain redirect, nothing signed. */
  function GetOAuthAuthorizationUrl(requestToken: Dict): (r: Result<Url, PyError>)
    ensures r.Err? <==> KEY !in requestToken
    ensures r.Ok? ==> r.value == Url(FRIENDFEED_OAUTH_BASE + Ascii("/authorize"), map[OAUTH_TOKEN := requestToken[KEY]])
  {
    if KEY in requestToken then Ok(Url(FRIENDFEED_OAUTH_BASE + Ascii("/authorize"), map[OAUTH_TOKEN := requestToken[KEY]]))
    else Err(KeyError)
  }

  /** `get_oauth_authentication_url(request_token)` */
  function GetOAuthAuthenticationUrl(requestToken: Dict): (r: Result<Url, PyError>)
    ensures r.Err? <==> KEY !in requestToken
    ensures r.Ok? ==> r.value == Url(FRIENDFEED_OAUTH_BASE + Ascii("/authenticate"), map[OAUTH_TOKEN := requestToken[KEY]])
  {
    if KEY in requestToken then Ok(Url(FRIENDFEED_OAUTH_BASE + Ascii("/authenticate"), map[OAUTH_TOKEN := requestToken[KEY]]))
    else Err(KeyError)
  }

  /**
   * `get_oauth_access_token_url(consumer_token, request_token)`: adds
   * `oauth_token = request_token["key"]` and signs with
   * `consumer_secret&request_secret`.
   */
  function GetOAuthAccessTokenUrl(p: Primitives, consumer: Dict, requestToken: Dict, now: real, uuid: Uuid): (r: Result<Url, PyError>)
    ensures r.Err? <==> !IsToken(consumer) || !IsToken(requestToken)
    ensures r.Ok? ==> r.value.endpoint == FRIENDFEED_OAUTH_BASE + Ascii("/access_token")
    ensures r.Ok? ==> r.value.query.Keys == COMMON_NAMES + {OAUTH_TOKEN, OAUTH_SIGNATURE}
    ensures r.Ok? ==> HasCommonArgs(r.value.query, consumer[KEY], now, uuid)
    ensures r.Ok? ==> r.value.query[OAUTH_TOKEN] == requestToken[KEY]
    ensures r.Ok? ==> SignatureVerifies(p, consumer[SECRET], requestToken[SECRET], GET, r.value.endpoint, r.value.query)
  {
    if KEY !in consumer || KEY !in requestToken then Err(KeyError)
    else
      var common := CommonArgs(consumer[KEY], now, uuid);
      var args := common[OAUTH_TOKEN := requestToken[KEY]];
      CommonArgsShape(consumer[KEY], now, uuid);
      HasCommonArgsFrame(common, args, consumer[KEY], now, uuid);
      assert args.Keys + {OAUTH_SIGNATURE} == COMMON_NAMES + {OAUTH_TOKEN, OAUTH_SIGNATURE} by {
        assert args.Keys == common.Keys + {OAUTH_TOKEN};
      }
      assert Truthy(Some(requestToken));
      var r := Signed(p, consumer, FRIENDFEED_OAUTH_BASE + Ascii("/access_token"), args, Some(requestToken));
      if r.Ok? then HasCommonArgsFrame(args, r.value.query, consumer[KEY], now, uuid); r else r
  }

  /**
   * `get_installed_app_access_token_url(consumer_token, username, password)`:
   * the credentials are signed arguments; no token, key `secret&`.
   */
  function GetInstalledAppAccessTokenUrl(p: Primitives, consumer: Dict, username: Bytes, password: Bytes,
                                         now: real, uuid: Uuid): (r: Result<Url, PyError>)
    ensures r.Err? <==> !IsToken(consumer)
    ensures r.Ok? ==> r.value.endpoint == FRIENDFEED_OAUTH_BASE + Ascii("/ia_access_token")
    ensures r.Ok? ==> r.value.query.Keys == COMMON_NAMES + {FF_USERNAME, FF_PASSWORD, OAUTH_SIGNATURE}
    ensures r.Ok? ==> HasCommonArgs(r.value.query, consumer[KEY], now, uuid)
    ensures r.Ok? ==> r.value.query[FF_USERNAME] == username && r.value.query[FF_PASSWORD] == password
    ensures r.Ok? ==> SignatureVerifies(p, consumer[SECRET], [], GET, r.value.endpoint, r.value.query)
  {
    if KEY !in consumer then Err(KeyError)
    else
      var common := CommonArgs(consumer[KEY], now, uuid);
      var args := common[FF_USERNAME := username][FF_PASSWORD := password];
      CommonArgsShape(consumer[KEY], now, uuid);
      HasCommonArgsFrame(common, args, consumer[KEY], now, uuid);
      assert args.Keys + {OAUTH_SIGNATURE} == COMMON_NAMES + {FF_USERNAME, FF_PASSWORD, OAUTH_SIGNATURE} by {
        assert args.Keys == common.Keys + {FF_USERNAME} + {FF_PASSWORD};
      }
      var r := Signed(p, consumer, FRIENDFEED_OAUTH_BASE + Ascii("/ia_access_token"), args, None);
      if r.Ok? then HasCommonArgsFrame(args, r.value.query, consumer[KEY], now, uuid); r else r
  }

  // ---------------------------------------------------------------------
  // Resource requests

  const RESOURCE_NAMES: set<Bytes> := COMMON_NAMES + {OAUTH_TOKEN, OAUTH_SIGNATURE}

  /** The six `oauth_*` arguments of a resource request before it is signed. */
  function ResourceBaseArgs(consumerKey: Bytes, accessKey: Bytes, now: real, uuid: Uuid): Dict
  {
    CommonArgs(consumerKey, now, uuid)[OAUTH_TOKEN := accessKey]
  }

  lemma ResourceBaseArgsShape(consumerKey: Bytes, accessKey: Bytes, now: real, uuid: Uuid)
    ensures var base := ResourceBaseArgs(consumerKey, accessKey, now, uuid);
      && base.Keys == COMMON_NAMES + {OAUTH_TOKEN}
      && base.Keys + {OAUTH_SIGNATURE} == RESOURCE_NAMES
      && OAUTH_SIGNATURE !in base
      && HasCommonArgs(base, consumerKey, now, uuid)
      && base[OAUTH_TOKEN] == accessKey
  {
    var common := CommonArgs(consumerKey, now, uuid);
    CommonArgsShape(consumerKey, now, uuid);
    HasCommonArgsFrame(common, common[OAUTH_TOKEN := accessKey], consumerKey, now, uuid);
    assert common[OAUTH_TOKEN := accessKey].Keys == COMMON_NAMES + {OAUTH_TOKEN};
  }

  /**
   * `get_oauth_resource_request_parameters(url, consumer_token, access_token,
   * parameters, method)`: signs the base arguments overridden by the caller's
   * parameters, and returns only the seven `oauth_*` arguments.
   */
  method GetOAuthResourceRequestParameters(p: Primitives, url: Bytes, consumer: Dict, access: Dict,
                                           parameters: Dict, httpMethod: Bytes, now: real, uuid: Uuid)
    returns (r: Result<Dict, PyError>)
    ensures r.Err? <==> !IsToken(consumer) || !IsToken(access)
    ensures r.Ok? ==> r.value.Keys == RESOURCE_NAMES
    ensures r.Ok? ==> HasCommonArgs(r.value, consumer[KEY], now, uuid) && r.value[OAUTH_TOKEN] == access[KEY]
    ensures r.Ok? ==> r.value[OAUTH_SIGNATURE] == p.base64Encode(p.hmacSha1(
      consumer[SECRET] + [AMP] + access[SECRET],
      BaseString(httpMethod, url, ResourceBaseArgs(consumer[KEY], access[KEY], now, uuid) + parameters)))
  {
    if KEY !in consumer || KEY !in access {
      return Err(KeyError);
    }
    var baseArgs := ResourceBaseArgs(consumer[KEY], access[KEY], now, uuid);
    ResourceBaseArgsShape(consumer[KEY], access[KEY], now, uuid);
    var args: Dict := map[];
    UpdateEmpty(baseArgs);
    args := args + baseArgs;
    args := args + parameters;
    assert Truthy(Some(access));
    var signature := OAuthSignature(p, consumer, httpMethod, url, args, Some(access));
    if signature.Err? {
      return Err(signature.error);
    }
    var signed := baseArgs[OAUTH_SIGNATURE := signature.value];
    SignedResourceArgs(consumer[KEY], access[KEY], now, uuid, signature.value);
    r := Ok(signed);
  }

  /** The base arguments with the signature added hold the seven `oauth_*` names. */
  lemma SignedResourceArgs(consumerKey: Bytes, accessKey: Bytes, now: real, uuid: Uuid, signature: Bytes)
    ensures var signed := ResourceBaseArgs(consumerKey, accessKey, now, uuid)[OAUTH_SIGNATURE := signature];
      && signed.Keys == RESOURCE_NAMES
      && HasCommonArgs(signed, consumerKey, now, uuid)
      && signed[OAUTH_TOKEN] == accessKey && signed[OAUTH_SIGNATURE] == signature
  {
    var base := ResourceBaseArgs(consumerKey, accessKey, now, uuid);
    var signed := base[OAUTH_SIGNATURE := signature];
    ResourceBaseArgsShape(consumerKey, accessKey, now, uuid);
    CommonArgsShape(consumerKey, now, uuid);
    assert forall k :: k in COMMON_NAMES ==> k in signed && signed[k] == base[k];
    HasCommonArgsFrame(base, signed, consumerKey, now, uuid);
    KeysOfUpdate(base, OAUTH_SIGNATURE, signature);
  }

  /**
   * When the caller's parameters use no `oauth_*` name, the provider, which
   * receives them together with the returned arguments, accepts the signature.
   */
  lemma ResourceSignatureVerifies(p: Primitives, url: Bytes, consumer: Dict, access: Dict,
                                  parameters: Dict, httpMethod: Bytes, now: real, uuid: Uuid, oauth: Dict)
    requires IsToken(consumer) && IsToken(access)
    requires parameters.Keys !! RESOURCE_NAMES
    requires oauth.Keys == RESOURCE_NAMES
    requires HasCommonArgs(oauth, consumer[KEY], now, uuid) && oauth[OAUTH_TOKEN] == access[KEY]
    requires oauth[OAUTH_SIGNATURE] == p.base64Encode(p.hmacSha1(
      consumer[SECRET] + [AMP] + access[SECRET],
      BaseString(httpMethod, url, ResourceBaseArgs(consumer[KEY], access[KEY], now, uuid) + parameters)))
    ensures SignatureVerifies(p, consumer[SECRET], access[SECRET], httpMethod, url, parameters + oauth)
  {
    var base := ResourceBaseArgs(consumer[KEY], access[KEY], now, uuid);
    ResourceBaseArgsShape(consumer[KEY], access[KEY], now, uuid);
    ReceivedAgreesWithBase(consumer[KEY], access[KEY], now, uuid, oauth);
    ReceivedWithoutSignature(base, parameters, oauth);
    var received := parameters + oauth;
    assert received[OAUTH_SIGNATURE] == oauth[OAUTH_SIGNATURE];
  }

  /** Returned `oauth_*` arguments agree with the base arguments on every name of those. */
  lemma ReceivedAgreesWithBase(consumerKey: Bytes, accessKey: Bytes, now: real, uuid: Uuid, oauth: Dict)
    requires HasCommonArgs(oauth, consumerKey, now, uuid)
    requires OAUTH_TOKEN in oauth && oauth[OAUTH_TOKEN] == accessKey
    ensures var base := ResourceBaseArgs(consumerKey, accessKey, now, uuid);
      forall k :: k in base ==> k in oauth && oauth[k] == base[k]
  {
    var base := ResourceBaseArgs(consumerKey, accessKey, now, uuid);
    ResourceBaseArgsShape(consumerKey, accessKey, now, uuid);
    assert base.Keys == COMMON_NAMES + {OAUTH_TOKEN};
  }

  /** What the provider receives, less the signature, is what was signed. */
  lemma ReceivedWithoutSignature(base: Dict, parameters: Dict, oauth: Dict)
    requires base.Keys + {OAUTH_SIGNATURE} == RESOURCE_NAMES && OAUTH_SIGNATURE !in base
    requires parameters.Keys !! RESOURCE_NAMES
    requires oauth.Keys == RESOURCE_NAMES
    requires forall k :: k in base ==> oauth[k] == base[k]
    ensures (parameters + oauth) - {OAUTH_SIGNATURE} == base + parameters
  {
    var rest := (parameters + oauth) - {OAUTH_SIGNATURE};
    forall k
      ensures k in rest <==> k in base + parameters
      ensures k in rest ==> rest[k] == (base + parameters)[k]
    {
      if k in parameters {
        assert k !in RESOURCE_NAMES;
      }
    }
  }

  // ---------------------------------------------------------------------
  // The provider's token response

  /** `cgi.parse_qs(body, keep_blank_values=False)`: every present name has at least one value. */
  type QueryDict = m: map<Bytes, seq<Bytes>> | forall k :: k in m ==> |m[k]| > 0 witness map[]

  const SPECIAL: set<Bytes> := {OAUTH_TOKEN, OAUTH_TOKEN_SECRET}

  /**
   * `_oauth_parse_response(body)` on the parsed query: "key" and "secret"
   * from the first `oauth_token` and `oauth_token_secret` values, then every
   * other name's first value, which overrides "key" or "secret" when the
   * provider sends a field of that name. KeyError when either is missing.
   */
  method OAuthParseResponse(p: QueryDict) returns (r: Result<Dict, PyError>)
    ensures r.Err? <==> OAUTH_TOKEN !in p || OAUTH_TOKEN_SECRET !in p
    ensures r.Ok? ==> r.value.Keys == (p.Keys - SPECIAL) + {KEY, SECRET}
    ensures r.Ok? ==> forall k :: k in p && k !in SPECIAL ==> r.value[k] == p[k][0]
    ensures r.Ok? && KEY !in p ==> r.value[KEY] == p[OAUTH_TOKEN][0]
    ensures r.Ok? && SECRET !in p ==> r.value[SECRET] == p[OAUTH_TOKEN_SECRET][0]
  {
    if OAUTH_TOKEN !in p || OAUTH_TOKEN_SECRET !in p {
      return Err(KeyError);
    }
    var token: Dict := map[KEY := p[OAUTH_TOKEN][0], SECRET := p[OAUTH_TOKEN_SECRET][0]];
    var todo := p.Keys;
    while todo != {}
      invariant todo <= p.Keys
      invariant token.Keys == ((p.Keys - todo) - SPECIAL) + {KEY, SECRET}
      invariant forall k :: k in p && k !in todo && k !in SPECIAL ==> token[k] == p[k][0]
      invariant KEY !in p || KEY in todo ==> token[KEY] == p[OAUTH_TOKEN][0]
      invariant SECRET !in p || SECRET in todo ==> token[SECRET] == p[OAUTH_TOKEN_SECRET][0]
      decreases |todo|
    {
      var k :| k in todo;
      if k !in SPECIAL {
        token := token[k := p[k][0]];
      }
      todo := todo - {k};
    }
    r := Ok(token);
  }
}
