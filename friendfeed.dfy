/**
 * The FriendFeed API session of the client library: the `FriendFeed` object
 * with its two OAuth tokens, the `_authenticated` guard, the request `fetch`
 * builds (URL, method, body and, with credentials, the signed `oauth_*`
 * arguments) and `_parse_dates`, which rewrites every "date" field of the
 * parsed JSON response.
 *
 * The network round trip and the JSON decoder are left out: `Fetch` returns
 * the request it would send, and `ParseDates` takes the decoded document.
 */
module FriendFeed {
  import opened Wrappers
  import opened Bytes
  import opened Primitives
  import opened OAuth

  // ---------------------------------------------------------------------
  // The parsed JSON response and `_parse_dates`

  /** A `datetime.datetime` as `strptime` returns it. */
  datatype DateTime = DateTime(year: int, month: int, day: int, hour: int, minute: int, second: int)

  /** A decoded JSON document; `JDate` is what `_parse_dates` puts under a "date" key. */
  datatype Json =
    | JNull
    | JBool(b: bool)
    | JNumber(n: real)
    | JString(s: string)
    | JArray(items: seq<Json>)
    | JObject(fields: map<string, Json>)
    | JDate(date: DateTime)

  /**
   * `datetime.datetime.strptime(s, "%Y-%m-%dT%H:%M:%SZ")` on a string:
   * `None` where it raises ValueError.
   */
  type Strptime = string -> Option<DateTime>

  const DATE: string := "date"

  /**
   * The new value of a "date" field: the parsed time of a string, `None`
   * (strptime raises: ValueError for a malformed string, TypeError for any
   * other JSON value) otherwise.
   */
  function ParsedDate(strptime: Strptime, v: Json): (r: Option<Json>)
    ensures r.Some? <==> v.JString? && strptime(v.s).Some?
    ensures r.Some? ==> r.value == JDate(strptime(v.s).value)
  {
    if v.JString? then
      match strptime(v.s)
      case Some(d) => Some(JDate(d))
      case None => None
    else None
  }

  /** `_parse_dates(obj)` as a value: `None` when some reachable strptime raises. */
  function DatesParsed(strptime: Strptime, j: Json): Option<Json>
    decreases j, 0
  {
    match j
    case JObject(fields) =>
      if forall name :: name in fields ==> FieldParsed(strptime, name, fields[name]).Some? then
        Some(JObject(map name | name in fields :: FieldParsed(strptime, name, fields[name]).value))
      else None
    case JArray(items) =>
      if forall i :: 0 <= i < |items| ==> DatesParsed(strptime, items[i]).Some? then
        Some(JArray(seq(|items|, i requires 0 <= i < |items| => DatesParsed(strptime, items[i]).value)))
      else None
    case _ => Some(j)
  }

  /** A "date" value is converted, and not descended into; any other value is walked. */
  function FieldParsed(strptime: Strptime, name: string, v: Json): Option<Json>
    decreases v, 1
  {
    if name == DATE then ParsedDate(strptime, v) else DatesParsed(strptime, v)
  }

  /**
   * `_parse_dates(obj)`: for a dict, overwrites each "date" value with its
   * parsed time and recurses into every other value; for a list, recurses
   * into each element; any other value comes back as it is.
   */
  method ParseDates(strptime: Strptime, obj: Json) returns (r: Option<Json>)
    ensures r == DatesParsed(strptime, obj)
    decreases obj, 0
  {
    match obj
    case JObject(fields) =>
      var names := fields.Keys;
      var current := fields;
      while names != {}
        invariant names <= fields.Keys
        invariant current.Keys == fields.Keys
        invariant forall name :: name in names ==> current[name] == fields[name]
        invariant forall name :: name in fields && name !in names ==>
          FieldParsed(strptime, name, fields[name]) == Some(current[name])
        decreases |names|
      {
        var name :| name in names;
        var value := current[name];
        assert value == fields[name];
        var parsed: Option<Json>;
        if name == DATE {
          parsed := ParsedDate(strptime, value);
        } else {
          parsed := ParseDates(strptime, value);
        }
        if parsed.None? {
          assert FieldParsed(strptime, name, fields[name]).None?;
          return None;
        }
        current := current[name := parsed.value];
        names := names - {name};
      }
      assert current == map name | name in fields :: FieldParsed(strptime, name, fields[name]).value;
      return Some(JObject(current));
    case JArray(items) =>
      var current := items;
      var i := 0;
      while i < |items|
        invariant 0 <= i <= |items| && |current| == |items|
        invariant forall j :: i <= j < |items| ==> current[j] == items[j]
        invariant forall j :: 0 <= j < i ==> DatesParsed(strptime, items[j]) == Some(current[j])
      {
        var parsed := ParseDates(strptime, current[i]);
        if parsed.None? {
          return None;
        }
        current := current[i := parsed.value];
        i := i + 1;
      }
      assert current == seq(|items|, j requires 0 <= j < |items| => DatesParsed(strptime, items[j]).value);
      return Some(JArray(current));
    case _ =>
      return Some(obj);
  }

  /**
   * `after` is `before` with every reachable "date" value replaced by its
   * parsed time: same keys, same list lengths, every other scalar unchanged.
   */
  predicate Rewritten(strptime: Strptime, before: Json, after: Json)
    decreases before
  {
    match before
    case JObject(fields) =>
      && after.JObject?
      && after.fields.Keys == fields.Keys
      && forall name :: name in fields ==>
           if name == DATE then
             fields[name].JString? && after.fields[name].JDate? && strptime(fields[name].s) == Some(after.fields[name].date)
           else Rewritten(strptime, fields[name], after.fields[name])
    case JArray(items) =>
      && after.JArray?
      && |after.items| == |items|
      && forall i :: 0 <= i < |items| ==> Rewritten(strptime, items[i], after.items[i])
    case _ => after == before
  }

  /** Some "date" field reachable through dicts and lists holds no parseable time string. */
  predicate HasBadDate(strptime: Strptime, j: Json)
    decreases j
  {
    match j
    case JObject(fields) =>
      exists name :: name in fields &&
        if name == DATE then !(fields[name].JString? && strptime(fields[name].s).Some?)
        else HasBadDate(strptime, fields[name])
    case JArray(items) => exists i :: 0 <= i < |items| && HasBadDate(strptime, items[i])
    case _ => false
  }

  /**
   * `_parse_dates` raises exactly when some reachable "date" value does not
   * parse, and otherwise rewrites only the "date" values.
   */
  lemma {:induction false} DatesParsedSpec(strptime: Strptime, j: Json)
    ensures DatesParsed(strptime, j).None? <==> HasBadDate(strptime, j)
    ensures DatesParsed(strptime, j).Some? ==> Rewritten(strptime, j, DatesParsed(strptime, j).value)
    decreases j
  {
    match j
    case JObject(fields) =>
      forall name | name in fields && name != DATE
        ensures DatesParsed(strptime, fields[name]).None? <==> HasBadDate(strptime, fields[name])
        ensures DatesParsed(strptime, fields[name]).Some? ==>
          Rewritten(strptime, fields[name], DatesParsed(strptime, fields[name]).value)
      {
        DatesParsedSpec(strptime, fields[name]);
      }
    case JArray(items) =>
      forall i | 0 <= i < |items|
        ensures DatesParsed(strptime, items[i]).None? <==> HasBadDate(strptime, items[i])
        ensures DatesParsed(strptime, items[i]).Some? ==>
          Rewritten(strptime, items[i], DatesParsed(strptime, items[i]).value)
      {
        DatesParsedSpec(strptime, items[i]);
      }
    case _ =>
  }

  /** No dict in the document has a "date" key. */
  predicate NoDateKeys(j: Json)
    decreases j
  {
    match j
    case JObject(fields) => DATE !in fields && forall name :: name in fields ==> NoDateKeys(fields[name])
    case JArray(items) => forall i :: 0 <= i < |items| ==> NoDateKeys(items[i])
    case _ => true
  }

  /** A document without "date" keys comes back unchanged, whatever strptime does. */
  lemma {:induction false} NoDatesUnchanged(strptime: Strptime, j: Json)
    requires NoDateKeys(j)
    ensures DatesParsed(strptime, j) == Some(j)
    decreases j
  {
    match j
    case JObject(fields) =>
      forall name | name in fields
        ensures FieldParsed(strptime, name, fields[name]) == Some(fields[name])
      {
        NoDatesUnchanged(strptime, fields[name]);
      }
      assert (map name | name in fields :: FieldParsed(strptime, name, fields[name]).value) == fields;
    case JArray(items) =>
      forall i | 0 <= i < |items|
        ensures DatesParsed(strptime, items[i]) == Some(items[i])
      {
        NoDatesUnchanged(strptime, items[i]);
      }
      assert seq(|items|, i requires 0 <= i < |items| => DatesParsed(strptime, items[i]).value) == items;
    case _ =>
  }

  /**
   * `{"date": "2009-01-02T03:04:05Z", "other": {"date": "2010-01-01T00:00:00Z"}}`:
   * the "date" field at the top and the one nested under "other" are both converted.
   */
  lemma NestedDatesExample(strptime: Strptime, d1: DateTime, d2: DateTime)
    requires strptime("2009-01-02T03:04:05Z") == Some(d1)
    requires strptime("2010-01-01T00:00:00Z") == Some(d2)
    ensures DatesParsed(strptime, JObject(map[DATE := JString("2009-01-02T03:04:05Z"),
                                             "other" := JObject(map[DATE := JString("2010-01-01T00:00:00Z")])]))
         == Some(JObject(map[DATE := JDate(d1), "other" := JObject(map[DATE := JDate(d2)])]))
  {
    var inner := map[DATE := JString("2010-01-01T00:00:00Z")];
    var outer := map[DATE := JString("2009-01-02T03:04:05Z"), "other" := JObject(inner)];
    var innerOut := map[DATE := JDate(d2)];
    var outerOut := map[DATE := JDate(d1), "other" := JObject(innerOut)];
    assert DATE != "other" by { assert DATE[0] != "other"[0]; }
    ObjectParsed(strptime, inner, innerOut);
    assert FieldParsed(strptime, "other", JObject(inner)) == Some(JObject(innerOut));
    ObjectParsed(strptime, outer, outerOut);
  }

  /** A dict whose every field parses to the value in `out` becomes `out`. */
  lemma ObjectParsed(strptime: Strptime, fields: map<string, Json>, out: map<string, Json>)
    requires fields.Keys == out.Keys
    requires forall name :: name in fields ==> FieldParsed(strptime, name, fields[name]) == Some(out[name])
    ensures DatesParsed(strptime, JObject(fields)) == Some(JObject(out))
  {
    assert (map name | name in fields :: FieldParsed(strptime, name, fields[name]).value) == out;
  }

  // ---------------------------------------------------------------------
  // The session object

  /** The request `fetch` hands to `urllib2`; `query` is `None` when no `?` is appended. */
  datatype Request = Request(httpMethod: Bytes, endpoint: Bytes, query: Option<Dict>, body: Option<Dict>)

  /** What the `_authenticated` decorator raises: `Exception("OAuth required for this method")`. */
  datatype GuardError = OAuthRequired

  /** `post_args or {}` */
  function PostArgs(postArgs: Option<Dict>): Dict
  {
    if postArgs.Some? then postArgs.value else map[]
  }

  class FriendFeed {
    var consumerToken: Option<Dict>
    var accessToken: Option<Dict>

    /** `FriendFeed(oauth_consumer_token=None, oauth_access_token=None)` */
    constructor(oauthConsumerToken: Option<Dict>, oauthAccessToken: Option<Dict>)
      ensures consumerToken == oauthConsumerToken && accessToken == oauthAccessToken
    {
      consumerToken := oauthConsumerToken;
      accessToken := oauthAccessToken;
    }

    /** `set_oauth(consumer_token, access_token)` */
    method SetOAuth(consumer: Option<Dict>, access: Option<Dict>)
      modifies this
      ensures consumerToken == consumer && accessToken == access
    {
      consumerToken := consumer;
      accessToken := access;
    }

    /** `self.consumer_token and self.access_token` */
    predicate HasOAuth()
      reads this
    {
      Truthy(consumerToken) && Truthy(accessToken)
    }

    /**
     * A method wrapped by `_authenticated`: its outcome when both tokens are
     * truthy, the "OAuth required" exception otherwise.
     */
    function Authenticated<T>(outcome: T): (r: Result<T, GuardError>)
      reads this
      ensures r.Ok? <==> Truthy(consumerToken) && Truthy(accessToken)
      ensures r.Ok? ==> r.value == outcome
    {
      if !Truthy(consumerToken) || !Truthy(accessToken) then Err(OAuthRequired) else Ok(outcome)
    }

    /**
     * `fetch(path, post_args, **args)` up to the request: signs when both
     * tokens are truthy, over the query arguments overridden by the POST
     * arguments; POST exactly when `post_args is not None`; a query string
     * only when the final arguments are non-empty.
     */
    method Fetch(p: Primitives, path: Bytes, postArgs: Option<Dict>, args: Dict, now: real, uuid: Uuid)
      returns (r: Result<Request, PyError>)
      ensures r.Err? <==> HasOAuth() && (!IsToken(consumerToken.value) || !IsToken(accessToken.value))
      ensures r.Ok? ==> r.value.endpoint == FRIENDFEED_API_BASE + path
      ensures r.Ok? ==> r.value.body == postArgs
      ensures r.Ok? ==> r.value.httpMethod == if postArgs.Some? then POST else GET
      ensures r.Ok? && !HasOAuth() ==> r.value.query == if args == map[] then None else Some(args)
      ensures r.Ok? && HasOAuth() ==> r.value.query.Some? && r.value.query.value.Keys == args.Keys + RESOURCE_NAMES
      ensures r.Ok? && HasOAuth() ==> forall k :: k in args && k !in RESOURCE_NAMES ==> r.value.query.value[k] == args[k]
      ensures r.Ok? && HasOAuth() ==>
        var consumer, access := consumerToken.value, accessToken.value;
        && HasCommonArgs(r.value.query.value, consumer[KEY], now, uuid)
        && r.value.query.value[OAUTH_TOKEN] == access[KEY]
        && r.value.query.value[OAUTH_SIGNATURE] == p.base64Encode(p.hmacSha1(
             consumer[SECRET] + [AMP] + access[SECRET],
             BaseString(r.value.httpMethod, r.value.endpoint,
                        ResourceBaseArgs(consumer[KEY], access[KEY], now, uuid) + (args + PostArgs(postArgs)))))
    {
      var url := FRIENDFEED_API_BASE + path;
      var httpMethod := if postArgs.Some? then POST else GET;
      var query := args;
      if HasOAuth() {
        var allArgs: Dict := map[];
        UpdateEmpty(args);
        allArgs := allArgs + args;
        allArgs := allArgs + PostArgs(postArgs);
        var oauth := GetOAuthResourceRequestParameters(p, url, consumerToken.value, accessToken.value,
                                                       allArgs, httpMethod, now, uuid);
        if oauth.Err? {
          return Err(oauth.error);
        }
        SignedQuery(args, oauth.value, consumerToken.value[KEY], accessToken.value[KEY], now, uuid);
        query := query + oauth.value;
      }
      r := Ok(Request(httpMethod, url, if query == map[] then None else Some(query), postArgs));
    }
  }

  /** `args.update(oauth)`: the caller's arguments with the seven `oauth_*` ones on top. */
  lemma SignedQuery(args: Dict, oauth: Dict, consumerKey: Bytes, accessKey: Bytes, now: real, uuid: Uuid)
    requires oauth.Keys == RESOURCE_NAMES
    requires HasCommonArgs(oauth, consumerKey, now, uuid) && oauth[OAUTH_TOKEN] == accessKey
    ensures (args + oauth).Keys == args.Keys + RESOURCE_NAMES
    ensures forall k :: k in args && k !in RESOURCE_NAMES ==> (args + oauth)[k] == args[k]
    ensures HasCommonArgs(args + oauth, consumerKey, now, uuid)
    ensures (args + oauth)[OAUTH_TOKEN] == accessKey
    ensures (args + oauth)[OAUTH_SIGNATURE] == oauth[OAUTH_SIGNATURE]
  {
    HasCommonArgsFrame(oauth, args + oauth, consumerKey, now, uuid);
  }

  /** The `oauth_*` arguments of a query, taken back out of it. */
  lemma OAuthPart(args: Dict, q: Dict, consumerKey: Bytes, accessKey: Bytes, now: real, uuid: Uuid)
      returns (oauth: Dict)
    requires q.Keys == args.Keys + RESOURCE_NAMES
    requires HasCommonArgs(q, consumerKey, now, uuid) && q[OAUTH_TOKEN] == accessKey
    requires forall k :: k in args ==> q[k] == args[k]
    requires args.Keys !! RESOURCE_NAMES
    ensures oauth.Keys == RESOURCE_NAMES
    ensures HasCommonArgs(oauth, consumerKey, now, uuid) && oauth[OAUTH_TOKEN] == accessKey
    ensures oauth[OAUTH_SIGNATURE] == q[OAUTH_SIGNATURE]
    ensures q == args + oauth
  {
    oauth := map k | k in RESOURCE_NAMES :: q[k];
    assert OAUTH_TOKEN in RESOURCE_NAMES && OAUTH_SIGNATURE in RESOURCE_NAMES;
    HasCommonArgsFrame(q, oauth, consumerKey, now, uuid);
  }

  lemma MergeDisjoint(args: Dict, post: Dict, oauth: Dict)
    requires args.Keys !! post.Keys && post.Keys !! oauth.Keys
    ensures (args + oauth) + post == (args + post) + oauth
  {
  }

  /**
   * With query and POST arguments that share no name with each other or
   * with the `oauth_*` arguments, the provider, receiving the query string
   * and the POST body, accepts the signature `fetch` computed.
   */
  lemma FetchSignatureVerifies(p: Primitives, consumer: Dict, access: Dict, args: Dict, postArgs: Option<Dict>,
                               request: Request, now: real, uuid: Uuid)
    requires IsToken(consumer) && IsToken(access)
    requires args.Keys !! PostArgs(postArgs).Keys
    requires args.Keys !! RESOURCE_NAMES && PostArgs(postArgs).Keys !! RESOURCE_NAMES
    requires request.query.Some? && request.query.value.Keys == args.Keys + RESOURCE_NAMES
    requires forall k :: k in args ==> request.query.value[k] == args[k]
    requires HasCommonArgs(request.query.value, consumer[KEY], now, uuid)
    requires request.query.value[OAUTH_TOKEN] == access[KEY]
    requires request.query.value[OAUTH_SIGNATURE] == p.base64Encode(p.hmacSha1(
      consumer[SECRET] + [AMP] + access[SECRET],
      BaseString(request.httpMethod, request.endpoint,
                 ResourceBaseArgs(consumer[KEY], access[KEY], now, uuid) + (args + PostArgs(postArgs)))))
    ensures SignatureVerifies(p, consumer[SECRET], access[SECRET], request.httpMethod, request.endpoint,
                              request.query.value + PostArgs(postArgs))
  {
    var q := request.query.value;
    var post := PostArgs(postArgs);
    var oauth := OAuthPart(args, q, consumer[KEY], access[KEY], now, uuid);
    ResourceSignatureVerifies(p, request.endpoint, consumer, access, args + post, request.httpMethod, now, uuid, oauth);
    MergeDisjoint(args, post, oauth);
  }
}
