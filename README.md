# FriendFeed SMS gateway: OAuth signer, signed cookies and date parsing

This project is a Dafny model of three parts of a small FriendFeed SMS web application. Each operation is proved against a reference definition, an inverse or an invariant.

- **The FriendFeed client library.** `tvsms.py` holds OAuth 1.0 request signing as described in section 9 of OAuth Core 1.0, which is section 3.4.1 of RFC 5849. The model covers:
  - percent-encoding as in section 3.6 of RFC 5849;
  - URL normalisation through `urlparse`;
  - the sorted parameter string and the three-part signature base string;
  - the HMAC key built from the consumer and token secrets;
  - the four token URLs and the resource-request parameters;
  - the token response parser;
  - the `FriendFeed` session object: its token fields, its `_authenticated` guard, the argument merging and method choice of `fetch`, and its `date` rewriting walk over a parsed JSON tree.
- **The web application.** `application.py` holds an expiring cookie codec signed with HMAC. `set_cookie` writes `base64(value)|timestamp|hex HMAC`, and `parse_cookie` checks it. On top of the codec sit the `|`-joined credential payloads of the authorize handler, the callback handler and the `authenticated` guard. The handlers use the codec as written, so an exception inside `parse_cookie` escapes them as it does in the source; a corrected codec that never raises and signs a delimited message is proved beside it.
- **The browser script.** `tvsms.js` holds the RFC 3339 date parser `rfc3339ToDate` and the display formatter `formatFriendFeedDate` with its helper `pad`.
  - The regular expression is modelled as a matcher that backtracks group by group.
  - `Date.UTC` and the `getDate`/`getMonth`/`getHours`/`getMinutes` getters follow the time functions of section 15.9.1 of ECMA-262 5.1, computed exactly on integers.

## How the model represents the environment

- A Python 2 `str` is a byte sequence (`Bytes.Bytes`, written with `Ascii("...")`), and a dict is a `map`.
- JavaScript strings and the strings of the parsed JSON tree are Dafny `string`s.
- HMAC-SHA1, base64 encoding and base64 decoding are uninterpreted function values inside a `Primitives.Primitives` record. `Primitives.Valid` states only two things about them: base64 decoding undoes encoding, and the encoded text uses the base64 alphabet. Hex digests are modelled exactly.
- The clock `time.time()` is a `real` parameter. `str(int(now))` truncates toward zero.
- The `uuid4()` nonce bytes are a parameter.
- `datetime.strptime` is a parameter, as are the provider round trips inside the handlers.
- `urllib.urlencode` is opaque. A URL builder returns its endpoint and the argument map it would encode.
- The dict that `cgi.parse_qs` produces is a map from each key to a non-empty list of values.

## Model

| member | source | states |
|---|---|---|
| Bytes.Ascii | tvsms.py:153 | every byte literal has the length and the code units of its text |
| Bytes.Count | application.py:150 | the count of a byte is at most the length, and zero exactly when the byte is absent |
| Bytes.CountAppend | tvsms.py:315 | counting distributes over concatenation |
| Bytes.Lower | tvsms.py:308 | `str.lower` maps every byte through ASCII lower-casing and keeps the length |
| Bytes.Upper | tvsms.py:311 | `str.upper` maps every byte through ASCII upper-casing and keeps the length |
| Bytes.Split | application.py:150 | `str.split(sep)` always yields at least one piece |
| Bytes.SplitPieceCount | application.py:150-151 | splitting gives one more piece than there are separators |
| Bytes.SplitWithout | application.py:50 | text without the separator splits into itself alone |
| Bytes.SplitAfterPiece | application.py:102 | a separator-free piece followed by the separator splits off as the first piece |
| Bytes.SplitJoin | application.py:115 | splitting a join of separator-free pieces gives back exactly those pieces |
| Bytes.JoinThree | application.py:138 | a three-part join is the parts with the separator between each pair |
| Bytes.SplitJoinThree | application.py:138-150 | a three-part cookie splits back into its three parts |
| Bytes.CountJoinThree | tvsms.py:315 | a three-part join of separator-free parts holds exactly two separators |
| Bytes.StripLeft | application.py:160 | the result does not start with whitespace |
| Bytes.StripRight | application.py:160 | the result does not end with whitespace |
| Bytes.StripTrimmed | application.py:160 | `strip` leaves text alone that neither starts nor ends with whitespace |
| Bytes.Digits | application.py:134 | the decimal text of a natural number is non-empty and all digits |
| Bytes.IntToStr | application.py:134 | `str(int)` is non-empty digits with an optional minus sign |
| Bytes.Trunc | application.py:134 | `int(x)` is within one of `x`, rounds toward zero, and is non-negative for non-negative `x` |
| Bytes.DigitsValueOfDigits | application.py:134-155 | reading back the decimal text of `n` gives `n` |
| Bytes.DigitsValueAppend | application.py:155 | the value of concatenated digit strings is the first scaled by a power of ten plus the second |
| Bytes.ParseIntOfDigits | application.py:155 | `int()` of a digit string is its decimal value |
| Bytes.SignThenSpaces | application.py:155 | Python 2 `int()` accepts whitespace between the sign and the digits: `int("- 5") == -5` |
| Bytes.ParseIntOfIntToStr | application.py:134-155 | `int(str(i)) == i` for every integer |
| Bytes.HexLower | application.py:173 | `hexdigest` has twice the length and only lower-case hex digits |
| Bytes.BelowIrreflexive | tvsms.py:314 | the byte-string order `sorted` uses is irreflexive |
| Bytes.BelowTrichotomy | tvsms.py:314 | it is total and asymmetric |
| Bytes.BelowTransitive | tvsms.py:314 | it is transitive |
| Bytes.LeastExists | tvsms.py:314 | every non-empty key set has a least key |
| Bytes.LeastUnique | tvsms.py:314 | the least key is unique |
| Bytes.SortedKeys | tvsms.py:314 | `sorted(keys)` lists exactly the keys, each once, in strictly ascending order |
| Bytes.AscendingHeadIsLeast | tvsms.py:314 | the head of an ascending listing of a set is its least element |
| Bytes.AscendingTail | tvsms.py:314 | the tail of an ascending listing lists the rest of the set, still ascending |
| Bytes.SortedKeysUnique | tvsms.py:314 | any strictly ascending listing of a key set equals `SortedKeys`, so the order does not depend on insertion |
| Primitives.HmacHexDigest | application.py:171-173 | the digest text holds only lower-case hex digits |
| UrlParse.Find | tvsms.py:306 | `str.find` returns the first occurrence; where `str.find` returns -1 the model returns the length, and every caller treats the two alike |
| UrlParse.RFind | tvsms.py:306 | `str.rfind` returns the last occurrence |
| UrlParse.UrlSplitOfScheme | tvsms.py:306 | a leading `scheme:` not followed by a digit is taken off and lower-cased |
| UrlParse.SplitRestOfAuthority | tvsms.py:306-307 | after `//`, the network location and the path are split out as written |
| UrlParse.UrlParseOfAbsolute | tvsms.py:306-307 | `urlparse` of `scheme://netloc/path?query#fragment` gives the lower-cased scheme, the netloc and the path |
| UrlParse.NetlocEnd | tvsms.py:306-307 | the network location ends at the first `/`, `?` or `#` |
| UrlParse.PathEnd | tvsms.py:306-307 | the path ends at the first `?` or `#` |
| OAuth.Escape | tvsms.py:325-328 | the escaped text holds only unreserved bytes and `%`, and is no shorter |
| OAuth.UnescapeAfterEscapedByte | tvsms.py:325-328 | unescaping undoes the encoding of one byte |
| OAuth.UnescapeEscape | tvsms.py:325-328 | unescaping inverts escaping, so escaping is injective |
| OAuth.EscapeAppend | tvsms.py:325-328 | escaping works byte by byte, so it distributes over concatenation |
| OAuth.EscapeUnreserved | tvsms.py:328 | letters, digits, `_`, `.`, `-` and `~` pass through unchanged |
| OAuth.EscapeOmits | tvsms.py:328 | a reserved byte such as `&` never appears in escaped text |
| OAuth.EscapeExample | tvsms.py:328 | `a b/c~d` becomes `a%20b%2Fc~d`: upper-case hex, `~` kept |
| OAuth.NormalizedUrlOfAbsolute | tvsms.py:306-308 | the normalized URL is the lower-cased scheme, `://`, the lower-cased netloc and the path; params, query and fragment are dropped and a port stays in the netloc |
| OAuth.Pairs | tvsms.py:313 | each pair is the unescaped key, `=` and the escaped value |
| OAuth.ParamStringPieces | tvsms.py:313-314 | the parameter string splits into one `key=escape(value)` piece per parameter, in strictly ascending key order |
| OAuth.BuildDictLookup | tvsms.py:313-314 | a dict built from distinct (key, value) items holds exactly those keys with those values |
| OAuth.InsertionOrderIrrelevant | tvsms.py:313-314 | the same items in any insertion order give the same dict and the same parameter string |
| OAuth.BaseStringAmpersands | tvsms.py:310-315 | the base string holds exactly two literal `&` |
| OAuth.BaseStringElements | tvsms.py:310-315 | the base string splits into three pieces that unescape to the upper-cased method, the normalized URL and the parameter string |
| OAuth.BaseStringDetermines | tvsms.py:310-315 | equal base strings have equal methods, normalized URLs and parameter strings |
| OAuth.SignIsBase64OfHmac | tvsms.py:321-322 | the signature is the base64 of the HMAC-SHA1 digest without the trailing newline |
| OAuth.OAuthSignature | tvsms.py:301-322 | fails exactly when the consumer lacks a secret, or a truthy token lacks one; otherwise it signs the base string with `consumer secret & token secret`, or with an empty token secret when the token is falsy |
| OAuth.Nonce | tvsms.py:158 | the nonce is the 32-character hex text of the 16 uuid bytes |
| OAuth.Signed | tvsms.py:161-163 | the signed URL keeps every argument, adds `oauth_signature`, and the signature verifies against the other arguments |
| OAuth.GetOAuthRequestTokenUrl | tvsms.py:148-163 | fails exactly when the consumer token lacks `key` or `secret`; the URL carries the five common `oauth_*` arguments plus the signature and no `oauth_token`, and is signed with an empty token secret |
| OAuth.GetOAuthAuthorizationUrl | tvsms.py:166-178 | fails exactly when `key` is missing; otherwise `/authorize` with `oauth_token` alone |
| OAuth.GetOAuthAuthenticationUrl | tvsms.py:181-193 | fails exactly when `key` is missing; otherwise `/authenticate` with `oauth_token` alone |
| OAuth.GetOAuthAccessTokenUrl | tvsms.py:196-217 | fails exactly when either token is incomplete; adds `oauth_token = request_token["key"]` and signs with the request token's secret |
| OAuth.GetInstalledAppAccessTokenUrl | tvsms.py:220-238 | fails exactly when the consumer token is incomplete; carries `ff_username` and `ff_password`, no `oauth_token`, and is signed with an empty token secret |
| OAuth.ResourceBaseArgsShape | tvsms.py:248-255 | the base arguments are the five common ones plus `oauth_token`, which holds the access key |
| OAuth.GetOAuthResourceRequestParameters | tvsms.py:241-262 | fails exactly when either token is incomplete; otherwise returns exactly the six base keys plus `oauth_signature`, where the signature covers the base arguments overridden by the caller's parameters |
| OAuth.SignedResourceArgs | tvsms.py:261-262 | adding the signature to the base arguments gives exactly the seven resource names |
| OAuth.ResourceSignatureVerifies | tvsms.py:256-262 | after the request merges the caller's parameters with the returned dict, the signature verifies against the rest |
| OAuth.ReceivedAgreesWithBase | tvsms.py:248-255 | the returned dict agrees with the base arguments on every base key |
| OAuth.ReceivedWithoutSignature | tvsms.py:256-261 | the merged request without its signature is exactly the set that was signed |
| OAuth.OAuthParseResponse | tvsms.py:331-338 | fails (KeyError) exactly when `oauth_token` or `oauth_token_secret` is missing; otherwise the keys are `key`, `secret` and every non-special key, each holding its first value, and the two special keys are never copied |
| FriendFeed.ParsedDate | tvsms.py:137-139 | a `date` value is replaced by its `strptime` result, and the walk fails when it is not a string or does not parse |
| FriendFeed.ParseDates | tvsms.py:134-145 | the loop-based walk computes the date rewriting of the tree |
| FriendFeed.DatesParsedSpec | tvsms.py:134-145 | the rewriting fails exactly when some reachable `date` value is bad; otherwise it keeps every key set and scalar, replaces every reachable `date` value, and does not descend into one |
| FriendFeed.NoDatesUnchanged | tvsms.py:134-145 | a tree without `date` keys comes back unchanged |
| FriendFeed.NestedDatesExample | tvsms.py:136-141 | a `date` nested in an inner dict is rewritten too |
| FriendFeed.ObjectParsed | tvsms.py:135-141 | a dict is rewritten field by field |
| FriendFeed.FriendFeed.constructor | tvsms.py:70-85 | a session holds the tokens it was given |
| FriendFeed.FriendFeed.SetOAuth | tvsms.py:87-90 | `set_oauth` replaces both tokens |
| FriendFeed.FriendFeed.Authenticated | tvsms.py:60-66 | the guarded call proceeds exactly when both tokens are truthy, and raises otherwise |
| FriendFeed.FriendFeed.Fetch | tvsms.py:106-128 | signs exactly when both tokens are truthy; uses POST exactly when `post_args` is given, even when empty; the query is absent only for empty unsigned arguments; the signed set is the query arguments overridden by the post arguments |
| FriendFeed.SignedQuery | tvsms.py:122 | `args.update(oauth)` keeps the caller's other arguments and carries every OAuth value |
| FriendFeed.OAuthPart | tvsms.py:122 | a signed query breaks down into the caller's arguments and the OAuth dict |
| FriendFeed.MergeDisjoint | tvsms.py:116-118 | merges of disjoint argument maps commute |
| FriendFeed.FetchSignatureVerifies | tvsms.py:115-128 | the signature of a fetched request verifies against the query and post arguments it sends |
| Cookies.ConcatTwo | application.py:172 | feeding two parts into the hash feeds their concatenation |
| Cookies.ConcatThree | application.py:172 | likewise for three parts |
| Cookies.CookieSignature | application.py:165-173 | the signature is lower-case hex |
| Cookies.ComputeCookieSignature | application.py:171-173 | the loop of `update` calls computes the signature of the concatenated parts |
| Cookies.SignatureOfConcatenation | application.py:172 | the signature depends only on the concatenation of its parts |
| Cookies.SignatureExample | application.py:172 | `("ab", "c")` and `("a", "bc")` get the same signature |
| Cookies.ParseCookieAsWritten | application.py:147-162 | None, in this order, for an empty value, a part count other than three, or a signature mismatch; after the signature verifies, `int()` raises exactly when the timestamp is not an integer; a cookie is accepted exactly when its timestamp is at least `now - 2592000` and its value decodes, giving the stripped decoding; an older one or a decoding failure gives None |
| Cookies.NoPipe | application.py:135-138 | text over an alphabet without `|` contains no `|` |
| Cookies.CookieParts | application.py:134-150 | a written cookie splits into exactly the base64 value, the timestamp and their signature |
| Cookies.RoundTripAsWritten | application.py:134-162 | parsing a written cookie gives the stripped original while it is at most thirty days old, and None afterwards |
| Cookies.ShiftedLetterRaises | application.py:152-155 | moving a letter from the value across the first `|` leaves the signature valid and makes `parse_cookie` raise ValueError |
| Cookies.ParseIntRejectsLetter | application.py:155 | `int()` rejects text that starts with a letter |
| Cookies.ShiftedDigitsAccepted | application.py:152-160 | moving trailing digits of the value into the timestamp is accepted, with a later timestamp |
| Cookies.ShiftedTimestamp | application.py:155 | a digit prefix gives a timestamp at least as large as the original |
| Cookies.SignedMessageInjective | application.py:165-173 | with `|` in neither part, the delimited signed message determines both parts |
| Cookies.ParseCookie | application.py:147-162 | the corrected parser never raises; it rejects in the same order, and a cookie with a valid delimited signature and an integer timestamp is accepted exactly when the timestamp is at least `now - 2592000` and the value decodes, giving the stripped decoding |
| Cookies.CorrectedCookieParts | application.py:134-150 | a corrected cookie splits into the value, the timestamp and their delimited signature |
| Cookies.RoundTrip | application.py:134-162 | parsing a written cookie gives the stripped original exactly while `timestamp >= now - 2592000` |
| Cookies.ExpiryBoundary | application.py:155-158 | a cookie exactly thirty days old is accepted, and one a second older is rejected |
| Cookies.ShiftedLetterRejected | application.py:155 | the corrected parser rejects a letter in the timestamp instead of raising |
| Cookies.ShiftedDigitsNeedCollision | application.py:165-173 | with the delimited signature, a shifted cookie is accepted only when two different messages collide under HMAC |
| Handlers.Authorize | application.py:121-129 | fails exactly when the request token is incomplete; otherwise saves `key|secret` in `FF_API_REQ` with `set_cookie` as written, and redirects to the `/authenticate` URL carrying exactly `oauth_token` |
| Handlers.Callback | application.py:93-118 | a ValueError from `parse_cookie` escapes; a missing, invalid or expired request cookie or a key mismatch redirects home; a saved payload of other than two fields raises ValueError, an access token lacking a field KeyError; otherwise `key|secret|username` is saved in `FF_API_AUTH` with `set_cookie` as written |
| Handlers.Authenticate | application.py:28-60 | raises exactly when `parse_cookie` raises; otherwise a session exists exactly when the auth cookie parses to three fields, with the application's consumer token, the saved key and secret, and the user's name |
| Handlers.RequestCookieFields | application.py:97-128 | the callback reads back, through `parse_cookie` as written, the key and secret the authorize handler saved, within thirty days |
| Handlers.JoinTwo | application.py:127 | a two-field payload is the fields around one `|` |
| Handlers.AuthorizeThenCallback | application.py:93-129 | after authorize, a callback within thirty days with the same key fetches the access token with that token's key and secret, and saves what the fetch returns |
| Handlers.CallbackKeyMismatch | application.py:102-106 | a callback whose key differs from the saved one redirects home without setting a cookie |
| Handlers.CallbackThenAuthenticate | application.py:50-117 | the cookie the callback writes yields the session with the saved key, secret and username exactly while it is at most thirty days old, and the redirect afterwards |
| Handlers.TwoFieldsNoSession | application.py:50-55 | a two-field request payload never yields a session and never raises |
| Handlers.ShiftedLetterEscapesHandlers | application.py:37-155 | the letter-shifted cookie makes both the `authenticated` guard and the callback raise ValueError, since `parse_cookie` runs outside their `try` blocks |
| Rfc3339.Match | tvsms.js:4-6 | a match renders back to its input and has the shape the pattern demands |
| Rfc3339.DigitRunMaximal | tvsms.js:4 | `\d*` takes the longest run of digits |
| Rfc3339.Sound | tvsms.js:4-6 | whatever a group matches is the rendering of well-shaped captures |
| Rfc3339.MatchRender | tvsms.js:4-6 | every canonical capture set is matched back from its rendering |
| Rfc3339.DayReadAsMonth | tvsms.js:4-6 | a lone day group is captured as the month |
| Rfc3339.YearAndOffset | tvsms.js:4-6 | backtracking reads `2009-05:30` as a year with offset `-05:30` |
| Rfc3339.MonthComplete | tvsms.js:4 | the matcher from the month group on recovers well-shaped captures |
| Rfc3339.ClockComplete | tvsms.js:4 | the matcher from the clock group on recovers well-shaped captures |
| Rfc3339.ZoneComplete | tvsms.js:4 | the matcher from the zone group on recovers well-shaped captures |
| JsDate.DayFromYearNext | tvsms.js:28 | the day number of a year's start grows by the length of the year |
| JsDate.DayFromYearMonotone | tvsms.js:28 | year starts are strictly increasing |
| JsDate.YearFromDay | tvsms.js:28 | the year of a day is the one whose span contains it |
| JsDate.YearFromDayUnique | tvsms.js:28 | that year is unique |
| JsDate.MonthStartIncreasing | tvsms.js:28 | month starts within a year are increasing |
| JsDate.MonthOfDay | tvsms.js:28 | the month of a day of the year is the one whose span contains it |
| JsDate.MonthOfDayUnique | tvsms.js:28 | that month is unique |
| JsDate.MonthFromTime | tvsms.js:42 | `getMonth` is in 0..11 |
| JsDate.DateFromTime | tvsms.js:42 | `getDate` is between 1 and the month's length |
| JsDate.HourFromTime | tvsms.js:42 | `getHours` is in 0..23 |
| JsDate.MinFromTime | tvsms.js:42 | `getMinutes` is in 0..59 |
| JsDate.MakeDayFirst | tvsms.js:28 | the first day of a month breaks down to that year, month and day 1 |
| JsDate.MakeDayCarries | tvsms.js:28 | a month out of range carries into the year |
| JsDate.Breakdown | tvsms.js:28-42 | the getters recover the year, month, day, hour and minute of an in-range `MakeDate` |
| JsDate.UtcTimeBreakdown | tvsms.js:28-42 | the getters recover the fields of `Date.UTC`, with a two-digit year moved into the 1900s |
| JsDate.DayBreakdown | tvsms.js:28 | a day built from a valid date lies in that year at the right offset |
| JsDate.TimeBreakdown | tvsms.js:28-42 | the hour and minute of a time of day are recovered |
| FriendFeedDate.StrValueBound | tvsms.js:7-17 | `new Number` of a digit group is below the matching power of ten |
| FriendFeedDate.TwoDigitsValue | tvsms.js:8-17 | a two-digit group has the value of its two digits |
| FriendFeedDate.WellFormedGroups | tvsms.js:4 | a well-formed capture set is exactly one whose every group is well shaped |
| FriendFeedDate.NewDate | tvsms.js:28 | `new Date` keeps a time value that is already in range |
| FriendFeedDate.Rfc3339ToDate | tvsms.js:3-29 | throws (TypeError) exactly when the pattern does not match |
| FriendFeedDate.DecimalString | tvsms.js:42 | number-to-string gives the decimal digits without leading zeros |
| FriendFeedDate.PadValue | tvsms.js:32-37 | `pad` prefixes `0` exactly when `v < 10`, keeps the value, and gives two characters below 100 |
| FriendFeedDate.PadOfTwoDigits | tvsms.js:32-37 | padding the value of a two-digit group gives the group back |
| FriendFeedDate.FormatFriendFeedDate | tvsms.js:39-43 | throws exactly when the pattern does not match |
| FriendFeedDate.OffsetDirection | tvsms.js:19-25 | a `+` offset subtracts `offhour*60+offmin` minutes and a `-` offset adds them; the guard tests only that a sign was captured, so `+00:00` takes the same branch |
| FriendFeedDate.ToDateOfRender | tvsms.js:3-29 | the parsed date is the clipped `Date.UTC` of the defaulted, zero-based fields |
| FriendFeedDate.ZuluIgnored | tvsms.js:14-28 | a captured `Z` does not change the result |
| FriendFeedDate.InstantInRange | tvsms.js:28 | an instant from group-sized fields stays within integer bounds that keep its arithmetic exact |
| FriendFeedDate.ArgumentsRange | tvsms.js:7-17 | the defaulted fields are within the ranges the group widths allow |
| FriendFeedDate.ValidDate | tvsms.js:3-29 | a matched input with at most fifteen fraction digits gives a valid date at the computed instant |
| FriendFeedDate.MissingDay | tvsms.js:8-28 | a missing day defaults to 0, which is the last day of the previous month |
| FriendFeedDate.DayZero | tvsms.js:9-28 | day 0 of a month breaks down to the last day of the month before |
| FriendFeedDate.LastDayOfPreviousMonth | tvsms.js:9-28 | day 0 of a month is the same day as the last day of the previous month |
| FriendFeedDate.ShowsTime | tvsms.js:39-43 | the formatted text is day, `/`, the Spanish month abbreviation, `, `, and the padded hours and minutes of the parsed time |
| FriendFeedDate.FormatShowsFields | tvsms.js:39-43 | a calendar date-time in UTC is shown with its own day, month name, hour and minute |
| FriendFeedDate.FormatOfMatch | tvsms.js:39-43 | the same for any input that matches as a calendar date-time |
| FriendFeedDate.CalendarArguments | tvsms.js:7-13 | the fields of a calendar date-time are its groups with the month made zero-based |
| FriendFeedDate.CalendarInstant | tvsms.js:28-42 | a calendar date-time's instant breaks down to its own day, month, hour and minute |
| FriendFeedDate.FractionIsMilliseconds | tvsms.js:13 | fractional digits are added as a raw millisecond count, so `.5` adds 5 ms |
| FriendFeedDate.LeadingZerosValue | tvsms.js:13 | leading zeros do not change a digit group's value |
| FriendFeedDate.FractionLeadingZeros | tvsms.js:13 | `.05` and `.5` give the same date |
| FriendFeedDate.HugeFractionIsNaN | tvsms.js:13-42 | a fraction of 8750000000000000 ms or more gives an invalid date, shown as `NaN/undefined, NaN:NaN` |

## Left out

- Network I/O is not modelled: `urllib2.urlopen` and `Request` in `fetch` and in the three `fetch_oauth_*` functions, and the reading of the response body. A provider's reply reaches the model as a parameter (the `cgi.parse_qs` map, or the fetched access token in `Handlers.Callback`).
- The JSON parser selection and parsing itself are not modelled. `_parse_dates` starts from a parsed tree.
- `urllib.urlencode` is opaque. URL builders return the endpoint and the argument map, and `fetch` returns the request it would send (method, URL, query map, body map).
- HMAC-SHA1, SHA-1 and base64 are uninterpreted. Beyond the base64 round trip and alphabet, nothing is assumed about them, and hash internals are not modelled.
- `datetime.strptime` with `%Y-%m-%dT%H:%M:%SZ` is a parameter, and its result is an abstract date-time.
- FriendFeed.ParseDates: rebuilds the tree as a value. It does not model the in-place overwrite of `obj[name]`, the aliasing it implies, or the identity of the returned object. A `strptime` failure surfaces as None where Python raises.
- Cookie header output is not modelled: the `Cookie.BaseCookie` object, its path and domain attributes, `email.utils.formatdate` for `expires`, and the append to the response headers.
- The webapp handler classes, response writing, JSON bodies and WSGI setup are not modelled. A handler's effect is the cookie it sets and where it redirects.
- Handlers.Authenticate: a GET without a cookie writes the redirect body twice before it returns. The model gives the single outcome, no session.
- Handlers.Callback: any exception in the access-token fetch redirects home; the model folds it into a `None` from the fetch parameter.
- The handlers run on the codec as written. The corrected codec (Cookies.SetCookieValue, Cookies.ParseCookie) is proved beside it and is not wired into the handlers, so no handler-level lemma is stated for it.
- OAuth.Pairs: keys and values are byte strings. It does not model `str(v)` rendering a non-string value (`10` as `"10"`), its UnicodeEncodeError on a non-ASCII unicode value, `_oauth_escape`'s unicode-to-UTF-8 branch, or a unicode key in `"%s=%s"`.
- UrlParse.UrlParseOfAbsolute: the "Invalid IPv6 URL" ValueError of `urlsplit` for unbalanced brackets in the netloc is not modelled; the hosts this code signs for contain no brackets.
- `post_entry` and the other API helpers that only call `fetch` are not part of this model.
- The user-interface code of the browser script (the comet client, the list rendering, login checks and posting) is DOM and timer code and is not modelled.
- The `getDate`, `getHours` and `getMinutes` getters use the host's local time zone; the model assumes a UTC host.
- JavaScript Numbers and Python floats are exact integers and reals in the model. Precision loss of fractions longer than about fifteen digits is not modelled. FriendFeedDate.ValidDate asks for at most fifteen fraction digits for that reason.
- Where the pattern does not match, the code dereferences `null` and throws a TypeError (modelled as `Err(TypeError)`). The model follows the code.
- JsDate works on the proleptic Gregorian calendar of ECMA-262 exactly. Daylight saving and leap seconds do not apply to UTC and are not modelled.

## Findings

| source | as written | input that shows it | evidently intended | confidence | as-written member | corrected member |
|---|---|---|---|---|---|---|
| application.py:152-155 | the signature covers `value + timestamp` with no delimiter, and `int(parts[1])` runs unguarded after the check | a genuine cookie `...Q|1250000000|sig` rewritten as `...|Q1250000000|sig` keeps a valid signature, and `int("Q1250000000")` raises an uncaught ValueError | a cookie that is not well formed is rejected with None | not executed | Cookies.ShiftedLetterRaises | Cookies.ShiftedLetterRejected |
| application.py:165-173 | the cookie signature fixes only the concatenation of value and timestamp | a genuine cookie whose base64 value ends in a block of digits, such as `QUJD1234|1250000000|sig`, rewritten as `QUJD|12341250000000|sig` still verifies and decodes, with a timestamp hundreds of thousands of years later, so it never expires | the signature binds where the value ends and the timestamp begins | not executed | Cookies.ShiftedDigitsAccepted | Cookies.ShiftedDigitsNeedCollision |
