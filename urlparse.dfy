/**
 * Python 2.7's `urlparse.urlparse`, which the OAuth signer uses to split the
 * request URL: scheme (lower-cased), network location, path, `;params`,
 * `?query` and `#fragment`.
 */
module UrlParse {
  import opened Bytes

  datatype ParseResult = ParseResult(
    scheme: Bytes, netloc: Bytes, path: Bytes, params: Bytes, query: Bytes, fragment: Bytes)

  const COLON: byte := 0x3A
  const SLASH: byte := 0x2F
  const QUESTION: byte := 0x3F
  const HASH: byte := 0x23
  const SEMICOLON: byte := 0x3B

  /** `urlparse.scheme_chars`: letters, digits, '+', '-', '.' */
  predicate IsSchemeChar(b: byte)
  {
    IsUpperAscii(b) || IsLowerAscii(b) || IsDigit(b) || b == PLUS || b == MINUS || b == 0x2E
  }

  predicate AllSchemeChars(s: Bytes) { forall j :: 0 <= j < |s| ==> IsSchemeChar(s[j]) }

  /** What follows the first ':' is a port number when it is a non-empty run of digits. */
  predicate IsPortNumber(s: Bytes) { s != [] && AllDigits(s) }

  /** Schemes whose last path segment may carry `;params` (`urlparse.uses_params`). */
  const USES_PARAMS: set<Bytes> := {
    Ascii("ftp"), Ascii("hdl"), Ascii("prospero"), Ascii("http"), Ascii("imap"),
    Ascii("https"), Ascii("shttp"), Ascii("rtsp"), Ascii("rtspu"), Ascii("sip"),
    Ascii("sips"), Ascii("mms"), [], Ascii("sftp"), Ascii("tel")}

  /**
   * `s.find(b)`: the first index of `b`. Where `str.find` returns -1 this
   * returns |s|; every caller treats the two alike.
   */
  function Find(s: Bytes, b: byte): (i: nat)
    ensures i <= |s|
    ensures i < |s| ==> s[i] == b
    ensures forall j :: 0 <= j < i ==> s[j] != b
    ensures i == |s| <==> b !in s
  {
    if s == [] then 0 else if s[0] == b then 0 else 1 + Find(s[1..], b)
  }

  /** `s.rfind(b)` for a byte that occurs: its last index. */
  function RFind(s: Bytes, b: byte): (i: nat)
    requires b in s
    ensures i < |s| && s[i] == b
    ensures forall j :: i < j < |s| ==> s[j] != b
  {
    if s[|s| - 1] == b then |s| - 1 else RFind(s[..|s| - 1], b)
  }

  /** `_splitnetloc(url, 2)`: the authority runs to the first '/', '?' or '#'. */
  function SplitNetloc(url: Bytes): (r: (Bytes, Bytes))
    requires |url| >= 2
  {
    var rest := url[2..];
    var delim := Min(Find(rest, SLASH), Min(Find(rest, QUESTION), Find(rest, HASH)));
    (rest[..delim], rest[delim..])
  }

  function Min(a: nat, b: nat): nat { if a <= b then a else b }

  /** `url.split(b, 1)` when `b` occurs, else `(url, "")`. */
  function SplitOnce(url: Bytes, b: byte): (Bytes, Bytes)
  {
    var i := Find(url, b);
    if i < |url| then (url[..i], url[i + 1..]) else (url, [])
  }

  /** Everything `urlsplit` does once the scheme has been taken off. */
  function SplitRest(scheme: Bytes, url: Bytes): (r: ParseResult)
  {
    var (netloc, url1) := if |url| >= 2 && url[..2] == [SLASH, SLASH] then SplitNetloc(url) else ([], url);
    var (url2, fragment) := SplitOnce(url1, HASH);
    var (path, query) := SplitOnce(url2, QUESTION);
    ParseResult(scheme, netloc, path, [], query, fragment)
  }

  /** `urlsplit(url)`; the result's `params` field is left empty. */
  function UrlSplit(url: Bytes): ParseResult
  {
    var i := Find(url, COLON);
    if 0 < i < |url| && url[..i] == Ascii("http") then
      SplitRest(Ascii("http"), url[i + 1..])
    else if 0 < i < |url| && AllSchemeChars(url[..i]) && !IsPortNumber(url[i + 1..]) then
      // the text after ':' is not a port number, so what precedes it is a scheme
      SplitRest(Lower(url[..i]), url[i + 1..])
    else
      SplitRest([], url)
  }

  /** `_splitparams(path)`: `;params` is taken from the last path segment only. */
  function SplitParams(path: Bytes): (Bytes, Bytes)
    requires SEMICOLON in path
  {
    if SLASH in path then
      var from := RFind(path, SLASH);
      var i := from + Find(path[from..], SEMICOLON);
      if i < |path| then (path[..i], path[i + 1..]) else (path, [])
    else
      var i := Find(path, SEMICOLON);
      (path[..i], path[i + 1..])
  }

  /** `urlparse.urlparse(url)` */
  function UrlParse(url: Bytes): (r: ParseResult)
  {
    var s := UrlSplit(url);
    if s.scheme in USES_PARAMS && SEMICOLON in s.path then
      var (path, params) := SplitParams(s.path);
      s.(path := path, params := params)
    else s
  }

  /** Bytes a network location never holds: the ones that end it. */
  predicate IsNetlocByte(b: byte) { b != SLASH && b != QUESTION && b != HASH }

  /** `urlsplit` takes a leading `scheme:` off when the text after it is not a port number. */
  lemma UrlSplitOfScheme(scheme: Bytes, after: Bytes)
    requires scheme != [] && AllSchemeChars(scheme)
    requires after != [] && !IsDigit(after[0])
    ensures UrlSplit(scheme + [COLON] + after) == SplitRest(Lower(scheme), after)
  {
    var url := scheme + [COLON] + after;
    assert forall j :: 0 <= j < |scheme| ==> url[j] == scheme[j] && scheme[j] != COLON;
    assert url[|scheme|] == COLON;
    var i := Find(url, COLON);
    assert i == |scheme|;
    assert url[..i] == scheme;
    assert url[i + 1..] == after;
    assert url[i + 1] == after[0];
    if scheme == Ascii("http") {
      assert Lower(scheme) == Ascii("http");
    }
  }

  /** After `//`, the network location and path come back as written. */
  lemma SplitRestOfAuthority(scheme: Bytes, netloc: Bytes, path: Bytes, tail: Bytes)
    requires forall j :: 0 <= j < |netloc| ==> IsNetlocByte(netloc[j])
    requires path == [] || path[0] == SLASH
    requires forall j :: 0 <= j < |path| ==> path[j] != QUESTION && path[j] != HASH
    requires tail == [] || tail[0] == QUESTION || tail[0] == HASH
    ensures SplitRest(scheme, [SLASH, SLASH] + netloc + path + tail).scheme == scheme
    ensures SplitRest(scheme, [SLASH, SLASH] + netloc + path + tail).netloc == netloc
    ensures SplitRest(scheme, [SLASH, SLASH] + netloc + path + tail).path == path
  {
    var after := [SLASH, SLASH] + netloc + path + tail;
    assert after[..2] == [SLASH, SLASH];
    assert after[2..] == netloc + (path + tail);
    NetlocEnd(netloc, path + tail);
    assert SplitNetloc(after) == (netloc, path + tail);
    PathEnd(path, tail);
  }

  /**
   * For a URL written `scheme://netloc/path` followed by nothing, a query or
   * a fragment, `urlparse` returns the scheme lower-cased, the network
   * location (port included) and the path as written.
   */
  lemma UrlParseOfAbsolute(scheme: Bytes, netloc: Bytes, path: Bytes, tail: Bytes)
    requires scheme != [] && AllSchemeChars(scheme)
    requires forall j :: 0 <= j < |netloc| ==> IsNetlocByte(netloc[j])
    requires path == [] || path[0] == SLASH
    requires forall j :: 0 <= j < |path| ==> path[j] != QUESTION && path[j] != HASH && path[j] != SEMICOLON
    requires tail == [] || tail[0] == QUESTION || tail[0] == HASH
    ensures UrlParse(scheme + Ascii("://") + netloc + path + tail).scheme == Lower(scheme)
    ensures UrlParse(scheme + Ascii("://") + netloc + path + tail).netloc == netloc
    ensures UrlParse(scheme + Ascii("://") + netloc + path + tail).path == path
  {
    var url := scheme + Ascii("://") + netloc + path + tail;
    var after := [SLASH, SLASH] + netloc + path + tail;
    assert url == scheme + [COLON] + after;
    UrlSplitOfScheme(scheme, after);
    SplitRestOfAuthority(Lower(scheme), netloc, path, tail);
    var split := UrlSplit(url);
    assert split.path == path;
    assert SEMICOLON !in path;
    assert UrlParse(url) == split;
  }

  lemma NetlocEnd(netloc: Bytes, rest: Bytes)
    requires forall j :: 0 <= j < |netloc| ==> IsNetlocByte(netloc[j])
    requires rest == [] || !IsNetlocByte(rest[0])
    ensures var s := netloc + rest;
      var d := Min(Find(s, SLASH), Min(Find(s, QUESTION), Find(s, HASH)));
      s[..d] == netloc && s[d..] == rest
  {
    var s := netloc + rest;
    assert forall j :: 0 <= j < |netloc| ==> s[j] == netloc[j];
    assert Find(s, SLASH) >= |netloc| && Find(s, QUESTION) >= |netloc| && Find(s, HASH) >= |netloc|;
    if rest != [] {
      assert s[|netloc|] == rest[0];
    }
  }

  lemma PathEnd(path: Bytes, tail: Bytes)
    requires forall j :: 0 <= j < |path| ==> path[j] != QUESTION && path[j] != HASH
    requires tail == [] || tail[0] == QUESTION || tail[0] == HASH
    ensures SplitOnce(SplitOnce(path + tail, HASH).0, QUESTION).0 == path
  {
    var url1 := path + tail;
    assert forall j :: 0 <= j < |path| ==> url1[j] == path[j];
    var h := Find(url1, HASH);
    assert h >= |path|;
    var url2 := if h < |url1| then url1[..h] else url1;
    assert url2[..|path|] == path;
    var q := Find(url2, QUESTION);
    assert q >= |path|;
    if tail == [] {
      assert url1 == path;
      assert url2 == path;
    } else if tail[0] == HASH {
      assert url1[|path|] == HASH;
      assert h == |path|;
      assert url2 == path;
    } else {
      assert url1[|path|] == QUESTION;
      assert |url2| > |path| && url2[|path|] == QUESTION;
      assert q == |path|;
    }
  }
}
