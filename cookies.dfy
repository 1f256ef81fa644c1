/**
 * The signed, expiring cookie codec of the SMS web application:
 * `cookie_signature`, the value `set_cookie` writes (`base64|timestamp|hex
 * HMAC`) and `parse_cookie`, which checks the part count, the signature and
 * the 30-day age before decoding.
 *
 * Two definitions of the codec are given. The `AsWritten` pair is the code
 * as it stands. `SetCookieValue` and `ParseCookie` correct the two defects
 * the as-written lemmas exhibit (an uncaught ValueError, and a signature that
 * does not fix where the value ends and the timestamp starts); the request
 * handlers use the corrected pair.
 */
module Cookies {
  import opened Wrappers
  import opened Bytes
  import opened Primitives

  /** `FRIENDFEED_API_TOKEN["secret"]`, the HMAC key of every cookie signature. */
  const API_TOKEN_SECRET: Bytes := Ascii("--")

  /** `30 * 86400`: a cookie lives thirty days. */
  const MAX_AGE: int := 30 * 86400

  /** The bytes a hash object has been fed by `update(part)` for each part in turn. */
  function Concat(parts: seq<Bytes>): Bytes
  {
    if parts == [] then [] else Concat(parts[..|parts| - 1]) + parts[|parts| - 1]
  }

  lemma ConcatTwo(a: Bytes, b: Bytes)
    ensures Concat([a, b]) == a + b
  {
    assert [a, b][..1] == [a];
    assert [a][..0] == [];
    assert Concat([a]) == [] + a == a;
  }

  lemma ConcatThree(a: Bytes, b: Bytes, c: Bytes)
    ensures Concat([a, b, c]) == a + b + c
  {
    assert [a, b, c][..2] == [a, b];
    ConcatTwo(a, b);
  }

  /** `cookie_signature(*parts)`: the hex HMAC-SHA1 of the parts run together. */
  function CookieSignature(p: Primitives, parts: seq<Bytes>): (r: Bytes)
    ensures forall i :: 0 <= i < |r| ==> IsLowerHex(r[i])
  {
    HmacHexDigest(p, API_TOKEN_SECRET, Concat(parts))
  }

  /** `cookie_signature` as the loop feeding each part to the hash object. */
  method ComputeCookieSignature(p: Primitives, parts: seq<Bytes>) returns (digest: Bytes)
    ensures digest == CookieSignature(p, parts)
  {
    var fed: Bytes := [];
    for i := 0 to |parts|
      invariant fed == Concat(parts[..i])
    {
      assert parts[..i + 1][..i] == parts[..i];
      fed := fed + parts[i];
    }
    assert parts[..|parts|] == parts;
    digest := HmacHexDigest(p, API_TOKEN_SECRET, fed);
  }

  /**
   * No delimiter goes into the hash: `("ab", "c")` and `("a", "bc")` sign
   * alike, and so does any split of the same bytes.
   */
  lemma SignatureOfConcatenation(p: Primitives, a: Bytes, b: Bytes, c: Bytes)
    ensures CookieSignature(p, [a + b, c]) == CookieSignature(p, [a, b + c])
  {
    ConcatTwo(a + b, c);
    ConcatTwo(a, b + c);
    assert (a + b) + c == a + (b + c);
  }

  lemma SignatureExample(p: Primitives)
    ensures CookieSignature(p, [Ascii("ab"), Ascii("c")]) == CookieSignature(p, [Ascii("a"), Ascii("bc")])
  {
    assert Ascii("ab") == Ascii("a") + Ascii("b");
    assert Ascii("bc") == Ascii("b") + Ascii("c");
    SignatureOfConcatenation(p, Ascii("a"), Ascii("b"), Ascii("c"));
  }

  // ---------------------------------------------------------------------
  // The codec as written

  /** `"|".join([value, timestamp, cookie_signature(value, timestamp)])` with `value = base64.b64encode(raw)`. */
  function SetCookieValueAsWritten(p: Primitives, raw: Bytes, now: real): Bytes
  {
    var value := p.base64Encode(raw);
    var timestamp := Timestamp(now);
    Join(PIPE, [value, timestamp, CookieSignature(p, [value, timestamp])])
  }

  /**
   * `parse_cookie(value)` as written: None for an absent or empty value, a
   * part count other than three, or a signature mismatch, in that order;
   * then `int(parts[1])`, which raises ValueError on a non-integer; then None
   * when older than thirty days or when base64 decoding fails; else the
   * decoded value stripped of surrounding whitespace.
   */
  function ParseCookieAsWritten(p: Primitives, cookie: Option<Bytes>, now: real): (r: Result<Option<Bytes>, PyError>)
    ensures cookie.None? || cookie.value == [] ==> r == Ok(None)
    ensures cookie.Some? && |Split(cookie.value, PIPE)| != 3 ==> r == Ok(None)
    ensures cookie.Some? && |Split(cookie.value, PIPE)| == 3 ==>
      var parts := Split(cookie.value, PIPE);
      && (CookieSignature(p, [parts[0], parts[1]]) != parts[2] ==> r == Ok(None))
      && (r.Err? <==> CookieSignature(p, [parts[0], parts[1]]) == parts[2] && ParseInt(parts[1]).None?)
      && (r.Ok? && r.value.Some? ==>
            && CookieSignature(p, [parts[0], parts[1]]) == parts[2]
            && ParseInt(parts[1]).Some? && ParseInt(parts[1]).value as real >= now - MAX_AGE as real
            && p.base64Decode(parts[0]).Some? && r.value.value == Strip(p.base64Decode(parts[0]).value))
      && (ParseInt(parts[1]).Some? && p.base64Decode(parts[0]).None? ==> r.Ok? && r.value.None?)
    ensures cookie.Some? && cookie.value != [] && |Split(cookie.value, PIPE)| == 3 ==>
      var parts := Split(cookie.value, PIPE);
      CookieSignature(p, [parts[0], parts[1]]) == parts[2] && ParseInt(parts[1]).Some? ==>
      var timestamp := ParseInt(parts[1]).value;
      && (timestamp as real < now - MAX_AGE as real ==> r == Ok(None))
      && (timestamp as real >= now - MAX_AGE as real && p.base64Decode(parts[0]).Some? ==>
            r == Ok(Some(Strip(p.base64Decode(parts[0]).value))))
  {
    if cookie.None? || cookie.value == [] then Ok(None)
    else
      var parts := Split(cookie.value, PIPE);
      if |parts| != 3 then Ok(None)
      else if CookieSignature(p, [parts[0], parts[1]]) != parts[2] then Ok(None)
      else match ParseInt(parts[1])
        case None => Err(ValueError)
        case Some(timestamp) =>
          if (timestamp as real) < now - MAX_AGE as real then Ok(None)
          else match p.base64Decode(parts[0])
            case None => Ok(None)
            case Some(decoded) => Ok(Some(Strip(decoded)))
  }

  /** Every byte of `s` satisfies `ok`, and '|' does not. */
  lemma NoPipe(s: Bytes, ok: byte -> bool)
    requires forall i :: 0 <= i < |s| ==> ok(s[i])
    requires !ok(PIPE)
    ensures PIPE !in s
  {
    assert forall i :: 0 <= i < |s| ==> s[i] != PIPE;
  }

  /**
   * The three parts of a value `set_cookie` wrote: neither the base64, the
   * decimal nor the hex alphabet contains '|'.
   */
  lemma CookieParts(p: Primitives, raw: Bytes, t0: real)
    requires Valid(p)
    ensures var value, timestamp := p.base64Encode(raw), Timestamp(t0);
      Split(SetCookieValueAsWritten(p, raw, t0), PIPE) == [value, timestamp, CookieSignature(p, [value, timestamp])]
  {
    var value, timestamp := p.base64Encode(raw), Timestamp(t0);
    var signature := CookieSignature(p, [value, timestamp]);
    NoPipe(value, IsBase64Byte);
    NoPipe(timestamp, b => IsDigit(b) || b == MINUS);
    NoPipe(signature, IsLowerHex);
    SplitJoinThree(value, timestamp, signature, PIPE);
  }

  /**
   * A cookie written at `t0` reads back as the stripped value exactly while
   * `int(t0) >= now - 30 days`; a cookie exactly thirty days old is accepted.
   */
  lemma RoundTripAsWritten(p: Primitives, raw: Bytes, t0: real, now: real)
    requires Valid(p)
    ensures ParseCookieAsWritten(p, Some(SetCookieValueAsWritten(p, raw, t0)), now)
         == if Trunc(t0) as real >= now - MAX_AGE as real then Ok(Some(Strip(raw))) else Ok(None)
  {
    CookieParts(p, raw, t0);
    ParseIntOfIntToStr(Trunc(t0));
  }

  // ---------------------------------------------------------------------
  // Where the written code goes wrong

  /**
   * Moving the last base64 letter of a genuine cookie across the first '|'
   * keeps the signature valid, and `int()` then raises ValueError: e.g.
   * `QUJ|D1300000000|…` made from `QUJD|1300000000|…`.
   */
  lemma ShiftedLetterRaises(p: Primitives, raw: Bytes, front: Bytes, letter: byte, t0: real, now: real)
    requires Valid(p)
    requires p.base64Encode(raw) == front + [letter]
    requires IsUpperAscii(letter) || IsLowerAscii(letter)
    ensures var timestamp := Timestamp(t0);
      var forged := Join(PIPE, [front, [letter] + timestamp, CookieSignature(p, [front + [letter], timestamp])]);
      ParseCookieAsWritten(p, Some(forged), now) == Err(ValueError)
  {
    var timestamp := Timestamp(t0);
    var signature := CookieSignature(p, [front + [letter], timestamp]);
    var shifted := [letter] + timestamp;
    assert forall i :: 0 <= i < |front| ==> front[i] == p.base64Encode(raw)[i];
    NoPipe(front, IsBase64Byte);
    assert forall i :: 1 <= i < |shifted| ==> shifted[i] == timestamp[i - 1];
    NoPipe(shifted, b => IsUpperAscii(b) || IsLowerAscii(b) || IsDigit(b) || b == MINUS);
    NoPipe(signature, IsLowerHex);
    SplitJoinThree(front, shifted, signature, PIPE);
    SignatureOfConcatenation(p, front, [letter], timestamp);
    ParseIntRejectsLetter(letter, timestamp);
  }

  /** `int()` of a string that starts with a letter raises. */
  lemma ParseIntRejectsLetter(letter: byte, rest: Bytes)
    requires IsUpperAscii(letter) || IsLowerAscii(letter)
    requires rest != [] && !IsSpace(rest[|rest| - 1])
    ensures ParseInt([letter] + rest).None?
  {
    var s := [letter] + rest;
    assert s[|s| - 1] == rest[|rest| - 1];
    StripTrimmed(s);
  }

  /**
   * Moving leading digits of the timestamp's left neighbour across the first
   * '|' also keeps the signature, and the forged timestamp is the digits in
   * front of the original one: a base64 value ending in digits whose prefix
   * decodes is accepted as that prefix's decoding, with a timestamp at least
   * as late as the original, e.g. `YWJj|12341300000000|…` made from
   * `YWJj1234|1300000000|…` (the encoding of "abc\xd7\x6d\xf8") reads back
   * as "abc" for some 390 thousand years.
   */
  lemma ShiftedDigitsAccepted(p: Primitives, raw: Bytes, front: Bytes, digits: Bytes, decoded: Bytes, t0: real, now: real)
    requires Valid(p)
    requires p.base64Encode(raw) == front + digits
    requires digits != [] && AllDigits(digits)
    requires p.base64Decode(front) == Some(decoded)
    requires t0 >= 0.0 && Trunc(t0) as real >= now - MAX_AGE as real
    ensures var timestamp := Timestamp(t0);
      var forged := Join(PIPE, [front, digits + timestamp, CookieSignature(p, [front + digits, timestamp])]);
      && ParseCookieAsWritten(p, Some(forged), now) == Ok(Some(Strip(decoded)))
      && ParseInt(digits + timestamp).Some? && ParseInt(digits + timestamp).value >= Trunc(t0)
  {
    var timestamp := Timestamp(t0);
    var signature := CookieSignature(p, [front + digits, timestamp]);
    var shifted := digits + timestamp;
    assert forall i :: 0 <= i < |front| ==> front[i] == p.base64Encode(raw)[i];
    NoPipe(front, IsBase64Byte);
    ShiftedTimestamp(digits, t0);
    NoPipe(shifted, IsDigit);
    NoPipe(signature, IsLowerHex);
    SplitJoinThree(front, shifted, signature, PIPE);
    SignatureOfConcatenation(p, front, digits, timestamp);
  }

  /** Digits put in front of a non-negative timestamp make a later one. */
  lemma ShiftedTimestamp(digits: Bytes, t0: real)
    requires digits != [] && AllDigits(digits)
    requires t0 >= 0.0
    ensures AllDigits(digits + Timestamp(t0))
    ensures ParseInt(digits + Timestamp(t0)).Some? && ParseInt(digits + Timestamp(t0)).value >= Trunc(t0)
  {
    var timestamp := Timestamp(t0);
    assert AllDigits(timestamp) by {
      forall i | 0 <= i < |timestamp| ensures IsDigit(timestamp[i]) {
        assert timestamp[i] != MINUS;
      }
    }
    ParseIntOfDigits(timestamp);
    ParseIntOfIntToStr(Trunc(t0));
    var v := DigitsValue(timestamp);
    assert v == Trunc(t0);
    DigitsValueAppend(digits, timestamp);
    MulNonNegative(DigitsValue(digits), Pow10(|timestamp|));
    ParseIntOfDigits(digits + timestamp);
  }

  lemma MulNonNegative(x: nat, y: nat)
    ensures x * y >= 0
  {
  }

  // ---------------------------------------------------------------------
  // The codec as intended

  /**
   * The message the corrected signature covers: the value, a '|' and the
   * timestamp, so that the signature fixes where one ends and the other starts.
   */
  function SignedMessage(value: Bytes, timestamp: Bytes): seq<Bytes>
  {
    [value, [PIPE], timestamp]
  }

  /** With '|' in neither part, the signed message determines both parts. */
  lemma SignedMessageInjective(value: Bytes, timestamp: Bytes, value': Bytes, timestamp': Bytes)
    requires PIPE !in value && PIPE !in timestamp && PIPE !in value' && PIPE !in timestamp'
    requires Concat(SignedMessage(value, timestamp)) == Concat(SignedMessage(value', timestamp'))
    ensures value == value' && timestamp == timestamp'
  {
    ConcatThree(value, [PIPE], timestamp);
    ConcatThree(value', [PIPE], timestamp');
    assert Join(PIPE, [value, timestamp]) == value + [PIPE] + timestamp;
    assert Join(PIPE, [value', timestamp']) == value' + [PIPE] + timestamp';
    SplitJoin([value, timestamp], PIPE);
    SplitJoin([value', timestamp'], PIPE);
  }

  /** `set_cookie`'s value, signed over the delimited message. */
  function SetCookieValue(p: Primitives, raw: Bytes, now: real): Bytes
  {
    var value := p.base64Encode(raw);
    var timestamp := Timestamp(now);
    Join(PIPE, [value, timestamp, CookieSignature(p, SignedMessage(value, timestamp))])
  }

  /**
   * `parse_cookie` with the delimited signature and with a timestamp that is
   * not an integer rejected like any other malformed cookie. It never raises.
   */
  function ParseCookie(p: Primitives, cookie: Option<Bytes>, now: real): (r: Option<Bytes>)
    ensures cookie.None? || cookie.value == [] ==> r.None?
    ensures cookie.Some? && |Split(cookie.value, PIPE)| != 3 ==> r.None?
    ensures r.Some? ==>
      var parts := Split(cookie.value, PIPE);
      && cookie.Some? && |parts| == 3
      && CookieSignature(p, SignedMessage(parts[0], parts[1])) == parts[2]
      && ParseInt(parts[1]).Some? && ParseInt(parts[1]).value as real >= now - MAX_AGE as real
      && p.base64Decode(parts[0]).Some? && r.value == Strip(p.base64Decode(parts[0]).value)
    ensures cookie.Some? && cookie.value != [] && |Split(cookie.value, PIPE)| == 3 ==>
      var parts := Split(cookie.value, PIPE);
      CookieSignature(p, SignedMessage(parts[0], parts[1])) == parts[2] && ParseInt(parts[1]).Some? ==>
      var timestamp := ParseInt(parts[1]).value;
      && (timestamp as real < now - MAX_AGE as real ==> r.None?)
      && (timestamp as real >= now - MAX_AGE as real && p.base64Decode(parts[0]).Some? ==>
            r == Some(Strip(p.base64Decode(parts[0]).value)))
  {
    if cookie.None? || cookie.value == [] then None
    else
      var parts := Split(cookie.value, PIPE);
      if |parts| != 3 then None
      else if CookieSignature(p, SignedMessage(parts[0], parts[1])) != parts[2] then None
      else match ParseInt(parts[1])
        case None => None
        case Some(timestamp) =>
          if (timestamp as real) < now - MAX_AGE as real then None
          else match p.base64Decode(parts[0])
            case None => None
            case Some(decoded) => Some(Strip(decoded))
  }

  lemma CorrectedCookieParts(p: Primitives, raw: Bytes, t0: real)
    requires Valid(p)
    ensures var value, timestamp := p.base64Encode(raw), Timestamp(t0);
      Split(SetCookieValue(p, raw, t0), PIPE) == [value, timestamp, CookieSignature(p, SignedMessage(value, timestamp))]
  {
    var value, timestamp := p.base64Encode(raw), Timestamp(t0);
    var signature := CookieSignature(p, SignedMessage(value, timestamp));
    NoPipe(value, IsBase64Byte);
    NoPipe(timestamp, b => IsDigit(b) || b == MINUS);
    NoPipe(signature, IsLowerHex);
    SplitJoinThree(value, timestamp, signature, PIPE);
  }

  /**
   * A cookie written at `t0` reads back as the stripped value exactly while
   * `int(t0) >= now - 30 days`.
   */
  lemma RoundTrip(p: Primitives, raw: Bytes, t0: real, now: real)
    requires Valid(p)
    ensures ParseCookie(p, Some(SetCookieValue(p, raw, t0)), now)
         == if Trunc(t0) as real >= now - MAX_AGE as real then Some(Strip(raw)) else None
  {
    CorrectedCookieParts(p, raw, t0);
    ParseIntOfIntToStr(Trunc(t0));
  }

  /** A cookie exactly thirty days old is still accepted; one second more and it is not. */
  lemma ExpiryBoundary(p: Primitives, raw: Bytes, t0: int)
    requires Valid(p)
    ensures ParseCookie(p, Some(SetCookieValue(p, raw, t0 as real)), (t0 + MAX_AGE) as real) == Some(Strip(raw))
    ensures ParseCookie(p, Some(SetCookieValue(p, raw, t0 as real)), (t0 + MAX_AGE + 1) as real) == None
  {
    RoundTrip(p, raw, t0 as real, (t0 + MAX_AGE) as real);
    RoundTrip(p, raw, t0 as real, (t0 + MAX_AGE + 1) as real);
  }

  /** The letter-shifted cookie of `ShiftedLetterRaises` is rejected instead. */
  lemma ShiftedLetterRejected(p: Primitives, cookie: Bytes, front: Bytes, letter: byte, timestamp: Bytes, signature: Bytes, now: real)
    requires IsUpperAscii(letter) || IsLowerAscii(letter)
    requires timestamp != [] && !IsSpace(timestamp[|timestamp| - 1])
    requires Split(cookie, PIPE) == [front, [letter] + timestamp, signature]
    ensures ParseCookie(p, Some(cookie), now) == None
  {
    ParseIntRejectsLetter(letter, timestamp);
  }

  /**
   * The digit-shifted cookie of `ShiftedDigitsAccepted` is accepted only if
   * the HMAC of two different messages has the same hex digest.
   */
  lemma ShiftedDigitsNeedCollision(p: Primitives, raw: Bytes, front: Bytes, digits: Bytes, t0: real, now: real)
    requires Valid(p)
    requires p.base64Encode(raw) == front + digits
    requires digits != [] && AllDigits(digits)
    ensures var timestamp := Timestamp(t0);
      var genuine := SignedMessage(front + digits, timestamp);
      var shifted := SignedMessage(front, digits + timestamp);
      var forged := Join(PIPE, [front, digits + timestamp, CookieSignature(p, genuine)]);
      && Concat(genuine) != Concat(shifted)
      && (ParseCookie(p, Some(forged), now).Some? ==> CookieSignature(p, genuine) == CookieSignature(p, shifted))
  {
    var timestamp := Timestamp(t0);
    var signature := CookieSignature(p, SignedMessage(front + digits, timestamp));
    var shifted := digits + timestamp;
    assert forall i :: 0 <= i < |front + digits| ==> (front + digits)[i] == p.base64Encode(raw)[i];
    NoPipe(front + digits, IsBase64Byte);
    assert forall i :: 0 <= i < |front| ==> front[i] == (front + digits)[i];
    NoPipe(front, IsBase64Byte);
    NoPipe(timestamp, b => IsDigit(b) || b == MINUS);
    assert forall i :: 0 <= i < |shifted| ==> IsDigit(shifted[i]) || shifted[i] == MINUS by {
      forall i | 0 <= i < |shifted| ensures IsDigit(shifted[i]) || shifted[i] == MINUS {
        if i < |digits| { assert shifted[i] == digits[i]; } else { assert shifted[i] == timestamp[i - |digits|]; }
      }
    }
    NoPipe(shifted, b => IsDigit(b) || b == MINUS);
    NoPipe(signature, IsLowerHex);
    SplitJoinThree(front, shifted, signature, PIPE);
    if Concat(SignedMessage(front + digits, timestamp)) == Concat(SignedMessage(front, shifted)) {
      SignedMessageInjective(front + digits, timestamp, front, shifted);
    }
  }
}
