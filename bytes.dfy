/**
 * Python 2 byte strings (`str`) and the few `str` methods and builtins the
 * OAuth signer and the cookie codec apply to them: ASCII case mapping,
 * `split`/`join` on a one-byte separator, `strip`, `str(int)`, `int(str)`,
 * `binascii.b2a_hex` and the byte-wise ordering used by `sorted`.
 */
module Bytes {
  import opened Wrappers

  newtype byte = x: int | 0 <= x < 256

  /** The Python exceptions the modelled code lets escape. */
  datatype PyError = KeyError | ValueError | TypeError

  /** A Python 2 `str`: a sequence of bytes. */
  type Bytes = seq<byte>

  /** The byte string spelled by an ASCII literal. */
  function Ascii(s: string): (r: Bytes)
    ensures |r| == |s|
    ensures forall i :: 0 <= i < |s| ==> r[i] as int == s[i] as int % 256
  {
    seq(|s|, i requires 0 <= i < |s| => (s[i] as int % 256) as byte)
  }

  const AMP: byte := 0x26      // '&'
  const EQUALS: byte := 0x3D   // '='
  const PIPE: byte := 0x7C     // '|'
  const PERCENT: byte := 0x25  // '%'
  const MINUS: byte := 0x2D    // '-'
  const PLUS: byte := 0x2B     // '+'
  const NEWLINE: byte := 0x0A  // '\n'

  predicate IsDigit(b: byte) { 0x30 <= b <= 0x39 }
  predicate IsUpperAscii(b: byte) { 0x41 <= b <= 0x5A }
  predicate IsLowerAscii(b: byte) { 0x61 <= b <= 0x7A }

  /** The bytes `str.strip()` removes: space, \t, \n, \v, \f, \r. */
  predicate IsSpace(b: byte) { b == 0x20 || 0x09 <= b <= 0x0D }

  predicate Contains(s: Bytes, b: byte) { b in s }

  /** Number of occurrences of `b` in `s`. */
  function Count(s: Bytes, b: byte): (n: nat)
    ensures n <= |s|
    ensures n == 0 <==> b !in s
  {
    if s == [] then 0 else (if s[0] == b then 1 else 0) + Count(s[1..], b)
  }

  lemma {:induction false} CountAppend(s: Bytes, t: Bytes, b: byte)
    ensures Count(s + t, b) == Count(s, b) + Count(t, b)
  {
    if s == [] {
      assert s + t == t;
    } else {
      assert (s + t)[1..] == s[1..] + t;
      CountAppend(s[1..], t, b);
    }
  }

  // ---------------------------------------------------------------------
  // ASCII case mapping (`str.lower()`, `str.upper()` in the C locale)

  function LowerByte(b: byte): byte { if IsUpperAscii(b) then b + 0x20 else b }
  function UpperByte(b: byte): byte { if IsLowerAscii(b) then b - 0x20 else b }

  function Lower(s: Bytes): (r: Bytes)
    ensures |r| == |s|
    ensures forall i :: 0 <= i < |s| ==> r[i] == LowerByte(s[i])
  {
    seq(|s|, i requires 0 <= i < |s| => LowerByte(s[i]))
  }

  function Upper(s: Bytes): (r: Bytes)
    ensures |r| == |s|
    ensures forall i :: 0 <= i < |s| ==> r[i] == UpperByte(s[i])
  {
    seq(|s|, i requires 0 <= i < |s| => UpperByte(s[i]))
  }

  // ---------------------------------------------------------------------
  // `sep.join(parts)` and `s.split(sep)` for a one-byte separator

  function Join(sep: byte, parts: seq<Bytes>): Bytes
  {
    if |parts| == 0 then []
    else if |parts| == 1 then parts[0]
    else parts[0] + [sep] + Join(sep, parts[1..])
  }

  /** `s.split(sep)`: the maximal `sep`-free pieces between separators, never empty. */
  function Split(s: Bytes, sep: byte): (r: seq<Bytes>)
    ensures |r| >= 1
    decreases |s|
  {
    if s == [] then [[]]
    else if s[0] == sep then [[]] + Split(s[1..], sep)
    else
      var rest := Split(s[1..], sep);
      [[s[0]] + rest[0]] + rest[1..]
  }

  lemma {:induction false} SplitPieceCount(s: Bytes, sep: byte)
    ensures |Split(s, sep)| == Count(s, sep) + 1
  {
    if s != [] { SplitPieceCount(s[1..], sep); }
  }

  lemma {:induction false} SplitWithout(p: Bytes, sep: byte)
    requires sep !in p
    ensures Split(p, sep) == [p]
  {
    if p != [] {
      SplitWithout(p[1..], sep);
      assert [p[0]] + p[1..] == p;
    }
  }

  lemma {:induction false} SplitAfterPiece(p: Bytes, t: Bytes, sep: byte)
    requires sep !in p
    ensures Split(p + [sep] + t, sep) == [p] + Split(t, sep)
  {
    if p == [] {
      assert p + [sep] + t == [sep] + t;
      assert ([sep] + t)[1..] == t;
    } else {
      assert (p + [sep] + t)[1..] == p[1..] + [sep] + t;
      SplitAfterPiece(p[1..], t, sep);
      assert [p[0]] + p[1..] == p;
    }
  }

  /** Splitting what was joined gives back the pieces, when no piece holds the separator. */
  lemma {:induction false} SplitJoin(parts: seq<Bytes>, sep: byte)
    requires |parts| >= 1
    requires forall i :: 0 <= i < |parts| ==> sep !in parts[i]
    ensures Split(Join(sep, parts), sep) == parts
  {
    if |parts| == 1 {
      SplitWithout(parts[0], sep);
    } else {
      SplitJoin(parts[1..], sep);
      SplitAfterPiece(parts[0], Join(sep, parts[1..]), sep);
      assert [parts[0]] + parts[1..] == parts;
    }
  }

  lemma JoinThree(a: Bytes, b: Bytes, c: Bytes, sep: byte)
    ensures Join(sep, [a, b, c]) == a + [sep] + (b + [sep] + c)
  {
    assert [b, c][1..] == [c];
    assert Join(sep, [b, c]) == b + [sep] + c;
    assert [a, b, c][1..] == [b, c];
  }

  lemma SplitJoinThree(a: Bytes, b: Bytes, c: Bytes, sep: byte)
    requires sep !in a && sep !in b && sep !in c
    ensures Split(Join(sep, [a, b, c]), sep) == [a, b, c]
  {
    SplitJoin([a, b, c], sep);
  }

  /** Three separator-free parts joined hold the separator exactly twice. */
  lemma CountJoinThree(a: Bytes, b: Bytes, c: Bytes, sep: byte)
    requires sep !in a && sep !in b && sep !in c
    ensures Count(Join(sep, [a, b, c]), sep) == 2
  {
    JoinThree(a, b, c, sep);
    CountAppend(a + [sep], b + [sep] + c, sep);
    CountAppend(a, [sep], sep);
    CountAppend(b + [sep], c, sep);
    CountAppend(b, [sep], sep);
  }

  // ---------------------------------------------------------------------
  // `str.strip()`

  function StripLeft(s: Bytes): (r: Bytes)
    ensures r == [] || !IsSpace(r[0])
    decreases |s|
  {
    if s != [] && IsSpace(s[0]) then StripLeft(s[1..]) else s
  }

  function StripRight(s: Bytes): (r: Bytes)
    ensures r == [] || !IsSpace(r[|r| - 1])
    decreases |s|
  {
    if s != [] && IsSpace(s[|s| - 1]) then StripRight(s[..|s| - 1]) else s
  }

  function Strip(s: Bytes): Bytes
  {
    StripRight(StripLeft(s))
  }

  /** A string with no whitespace at either end is its own `strip()`. */
  lemma StripTrimmed(s: Bytes)
    requires s == [] || (!IsSpace(s[0]) && !IsSpace(s[|s| - 1]))
    ensures Strip(s) == s
  {
  }

  // ---------------------------------------------------------------------
  // `str(n)` and `int(s)` for integers, base 10

  function DigitByte(d: nat): byte
    requires d < 10
  {
    (0x30 + d) as byte
  }

  /** The decimal digits of `n`, most significant first, without leading zeros. */
  function Digits(n: nat): (r: Bytes)
    ensures |r| >= 1
    ensures forall i :: 0 <= i < |r| ==> IsDigit(r[i])
    decreases n
  {
    if n < 10 then [DigitByte(n)] else Digits(n / 10) + [DigitByte(n % 10)]
  }

  /** Python's `str(i)` for an integer. */
  function IntToStr(i: int): (r: Bytes)
    ensures |r| >= 1
    ensures forall k :: 0 <= k < |r| ==> IsDigit(r[k]) || r[k] == MINUS
  {
    if i < 0 then [MINUS] + Digits(-i) else Digits(i)
  }

  /** Python's `int(x)` for a float: truncation toward zero. */
  function Trunc(x: real): (r: int)
    ensures r as real <= x < r as real + 1.0 || r as real - 1.0 < x <= r as real
    ensures x >= 0.0 ==> r >= 0
  {
    if x >= 0.0 then x.Floor else -((-x).Floor)
  }

  /** `str(int(time.time()))` for the clock reading `now`. */
  function Timestamp(now: real): Bytes
  {
    IntToStr(Trunc(now))
  }

  predicate AllDigits(s: Bytes) { forall i :: 0 <= i < |s| ==> IsDigit(s[i]) }

  /** The value of a string of decimal digits. */
  function DigitsValue(s: Bytes): nat
    requires AllDigits(s)
    decreases |s|
  {
    if s == [] then 0 else 10 * DigitsValue(s[..|s| - 1]) + (s[|s| - 1] - 0x30) as int
  }

  /**
   * Python 2's `int(s)` in base 10: surrounding whitespace, an optional sign,
   * more whitespace after the sign (skipped again by the unsigned conversion
   * the signed one delegates to), and at least one digit; anything else
   * raises ValueError (here `None`).
   */
  function ParseInt(s: Bytes): (r: Option<int>)
  {
    var t := Strip(s);
    if t == [] then None
    else
      var sign := if t[0] == MINUS then -1 else 1;
      var body := if t[0] == MINUS || t[0] == PLUS then StripLeft(t[1..]) else t;
      if body != [] && AllDigits(body) then Some(sign * DigitsValue(body)) else None
  }

  /** Leading whitespace is all `StripLeft` removes. */
  lemma {:induction false} StripLeftSpaces(ws: Bytes, t: Bytes)
    requires forall i :: 0 <= i < |ws| ==> IsSpace(ws[i])
    requires t == [] || !IsSpace(t[0])
    ensures StripLeft(ws + t) == t
    decreases |ws|
  {
    if ws != [] {
      assert (ws + t)[1..] == ws[1..] + t;
      StripLeftSpaces(ws[1..], t);
    }
  }

  /** A sign may be followed by whitespace: `int("- 5") == -5`, `int("+\t7") == 7`. */
  lemma SignThenSpaces(sign: byte, ws: Bytes, digits: Bytes)
    requires sign == MINUS || sign == PLUS
    requires forall i :: 0 <= i < |ws| ==> IsSpace(ws[i])
    requires digits != [] && AllDigits(digits)
    ensures ParseInt([sign] + ws + digits) == Some((if sign == MINUS then -1 else 1) * DigitsValue(digits))
  {
    var s := [sign] + ws + digits;
    assert s[0] == sign && s[|s| - 1] == digits[|digits| - 1];
    StripTrimmed(s);
    assert s[1..] == ws + digits;
    StripLeftSpaces(ws, digits);
  }

  lemma {:induction false} DigitsValueOfDigits(n: nat)
    ensures DigitsValue(Digits(n)) == n
    decreases n
  {
    if n >= 10 {
      DigitsValueOfDigits(n / 10);
      var d := Digits(n);
      assert d[..|d| - 1] == Digits(n / 10);
    }
  }

  function Pow10(n: nat): (r: nat)
    ensures r >= 1
  {
    if n == 0 then 1 else 10 * Pow10(n - 1)
  }

  lemma AllDigitsConcat(a: Bytes, b: Bytes)
    requires AllDigits(a) && AllDigits(b)
    ensures AllDigits(a + b)
  {
    forall i | 0 <= i < |a + b| ensures IsDigit((a + b)[i]) {
      if i < |a| { assert (a + b)[i] == a[i]; } else { assert (a + b)[i] == b[i - |a|]; }
    }
  }

  /** Digits appended on the right shift the value of those on the left. */
  lemma {:induction false} DigitsValueAppend(a: Bytes, b: Bytes)
    requires AllDigits(a) && AllDigits(b)
    ensures AllDigits(a + b)
    ensures DigitsValue(a + b) == DigitsValue(a) * Pow10(|b|) + DigitsValue(b)
    decreases |b|
  {
    AllDigitsConcat(a, b);
    if b == [] {
      assert a + b == a;
    } else {
      var b' := b[..|b| - 1];
      var last := (b[|b| - 1] - 0x30) as int;
      assert (a + b)[..|a + b| - 1] == a + b';
      assert AllDigits(b');
      DigitsValueAppend(a, b');
      var x, p, v := DigitsValue(a), Pow10(|b'|), DigitsValue(b');
      assert (a + b)[|a + b| - 1] == b[|b| - 1];
      assert DigitsValue(a + b) == 10 * DigitsValue(a + b') + last;
      assert DigitsValue(b) == 10 * v + last;
      assert Pow10(|b|) == 10 * p;
      ShiftDistributes(x, p, v);
    }
  }

  lemma ShiftDistributes(x: int, p: int, v: int)
    ensures 10 * (x * p + v) == x * (10 * p) + 10 * v
  {
  }

  /** `int(s)` of a non-empty string of digits is its value. */
  lemma ParseIntOfDigits(s: Bytes)
    requires s != [] && AllDigits(s)
    ensures ParseInt(s) == Some(DigitsValue(s))
  {
    assert !IsSpace(s[0]) && !IsSpace(s[|s| - 1]);
    StripTrimmed(s);
  }

  /** `int(str(i)) == i`. */
  lemma ParseIntOfIntToStr(i: int)
    ensures ParseInt(IntToStr(i)) == Some(i)
  {
    var s := IntToStr(i);
    assert !IsSpace(s[0]) && !IsSpace(s[|s| - 1]);
    StripTrimmed(s);
    if i < 0 {
      var d := Digits(-i);
      assert s[0] == MINUS && s[1..] == d;
      DigitsValueOfDigits(-i);
      assert AllDigits(d);
    } else {
      var d := Digits(i);
      assert IsDigit(s[0]) && s == d;
      DigitsValueOfDigits(i);
      assert AllDigits(d);
    }
  }

  // ---------------------------------------------------------------------
  // `binascii.b2a_hex` / `hexdigest()`: two lower-case hex digits per byte

  function HexDigitLower(d: nat): (r: byte)
    requires d < 16
    ensures IsDigit(r) || 0x61 <= r <= 0x66
  {
    if d < 10 then DigitByte(d) else (0x61 + d - 10) as byte
  }

  predicate IsLowerHex(b: byte) { IsDigit(b) || 0x61 <= b <= 0x66 }

  function HexLower(s: Bytes): (r: Bytes)
    ensures |r| == 2 * |s|
    ensures forall i :: 0 <= i < |r| ==> IsLowerHex(r[i])
  {
    if s == [] then []
    else [HexDigitLower(s[0] as int / 16), HexDigitLower(s[0] as int % 16)] + HexLower(s[1..])
  }

  // ---------------------------------------------------------------------
  // Python 2 `str` ordering: byte-wise lexicographic, a proper prefix first

  predicate Below(a: Bytes, b: Bytes)
  {
    if a == [] then b != []
    else if b == [] then false
    else a[0] < b[0] || (a[0] == b[0] && Below(a[1..], b[1..]))
  }

  lemma {:induction false} BelowIrreflexive(a: Bytes)
    ensures !Below(a, a)
  {
    if a != [] { BelowIrreflexive(a[1..]); }
  }

  lemma {:induction false} BelowTrichotomy(a: Bytes, b: Bytes)
    ensures a == b || Below(a, b) || Below(b, a)
    ensures !(Below(a, b) && Below(b, a))
  {
    if a != [] && b != [] {
      BelowTrichotomy(a[1..], b[1..]);
      if a[0] == b[0] && a[1..] == b[1..] {
        assert a == [a[0]] + a[1..];
        assert b == [b[0]] + b[1..];
      }
    }
  }

  lemma {:induction false} BelowTransitive(a: Bytes, b: Bytes, c: Bytes)
    requires Below(a, b) && Below(b, c)
    ensures Below(a, c)
  {
    if a != [] && b != [] && c != [] && a[0] == b[0] && b[0] == c[0] {
      BelowTransitive(a[1..], b[1..], c[1..]);
    }
  }

  predicate IsLeast(k: Bytes, ks: set<Bytes>)
  {
    k in ks && forall j :: j in ks && j != k ==> Below(k, j)
  }

  lemma {:induction false} LeastExists(ks: set<Bytes>)
    requires ks != {}
    ensures exists k :: IsLeast(k, ks)
    decreases |ks|
  {
    var x :| x in ks;
    if ks - {x} == {} {
      assert ks == {x};
      assert IsLeast(x, ks);
    } else {
      LeastExists(ks - {x});
      var y :| IsLeast(y, ks - {x});
      BelowTrichotomy(x, y);
      if Below(x, y) {
        forall j | j in ks && j != x
          ensures Below(x, j)
        {
          if j != y { BelowTransitive(x, y, j); }
        }
        assert IsLeast(x, ks);
      } else {
        assert IsLeast(y, ks);
      }
    }
  }

  lemma LeastUnique(ks: set<Bytes>)
    ensures forall a, b :: IsLeast(a, ks) && IsLeast(b, ks) ==> a == b
  {
    forall a, b | IsLeast(a, ks) && IsLeast(b, ks)
      ensures a == b
    {
      if a != b { BelowTrichotomy(a, b); BelowIrreflexive(a); }
    }
  }

  predicate StrictlyAscending(ks: seq<Bytes>)
  {
    forall i, j :: 0 <= i < j < |ks| ==> Below(ks[i], ks[j])
  }

  /** The keys of a dict in the order `sorted(d.items())` visits them. */
  function SortedKeys(ks: set<Bytes>): (r: seq<Bytes>)
    ensures |r| == |ks|
    ensures forall k :: k in r <==> k in ks
    ensures StrictlyAscending(r)
    decreases |ks|
  {
    if ks == {} then []
    else
      LeastExists(ks);
      LeastUnique(ks);
      var k :| IsLeast(k, ks);
      [k] + SortedKeys(ks - {k})
  }

  /** The head of a strictly ascending listing of a set is its least element. */
  lemma AscendingHeadIsLeast(ks: set<Bytes>, order: seq<Bytes>)
    requires forall k :: k in order <==> k in ks
    requires StrictlyAscending(order) && order != []
    ensures IsLeast(order[0], ks)
  {
    forall j | j in ks && j != order[0]
      ensures Below(order[0], j)
    {
      var n :| 0 <= n < |order| && order[n] == j;
      assert n != 0;
    }
  }

  /** Its tail lists the rest of the set. */
  lemma AscendingTail(ks: set<Bytes>, order: seq<Bytes>)
    requires forall k :: k in order <==> k in ks
    requires StrictlyAscending(order) && order != []
    ensures forall x :: x in order[1..] <==> x in ks - {order[0]}
    ensures StrictlyAscending(order[1..])
  {
    forall x
      ensures x in order[1..] <==> x in ks - {order[0]}
    {
      if x in order[1..] {
        var n :| 1 <= n < |order| && order[n] == x;
        BelowIrreflexive(x);
      }
      if x in ks - {order[0]} {
        var n :| 0 <= n < |order| && order[n] == x;
        assert n != 0;
        assert order[1..][n - 1] == x;
      }
    }
  }

  /**
   * The ascending enumeration is the only one: any strictly ascending listing
   * of the same keys is `SortedKeys`, so the order in which a dict was built
   * cannot change what `sorted` produces.
   */
  lemma {:induction false} SortedKeysUnique(ks: set<Bytes>, order: seq<Bytes>)
    requires forall k :: k in order <==> k in ks
    requires StrictlyAscending(order)
    ensures order == SortedKeys(ks)
    decreases |ks|
  {
    if order == [] {
      assert ks == {} by { assert forall k :: k !in ks; }
    } else {
      assert order[0] in ks;
      var r := SortedKeys(ks);
      LeastUnique(ks);
      AscendingHeadIsLeast(ks, order);
      AscendingHeadIsLeast(ks, r);
      var k := r[0];
      assert order[0] == k;
      assert r[1..] == SortedKeys(ks - {k});
      AscendingTail(ks, order);
      SortedKeysUnique(ks - {k}, order[1..]);
      assert order == [order[0]] + order[1..];
    }
  }
}
