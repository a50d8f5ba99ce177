/**
 * The ECMAScript built-ins the front end calls, as ECMA-262 defines them:
 * strings of UTF-16 code units, `String.prototype.substring`, `parseInt`
 * (section 19.2.5), `String.fromCodePoint` (section 22.1.2.2) and
 * `encodeURIComponent` with its inverse `decodeURIComponent`.
 */
module EcmaScript {
  import opened Wrappers
  import opened Numerals
  import opened Encoding

  /** An ECMAScript String value: a sequence of UTF-16 code units, not necessarily well formed. */
  type JsString = seq<u16>

  /** The String value of a string literal: the UTF-16 form of each character, in order. */
  function ToJs(s: string): (r: JsString)
    ensures |r| >= |s|
  {
    if s == [] then [] else EncodeUtf16(s[0] as int) + ToJs(s[1..])
  }

  lemma {:induction false} ToJsConcat(a: string, b: string)
    ensures ToJs(a + b) == ToJs(a) + ToJs(b)
    decreases |a|
  {
    if a != [] {
      var e := EncodeUtf16(a[0] as int);
      assert (a + b)[0] == a[0];
      assert (a + b)[1..] == a[1..] + b;
      ToJsConcat(a[1..], b);
      assert ToJs(a + b) == e + ToJs(a[1..] + b);
      assert ToJs(a) == e + ToJs(a[1..]);
      assert e + (ToJs(a[1..]) + ToJs(b)) == (e + ToJs(a[1..])) + ToJs(b);
    } else {
      assert a + b == b;
    }
  }

  /** An ASCII literal has one code unit per character, of the same value. */
  lemma {:induction false} ToJsAscii(s: string)
    requires IsAscii(s)
    ensures |ToJs(s)| == |s|
    ensures forall i :: 0 <= i < |s| ==> ToJs(s)[i] as int == s[i] as int
    decreases |s|
  {
    if s != [] {
      ToJsAscii(s[1..]);
      assert ToJs(s) == [s[0] as int as u16] + ToJs(s[1..]);
    }
  }

  /** A String value is its prefix followed by the rest. */
  lemma SplitAt(s: JsString, k: nat)
    requires k <= |s|
    ensures s[..k] + s[k..] == s
  {
  }

  // ----- String.prototype.substring -----

  function Clamp(x: int, len: nat): (r: nat)
    ensures r <= len
  {
    if x < 0 then 0 else if x > len then len else x
  }

  /**
   * `s.substring(start, end)`: both positions clamped to `0..|s|`, then the
   * units between the smaller and the larger.
   */
  function Substring(s: JsString, start: int, end: int): (r: JsString)
    ensures |r| <= |s|
    ensures 0 <= start <= end <= |s| ==> r == s[start..end]
  {
    var a, b := Clamp(start, |s|), Clamp(end, |s|);
    if a <= b then s[a..b] else s[b..a]
  }

  /** `substring` does not care which position comes first. */
  lemma SubstringSwap(s: JsString, start: int, end: int)
    ensures Substring(s, start, end) == Substring(s, end, start)
    ensures |Substring(s, start, end)| <= |s|
  {
  }

  /** Positions before the start or past the end of the string act as its ends. */
  lemma SubstringClamped(s: JsString, start: int, end: int)
    ensures Substring(s, start, end) == Substring(s, Clamp(start, |s|), Clamp(end, |s|))
    ensures start <= 0 ==> Substring(s, start, end) == Substring(s, 0, end)
    ensures end >= |s| ==> Substring(s, start, end) == Substring(s, start, |s|)
  {
  }

  // ----- parseInt -----

  /** StrWhiteSpaceChar: WhiteSpace (TAB, VT, FF, ZWNBSP and the Zs characters) or LineTerminator. */
  predicate IsStrWhiteSpace(u: u16) {
    u in {0x09, 0x0B, 0x0C, 0xFEFF,
          0x20, 0xA0, 0x1680, 0x2000, 0x2001, 0x2002, 0x2003, 0x2004, 0x2005, 0x2006, 0x2007,
          0x2008, 0x2009, 0x200A, 0x202F, 0x205F, 0x3000,
          0x0A, 0x0D, 0x2028, 0x2029}
  }

  /** TrimString(s, start): `s` without its leading white space. */
  function TrimStart(s: JsString): (r: JsString)
    ensures |r| <= |s| && r == s[|s| - |r|..]
    ensures forall i :: 0 <= i < |s| - |r| ==> IsStrWhiteSpace(s[i])
    ensures r == [] || !IsStrWhiteSpace(r[0])
  {
    if s != [] && IsStrWhiteSpace(s[0]) then
      var r := TrimStart(s[1..]);
      assert s[1..][|s| - 1 - |r|..] == s[|s| - |r|..];
      assert forall i :: 1 <= i < |s| - |r| ==> s[i] == s[1..][i - 1];
      r
    else s
  }

  /** The value of a code unit as a radix digit: `0`..`9`, then the Latin letters of either case; 36 for anything else. */
  function UnitDigitValue(u: u16): (v: nat)
    ensures v <= 36
  {
    if u < 0x80 then DigitValue(u as int as char) else 36
  }

  predicate AllUnitDigits(s: JsString, radix: nat) {
    forall i :: 0 <= i < |s| ==> UnitDigitValue(s[i]) < radix
  }

  /** The mathematical value of a numeral of code units, most significant digit first. */
  function UnitsValue(s: JsString, radix: nat): nat
    requires AllUnitDigits(s, radix)
  {
    if s == [] then 0
    else
      var v := UnitsValue(s[..|s| - 1], radix);
      MulNat(v, radix);
      v * radix + UnitDigitValue(s[|s| - 1])
  }

  /** The length of the longest prefix of `s` made of radix digits. */
  function DigitPrefixLength(s: JsString, radix: nat): (k: nat)
    ensures k <= |s| && AllUnitDigits(s[..k], radix)
    ensures k < |s| ==> UnitDigitValue(s[k]) >= radix
  {
    if s == [] || UnitDigitValue(s[0]) >= radix then 0
    else
      var k := 1 + DigitPrefixLength(s[1..], radix);
      assert forall i :: 1 <= i < k ==> s[..k][i] == s[1..][..k - 1][i - 1];
      k
  }

  const Minus: u16 := 0x2D
  const Plus: u16 := 0x2B

  /** Strips a `0x` or `0X` prefix (step 9 of parseInt with radix 16). */
  function StripHexPrefix(s: JsString): (r: JsString)
    ensures r == s || (|s| >= 2 && s[0] == 0x30 && (s[1] == 0x78 || s[1] == 0x58) && r == s[2..])
  {
    if |s| >= 2 && s[0] == 0x30 && (s[1] == 0x78 || s[1] == 0x58) then s[2..] else s
  }

  /**
   * `parseInt(s, 16)`: leading white space dropped, then an optional sign,
   * then an optional `0x`/`0X`, then the longest run of hexadecimal digits.
   * No digit at all gives NaN, here `None`. A value that does not fit a
   * Number exactly is kept exact here (see `FromCodePoint`).
   */
  function ParseIntHex(s: JsString): (r: Option<int>)
    ensures r.Some? ==> TrimStart(s) != [] && (r.value < 0 ==> TrimStart(s)[0] == Minus)
  {
    ParseTrimmed(TrimStart(s))
  }

  /** parseInt after the white space: an optional sign, then the magnitude. */
  function ParseTrimmed(t: JsString): (r: Option<int>)
    ensures r.Some? ==> t != [] && (r.value < 0 ==> t[0] == Minus)
  {
    var sign := if t != [] && t[0] == Minus then -1 else 1;
    var unsigned := if t != [] && (t[0] == Minus || t[0] == Plus) then t[1..] else t;
    match HexMagnitude(unsigned)
    case None => None
    case Some(m) => Some(sign * m)
  }

  /** The digits parseInt reads after the sign: the leading run of what StripHexPrefix leaves; `None` for no digit. */
  function HexMagnitude(v: JsString): (r: Option<nat>)
    ensures r.Some? ==> v != []
  {
    var digits := StripHexPrefix(v);
    var end := DigitPrefixLength(digits, 16);
    if end == 0 then None else Some(UnitsValue(digits[..end], 16))
  }

  /** A code unit that starts a numeral is neither white space nor a sign. */
  lemma DigitIsNoSpaceOrSign(u: u16)
    requires UnitDigitValue(u) < 16
    ensures !IsStrWhiteSpace(u) && u != Minus && u != Plus
  {
  }

  /** A numeral of code units has the value of a numeral of characters with the same digits. */
  lemma {:induction false} UnitsValuePointwise(t: JsString, s: string, radix: nat)
    requires |t| == |s| && AllDigits(s, radix)
    requires forall i :: 0 <= i < |s| ==> UnitDigitValue(t[i]) == DigitValue(s[i])
    ensures AllUnitDigits(t, radix) && UnitsValue(t, radix) == ParseDigits(s, radix)
    decreases |s|
  {
    if s != [] {
      UnitsValuePointwise(t[..|t| - 1], s[..|s| - 1], radix);
    }
  }

  /** The String value of an ASCII numeral has, unit by unit, the digits of the numeral. */
  lemma NumeralUnits(s: string)
    requires IsAscii(s)
    ensures |ToJs(s)| == |s|
    ensures forall i :: 0 <= i < |s| ==> UnitDigitValue(ToJs(s)[i]) == DigitValue(s[i])
  {
    ToJsAscii(s);
    var t := ToJs(s);
    forall i | 0 <= i < |s|
      ensures UnitDigitValue(t[i]) == DigitValue(s[i])
    {
      assert t[i] as int as char == s[i];
    }
  }

  /** A run of hexadecimal digits parses to its value. */
  lemma ParseIntOfDigits(t: JsString)
    requires t != [] && AllUnitDigits(t, 16)
    ensures ParseIntHex(t) == Some(UnitsValue(t, 16) as int)
  {
    DigitIsNoSpaceOrSign(t[0]);
    assert TrimStart(t) == t;
    NotHexPrefix(t);
    DigitPrefixAll(t, 16);
    assert t[..|t|] == t;
  }

  /** A run of hexadecimal digits after a minus sign parses to the negated value. */
  lemma ParseIntOfNegatedDigits(t: JsString)
    requires t != [] && AllUnitDigits(t, 16)
    ensures ParseIntHex([Minus] + t) == Some(-1 * UnitsValue(t, 16))
  {
    var m := [Minus] + t;
    assert m[0] == Minus && !IsStrWhiteSpace(Minus);
    assert TrimStart(m) == m;
    assert m[1..] == t;
    NotHexPrefix(t);
    DigitPrefixAll(t, 16);
    assert t[..|t|] == t;
  }

  /** A string that starts with something other than white space, a sign or a hexadecimal digit is NaN. */
  lemma ParseIntNoDigit(t: JsString)
    requires t != [] && UnitDigitValue(t[0]) >= 16
    requires !IsStrWhiteSpace(t[0]) && t[0] != Minus && t[0] != Plus
    ensures ParseIntHex(t) == None
  {
    assert TrimStart(t) == t;
    assert UnitDigitValue(0x30) == 0;
    assert StripHexPrefix(t) == t;
  }

  /** White space in front of a string that starts with something else is trimmed away exactly. */
  lemma {:induction false} TrimStartOfSpaced(w: JsString, u: JsString)
    requires forall i :: 0 <= i < |w| ==> IsStrWhiteSpace(w[i])
    requires u == [] || !IsStrWhiteSpace(u[0])
    ensures TrimStart(w + u) == u
    decreases |w|
  {
    if w != [] {
      assert (w + u)[0] == w[0];
      assert (w + u)[1..] == w[1..] + u;
      TrimStartOfSpaced(w[1..], u);
    } else {
      assert w + u == u;
    }
  }

  /** parseInt skips leading white space: it reads `w + u` as it reads `u`. */
  lemma ParseIntHexSpaced(w: JsString, u: JsString)
    requires forall i :: 0 <= i < |w| ==> IsStrWhiteSpace(w[i])
    requires u == [] || !IsStrWhiteSpace(u[0])
    ensures ParseIntHex(w + u) == ParseIntHex(u)
  {
    TrimStartOfSpaced(w, u);
    assert TrimStart(u) == u;
  }

  /** The reading of a digit run `rest`: NaN without a leading digit, else the leading digits' value, negated when asked. */
  function HexReading(rest: JsString, negative: bool): Option<int> {
    if rest == [] || UnitDigitValue(rest[0]) >= 16 then None
    else Some((if negative then -1 else 1) * UnitsValue(rest[..DigitPrefixLength(rest, 16)], 16))
  }

  /**
   * What `parseInt(s, 16)` reads, for `s` written as white space `w`, an
   * optional sign `sg`, an optional `0x`/`0X` prefix `pre` and the rest:
   * NaN exactly when the rest does not start with a hexadecimal digit;
   * otherwise the value of the rest's leading digits, negated after `-`.
   * The last two requirements make the split the one parseInt itself makes.
   */
  lemma ParseIntHexForm(w: JsString, sg: JsString, pre: JsString, rest: JsString)
    requires forall i :: 0 <= i < |w| ==> IsStrWhiteSpace(w[i])
    requires sg == [] || sg == [Plus] || sg == [Minus]
    requires pre == [] || pre == [0x30, 0x78] || pre == [0x30, 0x58]
    requires sg == [] && pre == [] && rest != [] ==> !IsStrWhiteSpace(rest[0]) && rest[0] != Minus && rest[0] != Plus
    requires pre == [] ==> StripHexPrefix(rest) == rest
    ensures ParseIntHex(w + sg + pre + rest).None? <==> rest == [] || UnitDigitValue(rest[0]) >= 16
    ensures rest != [] && UnitDigitValue(rest[0]) < 16 ==>
              ParseIntHex(w + sg + pre + rest)
              == Some((if sg == [Minus] then -1 else 1) * UnitsValue(rest[..DigitPrefixLength(rest, 16)], 16))
  {
    Regroup(w, sg, pre, rest);
    MagnitudeOfRest(pre, rest);
    if sg == [] {
      assert sg + (pre + rest) == pre + rest;
      ParseIntHexFormUnsigned(w, pre, rest);
    } else {
      ParseIntHexFormSigned(w, sg[0], pre, rest);
    }
  }

  /** The magnitude after an optional prefix is the reading of the rest. */
  lemma MagnitudeOfRest(pre: JsString, rest: JsString)
    requires pre == [] || pre == [0x30, 0x78] || pre == [0x30, 0x58]
    requires pre == [] ==> StripHexPrefix(rest) == rest
    ensures HexMagnitude(pre + rest) == if HexReading(rest, false).None? then None else Some(HexReading(rest, false).value as nat)
  {
    StrippedPrefix(pre, rest);
  }

  lemma ParseIntHexFormUnsigned(w: JsString, pre: JsString, rest: JsString)
    requires forall i :: 0 <= i < |w| ==> IsStrWhiteSpace(w[i])
    requires pre == [] || pre == [0x30, 0x78] || pre == [0x30, 0x58]
    requires pre == [] && rest != [] ==> !IsStrWhiteSpace(rest[0]) && rest[0] != Minus && rest[0] != Plus
    requires HexMagnitude(pre + rest) == if HexReading(rest, false).None? then None else Some(HexReading(rest, false).value as nat)
    ensures ParseIntHex(w + (pre + rest)) == HexReading(rest, false)
  {
    var v := pre + rest;
    if pre != [] {
      assert v[0] == 0x30;
    } else {
      assert v == rest;
    }
    ParseIntHexSpaced(w, v);
    ParseIntHexUnsigned(v);
  }

  lemma ParseIntHexFormSigned(w: JsString, sign: u16, pre: JsString, rest: JsString)
    requires forall i :: 0 <= i < |w| ==> IsStrWhiteSpace(w[i])
    requires sign == Minus || sign == Plus
    requires HexMagnitude(pre + rest) == if HexReading(rest, false).None? then None else Some(HexReading(rest, false).value as nat)
    ensures ParseIntHex(w + ([sign] + (pre + rest))) == HexReading(rest, sign == Minus)
  {
    var u := [sign] + (pre + rest);
    assert u[0] == sign;
    ParseIntHexSpaced(w, u);
    ParseIntHexSigned(sign, pre + rest);
  }

  lemma Regroup(w: JsString, sg: JsString, pre: JsString, rest: JsString)
    ensures w + sg + pre + rest == w + (sg + (pre + rest))
  {
  }

  /** A `0x` or `0X` prefix, or none, is what StripHexPrefix takes away. */
  lemma StrippedPrefix(pre: JsString, rest: JsString)
    requires pre == [] || pre == [0x30, 0x78] || pre == [0x30, 0x58]
    requires pre == [] ==> StripHexPrefix(rest) == rest
    ensures StripHexPrefix(pre + rest) == rest
  {
    if pre != [] {
      assert (pre + rest)[2..] == rest;
    } else {
      assert pre + rest == rest;
    }
  }

  /** Without white space or a sign in front, parseInt reads the magnitude. */
  lemma ParseIntHexUnsigned(v: JsString)
    requires v == [] || (!IsStrWhiteSpace(v[0]) && v[0] != Minus && v[0] != Plus)
    ensures ParseIntHex(v) == if HexMagnitude(v).None? then None else Some(HexMagnitude(v).value as int)
  {
    assert TrimStart(v) == v;
  }

  /** After a sign, parseInt reads the magnitude, negated after `-`. */
  lemma ParseIntHexSigned(sign: u16, v: JsString)
    requires sign == Minus || sign == Plus
    ensures ParseIntHex([sign] + v)
            == if HexMagnitude(v).None? then None
               else Some((if sign == Minus then -1 else 1) * HexMagnitude(v).value)
  {
    var u := [sign] + v;
    assert u[0] == sign && !IsStrWhiteSpace(sign);
    assert TrimStart(u) == u;
    assert u[1..] == v;
  }

  /** `parseInt(n.toString(16), 16) == n`: a hexadecimal numeral, as Rust's `x` or `X` specifier writes it, parses to its value. */
  lemma ParseIntOfNumeral(n: nat, upper: bool)
    ensures ParseIntHex(ToJs(ToDigits(n, 16, upper))) == Some(n)
    ensures ParseIntHex([Minus] + ToJs(ToDigits(n, 16, upper))) == Some(-1 * n)
  {
    var s := ToDigits(n, 16, upper);
    var t := ToJs(s);
    NumeralUnits(s);
    ParseToDigits(n, 16, upper);
    UnitsValuePointwise(t, s, 16);
    ParseIntOfDigits(t);
    ParseIntOfNegatedDigits(t);
  }

  /** A string of hexadecimal digits has no `0x` prefix, since `x` and `X` are no hexadecimal digits. */
  lemma NotHexPrefix(t: JsString)
    requires AllUnitDigits(t, 16)
    ensures StripHexPrefix(t) == t
  {
    assert UnitDigitValue(0x78) == 33 && UnitDigitValue(0x58) == 33;
    if |t| >= 2 {
      assert UnitDigitValue(t[1]) < 16;
    }
  }

  /** A string made of digits is its own longest digit prefix. */
  lemma {:induction false} DigitPrefixAll(s: JsString, radix: nat)
    requires AllUnitDigits(s, radix)
    ensures DigitPrefixLength(s, radix) == |s|
    decreases |s|
  {
    if s != [] {
      DigitPrefixAll(s[1..], radix);
    }
  }

  // ----- String.fromCodePoint -----

  /**
   * `String.fromCodePoint(n)` for an integral `n`: a RangeError (here `None`)
   * outside U+0000..U+10FFFF, otherwise UTF16EncodeCodePoint(n). Surrogate
   * values are accepted and give a lone surrogate.
   */
  function FromCodePoint(n: int): (r: Option<JsString>)
    ensures r.Some? <==> IsCodePoint(n)
    ensures r.Some? ==> r.value == EncodeUtf16(n) && DecodeUtf16(r.value) == Some(n)
  {
    if IsCodePoint(n) then
      Utf16RoundTrip(n);
      Some(EncodeUtf16(n))
    else None
  }

  // ----- CodePointAt and well-formed strings -----

  /** The record CodePointAt returns: the code point, how many units it takes, and whether it is a lone surrogate. */
  datatype CodePointRecord = CodePointRecord(codePoint: int, codeUnitCount: nat, isUnpairedSurrogate: bool)

  /** CodePointAt(s, k): a surrogate pair is read as one code point, anything else as one unit. */
  function CodePointAt(s: JsString, k: nat): (r: CodePointRecord)
    requires k < |s|
    ensures r.codeUnitCount == 1 || r.codeUnitCount == 2
    ensures k + r.codeUnitCount <= |s|
    ensures IsCodePoint(r.codePoint)
    ensures !r.isUnpairedSurrogate ==> IsScalarValue(r.codePoint)
    ensures !r.isUnpairedSurrogate ==> EncodeUtf16(r.codePoint) == s[k..k + r.codeUnitCount]
    ensures r.isUnpairedSurrogate <==>
              (IsLowSurrogate(s[k] as int)
               || (IsHighSurrogate(s[k] as int) && (k + 1 == |s| || !IsLowSurrogate(s[k + 1] as int))))
  {
    var first := s[k];
    if !IsHighSurrogate(first as int) && !IsLowSurrogate(first as int) then
      CodePointRecord(first as int, 1, false)
    else if IsLowSurrogate(first as int) || k + 1 == |s| then
      CodePointRecord(first as int, 1, true)
    else if !IsLowSurrogate(s[k + 1] as int) then
      CodePointRecord(first as int, 1, true)
    else
      var cp := SurrogatePairToCodePoint(first, s[k + 1]);
      Utf16Canonical(s[k..k + 2], cp);
      CodePointRecord(cp, 2, false)
  }

  /** IsStringWellFormedUnicode: no lone surrogate anywhere. */
  predicate WellFormed(s: JsString)
    decreases |s|
  {
    s == [] || (!CodePointAt(s, 0).isUnpairedSurrogate && WellFormed(s[CodePointAt(s, 0).codeUnitCount..]))
  }

  /** The String value of a Dafny string, whose characters are scalar values, is well formed. */
  lemma {:induction false} ToJsWellFormed(s: string)
    ensures WellFormed(ToJs(s))
    decreases |s|
  {
    if s != [] {
      var t := ToJs(s);
      var e := EncodeUtf16(s[0] as int);
      assert t == e + ToJs(s[1..]);
      var r := CodePointAt(t, 0);
      assert !r.isUnpairedSurrogate;
      assert r.codeUnitCount == |e| by {
        if |e| == 1 {
          assert !IsHighSurrogate(t[0] as int);
        } else {
          assert IsLowSurrogate(t[1] as int);
        }
      }
      assert t[r.codeUnitCount..] == ToJs(s[1..]);
      ToJsWellFormed(s[1..]);
    }
  }

  // ----- encodeURIComponent -----

  /** The characters encodeURIComponent leaves alone: ASCII letters and digits and `-_.!~*'()`. */
  predicate IsUnreserved(u: u16) {
    (0x41 <= u <= 0x5A) || (0x61 <= u <= 0x7A) || (0x30 <= u <= 0x39)
    || u in {0x2D, 0x5F, 0x2E, 0x21, 0x7E, 0x2A, 0x27, 0x28, 0x29}
  }

  const Percent: u16 := 0x25

  /** A code unit that may appear in the output of encodeURIComponent. */
  predicate IsUriUnit(u: u16) {
    IsUnreserved(u) || u == Percent
  }

  /** `%` and two upper-case hexadecimal digits per octet. */
  function PercentEncode(octets: seq<u8>): (r: JsString)
    ensures |r| == 3 * |octets|
    ensures forall i :: 0 <= i < |r| ==> IsUriUnit(r[i])
    ensures forall j :: 0 <= j < |octets| ==> r[3 * j] == Percent
  {
    if octets == [] then []
    else
      var head := PercentOctet(octets[0]);
      var rest := PercentEncode(octets[1..]);
      assert forall j :: 1 <= j < |octets| ==> (head + rest)[3 * j] == rest[3 * (j - 1)];
      head + rest
  }

  /** One octet as `%XX`: StringPad of its upper-case hexadecimal form to two digits. */
  function PercentOctet(b: u8): (r: JsString)
    ensures |r| == 3 && r[0] == Percent && IsUnreserved(r[1]) && IsUnreserved(r[2])
    ensures UnitDigitValue(r[1]) < 16 && UnitDigitValue(r[2]) < 16
    ensures UnitDigitValue(r[1]) * 16 + UnitDigitValue(r[2]) == b as int
  {
    var hi, lo := DigitChar(b as int / 16, true), DigitChar(b as int % 16, true);
    [Percent, hi as int as u16, lo as int as u16]
  }

  /**
   * encodeURIComponent: unreserved units are copied, every other code point
   * becomes the `%XX` escapes of its UTF-8 octets, and a lone surrogate
   * throws a URIError (here `None`).
   */
  function EncodeURIComponent(s: JsString): (r: Option<JsString>)
    ensures r.Some? ==> forall i :: 0 <= i < |r.value| ==> IsUriUnit(r.value[i])
    decreases |s|
  {
    if s == [] then Some([])
    else if IsUnreserved(s[0]) then
      match EncodeURIComponent(s[1..])
      case Some(rest) => Some([s[0]] + rest)
      case None => None
    else
      var cp := CodePointAt(s, 0);
      if cp.isUnpairedSurrogate then None
      else
        match EncodeURIComponent(s[cp.codeUnitCount..])
        case Some(rest) => Some(PercentEncode(EncodeUtf8(cp.codePoint)) + rest)
        case None => None
  }

  /** encodeURIComponent succeeds exactly on well-formed strings. */
  lemma {:induction false} EncodeDefinedIffWellFormed(s: JsString)
    ensures EncodeURIComponent(s).Some? <==> WellFormed(s)
    decreases |s|
  {
    if s != [] {
      var cp := CodePointAt(s, 0);
      if IsUnreserved(s[0]) {
        assert cp.codeUnitCount == 1 && !cp.isUnpairedSurrogate;
      }
      if !cp.isUnpairedSurrogate {
        EncodeDefinedIffWellFormed(s[cp.codeUnitCount..]);
      }
    }
  }

  /** A string of unreserved characters is its own encoding. */
  lemma {:induction false} EncodeUnreserved(s: JsString)
    requires forall i :: 0 <= i < |s| ==> IsUnreserved(s[i])
    ensures EncodeURIComponent(s) == Some(s)
    decreases |s|
  {
    if s != [] {
      EncodeUnreserved(s[1..]);
      assert s == [s[0]] + s[1..];
    }
  }

  // ----- decodeURIComponent -----

  /** The number of octets a UTF-8 sequence has, read off its lead octet; 0 for an octet that cannot lead. */
  function LeadLength(b: u8): nat {
    if b < 0x80 then 1 else if 0xC0 <= b < 0xE0 then 2 else if 0xE0 <= b < 0xF0 then 3
    else if 0xF0 <= b < 0xF8 then 4 else 0
  }

  /** `n` escapes `%XX` at the front of `s`, as octets; `None` when they are not there. */
  function ReadOctets(s: JsString, n: nat): (r: Option<seq<u8>>)
    ensures r.Some? ==> |r.value| == n && |s| >= 3 * n
    decreases n
  {
    if n == 0 then Some([])
    else if |s| >= 3 && s[0] == Percent && UnitDigitValue(s[1]) < 16 && UnitDigitValue(s[2]) < 16 then
      var b := (UnitDigitValue(s[1]) * 16 + UnitDigitValue(s[2])) as u8;
      match ReadOctets(s[3..], n - 1)
      case Some(rest) => Some([b] + rest)
      case None => None
    else None
  }

  /**
   * decodeURIComponent: every `%` starts the escapes of one UTF-8 sequence,
   * which is decoded and written back as UTF-16; other units are copied. A
   * malformed escape or sequence throws a URIError (here `None`).
   */
  function DecodeURIComponent(s: JsString): (r: Option<JsString>)
    ensures r.Some? ==> |r.value| <= |s|
    ensures (forall i :: 0 <= i < |s| ==> s[i] != Percent) ==> r == Some(s)
    decreases |s|
  {
    if s == [] then Some([])
    else if s[0] != Percent then
      assert forall i :: 0 <= i < |s| - 1 ==> s[1..][i] == s[i + 1];
      match DecodeURIComponent(s[1..])
      case Some(rest) =>
        assert (forall i :: 0 <= i < |s| ==> s[i] != Percent) ==> rest == s[1..];
        assert [s[0]] + s[1..] == s;
        Some([s[0]] + rest)
      case None => None
    else
      match ReadOctets(s, 1)
      case None => None
      case Some(lead) =>
        var n := LeadLength(lead[0]);
        if n == 0 then None
        else
          match ReadOctets(s, n)
          case None => None
          case Some(octets) =>
            match DecodeUtf8(octets)
            case None => None
            case Some(cp) =>
              match DecodeURIComponent(s[3 * n..])
              case Some(rest) => Some(EncodeUtf16(cp) + rest)
              case None => None
  }

  /** Reading one escape more: the octet it spells, then what follows. */
  lemma ReadOctetsStep(b: u8, more: JsString, k: nat)
    requires ReadOctets(more, k).Some?
    ensures ReadOctets(PercentOctet(b) + more, k + 1) == Some([b] + ReadOctets(more, k).value)
  {
    var head := PercentOctet(b);
    var s := head + more;
    assert s[0] == Percent && s[1] == head[1] && s[2] == head[2];
    assert s[3..] == more;
  }

  lemma {:induction false} ReadPercentEncoded(octets: seq<u8>, tail: JsString, n: nat)
    requires n <= |octets|
    ensures ReadOctets(PercentEncode(octets) + tail, n) == Some(octets[..n])
    decreases n
  {
    if n > 0 {
      var rest := PercentEncode(octets[1..]);
      assert PercentEncode(octets) + tail == PercentOctet(octets[0]) + (rest + tail);
      ReadPercentEncoded(octets[1..], tail, n - 1);
      ReadOctetsStep(octets[0], rest + tail, n - 1);
      assert octets[..n] == [octets[0]] + octets[1..][..n - 1];
    }
  }

  /** The escapes of one scalar value decode to its UTF-16 form, and decoding goes on after them. */
  lemma DecodeEscaped(cp: int, rest: JsString)
    requires IsScalarValue(cp) && DecodeURIComponent(rest).Some?
    ensures DecodeURIComponent(PercentEncode(EncodeUtf8(cp)) + rest)
            == Some(EncodeUtf16(cp) + DecodeURIComponent(rest).value)
  {
    var octets := EncodeUtf8(cp);
    var e := PercentEncode(octets) + rest;
    assert e[0] == Percent;
    ReadPercentEncoded(octets, rest, 1);
    ReadPercentEncoded(octets, rest, |octets|);
    assert octets[..|octets|] == octets;
    assert LeadLength(octets[0]) == |octets|;
    Utf8RoundTrip(cp);
    assert e[3 * |octets|..] == rest;
  }

  /** decodeURIComponent undoes encodeURIComponent. */
  lemma {:induction false} DecodeEncode(s: JsString)
    requires EncodeURIComponent(s).Some?
    ensures DecodeURIComponent(EncodeURIComponent(s).value) == Some(s)
    decreases |s|
  {
    if s != [] {
      var e := EncodeURIComponent(s).value;
      if IsUnreserved(s[0]) {
        DecodeEncode(s[1..]);
        assert e == [s[0]] + EncodeURIComponent(s[1..]).value;
        assert e[0] == s[0] != Percent;
        assert e[1..] == EncodeURIComponent(s[1..]).value;
        assert s == [s[0]] + s[1..];
      } else {
        var cp := CodePointAt(s, 0);
        var k := cp.codeUnitCount;
        var rest := EncodeURIComponent(s[k..]).value;
        assert e == PercentEncode(EncodeUtf8(cp.codePoint)) + rest;
        DecodeEncode(s[k..]);
        DecodeEscaped(cp.codePoint, rest);
        SplitAt(s, k);
      }
    }
  }

  /** Different well-formed strings get different encodings. */
  lemma EncodeInjective(s: JsString, t: JsString)
    requires EncodeURIComponent(s).Some? && EncodeURIComponent(s) == EncodeURIComponent(t)
    ensures s == t
  {
    DecodeEncode(s);
    DecodeEncode(t);
  }
}
