/**
 * UTF-8 (section 3 of RFC 3629) and UTF-16 (section 2.1 of RFC 2781) for a
 * single code point, written with arithmetic on the code point's value, with
 * the decoders that invert them.
 */
module Encoding {
  import opened Numerals
  import opened Wrappers

  /** A Unicode code point, U+0000..U+10FFFF, surrogates included (what `String.fromCodePoint` accepts). */
  predicate IsCodePoint(cp: int) {
    0 <= cp < 0x11_0000
  }

  /** A Unicode scalar value: a code point that is not a surrogate (what a Rust `char` or a Dafny `char` holds). */
  predicate IsScalarValue(cp: int) {
    0 <= cp < 0xD800 || 0xE000 <= cp < 0x11_0000
  }

  // ----- UTF-8 -----

  /** `char::len_utf8`: the number of bytes of the UTF-8 form, by the thresholds of RFC 3629. */
  function Utf8Length(cp: int): (n: nat)
    ensures 1 <= n <= 4
  {
    if cp < 0x80 then 1 else if cp < 0x800 then 2 else if cp < 0x1_0000 then 3 else 4
  }

  /**
   * The value bits an `n`-byte form carries: seven in a single byte; otherwise
   * `7 - n` in the lead byte and six in each continuation byte.
   */
  function PayloadBits(n: nat): nat
    requires 1 <= n <= 4
  {
    if n == 1 then 7 else (7 - n) + 6 * (n - 1)
  }

  lemma PayloadCapacities()
    ensures Pow(2, PayloadBits(1)) == 0x80 && Pow(2, PayloadBits(2)) == 0x800
    ensures Pow(2, PayloadBits(3)) == 0x1_0000 && Pow(2, PayloadBits(4)) == 0x20_0000
  {
    assert PayloadBits(1) == 7 && PayloadBits(2) == 11 && PayloadBits(3) == 16 && PayloadBits(4) == 21;
    assert Pow(2, 7) == 0x80;
    assert Pow(2, 11) == 0x800 by {
      assert Pow(2, 8) == 2 * Pow(2, 7);
      assert Pow(2, 9) == 2 * Pow(2, 8);
      assert Pow(2, 10) == 2 * Pow(2, 9);
    }
    assert Pow(2, 16) == 0x1_0000 by {
      assert Pow(2, 12) == 2 * Pow(2, 11);
      assert Pow(2, 13) == 2 * Pow(2, 12);
      assert Pow(2, 14) == 2 * Pow(2, 13);
      assert Pow(2, 15) == 2 * Pow(2, 14);
    }
    assert Pow(2, 21) == 0x20_0000 by {
      assert Pow(2, 17) == 2 * Pow(2, 16);
      assert Pow(2, 18) == 2 * Pow(2, 17);
      assert Pow(2, 19) == 2 * Pow(2, 18);
      assert Pow(2, 20) == 2 * Pow(2, 19);
    }
  }

  /** `len_utf8` is the fewest bytes whose value bits hold the code point. */
  lemma Utf8LengthIsShortest(cp: int)
    requires 0 <= cp < 0x20_0000
    ensures var n := Utf8Length(cp);
      cp < Pow(2, PayloadBits(n)) && (n > 1 ==> Pow(2, PayloadBits(n - 1)) <= cp)
  {
    PayloadCapacities();
  }

  predicate IsContinuation(b: u8) {
    0x80 <= b < 0xC0
  }

  /**
   * The UTF-8 form of a scalar value: one byte 0xxxxxxx, or a lead byte
   * 110xxxxx, 1110xxxx or 11110xxx followed by one, two or three bytes
   * 10xxxxxx, the value's bits distributed from the high end.
   */
  function EncodeUtf8(cp: int): (bs: seq<u8>)
    requires IsScalarValue(cp)
    ensures |bs| == Utf8Length(cp)
    ensures |bs| == 1 ==> bs[0] < 0x80
    ensures |bs| == 2 ==> 0xC0 <= bs[0] < 0xE0
    ensures |bs| == 3 ==> 0xE0 <= bs[0] < 0xF0
    ensures |bs| == 4 ==> 0xF0 <= bs[0] < 0xF8
    ensures forall i :: 1 <= i < |bs| ==> IsContinuation(bs[i])
  {
    if cp < 0x80 then
      [cp as u8]
    else if cp < 0x800 then
      [(0xC0 + cp / 0x40) as u8, (0x80 + cp % 0x40) as u8]
    else if cp < 0x1_0000 then
      [(0xE0 + cp / 0x1000) as u8, (0x80 + cp / 0x40 % 0x40) as u8, (0x80 + cp % 0x40) as u8]
    else
      [(0xF0 + cp / 0x4_0000) as u8, (0x80 + cp / 0x1000 % 0x40) as u8,
       (0x80 + cp / 0x40 % 0x40) as u8, (0x80 + cp % 0x40) as u8]
  }

  /** The six value bits of a continuation byte. */
  function Bits(b: u8): int {
    b as int - 0x80
  }

  /**
   * Decodes exactly one UTF-8 sequence: the lead byte fixes the length, the
   * rest must be continuation bytes, and overlong forms, surrogates and values
   * above U+10FFFF are refused (sections 3 and 4 of RFC 3629).
   */
  function DecodeUtf8(bs: seq<u8>): (r: Option<int>)
    ensures r.Some? ==> IsScalarValue(r.value)
    ensures r.Some? ==> |bs| == Utf8Length(r.value)
  {
    if |bs| == 1 && bs[0] < 0x80 then
      Some(bs[0] as int)
    else if |bs| == 2 && 0xC0 <= bs[0] < 0xE0 && IsContinuation(bs[1]) then
      var cp := (bs[0] as int - 0xC0) * 0x40 + Bits(bs[1]);
      if 0x80 <= cp then Some(cp) else None
    else if |bs| == 3 && 0xE0 <= bs[0] < 0xF0 && IsContinuation(bs[1]) && IsContinuation(bs[2]) then
      var cp := (bs[0] as int - 0xE0) * 0x1000 + Bits(bs[1]) * 0x40 + Bits(bs[2]);
      if 0x800 <= cp && !(0xD800 <= cp < 0xE000) then Some(cp) else None
    else if |bs| == 4 && 0xF0 <= bs[0] < 0xF8 && IsContinuation(bs[1]) && IsContinuation(bs[2])
         && IsContinuation(bs[3]) then
      var cp := (bs[0] as int - 0xF0) * 0x4_0000 + Bits(bs[1]) * 0x1000 + Bits(bs[2]) * 0x40 + Bits(bs[3]);
      if 0x1_0000 <= cp < 0x11_0000 then Some(cp) else None
    else
      None
  }

  /** Decoding the UTF-8 form of a scalar value gives the value back. */
  lemma Utf8RoundTrip(cp: int)
    requires IsScalarValue(cp)
    ensures DecodeUtf8(EncodeUtf8(cp)) == Some(cp)
  {
    if 0x80 <= cp < 0x800 {
      Utf8RoundTrip2(cp);
    } else if 0x800 <= cp < 0x1_0000 {
      Utf8RoundTrip3(cp);
    } else if 0x1_0000 <= cp {
      Utf8RoundTrip4(cp);
    }
  }

  lemma Utf8RoundTrip2(cp: int)
    requires IsScalarValue(cp) && 0x80 <= cp < 0x800
    ensures DecodeUtf8(EncodeUtf8(cp)) == Some(cp)
  {
    var bs := EncodeUtf8(cp);
    var a, b := cp / 0x40, cp % 0x40;
    assert cp == a * 0x40 + b;
    assert bs[0] as int - 0xC0 == a && Bits(bs[1]) == b;
  }

  lemma Utf8RoundTrip3(cp: int)
    requires IsScalarValue(cp) && 0x800 <= cp < 0x1_0000
    ensures DecodeUtf8(EncodeUtf8(cp)) == Some(cp)
  {
    var bs := EncodeUtf8(cp);
    var q, c := cp / 0x40, cp % 0x40;
    var a, b := q / 0x40, q % 0x40;
    assert cp == q * 0x40 + c && q == a * 0x40 + b;
    assert cp / 0x1000 == a;
    assert cp == a * 0x1000 + b * 0x40 + c;
    assert bs[0] as int - 0xE0 == a && Bits(bs[1]) == b && Bits(bs[2]) == c;
  }

  lemma Utf8RoundTrip4(cp: int)
    requires IsScalarValue(cp) && 0x1_0000 <= cp
    ensures DecodeUtf8(EncodeUtf8(cp)) == Some(cp)
  {
    var bs := EncodeUtf8(cp);
    var q1, d := cp / 0x40, cp % 0x40;
    var q2, c := q1 / 0x40, q1 % 0x40;
    var a, b := q2 / 0x40, q2 % 0x40;
    assert cp == q1 * 0x40 + d && q1 == q2 * 0x40 + c && q2 == a * 0x40 + b;
    assert cp / 0x1000 == q2 && cp / 0x4_0000 == a;
    assert cp == a * 0x4_0000 + b * 0x1000 + c * 0x40 + d;
    assert bs[0] as int - 0xF0 == a && Bits(bs[1]) == b && Bits(bs[2]) == c && Bits(bs[3]) == d;
  }

  /** Only the UTF-8 form of a value decodes to it: the encoding is canonical. */
  lemma Utf8Canonical(bs: seq<u8>, cp: int)
    requires DecodeUtf8(bs) == Some(cp)
    ensures IsScalarValue(cp) && EncodeUtf8(cp) == bs
  {
    if |bs| == 2 {
      Utf8Canonical2(bs, cp);
    } else if |bs| == 3 {
      Utf8Canonical3(bs, cp);
    } else if |bs| == 4 {
      Utf8Canonical4(bs, cp);
    }
  }

  lemma Utf8Canonical2(bs: seq<u8>, cp: int)
    requires |bs| == 2 && DecodeUtf8(bs) == Some(cp)
    ensures IsScalarValue(cp) && EncodeUtf8(cp) == bs
  {
    var a, b := bs[0] as int - 0xC0, Bits(bs[1]);
    assert cp == a * 0x40 + b && 0 <= b < 0x40;
    assert cp / 0x40 == a && cp % 0x40 == b;
    var e := EncodeUtf8(cp);
    assert e[0] == bs[0] && e[1] == bs[1];
  }

  lemma Utf8Canonical3(bs: seq<u8>, cp: int)
    requires |bs| == 3 && DecodeUtf8(bs) == Some(cp)
    ensures IsScalarValue(cp) && EncodeUtf8(cp) == bs
  {
    var a, b, c := bs[0] as int - 0xE0, Bits(bs[1]), Bits(bs[2]);
    assert cp == a * 0x1000 + b * 0x40 + c && 0 <= b < 0x40 && 0 <= c < 0x40;
    assert cp / 0x40 == a * 0x40 + b && cp % 0x40 == c;
    assert cp / 0x1000 == a && cp / 0x40 % 0x40 == b;
    var e := EncodeUtf8(cp);
    assert e[0] == bs[0] && e[1] == bs[1] && e[2] == bs[2];
  }

  lemma Utf8Canonical4(bs: seq<u8>, cp: int)
    requires |bs| == 4 && DecodeUtf8(bs) == Some(cp)
    ensures IsScalarValue(cp) && EncodeUtf8(cp) == bs
  {
    var a, b, c, d := bs[0] as int - 0xF0, Bits(bs[1]), Bits(bs[2]), Bits(bs[3]);
    assert cp == a * 0x4_0000 + b * 0x1000 + c * 0x40 + d;
    assert 0 <= b < 0x40 && 0 <= c < 0x40 && 0 <= d < 0x40;
    assert cp / 0x40 == a * 0x1000 + b * 0x40 + c && cp % 0x40 == d;
    assert cp / 0x1000 == a * 0x40 + b && cp / 0x40 % 0x40 == c;
    assert cp / 0x4_0000 == a && cp / 0x1000 % 0x40 == b;
    var e := EncodeUtf8(cp);
    assert e[0] == bs[0] && e[1] == bs[1] && e[2] == bs[2] && e[3] == bs[3];
  }

  // ----- UTF-16 -----

  predicate IsHighSurrogate(u: int) {
    0xD800 <= u < 0xDC00
  }

  predicate IsLowSurrogate(u: int) {
    0xDC00 <= u < 0xE000
  }

  /** `char::len_utf16`: one code unit below U+10000, a surrogate pair above. */
  function Utf16Length(cp: int): (n: nat)
    ensures n == 1 || n == 2
    ensures n <= Utf8Length(cp) && (n == 2 <==> Utf8Length(cp) == 4)
  {
    if cp < 0x1_0000 then 1 else 2
  }

  /**
   * The UTF-16 form of a code point (section 2.1 of RFC 2781, and
   * UTF16EncodeCodePoint of ECMA-262): the value itself below U+10000,
   * otherwise a high surrogate carrying the upper ten bits of `cp - 0x10000`
   * followed by a low surrogate carrying the lower ten.
   */
  function EncodeUtf16(cp: int): (us: seq<u16>)
    requires IsCodePoint(cp)
    ensures |us| == Utf16Length(cp)
    ensures |us| == 1 ==> us[0] as int == cp
    ensures |us| == 2 ==> IsHighSurrogate(us[0] as int) && IsLowSurrogate(us[1] as int)
  {
    if cp < 0x1_0000 then
      [cp as u16]
    else
      [(0xD800 + (cp - 0x1_0000) / 0x400) as u16, (0xDC00 + (cp - 0x1_0000) % 0x400) as u16]
  }

  /** UTF16SurrogatePairToCodePoint of ECMA-262. */
  function SurrogatePairToCodePoint(high: u16, low: u16): (cp: int)
    requires IsHighSurrogate(high as int) && IsLowSurrogate(low as int)
    ensures 0x1_0000 <= cp < 0x11_0000
  {
    (high as int - 0xD800) * 0x400 + (low as int - 0xDC00) + 0x1_0000
  }

  /** Decodes one UTF-16 form: a single code unit, or a high surrogate followed by a low one. */
  function DecodeUtf16(us: seq<u16>): (r: Option<int>)
    ensures r.Some? ==> IsCodePoint(r.value)
    ensures r.Some? ==> |us| == Utf16Length(r.value)
  {
    if |us| == 1 then Some(us[0] as int)
    else if |us| == 2 && IsHighSurrogate(us[0] as int) && IsLowSurrogate(us[1] as int) then
      Some(SurrogatePairToCodePoint(us[0], us[1]))
    else None
  }

  /** Decoding the UTF-16 form of a code point gives the code point back. */
  lemma Utf16RoundTrip(cp: int)
    requires IsCodePoint(cp)
    ensures DecodeUtf16(EncodeUtf16(cp)) == Some(cp)
  {
    if cp >= 0x1_0000 {
      assert cp - 0x1_0000 == ((cp - 0x1_0000) / 0x400) * 0x400 + (cp - 0x1_0000) % 0x400;
    }
  }

  /** Only the UTF-16 form of a code point decodes to it. */
  lemma Utf16Canonical(us: seq<u16>, cp: int)
    requires DecodeUtf16(us) == Some(cp)
    ensures IsCodePoint(cp) && EncodeUtf16(cp) == us
  {
    if |us| == 2 {
      var e := EncodeUtf16(cp);
      assert e[0] == us[0] && e[1] == us[1];
    }
  }
}
