/**
 * The pieces of Rust's core library the crate leans on, written out:
 * `char::is_whitespace`, `char::escape_default`, `str::to_ascii_uppercase`
 * and the hexadecimal forms of `format!`.
 */
module RustStd {
  import opened Numerals

  /** The code points above U+007F that have the Unicode White_Space property. */
  const NonAsciiWhiteSpace: set<int> :=
    {0x85, 0xA0, 0x1680, 0x2000, 0x2001, 0x2002, 0x2003, 0x2004, 0x2005, 0x2006,
     0x2007, 0x2008, 0x2009, 0x200A, 0x2028, 0x2029, 0x202F, 0x205F, 0x3000}

  /** The code points with the White_Space property, as the Unicode Character Database lists them. */
  const WhiteSpaceProperty: set<int> :=
    {0x09, 0x0A, 0x0B, 0x0C, 0x0D, 0x20, 0x85, 0xA0, 0x1680,
     0x2000, 0x2001, 0x2002, 0x2003, 0x2004, 0x2005, 0x2006, 0x2007, 0x2008, 0x2009, 0x200A,
     0x2028, 0x2029, 0x202F, 0x205F, 0x3000}

  /** `char::is_whitespace`: a space or U+0009..U+000D directly, the table above beyond ASCII. */
  function IsWhitespace(c: char): (r: bool)
    ensures r <==> c as int in WhiteSpaceProperty
  {
    c == ' ' || ('\t' <= c <= '\r') || (c as int > 0x7F && c as int in NonAsciiWhiteSpace)
  }

  /** `char::escape_unicode`: `\u{` + the shortest lower-case hexadecimal numeral + `}`. */
  function EscapeUnicode(c: char): (r: string)
    ensures IsAscii(r) && |r| >= 5
    ensures r[..3] == "\\u{" && r[|r| - 1] == '}'
    ensures AllDigits(r[3..|r| - 1], 16) && ParseDigits(r[3..|r| - 1], 16) == c as int
  {
    var digits := ToDigits(c as int, 16, false);
    ParseToDigits(c as int, 16, false);
    var r := "\\u{" + digits + "}";
    assert r[3..|r| - 1] == digits;
    r
  }

  /**
   * `char::escape_default`: tab, carriage return and line feed become `\t`,
   * `\r`, `\n`; backslash and both quotes get a backslash; the rest of
   * printable ASCII stands for itself; everything else is `escape_unicode`.
   */
  function EscapeDefault(c: char): (r: string)
    ensures IsAscii(r) && |r| >= 1
    ensures |r| == 1 <==> 0x20 <= c as int <= 0x7E && c != '\\' && c != '\'' && c != '"'
    ensures |r| == 1 ==> r == [c]
    ensures |r| > 1 ==> r[0] == '\\'
  {
    if c == '\t' then "\\t"
    else if c == '\r' then "\\r"
    else if c == '\n' then "\\n"
    else if c == '\\' || c == '\'' || c == '"' then ['\\', c]
    else if 0x20 <= c as int <= 0x7E then [c]
    else EscapeUnicode(c)
  }

  /** Reads an `escape_default` form back: the code point it stands for. */
  function UnescapeDefault(r: string): int {
    if |r| == 1 then r[0] as int
    else if r == "\\t" then 9
    else if r == "\\r" then 13
    else if r == "\\n" then 10
    else if |r| == 2 then r[1] as int
    else if |r| >= 5 && AllDigits(r[3..|r| - 1], 16) then ParseDigits(r[3..|r| - 1], 16)
    else -1
  }

  /** `escape_default` loses nothing: its form reads back as the character. */
  lemma UnescapeEscapeDefault(c: char)
    ensures UnescapeDefault(EscapeDefault(c)) == c as int
  {
    if c == '\t' || c == '\r' || c == '\n' {
    } else if c == '\\' || c == '\'' || c == '"' {
      assert EscapeDefault(c) == ['\\', c];
    } else if 0x20 <= c as int <= 0x7E {
    } else {
      var r := EscapeDefault(c);
      assert r == EscapeUnicode(c);
      assert |r| >= 5;
    }
  }

  /** Different characters have different `escape_default` forms. */
  lemma EscapeDefaultInjective(a: char, b: char)
    requires EscapeDefault(a) == EscapeDefault(b)
    ensures a == b
  {
    UnescapeEscapeDefault(a);
    UnescapeEscapeDefault(b);
  }

  function AsciiUppercase(c: char): (u: char)
    ensures 'a' <= c <= 'z' ==> u as int == c as int - 32
    ensures !('a' <= c <= 'z') ==> u == c
  {
    if 'a' <= c <= 'z' then (c as int - 32) as char else c
  }

  /** `str::to_ascii_uppercase`: ASCII letters upper-cased, everything else kept. */
  function ToAsciiUppercase(s: string): (r: string)
    ensures |r| == |s|
    ensures forall i :: 0 <= i < |s| ==> r[i] == AsciiUppercase(s[i])
    ensures forall i :: 0 <= i < |r| ==> !('a' <= r[i] <= 'z')
  {
    seq(|s|, i requires 0 <= i < |s| => AsciiUppercase(s[i]))
  }

  /** Upper-casing distributes over concatenation. */
  lemma UppercaseConcat(a: string, b: string)
    ensures ToAsciiUppercase(a + b) == ToAsciiUppercase(a) + ToAsciiUppercase(b)
  {
    assert forall i :: 0 <= i < |a + b| ==> (a + b)[i] == if i < |a| then a[i] else b[i - |a|];
  }

  /** Upper-casing a lower-case hexadecimal numeral gives the upper-case numeral of the same number. */
  lemma {:induction false} UppercaseHex(n: nat)
    ensures ToAsciiUppercase(ToDigits(n, 16, false)) == ToDigits(n, 16, true)
    decreases n
  {
    if n >= 16 {
      UppercaseHex(n / 16);
      UppercaseConcat(ToDigits(n / 16, 16, false), [DigitChar(n % 16, false)]);
    }
  }

  /** `format!("{:0w$x}", n)`: lower-case hexadecimal, zero-padded to `width`. */
  function ZeroPaddedHex(n: nat, width: nat): (r: string)
    ensures |r| >= width && AllDigits(r, 16) && IsAscii(r) && NoUpperLetters(r)
    ensures width >= 1 && n < Pow(16, width) ==> |r| == width
    ensures ParseDigits(r, 16) == n
  {
    PaddedLength(n, width);
    ToDigitsLower(n, 16);
    ParsePadded(n, 16, false, width);
    PadLeft(ToDigits(n, 16, false), width, '0')
  }

  lemma PaddedLength(n: nat, width: nat)
    ensures width >= 1 && n < Pow(16, width) ==> |PadLeft(ToDigits(n, 16, false), width, '0')| == width
  {
    if width >= 1 {
      DigitsLength(n, 16, false, width);
    }
  }

  /** `format!("{:#0w$x}", n)`: `0x` and then digits; the prefix counts toward `width`. */
  function AlternateHex(n: nat, width: nat): (r: string)
    requires width >= 2
    ensures |r| >= width && r[..2] == "0x"
    ensures width >= 3 && n < Pow(16, width - 2) ==> |r| == width
    ensures AllDigits(r[2..], 16) && NoUpperLetters(r[2..]) && ParseDigits(r[2..], 16) == n
  {
    var r := "0x" + ZeroPaddedHex(n, width - 2);
    assert r[2..] == ZeroPaddedHex(n, width - 2);
    r
  }
}
