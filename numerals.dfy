/**
 * Machine integers and positional numerals: the digit strings that Rust's
 * `format!` writes for the plain, the `x` and the zero-padded `x` specifiers, and that ECMAScript's
 * `parseInt` reads back.
 */
module Numerals {

  /** Rust's `u8`. */
  newtype u8 = x: int | 0 <= x < 0x100

  /** Rust's `u16`; also one UTF-16 code unit of an ECMAScript string. */
  newtype u16 = x: int | 0 <= x < 0x1_0000

  function Pow(base: nat, k: nat): (r: nat)
    ensures base >= 1 ==> r >= 1
  {
    if k == 0 then 1 else base * Pow(base, k - 1)
  }

  /**
   * The value of a character as a digit: '0'..'9' are 0..9, and the Latin
   * letters of either case are 10..35 (the "radix-R digits" of ECMAScript's
   * `parseInt`, and the digits Rust's hexadecimal formatting writes). Any
   * other character gets 36, which is a digit in no radix.
   */
  function DigitValue(c: char): (v: nat)
    ensures v <= 36
    ensures v < 36 <==> ('0' <= c <= '9' || 'a' <= c <= 'z' || 'A' <= c <= 'Z')
  {
    if '0' <= c <= '9' then c as int - '0' as int
    else if 'a' <= c <= 'z' then c as int - 'a' as int + 10
    else if 'A' <= c <= 'Z' then c as int - 'A' as int + 10
    else 36
  }

  predicate IsDigit(c: char, radix: nat) {
    DigitValue(c) < radix
  }

  predicate AllDigits(s: string, radix: nat) {
    forall i :: 0 <= i < |s| ==> IsDigit(s[i], radix)
  }

  predicate IsAscii(s: string) {
    forall i :: 0 <= i < |s| ==> s[i] as int < 0x80
  }

  /** No character of `s` is an upper-case ASCII letter. */
  predicate NoUpperLetters(s: string) {
    forall i :: 0 <= i < |s| ==> !('A' <= s[i] <= 'Z')
  }

  /** The character Rust writes for digit `d`: the `x` specifier uses lower-case letters, `X` upper-case. */
  function DigitChar(d: nat, upper: bool): (c: char)
    requires d < 16
    ensures DigitValue(c) == d
    ensures c as int < 0x80
    ensures upper ==> !('a' <= c <= 'z')
    ensures !upper ==> !('A' <= c <= 'Z')
  {
    if d < 10 then (48 + d) as char
    else if upper then (65 + d - 10) as char
    else (97 + d - 10) as char
  }

  /** The shortest numeral for `n` in `radix` (at least one digit): `format!` with the plain and the `x` specifier. */
  function ToDigits(n: nat, radix: nat, upper: bool): (s: string)
    requires 2 <= radix <= 16
    ensures |s| >= 1
    ensures AllDigits(s, radix) && IsAscii(s)
    ensures |s| > 1 ==> s[0] != '0'
    decreases n
  {
    if n < radix then [DigitChar(n, upper)]
    else
      DivMod(n, radix);
      MulMonotone(n / radix, 2, radix);
      var p := ToDigits(n / radix, radix, upper);
      var d := DigitChar(n % radix, upper);
      assert forall i :: 0 <= i < |p| ==> (p + [d])[i] == p[i];
      assert (p + [d])[|p|] == d;
      p + [d]
  }

  /** One step of `ToDigits`: the numeral of `n / radix` followed by the last digit. */
  lemma ToDigitsStep(n: nat, radix: nat, upper: bool)
    requires 2 <= radix <= 16 && n >= radix
    ensures ToDigits(n, radix, upper) == ToDigits(n / radix, radix, upper) + [DigitChar(n % radix, upper)]
  {
  }

  /** The `x` specifier writes no upper-case letter. */
  lemma {:induction false} ToDigitsLower(n: nat, radix: nat)
    requires 2 <= radix <= 16
    ensures NoUpperLetters(ToDigits(n, radix, false))
    decreases n
  {
    if n >= radix {
      var p := ToDigits(n / radix, radix, false);
      var d := DigitChar(n % radix, false);
      DivMod(n, radix);
      MulMonotone(n / radix, 2, radix);
      ToDigitsLower(n / radix, radix);
      assert ToDigits(n, radix, false) == p + [d];
      assert !('A' <= d <= 'Z');
      forall i | 0 <= i < |p| + 1
        ensures !('A' <= (p + [d])[i] <= 'Z')
      {
        if i < |p| {
          assert (p + [d])[i] == p[i];
        }
      }
    }
  }

  /** The value of a numeral, most significant digit first. */
  function ParseDigits(s: string, radix: nat): nat
    requires AllDigits(s, radix)
  {
    if s == [] then 0
    else
      var v := ParseDigits(s[..|s| - 1], radix);
      MulNat(v, radix);
      v * radix + DigitValue(s[|s| - 1])
  }

  /** Reading back a numeral gives the number it was written for. */
  lemma {:induction false} ParseToDigits(n: nat, radix: nat, upper: bool)
    requires 2 <= radix <= 16
    ensures ParseDigits(ToDigits(n, radix, upper), radix) == n
    decreases n
  {
    var s := ToDigits(n, radix, upper);
    if n >= radix {
      var q, d := n / radix, n % radix;
      var p := ToDigits(q, radix, upper);
      DivMod(n, radix);
      MulMonotone(q, 2, radix);
      ParseToDigits(q, radix, upper);
      ToDigitsStep(n, radix, upper);
      assert s[..|s| - 1] == p;
      assert ParseDigits(s, radix) == ParseDigits(p, radix) * radix + d;
      assert ParseDigits(p, radix) == q;
      DivMod(n, radix);
    }
  }

  /** Different numbers get different numerals. */
  lemma ToDigitsInjective(m: nat, n: nat, radix: nat, upper: bool)
    requires 2 <= radix <= 16
    requires ToDigits(m, radix, upper) == ToDigits(n, radix, upper)
    ensures m == n
  {
    ParseToDigits(m, radix, upper);
    ParseToDigits(n, radix, upper);
  }

  /** A numeral has at most `k` digits exactly when the number is below `radix` to the `k`. */
  lemma {:induction false} DigitsLength(n: nat, radix: nat, upper: bool, k: nat)
    requires 2 <= radix <= 16 && k >= 1
    ensures |ToDigits(n, radix, upper)| <= k <==> n < Pow(radix, k)
    decreases n
  {
    if n < radix {
      PowAtLeastBase(radix, k);
    } else {
      DivMod(n, radix);
      MulMonotone(n / radix, 2, radix);
      assert |ToDigits(n, radix, upper)| == |ToDigits(n / radix, radix, upper)| + 1;
    }
    if n < radix {
    } else if k == 1 {
      assert Pow(radix, 1) == radix;
    } else {
      DigitsLength(n / radix, radix, upper, k - 1);
      assert Pow(radix, k) == radix * Pow(radix, k - 1);
      DivBelow(n, radix, Pow(radix, k - 1));
    }
  }

  lemma PowAtLeastBase(radix: nat, k: nat)
    requires radix >= 2 && k >= 1
    ensures Pow(radix, k) >= radix
  {
    if k > 1 {
      PowAtLeastBase(radix, k - 1);
    }
  }

  lemma MulNat(a: nat, b: nat)
    ensures a * b >= 0
  {
  }

  lemma DivMod(n: nat, d: nat)
    requires d >= 1
    ensures n == (n / d) * d + n % d
  {
  }

  lemma DivBelow(n: nat, d: nat, m: nat)
    requires d >= 1
    ensures n / d < m <==> n < d * m
  {
    var q, r := n / d, n % d;
    assert n == d * q + r && 0 <= r < d;
    if q < m {
      MulMonotone(d, q + 1, m);
      assert d * (q + 1) == d * q + d;
    } else {
      MulMonotone(d, m, q);
    }
  }

  lemma {:induction false} MulMonotone(d: nat, a: nat, b: nat)
    requires a <= b
    ensures d * a <= d * b
    decreases b - a
  {
    if a < b {
      MulMonotone(d, a, b - 1);
      assert d * b == d * (b - 1) + d;
    }
  }

  /** `z` copies of `c`. */
  function Repeat(c: char, z: nat): (r: string)
    ensures |r| == z && forall i :: 0 <= i < z ==> r[i] == c
  {
    seq(z, _ => c)
  }

  /** `s` padded on the left with `fill` to at least `width` characters (`format!("{:0w}")`). */
  function PadLeft(s: string, width: nat, fill: char): (r: string)
    ensures |r| == if |s| >= width then |s| else width
    ensures r[|r| - |s|..] == s
    ensures forall i :: 0 <= i < |r| - |s| ==> r[i] == fill
  {
    if |s| >= width then s else Repeat(fill, width - |s|) + s
  }

  /** Leading zeros do not change the value of a numeral. */
  lemma {:induction false} ParseLeadingZeros(z: nat, s: string, radix: nat)
    requires 2 <= radix
    requires AllDigits(s, radix)
    ensures AllDigits(Repeat('0', z) + s, radix)
    ensures ParseDigits(Repeat('0', z) + s, radix) == ParseDigits(s, radix)
    decreases |s|
  {
    var t := Repeat('0', z) + s;
    assert forall i :: 0 <= i < |t| ==> t[i] == if i < z then '0' else s[i - z];
    if s == [] {
      ParseZeros(z, radix);
      assert t == Repeat('0', z);
    } else {
      ParseLeadingZeros(z, s[..|s| - 1], radix);
      assert t[..|t| - 1] == Repeat('0', z) + s[..|s| - 1];
    }
  }

  lemma {:induction false} ParseZeros(z: nat, radix: nat)
    requires 2 <= radix
    ensures AllDigits(Repeat('0', z), radix)
    ensures ParseDigits(Repeat('0', z), radix) == 0
  {
    if z > 0 {
      ParseZeros(z - 1, radix);
      assert Repeat('0', z)[..z - 1] == Repeat('0', z - 1);
    }
  }

  /** Reading back a zero-padded numeral gives the number it was written for. */
  lemma ParsePadded(n: nat, radix: nat, upper: bool, width: nat)
    requires 2 <= radix <= 16
    ensures AllDigits(PadLeft(ToDigits(n, radix, upper), width, '0'), radix)
    ensures ParseDigits(PadLeft(ToDigits(n, radix, upper), width, '0'), radix) == n
  {
    var s := ToDigits(n, radix, upper);
    ParseToDigits(n, radix, upper);
    if |s| < width {
      ParseLeadingZeros(width - |s|, s, radix);
      assert PadLeft(s, width, '0') == Repeat('0', width - |s|) + s;
    } else {
      assert PadLeft(s, width, '0') == s;
    }
  }
}
