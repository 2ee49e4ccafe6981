/**
 * Decimal rendering of unsigned integers as Rust's `format!` writes them:
 * `{}` gives the digits without leading zeros, and `{:0w}` pads that text on
 * the left with '0' up to width w (never truncating it).
 */
module Decimal {
  import opened Powers

  predicate IsDigit(c: char) {
    '0' <= c <= '9'
  }

  predicate AllDigits(s: string) {
    forall i :: 0 <= i < |s| ==> IsDigit(s[i])
  }

  /** The ASCII character of the decimal digit `d`. */
  function DigitChar(d: nat): (c: char)
    requires d < 10
    ensures IsDigit(c) && c as int - '0' as int == d
  {
    ('0' as int + d) as char
  }

  /** The number a string of decimal digits denotes, read most significant digit first. */
  function ValueOf(s: string): nat
    requires AllDigits(s)
  {
    if s == [] then 0 else ValueOf(s[..|s| - 1]) * 10 + (s[|s| - 1] as int - '0' as int)
  }

  /**
   * `format!("{}", n)` for an unsigned integer: at least one digit, only
   * digits, no leading zero unless the number is zero, and reading the text
   * back gives `n`.
   */
  function Render(n: nat): (s: string)
    ensures 1 <= |s| && AllDigits(s)
    ensures ValueOf(s) == n
    ensures s[0] == '0' ==> n == 0
  {
    if n < 10 then [DigitChar(n)]
    else
      var prefix := Render(n / 10);
      var s := prefix + [DigitChar(n % 10)];
      assert s[..|s| - 1] == prefix;
      s
  }

  /** The `0` flag with a width: left-pad with '0' up to `width` characters. */
  function PadZeros(s: string, width: nat): (r: string)
    ensures |r| == if |s| < width then width else |s|
    ensures r[|r| - |s|..] == s
    ensures forall i :: 0 <= i < |r| - |s| ==> r[i] == '0'
  {
    if |s| >= width then s else seq(width - |s|, _ => '0') + s
  }

  /** A number below 10^k needs at most k digits. */
  lemma {:induction false} RenderLength(n: nat, k: nat)
    requires 1 <= k && n < Pow(10, k)
    ensures |Render(n)| <= k
  {
    if n >= 10 {
      assert k >= 2;
      assert n / 10 < Pow(10, k - 1);
      RenderLength(n / 10, k - 1);
    }
  }

  /** A string of '0' characters denotes zero. */
  lemma {:induction false} ZerosValue(z: nat)
    ensures AllDigits(seq(z, _ => '0')) && ValueOf(seq(z, _ => '0')) == 0
  {
    if z > 0 {
      assert seq(z, _ => '0')[..z - 1] == seq(z - 1, _ => '0');
      ZerosValue(z - 1);
    }
  }

  /** Leading zeros do not change the value of a digit string. */
  lemma {:induction false} LeadingZerosValue(z: nat, s: string)
    requires AllDigits(s)
    ensures AllDigits(seq(z, _ => '0') + s)
    ensures ValueOf(seq(z, _ => '0') + s) == ValueOf(s)
  {
    var zs := seq(z, _ => '0');
    if s == [] {
      assert zs + s == zs;
      ZerosValue(z);
    } else {
      var t := zs + s;
      assert t[..|t| - 1] == zs + s[..|s| - 1];
      LeadingZerosValue(z, s[..|s| - 1]);
    }
  }

  /**
   * `format!("{:0width$}", n)` for an unsigned integer `n`: decimal digits
   * that read back as `n`, at least `width` of them, and exactly `width`
   * when `n` is below 10^width, leading zeros kept and nothing lost.
   */
  function ZeroPadded(n: nat, width: nat): (s: string)
    ensures AllDigits(s) && ValueOf(s) == n
    ensures |s| >= width
    ensures 1 <= width && n < Pow(10, width) ==> |s| == width
  {
    var digits := Render(n);
    if |digits| >= width then
      if 1 <= width && n < Pow(10, width) then RenderLength(n, width); digits else digits
    else
      LeadingZerosValue(width - |digits|, digits);
      PadZeros(digits, width)
  }

  /** Two digit strings of the same length with the same value are the same string. */
  lemma {:induction false} ValueOfInjective(s: string, t: string)
    requires AllDigits(s) && AllDigits(t) && |s| == |t|
    requires ValueOf(s) == ValueOf(t)
    ensures s == t
  {
    if s != [] {
      var n := |s| - 1;
      var a, b := ValueOf(s[..n]), ValueOf(t[..n]);
      var x, y := s[n] as int - '0' as int, t[n] as int - '0' as int;
      assert a * 10 + x == b * 10 + y;
      assert x == y && a == b by {
        DigitSplit(a, x, b, y);
      }
      ValueOfInjective(s[..n], t[..n]);
      assert s == s[..n] + [s[n]] && t == t[..n] + [t[n]];
    }
  }

  lemma DigitSplit(a: int, x: int, b: int, y: int)
    requires 0 <= x < 10 && 0 <= y < 10 && a * 10 + x == b * 10 + y
    ensures a == b && x == y
  {
  }
}
