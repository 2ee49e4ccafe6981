/**
 * Rust's bitwise operators on unsigned integers (`&`, `|`, and `<<` on a
 * fixed width), defined bit by bit on naturals, with the arithmetic facts
 * that turn masks into remainders and shifts-and-ORs into sums.
 */
module Bits {
  import opened Powers

  /** Bitwise AND: a bit is set exactly when it is set in both operands. */
  function And(a: nat, b: nat): (r: nat)
    ensures r <= a && r <= b
    decreases a
  {
    if a == 0 || b == 0 then 0
    else 2 * And(a / 2, b / 2) + (if a % 2 == 1 && b % 2 == 1 then 1 else 0)
  }

  /**
   * Bitwise OR: a bit is set when it is set in either operand. OR and AND
   * together count every operand bit once: Or(a, b) + And(a, b) == a + b.
   */
  function Or(a: nat, b: nat): (r: nat)
    ensures r + And(a, b) == a + b
    decreases a
  {
    if a == 0 then b
    else if b == 0 then a
    else 2 * Or(a / 2, b / 2) + (if a % 2 == 1 || b % 2 == 1 then 1 else 0)
  }

  /** `x << k` on an unsigned integer `width` bits wide: bits moved past the width are lost. */
  function ShiftLeft(x: nat, k: nat, width: nat): (r: nat)
    requires k < width
    ensures r < Pow(2, width)
  {
    (x * Pow(2, k)) % Pow(2, width)
  }

  /** A shift that moves no bit past the width is a multiplication by 2^k. */
  lemma ShiftLeftInRange(x: nat, k: nat, width: nat, p: nat)
    requires p == Pow(2, k) && k < width && x * p < Pow(2, width)
    ensures ShiftLeft(x, k, width) == x * p
  {
    DivModUnique(x * p, Pow(2, width), 0, x * p);
  }

  /** Quotient and remainder are unique. */
  lemma DivModUnique(a: int, d: int, m: int, t: int)
    requires 0 <= t < d && a == d * m + t
    ensures a % d == t && a / d == m
  {
    var q, r := a / d, a % d;
    var k := q - m;
    assert d * k == t - r by {
      assert d * q + r == d * m + t;
      assert d * k == d * q - d * m;
    }
  }

  lemma ModDouble(a: nat, p: nat)
    requires p >= 1
    ensures 2 * ((a / 2) % p) + a % 2 == a % (2 * p)
  {
    var q, r := a / 2, a % 2;
    var m, s := q / p, q % p;
    assert a == (2 * p) * m + (2 * s + r) by {
      assert q == p * m + s;
      assert a == 2 * q + r;
    }
    DivModUnique(a, 2 * p, m, 2 * s + r);
  }

  /** Masking with k one-bits (`a & (2^k - 1)`) keeps the remainder mod 2^k. */
  lemma {:induction false} AndLowMask(a: nat, k: nat)
    ensures And(a, Pow(2, k) - 1) == a % Pow(2, k)
  {
    if k == 0 {
      assert Pow(2, k) == 1;
    } else if a == 0 {
      DivModUnique(0, Pow(2, k), 0, 0);
    } else {
      var p := Pow(2, k - 1);
      var mask := Pow(2, k) - 1;
      assert mask == 2 * p - 1 && mask / 2 == p - 1 && mask % 2 == 1;
      calc {
        And(a, mask);
        2 * And(a / 2, p - 1) + a % 2;
        { AndLowMask(a / 2, k - 1); }
        2 * ((a / 2) % p) + a % 2;
        { ModDouble(a, p); }
        a % Pow(2, k);
      }
    }
  }

  /** A number shifted left by k > 0 is even, and halving it shifts by k - 1. */
  lemma HalveShifted(x: nat, k: nat)
    requires k > 0
    ensures (x * Pow(2, k)) % 2 == 0 && (x * Pow(2, k)) / 2 == x * Pow(2, k - 1)
  {
    var p := Pow(2, k - 1);
    assert x * Pow(2, k) == 2 * (x * p);
  }

  /** A number shifted left by k shares no bit with a number below 2^k. */
  lemma {:induction false} AndShiftedIsZero(x: nat, y: nat, k: nat)
    requires y < Pow(2, k)
    ensures And(x * Pow(2, k), y) == 0
  {
    if k > 0 {
      var a := x * Pow(2, k);
      HalveShifted(x, k);
      assert y / 2 < Pow(2, k - 1);
      AndShiftedIsZero(x, y / 2, k - 1);
      if a != 0 && y != 0 {
        assert And(a, y) == 2 * And(a / 2, y / 2);
      }
    }
  }

  /** ORing a number below p = 2^k into a multiple of p adds it. */
  lemma OrShifted(hi: nat, lo: nat, k: nat, p: nat)
    requires p == Pow(2, k) && hi % p == 0 && lo < p
    ensures Or(hi, lo) == hi + lo
  {
    var x := hi / p;
    assert hi == x * p;
    AndShiftedIsZero(x, lo, k);
  }
}
