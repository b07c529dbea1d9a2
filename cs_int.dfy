/** C# 32-bit integer arithmetic as the component uses it: `int` values,
    unchecked multiplication that wraps around, and `/` and `%` that
    truncate toward zero (Dafny's own `/` and `%` are Euclidean). */
module CSharpInt {

  const MinInt32: int := -0x8000_0000
  const MaxInt32: int := 0x7FFF_FFFF
  const TwoTo32: int := 0x1_0000_0000

  /** The values of a C# `int`. */
  type Int32 = v: int | -0x8000_0000 <= v <= 0x7FFF_FFFF

  /** The `int` that an unchecked C# computation producing `v` stores:
      the one value of the 32-bit range congruent to `v` modulo 2^32. */
  function Wrap32(v: int): (r: Int32)
    ensures (r - v) % TwoTo32 == 0
    ensures MinInt32 <= v <= MaxInt32 ==> r == v
  {
    var m := v % TwoTo32;
    if m <= MaxInt32 then m else m - TwoTo32
  }

  /** C# remainder `a % b` for a positive divisor: it has the sign of `a`,
      is smaller than `b` in magnitude, and is zero exactly when `b`
      divides `a`. (`textureSize.x % x` mixes `int` and `uint`, which C#
      evaluates in `long`; for divisors up to `int.MaxValue` the value is the
      same.) */
  function TruncRem(a: int, b: int): (r: int)
    requires b > 0
    ensures a >= 0 ==> 0 <= r < b
    ensures a < 0 ==> -b < r <= 0
    ensures r == 0 <==> a % b == 0
  {
    if a >= 0 then a % b
    else
      NegatedModZero(a, b);
      -((-a) % b)
  }

  /** C# integer division `a / b` for a positive divisor: the quotient
      truncated toward zero, which together with `TruncRem` gives back `a`. */
  function TruncDiv(a: int, b: int): (q: int)
    requires b > 0
    ensures a == b * q + TruncRem(a, b)
    ensures a >= 0 ==> 0 <= q <= a
    ensures a <= 0 ==> a <= q <= 0
  {
    if a >= 0 then DivBounds(a, b); a / b
    else DivBounds(-a, b); -((-a) / b)
  }

  /** Euclidean division of a non-negative number by a positive one lies
      between 0 and the dividend. */
  lemma DivBounds(a: int, b: int)
    requires a >= 0 && b > 0
    ensures 0 <= a / b <= a
  {
    var q := a / b;
    assert a == b * q + a % b;
    if q < 0 {
      MulNonNeg(b, -q - 1);
    }
    MulNonNeg(b - 1, q);
  }

  /** `x * y` is non-negative for non-negative factors. */
  lemma MulNonNeg(x: int, y: int)
    requires x >= 0 && y >= 0
    ensures x * y >= 0
  {
  }

  /** Euclidean division is determined by the identity and the remainder's range. */
  lemma DivModUnique(a: int, b: int, q: int, r: int)
    requires b > 0 && 0 <= r < b && a == b * q + r
    ensures a / b == q && a % b == r
  {
    var d := q - a / b;
    assert b * d == a % b - r by {
      assert a == b * (a / b) + a % b;
      assert b * q - b * (a / b) == b * d;
    }
    if d >= 1 {
      MulNonNeg(b, d - 1);
    } else if d <= -1 {
      MulNonNeg(b, -d - 1);
    }
  }

  /** `b` divides `a` exactly when it divides `-a`. */
  lemma NegatedModZero(a: int, b: int)
    requires b > 0
    ensures (-a) % b == 0 <==> a % b == 0
  {
    if a % b == 0 {
      assert a == b * (a / b);
      DivModUnique(-a, b, -(a / b), 0);
    }
    if (-a) % b == 0 {
      assert -a == b * ((-a) / b);
      DivModUnique(a, b, -((-a) / b), 0);
    }
  }
}
