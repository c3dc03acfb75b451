/**
  The free function `transform` on a 32-bit signed integer: add
  `n / 1000` (everything above the hundreds digit) to the hundreds digit,
  add the tens and units digits, and write the smaller sum before the
  larger one as a two-part decimal number. For 0 <= n <= 9999 the first sum
  is the thousands-plus-hundreds digit sum; for larger magnitudes `n / 1000`
  keeps every higher digit. Division and remainder truncate toward zero, as
  on Rust's `i32`.
 */
module Transform {
  import opened Arith

  const I32Min: int := -0x8000_0000
  const I32Max: int := 0x7fff_ffff

  predicate IsI32(v: int) {
    I32Min <= v <= I32Max
  }

  /** Quotient rounded toward zero (Rust's `/` on integers), for a positive divisor. */
  function TDiv(a: int, d: int): (q: int)
    requires d > 0
    ensures a >= 0 ==> 0 <= q * d <= a < q * d + d
    ensures a < 0 ==> q * d - d < a <= q * d <= 0
  {
    if a >= 0 then
      EuclidBounds(a, d);
      a / d
    else
      EuclidBounds(-a, d);
      -((-a) / d)
  }

  /** Euclidean division of a non-negative a by a positive d leaves a remainder below d. */
  lemma EuclidBounds(a: int, d: int)
    requires a >= 0 && d > 0
    ensures 0 <= (a / d) * d <= a < (a / d) * d + d
  {
    assert a == (a / d) * d + a % d;
    assert a / d >= 0;
  }

  /** Remainder with the sign of the dividend (Rust's `%` on integers), for a positive divisor. */
  function TRem(a: int, d: int): (r: int)
    requires d > 0
    ensures a == TDiv(a, d) * d + r
    ensures -d < r < d
    ensures a >= 0 ==> r >= 0
    ensures a < 0 ==> r <= 0
  {
    a - TDiv(a, d) * d
  }

  /**
    `n/1000 + n%1000/100`: everything above the hundreds digit plus the
    hundreds digit (the thousands-plus-hundreds digit sum when |n| <= 9999).
   */
  function HighSum(n: int): int {
    TDiv(n, 1000) + TDiv(TRem(n, 1000), 100)
  }

  /** The tens-plus-units digit sum, `n%100/10 + n%10`. */
  function LowSum(n: int): int {
    TDiv(TRem(n, 100), 10) + TRem(n, 10)
  }

  /** The Rust function `transform`: the two sums, the smaller one times 100 plus the larger one. */
  function Transform(n: int): (r: int)
    requires IsI32(n)
    ensures IsI32(r)
  {
    NoOverflow(n);
    var x, y := HighSum(n), LowSum(n);
    if x < y then x * 100 + y else y * 100 + x
  }

  /** Every intermediate value of `transform` fits in an `i32`, whatever `i32` it is given. */
  lemma NoOverflow(n: int)
    requires IsI32(n)
    ensures IsI32(HighSum(n)) && IsI32(LowSum(n))
    ensures IsI32(HighSum(n) * 100) && IsI32(LowSum(n) * 100)
    ensures IsI32(HighSum(n) * 100 + LowSum(n)) && IsI32(LowSum(n) * 100 + HighSum(n))
  {
    var q := TDiv(n, 1000);
    assert -2147484 <= q <= 2147483;
    assert -9 <= TDiv(TRem(n, 1000), 100) <= 9;
    assert -18 <= LowSum(n) <= 18;
  }

  /** Euclidean division of q * d + r by d, for 0 <= r < d, gives back q and r. */
  lemma {:induction false} DivOfSum(q: int, r: int, d: int)
    requires d > 0 && 0 <= r < d
    ensures (q * d + r) / d == q
    ensures (q * d + r) % d == r
  {
    var a := q * d + r;
    var e := a / d - q;
    assert e * d == r - a % d by {
      assert a == (a / d) * d + a % d;
      assert (a / d) * d == (q + e) * d == q * d + e * d;
    }
    if e > 0 {
      assert e * d >= d by { MulAtLeast(e, d); }
    } else if e < 0 {
      assert (-e) * d >= d by { MulAtLeast(-e, d); }
    }
  }

  /** A positive multiple of d is at least d. */
  lemma MulAtLeast(e: int, d: int)
    requires e >= 1 && d > 0
    ensures e * d >= d
  {
    assert e * d == (e - 1) * d + d;
  }

  /** The four decimal digits of a number in 0..=9999. */
  predicate Digits(n: int, d3: int, d2: int, d1: int, d0: int) {
    && 0 <= d3 <= 9 && 0 <= d2 <= 9 && 0 <= d1 <= 9 && 0 <= d0 <= 9
    && n == d3 * 1000 + d2 * 100 + d1 * 10 + d0
  }

  /**
    On a number with decimal digits d3 d2 d1 d0, `transform` yields
    min(d3 + d2, d1 + d0) * 100 + max(d3 + d2, d1 + d0).
   */
  lemma TransformDigits(n: int, d3: int, d2: int, d1: int, d0: int)
    requires Digits(n, d3, d2, d1, d0)
    ensures Transform(n) == Min(d3 + d2, d1 + d0) * 100 + Max(d3 + d2, d1 + d0)
  {
    assert HighSum(n) == d3 + d2 by {
      DivOfSum(d3, d2 * 100 + d1 * 10 + d0, 1000);
      DivOfSum(d2, d1 * 10 + d0, 100);
    }
    assert LowSum(n) == d1 + d0 by {
      DivOfSum(d3 * 10 + d2, d1 * 10 + d0, 100);
      DivOfSum(d1, d0, 10);
      DivOfSum(d3 * 100 + d2 * 10 + d1, d0, 10);
    }
  }

  /** Every number in 0..=9999 has its four decimal digits. */
  lemma {:induction false} HasDigits(n: int)
    requires 0 <= n <= 9999
    ensures Digits(n, n / 1000, n % 1000 / 100, n % 100 / 10, n % 10)
  {
    var d3, d2, d1, d0 := n / 1000, n % 1000 / 100, n % 100 / 10, n % 10;
    assert n == d3 * 1000 + n % 1000;
    assert n % 1000 == d2 * 100 + n % 1000 % 100;
    assert n % 1000 % 100 == n % 100 by {
      DivOfSum(d3 * 10 + d2, n % 1000 % 100, 100);
    }
    assert n % 100 == d1 * 10 + d0 by {
      DivOfSum(d3 * 100 + d2 * 10 + d1, n % 100 % 10, 10);
      DivOfSum(n / 10, n % 10, 10);
    }
  }

  /**
    For 0 <= n <= 9999 the result lies in 0..=1818, and its hundreds part
    (the smaller digit sum) never exceeds its last two digits (the larger).
   */
  lemma TransformRange(n: int)
    requires 0 <= n <= 9999
    ensures 0 <= Transform(n) <= 1818
    ensures Transform(n) / 100 <= Transform(n) % 100
  {
    HasDigits(n);
    var d3, d2, d1, d0 := n / 1000, n % 1000 / 100, n % 100 / 10, n % 10;
    TransformDigits(n, d3, d2, d1, d0);
    var lo, hi := Min(d3 + d2, d1 + d0), Max(d3 + d2, d1 + d0);
    DivOfSum(lo, hi, 100);
  }

  /** Exchanging the two-digit halves of a number in 0..=9999 does not change the result. */
  lemma TransformSwapHalves(n: int)
    requires 0 <= n <= 9999
    ensures Transform(n % 100 * 100 + n / 100) == Transform(n)
  {
    HasDigits(n);
    var d3, d2, d1, d0 := n / 1000, n % 1000 / 100, n % 100 / 10, n % 10;
    TransformDigits(n, d3, d2, d1, d0);
    assert n / 100 == d3 * 10 + d2 by {
      DivOfSum(d3 * 10 + d2, d1 * 10 + d0, 100);
    }
    TransformDigits(n % 100 * 100 + n / 100, d1, d0, d3, d2);
  }

  /** Truncating division and remainder are odd in the dividend. */
  lemma TruncOdd(a: int, d: int)
    requires d > 0
    ensures TDiv(-a, d) == -TDiv(a, d)
    ensures TRem(-a, d) == -TRem(a, d)
  {
  }

  /**
    Because `/` and `%` truncate toward zero, negating the argument negates
    both digit sums, so the larger sum moves to the front and the whole
    result is negated.
   */
  lemma TransformNegate(n: int)
    requires IsI32(n) && IsI32(-n)
    ensures Transform(-n) == -(Max(HighSum(n), LowSum(n)) * 100 + Min(HighSum(n), LowSum(n)))
  {
    TruncOdd(n, 1000);
    TruncOdd(n, 100);
    TruncOdd(n, 10);
    TruncOdd(TRem(n, 1000), 100);
    TruncOdd(TRem(n, 100), 10);
    assert HighSum(-n) == -HighSum(n);
    assert LowSum(-n) == -LowSum(n);
  }

  /**
    Worked values: 1234 gives 307, its negation gives -703, 9999 gives the
    maximum 1818 of four-digit inputs, and 123456 gives 1227 because
    `n / 1000` keeps 123 whole.
   */
  lemma TransformExamples()
    ensures Transform(1234) == 307
    ensures Transform(-1234) == -703
    ensures Transform(9999) == 1818
    ensures Transform(5000) == 5
    ensures Transform(123456) == 1227
  {
    TransformDigits(1234, 1, 2, 3, 4);
    TransformNegate(1234);
    TransformDigits(9999, 9, 9, 9, 9);
    TransformDigits(5000, 5, 0, 0, 0);
    assert HighSum(123456) == 123 + 4 by {
      DivOfSum(123, 456, 1000);
      DivOfSum(4, 56, 100);
    }
    assert LowSum(123456) == 5 + 6 by {
      DivOfSum(1234, 56, 100);
      DivOfSum(5, 6, 10);
      DivOfSum(12345, 6, 10);
    }
  }
}
