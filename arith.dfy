/** Integer facts the sampling grid needs: C's truncating division and the
    Euclidean quotient and remainder Dafny uses for positive divisors. */
module Arith {

  /** C's `/` on `int` for a positive divisor: it truncates toward zero. */
  function CDiv(a: int, b: int): int
    requires b > 0
  {
    if a >= 0 then a / b else -((-a) / b)
  }

  /** Quotient and remainder by a positive divisor are unique. */
  lemma DivModUnique(n: int, g: int, q: int, r: int)
    requires g > 0 && 0 <= r < g && n == g * q + r
    ensures n / g == q && n % g == r
  {
    var q', r' := n / g, n % g;
    assert n == g * q' + r' && 0 <= r' < g;
    assert g * (q - q') == r' - r;
    MulAtLeast(q - q', g);
    MulAtLeast(q' - q, g);
  }

  /** A positive multiple of `g` is at least `g`. */
  lemma MulAtLeast(k: int, g: int)
    requires g > 0
    ensures k >= 1 ==> g * k >= g
  {
    if k >= 1 {
      assert g * k == g * (k - 1) + g;
    }
  }

  /** Adding the divisor leaves the remainder unchanged. */
  lemma ModStep(a: int, g: int)
    requires g > 0
    ensures (a + g) % g == a % g && (a + g) / g == a / g + 1
  {
    DivModUnique(a + g, g, a / g + 1, a % g);
  }

  /** Two distinct multiples of `g` are at least `g` apart. */
  lemma NextMultiple(a: int, b: int, g: int)
    requires g > 0 && a % g == 0 && b % g == 0 && a < b
    ensures a + g <= b
  {
    if b < a + g {
      assert a == g * (a / g);
      DivModUnique(b, g, a / g, b - a);
      assert false;
    }
  }

  lemma MulComm(a: int, b: int)
    ensures a * b == b * a
  {
  }

  /** Products of non-negative integers grow with both factors. */
  lemma MulMono(a: int, b: int, c: int, d: int)
    requires 0 <= a <= b && 0 <= c <= d
    ensures 0 <= a * c <= b * d
  {
    assert b * d - a * c == (b - a) * d + a * (d - c);
    assert (b - a) * d >= 0;
    assert a * (d - c) >= 0;
    assert a * c >= 0;
  }

  /** The product grows strictly when one factor does and both larger
      factors are positive. */
  lemma MulStrict(a: int, b: int, c: int, d: int)
    requires 0 <= a <= b && 0 <= c <= d && 1 <= b && 1 <= d && (a < b || c < d)
    ensures a * c < b * d
  {
    if a < b {
      MulMono(a + 1, b, d, d);
      MulMono(a, a, c, d);
      assert (a + 1) * d == a * d + d;
    } else {
      MulMono(b, b, c + 1, d);
      assert b * (c + 1) == b * c + b;
    }
  }
}
