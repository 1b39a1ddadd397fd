/** `Math.pow(b, n)` for the integer exponents the calculator passes it,
    computed over exact reals. */
module Powers {
  import opened Options

  /** b to a natural power, by repeated multiplication. */
  function Pow(b: real, n: nat): real
  {
    if n == 0 then 1.0 else b * Pow(b, n - 1)
  }

  function Abs(x: real): real
  {
    if x < 0.0 then -x else x
  }

  /** `Math.pow(b, n)` for an integer exponent n. A negative exponent takes
      the reciprocal; a zero base under a negative exponent gives Infinity,
      which is None here. */
  function IntPow(b: real, n: int): (x: Option<real>)
    ensures x.None? <==> b == 0.0 && n < 0
    ensures x.Some? && n >= 0 ==> x.value == Pow(b, n)
    ensures x.Some? && n < 0 ==> x.value * Pow(b, -n) == 1.0
  {
    if n >= 0 then Some(Pow(b, n))
    else if b == 0.0 then None
    else
      PowNonZero(b, -n);
      Some(1.0 / Pow(b, -n))
  }

  lemma {:induction false} PowOne(n: nat)
    ensures Pow(1.0, n) == 1.0
  {
    if n > 0 { PowOne(n - 1); }
  }

  lemma {:induction false} PowNonZero(b: real, n: nat)
    requires b != 0.0
    ensures Pow(b, n) != 0.0
  {
    if n > 0 { PowNonZero(b, n - 1); }
  }

  /** An even power of -1 is 1. */
  lemma {:induction false} PowMinusOneEven(k: nat)
    ensures Pow(-1.0, 2 * k) == 1.0
  {
    if k > 0 {
      PowMinusOneEven(k - 1);
      assert Pow(-1.0, 2 * k) == -1.0 * (-1.0 * Pow(-1.0, 2 * (k - 1)));
    }
  }

  lemma {:induction false} PowAbs(b: real, n: nat)
    ensures Abs(Pow(b, n)) == Pow(Abs(b), n)
  {
    if n > 0 {
      PowAbs(b, n - 1);
      var p := Pow(b, n - 1);
      if b < 0.0 && p < 0.0 {
        assert b * p == (-b) * (-p);
      } else if b < 0.0 {
        assert Abs(b * p) == (-b) * p;
      }
    }
  }

  lemma {:induction false} PowAtLeastOne(b: real, n: nat)
    requires b >= 1.0
    ensures Pow(b, n) >= 1.0
  {
    if n > 0 {
      PowAtLeastOne(b, n - 1);
      assert b * Pow(b, n - 1) >= 1.0 * Pow(b, n - 1);
    }
  }

  /** A base above one grows beyond one under any positive exponent. */
  lemma {:induction false} PowAboveOne(b: real, n: nat)
    requires b > 1.0 && n >= 1
    ensures Pow(b, n) > 1.0
  {
    PowAtLeastOne(b, n - 1);
    assert b * Pow(b, n - 1) >= b * 1.0;
  }

  lemma {:induction false} PowAtMostOne(b: real, n: nat)
    requires 0.0 <= b <= 1.0
    ensures 0.0 <= Pow(b, n) <= 1.0
  {
    if n > 0 {
      PowAtMostOne(b, n - 1);
      ScaleLe(Pow(b, n - 1), 0.0, b);
      assert Pow(b, n) == b * Pow(b, n - 1);
      assert b * Pow(b, n - 1) <= Pow(b, n - 1);
    }
  }

  /** A base in [0, 1) stays below one under any positive exponent. */
  lemma {:induction false} PowBelowOne(b: real, n: nat)
    requires 0.0 <= b < 1.0 && n >= 1
    ensures Pow(b, n) < 1.0
  {
    PowAtMostOne(b, n - 1);
    assert b * Pow(b, n - 1) <= b * 1.0;
  }

  /** Only a base of absolute value one has a positive power equal to one. */
  lemma PowNotOne(b: real, n: nat)
    requires Abs(b) != 1.0 && n >= 1
    ensures Pow(b, n) != 1.0
  {
    PowAbs(b, n);
    if Abs(b) > 1.0 {
      PowAboveOne(Abs(b), n);
    } else {
      PowBelowOne(Abs(b), n);
    }
  }

  /** Under an even exponent, `Math.pow` gives exactly one only for a zero
      exponent or a base of one or minus one. */
  lemma IntPowEvenIsOne(b: real, n: int, half: int)
    requires n == 2 * half
    ensures IntPow(b, n) == Some(1.0) <==> n == 0 || b == 1.0 || b == -1.0
  {
    var k: nat := if n >= 0 then n else -n;
    if n == 0 {
    } else if b == 1.0 {
      PowOne(k);
    } else if b == -1.0 {
      PowMinusOneEven(if half >= 0 then half else -half);
    } else if b == 0.0 {
      if n > 0 { assert Pow(b, n) == 0.0 * Pow(b, n - 1); }
    } else {
      PowNotOne(b, k);
    }
  }

  /** Bernoulli-style bound: g^k - 1 <= k * r * g^k for g = 1 + r, r >= 0. */
  lemma {:induction false} GrowthBound(r: real, k: nat)
    requires r >= 0.0
    ensures Pow(1.0 + r, k) - 1.0 <= k as real * r * Pow(1.0 + r, k)
  {
    if k > 0 {
      GrowthBound(r, k - 1);
      PowAtLeastOne(1.0 + r, k);
      GrowthBoundStep(r, Pow(1.0 + r, k - 1), Pow(1.0 + r, k), (k - 1) as real);
    }
  }

  /** One step of GrowthBound, on plain reals. */
  lemma GrowthBoundStep(r: real, g: real, big: real, m: real)
    requires r >= 0.0 && m >= 0.0 && big == (1.0 + r) * g && big >= 1.0
    requires g - 1.0 <= m * r * g
    ensures big - 1.0 <= (m + 1.0) * r * big
  {
    ScaleLe(1.0 + r, g - 1.0, m * r * g);
    assert (1.0 + r) * (m * r * g) == m * r * big;
    ScaleLe(r, 1.0, big);
    assert big - 1.0 == (1.0 + r) * (g - 1.0) + r;
    assert r <= r * big;
    assert (1.0 + r) * (g - 1.0) <= m * r * big;
    assert big - 1.0 <= m * r * big + r * big;
    assert (m + 1.0) * r * big == m * r * big + r * big;
  }

  lemma ScaleLe(c: real, a: real, b: real)
    requires c >= 0.0 && a <= b
    ensures c * a <= c * b
  {
  }
}
