/**
 * PHP's `pow($base, $exp)` for a real base and an integer exponent, over
 * exact reals. A negative exponent is the reciprocal of the positive power.
 */
module Power {

  /** `base` multiplied by itself `n` times. */
  function Pow(base: real, n: nat): (p: real)
    ensures base > 0.0 ==> p > 0.0
    ensures base != 0.0 ==> p != 0.0
  {
    if n == 0 then 1.0 else base * Pow(base, n - 1)
  }

  /** The power is defined unless a zero base is raised to a negative exponent. */
  predicate PowIntDefined(base: real, n: int) {
    base != 0.0 || n >= 0
  }

  /** `pow($base, $n)` for an integer `$n` of either sign. */
  function PowInt(base: real, n: int): (p: real)
    requires PowIntDefined(base, n)
    ensures base > 0.0 ==> p > 0.0
  {
    if n >= 0 then Pow(base, n) else 1.0 / Pow(base, -n)
  }

  /** Any power of one is one. */
  lemma {:induction false} PowOfOne(n: nat)
    ensures Pow(1.0, n) == 1.0
  {
    if n > 0 {
      PowOfOne(n - 1);
    }
  }

  /** A base above one raised to a positive exponent stays above one. */
  lemma {:induction false} PowAboveOne(base: real, n: nat)
    requires base > 1.0 && n > 0
    ensures Pow(base, n) > 1.0
  {
    if n > 1 {
      PowAboveOne(base, n - 1);
      assert base * Pow(base, n - 1) > Pow(base, n - 1);
    }
  }

  /** A base strictly between zero and one raised to a positive exponent stays below one. */
  lemma {:induction false} PowBelowOne(base: real, n: nat)
    requires 0.0 < base < 1.0 && n > 0
    ensures Pow(base, n) < 1.0
  {
    if n > 1 {
      PowBelowOne(base, n - 1);
      assert base * Pow(base, n - 1) < Pow(base, n - 1);
    }
  }

  /**
   * For a positive base, the integer power is one exactly when the base is
   * one or the exponent is zero.
   */
  lemma PowIntIsOneIff(base: real, n: int)
    requires base > 0.0
    ensures PowInt(base, n) == 1.0 <==> base == 1.0 || n == 0
  {
    var m: nat := if n >= 0 then n else -n;
    if base == 1.0 {
      PowOfOne(m);
    } else if m > 0 {
      if base > 1.0 {
        PowAboveOne(base, m);
      } else {
        PowBelowOne(base, m);
      }
      if n < 0 {
        assert PowInt(base, n) * Pow(base, m) == 1.0;
      }
    }
  }
}
