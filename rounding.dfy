/**
 * PHP's `round($x, 2)` over exact reals: the value is scaled to cents,
 * rounded to the nearest whole number with a tie going away from zero,
 * and scaled back.
 */
module Rounding {

  function Abs(x: real): real {
    if x < 0.0 then -x else x
  }

  /**
   * The nearest whole number to a non-negative `y`, a tie going up (away
   * from zero): one more for every unit that `y` holds.
   */
  function NearestWhole(y: real): real
    decreases (y + 1.0).Floor
  {
    if y < 0.5 then 0.0 else NearestWhole(y - 1.0) + 1.0
  }

  /** `NearestWhole(y)` is a whole number within half a unit of `y`, a tie going up. */
  lemma {:induction false} NearestWholeBounds(y: real)
    requires y >= -0.5
    ensures NearestWhole(y).Floor as real == NearestWhole(y)
    ensures y - 0.5 < NearestWhole(y) <= y + 0.5
    decreases (y + 1.0).Floor
  {
    if y >= 0.5 {
      NearestWholeBounds(y - 1.0);
      var below := NearestWhole(y - 1.0);
      assert NearestWhole(y) == below + 1.0;
      assert (below + 1.0).Floor == below.Floor + 1;
    } else {
      assert NearestWhole(y) == 0.0;
    }
  }

  /** The only whole number strictly within one unit of the integer `k` is `k`. */
  lemma WholeNear(w: real, k: int)
    requires w.Floor as real == w
    requires k as real - 1.0 < w < k as real + 1.0
    ensures w == k as real
  {
    var m := w.Floor;
    assert k - 1 < m < k + 1;
  }

  /** A whole number of cents: `x * 100` is an integer. */
  predicate IsCents(x: real) {
    (x * 100.0).Floor as real == x * 100.0
  }

  /** `round($x, 2)`: `x` to the nearest cent, a tie going away from zero. */
  function Round2(x: real): (r: real)
    ensures IsCents(r)
    ensures x - 0.005 <= r <= x + 0.005
    ensures x >= 0.0 ==> r >= 0.0
    ensures x <= 0.0 ==> r <= 0.0
  {
    if x >= 0.0 then
      NearestWholeBounds(x * 100.0);
      WholeCents(NearestWhole(x * 100.0).Floor);
      NearestWhole(x * 100.0) / 100.0
    else
      NearestWholeBounds(-x * 100.0);
      WholeCents(-NearestWhole(-x * 100.0).Floor);
      -NearestWhole(-x * 100.0) / 100.0
  }

  /** `k` cents is a whole number of cents. */
  lemma WholeCents(k: int)
    ensures IsCents(k as real / 100.0)
  {
    assert k as real / 100.0 * 100.0 == k as real;
  }

  /** Rounding a value that already is a whole number of cents leaves it as it is. */
  lemma Round2OfCents(x: real)
    requires IsCents(x)
    ensures Round2(x) == x
  {
    var k := (x * 100.0).Floor;
    if x >= 0.0 {
      NearestWholeBounds(x * 100.0);
      WholeNear(NearestWhole(x * 100.0), k);
    } else {
      NearestWholeBounds(-x * 100.0);
      WholeNear(NearestWhole(-x * 100.0), -k);
    }
  }

  /** Rounding twice is rounding once. */
  lemma Round2Idempotent(x: real)
    ensures Round2(Round2(x)) == Round2(x)
  {
    Round2OfCents(Round2(x));
  }

  /** A value exactly half-way between two cents goes to the one farther from zero. */
  lemma Round2HalfAwayFromZero(k: int)
    ensures Round2((k as real + 0.5) / 100.0) == (if k >= 0 then k + 1 else k) as real / 100.0
  {
    var x := (k as real + 0.5) / 100.0;
    assert x * 100.0 == k as real + 0.5;
    if k >= 0 {
      NearestWholeBounds(x * 100.0);
      WholeNear(NearestWhole(x * 100.0), k + 1);
    } else {
      NearestWholeBounds(-x * 100.0);
      WholeNear(NearestWhole(-x * 100.0), -k);
    }
  }

  /** No whole number of cents is strictly closer to `x` than `Round2(x)`. */
  lemma Round2Nearest(x: real, c: real)
    requires IsCents(c)
    ensures Abs(Round2(x) - x) <= Abs(c - x)
  {
    var r := Round2(x);
    var kr := (r * 100.0).Floor;
    var kc := (c * 100.0).Floor;
    assert r == kr as real / 100.0;
    assert c == kc as real / 100.0;
    if kc < kr {
      assert c <= r - 0.01;
    } else if kc > kr {
      assert c >= r + 0.01;
    }
  }
}
