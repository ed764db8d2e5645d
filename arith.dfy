/**
 * Facts about division by a positive block size that the solver does not
 * find on its own (they are non-linear).
 */
module Arith {

  lemma MulNonneg(a: int, b: int)
    requires a >= 0 && b >= 0
    ensures a * b >= 0
  {
  }

  /** A non-zero multiple of `t` is at least one block away from zero. */
  lemma MulSign(d: int, t: int)
    requires t > 0
    ensures d >= 1 ==> d * t >= t
    ensures d <= -1 ==> d * t <= -t
  {
    if d >= 1 {
      MulNonneg(d - 1, t);
      assert d * t == (d - 1) * t + t;
    } else if d <= -1 {
      MulNonneg(-d - 1, t);
      assert -d * t == (-d - 1) * t + t;
    }
  }

  /** Quotient and remainder are unique: `q * t + r` with `0 <= r < t` divides as `q` remainder `r`. */
  lemma DivModUnique(x: int, t: int, q: int, r: int)
    requires t > 0 && x == q * t + r && 0 <= r < t
    ensures x % t == r && x / t == q
  {
    var q', r' := x / t, x % t;
    assert x == q' * t + r';
    assert (q - q') * t == r' - r;
    MulSign(q - q', t);
  }

  /** Adding one block does not change the remainder. */
  lemma ModShift(x: int, t: int)
    requires t > 0
    ensures (x + t) % t == x % t
  {
    var q, r := x / t, x % t;
    assert x + t == (q + 1) * t + r;
    DivModUnique(x + t, t, q + 1, r);
  }

  /** One more layer of width `m`: a product grows by one factor. */
  lemma AddLayer(lo: int, hi: int, m: int)
    ensures (hi - lo) * m == (hi - 1 - lo) * m + m
  {
  }

  /** One more block of `d` layers of width `m`. */
  lemma AddBlock(x: int, d: int, m: int)
    ensures x * m == (x - d) * m + d * m
  {
  }

  /** Products of three factors may be regrouped. */
  lemma MulRotate(a: int, b: int, c: int)
    ensures a * (b * c) == c * (a * b)
  {
  }
}
