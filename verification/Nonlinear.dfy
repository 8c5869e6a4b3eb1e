/** Facts about products of variables, proved once so that no larger proof has to find them. */
module Nonlinear {

  lemma MulMono(x: int, y: int, k: int)
    requires x <= y && 0 <= k
    ensures x * k <= y * k
  {
  }

  lemma MulNonneg(x: int, y: int)
    requires 0 <= x && 0 <= y
    ensures 0 <= x * y
  {
  }

  lemma MulAssoc(x: int, y: int, z: int)
    ensures x * (y * z) == (x * y) * z
  {
  }

  lemma MulSucc(x: int, y: int)
    ensures (x + 1) * y == x * y + y
  {
  }

  lemma MulLess(x: int, y: int, k: int)
    requires x < y && 0 < k
    ensures x * k < y * k
  {
  }

  /** A product that stays below a multiple bounds the factor. */
  lemma MulCancelLess(x: int, y: int, k: int)
    requires 0 < k && x * k < y * k
    ensures x < y
  {
    if y <= x {
      MulMono(y, x, k);
    }
  }

  /** `q` is the quotient of `u` by `v` exactly when the remainder fits. */
  lemma DivIs(u: int, v: int, q: int)
    requires 0 < v && q * v <= u < q * v + v
    ensures u / v == q && u % v == u - q * v
  {
    var d, r := u / v, u % v;
    assert u == d * v + r;
    if d < q {
      MulMono(d + 1, q, v);
    } else if d > q {
      MulMono(q + 1, d, v);
    }
  }

  lemma DivMod(u: int, v: int)
    requires 0 < v
    ensures u == (u / v) * v + u % v && 0 <= u % v < v
  {
  }

  // Relations between products that proofs hide when they only pass them on.

  /** `q` and `r` are the quotient and the remainder of `u` by `v`. */
  ghost predicate IsDivision(u: int, v: int, q: int, r: int) {
    u == q * v + r && 0 <= r < v
  }

  ghost predicate IsScaled(x: int, s: int, y: int) {
    y == x * s
  }

  ghost predicate IsBelowProduct(x: int, p: int, k: int) {
    x <= p * k
  }
}
