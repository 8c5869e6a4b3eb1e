/** `__lmulq` and `__muldi3`: 64-bit multiplication from 16-bit and 32-bit pieces. */
module Multiply {
  import opened Nonlinear
  import opened Words

  /** An unsigned 64-bit number read as a signed one. */
  function ToSigned(x: int): int {
    var y := x % TWO64;
    if y < TWO64 / 2 then y else y - TWO64
  }

  ghost predicate IsSigned64(x: int) {
    -(TWO64 / 2) <= x < TWO64 / 2
  }

  /** `x` and `y` agree in their low 64 bits. */
  ghost predicate Congruent(x: int, y: int) {
    (x - y) % TWO64 == 0
  }

  /** `LHUP`: the low word of `x << 16`, whose high word is `HHALF(x)`. */
  function LHup(x: int): int { x * TWO16 % TWO32 }

  lemma ShiftedPair(x: int)
    requires 0 <= x < TWO32
    ensures x * TWO16 == HHalf(TWO16, x) * TWO32 + LHup(x)
    ensures 0 <= HHalf(TWO16, x) < TWO16 && 0 <= LHup(x) < TWO32
  {
  }

  /** The double word `(high, low)`, with wrap-around bookkept in `laps`. */
  ghost predicate Holds(high: int, low: int, value: int, laps: int) {
    0 <= high < TWO32 && 0 <= low < TWO32 && high * TWO32 + low == value + laps * TWO64
  }

  /** Add the double word `x << 16` with a hand-made carry. */
  method AddShifted(prodh: int, prodl: int, x: int, ghost value: int, ghost laps: int)
    returns (h: int, l: int, ghost laps': int)
    requires Holds(prodh, prodl, value, laps) && 0 <= x < TWO32
    ensures Holds(h, l, value + x * TWO16, laps')
  {
    ShiftedPair(x);
    l := (prodl + LHup(x)) % TWO32;
    h := (prodh + HHalf(TWO16, x) + if l < prodl then 1 else 0) % TWO32;
    laps' := laps - (prodh + HHalf(TWO16, x) + if l < prodl then 1 else 0) / TWO32;
  }

  /** Subtract the double word `x << 16` with a hand-made borrow. */
  method SubtractShifted(prodh: int, prodl: int, x: int, ghost value: int, ghost laps: int)
    returns (h: int, l: int, ghost laps': int)
    requires Holds(prodh, prodl, value, laps) && 0 <= x < TWO32
    ensures Holds(h, l, value - x * TWO16, laps')
  {
    ShiftedPair(x);
    l := (prodl - LHup(x)) % TWO32;
    h := (prodh - (HHalf(TWO16, x) + if l > prodl then 1 else 0)) % TWO32;
    laps' := laps - (prodh - (HHalf(TWO16, x) + if l > prodl then 1 else 0)) / TWO32;
  }

  /** The distance between two numbers, and whether the first is the smaller. */
  method Difference(x: int, y: int) returns (d: int, neg: bool)
    ensures d == if neg then y - x else x - y
    ensures d >= 0
  {
    if x >= y {
      d, neg := x - y, false;
    } else {
      d, neg := y - x, true;
    }
  }

  lemma ProductBelow(x: int, y: int, k: int)
    requires 0 <= x < k && 0 <= y < k
    ensures 0 <= x * y < k * k
  {
    MulNonneg(x, y);
    MulMono(x, k, y);
    MulLess(y, k, k);
  }

  /** Knuth's three-product identity, for halves of any weight `n`. */
  lemma ThreeProducts(n: int, u1: int, u0: int, v1: int, v0: int)
    ensures (u1 * n + u0) * (v1 * n + v0) ==
      (u1 * v1) * (n * n) + (u1 * v1) * n + ((u1 - u0) * (v0 - v1)) * n + (u0 * v0) * n + u0 * v0
  {
    var a, b, c, d := u1 * v1, u1 * v0, u0 * v1, u0 * v0;
    assert (u1 - u0) * (v0 - v1) == b - a - d + c;
    assert (u1 * n) * (v1 * n) == a * (n * n);
    assert (u1 * n) * v0 == b * n;
    assert u0 * (v1 * n) == c * n;
  }

  /** The middle product from the two distances. */
  lemma SignedProduct(x: int, xneg: bool, x': int, y: int, yneg: bool, y': int)
    requires x == (if xneg then -x' else x') && y == (if yneg then -y' else y')
    ensures x' * y' == if xneg != yneg then -(x * y) else x * y
  {
  }

  /** `__lmulq`: the exact 64-bit product of two 32-bit words. */
  method LMulQ(u: int, v: int) returns (prod: int)
    requires 0 <= u < TWO32 && 0 <= v < TWO32
    ensures prod == u * v && 0 <= prod < TWO64
  {
    ProductBelow(u, v, TWO32);
    var u1, u0 := u / TWO16, u % TWO16;
    var v1, v0 := v / TWO16, v % TWO16;
    ThreeProducts(TWO16, u1, u0, v1, v0);
    ProductBelow(u0, v0, TWO16);
    var low := u0 * v0;
    if u1 == 0 && v1 == 0 {
      return low;
    }
    var udiff, uneg := Difference(u1, u0);
    var vdiff, vneg := Difference(v0, v1);
    ProductBelow(udiff, vdiff, TWO16);
    var mid := udiff * vdiff;
    SignedProduct(u1 - u0, uneg, udiff, v0 - v1, vneg, vdiff);
    ProductBelow(u1, v1, TWO16);
    var high := u1 * v1;
    prod := AssembleProduct(high, mid, uneg != vneg, low, u * v);
  }

  /** Summing the three partial products in two words with carries. */
  method AssembleProduct(high: int, mid: int, neg: bool, low: int, ghost uv: int) returns (prod: int)
    requires 0 <= high < TWO32 && 0 <= mid < TWO32 && 0 <= low < TWO32 && 0 <= uv < TWO64
    requires uv == high * TWO32 + high * TWO16 + (if neg then -mid else mid) * TWO16 + low * TWO16 + low
    ensures prod == uv
  {
    hide Holds;
    ghost var first := high * TWO32 + high * TWO16;
    var prodh, prodl, laps := StartProduct(high);
    if neg {
      prodh, prodl, laps := SubtractShifted(prodh, prodl, mid, first, laps);
    } else {
      prodh, prodl, laps := AddShifted(prodh, prodl, mid, first, laps);
    }
    prodh, prodl, laps := AddShifted(prodh, prodl, low, uv - low * TWO16 - low, laps);
    prodh, prodl, laps := AddLow(prodh, prodl, low, uv - low, laps);
    NoLaps(prodh, prodl, uv, laps);
    prod := prodh * TWO32 + prodl;
  }

  /** `(high << 32) + (high << 16)`. */
  method StartProduct(high: int) returns (h: int, l: int, ghost laps: int)
    requires 0 <= high < TWO32
    ensures Holds(h, l, high * TWO32 + high * TWO16, laps)
  {
    ShiftedPair(high);
    h := (high + HHalf(TWO16, high)) % TWO32;
    l := LHup(high);
    laps := -((high + HHalf(TWO16, high)) / TWO32);
  }

  /** Add one word with a carry. */
  method AddLow(prodh: int, prodl: int, low: int, ghost value: int, ghost laps: int)
    returns (h: int, l: int, ghost laps': int)
    requires Holds(prodh, prodl, value, laps) && 0 <= low < TWO32
    ensures Holds(h, l, value + low, laps')
  {
    h, laps' := prodh, laps;
    l := (prodl + low) % TWO32;
    if l < low {
      laps' := laps - (prodh + 1) / TWO32;
      h := (prodh + 1) % TWO32;
    }
  }

  /** A value that fits in 64 bits is held exactly. */
  lemma NoLaps(high: int, low: int, value: int, laps: int)
    requires Holds(high, low, value, laps) && 0 <= value < TWO64
    ensures high * TWO32 + low == value
  {
  }

  /** `__muldi3`: the signed 64-bit product modulo 2^64. */
  method MulDi3(a: int, b: int) returns (r: int)
    requires IsSigned64(a) && IsSigned64(b)
    ensures IsSigned64(r) && Congruent(r, a * b)
  {
    var u, uneg := Difference(a, 0);
    var v, vneg := Difference(b, 0);
    SignedProduct(a, uneg, u, b, vneg, v);
    var u1, u0, v1, v0 := u / TWO32, u % TWO32, v / TWO32, v % TWO32;
    var prod: int;
    if u1 == 0 && v1 == 0 {
      prod := LMulQ(u0, v0);
    } else {
      prod := WordProduct(u1, u0, v1, v0);
    }
    r := ToSigned(if uneg != vneg then -prod else prod);
    NegateCongruent(prod, u * v);
  }

  lemma CongruentBy(x: int, y: int, k: int)
    requires x - y == k * TWO64
    ensures Congruent(x, y)
  {
  }

  lemma NegateCongruent(x: int, y: int)
    requires Congruent(x, y)
    ensures Congruent(ToSigned(x), y) && Congruent(ToSigned(-x), -y)
  {
    var k := (x - y) / TWO64;
    var q, p := x / TWO64, (-x) / TWO64;
    CongruentBy(ToSigned(x), y, k - q - if x % TWO64 < TWO64 / 2 then 0 else 1);
    CongruentBy(ToSigned(-x), -y, -k - p - if (-x) % TWO64 < TWO64 / 2 then 0 else 1);
  }

  /** The general case: three word products, of which only the low 64 bits of the sum are kept. */
  method WordProduct(u1: int, u0: int, v1: int, v0: int) returns (prod: int)
    requires 0 <= u1 < TWO32 && 0 <= u0 < TWO32 && 0 <= v1 < TWO32 && 0 <= v0 < TWO32
    ensures 0 <= prod < TWO64 && Congruent(prod, (u1 * TWO32 + u0) * (v1 * TWO32 + v0))
  {
    var low := LMulQ(u0, v0);
    var udiff, uneg := Difference(u1, u0);
    var vdiff, vneg := Difference(v0, v1);
    SignedProduct(u1 - u0, uneg, udiff, v0 - v1, vneg, vdiff);
    var mid := (udiff * vdiff) % TWO32;
    var high := (u1 * v1) % TWO32;
    var top := (high + (if uneg != vneg then -mid else mid) + low % TWO32 + low / TWO32) % TWO32;
    prod := top * TWO32 + low % TWO32;
    ThreeProducts(TWO32, u1, u0, v1, v0);
    TopWord(u1 * v1, udiff * vdiff, uneg != vneg, low, (u1 * TWO32 + u0) * (v1 * TWO32 + v0));
  }

  lemma TopWord(high: int, mid: int, neg: bool, low: int, uv: int)
    requires 0 <= low < TWO64
    requires uv == high * TWO64 + high * TWO32 + (if neg then -mid else mid) * TWO32 + low * TWO32 + low
    ensures Congruent((high % TWO32 + (if neg then -(mid % TWO32) else mid % TWO32) + low % TWO32 + low / TWO32) % TWO32 * TWO32 + low % TWO32, uv)
  {
    var sum := high % TWO32 + (if neg then -(mid % TWO32) else mid % TWO32) + low % TWO32 + low / TWO32;
    var m := mid / TWO32;
    CongruentBy(sum % TWO32 * TWO32 + low % TWO32, uv,
                -(sum / TWO32) - high - high / TWO32 - (if neg then -m else m) - low / TWO32);
  }
}
