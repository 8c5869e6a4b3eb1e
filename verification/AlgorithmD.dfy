/**
 * Long division of multi-digit numbers (Knuth, The Art of Computer Programming vol. 2, section
 * 4.3.1, Algorithm D), steps D2 to D7 of `__qdivrem`, in an arbitrary base `b` and for arbitrary
 * digit counts.  Digits fit in half a machine word: a word holds the numbers below `b * b`, and
 * every word-sized intermediate result is reduced modulo `b * b` as the C code does.
 */
module AlgorithmD {
  import opened Nonlinear
  import opened Digits
  import opened Words

  // ----- D3: the quotient digit estimate

  /**
   * The best digit that three dividend digits (`u2` holds the first two) and two divisor digits
   * allow: their quotient, capped at the largest digit.
   */
  ghost function Estimate(b: nat, u2: int, uj2: int, v1: int, v2: int): int
    requires 0 < v1 && 0 < b && 0 <= v2
  {
    LeadingPositive(b, v1, v2);
    var q := (u2 * b + uj2) / (v1 * b + v2);
    if q < b then q else b - 1
  }

  lemma LeadingPositive(b: int, v1: int, v2: int)
    requires 0 < v1 && 0 < b && 0 <= v2
    ensures b <= v1 * b + v2
  {
    MulMono(1, v1, b);
  }

  /**
   * Step D3.  The loop arrives at exactly the three-by-two-digit quotient, capped at the largest
   * digit; a normalised divisor makes it take at most two decrements.
   */
  method EstimateDigit(b: nat, uj0: int, uj1: int, uj2: int, v1: int, v2: int)
    returns (qhat: int, ghost decrements: nat)
    requires b >= 2
    requires 0 <= uj0 <= v1 < b && 0 < v1 && 0 <= uj1 < b && 0 <= uj2 < b && 0 <= v2 < b
    ensures qhat == Estimate(b, uj0 * b + uj1, uj2, v1, v2)
    ensures 2 * v1 >= b ==> decrements <= 2
  {
    hide Estimate, Remainder;
    ghost var u2 := uj0 * b + uj1;
    ghost var best := Estimate(b, u2, uj2, v1, v2);
    EstimateIsDigit(b, uj0, uj1, uj2, v1, v2);
    var rhat: int;
    var tooBig: bool;
    decrements := 0;
    if uj0 == v1 {
      qhat := b;
      rhat := uj1;
      tooBig := true;
      FullRemainder(b, v1, uj1);
    } else {
      var nn := uj0 * b + uj1;
      QuotientIsDigit(b, uj0, uj1, v1);
      qhat := nn / v1;
      rhat := nn % v1;
      tooBig := GuessTooBig(b, u2, uj2, v1, v2, qhat, rhat);
      FirstGuess(b, u2, uj2, v1, v2, qhat);
    }
    ghost var start, rstart := qhat, rhat;
    while tooBig
      invariant 0 <= qhat <= b
      invariant Remainder(u2, v1, qhat, rhat)
      invariant 0 <= rhat
      invariant best <= qhat
      invariant tooBig ==> rhat < b && best < qhat
      invariant !tooBig ==> qhat == best
      invariant start == qhat + decrements
      decreases qhat
    {
      NextRemainder(u2, v1, qhat, rhat);
      qhat := qhat - 1;
      rhat := rhat + v1;
      decrements := decrements + 1;
      if rhat >= b {
        LargeRemainder(b, u2, uj2, v1, v2, qhat, rhat);
        break;
      }
      tooBig := GuessTooBig(b, u2, uj2, v1, v2, qhat, rhat);
    }
    if 2 * v1 >= b {
      StartBound(b, u2, uj2, v1, v2, start, rstart);
    }
  }

  /** What `u2` leaves over when `qhat` times `v1` is taken from it. */
  ghost predicate Remainder(u2: int, v1: int, qhat: int, rhat: int) {
    rhat == u2 - qhat * v1
  }

  lemma FullRemainder(b: int, v1: int, uj1: int)
    ensures Remainder(v1 * b + uj1, v1, b, uj1)
  {
  }

  lemma NextRemainder(u2: int, v1: int, qhat: int, rhat: int)
    requires Remainder(u2, v1, qhat, rhat)
    ensures Remainder(u2, v1, qhat - 1, rhat + v1)
  {
    assert (qhat - 1) * v1 == qhat * v1 - v1;
  }

  /** The loop test compares `qhat` with the three-by-two-digit quotient, without overflow. */
  method GuessTooBig(b: nat, ghost u2: int, uj2: int, v1: int, v2: int, qhat: int, rhat: int) returns (r: bool)
    requires 0 < v1 && 0 <= v2 < b && 0 <= qhat < b
    requires Remainder(u2, v1, qhat, rhat)
    ensures r <==> qhat > Estimate(b, u2, uj2, v1, v2)
  {
    NoWrap(b, v2, qhat);
    r := (v2 * qhat) % (b * b) > rhat * b + uj2;
    TooBigMeans(b, u2, uj2, v1, v2, qhat, rhat);
    LeadingPositive(b, v1, v2);
    AboveQuotient(u2 * b + uj2, v1 * b + v2, qhat);
  }

  lemma {:induction false} EstimateIsDigit(b: nat, uj0: int, uj1: int, uj2: int, v1: int, v2: int)
    requires 0 < b && 0 < v1 && 0 <= v2 && 0 <= uj0 && 0 <= uj1 && 0 <= uj2
    ensures 0 <= Estimate(b, uj0 * b + uj1, uj2, v1, v2) < b
  {
    MulNonneg(uj0, b);
    MulNonneg(uj0 * b + uj1, b);
    LeadingPositive(b, v1, v2);
    DivNonneg((uj0 * b + uj1) * b + uj2, v1 * b + v2);
  }

  lemma DivNonneg(u: int, v: int)
    requires 0 <= u && 0 < v
    ensures 0 <= u / v
  {
    DivMod(u, v);
    if u / v < 0 {
      MulMono(u / v, -1, v);
    }
  }

  lemma {:induction false} NoWrap(b: nat, v2: int, qhat: int)
    requires 0 <= v2 < b && 0 <= qhat < b
    ensures 0 <= v2 * qhat < b * b && (v2 * qhat) % (b * b) == v2 * qhat
  {
    MulNonneg(v2, qhat);
    MulMono(v2, b, qhat);
    MulLess(qhat, b, b);
    SmallMod(v2 * qhat, b * b);
  }

  lemma SmallMod(x: int, w: int)
    requires 0 <= x < w
    ensures x % w == x
  {
  }

  lemma {:induction false} TooBigMeans(b: nat, u2: int, uj2: int, v1: int, v2: int, qhat: int, rhat: int)
    requires rhat == u2 - qhat * v1
    ensures v2 * qhat > rhat * b + uj2 <==> qhat * (v1 * b + v2) > u2 * b + uj2
  {
    assert rhat * b == u2 * b - qhat * v1 * b;
    assert qhat * (v1 * b + v2) == qhat * v1 * b + qhat * v2;
  }

  lemma AboveQuotient(u3: int, vv: int, qhat: int)
    requires 0 < vv
    ensures qhat * vv > u3 <==> qhat > u3 / vv
  {
    DivMod(u3, vv);
    if qhat > u3 / vv {
      MulMono(u3 / vv + 1, qhat, vv);
      assert (u3 / vv + 1) * vv == u3 / vv * vv + vv;
    } else {
      MulMono(qhat, u3 / vv, vv);
    }
  }

  /** Once the running remainder has left the digit range the guess is not too big any more. */
  lemma {:induction false} LargeRemainder(b: nat, u2: int, uj2: int, v1: int, v2: int, qhat: int, rhat: int)
    requires 0 < v1 && 0 <= v2 < b && 0 <= qhat < b <= rhat && 0 <= uj2
    requires Remainder(u2, v1, qhat, rhat)
    ensures qhat <= Estimate(b, u2, uj2, v1, v2)
  {
    LeadingPositive(b, v1, v2);
    NoWrap(b, v2, qhat);
    MulMono(b, rhat, b);
    TooBigMeans(b, u2, uj2, v1, v2, qhat, rhat);
    AboveQuotient(u2 * b + uj2, v1 * b + v2, qhat);
  }

  lemma {:induction false} QuotientIsDigit(b: nat, uj0: int, uj1: int, v1: int)
    requires 0 <= uj0 < v1 && 0 <= uj1 < b
    ensures var u2 := uj0 * b + uj1;
      0 <= u2 / v1 < b && Remainder(u2, v1, u2 / v1, u2 % v1) && 0 <= u2 % v1 < v1
  {
    var u2 := uj0 * b + uj1;
    MulNonneg(uj0, b);
    MulMono(uj0 + 1, v1, b);
    DivMod(u2, v1);
    DivNonneg(u2, v1);
    assert b * v1 > u2;
    AboveQuotient(u2, v1, b);
  }

  /** Dividing two digits by one never underestimates. */
  lemma {:induction false} FirstGuess(b: nat, u2: int, uj2: int, v1: int, v2: int, q: int)
    requires 0 <= uj2 < b && 0 <= v2 && 0 < v1 && 0 <= q == u2 / v1
    ensures q >= Estimate(b, u2, uj2, v1, v2)
  {
    LeadingPositive(b, v1, v2);
    DivMod(u2, v1);
    assert (q + 1) * v1 == q * v1 + v1;
    NextGuess(b, u2, uj2, v1, v2, q + 1);
    AboveQuotient(u2 * b + uj2, v1 * b + v2, q + 1);
  }

  lemma {:induction false} NextGuess(b: nat, u2: int, uj2: int, v1: int, v2: int, q: int)
    requires 0 <= uj2 < b && 0 <= v2 && 0 <= q && q * v1 > u2
    ensures q * (v1 * b + v2) > u2 * b + uj2
  {
    MulMono(u2 + 1, q * v1, b);
    MulNonneg(q, v2);
    assert q * (v1 * b + v2) == (q * v1) * b + q * v2;
    assert (u2 + 1) * b == u2 * b + b;
  }

  lemma Expand(x: int, y: int, b: int, z: int)
    ensures x * (y * b + z) == (x * y) * b + x * z
  {
  }

  /** Knuth's Theorem B: with `v1 >= b / 2` the first guess exceeds the estimate by at most two. */
  lemma {:induction false} StartBound(b: nat, u2: int, uj2: int, v1: int, v2: int, start: int, rstart: int)
    requires b >= 2 && 0 < v1 < b && 0 <= v2 < b && b <= 2 * v1 && 0 <= start <= b && 0 <= uj2
    requires Remainder(u2, v1, start, rstart) && 0 <= rstart
    ensures start <= Estimate(b, u2, uj2, v1, v2) + 2
  {
    LeadingPositive(b, v1, v2);
    var vv := v1 * b + v2;
    StartProduct(b, u2, v1, v2, start);
    AboveQuotient(u2 * b + uj2, vv, start - 2);
  }

  lemma {:induction false} StartProduct(b: nat, u2: int, v1: int, v2: int, start: int)
    requires b >= 2 && 0 < v1 < b && 0 <= v2 < b && b <= 2 * v1 && 0 <= start <= b
    requires start * v1 <= u2
    ensures (start - 2) * (v1 * b + v2) <= u2 * b
  {
    var vv := v1 * b + v2;
    Expand(start, v1, b, v2);
    assert (start - 2) * vv == start * vv - 2 * vv;
    assert (start * v1) * b <= u2 * b by { MulMono(start * v1, u2, b); }
    assert start * v2 <= b * b by { MulMono(start, b, v2); MulMono(v2, b, b); }
    assert b * b <= 2 * (v1 * b) by { MulMono(b, 2 * v1, b); assert (2 * v1) * b == 2 * (v1 * b); }
  }

  /**
   * The estimate is the true quotient digit or one more.  Only a nonzero leading divisor digit is
   * needed; `p` weighs the digits that the estimate did not look at.
   */
  lemma {:induction false} EstimateBounds(b: nat, p: int, u2: int, uj2: int, ul: int, v1: int, v2: int, vl: int, u: int, v: int)
    requires b >= 2 && p >= 1 && 0 <= ul < p && 0 <= vl < p && 0 < v1 && 0 <= v2 && 0 <= u2 && 0 <= uj2
    requires u == (u2 * b + uj2) * p + ul && v == (v1 * b + v2) * p + vl
    requires u < b * v
    ensures TrueDigitOrOneMore(b, Estimate(b, u2, uj2, v1, v2), u, v)
  {
    var u3, vv, qhat := u2 * b + uj2, v1 * b + v2, Estimate(b, u2, uj2, v1, v2);
    LeadingPositive(b, v1, v2);
    MulNonneg(u2, b);
    DivNonneg(u3, vv);
    AboveQuotient(u3, vv, qhat);
    EstimateNotLow(b, p, u3, ul, vv, vl, qhat);
    EstimateNotHigh(b, p, u3, ul, vv, vl, qhat);
  }

  /** `qhat` is a digit, and either the quotient of `u` by `v` or that quotient plus one. */
  ghost predicate TrueDigitOrOneMore(b: nat, qhat: int, u: int, v: int) {
    0 <= qhat < b && qhat * v < u + v && u < (qhat + 1) * v
  }

  lemma {:induction false} TrueDigitOrOneMoreMeans(b: nat, qhat: int, u: int, v: int)
    requires v > 0
    ensures TrueDigitOrOneMore(b, qhat, u, v) <==> 0 <= qhat < b && (qhat == u / v || qhat == u / v + 1) && qhat * v < u + v
  {
    AboveQuotient(u, v, qhat + 1);
    AboveQuotient(u, v, qhat - 1);
    assert (qhat - 1) * v == qhat * v - v;
  }

  lemma EstimateNotHigh(b: int, p: int, u3: int, ul: int, v2: int, vl: int, qhat: int)
    requires p >= 1 && 0 <= ul && 0 <= vl < p && b <= v2 && 0 <= qhat < b && qhat * v2 <= u3
    ensures qhat * (v2 * p + vl) < (u3 * p + ul) + (v2 * p + vl)
  {
    Expand(qhat, v2, p, vl);
    MulMono(qhat * v2, u3, p);
    assert qhat * vl <= qhat * p by { assert qhat * vl == vl * qhat; MulMono(vl, p, qhat); }
    MulLess(qhat, b, p);
    MulMono(b, v2, p);
  }

  lemma EstimateNotLow(b: int, p: int, u3: int, ul: int, v2: int, vl: int, qhat: int)
    requires p >= 1 && 0 <= ul < p && 0 <= vl && b <= v2 && 2 <= b && 0 <= u3
    requires u3 * p + ul < b * (v2 * p + vl)
    requires 0 <= qhat == if u3 / v2 < b then u3 / v2 else b - 1
    ensures u3 * p + ul < (qhat + 1) * (v2 * p + vl)
  {
    if qhat < b - 1 {
      AboveQuotient(u3, v2, qhat + 1);
      Expand(qhat + 1, v2, p, vl);
      MulMono(u3 + 1, (qhat + 1) * v2, p);
      MulNonneg(qhat + 1, vl);
      assert (u3 + 1) * p == u3 * p + p;
    }
  }

  // ----- D4: multiply and subtract

  /** A wrapped negative word, seen as its two halves. */
  lemma WrappedHalves(b: int, k: int, d: int)
    requires b >= 2 && -b <= k < 0 && 0 <= d < b
    ensures (k * b + d) % (b * b) == (k + b) * b + d
    ensures ((k + b) * b + d) / b == k + b && ((k + b) * b + d) % b == d
  {
    MulMono(k, -1, b);
    MulMono(-b, k, b);
    assert (-b) * b == -(b * b);
    assert (k + b) * b == k * b + b * b;
    DivIs(k * b + d, b * b, -1);
    DivIs((k + b) * b + d, b, k + b);
  }

  lemma SubtractRange(b: int, ud: int, vd: int, qhat: int, t: int)
    requires 0 <= ud < b && 0 <= vd < b && 0 <= qhat < b && 0 <= t < b
    ensures -((b - 1) * b) <= ud - vd * qhat - t < b
  {
    MulNonneg(vd, qhat);
    MulMono(vd, b - 1, qhat);
    MulMono(qhat, b - 1, b - 1);
    assert (b - 1) * qhat == qhat * (b - 1);
    assert (b - 1) * b == (b - 1) * (b - 1) + (b - 1);
  }

  lemma BorrowStep(b: int, x: int, w: int) returns (t: int)
    requires b >= 2 && -((b - 1) * b) <= x < b && w == x % (b * b)
    ensures 0 <= t < b && (b - w / b) % b == t
    ensures 0 <= w % b < b && w % b == x + t * b
  {
    FloorRange(b, x);
    var k := x / b;
    t := -k;
    if x >= 0 {
      SmallWord(b, x);
      assert (b - 0) % b == 0;
    } else {
      WrappedHalves(b, k, x % b);
      SmallMod(-k, b);
      assert (-k) * b == -(k * b);
    }
  }

  /**
   * One digit of the subtraction, `x = ud - vd * qhat - t`, in wrapped word arithmetic: the low half
   * of the word is the new digit and the negated high half is exactly the borrow.
   */
  method SplitDifference(b: nat, x: int) returns (digit: int, t: int)
    requires b >= 2 && -((b - 1) * b) <= x < b
    ensures 0 <= digit < b && 0 <= t < b
    ensures digit == x + t * b
  {
    var word := b * b;
    assert word > 0 by { MulLess(0, b, b); }
    t := x % word;
    ghost var t' := BorrowStep(b, x, t);
    digit := LHalf(b, t);
    t := (b - HHalf(b, t)) % b;
  }

  method SubtractDigit(b: nat, ud: int, vd: int, qhat: int, t: int) returns (digit: int, t': int)
    requires b >= 2 && 0 <= ud < b && 0 <= vd < b && 0 <= qhat < b && 0 <= t < b
    ensures 0 <= digit < b && 0 <= t' < b
    ensures digit == ud - vd * qhat - t + t' * b
  {
    SubtractRange(b, ud, vd, qhat, t);
    digit, t' := SplitDifference(b, ud - vd * qhat - t);
  }

  /** The last subtraction has no divisor digit; a nonzero high half is a borrow. */
  method SubtractTop(b: nat, ud: int, t: int) returns (digit: int, borrow: bool)
    requires b >= 2 && 0 <= ud < b && 0 <= t < b
    ensures 0 <= digit < b
    ensures digit == ud - t + if borrow then b else 0
  {
    var w := (ud - t) % (b * b);
    if ud - t >= 0 {
      SmallWord(b, ud - t);
    } else {
      WrappedHalves(b, -1, ud - t + b);
    }
    digit := LHalf(b, w);
    borrow := HHalf(b, w) != 0;
  }

  lemma FloorRange(b: int, x: int)
    requires b >= 2 && -((b - 1) * b) <= x < b
    ensures x == x / b * b + x % b && 0 <= x % b < b
    ensures x < 0 ==> -b < x / b < 0
    ensures x >= 0 ==> x / b == 0
  {
    DivMod(x, b);
    if x >= 0 {
      DivIs(x, b, 0);
    } else {
      AboveQuotient(x, b, 0);
      assert (-(b - 1)) * b == -((b - 1) * b);
      AboveQuotient(x, b, -(b - 1));
    }
  }

  lemma SmallWord(b: int, x: int)
    requires b >= 2 && 0 <= x < b
    ensures x % (b * b) == x && x / b == 0 && x % b == x
  {
    MulMono(1, b, b);
    SmallMod(x, b * b);
    DivIs(x, b, 0);
  }

  lemma SubtractArith(b: int, p: int, ud: int, vd: int, qhat: int, t: int, digit: int, t': int,
                      now: int, was: int, vv: int)
    requires now == was - qhat * vv + t * p
    requires digit == ud - vd * qhat - t + t' * b
    ensures digit * p + now == (ud * p + was) - qhat * (vd * p + vv) + t' * (b * p)
  {
    Expand(qhat, vd, p, vv);
    assert (vd * qhat) * p == (qhat * vd) * p;
    assert digit * p == ud * p - (vd * qhat) * p - t * p + (t' * b) * p;
    assert (t' * b) * p == t' * (b * p);
  }

  /** The digits `now` are `was` minus `qhat` times `vs`, up to a borrow of `t` from the next digit. */
  ghost predicate Subtracted(b: nat, now: seq<int>, was: seq<int>, vs: seq<int>, qhat: int, t: int) {
    Val(b, now) == Val(b, was) - qhat * Val(b, vs) + t * Pow(b, |vs|)
  }

  /**
   * Step D4: subtract `qhat` times the divisor from the window `u[j..j+n]`, in place.  The wrapped
   * borrows are exact, and the result reports a borrow exactly when the true difference is negative.
   */
  method MultiplySubtract(b: nat, u: array<int>, j: nat, v: array<int>, vo: nat, n: nat, qhat: int) returns (borrow: bool)
    requires u != v && b >= 2
    requires j + n < u.Length && vo + n < v.Length
    requires IsDigits(b, u[j..j + n + 1]) && IsDigits(b, v[vo + 1..vo + n + 1]) && 0 <= qhat < b
    modifies u
    ensures IsDigits(b, u[j..j + n + 1])
    ensures forall k :: 0 <= k < u.Length && !(j <= k <= j + n) ==> u[k] == old(u[k])
    ensures Subtracted(b, u[j..j + n + 1], old(u[j..j + n + 1]), [0] + v[vo + 1..vo + n + 1], qhat, if borrow then 1 else 0)
  {
    hide Subtracted;
    var t, i := 0, n;
    ghost var was, vs := u[..], v[..];
    DigitsSlice(b, was, j, j + n + 1, j, j + n + 1);
    DigitsSlice(b, vs, vo + 1, vo + n + 1, vo + 1, vo + n + 1);
    SubtractedNothing(b, qhat, was[j + n + 1..j + n + 1], vs[vo + n + 1..vo + n + 1]);
    while i > 0
      invariant 0 <= i <= n && 0 <= t < b
      invariant forall k :: 0 <= k < u.Length && !(j + i < k <= j + n) ==> u[k] == was[k]
      invariant forall k :: j <= k < j + n + 1 ==> 0 <= u[k] < b
      invariant Subtracted(b, u[..][j + i + 1..j + n + 1], was[j + i + 1..j + n + 1], vs[vo + i + 1..vo + n + 1], qhat, t)
    {
      ghost var t0, before := t, u[..];
      u[i + j], t := SubtractDigit(b, u[i + j], v[vo + i], qhat, t);
      assert u[..] == before[i + j := u[i + j]];
      SubtractedDigit(b, before[j + i + 1..j + n + 1], was[j + i + 1..j + n + 1], vs[vo + i + 1..vo + n + 1], qhat,
                      was[i + j], vs[vo + i], u[i + j], t0, t);
      assert [u[i + j]] + before[j + i + 1..j + n + 1] == u[..][j + i..j + n + 1];
      assert [was[i + j]] + was[j + i + 1..j + n + 1] == was[j + i..j + n + 1];
      assert [vs[vo + i]] + vs[vo + i + 1..vo + n + 1] == vs[vo + i..vo + n + 1];
      i := i - 1;
    }
    ghost var t0, before := t, u[..];
    u[j], borrow := SubtractTop(b, u[j], t);
    SubtractedDigit(b, before[j + 1..j + n + 1], was[j + 1..j + n + 1], vs[vo + 1..vo + n + 1], qhat,
                    was[j], 0, u[j], t0, if borrow then 1 else 0);
    assert [u[j]] + before[j + 1..j + n + 1] == u[j..j + n + 1];
    assert [was[j]] + was[j + 1..j + n + 1] == old(u[j..j + n + 1]);
    assert vs[vo + 1..vo + n + 1] == v[vo + 1..vo + n + 1];
  }

  lemma {:induction false} SubtractedNothing(b: nat, qhat: int, s: seq<int>, t: seq<int>)
    requires s == [] && t == []
    ensures Subtracted(b, s, s, t, qhat, 0)
  {
  }

  lemma {:induction false} SubtractedDigit(b: nat, now: seq<int>, was: seq<int>, vs: seq<int>, qhat: int,
                        ud: int, vd: int, digit: int, t: int, t': int)
    requires |now| == |was| == |vs|
    requires Subtracted(b, now, was, vs, qhat, t)
    requires digit == ud - vd * qhat - t + t' * b
    ensures Subtracted(b, [digit] + now, [ud] + was, [vd] + vs, qhat, t')
  {
    ValCons(b, digit, now);
    ValCons(b, ud, was);
    ValCons(b, vd, vs);
    SubtractArith(b, Pow(b, |vs|), ud, vd, qhat, t, digit, t', Val(b, now), Val(b, was), Val(b, vs));
  }

  // ----- D6: add back

  /** The digits `now`, with a carry of `t` out of them, are `was` plus `vs`. */
  ghost predicate Added(b: nat, now: seq<int>, was: seq<int>, vs: seq<int>, t: int) {
    Val(b, now) + t * Pow(b, |vs|) == Val(b, was) + Val(b, vs)
  }

  lemma {:induction false} AddedNothing(b: nat, s: seq<int>, t: seq<int>)
    requires s == [] && t == []
    ensures Added(b, s, s, t, 0)
  {
  }

  lemma {:induction false} AddedDigit(b: nat, now: seq<int>, was: seq<int>, vs: seq<int>, ud: int, vd: int, digit: int, t: int, t': int)
    requires |now| == |was| == |vs|
    requires Added(b, now, was, vs, t)
    requires digit + t' * b == ud + vd + t
    ensures Added(b, [digit] + now, [ud] + was, [vd] + vs, t')
  {
    ValCons(b, digit, now);
    ValCons(b, ud, was);
    ValCons(b, vd, vs);
    AddArith(b, Pow(b, |vs|), ud, vd, digit, t, t');
  }

  lemma AddArith(b: int, p: int, ud: int, vd: int, digit: int, t: int, t': int)
    requires digit + t' * b == ud + vd + t
    ensures digit * p + t' * (b * p) == ud * p + vd * p + t * p
  {
    MulAssoc(t', b, p);
    assert (digit + t' * b) * p == digit * p + (t' * b) * p;
    assert (ud + vd + t) * p == ud * p + vd * p + t * p;
  }

  /** The sum of two digits and a carry splits into a digit and a carry. */
  method SplitSum(b: nat, x: int) returns (digit: int, t: int)
    requires b >= 2 && 0 <= x < 2 * b
    ensures 0 <= digit < b && 0 <= t <= 1
    ensures digit + t * b == x
  {
    DivIs(x, b, if x < b then 0 else 1);
    digit := LHalf(b, x);
    t := HHalf(b, x);
  }

  /** Step D6: add the divisor to the window `u[j..j+n]`, in place; the carry out of the top is dropped. */
  method AddBack(b: nat, u: array<int>, j: nat, v: array<int>, vo: nat, n: nat) returns (ghost carry: int)
    requires u != v && b >= 2
    requires j + n < u.Length && vo + n < v.Length
    requires IsDigits(b, u[j..j + n + 1]) && IsDigits(b, v[vo + 1..vo + n + 1])
    modifies u
    ensures IsDigits(b, u[j..j + n + 1])
    ensures forall k :: 0 <= k < u.Length && !(j <= k <= j + n) ==> u[k] == old(u[k])
    ensures 0 <= carry <= 1
    ensures Added(b, u[j..j + n + 1], old(u[j..j + n + 1]), [0] + v[vo + 1..vo + n + 1], carry)
  {
    hide Added;
    var t, i := 0, n;
    ghost var was, vs := u[..], v[..];
    DigitsSlice(b, was, j, j + n + 1, j, j + n + 1);
    DigitsSlice(b, vs, vo + 1, vo + n + 1, vo + 1, vo + n + 1);
    AddedNothing(b, was[j + n + 1..j + n + 1], vs[vo + n + 1..vo + n + 1]);
    while i > 0
      invariant 0 <= i <= n && 0 <= t <= 1
      invariant forall k :: 0 <= k < u.Length && !(j + i < k <= j + n) ==> u[k] == was[k]
      invariant forall k :: j <= k < j + n + 1 ==> 0 <= u[k] < b
      invariant Added(b, u[..][j + i + 1..j + n + 1], was[j + i + 1..j + n + 1], vs[vo + i + 1..vo + n + 1], t)
    {
      ghost var t0, before := t, u[..];
      t := t + (u[i + j] + v[vo + i]);
      u[i + j], t := SplitSum(b, t);
      AddedDigit(b, before[j + i + 1..j + n + 1], was[j + i + 1..j + n + 1], vs[vo + i + 1..vo + n + 1],
                 was[i + j], vs[vo + i], u[i + j], t0, t);
      assert [u[i + j]] + before[j + i + 1..j + n + 1] == u[..][j + i..j + n + 1];
      assert [was[i + j]] + was[j + i + 1..j + n + 1] == was[j + i..j + n + 1];
      assert [vs[vo + i]] + vs[vo + i + 1..vo + n + 1] == vs[vo + i..vo + n + 1];
      i := i - 1;
    }
    ghost var before := u[..];
    u[j], carry := SplitSum(b, u[j] + t);
    AddedDigit(b, before[j + 1..j + n + 1], was[j + 1..j + n + 1], vs[vo + 1..vo + n + 1], was[j], 0, u[j], t, carry);
    assert [u[j]] + before[j + 1..j + n + 1] == u[j..j + n + 1];
    assert [was[j]] + was[j + 1..j + n + 1] == old(u[j..j + n + 1]);
    assert vs[vo + 1..vo + n + 1] == v[vo + 1..vo + n + 1];
  }

  // ----- D3 to D6: one quotient digit

  /** What the estimate promises about a window `w` of `n + 1` digits and a divisor `vs` of `n` digits. */
  lemma {:induction false} WindowEstimate(b: nat, w: seq<int>, vs: seq<int>)
    requires b >= 2 && |vs| >= 2 && |w| == |vs| + 1 && IsDigits(b, w) && IsDigits(b, vs) && vs[0] > 0
    requires Val(b, w[..|vs|]) < Val(b, vs)
    ensures w[0] <= vs[0]
    ensures 0 <= Estimate(b, w[0] * b + w[1], w[2], vs[0], vs[1]) < b
    ensures TrueDigitOrOneMore(b, Estimate(b, w[0] * b + w[1], w[2], vs[0], vs[1]), Val(b, w), Val(b, vs))
  {
    hide Estimate, TrueDigitOrOneMore, Val, Pow;
    var n, k := |vs|, |vs| - 2;
    LeadingDigits(b, w[..n], vs);
    EstimateIsDigit(b, w[0], w[1], w[2], vs[0], vs[1]);
    WindowBelow(b, w, vs);
    WindowParts(b, w, k);
    DivisorParts(b, vs, k);
    assert 0 <= w[0] * b + w[1] by { MulNonneg(w[0], b); }
    EstimateBounds(b, Pow(b, k), w[0] * b + w[1], w[2], Val(b, w[3..]), vs[0], vs[1], Val(b, vs[2..]), Val(b, w), Val(b, vs));
  }

  lemma {:induction false} WindowBelow(b: nat, w: seq<int>, vs: seq<int>)
    requires |w| == |vs| + 1 && IsDigits(b, w) && Val(b, w[..|vs|]) < Val(b, vs)
    ensures Val(b, w) < b * Val(b, vs)
  {
    BelowProduct(b, Val(b, w[..|vs|]), w[|vs|], Val(b, vs));
  }

  lemma BelowProduct(b: int, x: int, d: int, v: int)
    requires x < v && d < b && 0 <= b
    ensures x * b + d < b * v
  {
    MulMono(x + 1, v, b);
    MulSucc(x, b);
  }

  lemma {:induction false} WindowParts(b: nat, w: seq<int>, k: nat)
    requires |w| == 3 + k && IsDigits(b, w)
    ensures Val(b, w) == ((w[0] * b + w[1]) * b + w[2]) * Pow(b, k) + Val(b, w[3..])
    ensures 0 <= Val(b, w[3..]) < Pow(b, k)
  {
    assert w == w[..3] + w[3..];
    ValConcat(b, w[..3], w[3..]);
    ThreeDigits(b, w);
    ValBound(b, w[3..]);
  }

  lemma {:induction false} DivisorParts(b: nat, vs: seq<int>, k: nat)
    requires |vs| == 2 + k && IsDigits(b, vs)
    ensures Val(b, vs) == (vs[0] * b + vs[1]) * Pow(b, k) + Val(b, vs[2..])
    ensures 0 <= Val(b, vs[2..]) < Pow(b, k)
  {
    assert vs == vs[..2] + vs[2..];
    ValConcat(b, vs[..2], vs[2..]);
    TwoDigits(b, vs);
    ValBound(b, vs[2..]);
  }

  lemma {:induction false} TwoDigits(b: nat, s: seq<int>)
    requires |s| >= 2
    ensures Val(b, s[..2]) == s[0] * b + s[1]
  {
    assert s[..2] == [] + [s[0]] + [s[1]];
    ValSnoc(b, [], s[0]);
    ValSnoc(b, [] + [s[0]], s[1]);
  }

  lemma {:induction false} ThreeDigits(b: nat, s: seq<int>)
    requires |s| >= 3
    ensures Val(b, s[..3]) == (s[0] * b + s[1]) * b + s[2]
  {
    TwoDigits(b, s);
    assert s[..3] == s[..2] + [s[2]];
    ValSnoc(b, s[..2], s[2]);
  }

  /** A smaller number of the same length has no larger leading digit. */
  lemma {:induction false} LeadingDigits(b: nat, s: seq<int>, t: seq<int>)
    requires |s| == |t| > 0 && IsDigits(b, s) && IsDigits(b, t) && Val(b, s) < Val(b, t)
    ensures s[0] <= t[0]
  {
    ValHead(b, s, 0, |s|);
    ValHead(b, t, 0, |t|);
    assert s[0..|s|] == s && t[0..|t|] == t;
    ValBound(b, s[1..|s|]);
    ValBound(b, t[1..|t|]);
    LeadingOrder(Pow(b, |s| - 1), s[0], Val(b, s[1..|s|]), t[0], Val(b, t[1..|t|]));
  }

  lemma LeadingOrder(p: int, s: int, sl: int, t: int, tl: int)
    requires 0 <= p && 0 <= sl && tl < p && s * p + sl < t * p + tl
    ensures s <= t
  {
    if s > t {
      MulSucc(t, p);
      MulMono(t + 1, s, p);
    }
  }

  lemma {:induction false} LeadingZero(b: nat, s: seq<int>)
    requires b >= 1 && |s| > 0 && IsDigits(b, s) && Val(b, s) < Pow(b, |s| - 1)
    ensures s[0] == 0
    ensures Val(b, s[1..]) == Val(b, s)
  {
    ValHead(b, s, 0, |s|);
    assert s[0..|s|] == s;
    ValBound(b, s[1..|s|]);
    if s[0] >= 1 {
      MulMono(1, s[0], Pow(b, |s| - 1));
    }
  }

  /** Steps D3 to D6: one digit of the quotient, leaving the remainder in the window. */
  method DivideStep(b: nat, u: array<int>, j: nat, v: array<int>, vo: nat, n: nat) returns (qhat: int)
    requires u != v && b >= 2 && n >= 2
    requires j + n < u.Length && vo + n < v.Length
    requires IsDigits(b, u[j..j + n + 1]) && IsDigits(b, v[vo + 1..vo + n + 1]) && v[vo + 1] > 0
    requires Val(b, u[j..j + n]) < Val(b, v[vo + 1..vo + n + 1])
    modifies u
    ensures 0 <= qhat < b && forall k :: j <= k <= j + n ==> 0 <= u[k] < b
    ensures forall k :: 0 <= k < u.Length && !(j <= k <= j + n) ==> u[k] == old(u[k])
    ensures u[j] == 0
    ensures IsDivision(Val(b, old(u[j..j + n + 1])), Val(b, v[vo + 1..vo + n + 1]), qhat, Val(b, u[j + 1..j + n + 1]))
  {
    hide Estimate, TrueDigitOrOneMore, Added, Subtracted, IsDivision;
    ghost var w, vs := u[j..j + n + 1], v[vo + 1..vo + n + 1];
    assert w[..n] == u[j..j + n];
    WindowEstimate(b, w, vs);
    ghost var decrements;
    qhat, decrements := EstimateDigit(b, u[j], u[j + 1], u[j + 2], v[vo + 1], v[vo + 2]);
    ghost var q0 := qhat;
    var borrow := MultiplySubtract(b, u, j, v, vo, n, qhat);
    ghost var w1 := u[j..j + n + 1];
    if borrow {
      qhat := qhat - 1;
      ghost var carry := AddBack(b, u, j, v, vo, n);
      CorrectedDigit(b, w, w1, u[j..j + n + 1], vs, q0, carry);
    } else {
      ExactDigit(b, w, w1, vs, q0);
    }
    assert u[j..j + n + 1][1..] == u[j + 1..j + n + 1];
    DigitsSlice(b, u[..], j, j + n + 1, j, j + n + 1);
  }

  /** No borrow: the estimate was the quotient digit. */
  lemma {:induction false} ExactDigit(b: nat, w: seq<int>, w1: seq<int>, vs: seq<int>, qhat: int)
    requires b >= 2 && |w1| == |w| == |vs| + 1 && IsDigits(b, w1) && IsDigits(b, vs)
    requires TrueDigitOrOneMore(b, qhat, Val(b, w), Val(b, vs))
    requires Subtracted(b, w1, w, [0] + vs, qhat, 0)
    ensures w1[0] == 0
    ensures IsDivision(Val(b, w), Val(b, vs), qhat, Val(b, w1[1..]))
  {
    ValLeadingZeros(b, [0], vs);
    assert (qhat + 1) * Val(b, vs) == qhat * Val(b, vs) + Val(b, vs);
    ValBound(b, vs);
    ValBound(b, w1);
    LeadingZero(b, w1);
  }

  /** Borrow: the estimate was one too large, and adding the divisor once repairs the window. */
  lemma {:induction false} CorrectedDigit(b: nat, w: seq<int>, w1: seq<int>, w2: seq<int>, vs: seq<int>, qhat: int, carry: int)
    requires b >= 2 && |w2| == |w1| == |w| == |vs| + 1 && IsDigits(b, w) && IsDigits(b, w1) && IsDigits(b, w2) && IsDigits(b, vs)
    requires TrueDigitOrOneMore(b, qhat, Val(b, w), Val(b, vs))
    requires Subtracted(b, w1, w, [0] + vs, qhat, 1)
    requires Added(b, w2, w1, [0] + vs, carry) && 0 <= carry <= 1
    ensures w2[0] == 0 && 1 <= qhat
    ensures IsDivision(Val(b, w), Val(b, vs), qhat - 1, Val(b, w2[1..]))
  {
    ValLeadingZeros(b, [0], vs);
    assert (qhat - 1) * Val(b, vs) == qhat * Val(b, vs) - Val(b, vs);
    ValBound(b, vs);
    ValBound(b, w);
    ValBound(b, w1);
    ValBound(b, w2);
    LeadingZero(b, w2);
  }

  // ----- D2 to D7: the whole division

  /**
   * Program D.  The dividend occupies `u[uo..uo+m+n]` with its first `n` digits below the divisor
   * `v[vo+1..vo+n]`; the quotient digits go to `q[qo..qo+m]` and the remainder replaces the last `n`
   * dividend digits, all earlier ones becoming zero.
   */
  method ProgramD(b: nat, u: array<int>, uo: nat, v: array<int>, vo: nat, q: array<int>, qo: nat, m: nat, n: nat)
    requires u != v && u != q && v != q && b >= 2 && n >= 2
    requires uo + m + n < u.Length && vo + n < v.Length && qo + m < q.Length
    requires IsDigits(b, u[uo..uo + m + n + 1]) && IsDigits(b, v[vo + 1..vo + n + 1]) && v[vo + 1] > 0
    requires Val(b, u[uo..uo + n]) < Val(b, v[vo + 1..vo + n + 1])
    modifies u, q
    ensures forall k :: uo <= k <= uo + m + n ==> 0 <= u[k] < b
    ensures forall k :: qo <= k <= qo + m ==> 0 <= q[k] < b
    ensures forall k :: 0 <= k < u.Length && !(uo <= k <= uo + m + n) ==> u[k] == old(u[k])
    ensures forall k :: 0 <= k < q.Length && !(qo <= k <= qo + m) ==> q[k] == old(q[k])
    ensures forall k :: uo <= k <= uo + m ==> u[k] == 0
    ensures var dividend, divisor := Val(b, old(u[uo..uo + m + n + 1])), Val(b, v[vo + 1..vo + n + 1]);
      var quotient, remainder := Val(b, q[qo..qo + m + 1]), Val(b, u[uo + m + 1..uo + m + n + 1]);
      IsDivision(dividend, divisor, quotient, remainder)
  {
    hide Val, Progress;
    ghost var was, vs := u[..], v[vo + 1..vo + n + 1];
    var j := 0;
    ProgressStart(b, was, uo, vs, q[..], qo, m);
    while j <= m
      invariant 0 <= j <= m + 1
      invariant Progress(b, was, u[..], uo, vs, q[..], qo, m, j)
      invariant v[vo + 1..vo + n + 1] == vs
      invariant forall k :: 0 <= k < q.Length && !(qo <= k < qo + j) ==> q[k] == old(q[k])
    {
      ghost var us, qs := u[..], q[..];
      ProgressWindow(b, was, us, uo, vs, qs, qo, m, j);
      assert us[uo + j..uo + j + n] == u[uo + j..uo + j + n];
      assert us[uo + j..uo + j + n + 1] == u[uo + j..uo + j + n + 1];
      var qhat := DivideStep(b, u, uo + j, v, vo, n);
      q[qo + j] := qhat;
      assert u[..][uo + j + 1..uo + j + n + 1] == u[uo + j + 1..uo + j + n + 1];
      assert q[..] == qs[qo + j := qhat];
      ProgressStep(b, was, us, u[..], uo, vs, qs, qo, m, j, qhat);
      j := j + 1;
    }
    ProgressEnd(b, was, u[..], uo, vs, q[..], qo, m);
    assert was[uo..uo + m + n + 1] == old(u[uo..uo + m + n + 1]);
    assert u[..][uo + m + 1..uo + m + n + 1] == u[uo + m + 1..uo + m + n + 1];
    assert q[..][qo..qo + m + 1] == q[qo..qo + m + 1];
  }

  /**
   * After `j` digits: the first `j + n` digits of the dividend `was`, divided by `vs`, give the `j`
   * digits in `qs`, and the `n` digits that follow `j` zeros in `us` are the remainder.
   */
  ghost predicate Progress(b: nat, was: seq<int>, us: seq<int>, uo: nat, vs: seq<int>, qs: seq<int>, qo: nat, m: nat, j: nat)
    requires j <= m + 1 && uo + m + |vs| < |was| && qo + m < |qs|
  {
    var n := |vs|;
    && |us| == |was|
    && (forall k :: 0 <= k < |us| && !(uo <= k < uo + j + n) ==> us[k] == was[k])
    && (forall k :: uo <= k <= uo + m + n ==> 0 <= us[k] < b)
    && (forall k :: qo <= k < qo + j ==> 0 <= qs[k] < b)
    && (forall k :: uo <= k < uo + j ==> us[k] == 0)
    && IsDivision(Val(b, was[uo..uo + j + n]), Val(b, vs), Val(b, qs[qo..qo + j]), Val(b, us[uo + j..uo + j + n]))
  }

  lemma {:induction false} ProgressStart(b: nat, was: seq<int>, uo: nat, vs: seq<int>, qs: seq<int>, qo: nat, m: nat)
    requires uo + m + |vs| < |was| && qo + m < |qs|
    requires IsDigits(b, was[uo..uo + m + |vs| + 1]) && Val(b, was[uo..uo + |vs|]) < Val(b, vs)
    ensures Progress(b, was, was, uo, vs, qs, qo, m, 0)
  {
    DigitsSlice(b, was, uo, uo + m + |vs| + 1, uo, uo + m + |vs| + 1);
    DigitsSlice(b, was, uo, uo + m + |vs| + 1, uo, uo + |vs|);
    ValBound(b, was[uo..uo + |vs|]);
    assert qs[qo..qo] == [];
  }

  lemma {:induction false} ProgressWindow(b: nat, was: seq<int>, us: seq<int>, uo: nat, vs: seq<int>, qs: seq<int>,
                                          qo: nat, m: nat, j: nat)
    requires j <= m && uo + m + |vs| < |was| && qo + m < |qs|
    requires Progress(b, was, us, uo, vs, qs, qo, m, j)
    ensures |us| == |was|
    ensures IsDigits(b, us[uo + j..uo + j + |vs| + 1])
    ensures Val(b, us[uo + j..uo + j + |vs|]) < Val(b, vs)
  {
    hide Val;
  }

  lemma {:induction false} ProgressStep(b: nat, was: seq<int>, us: seq<int>, us': seq<int>, uo: nat, vs: seq<int>,
                                        qs: seq<int>, qo: nat, m: nat, j: nat, qhat: int)
    requires j <= m && uo + m + |vs| < |was| && qo + m < |qs|
    requires Progress(b, was, us, uo, vs, qs, qo, m, j)
    requires |us'| == |us| && forall k :: 0 <= k < |us| && !(uo + j <= k <= uo + j + |vs|) ==> us'[k] == us[k]
    requires us'[uo + j] == 0 && (forall k :: uo + j <= k <= uo + j + |vs| ==> 0 <= us'[k] < b) && 0 <= qhat < b
    requires IsDivision(Val(b, us[uo + j..uo + j + |vs| + 1]), Val(b, vs), qhat, Val(b, us'[uo + j + 1..uo + j + |vs| + 1]))
    ensures Progress(b, was, us', uo, vs, qs[qo + j := qhat], qo, m, j + 1)
  {
    hide Val, IsDivision;
    var n := |vs|;
    var qs' := qs[qo + j := qhat];
    ValLast(b, us, uo + j, uo + j + n);
    ValLast(b, was, uo, uo + j + n);
    assert us[uo + j + n] == was[uo + j + n];
    assert qs'[qo..qo + j + 1] == qs[qo..qo + j] + [qhat];
    ValSnoc(b, qs[qo..qo + j], qhat);
    LongDivision(b, Val(b, was[uo..uo + j + n]), Val(b, vs), Val(b, qs[qo..qo + j]), Val(b, us[uo + j..uo + j + n]),
                 was[uo + j + n], qhat, Val(b, us'[uo + j + 1..uo + j + n + 1]));
  }

  lemma {:induction false} ProgressEnd(b: nat, was: seq<int>, us: seq<int>, uo: nat, vs: seq<int>, qs: seq<int>, qo: nat, m: nat)
    requires uo + m + |vs| < |was| && qo + m < |qs|
    requires Progress(b, was, us, uo, vs, qs, qo, m, m + 1)
    ensures |us| == |was|
    ensures forall k :: 0 <= k < |us| && !(uo <= k <= uo + m + |vs|) ==> us[k] == was[k]
    ensures forall k :: uo <= k <= uo + m + |vs| ==> 0 <= us[k] < b
    ensures forall k :: qo <= k <= qo + m ==> 0 <= qs[k] < b
    ensures forall k :: uo <= k <= uo + m ==> us[k] == 0
    ensures IsDivision(Val(b, was[uo..uo + m + |vs| + 1]), Val(b, vs), Val(b, qs[qo..qo + m + 1]), Val(b, us[uo + m + 1..uo + m + |vs| + 1]))
  {
    hide Val;
    assert m + 1 + |vs| == m + |vs| + 1;
  }

  /** Bringing down one more dividend digit. */
  lemma LongDivision(b: int, prefix: int, v: int, q: int, r: int, d: int, qhat: int, r': int)
    requires IsDivision(prefix, v, q, r)
    requires IsDivision(r * b + d, v, qhat, r')
    ensures IsDivision(prefix * b + d, v, q * b + qhat, r') && r' < v
  {
    assert (q * v + r) * b == (q * b) * v + r * b;
    assert (q * b + qhat) * v == (q * b) * v + qhat * v;
  }
}
