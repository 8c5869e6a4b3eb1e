/** `__divdi3` and `__moddi3`: signed 64-bit division on top of `__qdivrem`. */
module SignedDivision {
  import opened Nonlinear
  import opened Multiply
  import opened Words
  import QDivRem

  /**
   * Division as section 6.5.5 of ISO/IEC 9899:1999 defines it: the quotient truncates toward zero,
   * so the remainder is smaller than the divisor and has the sign of the dividend.
   */
  ghost predicate IsTruncatedDivision(a: int, b: int, q: int, r: int) {
    && a == q * b + r
    && Abs(r) < Abs(b)
    && (a >= 0 ==> r >= 0)
    && (a <= 0 ==> r <= 0)
  }

  function Abs(x: int): int {
    if x < 0 then -x else x
  }

  /** The truncating quotient and remainder of any two integers. */
  function TruncQuotient(a: int, b: int): int
    requires b != 0
  {
    var q := Abs(a) / Abs(b);
    if (a < 0) != (b < 0) then -q else q
  }

  function TruncRemainder(a: int, b: int): int
    requires b != 0
  {
    var r := Abs(a) % Abs(b);
    if a < 0 then -r else r
  }

  lemma TruncDivides(a: int, b: int)
    requires b != 0
    ensures IsTruncatedDivision(a, b, TruncQuotient(a, b), TruncRemainder(a, b))
  {
    hide IsTruncatedDivision;
    DivMod(Abs(a), Abs(b));
    FromMagnitudes(a, b, Abs(a) / Abs(b), Abs(a) % Abs(b));
  }

  lemma FromMagnitudes(a: int, b: int, q: int, r: int)
    requires Abs(a) == q * Abs(b) + r && 0 <= r < Abs(b)
    ensures IsTruncatedDivision(a, b, if (a < 0) != (b < 0) then -q else q, if a < 0 then -r else r)
  {
    NegatedProducts(q, b);
  }

  lemma NegatedProducts(q: int, b: int)
    ensures q * (-b) == -(q * b) && (-q) * b == -(q * b)
  {
  }

  /** Truncating division has one answer. */
  lemma TruncUnique(a: int, b: int, q: int, r: int)
    requires b != 0 && IsTruncatedDivision(a, b, q, r)
    ensures q == TruncQuotient(a, b) && r == TruncRemainder(a, b)
  {
    TruncDivides(a, b);
    var q', r' := TruncQuotient(a, b), TruncRemainder(a, b);
    var k := q - q';
    assert k * b == r' - r;
    if k != 0 {
      assert Abs(k * b) >= Abs(b) by { LargeProduct(k, b); }
    }
  }

  lemma LargeProduct(k: int, b: int)
    requires k != 0
    ensures Abs(k * b) >= Abs(b)
  {
    if b >= 0 {
      if k > 0 { MulMono(1, k, b); } else { MulMono(k, -1, b); }
    } else {
      if k > 0 { MulMono(1, k, -b); } else { MulMono(k, -1, -b); }
      assert k * (-b) == -(k * b);
    }
  }

  datatype SignedOutcome = Trap | Value(value: int)

  /** The unsigned magnitude of a signed operand, in wrapped 64-bit arithmetic. */
  function Magnitude(a: int): (u: int)
    requires IsSigned64(a)
    ensures u == Abs(a) && 0 <= u <= TWO64 / 2
  {
    var ua := a % TWO64;
    WrapNegative(a);
    if a < 0 then (-ua) % TWO64 else ua
  }

  lemma WrapNegative(a: int)
    requires IsSigned64(a)
    ensures a < 0 ==> a % TWO64 == a + TWO64 && (-(a + TWO64)) % TWO64 == -a
  {
    if a < 0 {
      DivIs(a, TWO64, -1);
      DivIs(-(a + TWO64), TWO64, -1);
    }
  }

  /** Negating in 64 bits and then reading as signed is negating and reading as signed. */
  lemma SignedNegation(x: int)
    requires 0 <= x <= TWO64 / 2
    ensures ToSigned((-x) % TWO64) == ToSigned(-x)
    ensures x < TWO64 / 2 ==> ToSigned(x) == x && ToSigned(-x) == -x
  {
    if x > 0 {
      DivIs(-x, TWO64, -1);
    }
  }

  lemma DivisionIs(x: int, y: int, q: int, r: int)
    requires 0 <= x <= TWO64 / 2 && 0 < y <= TWO64 / 2 && IsDivision(x, y, q, r)
    ensures x / y == q && x % y == r && 0 <= r < TWO64 / 2
    ensures 0 <= q <= TWO64 / 2
  {
    DivIs(x, y, q);
    if q < 0 {
      MulMono(q, -1, y);
    } else {
      MulMono(1, y, q);
    }
  }

  /** `__divdi3`. */
  method DivDi3(a: int, b: int) returns (r: SignedOutcome)
    requires IsSigned64(a) && IsSigned64(b)
    ensures r.Trap? <==> b == 0
    ensures b != 0 ==> r.value == ToSigned(TruncQuotient(a, b))
  {
    hide IsDivision, ToSigned;
    var ua, ub := Magnitude(a), Magnitude(b);
    var uq := QDivRem.Divide(ua, ub);
    if uq.Trap? {
      return Trap;
    }
    var q := uq.quotient;
    DivisionIs(ua, ub, q, uq.remainder);
    SignedNegation(q);
    if (a < 0) != (b < 0) {
      q := (-q) % TWO64;
    }
    return Value(ToSigned(q));
  }

  /** `__moddi3`. */
  method ModDi3(a: int, b: int) returns (r: SignedOutcome)
    requires IsSigned64(a) && IsSigned64(b)
    ensures r.Trap? <==> b == 0
    ensures b != 0 ==> r.value == TruncRemainder(a, b)
  {
    hide IsDivision, ToSigned;
    var ua, ub := Magnitude(a), Magnitude(b);
    var uq := QDivRem.Divide(ua, ub);
    if uq.Trap? {
      return Trap;
    }
    var ur := uq.remainder;
    DivisionIs(ua, ub, uq.quotient, ur);
    SignedNegation(ur);
    if a < 0 {
      ur := (-ur) % TWO64;
    }
    return Value(ToSigned(ur));
  }

  /** A quotient of magnitudes, and when it is the largest. */
  lemma QuotientSize(x: int, y: int)
    requires 0 <= x <= TWO64 / 2 && 0 < y
    ensures 0 <= x / y <= TWO64 / 2 && (x / y == TWO64 / 2 <==> x == TWO64 / 2 && y == 1)
  {
    DivMod(x, y);
    var q := x / y;
    if q < 0 {
      MulMono(q, -1, y);
    } else if y >= 2 {
      MulMono(2, y, q);
    }
  }

  lemma SignedFits(v: int)
    requires -(TWO64 / 2) <= v <= TWO64 / 2
    ensures ToSigned(v) == if v < TWO64 / 2 then v else -v
  {
    if v < 0 {
      DivIs(v, TWO64, -1);
    } else {
      DivIs(v, TWO64, 0);
    }
  }

  /** The quotient is exact except for the one that does not fit. */
  lemma QuotientOverflow(a: int, b: int)
    requires IsSigned64(a) && IsSigned64(b) && b != 0
    ensures ToSigned(TruncQuotient(a, b)) == TruncQuotient(a, b) <==> !(a == -(TWO64 / 2) && b == -1)
    ensures a == -(TWO64 / 2) && b == -1 ==> ToSigned(TruncQuotient(a, b)) == -(TWO64 / 2)
  {
    hide ToSigned;
    QuotientSize(Abs(a), Abs(b));
    SignedFits(TruncQuotient(a, b));
  }

  /** `(a / b) * b + a % b` gives `a` back in 64 bits, for every pair of operands, overflow included. */
  lemma DivisionIdentity(a: int, b: int)
    requires IsSigned64(a) && IsSigned64(b) && b != 0
    ensures Congruent(ToSigned(TruncQuotient(a, b)) * b + TruncRemainder(a, b), a)
  {
    TruncDivides(a, b);
    QuotientOverflow(a, b);
    var q := TruncQuotient(a, b);
    if a == -(TWO64 / 2) && b == -1 {
      CongruentBy(ToSigned(q) * b + TruncRemainder(a, b), a, 1);
    } else {
      CongruentBy(ToSigned(q) * b + TruncRemainder(a, b), a, 0);
    }
  }
}
