/** `__qdivrem`: 64-bit unsigned division from 16-bit digits. */
module QDivRem {
  import opened Nonlinear
  import opened Digits
  import opened Shifts
  import opened AlgorithmD
  import opened Words

  /** What a division leaves: a hardware trap for a zero divisor, otherwise quotient and remainder. */
  datatype Outcome = Trap | Divided(quotient: nat, remainder: nat)

  /** The value of four digits, as the 64-bit union holds them. */
  function Four(a: int, b: int, c: int, d: int): int {
    ((a * B + b) * B + c) * B + d
  }

  lemma {:induction false} FourValue(s: seq<int>)
    requires |s| == 4
    ensures Val(B, s) == Four(s[0], s[1], s[2], s[3])
  {
    assert s == [] + [s[0]] + [s[1]] + [s[2]] + [s[3]];
    ValSnoc(B, [], s[0]);
    ValSnoc(B, [] + [s[0]], s[1]);
    ValSnoc(B, [] + [s[0]] + [s[1]], s[2]);
    ValSnoc(B, [] + [s[0]] + [s[1]] + [s[2]], s[3]);
  }

  /** The four digits of a 64-bit number, high word first. */
  function SplitDigits(x: nat): (s: seq<int>)
    requires x < TWO64
    ensures |s| == 4 && IsDigits(B, s) && Val(B, s) == x
  {
    var high, low := x / TWO32, x % TWO32;
    var s := [high / B, high % B, low / B, low % B];
    FourValue(s);
    s
  }

  /** Assembling the two words of the result from four digits. */
  function JoinDigits(s: seq<int>): (r: nat)
    requires |s| == 4 && IsDigits(B, s)
    ensures r == Val(B, s) < TWO64
  {
    FourValue(s);
    Combine(s[0], s[1]) * TWO32 + Combine(s[2], s[3])
  }

  /** One-digit divisor: schoolbook division, unrolled. */
  method ShortDivide(u: seq<int>, t: int) returns (quotient: nat, remainder: nat)
    requires |u| == 4 && IsDigits(B, u) && 0 < t < B
    ensures IsDivision(Val(B, u), t, quotient, remainder)
  {
    var q1, r1 := ShortStep(0, u[0], t);
    var q2, r2 := ShortStep(r1, u[1], t);
    var q3, r3 := ShortStep(r2, u[2], t);
    var q4, r4 := ShortStep(r3, u[3], t);
    FourValue(u);
    FourValue([q1, q2, q3, q4]);
    ShortCompose(u, [q1, q2, q3, q4], t, r1, r2, r3, r4);
    quotient := JoinDigits([q1, q2, q3, q4]);
    remainder := r4;
  }

  method ShortStep(r: int, d: int, t: int) returns (q: int, r': int)
    requires 0 <= r < t < B && 0 <= d < B
    ensures 0 <= q < B && IsDivision(r * B + d, t, q, r')
  {
    var rbj := Combine(r, d);
    QuotientIsDigit(B, r, d, t);
    q := rbj / t;
    r' := rbj % t;
  }

  lemma {:induction false} ShortCompose(u: seq<int>, q: seq<int>, t: int, r1: int, r2: int, r3: int, r4: int)
    requires |u| == 4 && |q| == 4
    requires IsDivision(u[0], t, q[0], r1) && IsDivision(r1 * B + u[1], t, q[1], r2)
    requires IsDivision(r2 * B + u[2], t, q[2], r3) && IsDivision(r3 * B + u[3], t, q[3], r4)
    ensures IsDivision(Four(u[0], u[1], u[2], u[3]), t, Four(q[0], q[1], q[2], q[3]), r4)
  {
    hide IsDivision;
    LongDivision(B, u[0], t, q[0], r1, u[1], q[1], r2);
    LongDivision(B, u[0] * B + u[1], t, q[0] * B + q[1], r2, u[2], q[2], r3);
    LongDivision(B, (u[0] * B + u[1]) * B + u[2], t, (q[0] * B + q[1]) * B + q[2], r3, u[3], q[3], r4);
  }

  /** `shl`: shift `p[o..o+len]` left by `d` bits in place. */
  method Shl(p: array<int>, o: nat, len: nat, d: nat)
    requires o + len < p.Length && d <= 16 && IsDigits(B, p[o..o + len + 1])
    modifies p
    ensures forall k :: o <= k <= o + len ==> 0 <= p[k] < B
    ensures forall k :: 0 <= k < p.Length && !(o <= k <= o + len) ==> p[k] == old(p[k])
    ensures Val(B, p[o..o + len + 1]) ==
      Val(B, old(p[o..o + len + 1])) * Pow(2, d) - old(p[o]) / Pow(2, 16 - d) * Pow(B, len + 1)
  {
    hide LeftDigit, Val, Pow;
    ghost var s, t, all, was := Pow(2, d), Pow(2, 16 - d), p[..], p[o..o + len + 1];
    DigitsSlice(B, all, o, o + len + 1, o, o + len + 1);
    PowersOfTwo(d);
    var i := 0;
    while i < len
      invariant 0 <= i <= len
      invariant forall k :: o <= k <= o + len ==> 0 <= p[k] < B
      invariant forall k :: 0 <= k < p.Length && !(o <= k < o + i) ==> p[k] == all[k]
      invariant forall k {:trigger p[k]} :: o <= k < o + i ==> p[k] == LeftDigit(s, t, all[k], all[k + 1])
    {
      p[o + i] := ShiftLeftDigit(p[o + i], p[o + i + 1], d);
      i := i + 1;
    }
    p[o + i] := ShiftLeftDigit(p[o + i], 0, d);
    ghost var now := p[o..o + len + 1];
    forall j | 0 <= j < |was|
      ensures now[j] == LeftDigit(s, t, was[j], if j + 1 < |was| then was[j + 1] else 0)
    {
      assert now[j] == p[o + j];
    }
    ShiftedLeftValue(s, t, was, now);
  }

  /** The remainder's right shift: `p[o..o+len]` by `d` bits in place, from the right; `p[o]` is zero. */
  method ShiftRight(p: array<int>, o: nat, len: nat, d: nat)
    requires o + len < p.Length && d <= 16 && IsDigits(B, p[o..o + len + 1]) && p[o] == 0
    modifies p
    ensures p[o] == 0 && forall k :: o <= k <= o + len ==> 0 <= p[k] < B
    ensures forall k :: 0 <= k < p.Length && !(o <= k <= o + len) ==> p[k] == old(p[k])
    ensures IsDivision(Val(B, old(p[o..o + len + 1])), Pow(2, d), Val(B, p[o..o + len + 1]), old(p[o + len]) % Pow(2, d))
  {
    hide RightDigit, Val, Pow, IsDivision;
    ghost var s, t, all, was := Pow(2, d), Pow(2, 16 - d), p[..], p[o..o + len + 1];
    DigitsSlice(B, all, o, o + len + 1, o, o + len + 1);
    PowersOfTwo(d);
    var i := len;
    while i > 0
      invariant 0 <= i <= len
      invariant forall k :: o <= k <= o + len ==> 0 <= p[k] < B
      invariant forall k :: 0 <= k < p.Length && !(o + i < k <= o + len) ==> p[k] == all[k]
      invariant forall k {:trigger p[k]} :: o + i < k <= o + len ==> p[k] == RightDigit(s, t, all[k], all[k - 1])
    {
      p[o + i] := ShiftRightDigit(p[o + i], p[o + i - 1], d);
      i := i - 1;
    }
    p[o + i] := 0;
    ghost var now := p[o..o + len + 1];
    ZeroShift(s, t);
    forall j | 0 <= j < |was|
      ensures now[j] == RightDigit(s, t, was[j], if j > 0 then was[j - 1] else 0)
    {
      assert now[j] == p[o + j];
    }
    ShiftedRightValue(s, t, was, now);
  }

  lemma ZeroShift(s: int, t: int)
    requires s >= 1
    ensures RightDigit(s, t, 0, 0) == 0
  {
    assert 0 / s == 0 by { DivIs(0, s, 0); }
    assert 0 % s == 0 by { DivIs(0, s, 0); }
  }

  // ----- D1: normalisation

  /** The shift that brings the leading divisor digit to at least `B / 2`. */
  method NormalisingShift(v1: int) returns (d: nat)
    requires 0 < v1 < B
    ensures d < 16 && B / 2 <= v1 * Pow(2, d) < B
  {
    hide Pow;
    d := 0;
    var t := v1;
    PowZero();
    while t < B / 2
      invariant d < 16 && t == v1 * Pow(2, d) && Pow(2, d) <= t < B
      decreases B - t
    {
      Doubling(v1, d);
      t := t * 2;
      d := d + 1;
    }
  }

  lemma {:induction false} Doubling(v1: int, d: nat)
    requires Pow(2, d) < B / 2
    ensures d < 15
    ensures Pow(2, d + 1) == 2 * Pow(2, d) && v1 * Pow(2, d + 1) == 2 * (v1 * Pow(2, d))
  {
    MulAssoc(2, v1, Pow(2, d));
    if d >= 15 {
      PowAtLeast(d);
    }
  }

  lemma {:induction false} PowAtLeast(d: nat)
    requires d >= 15
    ensures Pow(2, d) >= B / 2
  {
    if d == 15 {
      PowersOfTwo(15);
      assert Pow(2, 1) == 2 * Pow(2, 0);
    } else {
      PowAtLeast(d - 1);
    }
  }

  /** A number that is large for its length has a large leading digit. */
  lemma {:induction false} LeadingLarge(s: seq<int>, k: int)
    requires |s| > 0 && IsDigits(B, s) && k * Pow(B, |s| - 1) <= Val(B, s)
    ensures k <= s[0]
  {
    hide Val, Pow;
    var p := Pow(B, |s| - 1);
    ValHead(B, s, 0, |s|);
    assert s[0..|s|] == s;
    ValBound(B, s[1..|s|]);
    if k > s[0] {
      MulMono(s[0] + 1, k, p);
      MulSucc(s[0], p);
    }
  }

  /** Step D1: scale dividend and divisor by the same power of two so that the divisor is normalised. */
  method Normalise(u: array<int>, uo: nat, ulen: nat, v: array<int>, vo: nat, n: nat) returns (d: nat)
    requires u != v && n >= 1 && uo + ulen < u.Length && vo + n < v.Length
    requires IsDigits(B, u[uo..uo + ulen + 1]) && u[uo] == 0
    requires IsDigits(B, v[vo + 1..vo + n + 1]) && v[vo + 1] > 0
    modifies u, v
    ensures d < 16
    ensures IsDigits(B, u[uo..uo + ulen + 1]) && IsDigits(B, v[vo + 1..vo + n + 1]) && 2 * v[vo + 1] >= B
    ensures forall k :: 0 <= k < u.Length && !(uo <= k <= uo + ulen) ==> u[k] == old(u[k])
    ensures IsScaled(Val(B, old(u[uo..uo + ulen + 1])), Pow(2, d), Val(B, u[uo..uo + ulen + 1]))
    ensures IsScaled(Val(B, old(v[vo + 1..vo + n + 1])), Pow(2, d), Val(B, v[vo + 1..vo + n + 1]))
  {
    hide Val, Pow;
    var v1 := v[vo + 1];
    assert v1 == v[vo + 1..vo + n + 1][0];
    ghost var vs := v[vo + 1..vo + n + 1];
    d := NormalisingShift(v1);
    NothingFallsOut(v1, d);
    PowZero();
    if d > 0 {
      Shl(u, uo, ulen, d);
      Shl(v, vo + 1, n - 1, d);
      assert vo + 1 + (n - 1) + 1 == vo + n + 1;
    }
    NormalisedTop(vs, v[vo + 1..vo + n + 1], d);
    assert v[vo + 1] == v[vo + 1..vo + n + 1][0];
  }

  lemma PowZero()
    ensures Pow(2, 0) == 1
  {
  }

  lemma {:induction false} NothingFallsOut(v1: int, d: nat)
    requires d <= 16 && 0 <= v1 && v1 * Pow(2, d) < B
    ensures v1 / Pow(2, 16 - d) == 0 && 0 / Pow(2, 16 - d) == 0
  {
    hide Pow;
    var s, t := Pow(2, d), Pow(2, 16 - d);
    PowersOfTwo(d);
    assert v1 < t by { assert t * s == s * t; MulCancelLess(v1, t, s); }
    DivIs(v1, t, 0);
    DivIs(0, t, 0);
  }

  lemma {:induction false} NormalisedTop(vs: seq<int>, scaled: seq<int>, d: nat)
    requires |vs| == |scaled| > 0 && IsDigits(B, vs) && IsDigits(B, scaled)
    requires B / 2 <= vs[0] * Pow(2, d) && Val(B, scaled) == Val(B, vs) * Pow(2, d)
    ensures 2 * scaled[0] >= B
  {
    hide Val, Pow;
    var p, s := Pow(B, |vs| - 1), Pow(2, d);
    ValHead(B, vs, 0, |vs|);
    assert vs[0..|vs|] == vs;
    ValBound(B, vs[1..|vs|]);
    var low := Val(B, vs[1..|vs|]);
    assert (vs[0] * p + low) * s == (vs[0] * s) * p + low * s;
    MulNonneg(low, s);
    MulMono(B / 2, vs[0] * s, p);
    LeadingLarge(scaled, B / 2);
  }

  // ----- the whole division

  /** Skip the leading zeros of the dividend `uspace[1..5]`; `uo` counts them and `m + n` digits remain. */
  method SkipZeros(uspace: array<int>, n: nat, ghost vs: seq<int>) returns (uo: nat, m: nat)
    requires uspace.Length == 5 && IsDigits(B, uspace[..]) && uspace[0] == 0
    requires 2 <= n <= 4 && |vs| == n && IsDigits(B, vs) && vs[0] > 0 && Val(B, vs) <= Val(B, uspace[1..5])
    ensures uo + m + n == 4
    ensures forall k :: 0 <= k <= uo ==> uspace[k] == 0
    ensures Val(B, uspace[uo..5]) == Val(B, uspace[1..5])
  {
    hide Val;
    ghost var us := uspace[1..5];
    uo, m := 0, 4 - n;
    while uspace[uo + 1] == 0
      invariant uo + m + n == 4
      invariant forall k :: 0 <= k <= uo ==> uspace[k] == 0
      invariant forall k :: 0 <= k < uo ==> us[k] == 0
      decreases m
    {
      EnoughDigits(us, vs, uo);
      uo, m := uo + 1, m - 1;
    }
    SkippedZeros(uspace[..], uo);
    assert uspace[..][uo..5] == uspace[uo..5] && uspace[..][1..5] == us;
  }

  /** Everything after the divisor is known to have `n >= 2` digits. */
  method LongDivide(uspace: array<int>, vspace: array<int>, vo: nat, n: nat) returns (quotient: nat, remainder: nat)
    requires uspace != vspace && uspace.Length == 5 && vspace.Length == 5 && 2 <= n <= 4 && vo + n == 4
    requires IsDigits(B, uspace[..]) && uspace[0] == 0
    requires IsDigits(B, vspace[vo + 1..5]) && vspace[vo + 1] > 0
    requires Val(B, vspace[vo + 1..5]) <= Val(B, uspace[1..5])
    modifies uspace, vspace
    ensures IsDivision(Val(B, old(uspace[1..5])), Val(B, old(vspace[vo + 1..5])), quotient, remainder)
  {
    hide Val, Pow, IsDivision, IsScaled;
    var uo, m := SkipZeros(uspace, n, vspace[vo + 1..5]);
    ghost var su, vs := uspace[uo..5], vspace[vo + 1..5];
    assert IsDigits(B, su);
    var qspace := new int[5];
    var i := 4 - m - 1;
    while i >= 0
      invariant -1 <= i < 4 - m
      invariant forall k :: i < k < 4 - m ==> qspace[k] == 0
      modifies qspace
    {
      qspace[i] := 0;
      i := i - 1;
    }
    assert uspace[uo..5] == su && vspace[vo + 1..5] == vs;
    var d := NormalisedDivide(uspace, uo, vspace, vo, qspace, m, n);
    ghost var ru := uspace[uo + m + 1..5];
    ghost var e := 0;
    assert uspace[uo + m..5] == [0] + ru;
    PowZero();
    ByOne(Val(B, uspace[uo + m..5]));
    if d > 0 {
      e := uspace[uo + m + n] % Pow(2, d);
      ShiftRight(uspace, uo + m, n, d);
    }
    Finish(su, vs, qspace[..], ru, uspace[..], uo, m, n, Pow(2, d), e);
    assert uspace[..][1..5] == uspace[1..5] && qspace[..][1..5] == qspace[1..5];
    quotient := JoinDigits(qspace[1..5]);
    remainder := JoinDigits(uspace[1..5]);
  }

  /** `x` divided by `v`, with dividend, divisor and remainder all multiplied by `s`. */
  ghost predicate IsScaledDivision(u: int, v: int, s: int, q: int, r: int) {
    IsDivision(u * s, v * s, q, r)
  }

  /** Steps D1 to D7 on the 64-bit operands: normalise, then run Program D. */
  method NormalisedDivide(u: array<int>, uo: nat, v: array<int>, vo: nat, q: array<int>, m: nat, n: nat) returns (d: nat)
    requires u != v && u != q && v != q && u.Length == 5 && v.Length == 5 && q.Length == 5
    requires 2 <= n && uo + m + n == 4 && vo + n == 4
    requires IsDigits(B, u[uo..5]) && u[uo] == 0 && IsDigits(B, v[vo + 1..5]) && v[vo + 1] > 0
    modifies u, v, q
    ensures d < 16
    ensures forall k :: 0 <= k < uo ==> u[k] == old(u[k])
    ensures (forall k :: uo <= k <= uo + m ==> u[k] == 0) && (forall k :: uo <= k < 5 ==> 0 <= u[k] < B)
    ensures (forall k :: 0 <= k < 4 - m ==> q[k] == old(q[k])) && (forall k :: 4 - m <= k < 5 ==> 0 <= q[k] < B)
    ensures IsScaledDivision(Val(B, old(u[uo..5])), Val(B, old(v[vo + 1..5])), Pow(2, d),
                             Val(B, q[4 - m..5]), Val(B, u[uo + m + 1..5]))
  {
    hide Val, Pow, IsDivision, IsScaled, IsScaledDivision;
    ghost var su, vs := u[uo..5], v[vo + 1..5];
    d := Normalise(u, uo, m + n, v, vo, n);
    ghost var nu, nv := u[uo..5], v[vo + 1..5];
    FirstDigitsBelow(su, vs, nu, nv, m, d);
    assert u[uo..uo + n] == nu[..n] by { Prefix(u[..], uo, 5, n); }
    ProgramD(B, u, uo, v, vo, q, 4 - m, m, n);
    assert q[4 - m..4 - m + m + 1] == q[4 - m..5];
    Rescale(Val(B, su), Val(B, vs), Pow(2, d), Val(B, nu), Val(B, nv), Val(B, q[4 - m..5]), Val(B, u[uo + m + 1..5]));
  }

  lemma {:induction false} Prefix(s: seq<int>, i: nat, j: nat, n: nat)
    requires i + n <= j <= |s|
    ensures s[i..j][..n] == s[i..i + n]
  {
  }

  lemma Rescale(u: int, v: int, s: int, us: int, vs: int, q: int, r: int)
    requires IsScaled(u, s, us) && IsScaled(v, s, vs) && IsDivision(us, vs, q, r)
    ensures IsScaledDivision(u, v, s, q, r)
  {
  }

  lemma ByOne(x: int)
    ensures IsDivision(x, 1, x, 0)
  {
  }

  /** While the dividend starts with zeros it still has more digits than the divisor. */
  lemma {:induction false} EnoughDigits(us: seq<int>, vs: seq<int>, uo: nat)
    requires |us| == 4 && uo + |vs| <= 4 && 2 <= |vs| && IsDigits(B, us) && IsDigits(B, vs) && vs[0] > 0
    requires Val(B, vs) <= Val(B, us)
    requires uo < 4 && forall k :: 0 <= k <= uo ==> us[k] == 0
    ensures uo + |vs| < 4
  {
    if uo + |vs| == 4 {
      var z, r := us[..uo + 1], us[uo + 1..];
      assert us == z + r;
      ValLeadingZeros(B, z, r);
      ValBound(B, r);
      DivisorAbove(vs);
      assert false;
    }
  }

  lemma {:induction false} SkippedZeros(u: seq<int>, k: nat)
    requires |u| == 5 && k <= 5 && u[0] == 0 && forall i :: 0 <= i < k ==> u[i] == 0
    ensures Val(B, u[k..5]) == Val(B, u[1..5])
  {
    assert u == u[..k] + u[k..5] && u == u[..1] + u[1..5];
    ValLeadingZeros(B, u[..k], u[k..5]);
    ValLeadingZeros(B, u[..1], u[1..5]);
  }

  /** After normalisation the first `n` dividend digits are below the divisor, so that Program D can start. */
  lemma {:induction false} FirstDigitsBelow(su: seq<int>, vs: seq<int>, nu: seq<int>, nv: seq<int>, m: nat, d: nat)
    requires |vs| >= 1 && |su| == |nu| == m + |vs| + 1 && |nv| == |vs|
    requires IsDigits(B, su) && IsDigits(B, vs) && IsDigits(B, nu) && su[0] == 0 && vs[0] > 0
    requires IsScaled(Val(B, su), Pow(2, d), Val(B, nu)) && IsScaled(Val(B, vs), Pow(2, d), Val(B, nv))
    ensures Val(B, nu[..|vs|]) < Val(B, nv)
  {
    hide Val, Pow, IsScaled, IsBelowProduct;
    var n := |vs|;
    DividendBelow(su, n - 1, m + 1);
    DivisorAbove(vs);
    PrefixBelow(nu, n);
    ScaledBelow(Val(B, su), Pow(B, n - 1), Pow(B, m + 1), Val(B, vs), Pow(2, d), Val(B, nu[..n]), Val(B, nu), Val(B, nv));
  }

  lemma {:induction false} DividendBelow(su: seq<int>, i: nat, j: nat)
    requires |su| == 1 + i + j && IsDigits(B, su) && su[0] == 0
    ensures IsBelowProduct(Val(B, su) + 1, Pow(B, i), Pow(B, j))
  {
    assert su == [0] + su[1..];
    ValLeadingZeros(B, [0], su[1..]);
    ValBound(B, su[1..]);
    PowAdd(B, i, j);
  }

  lemma {:induction false} DivisorAbove(vs: seq<int>)
    requires |vs| > 0 && IsDigits(B, vs) && vs[0] > 0
    ensures Pow(B, |vs| - 1) <= Val(B, vs)
  {
    ValHead(B, vs, 0, |vs|);
    assert vs[0..|vs|] == vs;
    ValBound(B, vs[1..|vs|]);
    MulMono(1, vs[0], Pow(B, |vs| - 1));
  }

  lemma {:induction false} PrefixBelow(s: seq<int>, n: nat)
    requires n <= |s| && IsDigits(B, s)
    ensures IsBelowProduct(-Val(B, s), -Val(B, s[..n]), Pow(B, |s| - n))
  {
    assert s == s[..n] + s[n..];
    ValConcat(B, s[..n], s[n..]);
    ValBound(B, s[n..]);
  }

  lemma ScaledBelow(u: int, p: int, k: int, v: int, s: int, x: int, us: int, vs: int)
    requires IsBelowProduct(u + 1, p, k) && IsBelowProduct(-us, -x, k) && p <= v && 0 < k && 0 < s
    requires IsScaled(u, s, us) && IsScaled(v, s, vs)
    ensures x < vs
  {
    MulLess(u, p * k, s);
    MulMono(p, v, k);
    MulMono(p * k, v * k, s);
    assert (v * k) * s == (v * s) * k;
    assert (-x) * k == -(x * k);
    MulCancelLess(x, v * s, k);
  }

  /** Undoing the scaling turns the scaled division into the division that was asked for. */
  lemma {:induction false} Finish(su: seq<int>, vs: seq<int>, q: seq<int>, ru: seq<int>, u: seq<int>,
                                  uo: nat, m: nat, n: nat, s: int, e: int)
    requires |u| == 5 && |q| == 5 && uo + m + n == 4 && |ru| == n && n >= 2 && s > 0
    requires forall k :: 0 <= k < 4 - m ==> q[k] == 0
    requires forall k :: 0 <= k <= uo + m ==> u[k] == 0
    requires IsScaledDivision(Val(B, su), Val(B, vs), s, Val(B, q[4 - m..5]), Val(B, ru))
    requires IsDivision(Val(B, [0] + ru), s, Val(B, u[uo + m..5]), e)
    ensures IsDivision(Val(B, su), Val(B, vs), Val(B, q[1..5]), Val(B, u[1..5]))
  {
    hide Val, IsDivision, IsScaledDivision;
    SkippedZeros(u, uo + m);
    SkippedZeros(q, 4 - m);
    ValLeadingZeros(B, [0], ru);
    Unscale(Val(B, su), Val(B, vs), s, Val(B, q[1..5]), Val(B, ru), Val(B, u[1..5]), e);
  }

  lemma Unscale(u: int, v: int, s: int, q: int, r: int, r': int, e: int)
    requires s > 0
    requires IsScaledDivision(u, v, s, q, r) && IsDivision(r, s, r', e)
    ensures IsDivision(u, v, q, r')
  {
    var x := u - q * v;
    assert x * s == u * s - q * (v * s);
    assert x * s == r;
    DivIs(r, s, x);
    DivIs(r, s, r');
    MulCancelLess(x, v, s);
    if x < 0 {
      MulMono(x, -1, s);
    }
  }

  /** `__qdivrem`: quotient and remainder of any 64-bit dividend by any nonzero 64-bit divisor. */
  method Divide(ull: nat, vll: nat) returns (r: Outcome)
    requires ull < TWO64 && vll < TWO64
    ensures r.Trap? <==> vll == 0
    ensures vll != 0 ==> IsDivision(ull, vll, r.quotient, r.remainder)
  {
    if vll == 0 {
      return Trap;
    }
    if ull < vll {
      return Divided(0, ull);
    }
    hide Val, IsDivision;
    var uspace := DigitSpace(ull);
    var vspace := DigitSpace(vll);
    ghost var vv := vspace[..];
    assert vspace[1..5] == vv[1..5];
    var vo, n := 0, 4;
    while vspace[vo + 1] == 0
      invariant 0 <= vo <= 2 && n == 4 - vo
      invariant forall k :: 1 <= k <= vo ==> vv[k] == 0
      decreases n
    {
      n := n - 1;
      if n == 1 {
        var t := vspace[vo + 2];
        DropZeros(vv, 3);
        LastDigit(vv);
        var q, rem := ShortDivide(uspace[1..5], t);
        return Divided(q, rem);
      }
      vo := vo + 1;
    }
    DropZeros(vv, vo);
    assert vspace[vo + 1..5] == vv[vo + 1..5];
    var q, rem := LongDivide(uspace, vspace, vo, n);
    return Divided(q, rem);
  }

  /** A five-digit work space holding a 64-bit number in its last four digits. */
  method DigitSpace(x: nat) returns (a: array<int>)
    requires x < TWO64
    ensures fresh(a) && a.Length == 5 && a[0] == 0 && IsDigits(B, a[..])
    ensures Val(B, a[1..5]) == x
  {
    hide Val;
    var s := SplitDigits(x);
    a := new int[5];
    a[0], a[1], a[2], a[3], a[4] := 0, s[0], s[1], s[2], s[3];
    assert a[1..5] == s;
  }

  lemma {:induction false} LastDigit(v: seq<int>)
    requires |v| == 5
    ensures Val(B, v[4..5]) == v[4]
  {
    assert v[4..5] == [] + [v[4]];
    ValSnoc(B, [], v[4]);
  }

  lemma {:induction false} DropZeros(v: seq<int>, vo: nat)
    requires |v| == 5 && vo < 4 && IsDigits(B, v) && forall k :: 1 <= k <= vo ==> v[k] == 0
    ensures IsDigits(B, v[vo + 1..5])
    ensures Val(B, v[vo + 1..5]) == Val(B, v[1..5])
  {
    assert v[1..5] == v[1..vo + 1] + v[vo + 1..5];
    ValLeadingZeros(B, v[1..vo + 1], v[vo + 1..5]);
  }
}
