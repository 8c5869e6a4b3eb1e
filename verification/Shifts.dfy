/** Machine-word bit operations of the millicode, and what shifting a digit string does to its value. */
module Shifts {
  import opened Nonlinear
  import opened Digits
  import opened Words

  /** Digit base of the millicode: half a 32-bit word. */
  const B: nat := TWO16

  /** Bitwise inclusive or. */
  function BitOr(x: nat, y: nat): nat
    decreases x + y
  {
    if x == 0 && y == 0 then 0
    else 2 * BitOr(x / 2, y / 2) + if x % 2 == 1 || y % 2 == 1 then 1 else 0
  }

  /** Or-ing into bits that are all zero adds. */
  lemma {:induction false} OrDisjoint(x: nat, y: nat, k: nat)
    requires y < Pow(2, k)
    ensures BitOr(x * Pow(2, k), y) == x * Pow(2, k) + y
    decreases k
  {
    if k == 0 {
      OrZero(x);
    } else {
      var p := Pow(2, k - 1);
      MulAssoc(2, x, p);
      assert x * Pow(2, k) == 2 * (x * p);
      MulNonneg(x, p);
      OrDisjoint(x, y / 2, k - 1);
    }
  }

  lemma {:induction false} OrZero(x: nat)
    ensures BitOr(x, 0) == x
  {
    if x > 0 {
      OrZero(x / 2);
    }
  }

  lemma {:induction false} PowersOfTwo(d: nat)
    requires d <= 16
    ensures Pow(2, d) * Pow(2, 16 - d) == B
    ensures d > 0 ==> Pow(2, d) == 2 * Pow(2, d - 1)
  {
    PowAdd(2, d, 16 - d);
    assert Pow(2, 8) == 256;
    PowAdd(2, 8, 8);
  }

  /** Two digits make a word. */
  function Combine(a: nat, b: nat): (r: nat)
    requires a < B && b < B
    ensures r == a * B + b
  {
    PowersOfTwo(16);
    OrDisjoint(a, b, 16);
    BitOr(a * Pow(2, 16) % TWO32, b)
  }

  // ----- one digit of a shift

  /** Shifting a digit left by `d` splits it at its `16 - d` low bits. */
  lemma ShiftSplit(x: int, s: int, t: int)
    requires 0 <= x < B && s >= 1 && t >= 1 && s * t == B
    ensures x * s % B == x % t * s && 0 <= x / t < s && x * s == x / t * B + x % t * s
  {
    var c, l := x / t, x % t;
    DivMod(x, t);
    MulLess(l, t, s);
    MulNonneg(l, s);
    assert c * t * s == c * (s * t);
    assert x * s == c * t * s + l * s;
    DivIs(x * s, B, c);
    QuotientBelow(x, t, s);
  }

  lemma QuotientBelow(x: int, t: int, s: int)
    requires 0 <= x < s * t && 0 < t
    ensures 0 <= x / t < s
  {
    DivMod(x, t);
    if x / t < 0 {
      MulMono(x / t, -1, t);
    }
    if x / t >= s {
      MulMono(s, x / t, t);
    }
  }

  /** The digit that a left shift leaves: the low part of `x` moved up, the top of `next` below it. */
  function LeftDigit(s: int, t: int, x: int, next: int): int
    requires t >= 1
  {
    x % t * s + next / t
  }

  /** The digit that a right shift leaves: the high part of `x` moved down, the low part of `previous` above it. */
  function RightDigit(s: int, t: int, x: int, previous: int): int
    requires s >= 1
  {
    x / s + previous % s * t
  }

  lemma DigitBelow(l: int, c: int, s: int, t: int)
    requires 0 <= l < t && 0 <= c < s
    ensures 0 <= l * s + c < s * t
  {
    MulNonneg(l, s);
    MulMono(l + 1, t, s);
    MulSucc(l, s);
  }

  method ShiftLeftDigit(x: int, next: int, d: nat) returns (r: int)
    requires 0 <= x < B && 0 <= next < B && d <= 16
    ensures r == LeftDigit(Pow(2, d), Pow(2, 16 - d), x, next)
    ensures 0 <= r < B
  {
    hide Pow;
    var s, t := Pow(2, d), Pow(2, 16 - d);
    PowersOfTwo(d);
    ShiftSplit(x, s, t);
    QuotientBelow(next, t, s);
    DigitBelow(x % t, next / t, s, t);
    OrDisjoint(x % t, next / t, d);
    r := BitOr(x * s % B, next / t);
  }

  method ShiftRightDigit(x: int, previous: int, d: nat) returns (r: int)
    requires 0 <= x < B && 0 <= previous < B && d <= 16
    ensures r == RightDigit(Pow(2, d), Pow(2, 16 - d), x, previous)
    ensures 0 <= r < B
  {
    hide Pow;
    var s, t := Pow(2, d), Pow(2, 16 - d);
    PowersOfTwo(d);
    ShiftSplit(previous, t, s);
    QuotientBelow(x, s, t);
    DigitBelow(previous % s, x / s, t, s);
    OrDisjoint(previous % s, x / s, 16 - d);
    OrCommutes(previous * t % B, x / s);
    r := BitOr(x / s, previous * t % B);
  }

  lemma {:induction false} OrCommutes(x: nat, y: nat)
    ensures BitOr(x, y) == BitOr(y, x)
    decreases x + y
  {
    if x != 0 || y != 0 {
      OrCommutes(x / 2, y / 2);
    }
  }

  // ----- shifting digit strings

  /** `r` is the digit string `p` shifted left by the factor `s`, each digit losing its top to the one before. */
  ghost predicate ShiftedLeft(s: int, t: int, p: seq<int>, r: seq<int>)
    requires t >= 1
  {
    && |r| == |p|
    && forall i {:trigger r[i]} :: 0 <= i < |p| ==> r[i] == LeftDigit(s, t, p[i], if i + 1 < |p| then p[i + 1] else 0)
  }

  /** A left shift multiplies, except for what falls out at the top. */
  lemma {:induction false} ShiftedLeftValue(s: int, t: int, p: seq<int>, r: seq<int>)
    requires s >= 1 && t >= 1 && s * t == B && IsDigits(B, p)
    requires ShiftedLeft(s, t, p, r) && |p| > 0
    ensures Val(B, r) == Val(B, p) * s - p[0] / t * Pow(B, |p|)
    decreases |p|
  {
    hide Val, LeftDigit;
    var n := |p|;
    assert p[0..n] == p && p[1..n] == p[1..] && r[0..n] == r && r[1..n] == r[1..];
    ValHead(B, p, 0, n);
    ValHead(B, r, 0, n);
    ShiftedLeftTail(s, t, p, r);
    if n == 1 {
      EmptyValue(p[1..]);
      EmptyValue(r[1..]);
      LeftArith(s, t, p[0], 0, Pow(B, n - 1), 0, 0);
    } else {
      ShiftedLeftValue(s, t, p[1..], r[1..]);
      LeftArith(s, t, p[0], p[1], Pow(B, n - 1), Val(B, p[1..]), Val(B, r[1..]));
    }
  }

  lemma {:induction false} ShiftedLeftTail(s: int, t: int, p: seq<int>, r: seq<int>)
    requires t >= 1 && |p| > 0 && ShiftedLeft(s, t, p, r)
    ensures r[0] == LeftDigit(s, t, p[0], if 1 < |p| then p[1] else 0)
    ensures ShiftedLeft(s, t, p[1..], r[1..])
  {
    var p', r' := p[1..], r[1..];
    forall i | 0 <= i < |p'|
      ensures r'[i] == LeftDigit(s, t, p'[i], if i + 1 < |p'| then p'[i + 1] else 0)
    {
      var j := i + 1;
      assert r[j] == LeftDigit(s, t, p[j], if j + 1 < |p| then p[j + 1] else 0);
    }
  }

  lemma {:induction false} EmptyValue(p: seq<int>)
    requires p == []
    ensures Val(B, p) == 0
  {
  }

  lemma LeftArith(s: int, t: int, x: int, next: int, w: int, was: int, now: int)
    requires 0 <= x < B && s >= 1 && t >= 1 && s * t == B
    requires now == was * s - next / t * w
    ensures LeftDigit(s, t, x, next) * w + now == (x * w + was) * s - x / t * (B * w)
  {
    ShiftSplit(x, s, t);
    ScaleArith(x, s, w, x / t, x % t * s, next / t, was, now);
  }

  lemma ScaleArith(x: int, s: int, w: int, c: int, l: int, c': int, was: int, now: int)
    requires x * s == c * B + l
    requires now == was * s - c' * w
    ensures (l + c') * w + now == (x * w + was) * s - c * (B * w)
  {
    assert (x * w) * s == (x * s) * w;
    assert (c * B + l) * w == c * (B * w) + l * w;
  }

  /** `r` is the digit string `p` shifted right by the factor `s`, each digit passing its low part to the next. */
  ghost predicate ShiftedRight(s: int, t: int, p: seq<int>, r: seq<int>)
    requires s >= 1
  {
    && |r| == |p|
    && forall i {:trigger r[i]} :: 0 <= i < |p| ==> r[i] == RightDigit(s, t, p[i], if i > 0 then p[i - 1] else 0)
  }

  /** A right shift divides. */
  lemma {:induction false} ShiftedRightValue(s: int, t: int, p: seq<int>, r: seq<int>)
    requires s >= 1 && t >= 1 && s * t == B && |p| > 0
    requires ShiftedRight(s, t, p, r)
    ensures IsDivision(Val(B, p), s, Val(B, r), p[|p| - 1] % s)
    decreases |p|
  {
    hide Val, RightDigit, IsDivision;
    var n := |p| - 1;
    assert p[..n] + [p[n]] == p && r[..n] + [r[n]] == r;
    ValSnoc(B, p[..n], p[n]);
    ValSnoc(B, r[..n], r[n]);
    ShiftedRightInit(s, t, p, r);
    if n == 0 {
      EmptyValue(p[..n]);
      EmptyValue(r[..n]);
      ZeroDivision(s);
      RightArith(s, t, 0, 0, 0, p[n]);
    } else {
      ShiftedRightValue(s, t, p[..n], r[..n]);
      RightArith(s, t, Val(B, p[..n]), Val(B, r[..n]), p[n - 1], p[n]);
    }
  }

  lemma {:induction false} ShiftedRightInit(s: int, t: int, p: seq<int>, r: seq<int>)
    requires s >= 1 && |p| > 0 && ShiftedRight(s, t, p, r)
    ensures var n := |p| - 1;
      r[n] == RightDigit(s, t, p[n], if n > 0 then p[n - 1] else 0) && ShiftedRight(s, t, p[..n], r[..n])
  {
    var n := |p| - 1;
    var p', r' := p[..n], r[..n];
    forall i | 0 <= i < |p'|
      ensures r'[i] == RightDigit(s, t, p'[i], if i > 0 then p'[i - 1] else 0)
    {
      assert r[i] == RightDigit(s, t, p[i], if i > 0 then p[i - 1] else 0);
    }
  }

  lemma ZeroDivision(s: int)
    requires s >= 1
    ensures 0 % s == 0 && IsDivision(0, s, 0, 0)
  {
    DivIs(0, s, 0);
  }

  lemma RightArith(s: int, t: int, was: int, now: int, previous: int, x: int)
    requires s >= 1 && s * t == B && IsDivision(was, s, now, previous % s)
    ensures IsDivision(was * B + x, s, now * B + RightDigit(s, t, x, previous), x % s)
  {
    DivMod(x, s);
    DistributeArith(s, now, x / s, previous % s, t);
  }

  lemma DistributeArith(s: int, now: int, h: int, c: int, t: int)
    requires s * t == B
    ensures (now * B + (h + c * t)) * s == (now * s + c) * B + h * s
  {
    assert (now * B) * s == (now * s) * B;
    assert (c * t) * s == c * (s * t);
  }
}
