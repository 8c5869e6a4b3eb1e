/** Numbers as text in a base, the way C prints and reads them. */
module Numerals {
  import opened Digits
  import opened Nonlinear
  import opened Words

  /** The digits to print with. */
  function DigitChar(d: nat): (c: char)
    requires d < 16
    ensures c != '\0'
    ensures d < 10 ==> c == '0' + d as char
  {
    if d < 10 then '0' + d as char else 'a' + (d - 10) as char
  }

  /** The numeral of `n` in base `b`. */
  function Text(n: nat, b: nat): (s: string)
    requires 2 <= b <= 16
    ensures |s| > 0
    decreases n
  {
    if n < b then [DigitChar(n)] else Text(n / b, b) + [DigitChar(n % b)]
  }

  /** A numeral of `n` has at most `k` digits exactly when `n` is below the `k`-th power of the base. */
  lemma {:induction false} TextLength(n: nat, b: nat, k: nat)
    requires 2 <= b <= 16 && k > 0
    ensures |Text(n, b)| <= k <==> n < Pow(b, k)
    decreases n
  {
    TextStep(n, b);
    PowStep(b, k);
    hide Text, Pow;
    if n < b {
      PowAtLeast(b, k);
    } else if k > 1 {
      Smaller(n, b);
      TextLength(n / b, b, k - 1);
      DivBelow(n, b, Pow(b, k - 1));
    }
  }

  lemma {:induction false} TextStep(n: nat, b: nat)
    requires 2 <= b <= 16
    ensures n < b ==> |Text(n, b)| == 1
    ensures n >= b ==> |Text(n, b)| == |Text(n / b, b)| + 1
  {
  }

  lemma {:induction false} TextSplit(n: nat, b: nat)
    requires 2 <= b <= 16
    ensures 0 <= n % b < b && 0 <= n / b
    ensures n < b ==> Text(n, b) == [DigitChar(n % b)] && n / b == 0
    ensures n >= b ==> Text(n, b) == Text(n / b, b) + [DigitChar(n % b)] && 0 < n / b < n
  {
    if n < b {
      DivIs(n, b, 0);
    } else {
      Smaller(n, b);
    }
  }

  lemma {:induction false} PowStep(b: nat, k: nat)
    requires k > 0
    ensures Pow(b, k) == b * Pow(b, k - 1) && (k == 1 ==> Pow(b, k) == b)
  {
    assert Pow(b, 0) == 1;
  }

  lemma Smaller(n: nat, b: nat)
    requires 2 <= b <= n
    ensures 0 < n / b < n
  {
    DivMod(n, b);
    var q := n / b;
    if q <= 0 {
      MulMono(q, 0, b);
    } else {
      MulMono(2, b, q);
    }
  }

  lemma {:induction false} PowAtLeast(b: nat, k: nat)
    requires b >= 1 && k > 0
    ensures Pow(b, k) >= b && Pow(b, k) >= 1
    decreases k
  {
    if k == 1 {
      assert Pow(b, 1) == b * Pow(b, 0);
    } else {
      PowAtLeast(b, k - 1);
      MulMono(1, Pow(b, k - 1), b);
    }
  }

  lemma DivBelow(n: nat, b: nat, m: nat)
    requires b > 0
    ensures n / b < m <==> n < b * m
  {
    DivMod(n, b);
    var q, r := n / b, n % b;
    if q < m {
      MulMono(q + 1, m, b);
    } else {
      MulMono(m, q, b);
    }
  }

  // ----- text, read back

  predicate IsDigit(c: char) {
    '0' <= c <= '9'
  }

  function DigitValue(c: char): (d: nat)
    requires IsDigit(c)
    ensures d < 10
  {
    (c - '0') as nat
  }

  /** What a digit of any base up to 16 counts. */
  function Weight(c: char): (d: nat)
    ensures IsDigit(c) ==> d == DigitValue(c)
    ensures d < 10 <==> IsDigit(c)
  {
    if IsDigit(c) then DigitValue(c) else if 'a' <= c <= 'f' then 10 + (c - 'a') as nat else 16
  }

  ghost predicate AllDigits(s: string, b: nat) {
    forall i :: 0 <= i < |s| ==> Weight(s[i]) < b
  }

  /** The number that a string of digits stands for in base `b`. */
  ghost function Value(s: string, b: nat): nat
    decreases |s|
  {
    if s == [] then 0 else Value(s[..|s| - 1], b) * b + Weight(s[|s| - 1])
  }

  lemma {:induction false} ValueSnoc(s: string, c: char, b: nat)
    requires AllDigits(s, b) && Weight(c) < b
    ensures AllDigits(s + [c], b) && Value(s + [c], b) == Value(s, b) * b + Weight(c)
  {
    assert (s + [c])[..|s|] == s;
  }

  lemma DigitWeight(d: nat)
    requires d < 16
    ensures Weight(DigitChar(d)) == d
  {
    var c := DigitChar(d);
    assert d < 10 ==> c as int == 48 + d;
    assert d >= 10 ==> c as int == 97 + (d - 10);
  }

  /** A numeral stands for its number, in every base. */
  lemma {:induction false} ValueText(n: nat, b: nat)
    requires 2 <= b <= 16
    ensures AllDigits(Text(n, b), b) && Value(Text(n, b), b) == n
    decreases n
  {
    TextSplit(n, b);
    hide Text, DigitChar;
    DigitWeight(n % b);
    if n < b {
      assert Text(n, b) == "" + [DigitChar(n % b)];
      DivIs(n, b, 0);
      ValueSnoc("", DigitChar(n % b), b);
    } else {
      ValueText(n / b, b);
      ValueSnoc(Text(n / b, b), DigitChar(n % b), b);
      DivMod(n, b);
    }
  }

  // ----- the number buffer

  const INT_BITS: nat := 64
  const NUMBER_BUF_SIZE: nat := INT_BITS / 3 + 2

  lemma Powers()
    ensures Pow(8, 22) == 0x4_0000_0000_0000_0000 && Pow(8, 21) == 0x8000_0000_0000_0000
  {
    assert Pow(8, 4) == 4096;
    PowAdd(8, 4, 4);
    PowAdd(8, 8, 8);
    PowAdd(8, 16, 4);
    PowAdd(8, 20, 1);
    PowAdd(8, 20, 2);
  }

  lemma {:induction false} PowMono(b: nat, c: nat, k: nat)
    requires b <= c
    ensures Pow(b, k) <= Pow(c, k)
    decreases k
  {
    if k > 0 {
      PowMono(b, c, k - 1);
      MulMono(Pow(b, k - 1), Pow(c, k - 1), b);
      MulMono(b, c, Pow(c, k - 1));
    }
  }

  /** Every 64-bit value in base 8, 10 or 16 fits in the buffer, with its terminator. */
  lemma {:induction false} Fits(n: nat, b: nat)
    requires n < TWO64 && (b == 8 || b == 10 || b == 16)
    ensures |Text(n, b)| + 1 <= NUMBER_BUF_SIZE
  {
    hide Text, Pow;
    Powers();
    PowMono(8, b, 22);
    TextLength(n, b, 22);
  }

  /** The buffer has no room to spare: the largest value in octal fills it. */
  lemma {:induction false} FitsExactly()
    ensures |Text(0xffff_ffff_ffff_ffff, 8)| + 1 == NUMBER_BUF_SIZE
  {
    hide Text, Pow;
    Powers();
    TextLength(0xffff_ffff_ffff_ffff, 8, 22);
    TextLength(0xffff_ffff_ffff_ffff, 8, 21);
  }
}
