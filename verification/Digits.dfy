/** Numbers written as digit sequences in an arbitrary base, most significant digit first. */
module Digits {
  import opened Nonlinear

  function Pow(b: nat, n: nat): (r: nat)
    ensures b >= 1 ==> r >= 1
  {
    if n == 0 then 1 else b * Pow(b, n - 1)
  }

  ghost predicate IsDigits(b: nat, s: seq<int>) {
    forall i :: 0 <= i < |s| ==> 0 <= s[i] < b
  }

  lemma {:induction false} DigitsSlice(b: nat, s: seq<int>, lo: nat, hi: nat, i: nat, j: nat)
    requires lo <= i <= j <= hi <= |s| && IsDigits(b, s[lo..hi])
    ensures IsDigits(b, s[i..j])
    ensures forall k :: i <= k < j ==> 0 <= s[k] < b
  {
    forall k | lo <= k < hi
      ensures 0 <= s[k] < b
    {
      assert s[k] == s[lo..hi][k - lo];
    }
  }

  /** The number that the digits `s` denote in base `b`. */
  function Val(b: nat, s: seq<int>): int {
    if |s| == 0 then 0 else Val(b, s[..|s| - 1]) * b + s[|s| - 1]
  }

  lemma {:induction false} ValSnoc(b: nat, s: seq<int>, d: int)
    ensures Val(b, s + [d]) == Val(b, s) * b + d
  {
    assert (s + [d])[..|s|] == s;
  }

  lemma {:induction false} PowAdd(b: nat, m: nat, n: nat)
    ensures Pow(b, m + n) == Pow(b, m) * Pow(b, n)
  {
    if m > 0 {
      PowAdd(b, m - 1, n);
      MulAssoc(b, Pow(b, m - 1), Pow(b, n));
    }
  }

  lemma Distribute(x: int, p: int, y: int, b: int)
    ensures (x * p + y) * b == x * (b * p) + y * b
  {
    MulAssoc(x, p, b);
  }

  lemma {:induction false} ValConcat(b: nat, s: seq<int>, t: seq<int>)
    ensures Val(b, s + t) == Val(b, s) * Pow(b, |t|) + Val(b, t)
    decreases |t|
  {
    if |t| == 0 {
      assert s + t == s;
    } else {
      var t', d := t[..|t| - 1], t[|t| - 1];
      assert t == t' + [d] && s + t == (s + t') + [d];
      ValConcat(b, s, t');
      ValSnoc(b, s + t', d);
      ValSnoc(b, t', d);
      Distribute(Val(b, s), Pow(b, |t'|), Val(b, t'), b);
    }
  }

  lemma {:induction false} ValCons(b: nat, d: int, s: seq<int>)
    ensures Val(b, [d] + s) == d * Pow(b, |s|) + Val(b, s)
  {
    ValConcat(b, [d], s);
    assert [d][..0] == [];
    assert Val(b, [d]) == d;
  }

  /** A slice that starts with `s[i]` is that digit followed by the rest of the slice. */
  lemma {:induction false} ValHead(b: nat, s: seq<int>, i: nat, j: nat)
    requires i < j <= |s|
    ensures Val(b, s[i..j]) == s[i] * Pow(b, j - i - 1) + Val(b, s[i + 1..j])
  {
    assert s[i..j] == [s[i]] + s[i + 1..j];
    ValCons(b, s[i], s[i + 1..j]);
  }

  lemma {:induction false} ValLast(b: nat, s: seq<int>, i: nat, j: nat)
    requires i <= j < |s|
    ensures Val(b, s[i..j + 1]) == Val(b, s[i..j]) * b + s[j]
  {
    assert s[i..j + 1] == s[i..j] + [s[j]];
    ValSnoc(b, s[i..j], s[j]);
  }

  lemma {:induction false} ValBound(b: nat, s: seq<int>)
    requires IsDigits(b, s)
    ensures 0 <= Val(b, s) < Pow(b, |s|)
    decreases |s|
  {
    if |s| > 0 {
      var t, d := s[..|s| - 1], s[|s| - 1];
      ValBound(b, t);
      var x, p := Val(b, t), Pow(b, |t|);
      MulMono(x, p - 1, b);
      MulNonneg(x, b);
      assert (p - 1) * b == b * p - b;
    }
  }

  lemma {:induction false} ValZeros(b: nat, s: seq<int>)
    requires forall i :: 0 <= i < |s| ==> s[i] == 0
    ensures Val(b, s) == 0
    decreases |s|
  {
    if |s| > 0 {
      ValZeros(b, s[..|s| - 1]);
    }
  }

  /** Leading zeros do not matter. */
  lemma {:induction false} ValLeadingZeros(b: nat, z: seq<int>, s: seq<int>)
    requires forall i :: 0 <= i < |z| ==> z[i] == 0
    ensures Val(b, z + s) == Val(b, s)
  {
    ValConcat(b, z, s);
    ValZeros(b, z);
  }
}
