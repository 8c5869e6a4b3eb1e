/** Equations between sums of multisets. */
module Multisets {

  lemma {:induction false} Cancel<X>(a: multiset<X>, b: multiset<X>, c: multiset<X>)
    requires a + c == b + c
    ensures a == b
  {
    forall x
      ensures a[x] == b[x]
    {
      assert (a + c)[x] == (b + c)[x];
    }
  }

  lemma {:induction false} Exchange<X>(a: multiset<X>, b: multiset<X>, c: multiset<X>, d: multiset<X>, p: multiset<X>, q: multiset<X>)
    requires a + b == c + d && d + p == b + q
    ensures a + p == c + q
  {
    forall x
      ensures (a + p)[x] == (c + q)[x]
    {
      assert (a + b)[x] == (c + d)[x] && (d + p)[x] == (b + q)[x];
    }
  }
}
