/** The deadlock detector: what it records about waiting and holding, and when it reports. */
module Hangman {
  import opened Wrappers
  import opened WaitsFor

  /** A call returns, reports a lock cycle, or panics because it was called out of turn. */
  datatype Outcome = Done | Deadlock | OutOfTurn

  datatype Op = Wait(a: nat, l: nat) | Acquire(a: nat, l: nat) | Release(a: nat, l: nat)

  class Detector {
    /** `a_waiting` and `l_holding`: absent means NULL. */
    var waiting: map<nat, nat>
    var holding: map<nat, nat>
    /** The lockable of the detector's own spinlock, which is not recorded. */
    const own: nat

    ghost predicate Valid()
      reads this
    {
      Acyclic(waiting, holding)
    }

    constructor (own: nat)
      ensures Valid() && waiting == map[] && holding == map[] && this.own == own
    {
      waiting, holding := map[], map[];
      this.own := own;
      new;
      forall a: nat, n: nat | n > 0
        ensures Steps(waiting, holding, a, n) != Some(a)
      {
      }
    }

    /** `hangman_check`: follow the holders from `start`; stops because there is no cycle yet. */
    method Check(start: nat, target: nat) returns (found: bool)
      requires Valid()
      ensures found <==> start in holding && Reaches(waiting, holding, holding[start], target)
    {
      if start !in holding {
        return false;
      }
      ghost var first := holding[start];
      AcyclicEnds(waiting, holding, first);
      ghost var length: nat :| Steps(waiting, holding, first, length) == None;
      ghost var i := 0;
      var cur := holding[start];
      while true
        invariant Steps(waiting, holding, first, i) == Some(cur)
        invariant forall j: nat :: j < i ==> Steps(waiting, holding, first, j) != Some(target)
        decreases length - i
      {
        StepsBefore(waiting, holding, first, i, length);
        if cur == target {
          return true;
        }
        StepsAdd(waiting, holding, first, i, 1);
        if cur !in waiting || waiting[cur] !in holding {
          NotReached(waiting, holding, first, target, i);
          return false;
        }
        assert Steps(waiting, holding, cur, 1) == Some(holding[waiting[cur]]);
        cur := holding[waiting[cur]];
        i := i + 1;
      }
    }

    /** `hangman_wait`: reports exactly when recording the wait would close a cycle. */
    method Wait(a: nat, l: nat) returns (r: Outcome)
      requires Valid()
      modifies this`waiting
      ensures Valid()
      ensures l == own ==> r == Done && waiting == old(waiting)
      ensures l != own ==> (r == OutOfTurn <==> a in old(waiting))
      ensures l != own && a !in old(waiting) ==> (r == Deadlock <==> !Acyclic(old(waiting)[a := l], holding))
      ensures l != own && r == Done ==> waiting == old(waiting)[a := l]
      ensures r != Done ==> waiting == old(waiting)
    {
      if l == own {
        return Done;
      }
      if a in waiting {
        return OutOfTurn;
      }
      var found := Check(l, a);
      WaitClosesCycle(waiting, holding, a, l);
      if found {
        return Deadlock;
      }
      waiting := waiting[a := l];
      r := Done;
    }

    /** `hangman_acquire`. */
    method Acquire(a: nat, l: nat) returns (r: Outcome)
      requires Valid()
      modifies this
      ensures Valid()
      ensures r == Done <==> l == own || (a in old(waiting) && old(waiting)[a] == l && l !in old(holding))
      ensures r != Done ==> r == OutOfTurn
      ensures r != Done || l == own ==> waiting == old(waiting) && holding == old(holding)
      ensures r == Done && l != own ==> waiting == old(waiting) - {a} && holding == old(holding)[l := a]
    {
      if l == own {
        return Done;
      }
      if a !in waiting || waiting[a] != l {
        return OutOfTurn;
      }
      if l in holding {
        return OutOfTurn;
      }
      AcquireAcyclic(waiting, holding, a, l);
      holding := holding[l := a];
      waiting := waiting - {a};
      r := Done;
    }

    /** `hangman_release`. */
    method Release(a: nat, l: nat) returns (r: Outcome)
      requires Valid()
      modifies this`holding
      ensures Valid()
      ensures r == Done <==> l == own || (a !in waiting && l in old(holding) && old(holding)[l] == a)
      ensures r != Done ==> r == OutOfTurn
      ensures r != Done || l == own ==> holding == old(holding)
      ensures r == Done && l != own ==> holding == old(holding) - {l}
    {
      if l == own {
        return Done;
      }
      if a in waiting {
        return OutOfTurn;
      }
      if l !in holding || holding[l] != a {
        return OutOfTurn;
      }
      ReleaseAcyclic(waiting, holding, l);
      holding := holding - {l};
      r := Done;
    }

    /**
     * Any sequence of calls, up to the first panic.  The recorded graph never has a cycle, and if the run ends with a
     * report then the call that made it asked for a wait that closes one.
     */
    method Run(ops: seq<Op>) returns (r: Outcome, n: nat)
      requires Valid()
      modifies this
      ensures Valid() && n <= |ops| && (r == Done ==> n == |ops|)
      ensures r != Done ==> n < |ops|
      ensures r == Deadlock ==> ops[n].Wait? && ops[n].a !in waiting && !Acyclic(waiting[ops[n].a := ops[n].l], holding)
    {
      r, n := Done, 0;
      while n < |ops|
        invariant n <= |ops| && Valid() && r == Done
      {
        match ops[n] {
          case Wait(a, l) => r := Wait(a, l);
          case Acquire(a, l) => r := Acquire(a, l);
          case Release(a, l) => r := Release(a, l);
        }
        if r != Done {
          return;
        }
        n := n + 1;
      }
    }
  }

  lemma {:induction false} StepsBefore(waiting: map<nat, nat>, holding: map<nat, nat>, a: nat, i: nat, n: nat)
    requires Steps(waiting, holding, a, i) != None && Steps(waiting, holding, a, n) == None
    ensures i < n
  {
    if i >= n {
      StepsAdd(waiting, holding, a, n, i - n);
      assert false;
    }
  }

  lemma {:induction false} NotReached(waiting: map<nat, nat>, holding: map<nat, nat>, a: nat, target: nat, i: nat)
    requires Steps(waiting, holding, a, i + 1) == None
    requires forall j: nat :: j <= i ==> Steps(waiting, holding, a, j) != Some(target)
    ensures !Reaches(waiting, holding, a, target)
  {
    forall n: nat
      ensures Steps(waiting, holding, a, n) != Some(target)
    {
      if n > i {
        StepsAdd(waiting, holding, a, i + 1, n - i - 1);
      }
    }
  }
}
