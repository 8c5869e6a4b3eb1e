/**
 * The waits-for graph.  An actor waits for at most one lockable and a lockable has at most one holder, so from every
 * actor there is at most one way on: to the holder of what it waits for.
 */
module WaitsFor {
  import opened Wrappers

  /** The actor that `a` waits for. */
  function Next(waiting: map<nat, nat>, holding: map<nat, nat>, a: nat): Option<nat> {
    if a in waiting && waiting[a] in holding then Some(holding[waiting[a]]) else None
  }

  /** The actor `n` steps on from `a`, if the chain is that long. */
  function Steps(waiting: map<nat, nat>, holding: map<nat, nat>, a: nat, n: nat): Option<nat>
    decreases n
  {
    if n == 0 then Some(a) else
    match Next(waiting, holding, a)
    case None => None
    case Some(b) => Steps(waiting, holding, b, n - 1)
  }

  ghost predicate Ends(waiting: map<nat, nat>, holding: map<nat, nat>, a: nat) {
    exists n: nat :: Steps(waiting, holding, a, n) == None
  }

  /** No actor waits for itself, directly or through others. */
  ghost predicate Acyclic(waiting: map<nat, nat>, holding: map<nat, nat>) {
    forall a: nat, n: nat :: n > 0 ==> Steps(waiting, holding, a, n) != Some(a)
  }

  ghost predicate Reaches(waiting: map<nat, nat>, holding: map<nat, nat>, a: nat, b: nat) {
    exists n: nat :: Steps(waiting, holding, a, n) == Some(b)
  }

  lemma {:induction false} StepsAdd(waiting: map<nat, nat>, holding: map<nat, nat>, a: nat, m: nat, n: nat)
    ensures Steps(waiting, holding, a, m + n) ==
      match Steps(waiting, holding, a, m)
      case None => None
      case Some(b) => Steps(waiting, holding, b, n)
    decreases m
  {
    if m > 0 {
      match Next(waiting, holding, a)
      case None =>
      case Some(b) => StepsAdd(waiting, holding, b, m - 1, n);
    }
  }

  /** A chain that comes back to its start never ends. */
  lemma {:induction false} CycleNeverEnds(waiting: map<nat, nat>, holding: map<nat, nat>, a: nat, n: nat, m: nat)
    requires n > 0 && Steps(waiting, holding, a, n) == Some(a)
    ensures Steps(waiting, holding, a, m) != None
    decreases m
  {
    if m < n {
      StepsAdd(waiting, holding, a, m, n - m);
    } else {
      StepsAdd(waiting, holding, a, n, m - n);
      CycleNeverEnds(waiting, holding, a, n, m - n);
    }
  }

  /** The first `n` actors of a chain that is at least that long. */
  ghost function Trail(waiting: map<nat, nat>, holding: map<nat, nat>, a: nat, n: nat): seq<nat>
    requires Steps(waiting, holding, a, n) != None
    decreases n
  {
    if n == 0 then [] else [a] + Trail(waiting, holding, Next(waiting, holding, a).value, n - 1)
  }

  lemma {:induction false} TrailAt(waiting: map<nat, nat>, holding: map<nat, nat>, a: nat, n: nat, i: nat)
    requires Steps(waiting, holding, a, n) != None && i < n
    ensures |Trail(waiting, holding, a, n)| == n
    ensures Steps(waiting, holding, a, i) == Some(Trail(waiting, holding, a, n)[i])
    ensures Trail(waiting, holding, a, n)[i] in waiting
    decreases n
  {
    var b := Next(waiting, holding, a).value;
    if i > 0 {
      TrailAt(waiting, holding, b, n - 1, i - 1);
    } else if n > 1 {
      TrailAt(waiting, holding, b, n - 1, 0);
    }
  }

  /** More elements than there are values means a repetition. */
  lemma {:induction false} Repeats(s: seq<nat>, values: set<nat>) returns (i: nat, j: nat)
    requires |s| > |values| && forall k :: 0 <= k < |s| ==> s[k] in values
    ensures i < j < |s| && s[i] == s[j]
    decreases |s|
  {
    var last := |s| - 1;
    if k :| 0 <= k < last && s[k] == s[last] {
      return k, last;
    }
    i, j := Repeats(s[..last], values - {s[last]});
  }

  lemma {:induction false} TwiceIsCycle(waiting: map<nat, nat>, holding: map<nat, nat>, a: nat, i: nat, j: nat)
    requires i < j && Steps(waiting, holding, a, i) != None && Steps(waiting, holding, a, i) == Steps(waiting, holding, a, j)
    ensures !Acyclic(waiting, holding)
  {
    var b := Steps(waiting, holding, a, i).value;
    StepsAdd(waiting, holding, a, i, j - i);
    assert Steps(waiting, holding, b, j - i) == Some(b);
  }

  /** Without cycles every chain ends: the reason why following one is a loop that stops. */
  lemma {:induction false} AcyclicEnds(waiting: map<nat, nat>, holding: map<nat, nat>, a: nat)
    requires Acyclic(waiting, holding)
    ensures Ends(waiting, holding, a)
  {
    var n := |waiting.Keys| + 1;
    if Steps(waiting, holding, a, n) != None {
      var s := Trail(waiting, holding, a, n);
      TrailAt(waiting, holding, a, n, 0);
      forall k | 0 <= k < |s|
        ensures s[k] in waiting.Keys
      {
        TrailAt(waiting, holding, a, n, k);
      }
      var i, j := Repeats(s, waiting.Keys);
      TrailAt(waiting, holding, a, n, i);
      TrailAt(waiting, holding, a, n, j);
      TwiceIsCycle(waiting, holding, a, i, j);
      assert false;
    }
  }

  lemma {:induction false} EndsAcyclic(waiting: map<nat, nat>, holding: map<nat, nat>)
    requires forall a: nat :: Ends(waiting, holding, a)
    ensures Acyclic(waiting, holding)
  {
    forall a: nat, n: nat | n > 0
      ensures Steps(waiting, holding, a, n) != Some(a)
    {
      if Steps(waiting, holding, a, n) == Some(a) {
        assert Ends(waiting, holding, a);
        var m: nat :| Steps(waiting, holding, a, m) == None;
        CycleNeverEnds(waiting, holding, a, n, m);
        assert false;
      }
    }
  }

  // ----- releasing and acquiring

  lemma {:induction false} ReleaseSteps(waiting: map<nat, nat>, holding: map<nat, nat>, l: nat, a: nat, n: nat)
    requires Steps(waiting, holding, a, n) == None
    ensures Steps(waiting, holding - {l}, a, n) == None
    decreases n
  {
    match Next(waiting, holding - {l}, a)
    case None =>
    case Some(b) => ReleaseSteps(waiting, holding, l, b, n - 1);
  }

  lemma {:induction false} ReleaseAcyclic(waiting: map<nat, nat>, holding: map<nat, nat>, l: nat)
    requires Acyclic(waiting, holding)
    ensures Acyclic(waiting, holding - {l})
  {
    forall a: nat
      ensures Ends(waiting, holding - {l}, a)
    {
      AcyclicEnds(waiting, holding, a);
      var n: nat :| Steps(waiting, holding, a, n) == None;
      ReleaseSteps(waiting, holding, l, a, n);
    }
    EndsAcyclic(waiting, holding - {l});
  }

  /** The new holder waits for nothing, so a chain that now reaches it ends there. */
  lemma {:induction false} AcquireSteps(waiting: map<nat, nat>, holding: map<nat, nat>, a: nat, l: nat, x: nat, n: nat)
    requires l !in holding && Steps(waiting, holding, x, n) == None
    ensures Steps(waiting - {a}, holding[l := a], x, n + 1) == None
    decreases n
  {
    var waiting', holding' := waiting - {a}, holding[l := a];
    match Next(waiting', holding', x)
    case None =>
    case Some(y) =>
      if waiting[x] == l {
        assert y == a && Next(waiting', holding', a) == None;
      } else {
        assert Next(waiting, holding, x) == Some(y);
        AcquireSteps(waiting, holding, a, l, y, n - 1);
      }
  }

  lemma {:induction false} AcquireAcyclic(waiting: map<nat, nat>, holding: map<nat, nat>, a: nat, l: nat)
    requires Acyclic(waiting, holding) && l !in holding
    ensures Acyclic(waiting - {a}, holding[l := a])
  {
    var waiting', holding' := waiting - {a}, holding[l := a];
    forall x: nat
      ensures Ends(waiting', holding', x)
    {
      AcyclicEnds(waiting, holding, x);
      var n: nat :| Steps(waiting, holding, x, n) == None;
      AcquireSteps(waiting, holding, a, l, x, n);
    }
    EndsAcyclic(waiting', holding');
  }

  // ----- waiting

  /** Until it reaches `a`, a chain does not depend on what `a` waits for. */
  lemma {:induction false} SameUntil(waiting: map<nat, nat>, holding: map<nat, nat>, a: nat, l: nat, x: nat, n: nat)
    requires a !in waiting
    ensures Steps(waiting, holding, x, n) == Some(a) ==> Steps(waiting[a := l], holding, x, n) == Some(a)
    decreases n
  {
    if n > 0 && x != a {
      match Next(waiting, holding, x)
      case None =>
      case Some(y) => SameUntil(waiting, holding, a, l, y, n - 1);
    }
  }

  /** A chain that ends without reaching `a` still ends. */
  lemma {:induction false} StillEnds(waiting: map<nat, nat>, holding: map<nat, nat>, a: nat, l: nat, x: nat, n: nat)
    requires a !in waiting && Steps(waiting, holding, x, n) == None && !Reaches(waiting, holding, x, a)
    ensures Steps(waiting[a := l], holding, x, n) == None
    decreases n
  {
    assert Steps(waiting, holding, x, 0) == Some(x);
    match Next(waiting, holding, x)
    case None =>
    case Some(y) =>
      NextReaches(waiting, holding, x, y, a);
      StillEnds(waiting, holding, a, l, y, n - 1);
  }

  lemma {:induction false} NextReaches(waiting: map<nat, nat>, holding: map<nat, nat>, x: nat, y: nat, a: nat)
    requires Next(waiting, holding, x) == Some(y)
    ensures Reaches(waiting, holding, y, a) ==> Reaches(waiting, holding, x, a)
  {
    if Reaches(waiting, holding, y, a) {
      var n: nat :| Steps(waiting, holding, y, n) == Some(a);
      assert Steps(waiting, holding, x, n + 1) == Some(a);
    }
  }

  /** Every chain ends after the new edge if the chain from the lockable's holder did not reach `a`. */
  lemma {:induction false} WaitEnds(waiting: map<nat, nat>, holding: map<nat, nat>, a: nat, l: nat, x: nat, n: nat)
    requires a !in waiting && Acyclic(waiting, holding) && Steps(waiting, holding, x, n) == None
    requires l in holding ==> !Reaches(waiting, holding, holding[l], a)
    ensures Ends(waiting[a := l], holding, x)
    decreases n
  {
    var waiting' := waiting[a := l];
    if x == a {
      if l in holding {
        AcyclicEnds(waiting, holding, holding[l]);
        var m: nat :| Steps(waiting, holding, holding[l], m) == None;
        StillEnds(waiting, holding, a, l, holding[l], m);
        assert Steps(waiting', holding, x, m + 1) == None;
      } else {
        assert Steps(waiting', holding, x, 1) == None;
      }
    } else {
      match Next(waiting, holding, x)
      case None =>
        assert Steps(waiting', holding, x, 1) == None;
      case Some(y) =>
        WaitEnds(waiting, holding, a, l, y, n - 1);
        var m: nat :| Steps(waiting', holding, y, m) == None;
        assert Steps(waiting', holding, x, m + 1) == None;
    }
  }

  /** Adding the edge closes a cycle exactly when the lockable's holder already leads to `a`. */
  lemma {:induction false} WaitClosesCycle(waiting: map<nat, nat>, holding: map<nat, nat>, a: nat, l: nat)
    requires a !in waiting && Acyclic(waiting, holding)
    ensures Acyclic(waiting[a := l], holding) <==> !(l in holding && Reaches(waiting, holding, holding[l], a))
  {
    if l in holding && Reaches(waiting, holding, holding[l], a) {
      var n: nat :| Steps(waiting, holding, holding[l], n) == Some(a);
      SameUntil(waiting, holding, a, l, holding[l], n);
      assert Steps(waiting[a := l], holding, a, n + 1) == Some(a);
    } else {
      var waiting' := waiting[a := l];
      forall x: nat
        ensures Ends(waiting', holding, x)
      {
        AcyclicEnds(waiting, holding, x);
        var n: nat :| Steps(waiting, holding, x, n) == None;
        WaitEnds(waiting, holding, a, l, x, n);
      }
      EndsAcyclic(waiting', holding);
    }
  }
}
