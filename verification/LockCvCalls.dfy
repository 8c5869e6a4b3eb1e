/** Calls on a lock and a condition variable come to their end, and spinlocks are not held for long. */
module LockCvCalls {
  import opened LockCv
  import opened WaitChannel

  /** A thread's next `n` turns, with nothing in between. */
  function Own(t: nat, call: Call, n: nat): (turns: seq<Turn>)
    ensures |turns| == n
  {
    seq(n, _ => Turn(t, call))
  }

  /** The same, as a function of the number of turns. */
  function After(s: State, t: nat, call: Call, n: nat): State {
    if n == 0 then s else Step(After(s, t, call, n - 1), Turn(t, call))
  }

  lemma {:induction false} OwnTurns(s: State, t: nat, call: Call, n: nat)
    ensures Run(s, Own(t, call, n)) == After(s, t, call, n)
    decreases n
  {
    hide Step;
    if n > 0 {
      OwnTurns(s, t, call, n - 1);
      assert Own(t, call, n)[..n - 1] == Own(t, call, n - 1);
    } else {
      assert Own(t, call, 0) == [];
    }
  }

  lemma {:induction false} SevenTurns(s: State, t: nat, call: Call)
    ensures var turn := Turn(t, call);
      var s1 := Step(s, turn);
      var s2 := Step(s1, turn);
      var s3 := Step(s2, turn);
      var s4 := Step(s3, turn);
      var s5 := Step(s4, turn);
      var s6 := Step(s5, turn);
      && After(s, t, call, 3) == s3 && After(s, t, call, 4) == s4 && After(s, t, call, 5) == s5
      && After(s, t, call, 6) == s6 && After(s, t, call, 7) == Step(s6, turn)
  {
    hide Step;
    assert After(s, t, call, 0) == s;
    assert After(s, t, call, 3) == Step(After(s, t, call, 2), Turn(t, call));
    assert After(s, t, call, 5) == Step(After(s, t, call, 4), Turn(t, call));
  }

  // ----- calls

  /** `lock_acquire` of a free lock, with the spinlock free: five turns, and nothing else changes. */
  lemma {:induction false} AcquireTakes(s: State, t: nat)
    requires t in s.at && s.at[t] == Outside && s.lk == -1 && s.holder == -1
    ensures Run(s, Own(t, Acquire, 5)) == s.(holder := t, at := s.at[t := Critical])
  {
    OwnTurns(s, t, Acquire, 5);
    SevenTurns(s, t, Acquire);
    hide Run, Own, After;
  }

  /** `lock_acquire` of a held lock: the thread goes to sleep behind the others, without the spinlock. */
  lemma {:induction false} AcquireSleeps(s: State, t: nat)
    requires t in s.at && s.at[t] == Outside && s.lk == -1 && s.holder != -1
    ensures Run(s, Own(t, Acquire, 3)) == s.(lockers := s.lockers + [t], at := s.at[t := AAsleep])
  {
    OwnTurns(s, t, Acquire, 3);
    SevenTurns(s, t, Acquire);
    hide Run, Own, After;
  }

  /** A woken locker that finds the spinlock free: it takes the lock if that is free, and otherwise sleeps again. */
  lemma {:induction false} WokenTakes(s: State, t: nat, call: Call)
    requires t in s.at && s.at[t] == AWant(true) && s.lk == -1
    ensures s.holder == -1 ==> Run(s, Own(t, call, 4)) == s.(holder := t, at := s.at[t := Critical])
    ensures s.holder != -1 ==> Run(s, Own(t, call, 2)) == s.(lockers := s.lockers + [t], at := s.at[t := AAsleep])
  {
    OwnTurns(s, t, call, 4);
    OwnTurns(s, t, call, 2);
    SevenTurns(s, t, call);
    hide Run, Own;
    assert After(s, t, call, 1) == Step(After(s, t, call, 0), Turn(t, call));
    assert After(s, t, call, 2) == Step(After(s, t, call, 1), Turn(t, call));
    hide After;
  }

  /** What waking the first thread of the lock's channel leaves. */
  function LockerWoken(s: State): State {
    if s.lockers == [] then s else s.(lockers := s.lockers[1..], at := s.at[s.lockers[0] := AWant(true)])
  }

  function WaiterWoken(s: State): State {
    if s.waiters == [] then s else s.(waiters := s.waiters[1..], at := s.at[s.waiters[0] := CWoken])
  }

  lemma {:induction false} FirstSleeps(channel: seq<nat>, at: map<nat, Place>, asleep: Place, t: nat)
    requires Queued(channel, at, asleep) && t in at && at[t] != asleep
    ensures channel != [] ==> channel[0] in at && channel[0] != t
  {
    if channel != [] {
      assert channel[0] in channel;
    }
  }

  /** `lock_release` with the spinlock free: the lock is free, the first sleeper is woken, and nothing else changes. */
  lemma {:induction false} ReleaseWakes(s: State, t: nat)
    requires t in s.at && s.at[t] == Critical && s.lk == -1 && Queued(s.lockers, s.at, AAsleep)
    ensures Run(s, Own(t, Release, 5)) == LockerWoken(s.(holder := -1, at := s.at[t := Outside]))
  {
    FirstSleeps(s.lockers, s.at, AAsleep, t);
    OwnTurns(s, t, Release, 5);
    SevenTurns(s, t, Release);
    hide Run, Own, After, Queued;
  }

  /** `cv_wait` with both spinlocks free: the lock is released as above and the thread sleeps behind the other waiters. */
  lemma {:induction false} WaitSleeps(s: State, t: nat)
    requires t in s.at && s.at[t] == Critical && s.lk == -1 && s.ck == -1 && Queued(s.lockers, s.at, AAsleep)
    ensures Run(s, Own(t, Wait, 7)) == LockerWoken(s.(holder := -1, waiters := s.waiters + [t], at := s.at[t := CAsleep]))
  {
    FirstSleeps(s.lockers, s.at, AAsleep, t);
    OwnTurns(s, t, Wait, 7);
    SevenTurns(s, t, Wait);
    hide Run, Own, After, Queued;
  }

  /** A woken waiter with the spinlocks and the lock free takes the lock and returns from `cv_wait`. */
  lemma {:induction false} WaitReturns(s: State, t: nat, call: Call)
    requires t in s.at && s.at[t] == CWoken && s.lk == -1 && s.ck == -1 && s.holder == -1
    ensures Run(s, Own(t, call, 6)) == s.(holder := t, at := s.at[t := Critical])
  {
    OwnTurns(s, t, call, 6);
    SevenTurns(s, t, call);
    hide Run, Own, After;
  }

  /** `cv_signal` with the spinlock free: the first waiter is woken, and nothing else changes. */
  lemma {:induction false} SignalWakes(s: State, t: nat)
    requires t in s.at && (s.at[t] == Outside || s.at[t] == Critical) && s.ck == -1 && Queued(s.waiters, s.at, CAsleep)
    ensures Run(s, Own(t, Signal, 4)) == WaiterWoken(s)
  {
    FirstSleeps(s.waiters, s.at, CAsleep, t);
    Notifies(s, t, false);
    hide Run, Own, Queued;
    var s2 := s.(ck := t, at := s.at[t := SWake(false, s.at[t].Critical?)]);
    assert Step(s2, Turn(t, Signal)).at[t := s.at[t]] == WaiterWoken(s).at;
  }

  /** `cv_broadcast` with the spinlock free: every waiter is woken, and nothing else changes. */
  lemma {:induction false} BroadcastWakes(s: State, t: nat)
    requires t in s.at && (s.at[t] == Outside || s.at[t] == Critical) && s.ck == -1 && Queued(s.waiters, s.at, CAsleep)
    ensures Run(s, Own(t, Broadcast, 4)) == s.(waiters := [], at := Roused(s.at, s.waiters, CWoken))
  {
    assert t !in s.waiters;
    Notifies(s, t, true);
    RousedMeets(s.at, s.waiters, CWoken, t, SWake(true, s.at[t].Critical?));
    hide Run, Own, Queued, Roused;
    var at: map<nat, Place> := Roused(s.at[t := SWake(true, s.at[t].Critical?)], s.waiters, CWoken);
    assert at[t := SDone(s.at[t].Critical?)][t := s.at[t]] == at[t := s.at[t]];
  }

  /** Both come down to what they do while they hold the spinlock. */
  lemma {:induction false} Notifies(s: State, t: nat, all: bool)
    requires t in s.at && (s.at[t] == Outside || s.at[t] == Critical) && s.ck == -1 && t !in s.waiters
    ensures var turn := Turn(t, if all then Broadcast else Signal);
      var s3 := Step(s.(ck := t, at := s.at[t := SWake(all, s.at[t].Critical?)]), turn);
      && Run(s, Own(t, turn.call, 4)) == s3.(ck := -1, at := s3.at[t := s.at[t]])
  {
    var turn, crit := Turn(t, if all then Broadcast else Signal), s.at[t].Critical?;
    var s2 := s.(ck := t, at := s.at[t := SWake(all, crit)]);
    NotifyEnters(s, t, all);
    NotifyLeaves(s2, turn);
    OwnTurns(s, t, turn.call, 4);
    SevenTurns(s, t, turn.call);
    hide Run, Own, After, Step;
  }

  lemma {:induction false} NotifyEnters(s: State, t: nat, all: bool)
    requires t in s.at && (s.at[t] == Outside || s.at[t] == Critical) && s.ck == -1
    ensures var turn := Turn(t, if all then Broadcast else Signal);
      Step(Step(s, turn), turn) == s.(ck := t, at := s.at[t := SWake(all, s.at[t].Critical?)])
  {
    var turn, crit := Turn(t, if all then Broadcast else Signal), s.at[t].Critical?;
    assert Step(s, turn) == s.(at := s.at[t := SWant(all, crit)]);
    assert s.at[t := SWant(all, crit)][t := SWake(all, crit)] == s.at[t := SWake(all, crit)];
  }

  lemma {:induction false} NotifyLeaves(s: State, turn: Turn)
    requires turn.thread in s.at && s.at[turn.thread].SWake?
    ensures var s' := Step(s, turn);
      Step(s', turn) == s'.(ck := -1, at := s'.at[turn.thread := if s.at[turn.thread].crit then Critical else Outside])
  {
    hide Roused;
    assert Step(s, turn).at[turn.thread] == SDone(s.at[turn.thread].crit);
  }

  /** Moving a thread that does not sleep and waking the sleepers can be done in either order. */
  lemma {:induction false} RousedMeets(at: map<nat, Place>, channel: seq<nat>, p: Place, t: nat, q: Place)
    requires t in at
    ensures t !in channel ==> Roused(at[t := q], channel, p)[t := at[t]] == Roused(at, channel, p)
  {
  }

  // ----- spinlocks

  /** The two spinlocks. */
  datatype Spinlock = OfTheLock | OfTheCv

  function HolderOf(s: State, l: Spinlock): int {
    if l.OfTheLock? then s.lk else s.ck
  }

  /** How many steps the holder of a spinlock needs at most to release it. */
  function ToRelease(p: Place, l: Spinlock): nat {
    match p
    case ATest(_) => 3
    case ATake(_) => 2
    case ADone => 1
    case RWant(cv) => if l.OfTheCv? && cv then 5 else 0
    case RClear(cv) => if l.OfTheLock? then 3 else if cv then 4 else 0
    case RWake(cv) => if l.OfTheLock? then 2 else if cv then 3 else 0
    case RDone(cv) => if l.OfTheLock? then 1 else if cv then 2 else 0
    case CSleep => 1
    case CBack => 1
    case SWake(_, _) => 2
    case SDone(_) => 1
    case _ => 0
  }

  /** A turn in which a thread does not just spin. */
  predicate Acts(s: State, t: nat) {
    t in s.at && !(s.at[t].RWant? && s.lk != -1)
  }

  /** How many turns of a run are a given thread's in which it does not spin for the lock's spinlock. */
  ghost function ActsOf(s: State, turns: seq<Turn>, t: int): nat
    decreases |turns|
  {
    if turns == [] then 0 else
    var last := |turns| - 1;
    ActsOf(s, turns[..last], t) + if turns[last].thread == t && Acts(Run(s, turns[..last]), turns[last].thread) then 1 else 0
  }

  ghost predicate WasFree(s: State, turns: seq<Turn>, l: Spinlock) {
    exists k: nat :: k <= |turns| && HolderOf(Run(s, turns[..k]), l) == -1
  }

  lemma {:induction false} HolderIs(s: State, l: Spinlock)
    requires Invariant(s) && HolderOf(s, l) != -1
    ensures var h := HolderOf(s, l); h in s.at && (if l.OfTheLock? then HoldsLk(s.at[h]) else HoldsCk(s.at[h])) && ToRelease(s.at[h], l) > 0
  {
    var h := HolderOf(s, l);
    assert h in s.at;
    assert if l.OfTheLock? then HoldsLk(s.at[h]) else HoldsCk(s.at[h]);
    hide Owner, Queued, Contended;
  }

  /** A thread that acts gets closer to releasing what it holds, and no other thread's turn moves it. */
  lemma {:induction false} HolderMoves(s: State, turn: Turn, l: Spinlock)
    requires Invariant(s) && HolderOf(s, l) != -1
    ensures var s', h := Step(s, turn), HolderOf(s, l);
      || HolderOf(s', l) == -1
      || (HolderOf(s', l) == h && h in s.at && h in s'.at
          && ToRelease(s'.at[h], l) + (if turn.thread == h && Acts(s, turn.thread) then 1 else 0) <= ToRelease(s.at[h], l))
  {
    HolderIs(s, l);
    var h: nat, t := HolderOf(s, l), turn.thread;
    if t in s.at && t != h {
      NotHolding(s, l, t);
      hide Owner, Queued, Contended, Roused, ToRelease, Acts;
      Others(s, turn, h);
      NotMine(s, turn, l);
    } else if t == h {
      HolderActs(s, turn, l);
    }
  }

  lemma {:induction false} NotMine(s: State, turn: Turn, l: Spinlock)
    requires turn.thread in s.at && HolderOf(s, l) != -1
    requires !(if l.OfTheLock? then HoldsLk(s.at[turn.thread]) else HoldsCk(s.at[turn.thread]))
    ensures HolderOf(Step(s, turn), l) == HolderOf(s, l)
  {
    hide Roused;
  }

  lemma {:induction false} HolderActs(s: State, turn: Turn, l: Spinlock)
    requires turn.thread in s.at && HolderOf(s, l) == turn.thread
    requires if l.OfTheLock? then HoldsLk(s.at[turn.thread]) else HoldsCk(s.at[turn.thread])
    ensures var s', h := Step(s, turn), turn.thread;
      || HolderOf(s', l) == -1
      || (HolderOf(s', l) == h && h in s'.at && ToRelease(s'.at[h], l) + (if Acts(s, h) then 1 else 0) <= ToRelease(s.at[h], l))
  {
    hide Roused;
  }

  lemma {:induction false} NotHolding(s: State, l: Spinlock, t: nat)
    requires Invariant(s) && t in s.at && HolderOf(s, l) != t
    ensures !(if l.OfTheLock? then HoldsLk(s.at[t]) else HoldsCk(s.at[t]))
  {
  }

  lemma {:induction false} HolderGetsOn(s: State, turns: seq<Turn>, l: Spinlock)
    requires Invariant(s) && HolderOf(s, l) != -1
    ensures var s', h := Run(s, turns), HolderOf(s, l);
      || WasFree(s, turns, l)
      || (HolderOf(s', l) == h && h in s.at && h in s'.at && ToRelease(s'.at[h], l) + ActsOf(s, turns, h) <= ToRelease(s.at[h], l))
    decreases |turns|
  {
    HolderIs(s, l);
    hide Step, ToRelease, Invariant;
    if turns != [] {
      var last := |turns| - 1;
      HolderGetsOn(s, turns[..last], l);
      RunInvariant(s, turns[..last]);
      if WasFree(s, turns[..last], l) {
        var k: nat :| k <= last && HolderOf(Run(s, turns[..last][..k]), l) == -1;
        assert turns[..last][..k] == turns[..k];
      } else {
        NotYet(s, turns[..last], l);
        HolderMoves(Run(s, turns[..last]), turns[last], l);
        assert turns[..|turns|] == turns;
      }
    }
  }

  lemma {:induction false} NotYet(s: State, turns: seq<Turn>, l: Spinlock)
    requires !WasFree(s, turns, l)
    ensures HolderOf(Run(s, turns), l) != -1
  {
    assert turns[..|turns|] == turns;
  }

  /**
   * Once the holder of a spinlock has acted often enough, whatever else ran in between, the spinlock has been free: three
   * times for the lock's spinlock, five for the condition variable's.
   */
  lemma {:induction false} SpinlockIsFreed(threads: set<nat>, before: seq<Turn>, turns: seq<Turn>, l: Spinlock)
    ensures var s := Run(Start(threads), before);
      HolderOf(s, l) != -1 && ActsOf(s, turns, HolderOf(s, l)) >= (if l.OfTheLock? then 3 else 5) ==> WasFree(s, turns, l)
  {
    StartInvariant(threads);
    RunInvariant(Start(threads), before);
    var s := Run(Start(threads), before);
    var h := HolderOf(s, l);
    if h != -1 && ActsOf(s, turns, h) >= (if l.OfTheLock? then 3 else 5) {
      HolderIs(s, l);
      HolderGetsOn(s, turns, l);
      RunInvariant(s, turns);
      if !WasFree(s, turns, l) {
        NotYet(s, turns, l);
        HolderIs(Run(s, turns), l);
      }
    }
  }

  // ----- without counting spins

  /** The holder of the lock's spinlock always acts. */
  lemma {:induction false} LockHolderActs(s: State)
    requires Invariant(s) && s.lk != -1
    ensures s.lk >= 0 && Acts(s, s.lk)
  {
    HolderIs(s, OfTheLock);
  }

  ghost function TurnsOf(turns: seq<Turn>, t: int): nat
    decreases |turns|
  {
    if turns == [] then 0 else TurnsOf(turns[..|turns| - 1], t) + if turns[|turns| - 1].thread == t then 1 else 0
  }

  lemma {:induction false} EveryTurnActs(s: State, turns: seq<Turn>)
    requires Invariant(s) && s.lk != -1
    ensures WasFree(s, turns, OfTheLock) || ActsOf(s, turns, s.lk) == TurnsOf(turns, s.lk)
    decreases |turns|
  {
    hide Step, Acts, Invariant;
    if turns != [] {
      var last := |turns| - 1;
      EveryTurnActs(s, turns[..last]);
      RunInvariant(s, turns[..last]);
      if WasFree(s, turns[..last], OfTheLock) {
        FreeEarlier(s, turns, OfTheLock);
      } else {
        NotYet(s, turns[..last], OfTheLock);
        HolderGetsOn(s, turns[..last], OfTheLock);
        LockHolderActs(Run(s, turns[..last]));
      }
    }
  }

  lemma {:induction false} FreeEarlier(s: State, turns: seq<Turn>, l: Spinlock)
    requires turns != [] && WasFree(s, turns[..|turns| - 1], l)
    ensures WasFree(s, turns, l)
  {
    var first := turns[..|turns| - 1];
    var k: nat :| k <= |first| && HolderOf(Run(s, first[..k]), l) == -1;
    assert first[..k] == turns[..k];
  }

  /** So three turns of the holder are enough for the lock's spinlock, whatever else runs in between. */
  lemma {:induction false} LockSpinlockIsFreed(threads: set<nat>, before: seq<Turn>, turns: seq<Turn>)
    ensures var s := Run(Start(threads), before); s.lk != -1 && TurnsOf(turns, s.lk) >= 3 ==> WasFree(s, turns, OfTheLock)
  {
    StartInvariant(threads);
    RunInvariant(Start(threads), before);
    var s := Run(Start(threads), before);
    if s.lk != -1 && TurnsOf(turns, s.lk) >= 3 {
      EveryTurnActs(s, turns);
      SpinlockIsFreed(threads, before, turns, OfTheLock);
    }
  }

  lemma {:induction false} RunConcat(s: State, a: seq<Turn>, b: seq<Turn>)
    ensures Run(s, a + b) == Run(Run(s, a), b)
    decreases |b|
  {
    hide Step;
    if b == [] {
      assert a + b == a;
    } else {
      var last := |b| - 1;
      assert (a + b)[..|a + b| - 1] == a + b[..last];
      RunConcat(s, a, b[..last]);
    }
  }

  /** On its own, a thread that holds the condition variable's spinlock does not spin unless another has the lock's. */
  lemma {:induction false} AloneActs(s: State, h: nat, call: Call, n: nat)
    requires Invariant(s) && s.ck == h && (s.lk == -1 || s.lk == h)
    ensures var turns := Own(h, call, n);
      WasFree(s, turns, OfTheCv) || (ActsOf(s, turns, h) == n && (Run(s, turns).lk == -1 || Run(s, turns).lk == h))
    decreases n
  {
    hide Step, Invariant;
    var turns := Own(h, call, n);
    if n > 0 {
      assert turns[..n - 1] == Own(h, call, n - 1);
      AloneActs(s, h, call, n - 1);
      RunInvariant(s, turns[..n - 1]);
      if WasFree(s, turns[..n - 1], OfTheCv) {
        FreeEarlier(s, turns, OfTheCv);
      } else {
        HolderGetsOn(s, turns[..n - 1], OfTheCv);
        AloneStep(Run(s, turns[..n - 1]), h, call);
      }
    }
  }

  lemma {:induction false} AloneStep(s: State, h: nat, call: Call)
    requires Invariant(s) && s.ck == h && (s.lk == -1 || s.lk == h)
    ensures Acts(s, h)
    ensures var s' := Step(s, Turn(h, call)); s'.lk == -1 || s'.lk == h
  {
    HolderIs(s, OfTheCv);
    if s.lk == h {
      HolderIs(s, OfTheLock);
    }
    hide Owner, Queued, Contended, Roused;
  }

  /** From every reachable state at most eight turns, of the two spinlocks' holders alone, free the condition variable's. */
  lemma {:induction false} CvSpinlockCanBeFreed(threads: set<nat>, before: seq<Turn>) returns (turns: seq<Turn>)
    ensures var s := Run(Start(threads), before);
      s.ck != -1 ==>
        && |turns| <= 8 && WasFree(s, turns, OfTheCv)
        && forall i :: 0 <= i < |turns| ==> turns[i].thread == s.lk || turns[i].thread == s.ck
  {
    StartInvariant(threads);
    RunInvariant(Start(threads), before);
    var s := Run(Start(threads), before);
    turns := [];
    if s.ck != -1 {
      HolderIs(s, OfTheCv);
      if s.lk == -1 || s.lk == s.ck {
        turns := Own(s.ck, Signal, 5);
        FiveAlone(s);
      } else {
        HolderIs(s, OfTheLock);
        var first := Own(s.lk, Signal, 3);
        ThreeAlone(s);
        var k: nat :| k <= 3 && HolderOf(Run(s, first[..k]), OfTheLock) == -1;
        var s1 := Run(s, first[..k]);
        RunInvariant(s, first[..k]);
        HolderGetsOn(s, first[..k], OfTheCv);
        turns := first[..k] + Own(s.ck, Signal, 5);
        if WasFree(s, first[..k], OfTheCv) {
          FreeInFront(s, first[..k], Own(s.ck, Signal, 5));
        } else {
          FiveAlone(s1);
          FreeBehind(s, first[..k], Own(s.ck, Signal, 5));
        }
      }
    }
  }

  lemma {:induction false} FreeInFront(s: State, a: seq<Turn>, b: seq<Turn>)
    requires WasFree(s, a, OfTheCv)
    ensures WasFree(s, a + b, OfTheCv)
  {
    var k: nat :| k <= |a| && HolderOf(Run(s, a[..k]), OfTheCv) == -1;
    assert (a + b)[..k] == a[..k];
  }

  lemma {:induction false} FreeBehind(s: State, a: seq<Turn>, b: seq<Turn>)
    requires WasFree(Run(s, a), b, OfTheCv)
    ensures WasFree(s, a + b, OfTheCv)
  {
    var k: nat :| k <= |b| && HolderOf(Run(Run(s, a), b[..k]), OfTheCv) == -1;
    assert (a + b)[..|a| + k] == a + b[..k];
    RunConcat(s, a, b[..k]);
  }

  lemma {:induction false} FiveAlone(s: State)
    requires Invariant(s) && s.ck >= 0 && (s.lk == -1 || s.lk == s.ck)
    ensures WasFree(s, Own(s.ck, Signal, 5), OfTheCv)
  {
    var turns := Own(s.ck, Signal, 5);
    AloneActs(s, s.ck, Signal, 5);
    HolderIs(s, OfTheCv);
    if !WasFree(s, turns, OfTheCv) {
      HolderGetsOn(s, turns, OfTheCv);
      RunInvariant(s, turns);
      HolderIs(Run(s, turns), OfTheCv);
    }
  }

  lemma {:induction false} ThreeAlone(s: State)
    requires Invariant(s) && s.lk >= 0
    ensures WasFree(s, Own(s.lk, Signal, 3), OfTheLock)
  {
    var turns := Own(s.lk, Signal, 3);
    HolderIs(s, OfTheLock);
    EveryTurnActs(s, turns);
    OwnCount(s.lk, Signal, 3);
    if !WasFree(s, turns, OfTheLock) {
      HolderGetsOn(s, turns, OfTheLock);
      RunInvariant(s, turns);
      HolderIs(Run(s, turns), OfTheLock);
    }
  }

  lemma {:induction false} OwnCount(t: nat, call: Call, n: nat)
    ensures TurnsOf(Own(t, call, n), t) == n
    decreases n
  {
    if n > 0 {
      OwnCount(t, call, n - 1);
      assert Own(t, call, n)[..n - 1] == Own(t, call, n - 1);
    }
  }
}
