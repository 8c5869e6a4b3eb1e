/**
 * Semaphores as a state machine: threads in `P` and `V`, the semaphore's spinlock and its wait channel, interleaved
 * at every point where another processor can get in between.
 */
module Semaphore {
  import opened WaitChannel

  /**
   * Where a thread is.  `woken` tells the tests made after a wakeup from a first one.
   * PWant and VWant spin for the spinlock; PTest, PTake, PDone, VCount, VWake and VDone hold it.
   */
  datatype Place =
    | Outside
    | PWant(woken: bool) | PTest(woken: bool) | PTake(woken: bool) | PDone | PAsleep
    | VWant | VCount | VWake | VDone

  datatype Call = CallP | CallV

  /** `lock` is the holder of the spinlock, or -1.  `ups` and `downs` count the changes of `count` in V and in P. */
  datatype State = State(count: nat, lock: int, channel: seq<nat>, at: map<nat, Place>, ups: nat, downs: nat)

  /** A thread's turn; the call matters only when the thread is outside. */
  datatype Turn = Turn(thread: nat, call: Call)

  function Start(initial: nat, threads: set<nat>): State {
    State(initial, -1, [], map t | t in threads :: Outside, 0, 0)
  }

  /** One step of a thread: a spinning thread, an absent one and a sleeping one change nothing. */
  function Step(s: State, turn: Turn): State {
    var t := turn.thread;
    if t !in s.at then s else
    match s.at[t]
    case Outside => s.(at := s.at[t := if turn.call.CallP? then PWant(false) else VWant])
    case PWant(w) => if s.lock != -1 then s else s.(lock := t, at := s.at[t := PTest(w)])
    case PTest(w) =>
      // wchan_sleep puts the thread on the channel before the spinlock is released
      if s.count == 0 then s.(lock := -1, channel := s.channel + [t], at := s.at[t := PAsleep])
      else s.(at := s.at[t := PTake(w)])
    case PTake(_) => if s.count == 0 then s else s.(count := s.count - 1, downs := s.downs + 1, at := s.at[t := PDone])
    case PDone => s.(lock := -1, at := s.at[t := Outside])
    case PAsleep => s
    case VWant => if s.lock != -1 then s else s.(lock := t, at := s.at[t := VCount])
    case VCount => s.(count := s.count + 1, ups := s.ups + 1, at := s.at[t := VWake])
    case VWake =>
      // wchan_wakeone takes the first sleeper
      if s.channel == [] then s.(at := s.at[t := VDone])
      else s.(channel := s.channel[1..], at := s.at[s.channel[0] := PWant(true)][t := VDone])
    case VDone => s.(lock := -1, at := s.at[t := Outside])
  }

  function Run(s: State, turns: seq<Turn>): State
    decreases |turns|
  {
    if turns == [] then s else Step(Run(s, turns[..|turns| - 1]), turns[|turns| - 1])
  }

  predicate HoldsSpinlock(p: Place) {
    p.PTest? || p.PTake? || p.PDone? || p.VCount? || p.VWake? || p.VDone?
  }

  /** A thread that has been woken and not yet found out what for, or that is about to wake one. */
  predicate OnTheWay(p: Place) {
    p == PWant(true) || p == PTest(true) || p == PTake(true) || p == VWake
  }

  ghost predicate Exclusive(s: State) {
    && (s.lock == -1 || s.lock in s.at)
    && forall t :: t in s.at ==> (HoldsSpinlock(s.at[t]) <==> s.lock == t)
  }

  ghost predicate Invariant(s: State, initial: nat) {
    && Exclusive(s)
    && Queued(s.channel, s.at, PAsleep)
    && (forall t :: t in s.at && s.at[t].PTake? ==> s.count > 0)
    && s.count + s.downs == initial + s.ups
    && (s.channel != [] ==> s.count <= |Doing(s.at, OnTheWay)|)
  }

  lemma {:induction false} StartInvariant(initial: nat, threads: set<nat>)
    ensures Invariant(Start(initial, threads), initial)
  {
  }

  lemma {:induction false} KeepsExclusive(s: State, turn: Turn)
    requires Exclusive(s) && Queued(s.channel, s.at, PAsleep)
    ensures Exclusive(Step(s, turn))
  {
    if s.channel != [] {
      WakeOne(s.channel, s.at, PAsleep, PWant(true));
    }
    hide Queued;
  }

  lemma {:induction false} KeepsQueued(s: State, turn: Turn)
    requires Queued(s.channel, s.at, PAsleep)
    ensures var s' := Step(s, turn); Queued(s'.channel, s'.at, PAsleep)
  {
    hide Queued;
    var s' := Step(s, turn);
    var t := turn.thread;
    if t in s.at {
      if s'.channel == s.channel {
        if s.at[t] != PAsleep {
          Elsewhere(s.channel, s.at, PAsleep, t, s'.at[t]);
          assert s'.at == s.at[t := s'.at[t]];
        }
      } else if s.at[t].PTest? {
        Sleep(s.channel, s.at, PAsleep, t);
      } else {
        WakeOne(s.channel, s.at, PAsleep, PWant(true));
        Elsewhere(s.channel[1..], s.at[s.channel[0] := PWant(true)], PAsleep, t, VDone);
      }
    }
  }

  lemma {:induction false} KeepsBound(s: State, turn: Turn, initial: nat)
    requires Invariant(s, initial)
    ensures var s' := Step(s, turn); s'.channel != [] ==> s'.count <= |Doing(s'.at, OnTheWay)|
  {
    hide Queued, Exclusive, Doing;
    var s', t := Step(s, turn), turn.thread;
    if t in s.at && s' != s {
      if s.at[t] == VWake && s.channel != [] {
        var u := s.channel[0];
        WakeOne(s.channel, s.at, PAsleep, PWant(true));
        DoingMoved(s.at, OnTheWay, u, PWant(true));
        DoingMoved(s.at[u := PWant(true)], OnTheWay, t, VDone);
      } else {
        assert s'.at == s.at[t := s'.at[t]];
        DoingMoved(s.at, OnTheWay, t, s'.at[t]);
      }
    }
  }

  lemma {:induction false} StepInvariant(s: State, turn: Turn, initial: nat)
    requires Invariant(s, initial)
    ensures Invariant(Step(s, turn), initial)
  {
    hide Queued, Exclusive, Doing;
    KeepsExclusive(s, turn);
    KeepsQueued(s, turn);
    KeepsBound(s, turn, initial);
    KeepsTake(s, turn, initial);
  }

  /** `P` decrements a count that is still positive: nobody gets in between the test and the decrement. */
  lemma {:induction false} KeepsTake(s: State, turn: Turn, initial: nat)
    requires Invariant(s, initial)
    ensures var s' := Step(s, turn); forall t :: t in s'.at && s'.at[t].PTake? ==> s'.count > 0
  {
    var s' := Step(s, turn);
    var t := turn.thread;
    if t in s.at && s.at[t].PTake? {
      assert s.lock == t;
      assert forall u :: u in s.at && u != t ==> !HoldsSpinlock(s.at[u]);
    }
  }

  /** Over every interleaving. */
  lemma {:induction false} RunInvariant(initial: nat, threads: set<nat>, turns: seq<Turn>)
    ensures Invariant(Run(Start(initial, threads), turns), initial)
    decreases |turns|
  {
    if turns == [] {
      StartInvariant(initial, threads);
    } else {
      var last := |turns| - 1;
      RunInvariant(initial, threads, turns[..last]);
      StepInvariant(Run(Start(initial, threads), turns[..last]), turns[last], initial);
    }
  }

  /** The threads that were woken and have not rechecked the count. */
  ghost function Woken(s: State): set<nat> {
    set t | t in s.at && s.at[t] == PWant(true)
  }

  /**
   * No lost wakeup: whenever the spinlock is free, the count is what the completed Vs and Ps make it, and if a thread
   * sleeps on the channel there are at least as many woken threads that have not rechecked as there are units to take.
   */
  lemma {:induction false} NoLostWakeup(initial: nat, threads: set<nat>, turns: seq<Turn>)
    ensures var s := Run(Start(initial, threads), turns);
      && s.count == initial + s.ups - s.downs
      && (s.lock == -1 && s.channel != [] ==> s.count <= |Woken(s)|)
  {
    RunInvariant(initial, threads, turns);
    var s := Run(Start(initial, threads), turns);
    if s.lock == -1 {
      forall t | t in s.at
        ensures !HoldsSpinlock(s.at[t])
      {
        assert HoldsSpinlock(s.at[t]) <==> s.lock == t;
      }
      assert Doing(s.at, OnTheWay) == Woken(s);
    }
  }

  /** Once every thread is outside or asleep, a sleeper means that the count is 0. */
  lemma {:induction false} SleepersNeedUnits(initial: nat, threads: set<nat>, turns: seq<Turn>)
    ensures var s := Run(Start(initial, threads), turns);
      (forall t :: t in s.at ==> s.at[t] == Outside || s.at[t] == PAsleep) && s.channel != [] ==> s.count == 0
  {
    RunInvariant(initial, threads, turns);
    var s := Run(Start(initial, threads), turns);
    if forall t :: t in s.at ==> s.at[t] == Outside || s.at[t] == PAsleep {
      assert Doing(s.at, OnTheWay) == {};
    }
  }

  // ----- calls

  /** In `P` and not yet past the decrement. */
  predicate InP(p: Place) {
    p.PWant? || p.PTest? || p.PTake? || p.PAsleep?
  }

  /** In `V` and not yet past the increment. */
  predicate InV(p: Place) {
    p.VWant? || p.VCount?
  }

  /** A turn in which the thread makes a call. */
  predicate MakesCall(s: State, turn: Turn, call: Call) {
    turn.thread in s.at && s.at[turn.thread] == Outside && turn.call == call
  }

  /** How many calls a run makes. */
  ghost function Calls(s: State, turns: seq<Turn>, call: Call): nat
    decreases |turns|
  {
    if turns == [] then 0 else
    var last := |turns| - 1;
    Calls(s, turns[..last], call) + if MakesCall(Run(s, turns[..last]), turns[last], call) then 1 else 0
  }

  lemma {:induction false} StepAccounts(s: State, turn: Turn)
    requires Queued(s.channel, s.at, PAsleep) && forall t :: t in s.at && s.at[t].PTake? ==> s.count > 0
    ensures var s' := Step(s, turn);
      && s'.downs + |Doing(s'.at, InP)| == s.downs + |Doing(s.at, InP)| + (if MakesCall(s, turn, CallP) then 1 else 0)
      && s'.ups + |Doing(s'.at, InV)| == s.ups + |Doing(s.at, InV)| + (if MakesCall(s, turn, CallV) then 1 else 0)
  {
    hide Queued, Doing;
    var s', t := Step(s, turn), turn.thread;
    if t in s.at && s' != s {
      if s.at[t] == VWake && s.channel != [] {
        var u := s.channel[0];
        WakeOne(s.channel, s.at, PAsleep, PWant(true));
        DoingMoved(s.at, InP, u, PWant(true));
        DoingMoved(s.at[u := PWant(true)], InP, t, VDone);
        DoingMoved(s.at, InV, u, PWant(true));
        DoingMoved(s.at[u := PWant(true)], InV, t, VDone);
      } else {
        assert s'.at == s.at[t := s'.at[t]];
        DoingMoved(s.at, InP, t, s'.at[t]);
        DoingMoved(s.at, InV, t, s'.at[t]);
      }
    }
  }

  /** Over every interleaving each call of `P` takes one unit and each call of `V` adds one, once it gets there. */
  lemma {:induction false} CallsAccounted(initial: nat, threads: set<nat>, turns: seq<Turn>)
    ensures var start := Start(initial, threads);
      var s := Run(start, turns);
      && s.downs + |Doing(s.at, InP)| == Calls(start, turns, CallP)
      && s.ups + |Doing(s.at, InV)| == Calls(start, turns, CallV)
    decreases |turns|
  {
    var start := Start(initial, threads);
    if turns == [] {
      assert Doing(start.at, InP) == {} && Doing(start.at, InV) == {};
    } else {
      var last := |turns| - 1;
      CallsAccounted(initial, threads, turns[..last]);
      RunInvariant(initial, threads, turns[..last]);
      hide Exclusive, Queued, Doing, Step;
      StepAccounts(Run(start, turns[..last]), turns[last]);
    }
  }

  // ----- calls come to their end

  /** A thread's next `n` turns, with nothing in between. */
  function Own(t: nat, call: Call, n: nat): (turns: seq<Turn>)
    ensures |turns| == n
  {
    seq(n, _ => Turn(t, call))
  }

  lemma {:induction false} OwnStep(s: State, t: nat, call: Call, n: nat)
    requires n > 0
    ensures Run(s, Own(t, call, n)) == Step(Run(s, Own(t, call, n - 1)), Turn(t, call))
  {
    hide Step;
    assert Own(t, call, n)[..n - 1] == Own(t, call, n - 1);
  }

  /** The first turns of a thread one by one. */
  lemma {:induction false} FiveTurns(s: State, t: nat, call: Call)
    ensures var turn := Turn(t, call);
      var s1 := Step(s, turn);
      var s2 := Step(s1, turn);
      var s3 := Step(s2, turn);
      var s4 := Step(s3, turn);
      Run(s, Own(t, call, 3)) == s3 && Run(s, Own(t, call, 4)) == s4 && Run(s, Own(t, call, 5)) == Step(s4, turn)
  {
    hide Step;
    assert Own(t, call, 0) == [];
    OwnStep(s, t, call, 1);
    OwnStep(s, t, call, 2);
    OwnStep(s, t, call, 3);
    OwnStep(s, t, call, 4);
    OwnStep(s, t, call, 5);
  }

  /** `P` with the spinlock free and a unit there: five turns take the unit, and leave everything else as it was. */
  lemma {:induction false} PTakesUnit(s: State, t: nat)
    requires t in s.at && s.at[t] == Outside && s.lock == -1 && s.count > 0
    ensures Run(s, Own(t, CallP, 5)) == s.(count := s.count - 1, downs := s.downs + 1)
  {
    FiveTurns(s, t, CallP);
    hide Run, Own;
    assert s.at[t := Outside] == s.at;
  }

  /** `P` with the spinlock free and no unit there: the thread goes to sleep behind the others, without the spinlock. */
  lemma {:induction false} PSleeps(s: State, t: nat)
    requires t in s.at && s.at[t] == Outside && s.lock == -1 && s.count == 0
    ensures Run(s, Own(t, CallP, 3)) == s.(channel := s.channel + [t], at := s.at[t := PAsleep])
  {
    FiveTurns(s, t, CallP);
    hide Run, Own;
  }

  /** A woken thread that finds the spinlock free: it takes a unit and returns, or goes back to sleep. */
  lemma {:induction false} WokenTakesUnit(s: State, t: nat, call: Call)
    requires t in s.at && s.at[t] == PWant(true) && s.lock == -1
    ensures s.count > 0 ==> Run(s, Own(t, call, 4)) == s.(count := s.count - 1, downs := s.downs + 1, at := s.at[t := Outside])
    ensures s.count == 0 ==> Run(s, Own(t, call, 3)) == s.(channel := s.channel + [t], at := s.at[t := PAsleep])
  {
    FiveTurns(s, t, call);
    hide Run, Own;
  }

  /** `V` with the spinlock free: five turns add a unit, wake the first sleeper if there is one, and change nothing else. */
  lemma {:induction false} VAddsUnit(s: State, t: nat)
    requires t in s.at && s.at[t] == Outside && s.lock == -1 && Queued(s.channel, s.at, PAsleep)
    ensures Run(s, Own(t, CallV, 5)) ==
      if s.channel == [] then s.(count := s.count + 1, ups := s.ups + 1)
      else s.(count := s.count + 1, ups := s.ups + 1, channel := s.channel[1..], at := s.at[s.channel[0] := PWant(true)])
  {
    FiveTurns(s, t, CallV);
    if s.channel != [] {
      WakeOne(s.channel, s.at, PAsleep, PWant(true));
      assert s.at[s.channel[0] := PWant(true)][t := Outside] == s.at[s.channel[0] := PWant(true)];
    }
    hide Run, Own, Queued;
    assert s.at[t := Outside] == s.at;
  }

  /** How many turns of its own the holder of the spinlock needs at most to release it. */
  function ToRelease(p: Place): nat {
    if p.PTest? || p.VCount? then 3 else if p.PTake? || p.VWake? then 2 else if p.PDone? || p.VDone? then 1 else 0
  }

  /** How many turns of a run are a given thread's. */
  ghost function TurnsOf(turns: seq<Turn>, t: nat): nat
    decreases |turns|
  {
    if turns == [] then 0 else TurnsOf(turns[..|turns| - 1], t) + if turns[|turns| - 1].thread == t then 1 else 0
  }

  /** The spinlock was free at some point of the run. */
  ghost predicate WasFree(s: State, turns: seq<Turn>) {
    exists k: nat :: k <= |turns| && Run(s, turns[..k]).lock == -1
  }

  lemma {:induction false} HolderMoves(s: State, turn: Turn, initial: nat)
    requires Invariant(s, initial) && s.lock != -1
    ensures var s' := Step(s, turn);
      s'.lock == -1 || (s.lock in s.at && s.lock in s'.at && s'.lock == s.lock
                        && ToRelease(s'.at[s.lock]) + (if turn.thread == s.lock then 1 else 0) <= ToRelease(s.at[s.lock]))
  {
    var t := turn.thread;
    assert HoldsSpinlock(s.at[s.lock]);
    if s.channel != [] {
      WakeOne(s.channel, s.at, PAsleep, PWant(true));
    }
    hide Queued, Doing;
    if t in s.at && t != s.lock {
      assert !HoldsSpinlock(s.at[t]);
    }
  }

  lemma {:induction false} HolderGetsOn(s: State, turns: seq<Turn>, initial: nat)
    requires Invariant(s, initial) && s.lock != -1
    ensures var s' := Run(s, turns);
      || WasFree(s, turns)
      || (s'.lock == s.lock && s.lock in s.at && s.lock in s'.at && ToRelease(s'.at[s.lock]) + TurnsOf(turns, s.lock) <= ToRelease(s.at[s.lock]))
    decreases |turns|
  {
    hide Step, ToRelease;
    if turns == [] {
      assert HoldsSpinlock(s.at[s.lock]);
    } else {
      var last := |turns| - 1;
      HolderGetsOn(s, turns[..last], initial);
      InvariantOn(s, turns[..last], initial);
      hide Invariant;
      if WasFree(s, turns[..last]) {
        var k: nat :| k <= last && Run(s, turns[..last][..k]).lock == -1;
        assert turns[..last][..k] == turns[..k];
      } else {
        HolderMoves(Run(s, turns[..last]), turns[last], initial);
        assert turns[..|turns|] == turns;
      }
    }
  }

  lemma {:induction false} InvariantOn(s: State, turns: seq<Turn>, initial: nat)
    requires Invariant(s, initial)
    ensures Invariant(Run(s, turns), initial)
    decreases |turns|
  {
    hide Invariant, Step;
    if turns != [] {
      var last := |turns| - 1;
      InvariantOn(s, turns[..last], initial);
      StepInvariant(Run(s, turns[..last]), turns[last], initial);
    }
  }

  /**
   * The spinlock is never held for long: from any reachable state, once its holder has had three turns, whatever else ran
   * in between, the spinlock has been free.
   */
  lemma {:induction false} SpinlockIsFreed(initial: nat, threads: set<nat>, before: seq<Turn>, turns: seq<Turn>)
    ensures var s := Run(Start(initial, threads), before);
      s.lock >= 0 && TurnsOf(turns, s.lock) >= 3 ==> WasFree(s, turns)
  {
    RunInvariant(initial, threads, before);
    var s := Run(Start(initial, threads), before);
    if s.lock >= 0 && TurnsOf(turns, s.lock) >= 3 {
      HolderGetsOn(s, turns, initial);
      InvariantOn(s, turns, initial);
      var s' := Run(s, turns);
      assert s'.lock == s.lock && s.lock in s'.at ==> HoldsSpinlock(s'.at[s.lock]);
    }
  }

  // ----- first come, first served

  /** `w` was woken at some point of the run. */
  ghost predicate WasWoken(s: State, turns: seq<Turn>, w: nat) {
    exists k: nat :: k <= |turns| && WokenAt(Run(s, turns[..k]), w)
  }

  predicate WokenAt(s: State, w: nat) {
    w in s.at && s.at[w] == PWant(true)
  }

  /** Only a thread that sleeps first on the channel is woken, and only by a `V`. */
  lemma {:induction false} WokenFromSleep(s: State, turn: Turn, w: nat)
    requires Queued(s.channel, s.at, PAsleep) && w in s.at && !WokenAt(s, w) && WokenAt(Step(s, turn), w)
    ensures s.at[w] == PAsleep && s.channel != [] && s.channel[0] == w && Waking(s, turn.thread)
  {
    if s.channel != [] {
      WakeOne(s.channel, s.at, PAsleep, PWant(true));
    }
    hide Queued;
  }

  /** How many calls of `V` get to wake a thread in a run. */
  ghost function Wakeups(s: State, turns: seq<Turn>): nat
    decreases |turns|
  {
    if turns == [] then 0 else
    var last := |turns| - 1;
    Wakeups(s, turns[..last]) + if Waking(Run(s, turns[..last]), turns[last].thread) then 1 else 0
  }

  predicate Waking(s: State, t: nat) {
    t in s.at && s.at[t].VWake?
  }

  /** A step brings a sleeper forward when it is a wakeup, and never puts one in front of it. */
  lemma {:induction false} Forward(s: State, turn: Turn, w: nat, q: nat, initial: nat) returns (q': nat)
    requires Invariant(s, initial) && q < |s.channel| && s.channel[q] == w
    ensures var s' := Step(s, turn);
      WokenAt(s', w) || (q' < |s'.channel| && s'.channel[q'] == w && q' + (if Waking(s, turn.thread) then 1 else 0) <= q)
  {
    assert w in s.channel;
    WakeOne(s.channel, s.at, PAsleep, PWant(true));
    q' := if Waking(s, turn.thread) && q > 0 then q - 1 else q;
  }

  lemma {:induction false} PositionAfter(s: State, turns: seq<Turn>, w: nat, p: nat, initial: nat) returns (q: nat)
    requires Invariant(s, initial) && p < |s.channel| && s.channel[p] == w
    ensures var s' := Run(s, turns); WasWoken(s, turns, w) || (q < |s'.channel| && s'.channel[q] == w && q + Wakeups(s, turns) <= p)
    decreases |turns|
  {
    hide Invariant, Step;
    q := p;
    if turns != [] {
      var last := |turns| - 1;
      q := PositionAfter(s, turns[..last], w, p, initial);
      InvariantOn(s, turns[..last], initial);
      if WasWoken(s, turns[..last], w) {
        var k: nat :| k <= last && WokenAt(Run(s, turns[..last][..k]), w);
        assert turns[..last][..k] == turns[..k];
      } else {
        q := Forward(Run(s, turns[..last]), turns[last], w, q, initial);
        assert turns[..|turns|] == turns;
      }
    }
  }

  /** A sleeper with `p` others in front of it is woken by the next `p + 1` calls of `V`, whatever else runs. */
  lemma {:induction false} WokenInOrder(initial: nat, threads: set<nat>, before: seq<Turn>, turns: seq<Turn>, w: nat, p: nat)
    ensures var s := Run(Start(initial, threads), before);
      p < |s.channel| && s.channel[p] == w && Wakeups(s, turns) > p ==> WasWoken(s, turns, w)
  {
    RunInvariant(initial, threads, before);
    var s := Run(Start(initial, threads), before);
    if p < |s.channel| && s.channel[p] == w {
      var q := PositionAfter(s, turns, w, p, initial);
    }
  }
}
