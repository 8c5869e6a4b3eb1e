/**
 * A sleep lock and a condition variable used with it, as a state machine: the two spinlocks, the two wait channels and
 * threads in `lock_acquire`, `lock_release`, `cv_wait`, `cv_signal` and `cv_broadcast`, interleaved at every point.
 */
module LockCv {
  import opened WaitChannel

  /**
   * Where a thread is.  A... is `lock_acquire`, R... `lock_release` (`cv`: called from `cv_wait`), C... the rest of
   * `cv_wait`, S... `cv_signal` or `cv_broadcast` (`all`), called with the lock held or not (`crit`).
   * ...Want places spin for a spinlock.
   */
  datatype Place =
    | Outside | Critical
    | AWant(woken: bool) | ATest(woken: bool) | ATake(woken: bool) | ADone | AAsleep
    | RWant(cv: bool) | RClear(cv: bool) | RWake(cv: bool) | RDone(cv: bool)
    | CWant | CSleep | CAsleep | CWoken | CBack
    | SWant(all: bool, crit: bool) | SWake(all: bool, crit: bool) | SDone(crit: bool)

  datatype Call = Acquire | Release | Wait | Signal | Broadcast

  /** `holder`, `lk` and `ck` are the holders of the lock, its spinlock and the condition variable's, or -1. */
  datatype State = State(holder: int, lk: int, ck: int, lockers: seq<nat>, waiters: seq<nat>, at: map<nat, Place>)

  datatype Turn = Turn(thread: nat, call: Call)

  function Start(threads: set<nat>): State {
    State(-1, -1, -1, [], [], map t | t in threads :: Outside)
  }

  /** What a thread does next when it makes a call: a call that the code's assertions forbid is not made. */
  function Enter(p: Place, call: Call): Place {
    match call
    case Acquire => if p.Outside? then AWant(false) else p
    case Release => if p.Critical? then RWant(false) else p
    case Wait => if p.Critical? then CWant else p
    case Signal => if p.Outside? || p.Critical? then SWant(false, p.Critical?) else p
    case Broadcast => if p.Outside? || p.Critical? then SWant(true, p.Critical?) else p
  }

  function Step(s: State, turn: Turn): State {
    var t := turn.thread;
    if t !in s.at then s else
    match s.at[t]
    case Outside => s.(at := s.at[t := Enter(Outside, turn.call)])
    case Critical => s.(at := s.at[t := Enter(Critical, turn.call)])
    // lock_acquire
    case AWant(w) => if s.lk != -1 then s else s.(lk := t, at := s.at[t := ATest(w)])
    case ATest(w) =>
      if s.holder != -1 then s.(lk := -1, lockers := s.lockers + [t], at := s.at[t := AAsleep])
      else s.(at := s.at[t := ATake(w)])
    case ATake(_) => s.(holder := t, at := s.at[t := ADone])
    case ADone => s.(lk := -1, at := s.at[t := Critical])
    case AAsleep => s
    // lock_release
    case RWant(cv) => if s.lk != -1 then s else s.(lk := t, at := s.at[t := RClear(cv)])
    case RClear(cv) => s.(holder := -1, at := s.at[t := RWake(cv)])
    case RWake(cv) =>
      if s.lockers == [] then s.(at := s.at[t := RDone(cv)])
      else s.(lockers := s.lockers[1..], at := s.at[s.lockers[0] := AWant(true)][t := RDone(cv)])
    case RDone(cv) => s.(lk := -1, at := s.at[t := if cv then CSleep else Outside])
    // cv_wait: take the spinlock, release the lock, sleep, give the spinlock back, take the lock
    case CWant => if s.ck != -1 then s else s.(ck := t, at := s.at[t := RWant(true)])
    case CSleep => s.(ck := -1, waiters := s.waiters + [t], at := s.at[t := CAsleep])
    case CAsleep => s
    case CWoken => if s.ck != -1 then s else s.(ck := t, at := s.at[t := CBack])
    case CBack => s.(ck := -1, at := s.at[t := AWant(false)])
    // cv_signal and cv_broadcast
    case SWant(all, crit) => if s.ck != -1 then s else s.(ck := t, at := s.at[t := SWake(all, crit)])
    case SWake(all, crit) =>
      if all then s.(waiters := [], at := Roused(s.at, s.waiters, CWoken)[t := SDone(crit)])
      else if s.waiters == [] then s.(at := s.at[t := SDone(crit)])
      else s.(waiters := s.waiters[1..], at := s.at[s.waiters[0] := CWoken][t := SDone(crit)])
    case SDone(crit) => s.(ck := -1, at := s.at[t := if crit then Critical else Outside])
  }

  function Run(s: State, turns: seq<Turn>): State
    decreases |turns|
  {
    if turns == [] then s else Step(Run(s, turns[..|turns| - 1]), turns[|turns| - 1])
  }

  // ----- who holds what

  predicate HoldsLk(p: Place) {
    p.ATest? || p.ATake? || p.ADone? || p.RClear? || p.RWake? || p.RDone?
  }

  predicate HoldsCk(p: Place) {
    p == RWant(true) || p == RClear(true) || p == RWake(true) || p == RDone(true) || p.CSleep? || p.CBack? || p.SWake? || p.SDone?
  }

  predicate HasLock(p: Place) {
    p.ADone? || p.Critical? || p.RWant? || p.RClear? || p.CWant?
    || (p.SWant? && p.crit) || (p.SWake? && p.crit) || (p.SDone? && p.crit)
  }

  /** `h` is the one thread, or -1 for none, whose place satisfies `holds`. */
  ghost predicate Owner(at: map<nat, Place>, holds: Place -> bool, h: int) {
    (h == -1 || h in at) && forall t :: t in at ==> (holds(at[t]) <==> h == t)
  }

  /** A thread that was woken to take the lock, or is about to wake one. */
  predicate Contending(p: Place) {
    p == AWant(true) || p == ATest(true) || p == ATake(true) || p.RWake?
  }

  ghost predicate Contended(at: map<nat, Place>) {
    exists t :: t in at && Contending(at[t])
  }

  ghost predicate Invariant(s: State) {
    && Owner(s.at, HoldsLk, s.lk)
    && Owner(s.at, HoldsCk, s.ck)
    && Owner(s.at, HasLock, s.holder)
    && (s.lk in s.at && s.at[s.lk].ATake? ==> s.holder == -1)
    && Queued(s.lockers, s.at, AAsleep)
    && Queued(s.waiters, s.at, CAsleep)
    && (s.lockers != [] && s.holder == -1 ==> Contended(s.at))
  }

  lemma {:induction false} StartInvariant(threads: set<nat>)
    ensures Invariant(Start(threads))
  {
  }

  /** One thread moves, taking or dropping what `holds` is about. */
  lemma {:induction false} OwnerMove(at: map<nat, Place>, holds: Place -> bool, h: int, t: nat, p: Place)
    requires Owner(at, holds, h) && t in at
    requires holds(p) && !holds(at[t]) ==> h == -1
    ensures Owner(at[t := p], holds, if holds(p) then t else if holds(at[t]) then -1 else h)
    ensures holds(at[t]) <==> h == t
  {
  }

  lemma {:induction false} OwnerRoused(at: map<nat, Place>, holds: Place -> bool, h: int, channel: seq<nat>, asleep: Place, p: Place)
    requires Owner(at, holds, h) && Queued(channel, at, asleep) && !holds(asleep) && !holds(p)
    ensures Owner(Roused(at, channel, p), holds, h)
  {
  }

  lemma {:induction false} RousedElsewhere(at: map<nat, Place>, channel: seq<nat>, asleep: Place, p: Place, other: seq<nat>, place: Place)
    requires Queued(channel, at, asleep) && Queued(other, at, place) && asleep != place && p != place
    ensures Queued(other, Roused(at, channel, p), place)
  {
  }

  lemma {:induction false} ContendedMove(at: map<nat, Place>, t: nat, p: Place)
    ensures Contending(p) ==> Contended(at[t := p])
    ensures t in at && !Contending(at[t]) && Contended(at) ==> Contended(at[t := p])
  {
    if t in at && !Contending(at[t]) && Contended(at) {
      var u :| u in at && Contending(at[u]);
      assert at[t := p][u] == at[u];
    }
    assert at[t := p][t] == p;
  }

  lemma {:induction false} ContendedRoused(at: map<nat, Place>, channel: seq<nat>, asleep: Place, p: Place)
    requires Queued(channel, at, asleep) && !Contending(asleep) && Contended(at)
    ensures Contended(Roused(at, channel, p))
  {
    var u :| u in at && Contending(at[u]);
    assert Roused(at, channel, p)[u] == at[u];
  }

  /** All of it for a step in which only the thread itself moves, and sleeps nowhere before or after. */
  lemma {:induction false} KeepsAlone(s: State, turn: Turn)
    requires Invariant(s) && turn.thread in s.at
    requires var s' := Step(s, turn); s'.lockers == s.lockers && s'.waiters == s.waiters && s'.at == s.at[turn.thread := s'.at[turn.thread]]
    requires s.at[turn.thread] != AAsleep && s.at[turn.thread] != CAsleep
    ensures Invariant(Step(s, turn))
  {
    hide Owner, Queued, Contended;
    var s', t := Step(s, turn), turn.thread;
    var p := s'.at[t];
    OwnerMove(s.at, HoldsLk, s.lk, t, p);
    OwnerMove(s.at, HoldsCk, s.ck, t, p);
    OwnerMove(s.at, HasLock, s.holder, t, p);
    Elsewhere(s.lockers, s.at, AAsleep, t, p);
    Elsewhere(s.waiters, s.at, CAsleep, t, p);
    ContendedMove(s.at, t, p);
  }

  lemma {:induction false} KeepsSleep(s: State, turn: Turn)
    requires Invariant(s) && turn.thread in s.at
    requires (s.at[turn.thread].ATest? && s.holder != -1) || s.at[turn.thread].CSleep?
    ensures Invariant(Step(s, turn))
  {
    hide Owner, Queued, Contended;
    var s', t := Step(s, turn), turn.thread;
    var p := s'.at[t];
    OwnerMove(s.at, HoldsLk, s.lk, t, p);
    OwnerMove(s.at, HoldsCk, s.ck, t, p);
    OwnerMove(s.at, HasLock, s.holder, t, p);
    ContendedMove(s.at, t, p);
    if s.at[t].CSleep? {
      Sleep(s.waiters, s.at, CAsleep, t);
      Elsewhere(s.lockers, s.at, AAsleep, t, p);
    } else {
      Sleep(s.lockers, s.at, AAsleep, t);
      Elsewhere(s.waiters, s.at, CAsleep, t, p);
    }
  }

  /** Moving a sleeper `u` to the place where it has been woken. */
  lemma {:induction false} OwnerWoken(at: map<nat, Place>, lk: int, ck: int, holder: int, u: nat, p: Place)
    requires Owner(at, HoldsLk, lk) && Owner(at, HoldsCk, ck) && Owner(at, HasLock, holder)
    requires u in at && (at[u] == AAsleep || at[u] == CAsleep) && (p == AWant(true) || p == CWoken)
    ensures var at' := at[u := p]; Owner(at', HoldsLk, lk) && Owner(at', HoldsCk, ck) && Owner(at', HasLock, holder)
  {
    hide Owner;
    OwnerMove(at, HoldsLk, lk, u, p);
    OwnerMove(at, HoldsCk, ck, u, p);
    OwnerMove(at, HasLock, holder, u, p);
  }

  lemma {:induction false} KeepsRelease(s: State, turn: Turn)
    requires Invariant(s) && turn.thread in s.at && s.at[turn.thread].RWake? && s.lockers != []
    ensures Invariant(Step(s, turn))
  {
    hide Owner, Queued, Contended;
    var s', t := Step(s, turn), turn.thread;
    var p, u := s'.at[t], s.lockers[0];
    WakeOne(s.lockers, s.at, AAsleep, AWant(true));
    OwnerWoken(s.at, s.lk, s.ck, s.holder, u, AWant(true));
    var at1 := s.at[u := AWant(true)];
    OwnerMove(at1, HoldsLk, s.lk, t, p);
    OwnerMove(at1, HoldsCk, s.ck, t, p);
    OwnerMove(at1, HasLock, s.holder, t, p);
    Elsewhere(s.waiters, s.at, CAsleep, u, AWant(true));
    Elsewhere(s.waiters, at1, CAsleep, t, p);
    Elsewhere(s.lockers[1..], at1, AAsleep, t, p);
    assert s'.at[u] == AWant(true);
    StillContended(s'.at, u);
  }

  lemma {:induction false} StillContended(at: map<nat, Place>, u: nat)
    requires u in at && Contending(at[u])
    ensures Contended(at)
  {
  }

  lemma {:induction false} KeepsSignal(s: State, turn: Turn)
    requires Invariant(s) && turn.thread in s.at && s.at[turn.thread].SWake? && !s.at[turn.thread].all && s.waiters != []
    ensures Invariant(Step(s, turn))
  {
    hide Owner, Queued, Contended;
    var s', t := Step(s, turn), turn.thread;
    var p, u := s'.at[t], s.waiters[0];
    WakeOne(s.waiters, s.at, CAsleep, CWoken);
    OwnerWoken(s.at, s.lk, s.ck, s.holder, u, CWoken);
    var at1 := s.at[u := CWoken];
    OwnerMove(at1, HoldsLk, s.lk, t, p);
    OwnerMove(at1, HoldsCk, s.ck, t, p);
    OwnerMove(at1, HasLock, s.holder, t, p);
    Elsewhere(s.lockers, s.at, AAsleep, u, CWoken);
    Elsewhere(s.lockers, at1, AAsleep, t, p);
    Elsewhere(s.waiters[1..], at1, CAsleep, t, p);
    ContendedMove(s.at, u, CWoken);
    ContendedMove(at1, t, p);
  }

  lemma {:induction false} KeepsBroadcast(s: State, turn: Turn)
    requires Invariant(s) && turn.thread in s.at && s.at[turn.thread].SWake? && s.at[turn.thread].all
    ensures Invariant(Step(s, turn))
  {
    hide Owner, Queued, Contended, Roused;
    var s', t := Step(s, turn), turn.thread;
    var p := s'.at[t];
    var at1 := Roused(s.at, s.waiters, CWoken);
    RousedAt(s.at, s.waiters, CAsleep, CWoken, t);
    BroadcastOwners(s, t, p);
    OwnerIn(s.at, HoldsLk, s.lk);
    if s.lk != -1 {
      RousedAt(s.at, s.waiters, CAsleep, CWoken, s.lk);
    }
    RousedKeys(s.at, s.waiters, CWoken);
    WakeAll(s.waiters, s.at, CAsleep, CWoken);
    RousedElsewhere(s.at, s.waiters, CAsleep, CWoken, s.lockers, AAsleep);
    Elsewhere(s.lockers, at1, AAsleep, t, p);
    Elsewhere([], at1, CAsleep, t, p);
    if Contended(s.at) {
      ContendedRoused(s.at, s.waiters, CAsleep, CWoken);
    }
    ContendedMove(at1, t, p);
  }

  lemma {:induction false} RousedAt(at: map<nat, Place>, channel: seq<nat>, asleep: Place, p: Place, t: nat)
    requires Queued(channel, at, asleep) && t in at
    ensures t in Roused(at, channel, p) && Roused(at, channel, p)[t] == if at[t] == asleep then p else at[t]
  {
  }

  lemma {:induction false} RousedKeys(at: map<nat, Place>, channel: seq<nat>, p: Place)
    ensures Roused(at, channel, p).Keys == at.Keys
  {
  }

  lemma {:induction false} OwnerIn(at: map<nat, Place>, holds: Place -> bool, h: int)
    requires Owner(at, holds, h)
    ensures h == -1 || h in at
  {
  }

  lemma {:induction false} BroadcastOwners(s: State, t: nat, p: Place)
    requires Owner(s.at, HoldsLk, s.lk) && Owner(s.at, HoldsCk, s.ck) && Owner(s.at, HasLock, s.holder)
    requires Queued(s.waiters, s.at, CAsleep) && t in s.at && s.at[t].SWake? && p == SDone(s.at[t].crit)
    ensures var at' := Roused(s.at, s.waiters, CWoken)[t := p]; Owner(at', HoldsLk, s.lk) && Owner(at', HoldsCk, s.ck) && Owner(at', HasLock, s.holder)
  {
    hide Owner, Queued, Roused;
    var at1 := Roused(s.at, s.waiters, CWoken);
    RousedAt(s.at, s.waiters, CAsleep, CWoken, t);
    OwnerRoused(s.at, HoldsLk, s.lk, s.waiters, CAsleep, CWoken);
    OwnerMove(at1, HoldsLk, s.lk, t, p);
    OwnerRoused(s.at, HoldsCk, s.ck, s.waiters, CAsleep, CWoken);
    OwnerMove(at1, HoldsCk, s.ck, t, p);
    OwnerRoused(s.at, HasLock, s.holder, s.waiters, CAsleep, CWoken);
    OwnerMove(at1, HasLock, s.holder, t, p);
  }

  lemma {:induction false} StepInvariant(s: State, turn: Turn)
    requires Invariant(s)
    ensures Invariant(Step(s, turn))
  {
    hide Invariant, Roused;
    var s', t := Step(s, turn), turn.thread;
    if t in s.at && s.at[t] != AAsleep && s.at[t] != CAsleep {
      if (s.at[t].ATest? && s.holder != -1) || s.at[t].CSleep? {
        KeepsSleep(s, turn);
      } else if s.at[t].RWake? && s.lockers != [] {
        KeepsRelease(s, turn);
      } else if s.at[t].SWake? && s.at[t].all {
        KeepsBroadcast(s, turn);
      } else if s.at[t].SWake? && s.waiters != [] {
        KeepsSignal(s, turn);
      } else {
        assert s'.at == s.at[t := s'.at[t]];
        KeepsAlone(s, turn);
      }
    }
  }

  lemma {:induction false} RunInvariant(s: State, turns: seq<Turn>)
    requires Invariant(s)
    ensures Invariant(Run(s, turns))
    decreases |turns|
  {
    if turns != [] {
      var last := |turns| - 1;
      RunInvariant(s, turns[..last]);
      StepInvariant(Run(s, turns[..last]), turns[last]);
    }
  }

  // ----- what the lock promises

  /** At most one thread has the lock, over every interleaving. */
  lemma {:induction false} MutualExclusion(threads: set<nat>, turns: seq<Turn>, t: nat, u: nat)
    ensures var s := Run(Start(threads), turns); t in s.at && u in s.at && HasLock(s.at[t]) && HasLock(s.at[u]) ==> t == u
  {
    StartInvariant(threads);
    RunInvariant(Start(threads), turns);
  }

  /** A free lock with sleepers always has a thread that was woken for it, or one that is about to wake the next. */
  lemma {:induction false} FreeLockIsContended(threads: set<nat>, turns: seq<Turn>)
    ensures var s := Run(Start(threads), turns);
      s.holder == -1 && s.lockers != [] ==> exists t :: t in s.at && Contending(s.at[t])
  {
    StartInvariant(threads);
    RunInvariant(Start(threads), turns);
  }

  /** With the lock's spinlock free too, a woken thread is on its way to take it. */
  lemma {:induction false} FreeLockHasWoken(threads: set<nat>, turns: seq<Turn>)
    ensures var s := Run(Start(threads), turns);
      s.holder == -1 && s.lk == -1 && s.lockers != [] ==> exists t :: t in s.at && s.at[t] == AWant(true)
  {
    StartInvariant(threads);
    RunInvariant(Start(threads), turns);
    var s := Run(Start(threads), turns);
    if s.holder == -1 && s.lk == -1 && s.lockers != [] {
      var t :| t in s.at && Contending(s.at[t]);
      assert HoldsLk(s.at[t]) <==> s.lk == t;
    }
  }

  // ----- what the condition variable promises

  /** In `cv_wait`, after giving up the lock and before being woken. */
  predicate Waiting(p: Place) {
    p == RWake(true) || p == RDone(true) || p == CSleep || p == CAsleep
  }

  /** A signal or broadcast finds every waiter that has given up the lock on the channel. */
  lemma {:induction false} WaiterIsOnChannel(threads: set<nat>, turns: seq<Turn>, t: nat, w: nat)
    ensures var s := Run(Start(threads), turns);
      t in s.at && s.at[t].SWake? && w in s.at && Waiting(s.at[w]) ==> w in s.waiters
  {
    StartInvariant(threads);
    RunInvariant(Start(threads), turns);
    var s := Run(Start(threads), turns);
    if t in s.at && s.at[t].SWake? && w in s.at && Waiting(s.at[w]) {
      assert HoldsCk(s.at[t]) <==> s.ck == t;
      assert HoldsCk(s.at[w]) <==> s.ck == w;
    }
  }

  /** The places of the threads that a step is not a turn of. */
  lemma {:induction false} Others(s: State, turn: Turn, w: nat)
    requires Queued(s.lockers, s.at, AAsleep) && Queued(s.waiters, s.at, CAsleep) && w in s.at && w != turn.thread
    ensures var s', t := Step(s, turn), turn.thread;
      && w in s'.at
      && (s'.at[w] == s.at[w] || Wakes(s, t, w))
      && (t in s.at && s.at[t].SWake? && s.at[t].all && s.at[w] == CAsleep ==> s'.at[w] == CWoken)
      && (t in s.at && s.at[t].SWake? && s.waiters != [] && s.waiters[0] == w ==> s'.at[w] == CWoken)
      && (t in s.at && s.at[t].RWake? && s.lockers != [] && s.lockers[0] == w ==> s'.at[w] == AWant(true))
      && (s.at[w] == CAsleep && s'.at[w] != CAsleep ==> s'.at[w] == CWoken)
  {
    hide Queued, Roused;
    if s.lockers != [] {
      WakeOne(s.lockers, s.at, AAsleep, AWant(true));
    }
    if s.waiters != [] {
      WakeOne(s.waiters, s.at, CAsleep, CWoken);
    }
    RousedAt(s.at, s.waiters, CAsleep, CWoken, w);
    OnChannel(s.waiters, s.at, w);
  }

  lemma {:induction false} OnChannel(channel: seq<nat>, at: map<nat, Place>, w: nat)
    requires Queued(channel, at, CAsleep) && w in at
    ensures at[w] == CAsleep <==> w in channel
  {
  }

  /** Thread `t` wakes `w` with its next step. */
  ghost predicate Wakes(s: State, t: nat, w: nat) {
    t in s.at && w in s.at &&
    ((s.at[t].RWake? && s.at[w] == AAsleep && s.lockers != [] && s.lockers[0] == w)
     || (s.at[t].SWake? && s.at[w] == CAsleep && w in s.waiters && (s.at[t].all || s.waiters[0] == w)))
  }

  /** A waiter stays a waiter until a signal or a broadcast wakes it. */
  lemma {:induction false} WaiterIsWoken(s: State, turn: Turn, w: nat)
    requires Invariant(s) && w in s.at && Waiting(s.at[w])
    ensures var s' := Step(s, turn);
      w in s'.at && (Waiting(s'.at[w]) || (s'.at[w] == CWoken && turn.thread in s.at && s.at[turn.thread].SWake? && Wakes(s, turn.thread, w)))
  {
    hide Owner, Queued, Contended;
    if w != turn.thread {
      Others(s, turn, w);
    }
  }

  /** The two wait channels. */
  datatype Channel = OfLock | OfCv

  function Sleepers(s: State, c: Channel): seq<nat> {
    if c.OfLock? then s.lockers else s.waiters
  }

  /** Where a thread sleeps on a channel, and where it is when it has been woken. */
  function Asleep(c: Channel): Place {
    if c.OfLock? then AAsleep else CAsleep
  }

  function Woken(c: Channel): Place {
    if c.OfLock? then AWant(true) else CWoken
  }

  /** `w` was woken at some point of the run. */
  ghost predicate WasWoken(s: State, turns: seq<Turn>, w: nat, c: Channel) {
    exists k: nat :: k <= |turns| && WokenAt(Run(s, turns[..k]), w, c)
  }

  predicate WokenAt(s: State, w: nat, c: Channel) {
    w in s.at && s.at[w] == Woken(c)
  }

  lemma {:induction false} WokenEarlier(s: State, turns: seq<Turn>, w: nat, c: Channel)
    requires turns != [] && WasWoken(s, turns[..|turns| - 1], w, c)
    ensures WasWoken(s, turns, w, c)
  {
    var first := turns[..|turns| - 1];
    var k: nat :| k <= |first| && WokenAt(Run(s, first[..k]), w, c);
    assert first[..k] == turns[..k];
  }

  lemma {:induction false} WokenNow(s: State, turns: seq<Turn>, w: nat, c: Channel)
    requires WokenAt(Run(s, turns), w, c)
    ensures WasWoken(s, turns, w, c)
  {
    assert turns[..|turns|] == turns;
  }

  lemma {:induction false} WaitsOrWoken(s: State, turns: seq<Turn>, w: nat)
    requires Invariant(s) && w in s.at && Waiting(s.at[w])
    ensures var s' := Run(s, turns); (w in s'.at && Waiting(s'.at[w])) || WasWoken(s, turns, w, OfCv)
    decreases |turns|
  {
    hide Invariant, Step;
    if turns != [] {
      var last := |turns| - 1;
      WaitsOrWoken(s, turns[..last], w);
      RunInvariant(s, turns[..last]);
      if WasWoken(s, turns[..last], w, OfCv) {
        WokenEarlier(s, turns, w, OfCv);
      } else {
        WaiterIsWoken(Run(s, turns[..last]), turns[last], w);
        if WokenAt(Run(s, turns), w, OfCv) {
          WokenNow(s, turns, w, OfCv);
        }
      }
    }
  }

  /**
   * A thread that has given up the lock in `cv_wait` when the run reaches `s` has been woken by the time that any
   * later signal or broadcast wakes threads, or is on the channel then.  The broadcast wakes it.
   */
  lemma {:induction false} NoLostSignal(threads: set<nat>, before: seq<Turn>, turns: seq<Turn>, w: nat, t: nat)
    ensures var s := Run(Start(threads), before);
      var s' := Run(s, turns);
      w in s.at && Waiting(s.at[w]) && t in s'.at && s'.at[t].SWake? ==>
        || WasWoken(s, turns, w, OfCv)
        || (w in s'.waiters && (s'.at[t].all ==> WokenAt(Step(s', Turn(t, Signal)), w, OfCv)))
  {
    StartInvariant(threads);
    RunInvariant(Start(threads), before);
    var s := Run(Start(threads), before);
    var s' := Run(s, turns);
    RunInvariant(s, turns);
    if w in s.at && Waiting(s.at[w]) && t in s'.at && s'.at[t].SWake? {
      WaitsOrWoken(s, turns, w);
      if !WasWoken(s, turns, w, OfCv) {
        FoundOnChannel(s', t, w);
      }
    }
  }

  lemma {:induction false} FoundOnChannel(s: State, t: nat, w: nat)
    requires Invariant(s) && t in s.at && s.at[t].SWake? && w in s.at && Waiting(s.at[w])
    ensures w in s.waiters && (s.at[t].all ==> WokenAt(Step(s, Turn(t, Signal)), w, OfCv))
  {
    assert HoldsCk(s.at[t]) <==> s.ck == t;
    assert HoldsCk(s.at[w]) <==> s.ck == w;
    hide Owner, Queued;
    OnChannel(s.waiters, s.at, w);
    Others(s, Turn(t, Signal), w);
  }

  // ----- first come, first served

  /** How many times a run wakes threads on a channel: by releases, or by signals and broadcasts. */
  ghost function Wakeups(s: State, turns: seq<Turn>, c: Channel): nat
    decreases |turns|
  {
    if turns == [] then 0 else
    var last := |turns| - 1;
    Wakeups(s, turns[..last], c) + if Waking(Run(s, turns[..last]), turns[last].thread, c) then 1 else 0
  }

  predicate Waking(s: State, t: nat, c: Channel) {
    t in s.at && if c.OfLock? then s.at[t].RWake? else s.at[t].SWake?
  }

  /** A step brings a sleeper forward when it is a wakeup, and never puts one in front of it. */
  lemma {:induction false} Forward(s: State, turn: Turn, w: nat, q: nat, c: Channel) returns (q': nat)
    requires Invariant(s) && q < |Sleepers(s, c)| && Sleepers(s, c)[q] == w
    ensures var s' := Step(s, turn);
      || WokenAt(s', w, c)
      || (q' < |Sleepers(s', c)| && Sleepers(s', c)[q'] == w && q' + (if Waking(s, turn.thread, c) then 1 else 0) <= q)
  {
    assert w in Sleepers(s, c);
    SleepsThere(Sleepers(s, c), s.at, Asleep(c), w);
    hide Owner, Queued, Roused;
    q' := if Waking(s, turn.thread, c) && q > 0 then q - 1 else q;
    if turn.thread != w {
      Others(s, turn, w);
      ChannelStep(s, turn, c);
      hide Step;
    }
  }

  /** What a step does to a channel: a sleeper joins at the end, a wakeup takes the first or all, or nothing happens. */
  lemma {:induction false} ChannelStep(s: State, turn: Turn, c: Channel)
    ensures var q, q' := Sleepers(s, c), Sleepers(Step(s, turn), c);
      if Waking(s, turn.thread, c) then q' == [] || (q != [] && q' == q[1..]) else q' == q || q' == q + [turn.thread]
    ensures Waking(s, turn.thread, c) && (c.OfLock? || !s.at[turn.thread].all) && Sleepers(s, c) != [] ==>
      Sleepers(Step(s, turn), c) == Sleepers(s, c)[1..]
  {
    hide Roused;
  }

  /** Only a thread that sleeps on a channel is woken there: the first one, or by a broadcast any. */
  lemma {:induction false} WokenFromSleep(s: State, turn: Turn, w: nat, c: Channel)
    requires Queued(s.lockers, s.at, AAsleep) && Queued(s.waiters, s.at, CAsleep)
    requires w in s.at && !WokenAt(s, w, c) && WokenAt(Step(s, turn), w, c)
    ensures s.at[w] == Asleep(c) && w in Sleepers(s, c) && Waking(s, turn.thread, c)
    ensures (c.OfLock? || !s.at[turn.thread].all) ==> Sleepers(s, c)[0] == w
  {
    OnChannel(s.waiters, s.at, w);
    hide Queued, Roused;
    if w != turn.thread {
      Others(s, turn, w);
    }
  }

  lemma {:induction false} SleepsThere(channel: seq<nat>, at: map<nat, Place>, asleep: Place, w: nat)
    requires Queued(channel, at, asleep) && w in channel
    ensures w in at && at[w] == asleep
  {
  }

  lemma {:induction false} PositionAfter(s: State, turns: seq<Turn>, w: nat, p: nat, c: Channel) returns (q: nat)
    requires Invariant(s) && p < |Sleepers(s, c)| && Sleepers(s, c)[p] == w
    ensures var s' := Run(s, turns);
      WasWoken(s, turns, w, c) || (q < |Sleepers(s', c)| && Sleepers(s', c)[q] == w && q + Wakeups(s, turns, c) <= p)
    decreases |turns|
  {
    hide Invariant, Step;
    q := p;
    if turns != [] {
      var last := |turns| - 1;
      q := PositionAfter(s, turns[..last], w, p, c);
      RunInvariant(s, turns[..last]);
      if WasWoken(s, turns[..last], w, c) {
        WokenEarlier(s, turns, w, c);
      } else {
        q := Forward(Run(s, turns[..last]), turns[last], w, q, c);
        if WokenAt(Run(s, turns), w, c) {
          WokenNow(s, turns, w, c);
        }
      }
    }
  }

  /**
   * A thread with `p` others in front of it on a channel is woken by the next `p + 1` wakeups, whatever else runs: on the
   * lock's channel by releases, on the condition variable's by signals and broadcasts.
   */
  lemma {:induction false} WokenInOrder(threads: set<nat>, before: seq<Turn>, turns: seq<Turn>, w: nat, p: nat, c: Channel)
    ensures var s := Run(Start(threads), before);
      p < |Sleepers(s, c)| && Sleepers(s, c)[p] == w && Wakeups(s, turns, c) > p ==> WasWoken(s, turns, w, c)
  {
    StartInvariant(threads);
    RunInvariant(Start(threads), before);
    var s := Run(Start(threads), before);
    if p < |Sleepers(s, c)| && Sleepers(s, c)[p] == w {
      var q := PositionAfter(s, turns, w, p, c);
    }
  }

  // ----- calls do what they are for

  /** Waking moves a thread within such a set of places. */
  predicate Steady(what: Place -> bool) {
    what(AAsleep) == what(AWant(true)) && what(CAsleep) == what(CWoken)
  }

  /** The number of threads at certain places changes by the thread alone whose turn it is. */
  lemma {:induction false} DoingAfter(s: State, turn: Turn, what: Place -> bool)
    requires Queued(s.lockers, s.at, AAsleep) && Queued(s.waiters, s.at, CAsleep) && Steady(what) && turn.thread in s.at
    ensures var s', t := Step(s, turn), turn.thread;
      t in s'.at && |Doing(s'.at, what)| + (if what(s.at[t]) then 1 else 0) == |Doing(s.at, what)| + if what(s'.at[t]) then 1 else 0
  {
    hide Queued, Doing, Roused;
    var s', t := Step(s, turn), turn.thread;
    var p := s.at[t];
    if p.RWake? && s.lockers != [] {
      var u := s.lockers[0];
      WakeOne(s.lockers, s.at, AAsleep, AWant(true));
      DoingMoved(s.at, what, u, AWant(true));
      DoingMoved(s.at[u := AWant(true)], what, t, RDone(p.cv));
    } else if p.SWake? && p.all {
      var at1 := Roused(s.at, s.waiters, CWoken);
      RousedAt(s.at, s.waiters, CAsleep, CWoken, t);
      DoingRoused(s.waiters, s.at, CAsleep, CWoken, what);
      DoingMoved(at1, what, t, SDone(p.crit));
    } else if p.SWake? && s.waiters != [] {
      var u := s.waiters[0];
      WakeOne(s.waiters, s.at, CAsleep, CWoken);
      DoingMoved(s.at, what, u, CWoken);
      DoingMoved(s.at[u := CWoken], what, t, SDone(p.crit));
    } else {
      assert s'.at == s.at[t := s'.at[t]];
      DoingMoved(s.at, what, t, s'.at[t]);
    }
  }

  /** How many turns of a run are taken by threads at certain places. */
  ghost function Turns(s: State, turns: seq<Turn>, what: (Place, Call) -> bool): nat
    decreases |turns|
  {
    if turns == [] then 0 else
    var last := |turns| - 1;
    Turns(s, turns[..last], what) + if Takes(Run(s, turns[..last]), turns[last], what) then 1 else 0
  }

  predicate Takes(s: State, turn: Turn, what: (Place, Call) -> bool) {
    turn.thread in s.at && what(s.at[turn.thread], turn.call)
  }

  /** A kind of work: the calls that ask for it, the places where it is still to be done, and the step that does it. */
  datatype Work = Acquiring | Releasing | Sleeping | Notifying(all: bool)

  predicate Asks(k: Work, p: Place, call: Call) {
    match k
    case Acquiring => (p.Outside? && call.Acquire?) || (p.Critical? && call.Wait?)
    case Releasing => p.Critical? && (call.Release? || call.Wait?)
    case Sleeping => p.Critical? && call.Wait?
    case Notifying(all) => (p.Outside? || p.Critical?) && (if all then call.Broadcast? else call.Signal?)
  }

  /** In `cv_wait`, not yet asleep. */
  predicate BeforeSleep(p: Place) {
    p.CWant? || p == RWant(true) || p == RClear(true) || p == RWake(true) || p == RDone(true) || p.CSleep?
  }

  predicate ToDo(k: Work, p: Place) {
    match k
    case Acquiring => p.AWant? || p.ATest? || p.ATake? || p.AAsleep? || p.CWoken? || p.CBack? || p.CAsleep? || BeforeSleep(p)
    case Releasing => p.CWant? || p.RWant? || p.RClear?
    case Sleeping => BeforeSleep(p)
    case Notifying(all) => (p.SWant? && p.all == all) || (p.SWake? && p.all == all)
  }

  predicate Does(k: Work, p: Place) {
    match k
    case Acquiring => p.ATake?
    case Releasing => p.RClear?
    case Sleeping => p.CSleep?
    case Notifying(all) => p.SWake? && p.all == all
  }

  /** A turn takes up work exactly by a call that asks for it and gets rid of it exactly by the step that does it. */
  lemma {:induction false} OwnMove(s: State, turn: Turn, k: Work)
    requires turn.thread in s.at && turn.thread in Step(s, turn).at
    ensures var p, p' := s.at[turn.thread], Step(s, turn).at[turn.thread];
      (if ToDo(k, p') then 1 else 0) + (if Does(k, p) then 1 else 0) == (if ToDo(k, p) then 1 else 0) + if Asks(k, p, turn.call) then 1 else 0
  {
  }

  /**
   * Over every interleaving and for each kind of work, what has been done and what threads are still about to do is
   * exactly what the calls made so far ask for: an acquire or a wait takes the lock once, a release or a wait gives
   * it up once, a wait sleeps once, and a signal or broadcast wakes once.
   */
  lemma {:induction false} WorkAccounted(threads: set<nat>, turns: seq<Turn>, k: Work)
    ensures var start := Start(threads);
      Turns(start, turns, (p: Place, c: Call) => Does(k, p)) + |Doing(Run(start, turns).at, (p: Place) => ToDo(k, p))|
      == Turns(start, turns, (p: Place, c: Call) => Asks(k, p, c))
    decreases |turns|
  {
    var start := Start(threads);
    var does, asks := (p: Place, c: Call) => Does(k, p), (p: Place, c: Call) => Asks(k, p, c);
    var todo := (p: Place) => ToDo(k, p);
    if turns == [] {
      assert Doing(start.at, todo) == {};
    } else {
      var last := |turns| - 1;
      var s := Run(start, turns[..last]);
      WorkAccounted(threads, turns[..last], k);
      StartInvariant(threads);
      RunInvariant(start, turns[..last]);
      WorkStep(s, turns[last], k);
    }
  }

  lemma {:induction false} WorkStep(s: State, turn: Turn, k: Work)
    requires Invariant(s)
    ensures var s' := Step(s, turn);
      (if Takes(s, turn, (p: Place, c: Call) => Does(k, p)) then 1 else 0) + |Doing(s'.at, (p: Place) => ToDo(k, p))|
      == |Doing(s.at, (p: Place) => ToDo(k, p))| + if Takes(s, turn, (p: Place, c: Call) => Asks(k, p, c)) then 1 else 0
  {
    var todo := (p: Place) => ToDo(k, p);
    hide Owner, Queued, Contended;
    if turn.thread in s.at {
      DoingAfter(s, turn, todo);
      OwnMove(s, turn, k);
    }
  }
}
