/** The process table: pid allocation, and the life of a process record through fork, exit, wait and disown. */
module PidTable {
  import opened Wrappers
  import opened PidRecords
  import opened Sequences

  const PID_MIN: nat := 2
  const PID_MAX: nat := 32767
  const KERNEL_PID: nat := 1
  const WNOHANG: nat := 1

  datatype Error = EAGAIN | ENOMEM | EINVAL | ENOSYS | ESRCH | EPERM

  /** What `pid_wait` returns with, or that it sleeps. */
  datatype WaitResult = Failed(error: Error) | StillRunning | Reaped(pid: nat, status: int) | Asleep

  // ----- the search for a free slot

  lemma ModIs(x: int, n: nat, q: int, r: nat)
    requires n > 0 && x == q * n + r && r < n
    ensures x % n == r
  {
    var d := x / n - q;
    assert d * n == r - x % n;
    assert d >= 1 ==> d * n >= n;
    assert d <= -1 ==> d * n <= 0 - n;
  }

  /** How far a pid is from one that belongs in slot `e`. */
  function Distance(e: nat, p: nat, n: nat): (d: nat)
    requires n > 0
    ensures d < n
  {
    (e - p) % n
  }

  lemma DistanceStep(e: nat, p: nat, n: nat)
    requires n > 0 && e < n && p % n != e
    ensures Distance(e, p, n) > 0 && Distance(e, p + 1, n) == Distance(e, p, n) - 1
  {
    var q, d := (e - p) / n, Distance(e, p, n);
    assert e - p == q * n + d;
    if d == 0 {
      assert p == (-q) * n + e;
      ModIs(p, n, -q, e);
      assert false;
    }
    ModIs(e - (p + 1), n, q, d - 1);
  }

  /** How many steps the search takes to reach slot `e`, going around at most once. */
  function StepsTo(e: nat, p: nat, n: nat, min: nat, max: nat): int
    requires n > 0
  {
    if p + Distance(e, p, n) <= max then Distance(e, p, n) else max - p + 1 + Distance(e, min, n)
  }

  lemma StepsDown(e: nat, p: nat, n: nat, min: nat, max: nat)
    requires n > 0 && e < n && min <= p <= max && max - min + 1 >= n && p % n != e
    ensures StepsTo(e, if p == max then min else p + 1, n, min, max) == StepsTo(e, p, n, min, max) - 1
  {
    hide Distance;
    DistanceStep(e, p, n);
    assert Distance(e, min, n) < n;
  }

  lemma StepsBound(e: nat, p: nat, n: nat, min: nat, max: nat)
    requires n > 0 && e < n && min <= p <= max && max - min + 1 >= n
    ensures 0 <= StepsTo(e, p, n, min, max) < 2 * n
  {
    hide Distance;
    assert Distance(e, min, n) < n && Distance(e, p, n) < n;
  }

  /** `inc_nextpid`. */
  function Following(p: nat, min: nat, max: nat): nat {
    if p == max then min else p + 1
  }

  /** The pid that is `k` steps on from `p`. */
  ghost function Advanced(p: nat, k: nat, min: nat, max: nat): nat
    decreases k
  {
    if k == 0 then p else Following(Advanced(p, k - 1, min, max), min, max)
  }

  /**
   * The search loop of `pid_alloc`, for any table size and pid range with at least as many pids as slots: with a slot
   * free it stops at a pid of a free slot, and in fewer than twice as many steps as there are slots.
   */
  method Search(slots: seq<Option<Info>>, start: nat, min: nat, max: nat) returns (pid: nat, count: nat)
    requires |slots| > 0 && min <= start <= max && max - min + 1 >= |slots|
    requires exists i :: 0 <= i < |slots| && slots[i].None?
    ensures min <= pid <= max && slots[pid % |slots|].None?
    ensures count < 2 * |slots| && pid == Advanced(start, count, min, max)
    ensures forall k: nat :: k < count ==> slots[Advanced(start, k, min, max) % |slots|].Some?
  {
    hide StepsTo;
    ghost var n := |slots|;
    ghost var e: nat :| e < n && slots[e].None?;
    pid, count := start, 0;
    StepsBound(e, start, n, min, max);
    while slots[pid % |slots|].Some?
      invariant min <= pid <= max && pid == Advanced(start, count, min, max)
      invariant forall k: nat :: k < count ==> slots[Advanced(start, k, min, max) % |slots|].Some?
      invariant count + StepsTo(e, pid, n, min, max) == StepsTo(e, start, n, min, max)
      decreases StepsTo(e, pid, n, min, max)
    {
      StepsBound(e, pid, n, min, max);
      StepsDown(e, pid, n, min, max);
      // the assertion in the loop
      assert count < 2 * |slots| + 5;
      count := count + 1;
      pid := Following(pid, min, max);
      StepsBound(e, pid, n, min, max);
    }
    StepsBound(e, pid, n, min, max);
  }

  // ----- the table

  /** The invariants in one place. */
  ghost predicate Sound(slots: Slots, running: set<nat>, waiters: map<nat, Waiter>, nextid: nat, dropped: seq<nat>) {
    Family(slots, running) && Waits(slots, running, waiters) && Ledger(slots, nextid, dropped)
  }

  /** `pid` is the first one from `start` on, going around, whose slot is free. */
  ghost predicate IsFirstFree(slots: Slots, start: nat, pid: nat) {
    && slots[pid % PROCS_MAX].None?
    && exists n: nat :: pid == Advanced(start, n, PID_MIN, PID_MAX) && forall k: nat :: k < n ==> slots[Advanced(start, k, PID_MIN, PID_MAX) % PROCS_MAX].Some?
  }

  class Table {
    var slots: Slots
    var nextpid: nat
    var nprocs: int
    /** The pids of the processes that run, and those of them that sleep in `pid_wait`. */
    var running: set<nat>
    var waiters: map<nat, Waiter>
    /** The number of records made, and the ones that were freed, in order. */
    var nextid: nat
    ghost var dropped: seq<nat>

    ghost predicate Valid()
      reads this
    {
      && Sound(slots, running, waiters, nextid, dropped)
      && nprocs == Occupied(slots)
      && PID_MIN <= nextpid <= PID_MAX
    }

    /** A process that can make a call. */
    predicate Calls(cur: nat)
      reads this
    {
      cur in running && cur !in waiters
    }

    /** `pid_bootstrap`. */
    constructor ()
      ensures Valid() && running == {KERNEL_PID} && waiters == map[] && nprocs == 1 && nextpid == PID_MIN
      ensures Present(slots, KERNEL_PID) && Get(slots, KERNEL_PID).ppid == INVALID_PID
    {
      var none := seq(PROCS_MAX, _ => None);
      var info := Info(0, 0, KERNEL_PID, INVALID_PID, false, 0xbeef);
      slots := none[KERNEL_PID := Some(info)];
      nextpid, nprocs, nextid := PID_MIN, 1, 1;
      running, waiters, dropped := {KERNEL_PID}, map[], [];
      OccupiedNone(none);
      OccupiedUpdate(none, KERNEL_PID, Some(info));
    }

    /** `pi_drop`: the record must have exited and have no parent. */
    method Drop(pid: nat)
      requires Present(slots, pid) && Get(slots, pid).exited && Get(slots, pid).ppid == INVALID_PID
      modifies this`slots, this`nprocs, this`dropped
      ensures slots == old(slots)[pid % PROCS_MAX := None] && dropped == old(dropped) + [old(Get(slots, pid)).id]
      ensures !Present(slots, pid)
      ensures forall q: nat :: q != pid && old(Present(slots, q)) ==> Present(slots, q) && Get(slots, q) == old(Get(slots, q))
      ensures nprocs == old(nprocs) - 1 && Occupied(slots) == old(Occupied(slots)) - 1
      ensures forall n: nat :: old(Ledger(slots, n, dropped)) ==> Ledger(slots, n, dropped)
    {
      OccupiedUpdate(slots, pid % PROCS_MAX, None);
      forall n: nat | Ledger(slots, n, dropped)
        ensures Ledger(slots[pid % PROCS_MAX := None], n, dropped + [Get(slots, pid).id])
      {
        DropLedger(slots, n, dropped, pid % PROCS_MAX);
      }
      dropped := dropped + [Get(slots, pid).id];
      slots := slots[pid % PROCS_MAX := None];
      nprocs := nprocs - 1;
    }

    /** `pid_alloc`.  `memory` says whether the record could be allocated. */
    method Alloc(cur: nat, memory: bool) returns (r: Result)
      requires Valid() && Calls(cur)
      modifies this
      ensures Valid() && running == old(running) && waiters == old(waiters) && dropped == old(dropped) && old(nextid) <= nextid
      ensures r == Err(EAGAIN) <==> old(nprocs) == PROCS_MAX
      ensures r.Err? ==> slots == old(slots) && nprocs == old(nprocs) && (r.error == EAGAIN || (r.error == ENOMEM && !memory))
      ensures r.Pid? ==> PID_MIN <= r.pid <= PID_MAX && memory && r.pid !in running
      ensures r.Pid? ==> old(slots)[r.pid % PROCS_MAX].None?
      ensures Present(old(slots), cur)
      ensures r.Pid? ==> slots == old(slots)[r.pid % PROCS_MAX := Some(Info(old(nextid), Get(old(slots), cur).id, r.pid, cur, false, 0xbeef))]
      ensures r.Pid? ==> nextpid == Following(r.pid, PID_MIN, PID_MAX) && IsFirstFree(old(slots), old(nextpid), r.pid)
      ensures r == Err(ENOMEM) ==> IsFirstFree(slots, old(nextpid), nextpid)
    {
      RunningPresent(slots, running, waiters, nextid, dropped, cur);
      if nprocs == PROCS_MAX {
        return Err(EAGAIN);
      }
      OccupiedFull(slots);
      var pid, count := Search(slots, nextpid, PID_MIN, PID_MAX);
      nextpid := pid;
      if !memory {
        return Err(ENOMEM);
      }
      var info := Info(nextid, Get(slots, cur).id, pid, cur, false, 0xbeef);
      NewSound(slots, running, waiters, nextid, dropped, cur, info);
      slots := slots[pid % PROCS_MAX := Some(info)];
      nprocs, nextid := nprocs + 1, nextid + 1;
      nextpid := Following(pid, PID_MIN, PID_MAX);
      r := Pid(pid);
    }

    /** The forked process starts to run. */
    method Start(pid: nat)
      requires Valid() && pid != INVALID_PID && Present(slots, pid) && !Get(slots, pid).exited
      modifies this`running
      ensures Valid() && running == old(running) + {pid}
    {
      StartSound(slots, running, waiters, nextid, dropped, pid);
      running := running + {pid};
    }

    /** `pid_unalloc`, for a child that has not run. */
    method Unalloc(cur: nat, pid: nat)
      requires Valid() && Calls(cur) && Present(slots, pid) && pid !in running
      requires !Get(slots, pid).exited && Get(slots, pid).ppid == cur
      modifies this`slots, this`nprocs, this`dropped
      ensures Valid() && slots == old(slots)[pid % PROCS_MAX := None] && dropped == old(dropped) + [old(Get(slots, pid)).id]
    {
      DropSound(slots, running, waiters, nextid, dropped, pid, cur);
      OccupiedUpdate(slots, pid % PROCS_MAX, None);
      ghost var before := slots;
      slots := slots[pid % PROCS_MAX := Some(Get(slots, pid).(status := 0xdead, exited := true, ppid := INVALID_PID))];
      Drop(pid);
      assert slots == before[pid % PROCS_MAX := None];
    }

    /** Disowning the child in slot `i`: the common part of `pid_disown` and of the loop in `pid_setexitstatus`. */
    method DisownSlot(cur: nat, i: nat)
      requires Valid() && Calls(cur) && i < PROCS_MAX && slots[i].Some? && slots[i].value.ppid == cur
      modifies this`slots, this`nprocs, this`dropped
      ensures Valid()
      ensures slots == old(slots)[i := if old(slots[i].value.exited) then None else Some(old(slots[i].value).(ppid := INVALID_PID))]
      ensures dropped == old(dropped) + if old(slots[i].value.exited) then [old(slots[i].value.id)] else []
    {
      ghost var before := slots;
      var info := slots[i].value;
      SlotOf(slots, running, i);
      OccupiedUpdate(slots, i, None);
      OccupiedUpdate(slots, i, Some(info.(ppid := INVALID_PID)));
      if info.exited {
        ExitedNotRunning(slots, running, i);
        DropSound(slots, running, waiters, nextid, dropped, info.pid, cur);
      } else {
        OrphanSound(slots, running, waiters, nextid, dropped, i, cur);
      }
      slots := slots[i := Some(info.(ppid := INVALID_PID))];
      if info.exited {
        Drop(info.pid);
        assert slots == before[i := None];
      }
    }

    /** `pid_disown`. */
    method Disown(cur: nat, pid: nat)
      requires Valid() && Calls(cur) && Present(slots, pid) && Get(slots, pid).ppid == cur
      modifies this`slots, this`nprocs, this`dropped
      ensures Valid()
      ensures !old(Get(slots, pid)).exited ==> slots == old(slots)[pid % PROCS_MAX := Some(old(Get(slots, pid)).(ppid := INVALID_PID))]
      ensures old(Get(slots, pid)).exited ==> slots == old(slots)[pid % PROCS_MAX := None]
      ensures old(dropped) <= dropped
    {
      DisownSlot(cur, pid % PROCS_MAX);
    }

    /** The loop of `pid_setexitstatus` over the children. */
    method DisownAll(cur: nat)
      requires Valid() && Calls(cur)
      modifies this`slots, this`nprocs, this`dropped
      ensures Valid()
      ensures forall j :: 0 <= j < PROCS_MAX ==> slots[j] == Abandoned(old(slots)[j], cur)
      ensures old(dropped) <= dropped
    {
      var i := 0;
      while i < PROCS_MAX
        invariant 0 <= i <= PROCS_MAX && Valid() && old(dropped) <= dropped
        invariant forall j :: 0 <= j < i ==> slots[j] == Abandoned(old(slots)[j], cur)
        invariant forall j :: i <= j < PROCS_MAX ==> slots[j] == old(slots)[j]
      {
        hide Sound;
        if slots[i].Some? && slots[i].value.ppid == cur {
          DisownSlot(cur, i);
        }
        i := i + 1;
      }
    }

    /**
     * `pid_setexitstatus`: the children are disowned, and the record stays, for a parent that runs, or is dropped.
     * A waiting parent is woken.
     */
    method SetExitStatus(cur: nat, status: int)
      requires Valid() && Calls(cur)
      modifies this
      ensures Valid() && running == old(running) - {cur} && waiters == Notified(old(waiters), cur) && nextid == old(nextid) && old(dropped) <= dropped
      ensures forall j :: 0 <= j < PROCS_MAX && j != cur % PROCS_MAX ==> slots[j] == Abandoned(old(slots)[j], cur)
      ensures old(Present(slots, cur))
      ensures var us := old(Get(slots, cur)); us.ppid in running ==> slots[cur % PROCS_MAX] == Some(us.(exited := true, status := status))
      ensures var us := old(Get(slots, cur)); us.ppid !in running ==> slots[cur % PROCS_MAX] == None
    {
      hide Sound;
      RunningPresent(slots, running, waiters, nextid, dropped, cur);
      ghost var first := Get(slots, cur);
      DisownAll(cur);
      RunningPresent(slots, running, waiters, nextid, dropped, cur);
      ParentRuns(slots, running, waiters, nextid, dropped, cur);
      var us := Get(slots, cur);
      var i := cur % PROCS_MAX;
      assert us == if first.ppid == cur then first.(ppid := INVALID_PID) else first;
      ExitSound(slots, running, waiters, nextid, dropped, cur, status);
      OccupiedUpdate(slots, i, Some(us.(status := status, exited := true)));
      OccupiedUpdate(slots, i, None);
      ghost var before := slots;
      slots := slots[i := Some(us.(status := status, exited := true))];
      if us.ppid == INVALID_PID {
        Drop(cur);
        assert slots == before[i := None];
      }
      waiters := Notified(waiters, cur);
      running := running - {cur};
    }

    /** `pid_wait` up to its end or to the point where it sleeps.  `pid` may be anything that the user passed. */
    method WaitBegin(cur: nat, pid: int, flags: nat) returns (r: WaitResult)
      requires Valid() && Calls(cur)
      modifies this`slots, this`nprocs, this`dropped, this`waiters
      ensures Valid()
      ensures pid == cur ==> r == Failed(EINVAL)
      ensures pid != cur && pid <= 0 ==> r == Failed(ENOSYS)
      ensures pid != cur && pid > 0 && flags != 0 && flags != WNOHANG ==> r == Failed(EINVAL)
      ensures pid != cur && pid > 0 && (flags == 0 || flags == WNOHANG) ==>
        && (r == Failed(ESRCH) <==> !old(Present(slots, pid)))
        && (r == Failed(EPERM) <==> old(Present(slots, pid)) && old(Get(slots, pid)).ppid != cur)
        && (r.Failed? ==> r.error == ESRCH || r.error == EPERM)
      ensures !r.Reaped? ==> slots == old(slots) && dropped == old(dropped)
      ensures !r.Asleep? ==> waiters == old(waiters)
      ensures r.StillRunning? ==> flags == WNOHANG && Present(slots, pid) && !Get(slots, pid).exited
      ensures r.Asleep? ==> flags == 0 && pid > 0 && Present(slots, pid) && !Get(slots, pid).exited && waiters == old(waiters)[cur := Waiter(pid, Get(slots, pid).id, false)]
      ensures r.Reaped? ==> r.pid == pid && old(Present(slots, pid)) && old(Get(slots, pid)).exited && r.status == old(Get(slots, pid)).status
      ensures r.Reaped? ==> slots == old(slots)[pid % PROCS_MAX := None] && dropped == old(dropped) + [old(Get(slots, pid)).id]
    {
      if pid == cur {
        return Failed(EINVAL);
      }
      if pid == INVALID_PID || pid < 0 {
        return Failed(ENOSYS);
      }
      if flags != 0 && flags != WNOHANG {
        return Failed(EINVAL);
      }
      if !Present(slots, pid) {
        return Failed(ESRCH);
      }
      var them := Get(slots, pid);
      if them.ppid != cur {
        return Failed(EPERM);
      }
      if !them.exited {
        if flags == WNOHANG {
          return StillRunning;
        }
        waiters := waiters[cur := Waiter(pid, them.id, false)];
        return Asleep;
      }
      Reap(cur, pid);
      r := Reaped(pid, them.status);
    }

    /** The end of `pid_wait`: the child's record goes. */
    method Reap(cur: nat, pid: nat)
      requires Valid() && Calls(cur) && Present(slots, pid) && Get(slots, pid).exited && Get(slots, pid).ppid == cur
      modifies this`slots, this`nprocs, this`dropped
      ensures Valid() && slots == old(slots)[pid % PROCS_MAX := None] && dropped == old(dropped) + [old(Get(slots, pid)).id]
    {
      hide Family, Waits, Ledger;
      ghost var before := slots;
      var i := pid % PROCS_MAX;
      ExitedNotRunning(slots, running, i);
      DropSound(slots, running, waiters, nextid, dropped, pid, cur);
      OccupiedUpdate(slots, i, None);
      slots := slots[i := Some(slots[i].value.(ppid := INVALID_PID))];
      Drop(pid);
      assert slots == before[i := None];
    }

    /**
     * `pid_wait` after `cv_wait` has returned, which happens only once the waiter has been woken: the record that it
     * waited for is still in the table and has exited, although the wait is not in a loop.
     */
    method WaitEnd(cur: nat) returns (r: WaitResult)
      requires Valid() && cur in waiters && waiters[cur].woken
      modifies this`slots, this`nprocs, this`dropped, this`waiters
      ensures Valid() && waiters == old(waiters) - {cur}
      ensures var x := old(waiters)[cur];
        && old(Present(slots, x.pid)) && old(Get(slots, x.pid)).id == x.id && old(Get(slots, x.pid)).exited
        && r == Reaped(x.pid, old(Get(slots, x.pid)).status)
        && slots == old(slots)[x.pid % PROCS_MAX := None] && dropped == old(dropped) + [x.id]
    {
      hide Family, Ledger;
      var x := waiters[cur];
      assert WaitsFor(slots, cur, x);
      var status := Get(slots, x.pid).status;
      waiters := waiters - {cur};
      hide Waits;
      Reap(cur, x.pid);
      r := Reaped(x.pid, status);
    }

    /** One turn of a process; a turn that the process cannot take now changes nothing. */
    method Execute(op: Op)
      requires Valid()
      modifies this
      ensures Valid() && old(dropped) <= dropped && old(nextid) <= nextid
    {
      hide Sound;
      match op
      case Alloc(cur, memory) =>
        if Calls(cur) {
          var _ := Alloc(cur, memory);
        }
      case Start(pid) =>
        if pid != INVALID_PID && Present(slots, pid) && !Get(slots, pid).exited {
          Start(pid);
        }
      case Unalloc(cur, pid) =>
        if Calls(cur) && Present(slots, pid) && pid !in running && !Get(slots, pid).exited && Get(slots, pid).ppid == cur {
          Unalloc(cur, pid);
        }
      case Disown(cur, pid) =>
        if Calls(cur) && Present(slots, pid) && Get(slots, pid).ppid == cur {
          Disown(cur, pid);
        }
      case Exit(cur, status) =>
        if Calls(cur) {
          SetExitStatus(cur, status);
        }
      case Wait(cur, pid, flags) =>
        if Calls(cur) {
          var _ := WaitBegin(cur, pid, flags);
        }
      case Wake(cur) =>
        if cur in waiters && waiters[cur].woken {
          var _ := WaitEnd(cur);
        }
    }

    /** Whatever the processes do and in whatever order, the table keeps its invariants. */
    method Run(ops: seq<Op>)
      requires Valid()
      modifies this
      ensures Valid() && old(dropped) <= dropped && old(nextid) <= nextid
    {
      hide Sound;
      var i := 0;
      while i < |ops|
        invariant 0 <= i <= |ops| && Valid() && old(dropped) <= dropped && old(nextid) <= nextid
      {
        Execute(ops[i]);
        i := i + 1;
      }
    }
  }

  /** What becomes of a slot when the process `cur` disowns its children. */
  function Abandoned(slot: Option<Info>, cur: nat): Option<Info> {
    if slot.Some? && slot.value.ppid == cur then
      if slot.value.exited then None else Some(slot.value.(ppid := INVALID_PID))
    else slot
  }

  datatype Op =
    | Alloc(cur: nat, memory: bool)
    | Start(pid: nat)
    | Unalloc(cur: nat, pid: nat)
    | Disown(cur: nat, pid: nat)
    | Exit(cur: nat, status: int)
    | Wait(cur: nat, child: int, flags: nat)
    | Wake(cur: nat)

  lemma {:induction false} RunningPresent(slots: Slots, running: set<nat>, waiters: map<nat, Waiter>, nextid: nat, dropped: seq<nat>, cur: nat)
    requires Sound(slots, running, waiters, nextid, dropped) && cur in running
    ensures cur != INVALID_PID && Present(slots, cur) && !Get(slots, cur).exited
  {
  }

  lemma {:induction false} ParentRuns(slots: Slots, running: set<nat>, waiters: map<nat, Waiter>, nextid: nat, dropped: seq<nat>, cur: nat)
    requires Sound(slots, running, waiters, nextid, dropped) && Present(slots, cur)
    ensures Get(slots, cur).ppid == INVALID_PID || Get(slots, cur).ppid in running
    ensures HasParent(slots, Get(slots, cur)) && INVALID_PID !in running
  {
    assert InSlot(slots[cur % PROCS_MAX].value, cur % PROCS_MAX, running);
    assert HasParent(slots, slots[cur % PROCS_MAX].value);
  }

  lemma {:induction false} ExitSound(slots: Slots, running: set<nat>, waiters: map<nat, Waiter>, nextid: nat, dropped: seq<nat>, cur: nat, status: int)
    requires Sound(slots, running, waiters, nextid, dropped) && cur in running && cur !in waiters && Present(slots, cur)
    requires forall i :: 0 <= i < PROCS_MAX && slots[i].Some? ==> slots[i].value.ppid != cur
    ensures var us, i := Get(slots, cur), cur % PROCS_MAX;
      if us.ppid == INVALID_PID then
        Sound(slots[i := None], running - {cur}, Notified(waiters, cur), nextid, dropped + [us.id])
      else
        Sound(slots[i := Some(us.(status := status, exited := true))], running - {cur}, Notified(waiters, cur), nextid, dropped)
  {
    hide Family, Waits, Ledger, Notified;
    var us, i := Get(slots, cur), cur % PROCS_MAX;
    var gone := us.(status := status, exited := true);
    ExitFamily(slots, running, cur);
    ParentRuns(slots, running, waiters, nextid, dropped, cur);
    ExitWaits(slots, running, waiters, i, gone, cur);
    if us.ppid == INVALID_PID {
      DropFamily(slots, running - {cur}, i);
      DropLedger(slots, nextid, dropped, i);
      NotWaitedFor(slots, running, waiters, cur);
      NotNotified(waiters, cur);
      DropWaits(slots[i := Some(gone)], running - {cur}, Notified(waiters, cur), i);
      assert slots[i := Some(gone)][i := None] == slots[i := None];
    } else {
      SetFamily(slots, running - {cur}, i, gone);
      SetLedger(slots, nextid, dropped, i, gone);
    }
  }

  lemma {:induction false} NotWaitedFor(slots: Slots, running: set<nat>, waiters: map<nat, Waiter>, pid: nat)
    requires Waits(slots, running, waiters) && INVALID_PID !in running && Present(slots, pid) && Get(slots, pid).ppid == INVALID_PID
    ensures forall w :: w in waiters ==> waiters[w].pid != pid
  {
    OnlyParentWaits(slots, running, waiters, pid);
  }

  lemma {:induction false} NotNotified(waiters: map<nat, Waiter>, pid: nat)
    ensures (forall w :: w in waiters ==> waiters[w].pid != pid) ==> forall w :: w in Notified(waiters, pid) ==> Notified(waiters, pid)[w].pid != pid
  {
  }


  datatype Result = Pid(pid: nat) | Err(error: Error)

  lemma {:induction false} NewSound(slots: Slots, running: set<nat>, waiters: map<nat, Waiter>, nextid: nat, dropped: seq<nat>, cur: nat, info: Info)
    requires Sound(slots, running, waiters, nextid, dropped) && cur in running && slots[info.pid % PROCS_MAX].None?
    requires info.id == nextid && info.pid != INVALID_PID && info.ppid == cur && !info.exited && HasParent(slots, info)
    ensures Sound(slots[info.pid % PROCS_MAX := Some(info)], running, waiters, nextid + 1, dropped) && info.pid !in running
    ensures Occupied(slots[info.pid % PROCS_MAX := Some(info)]) == Occupied(slots) + 1
  {
    hide Family, Waits, Ledger;
    var i := info.pid % PROCS_MAX;
    PutFamily(slots, running, i, info);
    PutWaits(slots, running, waiters, i, info);
    PutLedger(slots, nextid, dropped, i, info);
    OccupiedUpdate(slots, i, Some(info));
  }

  lemma {:induction false} StartSound(slots: Slots, running: set<nat>, waiters: map<nat, Waiter>, nextid: nat, dropped: seq<nat>, pid: nat)
    requires Sound(slots, running, waiters, nextid, dropped) && pid != INVALID_PID && Present(slots, pid) && !Get(slots, pid).exited
    ensures Sound(slots, running + {pid}, waiters, nextid, dropped)
  {
    hide Ledger;
  }

  lemma {:induction false} SlotOf(slots: Slots, running: set<nat>, i: nat)
    requires Family(slots, running) && i < PROCS_MAX && slots[i].Some?
    ensures slots[i].value.pid % PROCS_MAX == i && slots[i].value.pid != INVALID_PID
  {
  }

  lemma {:induction false} ExitedNotRunning(slots: Slots, running: set<nat>, i: nat)
    requires Family(slots, running) && i < PROCS_MAX && slots[i].Some? && slots[i].value.exited
    ensures slots[i].value.pid !in running
  {
  }

  /** Nobody waits for a child of `cur`, which is not waiting. */
  lemma {:induction false} NobodyWaits(slots: Slots, running: set<nat>, waiters: map<nat, Waiter>, pid: nat, cur: nat)
    requires Waits(slots, running, waiters) && Present(slots, pid) && Get(slots, pid).ppid == cur && cur !in waiters
    ensures forall w :: w in waiters ==> waiters[w].pid != pid
  {
    OnlyParentWaits(slots, running, waiters, pid);
  }

  lemma {:induction false} DropSound(slots: Slots, running: set<nat>, waiters: map<nat, Waiter>, nextid: nat, dropped: seq<nat>, pid: nat, cur: nat)
    requires Sound(slots, running, waiters, nextid, dropped) && Present(slots, pid) && pid !in running
    requires Get(slots, pid).ppid == cur && cur !in waiters
    ensures Sound(slots[pid % PROCS_MAX := None], running, waiters, nextid, dropped + [Get(slots, pid).id])
  {
    hide Family, Waits, Ledger;
    NobodyWaits(slots, running, waiters, pid, cur);
    DropFamily(slots, running, pid % PROCS_MAX);
    DropWaits(slots, running, waiters, pid % PROCS_MAX);
    DropLedger(slots, nextid, dropped, pid % PROCS_MAX);
  }

  lemma {:induction false} OrphanSound(slots: Slots, running: set<nat>, waiters: map<nat, Waiter>, nextid: nat, dropped: seq<nat>, i: nat, cur: nat)
    requires Sound(slots, running, waiters, nextid, dropped) && i < PROCS_MAX && slots[i].Some? && !slots[i].value.exited
    requires slots[i].value.ppid == cur && cur !in waiters
    ensures Sound(slots[i := Some(slots[i].value.(ppid := INVALID_PID))], running, waiters, nextid, dropped)
  {
    hide Family, Waits, Ledger;
    var info := slots[i].value.(ppid := INVALID_PID);
    SlotOf(slots, running, i);
    NobodyWaits(slots, running, waiters, slots[i].value.pid, cur);
    SetFamily(slots, running, i, info);
    SetWaits(slots, running, waiters, i, info);
    SetLedger(slots, nextid, dropped, i, info);
  }

  // ----- what the invariants mean

  /**
   * A parent pid that is not null names a process that is in the table and has not exited, and it is the process that
   * made the record, not a later one with the same pid.
   */
  lemma {:induction false} ParentIsAlive(slots: Slots, running: set<nat>, waiters: map<nat, Waiter>, nextid: nat, dropped: seq<nat>, pid: nat)
    requires Sound(slots, running, waiters, nextid, dropped) && Present(slots, pid)
    ensures var them := Get(slots, pid);
      them.ppid != INVALID_PID ==> Present(slots, them.ppid) && !Get(slots, them.ppid).exited && Get(slots, them.ppid).id == them.parent
    ensures Get(slots, pid).exited ==> Get(slots, pid).ppid in running
  {
    ParentRuns(slots, running, waiters, nextid, dropped, pid);
    assert InSlot(slots[pid % PROCS_MAX].value, pid % PROCS_MAX, running);
  }

  /** A woken waiter finds the record that it went to sleep for, exited and still its child. */
  lemma {:induction false} WaiterFindsChild(slots: Slots, running: set<nat>, waiters: map<nat, Waiter>, nextid: nat, dropped: seq<nat>, w: nat)
    requires Sound(slots, running, waiters, nextid, dropped) && w in waiters && waiters[w].woken
    ensures var x := waiters[w];
      Present(slots, x.pid) && Get(slots, x.pid).id == x.id && Get(slots, x.pid).exited && Get(slots, x.pid).ppid == w && x.id !in dropped
  {
    assert WaitsFor(slots, w, waiters[w]);
  }

  /** Two different waiters never wait for the same record. */
  lemma {:induction false} OneWaiterEach(slots: Slots, running: set<nat>, waiters: map<nat, Waiter>, nextid: nat, dropped: seq<nat>, v: nat, w: nat)
    requires Sound(slots, running, waiters, nextid, dropped) && v in waiters && w in waiters && v != w
    ensures waiters[v].pid != waiters[w].pid && waiters[v].id != waiters[w].id
  {
    assert WaitsFor(slots, v, waiters[v]) && WaitsFor(slots, w, waiters[w]);
    var i, j := waiters[v].pid % PROCS_MAX, waiters[w].pid % PROCS_MAX;
    assert i == j || slots[i].value.id != slots[j].value.id;
  }

  /** Every record ever made is in the table or was dropped, and none both or twice. */
  lemma {:induction false} DroppedOnce(slots: Slots, running: set<nat>, waiters: map<nat, Waiter>, nextid: nat, dropped: seq<nat>, id: nat)
    requires Sound(slots, running, waiters, nextid, dropped) && id < nextid
    ensures id in dropped <==> !exists i :: 0 <= i < PROCS_MAX && slots[i].Some? && slots[i].value.id == id
    ensures Distinct(dropped)
  {
    hide Family, Waits;
    if id !in dropped && forall i :: 0 <= i < PROCS_MAX && slots[i].Some? ==> slots[i].value.id != id {
      var ids := Ids(slots);
      IdsAre(slots);
      AllDifferent(dropped, ids, id);
      var all := dropped + ids + [id];
      forall k | 0 <= k < |all|
        ensures all[k] < nextid
      {
        assert |dropped| <= k < |dropped| + |ids| ==> all[k] in ids;
      }
      DistinctBound(all, nextid);
      assert false;
    }
  }

  lemma {:induction false} AllDifferent(s: seq<nat>, t: seq<nat>, x: nat)
    requires Distinct(s) && Distinct(t) && x !in s && x !in t && forall y :: y in s ==> y !in t
    ensures Distinct(s + t + [x])
  {
    var u := s + t + [x];
    forall i, j | 0 <= i < j < |u|
      ensures u[i] != u[j]
    {
      assert i < |s| ==> u[i] in s;
      assert |s| <= i < |s| + |t| ==> u[i] == t[i - |s|] && u[i] in t;
      assert |s| <= j < |s| + |t| ==> u[j] == t[j - |s|] && u[j] in t;
    }
  }

  ghost function Ids(slots: seq<Option<Info>>): seq<nat>
    decreases |slots|
  {
    if slots == [] then [] else
    var last := |slots| - 1;
    Ids(slots[..last]) + if slots[last].Some? then [slots[last].value.id] else []
  }

  lemma {:induction false} IdsAre(slots: seq<Option<Info>>)
    requires forall i, j :: 0 <= i < j < |slots| && slots[i].Some? && slots[j].Some? ==> slots[i].value.id != slots[j].value.id
    ensures |Ids(slots)| == Occupied(slots)
    ensures forall id :: id in Ids(slots) <==> exists i :: 0 <= i < |slots| && slots[i].Some? && slots[i].value.id == id
    ensures Distinct(Ids(slots))
    decreases |slots|
  {
    if slots != [] {
      var last := |slots| - 1;
      var rest := slots[..last];
      IdsAre(rest);
      assert slots[last].Some? ==> slots[last].value.id !in Ids(rest);
      forall id
        ensures id in Ids(slots) <==> exists i :: 0 <= i < |slots| && slots[i].Some? && slots[i].value.id == id
      {
        assert id in Ids(slots) <==> id in Ids(rest) || (slots[last].Some? && slots[last].value.id == id);
        if i :| 0 <= i < |slots| && slots[i].Some? && slots[i].value.id == id {
          assert i < last ==> rest[i] == slots[i];
        }
        if i :| 0 <= i < last && rest[i].Some? && rest[i].value.id == id {
          assert slots[i] == rest[i];
        }
      }
    }
  }
}
