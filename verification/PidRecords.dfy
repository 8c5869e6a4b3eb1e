/** Process records: where they sit in the table, how they are related, and what keeps them so. */
module PidRecords {
  import opened Sequences
  import opened Wrappers

  const PROCS_MAX: nat := 128
  const INVALID_PID: nat := 0

  /**
   * A `struct pidinfo`.  `id` tells apart records that had the same pid at different times, and `parent` is the `id` of
   * the process that made this one.
   */
  datatype Info = Info(id: nat, parent: nat, pid: nat, ppid: nat, exited: bool, status: int)

  /** A process that sleeps in `pid_wait`: for which record, and whether it has been woken. */
  datatype Waiter = Waiter(pid: nat, id: nat, woken: bool)

  type Slots = s: seq<Option<Info>> | |s| == PROCS_MAX witness seq(PROCS_MAX, _ => None)

  /** `pi_get` finds a record. */
  predicate Present(slots: Slots, pid: nat) {
    slots[pid % PROCS_MAX].Some? && slots[pid % PROCS_MAX].value.pid == pid
  }

  function Get(slots: Slots, pid: nat): Info
    requires Present(slots, pid)
  {
    slots[pid % PROCS_MAX].value
  }

  ghost function Occupied(slots: seq<Option<Info>>): nat
    decreases |slots|
  {
    if slots == [] then 0 else Occupied(slots[..|slots| - 1]) + if slots[|slots| - 1].Some? then 1 else 0
  }

  lemma {:induction false} OccupiedUpdate(slots: seq<Option<Info>>, i: nat, v: Option<Info>)
    requires i < |slots|
    ensures Occupied(slots[i := v]) == Occupied(slots) + (if v.Some? then 1 else 0) - (if slots[i].Some? then 1 else 0)
    decreases |slots|
  {
    var last := |slots| - 1;
    assert slots[i := v][..last] == if i == last then slots[..last] else slots[..last][i := v];
    if i < last {
      OccupiedUpdate(slots[..last], i, v);
    }
  }

  lemma {:induction false} OccupiedNone(slots: seq<Option<Info>>)
    requires forall i :: 0 <= i < |slots| ==> slots[i].None?
    ensures Occupied(slots) == 0
    decreases |slots|
  {
    if slots != [] {
      OccupiedNone(slots[..|slots| - 1]);
    }
  }

  lemma {:induction false} OccupiedFull(slots: seq<Option<Info>>)
    ensures Occupied(slots) <= |slots|
    ensures Occupied(slots) < |slots| <==> exists i :: 0 <= i < |slots| && slots[i].None?
    decreases |slots|
  {
    if slots != [] {
      var last := |slots| - 1;
      OccupiedFull(slots[..last]);
      if slots[last].Some? && exists i :: 0 <= i < |slots| && slots[i].None? {
        var i :| 0 <= i < |slots| && slots[i].None?;
        assert slots[..last][i].None?;
      }
      if i :| 0 <= i < last && slots[..last][i].None? {
        assert slots[i].None?;
      }
    }
  }

  /**
   * Records are in their own slots.  A parent pid that is not null names a running process, the one that made the
   * record; an exited record has such a parent, and running processes have records that are not exited.
   */
  ghost predicate Family(slots: Slots, running: set<nat>) {
    && (forall i :: 0 <= i < PROCS_MAX && slots[i].Some? ==> InSlot(slots[i].value, i, running))
    && (forall p :: p in running ==> p != INVALID_PID && Present(slots, p) && !Get(slots, p).exited)
    && forall i :: 0 <= i < PROCS_MAX && slots[i].Some? ==> HasParent(slots, slots[i].value)
  }

  /** The parent pid still means the process that made the record. */
  ghost predicate HasParent(slots: Slots, info: Info) {
    info.ppid != INVALID_PID ==> Present(slots, info.ppid) && Get(slots, info.ppid).id == info.parent
  }

  ghost predicate InSlot(info: Info, i: nat, running: set<nat>) {
    && info.pid % PROCS_MAX == i && info.pid != INVALID_PID
    && (info.ppid == INVALID_PID || info.ppid in running)
    && (info.exited ==> info.ppid != INVALID_PID && info.pid !in running)
  }

  /** A sleeping waiter's child is in the table, still its child, and exited exactly when the waiter has been woken. */
  ghost predicate Waits(slots: Slots, running: set<nat>, waiters: map<nat, Waiter>) {
    forall w :: w in waiters ==> w in running && WaitsFor(slots, w, waiters[w])
  }

  ghost predicate WaitsFor(slots: Slots, w: nat, x: Waiter) {
    && Present(slots, x.pid)
    && Get(slots, x.pid).id == x.id && Get(slots, x.pid).ppid == w
    && (x.woken <==> Get(slots, x.pid).exited)
  }

  /** Every record ever made is in the table or has been dropped, once. */
  ghost predicate Ledger(slots: Slots, nextid: nat, dropped: seq<nat>) {
    && (forall i :: 0 <= i < PROCS_MAX && slots[i].Some? ==> slots[i].value.id < nextid && slots[i].value.id !in dropped)
    && (forall i, j :: 0 <= i < j < PROCS_MAX && slots[i].Some? && slots[j].Some? ==> slots[i].value.id != slots[j].value.id)
    && Distinct(dropped)
    && (forall i :: 0 <= i < |dropped| ==> dropped[i] < nextid)
    && |dropped| + Occupied(slots) == nextid
  }

  // ----- a new record

  lemma {:induction false} PutFamily(slots: Slots, running: set<nat>, i: nat, info: Info)
    requires Family(slots, running) && i < PROCS_MAX && slots[i].None? && InSlot(info, i, running) && HasParent(slots, info)
    ensures Family(slots[i := Some(info)], running) && info.pid !in running
  {
    StillParents(slots, slots[i := Some(info)], i);
  }

  /** Parents that are not in slot `i` are still there when that slot changes. */
  lemma {:induction false} StillParents(slots: Slots, slots': Slots, i: nat)
    requires i < PROCS_MAX && slots' == slots[i := slots'[i]]
    ensures forall x: Info :: HasParent(slots, x) && x.ppid % PROCS_MAX != i ==> HasParent(slots', x)
    ensures slots[i].None? ==> forall x: Info :: HasParent(slots, x) ==> HasParent(slots', x)
  {
  }

  lemma {:induction false} PutWaits(slots: Slots, running: set<nat>, waiters: map<nat, Waiter>, i: nat, info: Info)
    requires Waits(slots, running, waiters) && i < PROCS_MAX && slots[i].None?
    ensures Waits(slots[i := Some(info)], running, waiters)
  {
  }

  lemma {:induction false} PutLedger(slots: Slots, nextid: nat, dropped: seq<nat>, i: nat, info: Info)
    requires Ledger(slots, nextid, dropped) && i < PROCS_MAX && slots[i].None? && info.id == nextid
    ensures Ledger(slots[i := Some(info)], nextid + 1, dropped)
  {
    OccupiedUpdate(slots, i, Some(info));
  }

  // ----- a changed record

  lemma {:induction false} SetFamily(slots: Slots, running: set<nat>, i: nat, info: Info)
    requires Family(slots, running) && i < PROCS_MAX && slots[i].Some? && InSlot(info, i, running)
    requires info.pid == slots[i].value.pid && info.id == slots[i].value.id && (info.pid in running ==> !info.exited)
    requires HasParent(slots, info)
    ensures Family(slots[i := Some(info)], running)
  {
  }

  lemma {:induction false} SetWaits(slots: Slots, running: set<nat>, waiters: map<nat, Waiter>, i: nat, info: Info)
    requires Waits(slots, running, waiters) && i < PROCS_MAX && slots[i].Some? && slots[i].value.pid % PROCS_MAX == i
    requires info.pid == slots[i].value.pid
    requires forall w :: w in waiters ==> waiters[w].pid != info.pid
    ensures Waits(slots[i := Some(info)], running, waiters)
  {
  }

  lemma {:induction false} SetLedger(slots: Slots, nextid: nat, dropped: seq<nat>, i: nat, info: Info)
    requires Ledger(slots, nextid, dropped) && i < PROCS_MAX && slots[i].Some? && info.id == slots[i].value.id
    ensures Ledger(slots[i := Some(info)], nextid, dropped)
  {
    OccupiedUpdate(slots, i, Some(info));
  }

  // ----- a dropped record

  lemma {:induction false} DropFamily(slots: Slots, running: set<nat>, i: nat)
    requires Family(slots, running) && i < PROCS_MAX && slots[i].Some? && slots[i].value.pid !in running
    ensures Family(slots[i := None], running)
  {
  }

  lemma {:induction false} DropWaits(slots: Slots, running: set<nat>, waiters: map<nat, Waiter>, i: nat)
    requires Waits(slots, running, waiters) && i < PROCS_MAX && slots[i].Some?
    requires forall w :: w in waiters ==> waiters[w].pid != slots[i].value.pid
    ensures Waits(slots[i := None], running, waiters)
  {
  }

  lemma {:induction false} DropLedger(slots: Slots, nextid: nat, dropped: seq<nat>, i: nat)
    requires Ledger(slots, nextid, dropped) && i < PROCS_MAX && slots[i].Some?
    ensures Ledger(slots[i := None], nextid, dropped + [slots[i].value.id])
  {
    OccupiedUpdate(slots, i, None);
  }

  // ----- an exiting process

  /** A process that no record names as its parent stops running. */
  lemma {:induction false} ExitFamily(slots: Slots, running: set<nat>, cur: nat)
    requires Family(slots, running) && forall i :: 0 <= i < PROCS_MAX && slots[i].Some? ==> slots[i].value.ppid != cur
    ensures Family(slots, running - {cur})
  {
  }

  /** The child of nobody but `p` is waited for by nobody but `p`. */
  lemma {:induction false} OnlyParentWaits(slots: Slots, running: set<nat>, waiters: map<nat, Waiter>, pid: nat)
    requires Waits(slots, running, waiters) && Present(slots, pid)
    ensures forall w :: w in waiters && waiters[w].pid == pid ==> w == Get(slots, pid).ppid
  {
  }

  /** `cv_broadcast` on the record `pid`. */
  function Notified(waiters: map<nat, Waiter>, pid: nat): map<nat, Waiter> {
    map w | w in waiters :: if waiters[w].pid == pid then waiters[w].(woken := true) else waiters[w]
  }

  lemma {:induction false} ExitWaits(slots: Slots, running: set<nat>, waiters: map<nat, Waiter>, i: nat, info: Info, cur: nat)
    requires Waits(slots, running, waiters) && i < PROCS_MAX && slots[i].Some? && slots[i].value.pid == cur && cur % PROCS_MAX == i
    requires info.pid == cur && info.id == slots[i].value.id && info.ppid == slots[i].value.ppid && info.exited && cur !in waiters
    ensures Waits(slots[i := Some(info)], running - {cur}, Notified(waiters, cur))
  {
    var slots', waiters' := slots[i := Some(info)], Notified(waiters, cur);
    forall w | w in waiters'
      ensures w in running - {cur} && WaitsFor(slots', w, waiters'[w])
    {
      assert WaitsFor(slots, w, waiters[w]);
    }
  }
}
