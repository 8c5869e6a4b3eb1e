/**
 * Several processors that migrate threads at once, as a state machine: each takes and releases one run queue lock after
 * the other, and between any two of its locked sections others count, take, send, put back, enqueue and dequeue.
 */
module MigrationRuns {
  import opened Migration
  import opened Sequences

  /** Where a processor is in `thread_consider_migration`; each step from one place to the next is one locked section. */
  datatype Place =
    | Outside
    | Counting(i: nat, mine: nat, total: nat)
    | Taking(share: nat, toSend: nat)
    | Sending(i: nat, share: nat, toSend: nat, victims: seq<nat>)
    | Returning(victims: seq<nat>)

  /** The run queues, `t_cpu` of every thread, each processor's `curthread`, and where each processor is. */
  datatype State = State(queues: seq<seq<nat>>, cpu: map<nat, nat>, current: seq<nat>, at: seq<Place>)

  /** A locked section of processor `c`, a thread that becomes runnable, or a processor outside that switches to the next thread. */
  datatype Turn = Go(c: nat) | Enqueue(t: nat) | Dequeue(c: nat)

  function Victims(p: Place): seq<nat> {
    if p.Sending? || p.Returning? then p.victims else []
  }

  function AllVictims(at: seq<Place>): (v: seq<seq<nat>>)
    ensures |v| == |at| && forall c :: 0 <= c < |at| ==> v[c] == Victims(at[c])
  {
    seq(|at|, c requires 0 <= c < |at| => Victims(at[c]))
  }

  /** Whether a thread is on a run queue or among victims. */
  ghost predicate Queued(s: State, t: nat) {
    (exists c :: 0 <= c < |s.queues| && t in s.queues[c]) || exists c :: 0 <= c < |s.at| && t in Victims(s.at[c])
  }

  /** The next locked section of processor `c`. */
  function Section(s: State, c: nat): State
    requires c < |s.queues| == |s.at| == |s.current|
  {
    var n := |s.queues|;
    match s.at[c]
    case Outside => s.(at := s.at[c := Counting(0, 0, 0)])
    case Counting(i, mine, total) =>
      if i < n then
        var len := |s.queues[i]|;
        s.(at := s.at[c := Counting(i + 1, if i == c then len else mine, total + len)])
      else
        var share := (total + n - 1) / n;
        s.(at := s.at[c := if mine < share then Outside else Taking(share, mine - share)])
    case Taking(share, toSend) =>
      var q := s.queues[c];
      if toSend > |q| then s else
      var k := |q| - toSend;
      s.(queues := s.queues[c := q[..k]], at := s.at[c := Sending(0, share, toSend, q[k..])])
    case Sending(i, share, toSend, victims) =>
      if i < n && toSend > 0 then
        if i == c then s.(at := s.at[c := Sending(i + 1, share, toSend, victims)]) else
        var r := SendSection(s.queues, s.cpu, i, share, toSend, victims, s.current[c]);
        s.(queues := r.queues, cpu := r.cpu, at := s.at[c := Sending(i + 1, share, r.toSend, r.victims)])
      else s.(at := s.at[c := Returning(victims)])
    case Returning(victims) => s.(queues := s.queues[c := s.queues[c] + victims], at := s.at[c := Outside])
  }

  ghost function Step(s: State, turn: Turn): State
    requires |s.queues| == |s.at| == |s.current|
  {
    match turn
    case Go(c) => if c < |s.at| then Section(s, c) else s
    // thread_make_runnable, for a thread that is not ready
    case Enqueue(t) =>
      if t in s.cpu && s.cpu[t] < |s.queues| && !Queued(s, t) then
        s.(queues := s.queues[s.cpu[t] := s.queues[s.cpu[t]] + [t]])
      else s
    // thread_switch on a processor that is not migrating
    case Dequeue(c) =>
      if c < |s.at| && s.at[c].Outside? && s.queues[c] != [] then
        s.(queues := s.queues[c := s.queues[c][1..]], current := s.current[c := s.queues[c][0]])
      else s
  }

  ghost predicate Fine(s: State) {
    && |s.queues| == |s.at| == |s.current|
    && forall c :: 0 <= c < |s.at| ==> CpuFine(s.queues[c], s.at[c], s.cpu, s.current[c], |s.queues|, c)
  }

  /**
   * On each processor: no thread is twice on its queue or among its victims, they all belong to it, and so does its
   * current thread.  A count of its own queue is not above what is there, and enough victims are left to send.
   */
  ghost predicate CpuFine(q: seq<nat>, p: Place, cpu: map<nat, nat>, cur: nat, n: nat, c: nat) {
    && Distinct(q + Victims(p))
    && OnCpu(q + Victims(p), cpu, c)
    && cur in cpu && cpu[cur] == c
    && InPlace(p, |q|, n, cur, c)
  }

  ghost predicate InPlace(p: Place, len: nat, n: nat, cur: nat, c: nat) {
    match p
    case Outside => true
    case Counting(i, mine, total) => i <= n && mine <= len && (i <= c ==> mine == 0)
    case Taking(share, toSend) => toSend <= len
    case Sending(i, share, toSend, victims) => i <= n && Pending(victims, toSend, cur)
    case Returning(victims) => true
  }

  // ----- one receiver's section

  /** How often `x` occurs. */
  ghost function Times(s: seq<nat>, x: nat): nat {
    var m: multiset<nat> := multiset(s);
    m[x]
  }

  lemma {:induction false} DistinctCounts(s: seq<nat>)
    ensures Distinct(s) <==> forall x: nat :: Times(s, x) <= 1
    decreases |s|
  {
    if s != [] {
      var last := |s| - 1;
      var rest := s[..last];
      DistinctCounts(rest);
      assert s == rest + [s[last]];
      forall x: nat
        ensures Times(s, x) == Times(rest, x) + if x == s[last] then 1 else 0
      {
        TimesSnoc(rest, s[last], x);
      }
      if Distinct(s) {
        assert Distinct(rest) && s[last] !in rest;
        assert Times(rest, s[last]) == 0;
      } else if Distinct(rest) {
        assert s[last] in rest;
        assert Times(rest, s[last]) >= 1;
        assert Times(s, s[last]) >= 2;
      } else {
        var x: nat :| Times(rest, x) > 1;
        assert Times(s, x) > 1;
      }
    }
  }

  lemma {:induction false} TimesSnoc(s: seq<nat>, y: nat, x: nat)
    ensures Times(s + [y], x) == Times(s, x) + if x == y then 1 else 0
    ensures x in s <==> Times(s, x) >= 1
  {
  }

  /** What a receiver's section has done to its queue and the sender's victims. */
  ghost predicate SentWell(q: seq<nat>, victims: seq<nat>, share: nat, cur: nat, r: Sent) {
    && q <= r.queue
    && multiset(r.queue[|q|..]) + multiset(r.victims) == multiset(victims)
    && cur !in r.queue[|q|..]
    && Pending(r.victims, r.toSend, cur)
    && (|r.queue| <= share || r.queue == q)
  }

  lemma {:induction false} SendKeeps(q: seq<nat>, victims: seq<nat>, toSend: nat, share: nat, cur: nat)
    requires Pending(victims, toSend, cur)
    ensures SentWell(q, victims, share, cur, Send(q, victims, toSend, share, cur))
    decreases toSend
  {
    if |q| < share && toSend > 0 {
      var t := victims[0];
      PendingNext(victims, toSend, cur);
      SendStep(q, victims, toSend, share, cur);
      hide Pending, Send, SentWell;
      if t == cur {
        var victims' := victims[1..] + [cur];
        SendKeeps(q, victims', toSend - 1, share, cur);
        SamePile(q, victims, victims', share, cur, Send(q, victims', toSend - 1, share, cur));
      } else {
        SendKeeps(q + [t], victims[1..], toSend - 1, share, cur);
        OneFurther(q, victims, share, cur, Send(q + [t], victims[1..], toSend - 1, share, cur));
      }
    } else {
      assert q[|q|..] == [];
    }
  }

  lemma {:induction false} SamePile(q: seq<nat>, victims: seq<nat>, victims': seq<nat>, share: nat, cur: nat, r: Sent)
    requires SentWell(q, victims', share, cur, r) && multiset(victims') == multiset(victims)
    ensures SentWell(q, victims, share, cur, r)
  {
  }

  lemma {:induction false} PendingNext(victims: seq<nat>, toSend: nat, cur: nat)
    requires Pending(victims, toSend, cur) && toSend > 0
    ensures victims != []
    ensures victims[0] != cur ==> Pending(victims[1..], toSend - 1, cur)
    ensures victims[0] == cur ==> Pending(victims[1..] + [cur], toSend - 1, cur) && multiset(victims[1..] + [cur]) == multiset(victims)
  {
    assert victims == [victims[0]] + victims[1..];
  }

  lemma {:induction false} OneFurther(q: seq<nat>, victims: seq<nat>, share: nat, cur: nat, r: Sent)
    requires victims != [] && victims[0] != cur && |q| < share && SentWell(q + [victims[0]], victims[1..], share, cur, r)
    ensures SentWell(q, victims, share, cur, r)
  {
    hide Pending;
    var t, queue := victims[0], r.queue;
    assert queue[|q|] == (q + [t])[|q|];
    assert q == (q + [t])[..|q|] == queue[..|q|];
    assert queue[|q|..] == [t] + queue[|q| + 1..];
    assert victims == [t] + victims[1..];
  }

  /** The moved threads were victims, are different from each other and leave the rest of the victims. */
  lemma {:induction false} MovedAre(victims: seq<nat>, moved: seq<nat>, rest: seq<nat>)
    requires Distinct(victims) && multiset(moved) + multiset(rest) == multiset(victims)
    ensures Distinct(moved) && Distinct(rest)
    ensures forall t :: t in moved ==> t in victims && t !in rest
    ensures forall t :: t in rest ==> t in victims
  {
    DistinctCounts(victims);
    DistinctCounts(moved);
    DistinctCounts(rest);
    forall x: nat
      ensures Times(moved, x) + Times(rest, x) == Times(victims, x)
    {
      var m: multiset<nat> := multiset(moved) + multiset(rest);
      assert m[x] == Times(victims, x);
    }
    forall t | t in moved
      ensures t in victims && t !in rest
    {
      assert Times(moved, t) >= 1;
    }
    forall t | t in rest
      ensures t in victims
    {
      assert Times(rest, t) >= 1;
    }
  }

  lemma {:induction false} DistinctParts(a: seq<nat>, b: seq<nat>)
    ensures Distinct(a + b) <==> Distinct(a) && Distinct(b) && forall t :: t in a ==> t !in b
  {
    var s := a + b;
    if Distinct(s) {
      assert forall i :: 0 <= i < |a| ==> s[i] == a[i];
      assert forall i :: 0 <= i < |b| ==> s[|a| + i] == b[i];
    }
    if Distinct(a) && Distinct(b) && forall t :: t in a ==> t !in b {
      forall i, j | 0 <= i < j < |s|
        ensures s[i] != s[j]
      {
        assert i < |a| <= j ==> s[i] in a && s[j] in b;
        assert |a| <= i ==> s[i] == b[i - |a|] && s[j] == b[j - |a|];
      }
    }
  }

  // ----- what each kind of step keeps

  /** A section that changes only where the processor is. */
  lemma {:induction false} CpuMoves(q: seq<nat>, p: Place, p': Place, cpu: map<nat, nat>, cur: nat, n: nat, c: nat)
    requires CpuFine(q, p, cpu, cur, n, c) && Victims(p') == Victims(p) && InPlace(p', |q|, n, cur, c)
    ensures CpuFine(q, p', cpu, cur, n, c)
  {
  }

  lemma {:induction false} CpuTakes(q: seq<nat>, p: Place, cpu: map<nat, nat>, cur: nat, n: nat, c: nat, k: nat)
    requires CpuFine(q, p, cpu, cur, n, c) && p.Taking? && k <= |q| && p.toSend == |q| - k
    ensures CpuFine(q[..k], Sending(0, p.share, p.toSend, q[k..]), cpu, cur, n, c)
  {
    assert q + [] == q && q[..k] + q[k..] == q;
    DistinctParts(q[..k], q[k..]);
  }

  lemma {:induction false} CpuPutsBack(q: seq<nat>, p: Place, cpu: map<nat, nat>, cur: nat, n: nat, c: nat)
    requires CpuFine(q, p, cpu, cur, n, c) && p.Returning?
    ensures CpuFine(q + p.victims, Outside, cpu, cur, n, c)
  {
    assert q + p.victims + [] == q + p.victims;
  }

  lemma {:induction false} CpuGains(q: seq<nat>, p: Place, cpu: map<nat, nat>, cur: nat, n: nat, c: nat, moved: seq<nat>)
    requires CpuFine(q, p, cpu, cur, n, c) && OnCpu(moved, cpu, c) && Distinct(moved) && forall t :: t in moved ==> t !in q && t !in Victims(p)
    ensures CpuFine(q + moved, p, cpu, cur, n, c)
  {
    hide InPlace;
    DistinctParts(q, Victims(p));
    DistinctParts(q, moved);
    DistinctParts(q + moved, Victims(p));
    LongerQueue(p, |q|, |q + moved|, n, cur, c);
  }

  lemma {:induction false} LongerQueue(p: Place, len: nat, len': nat, n: nat, cur: nat, c: nat)
    requires InPlace(p, len, n, cur, c) && len <= len'
    ensures InPlace(p, len', n, cur, c)
  {
  }

  /** Threads of another processor change hands. */
  lemma {:induction false} CpuElsewhere(q: seq<nat>, p: Place, cpu: map<nat, nat>, cur: nat, n: nat, d: nat, moved: seq<nat>, c: nat, i: nat)
    requires CpuFine(q, p, cpu, cur, n, d) && OnCpu(moved, cpu, c) && c != d
    ensures CpuFine(q, p, Assigned(cpu, moved, i), cur, n, d)
    ensures forall t :: t in moved ==> t !in q && t !in Victims(p)
  {
    hide InPlace, Distinct;
    forall t | t in moved
      ensures t !in q && t !in Victims(p)
    {
      assert t in q || t in Victims(p) ==> t in q + Victims(p);
    }
  }

  lemma {:induction false} CpuSends(q: seq<nat>, p: Place, cpu: map<nat, nat>, cur: nat, n: nat, c: nat, moved: seq<nat>, i: nat, p': Place)
    requires CpuFine(q, p, cpu, cur, n, c) && Distinct(Victims(p')) && InPlace(p', |q|, n, cur, c)
    requires (forall t :: t in moved ==> t in Victims(p) && t !in Victims(p')) && (forall t :: t in Victims(p') ==> t in Victims(p)) && cur !in moved
    ensures CpuFine(q, p', Assigned(cpu, moved, i), cur, n, c)
  {
    hide InPlace;
    DistinctParts(q, Victims(p));
    DistinctParts(q, Victims(p'));
    forall t | t in q + Victims(p')
      ensures t in cpu && cpu[t] == c && t !in moved
    {
      assert t in q + Victims(p);
    }
  }

  lemma {:induction false} CpuSwitches(q: seq<nat>, cpu: map<nat, nat>, cur: nat, n: nat, c: nat)
    requires CpuFine(q, Outside, cpu, cur, n, c) && q != []
    ensures CpuFine(q[1..], Outside, cpu, q[0], n, c)
  {
    assert q + [] == q && q[1..] + [] == q[1..];
    assert q == [q[0]] + q[1..];
    DistinctParts([q[0]], q[1..]);
  }

  lemma {:induction false} SectionFine(s: State, c: nat)
    requires Fine(s) && c < |s.at|
    ensures Fine(Section(s, c))
  {
    hide CpuFine, Send;
    var s', p, n := Section(s, c), s.at[c], |s.queues|;
    CpuParts(s.queues[c], p, s.cpu, s.current[c], n, c);
    if p.Sending? && p.i < n && p.toSend > 0 && p.i != c {
      SendFine(s, c);
    } else if p.Taking? {
      CpuTakes(s.queues[c], p, s.cpu, s.current[c], n, c, |s.queues[c]| - p.toSend);
    } else if p.Returning? {
      CpuPutsBack(s.queues[c], p, s.cpu, s.current[c], n, c);
    } else {
      CpuMoves(s.queues[c], p, s'.at[c], s.cpu, s.current[c], n, c);
    }
  }

  lemma {:induction false} CpuParts(q: seq<nat>, p: Place, cpu: map<nat, nat>, cur: nat, n: nat, c: nat)
    requires CpuFine(q, p, cpu, cur, n, c)
    ensures InPlace(p, |q|, n, cur, c) && OnCpu(Victims(p), cpu, c) && Distinct(Victims(p)) && cur in cpu && cpu[cur] == c
  {
    DistinctParts(q, Victims(p));
    assert forall t :: t in Victims(p) ==> t in q + Victims(p);
  }

  lemma {:induction false} SendFine(s: State, c: nat)
    requires Fine(s) && c < |s.at| && s.at[c].Sending? && s.at[c].i < |s.queues| && s.at[c].toSend > 0 && s.at[c].i != c
    ensures Fine(Section(s, c))
  {
    hide CpuFine, Send;
    var s', p, n, i := Section(s, c), s.at[c], |s.queues|, s.at[c].i;
    var q, cur := s.queues[i], s.current[c];
    CpuParts(s.queues[c], p, s.cpu, cur, n, c);
    var r := Send(q, p.victims, p.toSend, p.share, cur);
    SendKeeps(q, p.victims, p.toSend, p.share, cur);
    var moved := r.queue[|q|..];
    assert r.queue == q + moved;
    MovedAre(p.victims, moved, r.victims);
    forall d | 0 <= d < n
      ensures CpuFine(s'.queues[d], s'.at[d], s'.cpu, s'.current[d], n, d)
    {
      if d == c {
        CpuSends(s.queues[c], p, s.cpu, cur, n, c, moved, i, s'.at[c]);
      } else {
        CpuElsewhere(s.queues[d], s.at[d], s.cpu, s.current[d], n, d, moved, c, i);
        if d == i {
          CpuGains(q, s.at[i], s'.cpu, s.current[i], n, i, moved);
        }
      }
    }
  }

  lemma {:induction false} StepFine(s: State, turn: Turn)
    requires Fine(s)
    ensures Fine(Step(s, turn))
  {
    hide CpuFine, Section;
    var n := |s.queues|;
    match turn
    case Go(c) =>
      if c < n {
        SectionFine(s, c);
        SectionShape(s, c);
      }
    case Enqueue(t) =>
      if t in s.cpu && s.cpu[t] < n && !Queued(s, t) {
        var c := s.cpu[t];
        CpuGains(s.queues[c], s.at[c], s.cpu, s.current[c], n, c, [t]);
      }
    case Dequeue(c) =>
      if c < n && s.at[c].Outside? && s.queues[c] != [] {
        CpuSwitches(s.queues[c], s.cpu, s.current[c], n, c);
      }
  }

  lemma {:induction false} SectionShape(s: State, c: nat)
    requires |s.queues| == |s.at| == |s.current| && c < |s.at|
    ensures var s' := Section(s, c); |s'.queues| == |s'.at| == |s'.current| == |s.at| && s'.current == s.current
  {
  }

  // ----- runs

  ghost function Run(s: State, turns: seq<Turn>): (r: State)
    requires |s.queues| == |s.at| == |s.current|
    ensures |r.queues| == |r.at| == |r.current| == |s.at|
    decreases |turns|
  {
    if turns == [] then s else
    var before := Run(s, turns[..|turns| - 1]);
    SameSize(before, turns[|turns| - 1]);
    Step(before, turns[|turns| - 1])
  }

  lemma {:induction false} SameSize(s: State, turn: Turn)
    requires |s.queues| == |s.at| == |s.current|
    ensures var s' := Step(s, turn); |s'.queues| == |s'.at| == |s'.current| == |s.at|
  {
    hide Section;
    if turn.Go? && turn.c < |s.at| {
      SectionShape(s, turn.c);
    }
  }

  /** The invariant over every interleaving, from any state that satisfies it: for instance one with nobody migrating. */
  lemma {:induction false} RunFine(s: State, turns: seq<Turn>)
    requires Fine(s)
    ensures Fine(Run(s, turns))
    decreases |turns|
  {
    if turns != [] {
      var last := |turns| - 1;
      RunFine(s, turns[..last]);
      StepFine(Run(s, turns[..last]), turns[last]);
    }
  }

  /** Any queues with every thread on the queue of its processor are a start. */
  lemma {:induction false} StartFine(queues: seq<seq<nat>>, cpu: map<nat, nat>, current: seq<nat>)
    requires Placed(queues, cpu) && |current| == |queues| && forall c :: 0 <= c < |current| ==> current[c] in cpu && cpu[current[c]] == c
    ensures Fine(State(queues, cpu, current, seq(|queues|, _ => Outside)))
  {
    forall c | 0 <= c < |queues|
      ensures CpuFine(queues[c], Outside, cpu, current[c], |queues|, c)
    {
      assert queues[c] + [] == queues[c];
      assert Distinct(queues[c]) && OnCpu(queues[c], cpu, c);
    }
  }

  // ----- nobody is lost or duplicated

  /** All threads that are on a queue or among victims. */
  ghost function Ready(s: State): multiset<nat> {
    Everyone(s.queues) + Everyone(AllVictims(s.at))
  }

  lemma {:induction false} MoveReady(queues: seq<seq<nat>>, victims: seq<seq<nat>>, i: nat, q: seq<nat>, c: nat, v: seq<nat>)
    requires i < |queues| && c < |victims| && multiset(q) + multiset(v) == multiset(queues[i]) + multiset(victims[c])
    ensures Everyone(queues[i := q]) + Everyone(victims[c := v]) == Everyone(queues) + Everyone(victims)
  {
    EveryoneUpdate(queues, i, q);
    EveryoneUpdate(victims, c, v);
    Balance(Everyone(queues[i := q]), multiset(queues[i]), Everyone(queues), multiset(q),
            Everyone(victims[c := v]), multiset(victims[c]), Everyone(victims), multiset(v));
  }

  lemma {:induction false} Balance(a': multiset<nat>, b: multiset<nat>, a: multiset<nat>, b': multiset<nat>, c': multiset<nat>, d: multiset<nat>, c: multiset<nat>, d': multiset<nat>)
    requires a' + b == a + b' && c' + d == c + d' && b' + d' == b + d
    ensures a' + c' == a + c
  {
    forall x: nat
      ensures (a' + c')[x] == (a + c)[x]
    {
      assert (a' + b)[x] == (a + b')[x] && (c' + d)[x] == (c + d')[x] && (b' + d')[x] == (b + d)[x];
    }
  }

  lemma {:induction false} SectionReady(s: State, c: nat)
    requires Fine(s) && c < |s.at|
    ensures Ready(Section(s, c)) == Ready(s)
  {
    hide CpuFine, Send, Everyone;
    var s', p, n := Section(s, c), s.at[c], |s.queues|;
    CpuParts(s.queues[c], p, s.cpu, s.current[c], n, c);
    var v := AllVictims(s.at);
    assert AllVictims(s'.at) == v[c := Victims(s'.at[c])];
    if p.Sending? && p.i < n && p.toSend > 0 && p.i != c {
      SendReady(s.queues, v, p, s.current[c], c);
    } else if p.Taking? {
      TakeReady(s.queues, v, c, |s.queues[c]| - p.toSend);
    } else if p.Returning? {
      MoveReady(s.queues, v, c, s.queues[c] + p.victims, c, []);
    } else {
      assert v[c := Victims(s'.at[c])] == v;
    }
  }

  lemma {:induction false} SendReady(queues: seq<seq<nat>>, v: seq<seq<nat>>, p: Place, cur: nat, c: nat)
    requires p.Sending? && p.i < |queues| && Pending(p.victims, p.toSend, cur) && c < |v| && v[c] == p.victims
    ensures var r := Send(queues[p.i], p.victims, p.toSend, p.share, cur);
      Everyone(queues[p.i := r.queue]) + Everyone(v[c := r.victims]) == Everyone(queues) + Everyone(v)
  {
    hide Send, Everyone, Pending;
    var q := queues[p.i];
    SendKeeps(q, p.victims, p.toSend, p.share, cur);
    var r := Send(q, p.victims, p.toSend, p.share, cur);
    assert r.queue == q + r.queue[|q|..];
    MoveReady(queues, v, p.i, r.queue, c, r.victims);
  }

  lemma {:induction false} TakeReady(queues: seq<seq<nat>>, v: seq<seq<nat>>, c: nat, k: nat)
    requires c < |queues| && c < |v| && v[c] == [] && k <= |queues[c]|
    ensures Everyone(queues[c := queues[c][..k]]) + Everyone(v[c := queues[c][k..]]) == Everyone(queues) + Everyone(v)
  {
    hide Everyone;
    var q := queues[c];
    assert q == q[..k] + q[k..];
    MoveReady(queues, v, c, q[..k], c, q[k..]);
  }

  /** The thread that a step makes ready, and the one that it takes to run. */
  ghost function Joins(s: State, turn: Turn): multiset<nat> {
    if turn.Enqueue? && turn.t in s.cpu && s.cpu[turn.t] < |s.queues| && !Queued(s, turn.t) then multiset{turn.t} else multiset{}
  }

  ghost function Leaves(s: State, turn: Turn): multiset<nat>
    requires |s.queues| == |s.at|
  {
    if turn.Dequeue? && turn.c < |s.at| && s.at[turn.c].Outside? && s.queues[turn.c] != [] then multiset{s.queues[turn.c][0]} else multiset{}
  }

  lemma {:induction false} StepReady(s: State, turn: Turn)
    requires Fine(s)
    ensures Ready(Step(s, turn)) + Leaves(s, turn) == Ready(s) + Joins(s, turn)
  {
    hide CpuFine, Section, Everyone;
    match turn
    case Go(c) =>
      if c < |s.at| {
        SectionReady(s, c);
      }
    case Enqueue(t) =>
      if t in s.cpu && s.cpu[t] < |s.queues| && !Queued(s, t) {
        var c := s.cpu[t];
        EveryoneUpdate(s.queues, c, s.queues[c] + [t]);
        var e, e', q: multiset<nat> := Everyone(s.queues), Everyone(s.queues[c := s.queues[c] + [t]]), multiset(s.queues[c]);
        assert multiset(s.queues[c] + [t]) == q + multiset{t};
        CancelOne(e', q, e, multiset{t}, Everyone(AllVictims(s.at)));
      }
    case Dequeue(c) =>
      if c < |s.at| && s.at[c].Outside? && s.queues[c] != [] {
        var q := s.queues[c];
        assert q == [q[0]] + q[1..];
        EveryoneUpdate(s.queues, c, q[1..]);
        var e, e', rest: multiset<nat> := Everyone(s.queues), Everyone(s.queues[c := q[1..]]), multiset(q[1..]);
        assert multiset(q) == rest + multiset{q[0]};
        CancelOne(e, rest, e', multiset{q[0]}, Everyone(AllVictims(s.at)));
      }
  }

  lemma {:induction false} CancelOne(e': multiset<nat>, q: multiset<nat>, e: multiset<nat>, one: multiset<nat>, v: multiset<nat>)
    requires e' + q == e + (q + one)
    ensures e' + v == e + v + one
  {
    forall x: nat
      ensures (e' + v)[x] == (e + v + one)[x]
    {
      assert (e' + q)[x] == (e + (q + one))[x];
    }
  }

  ghost function Joined(s: State, turns: seq<Turn>): multiset<nat>
    requires |s.queues| == |s.at| == |s.current|
    decreases |turns|
  {
    if turns == [] then multiset{} else
    var last := |turns| - 1;
    Joined(s, turns[..last]) + Joins(Run(s, turns[..last]), turns[last])
  }

  ghost function Left(s: State, turns: seq<Turn>): multiset<nat>
    requires |s.queues| == |s.at| == |s.current|
    decreases |turns|
  {
    if turns == [] then multiset{} else
    var last := |turns| - 1;
    Left(s, turns[..last]) + Leaves(Run(s, turns[..last]), turns[last])
  }

  /** Over every interleaving, migration conserves the multiset of ready threads: only becoming runnable and being run change it. */
  lemma {:induction false} Conserved(s: State, turns: seq<Turn>)
    requires Fine(s)
    ensures Ready(Run(s, turns)) + Left(s, turns) == Ready(s) + Joined(s, turns)
    decreases |turns|
  {
    if turns != [] {
      var last := |turns| - 1;
      var before := Run(s, turns[..last]);
      Conserved(s, turns[..last]);
      RunFine(s, turns[..last]);
      StepReady(before, turns[last]);
      hide Ready, Left, Joined, Joins, Leaves, Step;
      AddUp(Ready(Step(before, turns[last])), Leaves(before, turns[last]), Ready(before), Joins(before, turns[last]),
            Left(s, turns[..last]), Ready(s), Joined(s, turns[..last]));
      LastTurn(s, turns);
    }
  }

  lemma {:induction false} LastTurn(s: State, turns: seq<Turn>)
    requires |s.queues| == |s.at| == |s.current| && turns != []
    ensures var before, turn := Run(s, turns[..|turns| - 1]), turns[|turns| - 1];
      && Run(s, turns) == Step(before, turn)
      && Joined(s, turns) == Joined(s, turns[..|turns| - 1]) + Joins(before, turn)
      && Left(s, turns) == Left(s, turns[..|turns| - 1]) + Leaves(before, turn)
  {
  }

  lemma {:induction false} AddUp(r': multiset<nat>, l: multiset<nat>, r: multiset<nat>, j: multiset<nat>, left: multiset<nat>, r0: multiset<nat>, joined: multiset<nat>)
    requires r' + l == r + j && r + left == r0 + joined
    ensures r' + (left + l) == r0 + (joined + j)
  {
    forall x: nat
      ensures (r' + (left + l))[x] == (r0 + (joined + j))[x]
    {
      assert (r' + l)[x] == (r + j)[x] && (r + left)[x] == (r0 + joined)[x];
    }
  }

  // ----- what else holds over every interleaving

  /** Every ready thread is in exactly one place, on the queue or among the victims of the processor that its `t_cpu` names. */
  lemma {:induction false} OnePlace(s: State, turns: seq<Turn>, t: nat, c: nat, d: nat)
    requires Fine(s) && c < |s.at| && d < |s.at|
    ensures var r := Run(s, turns);
      var here, there := r.queues[c] + Victims(r.at[c]), r.queues[d] + Victims(r.at[d]);
      && Distinct(here)
      && (t in here ==> t in r.cpu && r.cpu[t] == c)
      && (t in here && t in there ==> c == d)
  {
    RunFine(s, turns);
    var r := Run(s, turns);
    assert CpuFine(r.queues[c], r.at[c], r.cpu, r.current[c], |r.queues|, c);
    assert CpuFine(r.queues[d], r.at[d], r.cpu, r.current[d], |r.queues|, d);
  }

  /** A processor's current thread is never moved: it belongs to the processor, and to no other's queue or victims. */
  lemma {:induction false} CurrentStays(s: State, turns: seq<Turn>, c: nat, d: nat)
    requires Fine(s) && c < |s.at| && d < |s.at| && c != d
    ensures var r := Run(s, turns);
      var cur := r.current[c];
      cur in r.cpu && r.cpu[cur] == c && cur !in r.queues[d] && cur !in Victims(r.at[d])
  {
    RunFine(s, turns);
    var r := Run(s, turns);
    var cur := r.current[c];
    assert CpuFine(r.queues[c], r.at[c], r.cpu, cur, |r.queues|, c);
    assert CpuFine(r.queues[d], r.at[d], r.cpu, r.current[d], |r.queues|, d);
    var q, v := r.queues[d], Victims(r.at[d]);
    assert forall t :: t in q || t in v ==> t in q + v;
  }

  /** Neither list that migration takes threads from is ever popped empty, however stale the counts are. */
  lemma {:induction false} NeverPopsEmpty(s: State, turns: seq<Turn>, c: nat)
    requires Fine(s) && c < |s.at|
    ensures var r := Run(s, turns);
      && (r.at[c].Taking? ==> r.at[c].toSend <= |r.queues[c]|)
      && (r.at[c].Sending? ==> r.at[c].toSend <= |r.at[c].victims|)
  {
    RunFine(s, turns);
    var r := Run(s, turns);
    assert CpuFine(r.queues[c], r.at[c], r.cpu, r.current[c], |r.queues|, c);
  }

  /** A sender raises no queue above the share that it has worked out, and changes no other one than the receiver's. */
  lemma {:induction false} NotAboveShare(s: State, turns: seq<Turn>, c: nat, d: nat)
    requires Fine(s) && c < |s.at| && d < |s.at|
    ensures var r := Run(s, turns);
      var r' := Section(r, c);
      r.at[c].Sending? ==> r'.queues[d] == r.queues[d] || (d == r.at[c].i && d != c && r.queues[d] <= r'.queues[d] && |r'.queues[d]| <= r.at[c].share)
  {
    RunFine(s, turns);
    var r := Run(s, turns);
    var p := r.at[c];
    CpuParts(r.queues[c], p, r.cpu, r.current[c], |r.queues|, c);
    hide CpuFine, Send;
    if p.Sending? && p.i < |r.queues| && p.toSend > 0 && p.i != c {
      SendKeeps(r.queues[p.i], p.victims, p.toSend, p.share, r.current[c]);
    }
  }

  /**
   * The share that a processor works with is the least that suffices for the total it counted, and it goes on exactly if
   * it counted at least that much of its own, sending what is above.
   */
  lemma {:induction false} ShareOfCount(s: State, turns: seq<Turn>, c: nat)
    requires Fine(s) && c < |s.at|
    ensures var r := Run(s, turns);
      var p, p' := r.at[c], Section(r, c).at[c];
      p.Counting? && p.i == |s.at| ==>
        || (p'.Taking? && IsLeastShare(p.total, |s.at|, p'.share) && p.mine == p'.share + p'.toSend)
        || (p'.Outside? && forall share: nat :: IsLeastShare(p.total, |s.at|, share) ==> p.mine < share)
  {
    RunFine(s, turns);
    var r := Run(s, turns);
    var p, n := r.at[c], |s.at|;
    CpuParts(r.queues[c], p, r.cpu, r.current[c], n, c);
    hide CpuFine;
    if p.Counting? && p.i == n {
      RoundedUp(p.total, n);
      var share := (p.total + n - 1) / n;
      forall k: nat | IsLeastShare(p.total, n, k)
        ensures k == share
      {
        OneLeastShare(p.total, n, k, share);
      }
      hide IsLeastShare;
    }
  }

  lemma {:induction false} OneLeastShare(total: nat, n: nat, j: nat, k: nat)
    requires IsLeastShare(total, n, j) && IsLeastShare(total, n, k)
    ensures j == k
  {
    assert total <= j * n && total <= k * n;
  }

  // ----- the run queue is first come, first served

  /** A turn in which processor `c` takes the next thread off its queue. */
  predicate Switches(s: State, turn: Turn, c: nat) {
    turn == Dequeue(c) && c < |s.at| && c < |s.queues| && s.at[c].Outside? && s.queues[c] != []
  }

  ghost function SwitchesIn(s: State, turns: seq<Turn>, c: nat): nat
    requires |s.queues| == |s.at| == |s.current|
    decreases |turns|
  {
    if turns == [] then 0 else
    var last := |turns| - 1;
    SwitchesIn(s, turns[..last], c) + if Switches(Run(s, turns[..last]), turns[last], c) then 1 else 0
  }

  /** Thread `w` runs on processor `c`, or has been taken off its queue to be sent away. */
  predicate OffQueue(s: State, c: nat, w: nat) {
    c < |s.at| && c < |s.current| && (s.current[c] == w || w in Victims(s.at[c]))
  }

  ghost predicate WasOffQueue(s: State, turns: seq<Turn>, c: nat, w: nat)
    requires |s.queues| == |s.at| == |s.current|
  {
    exists k: nat :: k <= |turns| && OffQueue(Run(s, turns[..k]), c, w)
  }

  /** A section keeps the place of a thread on a queue, unless it makes it a victim. */
  lemma {:induction false} SectionOrder(s: State, d: nat, c: nat, q: nat)
    requires Fine(s) && d < |s.at| && c < |s.at| && q < |s.queues[c]|
    ensures var s', w := Section(s, d), s.queues[c][q];
      c < |s'.at| == |s'.current| && (OffQueue(s', c, w) || (c < |s'.queues| && q < |s'.queues[c]| && s'.queues[c][q] == w))
  {
    hide CpuFine, Send;
    var p, n := s.at[d], |s.queues|;
    CpuParts(s.queues[d], p, s.cpu, s.current[d], n, d);
    if p.Sending? && p.i < n && p.toSend > 0 && p.i != d {
      SendKeeps(s.queues[p.i], p.victims, p.toSend, p.share, s.current[d]);
      var r := Send(s.queues[p.i], p.victims, p.toSend, p.share, s.current[d]);
      assert forall i :: 0 <= i < |s.queues[p.i]| ==> r.queue[i] == s.queues[p.i][i];
    } else if p.Taking? && c == d {
      var k := |s.queues[c]| - p.toSend;
      assert q >= k ==> s.queues[c][k..][q - k] == s.queues[c][q];
    }
  }

  lemma {:induction false} StepOrder(s: State, turn: Turn, c: nat, q: nat) returns (q': nat)
    requires Fine(s) && c < |s.at| && q < |s.queues[c]|
    ensures var s', w := Step(s, turn), s.queues[c][q];
      || OffQueue(s', c, w)
      || (c < |s'.queues| && q' < |s'.queues[c]| && s'.queues[c][q'] == w && q' + (if Switches(s, turn, c) then 1 else 0) <= q)
  {
    hide CpuFine, Section;
    q' := if Switches(s, turn, c) && q > 0 then q - 1 else q;
    if turn.Go? && turn.c < |s.at| {
      SectionOrder(s, turn.c, c, q);
    }
  }

  lemma {:induction false} OrderAfter(s: State, turns: seq<Turn>, c: nat, p: nat) returns (q: nat)
    requires Fine(s) && c < |s.at| && p < |s.queues[c]|
    ensures var s', w := Run(s, turns), s.queues[c][p];
      WasOffQueue(s, turns, c, w) || (q < |s'.queues[c]| && s'.queues[c][q] == w && q + SwitchesIn(s, turns, c) <= p)
    decreases |turns|
  {
    hide Step, OffQueue, Switches;
    q := p;
    if turns != [] {
      var last, w := |turns| - 1, s.queues[c][p];
      q := OrderAfter(s, turns[..last], c, p);
      RunFine(s, turns[..last]);
      hide Fine;
      if WasOffQueue(s, turns[..last], c, w) {
        var k: nat :| k <= last && OffQueue(Run(s, turns[..last][..k]), c, w);
        assert turns[..last][..k] == turns[..k];
      } else {
        q := StepOrder(Run(s, turns[..last]), turns[last], c, q);
        assert turns[..|turns|] == turns;
      }
    }
  }

  /**
   * A thread with `p` others in front of it on a run queue gets to run, or is taken to be sent to another processor, by
   * the time that the processor has switched `p + 1` times, whatever else happens.
   */
  lemma {:induction false} RunInOrder(s: State, turns: seq<Turn>, c: nat, p: nat)
    requires Fine(s) && c < |s.at| && p < |s.queues[c]| && SwitchesIn(s, turns, c) > p
    ensures WasOffQueue(s, turns, c, s.queues[c][p])
  {
    var q := OrderAfter(s, turns, c, p);
  }

  // ----- one processor on its own

  /** The next `k` sections of processor `c`, with nothing in between. */
  function Solo(s: State, c: nat, k: nat): (r: State)
    requires c < |s.queues| == |s.at| == |s.current|
    ensures |r.queues| == |r.at| == |r.current| == |s.at|
    decreases k
  {
    if k == 0 then s else
    SectionShape(s, c);
    Solo(Section(s, c), c, k - 1)
  }

  lemma {:induction false} RunConcat(s: State, a: seq<Turn>, b: seq<Turn>)
    requires |s.queues| == |s.at| == |s.current|
    ensures Run(s, a + b) == Run(Run(s, a), b)
    decreases |b|
  {
    hide Step;
    if b == [] {
      assert a + b == a;
    } else {
      var last := |b| - 1;
      assert (a + b)[..|a + b| - 1] == a + b[..last];
      RunConcat(s, a, b[..last]);
    }
  }

  lemma {:induction false} SoloIsRun(s: State, c: nat, k: nat)
    requires c < |s.queues| == |s.at| == |s.current|
    ensures Run(s, seq(k, _ => Go(c))) == Solo(s, c, k)
    decreases k
  {
    hide Section;
    if k > 0 {
      SectionShape(s, c);
      SoloIsRun(Section(s, c), c, k - 1);
      assert seq(k, _ => Go(c)) == [Go(c)] + seq(k - 1, _ => Go(c));
      RunConcat(s, [Go(c)], seq(k - 1, _ => Go(c)));
      OneTurn(s, Go(c));
    }
  }

  lemma {:induction false} OneTurn(s: State, turn: Turn)
    requires |s.queues| == |s.at| == |s.current|
    ensures Run(s, [turn]) == Step(s, turn)
  {
    hide Step;
    assert [turn][..0] == [];
    assert Run(s, [turn][..0]) == s;
  }

  lemma {:induction false} SoloAdd(s: State, c: nat, j: nat, k: nat)
    requires c < |s.queues| == |s.at| == |s.current|
    ensures Solo(s, c, j + k) == Solo(Solo(s, c, j), c, k)
    decreases j
  {
    hide Section;
    if j > 0 {
      SectionShape(s, c);
      SoloAdd(Section(s, c), c, j - 1, k);
    }
  }

  lemma {:induction false} SoloOne(s: State, c: nat)
    requires c < |s.queues| == |s.at| == |s.current|
    ensures Solo(s, c, 1) == Section(s, c)
  {
    hide Section;
    SectionShape(s, c);
    assert Solo(Section(s, c), c, 0) == Section(s, c);
  }

  /** The counting sections add up what the queues hold. */
  lemma {:induction false} CountAlone(s: State, c: nat, i: nat)
    requires c < |s.queues| == |s.at| == |s.current| && s.at[c].Outside? && i <= |s.queues|
    ensures Total(s.queues, i) <= Total(s.queues, 0)
    ensures Solo(s, c, 1 + i) == s.(at := s.at[c := Counting(i, if i > c then |s.queues[c]| else 0, Total(s.queues, 0) - Total(s.queues, i))])
    decreases i
  {
    if i == 0 {
      SoloOne(s, c);
    } else {
      CountAlone(s, c, i - 1);
      SoloAdd(s, c, i, 1);
      var t := Solo(s, c, 1 + (i - 1));
      SoloOne(t, c);
      hide Solo;
      assert t.at[c := Section(t, c).at[c]] == s.at[c := Section(t, c).at[c]];
    }
  }

  /** The sending sections do what the loop over the receivers does. */
  lemma {:induction false} SendAlone(s: State, c: nat) returns (k: nat)
    requires c < |s.queues| == |s.at| == |s.current| && s.at[c].Sending? && s.at[c].i <= |s.queues|
    ensures var p := s.at[c];
      var r := SendRest(s.queues, s.cpu, p.i, p.share, p.toSend, p.victims, c, s.current[c]);
      Solo(s, c, k) == s.(queues := r.queues, cpu := r.cpu, at := s.at[c := Returning(r.victims)])
    decreases |s.queues| - s.at[c].i
  {
    hide SendSection;
    var p := s.at[c];
    var t := Section(s, c);
    SectionShape(s, c);
    if p.i < |s.queues| && p.toSend > 0 {
      k := SendAlone(t, c);
      var r := SendRest(t.queues, t.cpu, t.at[c].i, t.at[c].share, t.at[c].toSend, t.at[c].victims, c, t.current[c]);
      assert t.at[c := Returning(r.victims)] == s.at[c := Returning(r.victims)];
      k := k + 1;
    } else {
      k := 1;
      SoloOne(s, c);
    }
  }

  /**
   * With nothing in between, the sections of one processor do exactly what `thread_consider_migration` does when it runs
   * without interference.
   */
  lemma {:induction false} RunsAlone(s: State, c: nat) returns (k: nat)
    requires Fine(s) && c < |s.at| && s.at[c].Outside?
    ensures var r := Run(s, seq(k, _ => Go(c)));
      r.at == s.at && r.current == s.current && (r.queues, r.cpu) == Migrated(s.queues, s.cpu, c, s.current[c])
  {
    k := SoloMigrates(s, c);
    SoloIsRun(s, c, k);
  }

  lemma {:induction false} SoloMigrates(s: State, c: nat) returns (k: nat)
    requires c < |s.queues| == |s.at| == |s.current| && s.at[c].Outside?
    ensures var m := Migrated(s.queues, s.cpu, c, s.current[c]);
      Solo(s, c, k) == s.(queues := m.0, cpu := m.1)
  {
    hide SendRest, Total, Solo;
    var n, share, q := |s.queues|, Share(s.queues), s.queues[c];
    CountAlone(s, c, n);
    NobodyLeft(s.queues);
    var s1 := Solo(s, c, 1 + n);
    SoloAdd(s, c, 1 + n, 1);
    SoloOne(s1, c);
    var s2 := Section(s1, c);
    if |q| < share {
      k := 2 + n;
      assert s2.at == s.at;
    } else {
      assert s2 == s.(at := s.at[c := Taking(share, |q| - share)]);
      var s3 := s.(queues := s.queues[c := q[..share]], at := s.at[c := Sending(0, share, |q| - share, q[share..])]);
      SoloAdd(s, c, 2 + n, 1);
      SoloOne(s2, c);
      assert Section(s2, c) == s3 by {
        assert s2.at[c := s3.at[c]] == s3.at;
      }
      var j := SendAlone(s3, c);
      SoloAdd(s, c, 3 + n, j);
      var s4 := Solo(s3, c, j);
      SoloAdd(s, c, 3 + n + j, 1);
      SoloOne(s4, c);
      k := 3 + n + j + 1;
      assert s4.at[c := Outside] == s.at;
    }
  }

  lemma {:induction false} NobodyLeft(queues: seq<seq<nat>>)
    ensures Total(queues, |queues|) == 0
  {
  }
}
