/** Moving threads from a busy processor's run queue to others: `thread_consider_migration`. */
module Migration {
  import opened Multisets
  import opened Nonlinear
  import opened Sequences

  /** The number of queued threads on the processors from `i` on. */
  ghost function Total(queues: seq<seq<nat>>, i: nat): nat
    requires i <= |queues|
    decreases |queues| - i
  {
    if i == |queues| then 0 else |queues[i]| + Total(queues, i + 1)
  }

  /** How many more threads the processors from `i` on, other than `me`, can take before each has `share`. */
  ghost function Room(queues: seq<seq<nat>>, share: int, me: nat, i: nat): int
    requires i <= |queues|
    decreases |queues| - i
  {
    if i == |queues| then 0 else (if i == me then 0 else share - |queues[i]|) + Room(queues, share, me, i + 1)
  }

  lemma {:induction false} RoomIs(queues: seq<seq<nat>>, share: int, me: nat, i: nat)
    requires i <= |queues| && me < |queues|
    ensures Room(queues, share, me, i) + Total(queues, i) == (if i <= me then |queues[me]| - share else 0) + share * (|queues| - i)
    decreases |queues| - i
  {
    if i < |queues| {
      RoomIs(queues, share, me, i + 1);
      assert share * (|queues| - i) == share + share * (|queues| - i - 1);
    }
  }

  lemma {:induction false} RoomElsewhere(queues: seq<seq<nat>>, share: int, me: nat, i: nat, c: nat, q: seq<nat>)
    requires c < i <= |queues|
    ensures Room(queues[c := q], share, me, i) == Room(queues, share, me, i)
    decreases |queues| - i
  {
    if i < |queues| {
      RoomElsewhere(queues, share, me, i + 1, c, q);
    }
  }

  /** All queued threads. */
  ghost function Everyone(queues: seq<seq<nat>>): multiset<nat>
    decreases |queues|
  {
    if queues == [] then multiset{} else Everyone(queues[..|queues| - 1]) + multiset(queues[|queues| - 1])
  }

  /** The total is the number of queued threads. */
  lemma {:induction false} TotalIs(queues: seq<seq<nat>>)
    ensures Total(queues, 0) == |Everyone(queues)|
    decreases |queues|
  {
    if queues != [] {
      var last := |queues| - 1;
      TotalIs(queues[..last]);
      TotalSnoc(queues, 0);
    }
  }

  lemma {:induction false} TotalSnoc(queues: seq<seq<nat>>, i: nat)
    requires i < |queues|
    ensures Total(queues, i) == Total(queues[..|queues| - 1], i) + |queues[|queues| - 1]|
    decreases |queues| - i
  {
    if i < |queues| - 1 {
      TotalSnoc(queues, i + 1);
    } else {
      assert Total(queues, i + 1) == 0;
    }
  }

  lemma {:induction false} Swap(a: multiset<nat>, b: multiset<nat>, c: multiset<nat>)
    ensures a + b + c == a + c + b
  {
  }

  lemma {:induction false} EveryoneUpdate(queues: seq<seq<nat>>, c: nat, q: seq<nat>)
    requires c < |queues|
    ensures Everyone(queues[c := q]) + multiset(queues[c]) == Everyone(queues) + multiset(q)
    decreases |queues|
  {
    var last := |queues| - 1;
    assert Everyone(queues[c := q]) == Everyone(queues[c := q][..last]) + multiset(queues[c := q][last]);
    assert Everyone(queues) == Everyone(queues[..last]) + multiset(queues[last]);
    if c == last {
      assert queues[c := q][..last] == queues[..last];
      Swap(Everyone(queues[..last]), multiset(q), multiset(queues[c]));
    } else {
      assert queues[c := q][..last] == queues[..last][c := q];
      EveryoneUpdate(queues[..last], c, q);
      Swap(Everyone(queues[..last][c := q]), multiset(queues[last]), multiset(queues[c]));
      Swap(Everyone(queues[..last]), multiset(q), multiset(queues[last]));
    }
  }

  /** Every queued thread is queued once, on the queue of the processor that its `t_cpu` names. */
  ghost predicate Placed(queues: seq<seq<nat>>, cpu: map<nat, nat>) {
    && (forall c :: 0 <= c < |queues| ==> Distinct(queues[c]))
    && forall c :: 0 <= c < |queues| ==> OnCpu(queues[c], cpu, c)
  }

  ghost predicate OnCpu(q: seq<nat>, cpu: map<nat, nat>, c: nat) {
    forall t :: t in q ==> t in cpu && cpu[t] == c
  }

  /**
   * The victims still to be sent: `toSend` of them, none of which is `cur` once `cur` has been shuffled to the end,
   * behind the ones that count.
   */
  ghost predicate Pending(victims: seq<nat>, toSend: nat, cur: nat) {
    && Distinct(victims)
    && (|victims| == toSend || (|victims| == toSend + 1 && victims[toSend] == cur))
  }

  /** A list without `x`. */
  ghost function Except(s: seq<nat>, x: nat): seq<nat>
    decreases |s|
  {
    if s == [] then [] else
    var last := |s| - 1;
    Except(s[..last], x) + if s[last] == x then [] else [s[last]]
  }

  /** Just the occurrences of `x` in a list. */
  ghost function Only(s: seq<nat>, x: nat): seq<nat>
    decreases |s|
  {
    if s == [] then [] else
    var last := |s| - 1;
    Only(s[..last], x) + if s[last] == x then [x] else []
  }

  lemma {:induction false} NothingTaken(victims: seq<nat>, cur: nat, q: seq<nat>)
    ensures q == q + Except(victims[..0], cur) && victims == victims[0..] + Only(victims[..0], cur)
  {
    assert victims[..0] == [];
  }

  /** The next victim is the one at `n`, and goes to the queue unless it is `cur`, which goes to the end. */
  lemma {:induction false} TakeOne(victims: seq<nat>, n: nat, cur: nat, q: seq<nat>)
    requires n < |victims|
    ensures var t, rest := victims[n], victims[n..] + Only(victims[..n], cur);
      && rest[0] == t
      && victims[n + 1..] + Only(victims[..n + 1], cur) == rest[1..] + (if t == cur then [cur] else [])
      && q + Except(victims[..n + 1], cur) == q + Except(victims[..n], cur) + (if t == cur then [] else [t])
      && Except(victims[..n + 1], cur) == (if t == cur then Except(victims[..n], cur) else Except(victims[..n], cur) + [t])
  {
    var t := victims[n];
    assert victims[..n + 1][..n] == victims[..n] && victims[..n + 1][n] == t;
    assert Except(victims[..n + 1], cur) == Except(victims[..n], cur) + if t == cur then [] else [t];
    assert Only(victims[..n + 1], cur) == Only(victims[..n], cur) + if t == cur then [cur] else [];
    assert victims[n..][1..] == victims[n + 1..];
  }

  /** Nobody is lost on the way. */
  lemma {:induction false} SentFacts(victims: seq<nat>, n: nat, cur: nat, q: seq<nat>)
    requires n <= |victims|
    ensures var q', victims' := q + Except(victims[..n], cur), victims[n..] + Only(victims[..n], cur);
      && multiset(q') + multiset(victims') == multiset(q) + multiset(victims)
      && (forall t :: t in victims' ==> t in victims)
      && (cur in victims ==> cur in victims')
      && (forall t :: t in Except(victims[..n], cur) ==> t in victims)
      && |q'| - |q| <= n
  {
    var s := victims[..n];
    Parted(s, cur);
    assert victims == s + victims[n..];
    forall t | t in Except(s, cur)
      ensures t in victims
    {
      assert t in multiset(Except(s, cur)) + multiset(Only(s, cur));
    }
  }

  lemma {:induction false} Parted(s: seq<nat>, x: nat)
    ensures multiset(Except(s, x)) + multiset(Only(s, x)) == multiset(s)
    ensures |Except(s, x)| <= |s|
    ensures x in s <==> x in Only(s, x)
    ensures forall t :: t in Only(s, x) ==> t == x
    decreases |s|
  {
    if s != [] {
      var last := |s| - 1;
      Parted(s[..last], x);
      assert s == s[..last] + [s[last]];
    }
  }

  /** The queue, the victims and the number still to be sent after a receiver's locked section. */
  datatype Sent = Sent(queue: seq<nat>, victims: seq<nat>, toSend: nat)

  function Send(q: seq<nat>, victims: seq<nat>, toSend: nat, share: nat, cur: nat): Sent
    decreases toSend
  {
    if |q| < share && toSend > 0 && victims != [] then
      if victims[0] == cur then Send(q, victims[1..] + [cur], toSend - 1, share, cur)
      else Send(q + [victims[0]], victims[1..], toSend - 1, share, cur)
    else Sent(q, victims, toSend)
  }

  lemma {:induction false} SendStep(q: seq<nat>, victims: seq<nat>, toSend: nat, share: nat, cur: nat)
    requires |q| < share && toSend > 0 && victims != []
    ensures victims[0] == cur ==> Send(q, victims, toSend, share, cur) == Send(q, victims[1..] + [cur], toSend - 1, share, cur)
    ensures victims[0] != cur ==> Send(q, victims, toSend, share, cur) == Send(q + [victims[0]], victims[1..], toSend - 1, share, cur)
  {
  }

  lemma {:induction false} SendDone(q: seq<nat>, victims: seq<nat>, toSend: nat, share: nat, cur: nat)
    requires |q| >= share || toSend == 0
    ensures Send(q, victims, toSend, share, cur) == Sent(q, victims, toSend)
  {
  }

  /** The threads `ts` now belong to processor `c`. */
  function Assigned(cpu: map<nat, nat>, ts: seq<nat>, c: nat): map<nat, nat> {
    map t | t in cpu :: if t in ts then c else cpu[t]
  }

  lemma {:induction false} AssignedMore(cpu: map<nat, nat>, ts: seq<nat>, c: nat, t: nat)
    requires t in Assigned(cpu, ts, c)
    ensures Assigned(cpu, ts + [t], c) == Assigned(cpu, ts, c)[t := c]
  {
  }

  lemma {:induction false} AssignedAre(cpu: map<nat, nat>, ts: seq<nat>, c: nat)
    ensures Assigned(cpu, ts, c).Keys == cpu.Keys
    ensures forall t :: t in cpu && t !in ts ==> Assigned(cpu, ts, c)[t] == cpu[t]
  {
  }

  lemma {:induction false} AssignedNone(cpu: map<nat, nat>, c: nat)
    ensures Assigned(cpu, [], c) == cpu
  {
  }

  /** What a locked section leaves. */
  datatype Round = Round(queues: seq<seq<nat>>, cpu: map<nat, nat>, toSend: nat, victims: seq<nat>)

  /** The locked section of receiver `i`. */
  function SendSection(queues: seq<seq<nat>>, cpu: map<nat, nat>, i: nat, share: nat, toSend: nat, victims: seq<nat>, cur: nat): (r: Round)
    requires i < |queues|
    ensures |r.queues| == |queues|
  {
    var r := Send(queues[i], victims, toSend, share, cur);
    var moved := if |queues[i]| <= |r.queue| then r.queue[|queues[i]|..] else [];
    Round(queues[i := r.queue], Assigned(cpu, moved, i), r.toSend, r.victims)
  }

  /** All receivers from `i` on. */
  function SendRest(queues: seq<seq<nat>>, cpu: map<nat, nat>, i: nat, share: nat, toSend: nat, victims: seq<nat>, me: nat, cur: nat): (r: Round)
    requires i <= |queues|
    ensures |r.queues| == |queues|
    decreases |queues| - i
  {
    if i == |queues| || toSend == 0 then Round(queues, cpu, toSend, victims)
    else if i == me then SendRest(queues, cpu, i + 1, share, toSend, victims, me, cur)
    else
      var r := SendSection(queues, cpu, i, share, toSend, victims, cur);
      SendRest(r.queues, r.cpu, i + 1, share, r.toSend, r.victims, me, cur)
  }

  /** What each processor is to have: the average, rounded up. */
  ghost function Share(queues: seq<seq<nat>>): nat
    requires queues != []
  {
    (Total(queues, 0) + |queues| - 1) / |queues|
  }

  /** `share` is what `n` processors must have at least, each the same, to hold `total` threads. */
  ghost predicate IsLeastShare(total: nat, n: nat, share: nat) {
    total <= share * n && forall k: nat {:trigger k * n} :: total <= k * n ==> share <= k
  }

  /** Rounding up finds it. */
  lemma {:induction false} RoundedUp(total: nat, n: nat)
    requires n > 0
    ensures IsLeastShare(total, n, (total + n - 1) / n)
  {
    var share := (total + n - 1) / n;
    DivMod(total + n - 1, n);
    forall k: nat {:trigger k * n} | total <= k * n
      ensures share <= k
    {
      MulSucc(k, n);
      MulCancelLess(share, k + 1, n);
    }
  }

  /** The whole of `thread_consider_migration` when nobody else runs. */
  ghost function Migrated(queues: seq<seq<nat>>, cpu: map<nat, nat>, me: nat, cur: nat): (seq<seq<nat>>, map<nat, nat>)
    requires me < |queues|
  {
    var q, share := queues[me], Share(queues);
    if |q| < share then (queues, cpu) else
    var r := SendRest(queues[me := q[..share]], cpu, 0, share, |q| - share, q[share..], me, cur);
    (r.queues[me := r.queues[me] + r.victims], r.cpu)
  }

  /** What a receiver's section starts with. */
  datatype Job = Job(queues: seq<seq<nat>>, cpu: map<nat, nat>, me: nat, c: nat, share: nat, toSend: nat, victims: seq<nat>, cur: nat)

  ghost predicate Starts(j: Job) {
    && j.me < |j.queues| && j.c < |j.queues| && j.c != j.me && Placed(j.queues, j.cpu)
    && Pending(j.victims, j.toSend, j.cur) && OnCpu(j.victims, j.cpu, j.me)
    && forall t :: t in j.victims ==> t !in j.queues[j.me]
  }

  /** Part way: some victims have been taken in order, and the rest of the section will do the rest of what the whole does. */
  ghost predicate SendingAt(j: Job, r: Round) {
    && Starts(j)
    && |r.queues| == |j.queues| && r.queues == j.queues[j.c := r.queues[j.c]] && Placed(r.queues, r.cpu)
    && Pending(r.victims, r.toSend, j.cur) && OnCpu(r.victims, r.cpu, j.me)
    && r.toSend <= j.toSend <= |j.victims|
    && (|j.queues[j.c]| < j.share ==> |r.queues[j.c]| <= j.share) && (|j.queues[j.c]| >= j.share ==> r.toSend == j.toSend)
    && Taken(j, r, j.toSend - r.toSend)
    && Send(r.queues[j.c], r.victims, r.toSend, j.share, j.cur) == Send(j.queues[j.c], j.victims, j.toSend, j.share, j.cur)
  }

  ghost predicate Taken(j: Job, r: Round, n: nat)
    requires j.c < |j.queues| == |r.queues| && n <= |j.victims|
  {
    && r.queues[j.c] == j.queues[j.c] + Except(j.victims[..n], j.cur)
    && r.victims == j.victims[n..] + Only(j.victims[..n], j.cur)
    && r.cpu == Assigned(j.cpu, Except(j.victims[..n], j.cur), j.c)
  }

  lemma {:induction false} SendingStart(j: Job)
    requires Starts(j)
    ensures SendingAt(j, Round(j.queues, j.cpu, j.toSend, j.victims))
  {
    hide Placed, OnCpu, Except, Only, Send, Assigned;
    PendingSize(j.victims, j.toSend, j.cur);
    NothingTaken(j.victims, j.cur, j.queues[j.c]);
    AssignedNone(j.cpu, j.c);
  }

  /** One victim further. */
  lemma {:induction false} SendingNext(j: Job, r: Round)
    requires SendingAt(j, r) && |r.queues[j.c]| < j.share && r.toSend > 0
    ensures r.victims != []
    ensures var t := r.victims[0];
      SendingAt(j, if t == j.cur then r.(toSend := r.toSend - 1, victims := r.victims[1..] + [t])
                   else Round(r.queues[j.c := r.queues[j.c] + [t]], r.cpu[t := j.c], r.toSend - 1, r.victims[1..]))
  {
    hide Placed, Pending, OnCpu, Except, Only, Send, Assigned;
    var n := j.toSend - r.toSend;
    PendingHead(r.victims, r.toSend, j.cur, r.cpu, j.me);
    var t := r.victims[0];
    SendStep(r.queues[j.c], r.victims, r.toSend, j.share, j.cur);
    TakeOne(j.victims, n, j.cur, j.queues[j.c]);
    if t != j.cur {
      MovePlaced(r.queues, r.cpu, j.me, j.c, t);
      OthersOnCpu(r.victims[1..], r.cpu, j.me, t, j.c);
      AssignedMore(j.cpu, Except(j.victims[..n], j.cur), j.c, t);
    }
  }

  /** What the section has done when it ends. */
  lemma {:induction false} SendingEnd(j: Job, r: Round)
    requires SendingAt(j, r) && (|r.queues[j.c]| >= j.share || r.toSend == 0)
    ensures Placed(r.queues, r.cpu) && Pending(r.victims, r.toSend, j.cur) && OnCpu(r.victims, r.cpu, j.me)
    ensures r.queues == j.queues[j.c := r.queues[j.c]] && j.queues[j.c] <= r.queues[j.c]
    ensures multiset(r.queues[j.c]) + multiset(r.victims) == multiset(j.queues[j.c]) + multiset(j.victims)
    ensures (forall t :: t in r.victims ==> t in j.victims) && (j.cur in j.victims ==> j.cur in r.victims)
    ensures if |j.queues[j.c]| >= j.share then r.queues[j.c] == j.queues[j.c] else |r.queues[j.c]| <= j.share
    ensures r.toSend <= j.toSend && j.toSend - r.toSend >= |r.queues[j.c]| - |j.queues[j.c]|
    ensures forall t :: t in r.cpu <==> t in j.cpu
    ensures forall t :: t in r.cpu && t !in j.victims ==> r.cpu[t] == j.cpu[t]
    ensures SendSection(j.queues, j.cpu, j.c, j.share, j.toSend, j.victims, j.cur) == r
    ensures var n := j.toSend - r.toSend;
      n <= |j.victims| && r.queues[j.c] == j.queues[j.c] + Except(j.victims[..n], j.cur) && r.victims == j.victims[n..] + Only(j.victims[..n], j.cur)
  {
    hide Placed, Pending, OnCpu, Send, Assigned;
    var n, q := j.toSend - r.toSend, j.queues[j.c];
    var moved := Except(j.victims[..n], j.cur);
    if n == 0 {
      NothingTaken(j.victims, j.cur, q);
      assert j.victims[..0] == [] && Except([], j.cur) == [];
    }
    hide Except, Only;
    SendDone(r.queues[j.c], r.victims, r.toSend, j.share, j.cur);
    assert r.queues[j.c][|q|..] == moved;
    SentFacts(j.victims, n, j.cur, q);
    AssignedAre(j.cpu, moved, j.c);
  }

  class Scheduler {
    /** One run queue per processor. */
    var queues: seq<seq<nat>>
    /** `t_cpu` of every thread. */
    var cpu: map<nat, nat>
    const me: nat
    const curthread: nat

    ghost predicate Valid()
      reads this
    {
      me < |queues| && Placed(queues, cpu)
    }

    constructor (queues: seq<seq<nat>>, cpu: map<nat, nat>, me: nat, curthread: nat)
      requires me < |queues| && Placed(queues, cpu)
      ensures Valid() && this.queues == queues && this.cpu == cpu && this.me == me && this.curthread == curthread
    {
      this.queues, this.cpu, this.me, this.curthread := queues, cpu, me, curthread;
    }

    /** The counting loop. */
    method Count() returns (mine: nat, total: nat)
      requires me < |queues|
      ensures mine == |queues[me]| && total == Total(queues, 0)
    {
      mine, total := 0, 0;
      var i := 0;
      while i < |queues|
        invariant 0 <= i <= |queues|
        invariant total + Total(queues, i) == Total(queues, 0)
        invariant i > me ==> mine == |queues[me]|
      {
        total := total + |queues[i]|;
        if i == me {
          mine := |queues[i]|;
        }
        i := i + 1;
      }
    }

    /**
     * The section that takes the victims: the last `toSend` threads of this processor's queue, in order.  Between the
     * counting and here, other processors can only have added to the queue.
     */
    method TakeVictims(toSend: nat) returns (victims: seq<nat>)
      requires Valid() && toSend <= |queues[me]|
      modifies this`queues
      ensures Valid() && queues == old(queues)[me := queues[me]]
      ensures old(queues)[me] == queues[me] + victims && |victims| == toSend
    {
      victims := [];
      var i := 0;
      ghost var q := queues[me];
      while i < toSend
        invariant 0 <= i <= toSend && |victims| == i && me < |queues|
        invariant queues == old(queues)[me := queues[me]] && queues[me] + victims == q
      {
        var n := |queues[me]|;
        var t := queues[me][n - 1];
        queues := queues[me := queues[me][..n - 1]];
        victims := [t] + victims;
        i := i + 1;
      }
      PrefixPlaced(old(queues), cpu, me, queues[me], victims);
    }

    /** The section that holds the queue of processor `c`: from any state that other processors may have left it in. */
    method SendTo(c: nat, share: nat, toSend: nat, victims: seq<nat>) returns (toSend': nat, victims': seq<nat>)
      requires Valid() && c < |queues| && c != me && Pending(victims, toSend, curthread)
      requires OnCpu(victims, cpu, me) && forall t :: t in victims ==> t !in queues[me]
      modifies this
      ensures Valid() && Pending(victims', toSend', curthread) && OnCpu(victims', cpu, me)
      ensures forall t :: t in victims' ==> t in victims
      ensures |queues| == |old(queues)| && queues == old(queues)[c := queues[c]] && old(queues)[c] <= queues[c]
      ensures multiset(queues[c]) + multiset(victims') == multiset(old(queues)[c]) + multiset(victims)
      ensures curthread in victims ==> curthread in victims'
      ensures |old(queues)[c]| >= share ==> queues[c] == old(queues)[c]
      ensures |old(queues)[c]| < share ==> |queues[c]| <= share
      ensures toSend' == 0 || |queues[c]| >= share
      ensures toSend' <= toSend && (toSend' > 0 ==> toSend - toSend' >= |queues[c]| - |old(queues)[c]|)
      ensures forall t :: t in cpu <==> t in old(cpu)
      ensures forall t :: t in cpu && t !in victims ==> cpu[t] == old(cpu)[t]
      ensures SendSection(old(queues), old(cpu), c, share, toSend, victims, curthread) == Round(queues, cpu, toSend', victims')
      ensures var n := toSend - toSend';
        n <= |victims| && queues[c] == old(queues)[c] + Except(victims[..n], curthread) && victims' == victims[n..] + Only(victims[..n], curthread)
    {
      hide Placed, Pending, OnCpu, SendingAt, SendSection, Except, Only;
      toSend', victims' := toSend, victims;
      ghost var j := Job(queues, cpu, me, c, share, toSend, victims, curthread);
      SendingStart(j);
      while |queues[c]| < share && toSend' > 0
        invariant |queues| == |old(queues)| && SendingAt(j, Round(queues, cpu, toSend', victims'))
        decreases toSend'
      {
        SendingNext(j, Round(queues, cpu, toSend', victims'));
        var t := victims'[0];
        victims' := victims'[1..];
        if t == curthread {
          victims' := victims' + [t];
        } else {
          cpu := cpu[t := c];
          queues := queues[c := queues[c] + [t]];
        }
        toSend' := toSend' - 1;
      }
      SendingEnd(j, Round(queues, cpu, toSend', victims'));
    }

    /** Leftover victims go back to the end of this processor's queue. */
    method PutBack(victims: seq<nat>)
      requires Valid() && Distinct(victims) && OnCpu(victims, cpu, me) && forall t :: t in victims ==> t !in queues[me]
      modifies this`queues
      ensures Valid() && queues == old(queues)[me := old(queues)[me] + victims]
    {
      var rest := victims;
      ghost var done := [];
      while rest != []
        invariant me < |queues| && victims == done + rest
        invariant queues[me] == old(queues)[me] + done && queues == old(queues)[me := queues[me]]
        decreases |rest|
      {
        ghost var t := rest[0];
        queues := queues[me := queues[me] + [rest[0]]];
        rest := rest[1..];
        done := done + [t];
      }
      assert done == victims;
      BackPlaced(old(queues), cpu, me, victims);
    }

    /** The loop over the receivers.  With room for all of them, every victim but `curthread` is sent. */
    method SendAll(share: nat, toSend: nat, victims: seq<nat>) returns (victims': seq<nat>)
      requires Valid() && Pending(victims, toSend, curthread) && OnCpu(victims, cpu, me) && forall t :: t in victims ==> t !in queues[me]
      requires toSend <= Room(queues, share, me, 0)
      modifies this
      ensures Valid() && |queues| == |old(queues)| && queues[me] == old(queues)[me]
      ensures OnCpu(victims', cpu, me) && Distinct(victims') && forall t :: t in victims' ==> t in victims
      ensures curthread in victims ==> curthread in victims'
      ensures Everyone(queues) + multiset(victims') == Everyone(old(queues)) + multiset(victims)
      ensures forall c :: 0 <= c < |queues| && c != me ==> old(queues)[c] <= queues[c] && (|queues[c]| <= share || queues[c] == old(queues)[c])
      ensures victims' == [] || victims' == [curthread]
      ensures var r := SendRest(old(queues), old(cpu), 0, share, toSend, victims, me, curthread); queues == r.queues && cpu == r.cpu && victims' == r.victims
    {
      hide Placed, Pending, OnCpu, Everyone, Room, Distinct, Except, Only, SendSection;
      ghost var all := Everyone(queues) + multiset(victims);
      victims' := victims;
      var left: nat := toSend;
      var i := 0;
      while i < |queues| && left > 0
        invariant 0 <= i <= |queues| == |old(queues)| && Valid() && queues[me] == old(queues)[me]
        invariant Pending(victims', left, curthread) && OnCpu(victims', cpu, me)
        invariant forall t :: t in victims' ==> t in victims
        invariant curthread in victims ==> curthread in victims'
        invariant Everyone(queues) + multiset(victims') == all
        invariant forall c :: 0 <= c < |queues| && c != me ==> old(queues)[c] <= queues[c] && (|queues[c]| <= share || queues[c] == old(queues)[c])
        invariant left > 0 ==> left <= Room(queues, share, me, i)
        invariant SendRest(queues, cpu, i, share, left, victims', me, curthread) == SendRest(old(queues), old(cpu), 0, share, toSend, victims, me, curthread)
      {
        NextRoom(queues, share, me, i);
        if i != me {
          ghost var before, v := queues, victims';
          left, victims' := SendTo(i, share, left, victims');
          SentEveryone(before, queues[i], i, v, victims', all);
          RoomElsewhere(before, share, me, i + 1, i, queues[i]);
        }
        i := i + 1;
      }
      NoRoom(queues, share, me);
      Leftover(victims', left, curthread);
    }

    /**
     * `thread_consider_migration`, run without interference.  No thread is lost or duplicated, each is on the queue that
     * its `t_cpu` names, and `curthread` stays.  This processor ends with its share, or with one more when `curthread`
     * was among the victims; no other one is raised above the share.
     */
    method ConsiderMigration() returns (share: nat)
      requires Valid()
      modifies this
      ensures Valid() && |queues| == |old(queues)|
      ensures share == Share(old(queues)) && IsLeastShare(Total(old(queues), 0), |queues|, share)
      ensures (queues, cpu) == Migrated(old(queues), old(cpu), me, curthread)
      ensures Everyone(queues) == Everyone(old(queues))
      ensures curthread in old(queues)[me] ==> curthread in queues[me]
      ensures |old(queues)[me]| < share ==> queues == old(queues)
      ensures |old(queues)[me]| >= share ==> |queues[me]| == share + if curthread in old(queues)[me][share..] then 1 else 0
      ensures forall c :: 0 <= c < |queues| && c != me ==> old(queues)[c] <= queues[c] && (|queues[c]| <= share || queues[c] == old(queues)[c])
    {
      hide Placed, Pending, OnCpu, Everyone, Room, Total, Distinct, SendRest, IsLeastShare;
      RoundedUp(Total(queues, 0), |queues|);
      var mine, total := Count();
      share := (total + |queues| - 1) / |queues|;
      if mine < share {
        return;
      }
      var toSend: nat := mine - share;
      var victims := TakeVictims(toSend);
      StartVictims(old(queues), cpu, me, curthread, queues[me], victims);
      StartSending(old(queues), me, share, queues[me], victims);
      assert victims == old(queues)[me][share..] && queues[me] == old(queues)[me][..share];
      victims := SendAll(share, toSend, victims);
      ghost var kept := queues;
      EveryoneUpdate(queues, me, queues[me] + victims);
      if victims != [] {
        PutBack(victims);
      } else {
        assert queues[me] + victims == queues[me];
        assert queues == queues[me := queues[me] + victims];
      }
      Returned(kept, me, victims, Everyone(old(queues)));
    }
  }

  /** What holds once the victims have been taken. */
  lemma {:induction false} StartVictims(queues: seq<seq<nat>>, cpu: map<nat, nat>, me: nat, cur: nat, q: seq<nat>, victims: seq<nat>)
    requires Placed(queues, cpu) && me < |queues| && queues[me] == q + victims
    ensures Pending(victims, |victims|, cur) && OnCpu(victims, cpu, me) && forall t :: t in victims ==> t !in q
  {
    assert Distinct(queues[me]) && OnCpu(queues[me], cpu, me);
    forall i, j | 0 <= i < |q| && 0 <= j < |victims|
      ensures q[i] != victims[j]
    {
      assert queues[me][i] == q[i] && queues[me][|q| + j] == victims[j];
    }
    forall i, j | 0 <= i < j < |victims|
      ensures victims[i] != victims[j]
    {
      assert queues[me][|q| + i] == victims[i] && queues[me][|q| + j] == victims[j];
    }
    forall t | t in victims
      ensures t in queues[me]
    {
    }
  }

  lemma {:induction false} StartSending(queues: seq<seq<nat>>, me: nat, share: nat, q: seq<nat>, victims: seq<nat>)
    requires me < |queues| && queues[me] == q + victims && |q| == share
    requires share == (Total(queues, 0) + |queues| - 1) / |queues|
    ensures Everyone(queues[me := q]) + multiset(victims) == Everyone(queues)
    ensures |victims| <= Room(queues[me := q], share, me, 0)
  {
    hide Everyone, Room, Total;
    EveryoneUpdate(queues, me, q);
    assert multiset(queues[me]) == multiset(q) + multiset(victims);
    assert multiset(q) + multiset(victims) == multiset(queues[me]) + multiset([]);
    Exchange(Everyone(queues[me := q]), multiset(queues[me]), Everyone(queues), multiset(q), multiset(victims), multiset([]));
    RoomIs(queues, share, me, 0);
    CeilBound(Total(queues, 0), |queues|, share);
    RoomMe(queues, share, me, 0, q);
  }

  lemma CeilBound(total: nat, n: nat, share: nat)
    requires n > 0 && share == (total + n - 1) / n
    ensures total <= share * n
  {
    DivMod(total + n - 1, n);
  }

  lemma {:induction false} RoomMe(queues: seq<seq<nat>>, share: int, me: nat, i: nat, q: seq<nat>)
    requires me < |queues| && i <= |queues|
    ensures Room(queues[me := q], share, me, i) == Room(queues, share, me, i)
    decreases |queues| - i
  {
    if i < |queues| {
      RoomMe(queues, share, me, i + 1, q);
    }
  }

  lemma {:induction false} NextRoom(queues: seq<seq<nat>>, share: int, me: nat, i: nat)
    requires i < |queues|
    ensures Room(queues, share, me, i) == (if i == me then 0 else share - |queues[i]|) + Room(queues, share, me, i + 1)
  {
  }

  lemma {:induction false} NoRoom(queues: seq<seq<nat>>, share: int, me: nat)
    ensures Room(queues, share, me, |queues|) == 0
  {
  }

  lemma {:induction false} SentEveryone(queues: seq<seq<nat>>, q: seq<nat>, c: nat, victims: seq<nat>, victims': seq<nat>, all: multiset<nat>)
    requires c < |queues| && Everyone(queues) + multiset(victims) == all
    requires multiset(q) + multiset(victims') == multiset(queues[c]) + multiset(victims)
    ensures Everyone(queues[c := q]) + multiset(victims') == all
  {
    EveryoneUpdate(queues, c, q);
    Exchange(Everyone(queues[c := q]), multiset(queues[c]), Everyone(queues), multiset(q), multiset(victims'), multiset(victims));
  }

  lemma {:induction false} Leftover(victims: seq<nat>, toSend: nat, cur: nat)
    requires Pending(victims, toSend, cur)
    ensures Distinct(victims) && (toSend == 0 ==> victims == [] || victims == [cur])
  {
  }

  lemma {:induction false} Returned(queues: seq<seq<nat>>, me: nat, victims: seq<nat>, all: multiset<nat>)
    requires me < |queues| && Everyone(queues) + multiset(victims) == all
    ensures Everyone(queues[me := queues[me] + victims]) == all
  {
    var q := queues[me] + victims;
    EveryoneUpdate(queues, me, q);
    assert multiset(q) == multiset(queues[me]) + multiset(victims);
    assert multiset(q) + multiset([]) == multiset(queues[me]) + multiset(victims);
    Exchange(Everyone(queues[me := q]), multiset(queues[me]), Everyone(queues), multiset(q), multiset([]), multiset(victims));
  }

  lemma {:induction false} BackPlaced(queues: seq<seq<nat>>, cpu: map<nat, nat>, me: nat, victims: seq<nat>)
    requires Placed(queues, cpu) && me < |queues| && Distinct(victims) && OnCpu(victims, cpu, me) && forall t :: t in victims ==> t !in queues[me]
    ensures Placed(queues[me := queues[me] + victims], cpu)
  {
    var q := queues[me] + victims;
    assert Distinct(queues[me]) && OnCpu(queues[me], cpu, me);
    forall i, j | 0 <= i < j < |q|
      ensures q[i] != q[j]
    {
      assert i < |queues[me]| ==> q[i] in queues[me];
      assert j >= |queues[me]| ==> q[j] in victims;
    }
  }


  lemma {:induction false} PendingSize(victims: seq<nat>, toSend: nat, cur: nat)
    requires Pending(victims, toSend, cur)
    ensures toSend <= |victims|
  {
  }

  lemma {:induction false} PendingHead(victims: seq<nat>, toSend: nat, cur: nat, cpu: map<nat, nat>, me: nat)
    requires Pending(victims, toSend, cur) && toSend > 0 && OnCpu(victims, cpu, me)
    ensures |victims| > 0 && victims[0] in cpu && cpu[victims[0]] == me
    ensures victims[0] != cur ==> Pending(victims[1..], toSend - 1, cur)
    ensures victims[0] == cur ==> Pending(victims[1..] + [cur], toSend - 1, cur) && OnCpu(victims[1..] + [cur], cpu, me)
    ensures OnCpu(victims[1..], cpu, me) && victims[0] !in victims[1..]
  {
    assert victims[0] in victims;
    assert victims == [victims[0]] + victims[1..];
  }

  lemma {:induction false} OthersOnCpu(victims: seq<nat>, cpu: map<nat, nat>, me: nat, t: nat, c: nat)
    requires OnCpu(victims, cpu, me) && t !in victims
    ensures OnCpu(victims, cpu[t := c], me)
  {
  }

  /** A thread that is on no queue goes to the end of the queue of `c`. */
  lemma {:induction false} MovePlaced(queues: seq<seq<nat>>, cpu: map<nat, nat>, me: nat, c: nat, t: nat)
    requires Placed(queues, cpu) && me < |queues| && c < |queues| && t in cpu && cpu[t] == me && t !in queues[me]
    ensures Placed(queues[c := queues[c] + [t]], cpu[t := c])
  {
    forall d | 0 <= d < |queues|
      ensures t !in queues[d]
    {
      assert OnCpu(queues[d], cpu, d);
    }
    var queues', cpu' := queues[c := queues[c] + [t]], cpu[t := c];
    forall d | 0 <= d < |queues|
      ensures Distinct(queues'[d]) && OnCpu(queues'[d], cpu', d)
    {
      assert Distinct(queues[d]) && OnCpu(queues[d], cpu, d);
    }
  }

  lemma {:induction false} PrefixPlaced(queues: seq<seq<nat>>, cpu: map<nat, nat>, me: nat, q: seq<nat>, rest: seq<nat>)
    requires Placed(queues, cpu) && me < |queues| && queues[me] == q + rest
    ensures Placed(queues[me := q], cpu)
  {
    forall i, j | 0 <= i < j < |q|
      ensures q[i] != q[j]
    {
      assert queues[me][i] == q[i] && queues[me][j] == q[j];
    }
    assert forall t :: t in q ==> t in queues[me];
  }
}
