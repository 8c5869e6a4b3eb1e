/** Wait channels: the list of the threads that sleep on it, in the order in which they came. */
module WaitChannel {

  /** The channel holds exactly the threads whose place is `asleep`, each once. */
  ghost predicate Queued<P>(channel: seq<nat>, at: map<nat, P>, asleep: P) {
    && (forall i, j :: 0 <= i < j < |channel| ==> channel[i] != channel[j])
    && forall t :: t in channel <==> t in at && at[t] == asleep
  }

  /** `thread_switch` to a wait channel. */
  lemma {:induction false} Sleep<P>(channel: seq<nat>, at: map<nat, P>, asleep: P, t: nat)
    requires Queued(channel, at, asleep) && t in at && at[t] != asleep
    ensures Queued(channel + [t], at[t := asleep], asleep)
  {
    var channel' := channel + [t];
    assert channel'[|channel|] == t && t !in channel;
    forall i, j | 0 <= i < j < |channel'|
      ensures channel'[i] != channel'[j]
    {
      assert j < |channel| || channel[i] in channel;
    }
  }

  /** `wchan_wakeone` on a channel with sleepers. */
  lemma {:induction false} WakeOne<P>(channel: seq<nat>, at: map<nat, P>, asleep: P, p: P)
    requires Queued(channel, at, asleep) && channel != [] && p != asleep
    ensures channel[0] in at && at[channel[0]] == asleep && Queued(channel[1..], at[channel[0] := p], asleep)
  {
    assert channel[0] in channel;
    assert channel == [channel[0]] + channel[1..];
    assert channel[0] !in channel[1..];
  }

  /** A thread that neither was nor is asleep here moves. */
  lemma {:induction false} Elsewhere<P>(channel: seq<nat>, at: map<nat, P>, asleep: P, t: nat, p: P)
    requires Queued(channel, at, asleep) && t in at && at[t] != asleep && p != asleep
    ensures Queued(channel, at[t := p], asleep)
  {
  }

  /** `wchan_wakeall`: every sleeper goes to `p`. */
  function Roused<P>(at: map<nat, P>, channel: seq<nat>, p: P): map<nat, P> {
    map t | t in at :: if t in channel then p else at[t]
  }

  lemma {:induction false} WakeAll<P>(channel: seq<nat>, at: map<nat, P>, asleep: P, p: P)
    requires Queued(channel, at, asleep) && p != asleep
    ensures Queued([], Roused(at, channel, p), asleep)
  {
  }

  // ----- counting threads by where they are

  ghost function Doing<P>(at: map<nat, P>, what: P -> bool): set<nat> {
    set t | t in at && what(at[t])
  }

  lemma {:induction false} DoingMoved<P>(at: map<nat, P>, what: P -> bool, t: nat, p: P)
    requires t in at
    ensures |Doing(at[t := p], what)| + (if what(at[t]) then 1 else 0) == |Doing(at, what)| + if what(p) then 1 else 0
  {
    var before, after := Doing(at, what), Doing(at[t := p], what);
    assert after == if what(p) then before + {t} else before - {t};
    assert t in before <==> what(at[t]);
  }

  lemma {:induction false} DoingRoused<P>(channel: seq<nat>, at: map<nat, P>, asleep: P, p: P, what: P -> bool)
    requires Queued(channel, at, asleep) && what(asleep) == what(p)
    ensures Doing(Roused(at, channel, p), what) == Doing(at, what)
  {
  }
}
