/** Reference accounting: what the frame table's counts mean, and how each kernel step keeps them exact. */
module RefCounts {
  import opened FrameTable

  /**
   * Every reference count is exact: the entries naming the frame plus the references held outside the
   * page table.  A frame is in use exactly while something refers to it, and no entry names frame 0.
   */
  ghost predicate Counted(frames: seq<Frame>, named: multiset<nat>, held: multiset<nat>) {
    && (forall f :: f in named ==> 0 < f < |frames|)
    && (forall f :: f in held ==> f < |frames|)
    && forall f :: 0 <= f < |frames| ==> frames[f].ref == named[f] + held[f] && (frames[f].used <==> frames[f].ref > 0)
  }

  /** A frame that some entry may write has no other reference. */
  ghost predicate Exclusive(frames: seq<Frame>, dirty: multiset<nat>) {
    forall f :: f in dirty ==> f < |frames| && frames[f].ref == 1
  }

  /** An unreferenced frame is handed out. */
  lemma {:induction false} TakeReference(frames: seq<Frame>, frames': seq<Frame>, named: multiset<nat>, dirty: multiset<nat>, held: multiset<nat>, f: nat)
    requires Counted(frames, named, held) && Exclusive(frames, dirty) && dirty <= named
    requires Moved(frames, frames', f, 1) && frames[f].ref == 0
    ensures Counted(frames', named, held + multiset{f}) && Exclusive(frames', dirty)
    ensures f !in named && f !in held
  {
  }

  /** One more reference to a frame that no entry may write. */
  lemma {:induction false} ShareReference(frames: seq<Frame>, frames': seq<Frame>, named: multiset<nat>, dirty: multiset<nat>, held: multiset<nat>, f: nat)
    requires Counted(frames, named, held) && Exclusive(frames, dirty) && f !in dirty
    requires Moved(frames, frames', f, 1) && frames[f].ref > 0
    ensures Counted(frames', named, held + multiset{f}) && Exclusive(frames', dirty)
  {
  }

  /** A held reference is dropped. */
  lemma {:induction false} DropReference(frames: seq<Frame>, frames': seq<Frame>, named: multiset<nat>, dirty: multiset<nat>, held: multiset<nat>, f: nat)
    requires Counted(frames, named, held) && Exclusive(frames, dirty) && dirty <= named && f in held
    requires Moved(frames, frames', f, -1)
    ensures Counted(frames', named, held - multiset{f}) && Exclusive(frames', dirty)
  {
    forall g | g in dirty
      ensures g != f
    {
      assert g in named;
    }
  }

  /** A held reference becomes an entry's. */
  lemma {:induction false} HandOver(frames: seq<Frame>, named: multiset<nat>, dirty: multiset<nat>, held: multiset<nat>, f: nat, named': multiset<nat>, dirty': multiset<nat>)
    requires Counted(frames, named, held) && Exclusive(frames, dirty) && f in held && f != 0
    requires named' == named + multiset{f}
    requires dirty' == dirty || (dirty' == dirty + multiset{f} && frames[f].ref == 1)
    ensures Counted(frames, named', held - multiset{f}) && Exclusive(frames, dirty')
  {
  }

  /** An entry's reference becomes a held one. */
  lemma {:induction false} TakeOver(frames: seq<Frame>, named: multiset<nat>, dirty: multiset<nat>, held: multiset<nat>, f: nat, named': multiset<nat>, dirty': multiset<nat>)
    requires Counted(frames, named, held) && Exclusive(frames, dirty)
    requires named == named' + multiset{f} && dirty' <= dirty
    ensures Counted(frames, named', held + multiset{f}) && Exclusive(frames, dirty')
  {
    assert forall g :: g in dirty' ==> g in dirty;
    assert forall g :: g in named' ==> g in named;
    assert f in named;
  }

  /** An entry moves from a shared frame to a frame of its own. */
  lemma {:induction false} Retarget(frames: seq<Frame>, frames': seq<Frame>, named: multiset<nat>, dirty: multiset<nat>, held: multiset<nat>,
                                    from: nat, to: nat, named': multiset<nat>, dirty': multiset<nat>)
    requires Counted(frames, named, held) && Exclusive(frames, dirty) && to in held && to != 0 && to != from
    requires from in named && dirty <= named - multiset{from}
    requires Moved(frames, frames', from, -1)
    requires to < |frames| && frames[to].ref == 1
    requires named' + multiset{from} == named + multiset{to} && dirty' == dirty + multiset{to}
    ensures Counted(frames', named', held - multiset{to}) && Exclusive(frames', dirty')
  {
    hide Counted, Exclusive;
    var n1 := named - multiset{from};
    TakeOver(frames, named, dirty, held, from, n1, dirty);
    DropReference(frames, frames', n1, dirty, held + multiset{from}, from);
    assert held + multiset{from} - multiset{from} == held;
    assert named' == n1 + multiset{to} by {
      forall x ensures named'[x] == (n1 + multiset{to})[x] {
        assert (named' + multiset{from})[x] == (named + multiset{to})[x];
      }
    }
    HandOver(frames', n1, dirty, held, to, named', dirty');
  }

  /** An entry goes away together with its reference. */
  lemma {:induction false} Release(frames: seq<Frame>, frames': seq<Frame>, named: multiset<nat>, dirty: multiset<nat>, held: multiset<nat>,
                                   f: nat, named': multiset<nat>, dirty': multiset<nat>)
    requires Counted(frames, named, held) && Exclusive(frames, dirty)
    requires named == named' + multiset{f} && dirty' <= dirty && dirty' <= named'
    requires Moved(frames, frames', f, -1)
    ensures Counted(frames', named', held) && Exclusive(frames', dirty')
  {
    hide Counted, Exclusive;
    TakeOver(frames, named, dirty, held, f, named', dirty');
    DropReference(frames, frames', named', dirty', held + multiset{f}, f);
    assert held + multiset{f} - multiset{f} == held;
  }

  lemma {:induction false} NamedInUse(frames: seq<Frame>, named: multiset<nat>, held: multiset<nat>, f: nat)
    requires Counted(frames, named, held) && (f in named || f in held)
    ensures f < |frames| && frames[f].used && frames[f].ref == named[f] + held[f] >= 1
    ensures f in named ==> f != 0
  {
    assert named[f] + held[f] >= 1;
  }

  lemma {:induction false} MovedElsewhere(frames: seq<Frame>, frames': seq<Frame>, f: nat, delta: int, g: nat)
    requires Moved(frames, frames', f, delta) && g < |frames| && g != f
    ensures g < |frames'| && frames'[g].ref == frames[g].ref
  {
  }

  lemma {:induction false} FewerDirty(frames: seq<Frame>, dirty: multiset<nat>, dirty': multiset<nat>)
    requires Exclusive(frames, dirty) && dirty' <= dirty
    ensures Exclusive(frames, dirty')
  {
    assert forall f :: f in dirty' ==> f in dirty;
  }

  lemma {:induction false} OneMoreDirty(frames: seq<Frame>, dirty: multiset<nat>, f: nat)
    requires Exclusive(frames, dirty) && f < |frames| && frames[f].ref == 1
    ensures Exclusive(frames, dirty + multiset{f})
  {
  }

  lemma {:induction false} DirtyIsAlone(frames: seq<Frame>, named: multiset<nat>, dirty: multiset<nat>, held: multiset<nat>, f: nat)
    requires Counted(frames, named, held) && Exclusive(frames, dirty) && dirty <= named && f in dirty
    ensures named[f] == 1 && held[f] == 0
  {
    assert f in named;
  }

  /** The same frames are in use with the same counts. */
  ghost predicate SameRefs(frames: seq<Frame>, frames': seq<Frame>) {
    |frames| == |frames'| && forall f :: 0 <= f < |frames| ==> frames[f].ref == frames'[f].ref && frames[f].used == frames'[f].used
  }

  lemma {:induction false} SameCounts(frames: seq<Frame>, frames': seq<Frame>, named: multiset<nat>, held: multiset<nat>)
    requires |frames| == |frames'| && Counted(frames, named, held) && Counted(frames', named, held)
    ensures SameRefs(frames, frames')
  {
  }
}
