/**
 * The physical frame table: one record per frame, a reference count, and a free list threaded
 * through the records of the unused frames.
 */
module FrameTable {
  import opened Sequences
  import opened Wrappers
  import opened Words


  datatype Frame = Frame(used: bool, ref: int, nextFree: Option<nat>)

  /** `list` is what one visits by following `nextFree` from `first`. */
  ghost predicate Threaded(frames: seq<Frame>, first: Option<nat>, list: seq<nat>) {
    && (forall k :: 0 <= k < |list| ==> list[k] < |frames|)
    && first == (if |list| == 0 then None else Some(list[0]))
    && forall k {:trigger frames[list[k]]} :: 0 <= k < |list| ==>
         frames[list[k]].nextFree == if k + 1 < |list| then Some(list[k + 1]) else None
  }

  ghost function UsedSet(frames: seq<Frame>): set<nat> {
    set f: nat | f < |frames| && frames[f].used
  }

  ghost function Elements(s: seq<nat>): set<nat> {
    set x | x in s
  }

  lemma {:induction false} DistinctSize(s: seq<nat>)
    requires Distinct(s)
    ensures |Elements(s)| == |s|
    decreases |s|
  {
    if |s| > 0 {
      DistinctSize(s[1..]);
      assert Elements(s) == Elements(s[1..]) + {s[0]};
      assert s[0] !in s[1..];
    }
  }

  /** The frames that `frametable_bootstrap` links, first to last. */
  function Linked(ramtop: nat, freebase: nat): (last: nat)
    requires freebase <= ramtop
  {
    var bump, freeframes := freebase / PAGE_SIZE, (ramtop - freebase) / PAGE_SIZE - 1;
    if freeframes > bump then freeframes else bump
  }

  /** Linking an unlisted frame in front. */
  lemma {:induction false} PushFront(frames: seq<Frame>, frames': seq<Frame>, first: Option<nat>, list: seq<nat>, f: nat)
    requires Threaded(frames, first, list) && Distinct(list) && f !in list
    requires f < |frames| == |frames'| && frames'[f].nextFree == first
    requires forall g :: 0 <= g < |frames| && g != f ==> frames'[g] == frames[g]
    ensures Threaded(frames', Some(f), [f] + list) && Distinct([f] + list)
  {
    var list' := [f] + list;
    forall k | 0 <= k < |list'|
      ensures list'[k] < |frames'| && frames'[list'[k]].nextFree == if k + 1 < |list'| then Some(list'[k + 1]) else None
    {
      if k > 0 {
        assert list'[k] == list[k - 1];
      }
    }
  }

  /** Taking the first frame off. */
  lemma {:induction false} PopFront(frames: seq<Frame>, frames': seq<Frame>, first: Option<nat>, list: seq<nat>)
    requires Threaded(frames, first, list) && Distinct(list) && |list| > 0
    requires |frames| == |frames'| && forall g :: 0 <= g < |frames| && g != list[0] ==> frames'[g] == frames[g]
    ensures Threaded(frames', frames[list[0]].nextFree, list[1..]) && Distinct(list[1..])
  {
    var list' := list[1..];
    forall k | 0 <= k < |list'|
      ensures list'[k] < |frames'| && frames'[list'[k]].nextFree == if k + 1 < |list'| then Some(list'[k + 1]) else None
    {
      assert list'[k] == list[k + 1];
    }
  }

  /** The consecutive frames `lo..hi`, each pointing to the next. */
  lemma {:induction false} LinkedRun(frames: seq<Frame>, lo: nat, hi: nat, list: seq<nat>)
    requires lo <= hi < |frames| && |list| == hi + 1 - lo
    requires forall k :: 0 <= k < |list| ==> list[k] == lo + k
    requires forall f :: lo <= f <= hi ==> frames[f].nextFree == if f < hi then Some(f + 1) else None
    ensures Threaded(frames, Some(lo), list) && Distinct(list)
  {
  }

  /** The free list is acyclic, holds unused frames only, and together with the used frames makes up `managed`. */
  ghost predicate Consistent(frames: seq<Frame>, first: Option<nat>, list: seq<nat>, managed: set<nat>) {
    && Threaded(frames, first, list)
    && Distinct(list)
    && (forall f :: f in list ==> 0 < f < |frames| && !frames[f].used && frames[f].ref == 0)
    && UsedSet(frames) + Elements(list) == managed
  }

  lemma {:induction false} TakeFirst(frames: seq<Frame>, frames': seq<Frame>, first: Option<nat>, list: seq<nat>, managed: set<nat>)
    requires Consistent(frames, first, list, managed) && |list| > 0
    requires frames' == frames[list[0] := Frame(true, 1, frames[list[0]].nextFree)]
    ensures Consistent(frames', frames[list[0]].nextFree, list[1..], managed)
  {
    PopFront(frames, frames', first, list);
    assert UsedSet(frames') == UsedSet(frames) + {list[0]};
    assert Elements(list) == Elements(list[1..]) + {list[0]};
    forall f | f in list[1..]
      ensures 0 < f < |frames'| && !frames'[f].used && frames'[f].ref == 0
    {
      assert f in list && f != list[0];
    }
  }

  lemma {:induction false} GiveBack(frames: seq<Frame>, frames': seq<Frame>, first: Option<nat>, list: seq<nat>, managed: set<nat>, f: nat)
    requires Consistent(frames, first, list, managed) && 0 < f < |frames| && frames[f].used
    requires frames' == frames[f := Frame(false, 0, first)]
    ensures Consistent(frames', Some(f), [f] + list, managed)
  {
    PushFront(frames, frames', first, list, f);
    assert UsedSet(frames') == UsedSet(frames) - {f};
    assert Elements([f] + list) == Elements(list) + {f};
  }

  lemma {:induction false} ChangeRef(frames: seq<Frame>, frames': seq<Frame>, first: Option<nat>, list: seq<nat>, managed: set<nat>, f: nat, ref: int)
    requires Consistent(frames, first, list, managed) && f < |frames| && frames[f].used
    requires frames' == frames[f := frames[f].(ref := ref)]
    ensures Consistent(frames', first, list, managed)
  {
    assert UsedSet(frames') == UsedSet(frames);
    assert f !in list;
  }

  /** The counts of `frames'` are those of `frames` with `delta` added at `f`; use follows the count. */
  ghost predicate Moved(frames: seq<Frame>, frames': seq<Frame>, f: nat, delta: int) {
    && |frames'| == |frames| && f < |frames|
    && forall g :: 0 <= g < |frames| ==>
         && frames'[g].ref == frames[g].ref + (if g == f then delta else 0)
         && (frames'[g].used <==> if g == f then frames'[g].ref > 0 else frames[g].used)
  }

  class Frames {
    var frames: seq<Frame>
    var first: Option<nat>
    ghost var list: seq<nat>
    ghost const managed: set<nat>

    ghost predicate Valid()
      reads this
    {
      Consistent(frames, first, list, managed) && 0 < |frames|
    }

    /** Only managed frames are ever used or listed. */
    lemma OnlyManaged(f: nat)
      requires Valid() && f !in managed
      ensures f !in list && (f < |frames| ==> !frames[f].used)
    {
      assert f !in UsedSet(frames) && f !in Elements(list);
    }

    /** Free frames and used frames together are always the same number. */
    lemma Conserved()
      requires Valid()
      ensures UsedSet(frames) !! Elements(list)
      ensures |list| + |UsedSet(frames)| == |managed|
    {
      DistinctSize(list);
      assert UsedSet(frames) !! Elements(list);
      assert |UsedSet(frames) + Elements(list)| == |UsedSet(frames)| + |Elements(list)|;
    }

    /**
     * `frametable_bootstrap`: the frames below `freebase` are the kernel's; the rest is linked up to
     * an end index that the code computes as a count.
     */
    constructor (ramtop: nat, freebase: nat)
      requires PAGE_SIZE <= freebase && freebase / PAGE_SIZE < ramtop / PAGE_SIZE && PAGE_SIZE <= ramtop - freebase
      ensures Valid()
      ensures |frames| == ramtop / PAGE_SIZE
      ensures forall f :: 0 <= f < |frames| ==> frames[f].used == (f < freebase / PAGE_SIZE)
      ensures forall f :: 0 <= f < |frames| ==> frames[f].ref == if frames[f].used then 1 else 0
      ensures |list| == Linked(ramtop, freebase) - freebase / PAGE_SIZE + 1
      ensures forall k :: 0 <= k < |list| ==> list[k] == freebase / PAGE_SIZE + k
    {
      var nframes := ramtop / PAGE_SIZE;
      var bump := freebase / PAGE_SIZE;
      var freeframes := (ramtop - freebase) / PAGE_SIZE - 1;
      var ft := seq(nframes, _ => Frame(false, 0, None));
      var i := 0;
      while i < bump
        invariant 0 <= i <= bump && |ft| == nframes
        invariant forall f :: 0 <= f < nframes ==> ft[f] == if f < i then Frame(true, 1, None) else Frame(false, 0, None)
      {
        ft := ft[i := Frame(true, 1, None)];
        i := i + 1;
      }
      var head := i;
      while i < freeframes
        invariant bump <= i && (i == bump || i <= freeframes) && |ft| == nframes
        invariant forall f :: 0 <= f < nframes ==>
          ft[f] == if f < bump then Frame(true, 1, None) else Frame(false, 0, if f < i then Some(f + 1) else None)
      {
        ft := ft[i := Frame(false, 0, Some(i + 1))];
        i := i + 1;
      }
      ft := ft[i := Frame(false, 0, None)];
      ghost var run: seq<nat> := seq(i + 1 - bump, k requires 0 <= k => bump + k);
      LinkedRun(ft, bump, i, run);
      frames, first, list := ft, Some(head), run;
      managed := UsedSet(ft) + Elements(run);
    }

    /** `alloc_kpages` once the frame table exists: take the first free frame. */
    method Alloc(npages: nat) returns (r: Option<nat>)
      requires Valid()
      modifies this
      ensures Valid() && |frames| == old(|frames|)
      ensures r.None? <==> old(list) == [] || npages != 1
      ensures r.None? ==> unchanged(this)
      ensures r.Some? ==> old(list)[0] == r.value && list == old(list)[1..]
      ensures r.Some? ==> 0 < r.value < |frames| && !old(frames)[r.value].used && old(frames)[r.value].ref == 0
      ensures r.Some? ==> Moved(old(frames), frames, r.value, 1)
    {
      if first.None? {
        return None;
      }
      var f := first.value;
      assert f == list[0];
      if frames[f].used {
        assert false;
        return None;
      }
      if npages != 1 {
        return None;
      }
      frames := frames[f := Frame(true, 1, frames[f].nextFree)];
      TakeFirst(old(frames), frames, first, list, managed);
      first := frames[f].nextFree;
      list := list[1..];
      if f == 0 {
        return None;
      }
      return Some(f);
    }

    /** `free_kpages`: drop one reference, and link the frame back in when it was the last. */
    method Free(f: nat)
      requires Valid() && f < |frames|
      requires frames[f].used ==> frames[f].ref >= 1
      modifies this
      ensures Valid() && |frames| == old(|frames|)
      ensures f == 0 || !old(frames)[f].used ==> unchanged(this)
      ensures f != 0 && old(frames)[f].used ==> Moved(old(frames), frames, f, -1)
      ensures f != 0 && old(frames)[f].used ==>
        list == if old(frames)[f].ref == 1 then [f] + old(list) else old(list)
    {
      if f == 0 {
        return;
      }
      if !frames[f].used {
        return;
      }
      frames := frames[f := frames[f].(ref := frames[f].ref - 1)];
      if frames[f].ref <= 0 {
        frames := frames[f := frames[f].(nextFree := first)];
        frames := frames[f := frames[f].(used := false)];
        GiveBack(old(frames), frames, first, list, managed, f);
        list := [f] + list;
        first := Some(f);
      } else {
        ChangeRef(old(frames), frames, first, list, managed, f, frames[f].ref);
      }
    }

    /** `frame_ref_mod`. */
    method RefMod(f: nat, delta: int)
      requires Valid() && f < |frames| && frames[f].used && frames[f].ref + delta > 0
      modifies this
      ensures Valid() && list == old(list) && Moved(old(frames), frames, f, delta)
    {
      frames := frames[f := frames[f].(ref := frames[f].ref + delta)];
      ChangeRef(old(frames), frames, first, list, managed, f, frames[f].ref);
    }
  }

  ghost predicate LeftUnused(ramtop: nat, freebase: nat, f: nat) {
    freebase / PAGE_SIZE <= f < ramtop / PAGE_SIZE
  }

  ghost predicate IsLinked(ramtop: nat, freebase: nat, f: nat)
    requires freebase <= ramtop
  {
    freebase / PAGE_SIZE <= f <= Linked(ramtop, freebase)
  }

  /**
   * Exactly when the bootstrap links every frame that it leaves unused (for a page-aligned start of
   * free memory): the kernel's frames must be none at all, or all but one.
   */
  lemma {:induction false} AllUnusedLinked(ramtop: nat, freebase: nat)
    requires freebase % PAGE_SIZE == 0 && freebase / PAGE_SIZE < ramtop / PAGE_SIZE && freebase <= ramtop
    ensures (forall f: nat :: LeftUnused(ramtop, freebase, f) ==> IsLinked(ramtop, freebase, f)) <==>
      freebase == 0 || freebase / PAGE_SIZE == ramtop / PAGE_SIZE - 1
  {
    var n, bump := ramtop / PAGE_SIZE, freebase / PAGE_SIZE;
    assert (ramtop - freebase) / PAGE_SIZE == n - bump;
    assert LeftUnused(ramtop, freebase, n - 1);
  }

  /** For instance: of the 128 frames of 512 KB, with the kernel in the first 32, the topmost one is left out. */
  lemma {:induction false} TopFrameLeftOut()
    ensures LeftUnused(0x80000, 0x20000, 127) && !IsLinked(0x80000, 0x20000, 127)
    ensures !forall f: nat :: LeftUnused(0x80000, 0x20000, f) ==> IsLinked(0x80000, 0x20000, f)
  {
    AllUnusedLinked(0x80000, 0x20000);
  }

  /** That frame is not among the managed ones, so whatever is allocated and freed it is never on the free list. */
  method TopFrameLost() returns (t: Frames)
    ensures t.Valid() && |t.frames| == 128 && !t.frames[127].used && 127 !in t.managed
  {
    t := new Frames(0x80000, 0x20000);
    assert forall f :: f in t.list ==> f < 127;
    assert 127 !in UsedSet(t.frames) && 127 !in Elements(t.list);
  }
}
