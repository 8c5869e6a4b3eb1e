/**
 * Copy-on-write paging: page faults, fork by sharing, and exit, over the hashed page table, the frame
 * table and the page contents.
 */
module Paging {
  import opened Wrappers
  import opened FrameTable
  import opened Multisets
  import opened PageTable
  import opened RefCounts
  import opened Words

  /** A page of zeros. */
  function ZeroPage(): Data {
    seq(PAGE_SIZE, _ => 0)
  }

  datatype Region = Region(vbase: nat, npages: nat, writable: bool)

  datatype FaultType = ReadFault | WriteFault | ReadOnlyFault | UnknownFault

  datatype Errno = EFAULT | EINVAL | ENOMEM

  datatype FaultResult = Loaded(entry: Pte) | Failed(errno: Errno)

  /** Whether an address lies in a region; the end of the region wraps at 32 bits. */
  predicate Contains(r: Region, addr: nat) {
    r.vbase <= addr < (r.vbase + r.npages * PAGE_SIZE) % TWO32
  }

  /** The region has a page with this address. */
  predicate HasPage(r: Region, addr: nat) {
    r.vbase / PAGE_SIZE <= addr / PAGE_SIZE < r.vbase / PAGE_SIZE + r.npages
  }

  /**
   * A region of whole pages contains exactly the addresses in its pages if and only if it is empty or ends below the top of
   * memory; the end of one that reaches the top is 0, so that it contains nothing.
   */
  lemma {:induction false} ContainsPages(r: Region)
    requires r.vbase % PAGE_SIZE == 0 && r.vbase + r.npages * PAGE_SIZE <= TWO32
    ensures (forall addr: nat :: Contains(r, addr) <==> HasPage(r, addr)) <==> r.npages == 0 || r.vbase + r.npages * PAGE_SIZE < TWO32
  {
    var end := r.vbase + r.npages * PAGE_SIZE;
    if end < TWO32 {
      forall addr: nat
        ensures Contains(r, addr) <==> HasPage(r, addr)
      {
        assert addr == addr / PAGE_SIZE * PAGE_SIZE + addr % PAGE_SIZE;
        assert r.vbase == r.vbase / PAGE_SIZE * PAGE_SIZE;
      }
    } else if r.npages > 0 {
      assert HasPage(r, r.vbase) && !Contains(r, r.vbase);
    } else {
      assert forall addr: nat :: !Contains(r, addr) && !HasPage(r, addr);
    }
  }

  /** `k` is the first region that contains `addr`, or the number of regions if none does. */
  ghost predicate IsFirstRegion(regions: seq<Region>, addr: nat, k: nat) {
    && k <= |regions|
    && (forall l :: 0 <= l < k ==> !Contains(regions[l], addr))
    && (k < |regions| ==> Contains(regions[k], addr))
  }

  /** `as_check_valid_addr`. */
  method AsCheckValidAddr(regions: seq<Region>, addr: nat) returns (k: nat)
    ensures IsFirstRegion(regions, addr, k)
  {
    k := 0;
    while k < |regions|
      invariant 0 <= k <= |regions|
      invariant forall l :: 0 <= l < k ==> !Contains(regions[l], addr)
    {
      if Contains(regions[k], addr) {
        return;
      }
      k := k + 1;
    }
  }

  /** `k` is the first valid entry of `a` in a chain, or the chain's length if there is none. */
  ghost predicate IsFirstHit(c: Chain, a: nat, k: nat) {
    && k <= |c|
    && (forall l :: 0 <= l < k ==> !(c[l].pid == a && c[l].valid))
    && (k < |c| ==> c[k].pid == a && c[k].valid)
  }

  /** `find_page`: the page number plays no part in the search. */
  method FindPage(c: Chain, a: nat) returns (k: nat)
    ensures IsFirstHit(c, a, k)
  {
    k := 0;
    while k < |c|
      invariant 0 <= k <= |c|
      invariant forall l :: 0 <= l < k ==> !(c[l].pid == a && c[l].valid)
    {
      if c[k].pid == a && c[k].valid {
        return;
      }
      k := k + 1;
    }
  }

  /** One kernel or user step, with whatever the rest of the system decides as parameters. */
  datatype Step =
    | Fault(as_: nat, kind: FaultType, addr: nat, regions: seq<Region>, kmallocOk: bool)
    | UserStore(as_: nat, i: nat, k: nat, data: Data)
    | Fork(parent: nat, child: nat, regionsOk: bool, budget: nat)
    | Exit(as_: nat)
    | Create(as_: nat)
    | KernelAlloc
    | KernelFree(j: nat)

  /** The address spaces that exist after a step, if `room` says whether a fork finds room for its entries. */
  function Living(s: Step, live: set<nat>, room: bool): set<nat> {
    match s
    case Fork(o, n, regionsOk, _) => if o in live && o != 0 && n != 0 && n !in live && regionsOk && room then live + {n} else live
    case Exit(a) => live - {a}
    case Create(n) => if n != 0 then live + {n} else live
    case _ => live
  }

  /** A fault that maps a page of zeros: the address is in a region, no entry is there, and memory can be had. */
  ghost predicate DemandsZero(c: Chain, s: Step, full: bool)
    requires s.Fault?
  {
    && (s.kind.ReadFault? || s.kind.WriteFault?) && s.kmallocOk && !full && IsFirstHit(c, s.as_, |c|)
    && exists k: nat :: k < |s.regions| && Contains(s.regions[k], s.addr)
  }

  predicate CanStore(t: Table, s: Step)
    requires s.UserStore?
  {
    s.i < |t| && s.k < |t[s.i]| && t[s.i][s.k].pid == s.as_ && t[s.i][s.k].valid && t[s.i][s.k].dirty
  }

  /** The one address space whose view a step may change. */
  function Touches(s: Step): Option<nat> {
    match s
    case Fault(a, _, _, _, _) => Some(a)
    case UserStore(a, _, _, _) => Some(a)
    case Fork(_, n, _, _) => Some(n)
    case Exit(a) => Some(a)
    case Create(_) => None
    case KernelAlloc => None
    case KernelFree(_) => None
  }

  // ----- facts about tables

  lemma {:induction false} NamedInTable(t: Table, a: nat)
    ensures Collect(t, NamesIn(a)) <= Collect(t, Names())
  {
    var none := (e: Pte) => var b: multiset<nat> := multiset{}; b;
    TableSum(t, NamesIn(a), none, Names());
  }

  lemma {:induction false} NamedApart(t: Table, a: nat, b: nat)
    requires a != b
    ensures Collect(t, NamesIn(a)) + Collect(t, NamesIn(b)) <= Collect(t, Names())
  {
    TableSum(t, NamesIn(a), NamesIn(b), Names());
  }

  lemma {:induction false} DirtyAndClean(t: Table)
    ensures Collect(t, NamesDirty()) + Collect(t, NamesClean()) <= Collect(t, Names())
  {
    TableSum(t, NamesDirty(), NamesClean(), Names());
  }

  /** Memory that none of `a`'s entries name can change without `a` seeing it. */
  lemma {:induction false} UnseenChange(t: Table, mem: seq<Data>, mem': seq<Data>, f: nat, a: nat)
    requires |mem| == |mem'| && forall g :: 0 <= g < |mem| && g != f ==> mem[g] == mem'[g]
    requires f !in Collect(t, NamesIn(a))
    ensures SightOf(t, mem', a) == SightOf(t, mem, a) && Collect(t, Sees(mem', a)) == Collect(t, Sees(mem, a))
  {
    SightMemory(t, mem, mem', f, a);
    SightBag(t, t, mem', mem, a);
  }

  class Vm {
    const ft: Frames
    const buckets: nat
    var table: Table
    var mem: seq<Data>
    /** References held outside the page table: kernel pages, and frames on their way into the table. */
    ghost var held: multiset<nat>

    ghost predicate Valid()
      reads this, ft
    {
      && ft.Valid()
      && |mem| == |ft.frames|
      && 0 < buckets <= |table|
      && (forall i :: buckets <= i < |table| ==> table[i] == [])
      && InChains(table, buckets)
      && Counted(ft.frames, Collect(table, Names()), held)
      && Exclusive(ft.frames, Collect(table, NamesDirty()))
    }

    /** Everything that address space `a` sees through its entries. */
    ghost function View(a: nat): multiset<(nat, bool, Data)>
      reads this
    {
      Collect(table, Sees(mem, a))
    }

    /** The same in the order in which the entries are found, chain by chain. */
    ghost function Sight(a: nat): seq<seq<(nat, bool, Data)>>
      reads this
    {
      SightOf(table, mem, a)
    }

    /** A writable entry names its frame alone: one reference, and no other entry anywhere in the table. */
    lemma WritableIsAlone(i: nat, k: nat, j: nat, l: nat)
      requires Valid() && i < |table| && k < |table[i]| && j < |table| && l < |table[j]|
      requires table[i][k].dirty && (i, k) != (j, l)
      ensures table[i][k].frame < |ft.frames| && ft.frames[table[i][k].frame].ref == 1
      ensures table[j][l].frame != table[i][k].frame
    {
      hide Collect;
      var f := table[i][k].frame;
      Contributes(table, i, k, NamesDirty());
      assert f in Collect(table, NamesDirty()) by { assert f in NamesDirty()(table[i][k]); }
      DirtyAndClean(table);
      DirtyIsAlone(ft.frames, Collect(table, Names()), Collect(table, NamesDirty()), held, f);
      NamedOnce(table, i, k, j, l);
    }

    /** A frame on the free list is referred to by nothing, so allocating never hands out a frame in use. */
    lemma FreeIsUnreferenced(f: nat)
      requires Valid() && f in ft.list
      ensures f !in Collect(table, Names()) && f !in held
    {
      hide Collect;
    }

    /** The bootstrap state: an empty page table, and the kernel holding the frames below `freebase`. */
    constructor (ramtop: nat, freebase: nat, nbuckets: nat, npages: nat)
      requires PAGE_SIZE <= freebase && freebase / PAGE_SIZE < ramtop / PAGE_SIZE && PAGE_SIZE <= ramtop - freebase
      requires 0 < nbuckets <= npages
      ensures Valid() && fresh(ft)
      ensures forall a: nat {:trigger View(a)} :: View(a) == multiset{}
      ensures |table| == npages && forall i :: 0 <= i < npages ==> table[i] == []
    {
      ft := new Frames(ramtop, freebase);
      buckets := nbuckets;
      table := seq(npages, _ => []);
      mem := seq(ramtop / PAGE_SIZE, _ => []);
      new;
      held := multiset(UsedSet(ft.frames));
      assert |ft.frames| == ramtop / PAGE_SIZE;
      EmptyTable(table, Names());
      EmptyTable(table, NamesDirty());
      forall a
        ensures View(a) == multiset{}
      {
        EmptyTable(table, Sees(mem, a));
      }
    }

    /** `alloc_kpages(1)`: a frame that nothing refers to, filled with zeros; the caller holds it. */
    method AllocPage() returns (r: Option<nat>)
      requires Valid()
      modifies this, ft
      ensures Valid() && table == old(table)
      ensures r.None? <==> old(ft.list) == []
      ensures r.None? ==> unchanged(this) && unchanged(ft)
      ensures forall a: nat :: View(a) == old(View(a)) && Sight(a) == old(Sight(a))
      ensures r.Some? ==> r.value !in old(held) && r.value !in Collect(table, Names())
      ensures r.Some? ==> held == old(held) + multiset{r.value}
      ensures r.Some? ==> 0 < r.value < |mem| == old(|mem|) && mem == old(mem)[r.value := ZeroPage()]
      ensures r.Some? ==> r.value < |ft.frames| && ft.frames[r.value].ref == 1
      ensures r.Some? ==> Moved(old(ft.frames), ft.frames, r.value, 1)
    {
      hide Counted, Exclusive, Moved, Consistent, Collect, InChains, SightOf;
      r := ft.Alloc(1);
      if r.Some? {
        var f := r.value;
        DirtyAndClean(table);
        TakeReference(old(ft.frames), ft.frames, Collect(table, Names()), Collect(table, NamesDirty()), held, f);
        mem := mem[f := ZeroPage()];
        held := held + multiset{f};
        forall a
          ensures View(a) == old(View(a)) && Sight(a) == old(Sight(a))
        {
          NamedInTable(table, a);
          UnseenChange(table, old(mem), mem, f, a);
        }
      }
    }

    /** `free_kpages` by the kernel of a page it holds. */
    method FreePage(f: nat)
      requires Valid() && f in held && f != 0
      modifies this, ft
      ensures Valid() && table == old(table) && mem == old(mem)
      ensures held == old(held) - multiset{f}
      ensures forall a: nat :: View(a) == old(View(a)) && Sight(a) == old(Sight(a))
    {
      hide Counted, Exclusive, Moved, Consistent, Collect, InChains, SightOf;
      NamedInUse(ft.frames, Collect(table, Names()), held, f);
      ft.Free(f);
      DirtyAndClean(table);
      DropReference(old(ft.frames), ft.frames, Collect(table, Names()), Collect(table, NamesDirty()), held, f);
      held := held - multiset{f};
    }

    /** `insert_page`: the entry takes over a reference that was held for it. */
    method InsertPage(i: nat, e: Pte)
      requires Valid() && i == HptHash(e.pid, e.page, buckets) && e.frame in held && e.frame != 0
      requires e.dirty ==> e.frame < |ft.frames| && ft.frames[e.frame].ref == 1
      modifies this
      ensures Valid() && mem == old(mem)
      ensures table == old(table)[i := [e] + old(table)[i]]
      ensures held == old(held) - multiset{e.frame}
      ensures forall a: nat :: View(a) == old(View(a)) + Sees(mem, a)(e)
      ensures forall a: nat :: a != e.pid ==> Sight(a) == old(Sight(a))
    {
      hide Counted, Exclusive, Moved, Consistent, Collect, InChains, SightOf;
      ChainsInsert(table, buckets, i, e);
      InsertEntry(table, i, e, Names());
      InsertEntry(table, i, e, NamesDirty());
      HandOver(ft.frames, Collect(table, Names()), Collect(table, NamesDirty()), held, e.frame,
               Collect(table[i := [e] + table[i]], Names()), Collect(table[i := [e] + table[i]], NamesDirty()));
      forall a
        ensures Collect(table[i := [e] + table[i]], Sees(mem, a)) == View(a) + Sees(mem, a)(e)
      {
        InsertEntry(table, i, e, Sees(mem, a));
      }
      forall a | a != e.pid
        ensures SightOf(table[i := [e] + table[i]], mem, a) == Sight(a)
      {
        SightInsert(table, mem, a, i, e);
      }
      table := table[i := [e] + table[i]];
      held := held - multiset{e.frame};
    }

    // ----- one entry at a time

    /** Set or clear the write permission of an entry. */
    method SetDirty(i: nat, k: nat, dirty: bool)
      requires Valid() && i < |table| && k < |table[i]|
      requires dirty ==> table[i][k].frame < |ft.frames| && ft.frames[table[i][k].frame].ref == 1
      modifies this
      ensures Valid() && mem == old(mem) && held == old(held)
      ensures table == old(table)[i := old(table)[i][k := old(table)[i][k].(dirty := dirty)]]
      ensures Collect(table, Names()) == old(Collect(table, Names()))
      ensures forall a: nat :: View(a) == old(View(a)) && Sight(a) == old(Sight(a))
    {
      hide Counted, Exclusive, Consistent, Collect, InChains, SightOf;
      var e := table[i][k];
      var e' := e.(dirty := dirty);
      ghost var t, t' := table, table[i := table[i][k := e']];
      UpdateEntry(t, i, k, e', Names());
      Cancel(Collect(t', Names()), Collect(t, Names()), multiset{e.frame});
      UpdateEntry(t, i, k, e', NamesDirty());
      DirtyChange(ft.frames, Collect(t, NamesDirty()), Collect(t', NamesDirty()), e, e');
      forall a
        ensures SightOf(t', mem, a) == SightOf(t, mem, a) && Collect(t', Sees(mem, a)) == Collect(t, Sees(mem, a))
      {
        SightUpdate(t, mem, a, i, k, e');
        SightBag(t', t, mem, mem, a);
      }
      ChainsUpdate(t, buckets, i, k, e');
      table := table[i := table[i][k := e']];
    }

    /** `create_shared_page`: a read-only entry for one more reference to a frame that nobody may write. */
    method CreateSharedPage(a: nat, page: nat, f: nat, valid: bool, kmallocOk: bool) returns (r: Option<Pte>)
      requires Valid() && f in Collect(table, Names()) && f !in Collect(table, NamesDirty())
      modifies this, ft
      ensures Valid() && table == old(table) && mem == old(mem)
      ensures r.None? <==> !kmallocOk
      ensures r.None? ==> unchanged(this) && unchanged(ft)
      ensures r.Some? ==> r.value == Pte(a, page, f, valid, false) && held == old(held) + multiset{f}
    {
      hide Counted, Exclusive, Moved, Consistent, Collect, InChains, SightOf;
      if !kmallocOk {
        return None;
      }
      ghost var named, dirty := Collect(table, Names()), Collect(table, NamesDirty());
      NamedInUse(ft.frames, named, held, f);
      ft.RefMod(f, 1);
      ShareReference(old(ft.frames), ft.frames, named, dirty, held, f);
      held := held + multiset{f};
      return Some(Pte(a, page, f, valid, false));
    }

    /** `create_page`: an entry backed by a fresh zeroed frame. */
    method CreatePage(a: nat, page: nat, dirty: bool, kmallocOk: bool) returns (r: Option<Pte>)
      requires Valid()
      modifies this, ft
      ensures Valid() && table == old(table)
      ensures r.None? <==> !kmallocOk || old(ft.list) == []
      ensures r.None? ==> unchanged(this) && unchanged(ft)
      ensures forall b: nat :: View(b) == old(View(b)) && Sight(b) == old(Sight(b))
      ensures r.Some? ==> r.value == Pte(a, page, r.value.frame, true, dirty) && r.value.frame != 0
      ensures r.Some? ==> held == old(held) + multiset{r.value.frame} && Content(mem, r.value.frame) == ZeroPage()
      ensures r.Some? ==> r.value.frame < |ft.frames| && ft.frames[r.value.frame].ref == 1
    {
      if !kmallocOk {
        return None;
      }
      var f := AllocPage();
      if f.None? {
        return None;
      }
      return Some(Pte(a, page, f.value, true, dirty));
    }

    /**
     * `readonwrite`: make an entry writable.  The last reference to a frame is simply made writable; a
     * shared frame is left to the others and the entry gets a copy.  Nobody sees a difference.
     */
    method ReadOnWrite(i: nat, k: nat) returns (ok: bool)
      requires Valid() && i < |table| && k < |table[i]| && table[i][k].valid && !table[i][k].dirty
      modifies this, ft
      ensures Valid() && held == old(held) && |table| == old(|table|) && |table[i]| == old(|table[i]|)
      ensures ok <==> old(Alone(ft.frames, table[i][k].frame)) || old(ft.list) != []
      ensures !ok ==> unchanged(this) && unchanged(ft)
      ensures ok ==> table[i][k] == old(table[i][k]).(dirty := true, frame := table[i][k].frame)
      ensures ok ==> (table[i][k].frame == old(table[i][k].frame) <==> old(Alone(ft.frames, table[i][k].frame)))
      ensures ok ==> table == old(table)[i := old(table)[i][k := table[i][k]]]
      ensures forall a: nat :: View(a) == old(View(a)) && Sight(a) == old(Sight(a))
    {
      hide Counted, Exclusive, Moved, Consistent, Collect, InChains, SightOf;
      var e := table[i][k];
      ghost var named := Collect(table, Names());
      Contributes(table, i, k, Names());
      assert e.frame in named by { assert e.frame in Names()(e); }
      NamedInUse(ft.frames, named, held, e.frame);
      if ft.frames[e.frame].ref == 1 {
        SetDirty(i, k, true);
        return true;
      }
      var r := AllocPage();
      if r.None? {
        return false;
      }
      ok := true;
      MovedElsewhere(old(ft.frames), ft.frames, r.value, 1, e.frame);
      MoveEntry(i, k, r.value);
    }

    /** The copying half of `readonwrite`, once a new frame is at hand. */
    method MoveEntry(i: nat, k: nat, to: nat)
      requires Valid() && i < |table| && k < |table[i]| && table[i][k].valid && !table[i][k].dirty
      requires to in held && to !in Collect(table, Names()) && 0 < to < |ft.frames| && ft.frames[to].ref == 1
      requires table[i][k].frame < |ft.frames| && ft.frames[table[i][k].frame].ref > 1
      modifies this, ft
      ensures Valid() && held == old(held) - multiset{to}
      ensures table == old(table)[i := old(table)[i][k := old(table)[i][k].(dirty := true, frame := to)]]
      ensures forall a: nat :: View(a) == old(View(a)) && Sight(a) == old(Sight(a))
    {
      hide Counted, Exclusive, Moved, Consistent, Collect, InChains, SightOf;
      var e := table[i][k];
      var from := e.frame;
      var e' := Pte(e.pid, e.page, to, true, true);
      ghost var t, t', m := table, table[i := table[i][k := e']], mem;
      Contributes(t, i, k, Names());
      assert from in Collect(t, Names()) by { assert from in Names()(e); }
      NamedInUse(ft.frames, Collect(t, Names()), held, from);
      ft.RefMod(from, -1);
      UpdateEntry(t, i, k, e', Names());
      UpdateEntry(t, i, k, e', NamesDirty());
      CleanNotDirty(t, i, k);
      Retarget(old(ft.frames), ft.frames, Collect(t, Names()), Collect(t, NamesDirty()), held, from, to,
               Collect(t', Names()), Collect(t', NamesDirty()));
      ChainsUpdate(t, buckets, i, k, e');
      table := table[i := table[i][k := e']];
      mem := mem[to := mem[from]];
      held := held - multiset{to};
      forall a
        ensures SightOf(t', mem, a) == SightOf(t, m, a) && Collect(t', Sees(mem, a)) == Collect(t, Sees(m, a))
      {
        SightMove(t, m, mem, i, k, e', a);
        SightBag(t', t, mem, m, a);
      }
    }

    /** Remove an entry and drop its reference, as `as_destroy` does for each of its own. */
    method ReleaseEntry(i: nat, k: nat)
      requires Valid() && i < |table| && k < |table[i]|
      modifies this, ft
      ensures Valid() && mem == old(mem) && held == old(held)
      ensures table == old(table)[i := old(table)[i][..k] + old(table)[i][k + 1..]]
      ensures forall a: nat :: View(a) + Sees(mem, a)(old(table[i][k])) == old(View(a))
      ensures forall a: nat :: a != old(table[i][k]).pid ==> Sight(a) == old(Sight(a))
    {
      hide Counted, Exclusive, Moved, Consistent, Collect, InChains, SightOf;
      var e := table[i][k];
      ghost var t, t' := table, table[i := table[i][..k] + table[i][k + 1..]];
      RemoveEntry(t, i, k, Names());
      RemoveEntry(t, i, k, NamesDirty());
      assert e.frame in Collect(t, Names()) by { assert e.frame in Names()(e); }
      NamedInUse(ft.frames, Collect(t, Names()), held, e.frame);
      ft.Free(e.frame);
      DirtyAndClean(t');
      Release(old(ft.frames), ft.frames, Collect(t, Names()), Collect(t, NamesDirty()), held, e.frame,
              Collect(t', Names()), Collect(t', NamesDirty()));
      table := table[i := table[i][..k] + table[i][k + 1..]];
      forall a
        ensures Collect(t', Sees(mem, a)) + Sees(mem, a)(e) == Collect(t, Sees(mem, a))
      {
        RemoveEntry(t, i, k, Sees(mem, a));
      }
      forall a | a != e.pid
        ensures SightOf(t', mem, a) == SightOf(t, mem, a)
      {
        SightRemove(t, mem, a, i, k);
      }
      ChainsRemove(t, buckets, i, k);
    }

    /** A user store through a writable entry. */
    method Store(i: nat, k: nat, data: Data)
      requires Valid() && i < |table| && k < |table[i]| && table[i][k].valid && table[i][k].dirty
      modifies this
      ensures Valid() && table == old(table) && held == old(held)
      ensures table[i][k].frame < |old(mem)| && mem == old(mem)[table[i][k].frame := data]
      ensures forall a: nat :: a != table[i][k].pid ==> View(a) == old(View(a)) && Sight(a) == old(Sight(a))
      ensures var e := table[i][k];
        View(e.pid) + multiset{(e.page, true, Content(old(mem), e.frame))} == old(View(e.pid)) + multiset{(e.page, true, data)}
    {
      hide Counted, Exclusive, Consistent, Collect, InChains, SightOf;
      var e := table[i][k];
      ghost var named, dirty := Collect(table, Names()), Collect(table, NamesDirty());
      Contributes(table, i, k, NamesDirty());
      assert e.frame in dirty by { assert e.frame in NamesDirty()(e); }
      DirtyAndClean(table);
      DirtyIsAlone(ft.frames, named, dirty, held, e.frame);
      NamedInUse(ft.frames, named, held, e.frame);
      mem := mem[e.frame := data];
      forall a | a != e.pid
        ensures Collect(table, Sees(mem, a)) == Collect(table, Sees(old(mem), a)) && SightOf(table, mem, a) == SightOf(table, old(mem), a)
      {
        AloneUnseen(table, i, k, old(mem), mem, a);
      }
      AloneSeenOnce(table, i, k, old(mem), mem);
    }

    // ----- exit

    /** `as_destroy`: every entry of the address space goes, and with it its reference. */
    method AsDestroy(a: nat)
      requires Valid()
      modifies this, ft
      ensures Valid() && mem == old(mem) && held == old(held) && |table| == old(|table|)
      ensures a == 0 ==> unchanged(this) && unchanged(ft)
      ensures a != 0 ==> NoEntries(table, a) && View(a) == multiset{}
      ensures a != 0 ==> Collect(table, Names()) + old(Collect(table, NamesIn(a))) == old(Collect(table, Names()))
      ensures forall b: nat :: b != a ==> View(b) == old(View(b)) && Sight(b) == old(Sight(b))
    {
      hide Counted, Exclusive, Consistent, Collect, InChains, SightOf;
      if a == 0 {
        return;
      }
      ghost var named, mine := Collect(table, Names()), Collect(table, NamesIn(a));
      var i := 0;
      while i < buckets
        invariant 0 <= i <= buckets
        invariant Valid() && mem == old(mem) && held == old(held) && |table| == old(|table|)
        invariant forall j, k :: 0 <= j < i && 0 <= k < |table[j]| ==> table[j][k].pid != a
        invariant forall b: nat :: b != a ==> View(b) == old(View(b)) && Sight(b) == old(Sight(b))
        invariant Collect(table, Names()) + mine == named + Collect(table, NamesIn(a))
      {
        var k := 0;
        while k < |table[i]|
          invariant i < buckets <= |table| && 0 <= k <= |table[i]|
          invariant Valid() && mem == old(mem) && held == old(held) && |table| == old(|table|)
          invariant forall j, k :: 0 <= j < i && 0 <= k < |table[j]| ==> table[j][k].pid != a
          invariant forall l :: 0 <= l < k ==> table[i][l].pid != a
          invariant forall b: nat :: b != a ==> View(b) == old(View(b)) && Sight(b) == old(Sight(b))
          invariant Collect(table, Names()) + mine == named + Collect(table, NamesIn(a))
          decreases |table[i]| - k
        {
          if table[i][k].pid == a {
            RemoveEntry(table, i, k, Names());
            RemoveEntry(table, i, k, NamesIn(a));
            ghost var t := table;
            ReleaseEntry(i, k);
            Balance(Collect(t, Names()), Collect(table, Names()), Collect(t, NamesIn(a)), Collect(table, NamesIn(a)),
                    multiset{t[i][k].frame}, named, mine);
          } else {
            k := k + 1;
          }
        }
        i := i + 1;
      }
      NoEntriesNothing(table, a, mem);
    }

    // ----- fork

    /** One step of `copy_page_table`: make an entry read-only and give `n` an entry for the same frame. */
    method ShareEntry(i: nat, k: nat, n: nat, kmallocOk: bool) returns (ok: bool)
      requires Valid() && i < |table| && k < |table[i]|
      modifies this, ft
      ensures Valid() && mem == old(mem) && held == old(held) && |table| == old(|table|)
      ensures ok == kmallocOk
      ensures var e := old(table[i][k]);
        var t := old(table)[i := old(table)[i][k := e.(dirty := false)]];
        var j := HptHash(n, e.page, buckets);
        j < |t| && table == if ok then t[j := [Pte(n, e.page, e.frame, e.valid, false)] + t[j]] else t
      ensures forall b: nat :: b != n || !ok ==> View(b) == old(View(b)) && Sight(b) == old(Sight(b))
      ensures OthersSee(old(table), table, mem, n)
      ensures ok ==> View(n) == old(View(n)) + Sees(mem, n)(old(table[i][k]).(pid := n))
      ensures Collect(table, Names()) == old(Collect(table, Names())) + if ok then multiset{old(table[i][k]).frame} else multiset{}
    {
      hide Counted, Exclusive, Consistent, Collect, InChains, SightOf;
      var e := table[i][k];
      var j := HptHash(n, e.page, buckets);
      SetDirty(i, k, false);
      assert table[i][k].frame == e.frame;
      Contributes(table, i, k, Names());
      assert e.frame in Collect(table, Names()) by { assert e.frame in Names()(table[i][k]); }
      DirtyAndClean(table);
      CleanNotDirty(table, i, k);
      SharedNotDirty(ft.frames, Collect(table, Names()), Collect(table, NamesDirty()), held, e.frame);
      var s := CreateSharedPage(n, e.page, e.frame, e.valid, kmallocOk);
      if s.None? {
        forall b: nat
          ensures SightOf(table, mem, b) == SightOf(old(table), mem, b)
        {
          assert Sight(b) == old(Sight(b));
        }
        return false;
      }
      NamedInUse(ft.frames, Collect(table, Names()), held, e.frame);
      InsertEntry(table, j, s.value, Names());
      ghost var h := held;
      InsertPage(j, s.value);
      assert h - multiset{e.frame} == old(held);
      forall b: nat | b != n
        ensures SightOf(table, mem, b) == SightOf(old(table), mem, b)
      {
        assert Sight(b) == old(Sight(b));
      }
      return true;
    }

    /** The walk at one entry: it is shared if it is the original's, and `left` counts down the entries that can be had. */
    method CopyEntry(i: nat, r: nat, left: nat, o: nat, n: nat, ghost w: Copy, ghost start: Table, ghost budget: nat) returns (ok: bool, left': nat)
      requires Valid() && i < |table| && 0 < r <= |table[i]| && o != n && left <= budget
      requires w.o == o && w.n == n && w.mem == mem && OthersSee(start, table, mem, n) && CopyState(table, w, i, r, budget - left)
      modifies this, ft
      ensures Valid() && mem == old(mem) && held == old(held) && |table| == old(|table|) && OthersSee(start, table, mem, n)
      ensures ok ==> left' <= left && r - 1 <= |table[i]| && CopyState(table, w, i, r - 1, budget - left')
      ensures !ok ==> budget < w.total && Collect(table, Names()) == w.named + Collect(table, NamesIn(n))
    {
      hide Counted, Exclusive, Consistent, Collect, InChains, SightOf, CopyState, OthersSee;
      var k := |table[i]| - r;
      ok, left' := true, left;
      if table[i][k].pid == o {
        ghost var t := table;
        ok := ShareEntry(i, k, n, left > 0);
        OthersNext(start, t, table, mem, n);
        if !ok {
          CopyFail(t, w, i, r, budget - left);
          return;
        }
        CopyStep(t, w, i, r, HptHash(n, t[i][k].page, buckets), budget - left);
        left' := left - 1;
      } else {
        CopySkip(table, w, i, r, budget - left);
      }
    }

    /**
     * `copy_page_table`: share every page of `o` with `n`, read-only for both.  `budget` is how many
     * entries can still be allocated.  New entries go to chain heads, possibly of the chain being walked,
     * so the walk is at the entry with `r` entries to go.
     */
    method CopyPageTable(o: nat, n: nat, budget: nat) returns (ok: bool)
      requires Valid() && o != n && NoEntries(table, n)
      modifies this, ft
      ensures Valid() && mem == old(mem) && held == old(held) && |table| == old(|table|)
      ensures forall b: nat :: b != n ==> View(b) == old(View(b)) && Sight(b) == old(Sight(b))
      ensures Collect(table, Names()) == old(Collect(table, Names())) + Collect(table, NamesIn(n))
      ensures ok <==> |old(Collect(table, NamesIn(o)))| <= budget
      ensures ok ==> View(n) == old(View(o))
      ensures ok ==> Clean(table, o) && Clean(table, n)
    {
      hide Counted, Exclusive, Consistent, Collect, InChains, SightOf, CopyAt, CopyState, OthersSee;
      ghost var w := CopyOf(table, mem, o, n);
      CopyStart(table, mem, o, n);
      OthersSame(table, mem, n);
      var i, left := 0, budget;
      while i < |table|
        invariant 0 <= i <= |table| == old(|table|)
        invariant Valid() && mem == old(mem) && held == old(held)
        invariant OthersSee(old(table), table, mem, n)
        invariant 0 <= left <= budget
        invariant CopyAt(table, w, i, budget - left)
        decreases |table| - i
      {
        CopyEnter(table, w, i, budget - left);
        var r := |table[i]|;
        while r > 0
          invariant i < |table| == old(|table|) && 0 <= r <= |table[i]|
          invariant Valid() && mem == old(mem) && held == old(held)
          invariant OthersSee(old(table), table, mem, n)
          invariant 0 <= left <= budget
          invariant CopyState(table, w, i, r, budget - left)
        {
          var shared;
          shared, left := CopyEntry(i, r, left, o, n, w, old(table), budget);
          if !shared {
            SightsBags(old(table), table, mem, n);
            return false;
          }
          r := r - 1;
        }
        CopyLeave(table, w, i, budget - left);
        i := i + 1;
      }
      CopyEnd(table, w, budget - left);
      SightsBags(old(table), table, mem, n);
      ok := true;
    }

    /**
     * `as_copy`: fork an address space.  When it fails part way, undoing the copy gives every frame its
     * old reference count back.
     */
    method AsCopy(o: nat, n: nat, regionsOk: bool, budget: nat) returns (ok: bool)
      requires Valid() && o != n && n != 0 && NoEntries(table, n)
      modifies this, ft
      ensures Valid() && mem == old(mem) && held == old(held) && |table| == old(|table|)
      ensures forall b: nat :: b != n ==> View(b) == old(View(b)) && Sight(b) == old(Sight(b))
      ensures ok <==> o != 0 && regionsOk && |old(Collect(table, NamesIn(o)))| <= budget
      ensures ok ==> View(n) == old(View(o)) && Clean(table, o) && Clean(table, n)
      ensures !ok ==> NoEntries(table, n) && SameRefs(old(ft.frames), ft.frames)
    {
      hide Counted, Exclusive, Consistent, Collect, InChains, SightOf, CopyAt, CopyState;
      ghost var named := Collect(table, Names());
      NoEntriesNothing(table, n, mem);
      if o == 0 {
        SameCounts(ft.frames, ft.frames, named, held);
        return false;
      }
      ok := regionsOk;
      if ok {
        ok := CopyPageTable(o, n, budget);
      }
      if !ok {
        ghost var mine := Collect(table, NamesIn(n));
        AsDestroy(n);
        Cancel(Collect(table, Names()), named, mine);
        SameCounts(old(ft.frames), ft.frames, named, held);
      }
    }

    // ----- page faults

    /** `vm_fault`, up to the entry that is written to the TLB. */
    method VmFault(kind: FaultType, addr: nat, process: bool, a: nat, regions: seq<Region>, kmallocOk: bool) returns (r: FaultResult)
      requires Valid()
      modifies this, ft
      ensures Valid() && held == old(held) && |table| == old(|table|)
      ensures r.Failed? ==> unchanged(this) && unchanged(ft)
      ensures forall b: nat :: b != a ==> View(b) == old(View(b)) && Sight(b) == old(Sight(b))
      ensures kind.UnknownFault? ==> r == Failed(EINVAL)
      ensures kind.ReadOnlyFault? || (!kind.UnknownFault? && (!process || a == 0)) ==> r == Failed(EFAULT)
      ensures (kind.ReadFault? || kind.WriteFault?) && process && a != 0 ==>
        var chain := old(table)[HptHash(a, addr / PAGE_SIZE, buckets)];
        forall k: nat :: IsFirstHit(chain, a, k) ==>
          if k < |chain| then
            && HitOutcome(chain[k], old(Alone(ft.frames, chain[k].frame)), old(ft.list) == [], kind, addr, regions, r)
            && View(a) == old(View(a)) && Sight(a) == old(Sight(a))
            && (r.Loaded? ==> table == old(table)[HptHash(a, addr / PAGE_SIZE, buckets) := chain[k := r.entry]])
          else
            && MissOutcome(a, addr, regions, kmallocOk, old(ft.list) == [], r)
            && (r.Loaded? ==> table == old(table)[HptHash(a, addr / PAGE_SIZE, buckets) := [r.entry] + chain] && Alone(ft.frames, r.entry.frame))
            && View(a) == old(View(a)) + if r.Loaded? then multiset{(addr / PAGE_SIZE, true, ZeroPage())} else multiset{}
    {
      hide Counted, Exclusive, Consistent, Collect, InChains, SightOf;
      if kind.ReadOnlyFault? {
        return Failed(EFAULT);
      }
      if kind.UnknownFault? {
        return Failed(EINVAL);
      }
      if !process || a == 0 {
        return Failed(EFAULT);
      }
      var index := HptHash(a, addr / PAGE_SIZE, buckets);
      var k := FindPage(table[index], a);
      HitUnique(table[index], a, k);
      if k == |table[index]| {
        r := Miss(index, addr, a, regions, kmallocOk);
      } else {
        r := Hit(index, k, kind, addr, regions);
      }
    }

    method Miss(index: nat, addr: nat, a: nat, regions: seq<Region>, kmallocOk: bool) returns (r: FaultResult)
      requires Valid() && index == HptHash(a, addr / PAGE_SIZE, buckets)
      modifies this, ft
      ensures Valid() && held == old(held) && |table| == old(|table|)
      ensures r.Failed? ==> unchanged(this) && unchanged(ft)
      ensures forall b: nat :: b != a ==> View(b) == old(View(b)) && Sight(b) == old(Sight(b))
      ensures MissOutcome(a, addr, regions, kmallocOk, old(ft.list) == [], r)
      ensures r.Loaded? ==> table == old(table)[index := [r.entry] + old(table)[index]] && Alone(ft.frames, r.entry.frame)
      ensures View(a) == old(View(a)) + if r.Loaded? then multiset{(addr / PAGE_SIZE, true, ZeroPage())} else multiset{}
    {
      hide Counted, Exclusive, Consistent, Collect, InChains, SightOf;
      var region := AsCheckValidAddr(regions, addr);
      RegionUnique(regions, addr, region);
      if region == |regions| {
        return Failed(EFAULT);
      }
      var e := CreatePage(a, addr / PAGE_SIZE, regions[region].writable, kmallocOk);
      if e.None? {
        return Failed(ENOMEM);
      }
      ghost var h := held;
      InsertPage(index, e.value);
      assert h - multiset{e.value.frame} == old(held);
      return Loaded(e.value);
    }

    method Hit(index: nat, k: nat, kind: FaultType, addr: nat, regions: seq<Region>) returns (r: FaultResult)
      requires Valid() && index < |table| && k < |table[index]| && table[index][k].valid
      modifies this, ft
      ensures Valid() && held == old(held) && |table| == old(|table|)
      ensures r.Failed? ==> unchanged(this) && unchanged(ft)
      ensures forall b: nat :: View(b) == old(View(b)) && Sight(b) == old(Sight(b))
      ensures HitOutcome(old(table[index][k]), old(Alone(ft.frames, table[index][k].frame)), old(ft.list) == [], kind, addr, regions, r)
      ensures r.Loaded? ==> table == old(table)[index := old(table)[index][k := r.entry]]
    {
      if kind.WriteFault? && !table[index][k].dirty {
        var region := AsCheckValidAddr(regions, addr);
        RegionUnique(regions, addr, region);
        if region == |regions| {
          return Failed(EFAULT);
        }
        if !regions[region].writable {
          return Failed(EFAULT);
        }
        var ok := ReadOnWrite(index, k);
        if !ok {
          return Failed(ENOMEM);
        }
      }
      r := Loaded(table[index][k]);
      assert table[index] == old(table)[index][k := r.entry];
    }

    /** The page that the search finds for a page of an address space: its number and its contents, or nothing. */
    ghost function Found(a: nat, page: nat): seq<(nat, bool, Data)>
      requires 0 < buckets <= |table|
      reads this
    {
      FirstValid(SeenIn(mem, a, table[HptHash(a, page, buckets)]))
    }

    /**
     * Two faults in a row at an address.  After the first has loaded an entry, the second finds that entry: it is loaded
     * again, or made writable first, over the same frame if the first fault made it; and no page is added.
     */
    method FaultTwice(kind: FaultType, kind': FaultType, addr: nat, a: nat, regions: seq<Region>, regions': seq<Region>, kmallocOk: bool, kmallocOk': bool)
      returns (r: FaultResult, r': FaultResult)
      requires Valid() && a != 0 && (kind.ReadFault? || kind.WriteFault?) && (kind'.ReadFault? || kind'.WriteFault?)
      modifies this, ft
      ensures Valid() && held == old(held)
      ensures FaultOutcome(old(table)[HptHash(a, addr / PAGE_SIZE, buckets)], old(ft.frames), old(ft.list) == [], a, kind, addr, regions, kmallocOk, r)
      ensures r.Loaded? ==> AgainOutcome(r.entry, Missed(old(table)[HptHash(a, addr / PAGE_SIZE, buckets)], a), kind', addr, regions', r')
      ensures var missed := Missed(old(table)[HptHash(a, addr / PAGE_SIZE, buckets)], a);
        r.Loaded? ==> View(a) == old(View(a)) + if missed then multiset{(addr / PAGE_SIZE, true, ZeroPage())} else multiset{}
    {
      hide Counted, Exclusive, Consistent, Collect, InChains, SightOf, HptHash, HitOutcome, MissOutcome;
      ghost var index := HptHash(a, addr / PAGE_SIZE, buckets);
      ghost var chain := table[index];
      r := VmFault(kind, addr, true, a, regions, kmallocOk);
      r' := r;
      ghost var k := SomeFirstHit(chain, a);
      if r.Loaded? {
        ghost var k' := LoadedIsFirst(chain, table[index], a, k, kind, addr, regions, r);
        ghost var alone, full := Alone(ft.frames, r.entry.frame), ft.list == [];
        r' := VmFault(kind', addr, true, a, regions', kmallocOk');
        AgainIs(r.entry, alone, full, k == |chain|, kind', addr, regions', r');
      }
    }

    /** What is stored after a write fault is what a later fault at the address finds. */
    method StoreThenFault(kind: FaultType, addr: nat, a: nat, regions: seq<Region>, regions': seq<Region>, kmallocOk: bool, kmallocOk': bool, data: Data)
      returns (r: FaultResult, r': FaultResult)
      requires Valid() && a != 0 && (kind.ReadFault? || kind.WriteFault?)
      modifies this, ft
      ensures Valid() && held == old(held)
      ensures FaultOutcome(old(table)[HptHash(a, addr / PAGE_SIZE, buckets)], old(ft.frames), old(ft.list) == [], a, WriteFault, addr, regions, kmallocOk, r)
      ensures r.Loaded? && r.entry.dirty ==> r' == Loaded(r.entry) && Found(a, addr / PAGE_SIZE) == [(r.entry.page, true, data)]
    {
      hide Counted, Exclusive, Consistent, Collect, InChains, SightOf, HptHash, HitOutcome, MissOutcome;
      var index := HptHash(a, addr / PAGE_SIZE, buckets);
      ghost var chain := table[index];
      r := VmFault(WriteFault, addr, true, a, regions, kmallocOk);
      r' := r;
      ghost var k0 := SomeFirstHit(chain, a);
      if r.Loaded? && r.entry.dirty {
        ghost var k' := LoadedIsFirst(chain, table[index], a, k0, WriteFault, addr, regions, r);
        var k := FindPage(table[index], a);
        HitUnique(table[index], a, k);
        ghost var full := ft.list == [];
        Store(index, k, data);
        FoundIsSeen(mem, a, table[index], k);
        ghost var sight := Sight(a);
        assert SeenIn(mem, a, table[index]) == sight[index];
        r' := VmFault(kind, addr, true, a, regions', kmallocOk');
        assert r' == Loaded(r.entry) by { HitDirty(r.entry, full, kind, addr, regions', r'); }
        assert SeenIn(mem, a, table[index]) == Sight(a)[index];
      }
    }

    // ----- whole runs

    /** A page that the kernel takes for itself. */
    method KernelTake(pages: seq<nat>) returns (pages': seq<nat>)
      requires Valid() && multiset(pages) <= held && 0 !in pages
      modifies this, ft
      ensures Valid() && multiset(pages') <= held && 0 !in pages'
      ensures forall b: nat :: View(b) == old(View(b)) && Sight(b) == old(Sight(b))
    {
      hide Counted, Exclusive, Consistent, Collect, InChains, SightOf;
      pages' := pages;
      var r := AllocPage();
      if r.Some? {
        pages' := pages + [r.value];
      }
    }

    /** A page that the kernel gives back. */
    method KernelGive(pages: seq<nat>, j: nat) returns (pages': seq<nat>)
      requires Valid() && multiset(pages) <= held && 0 !in pages
      modifies this, ft
      ensures Valid() && multiset(pages') <= held && 0 !in pages'
      ensures forall b: nat :: View(b) == old(View(b)) && Sight(b) == old(Sight(b))
    {
      hide Counted, Exclusive, Consistent, Collect, InChains, SightOf;
      pages' := pages;
      if j < |pages| {
        assert pages == pages[..j] + [pages[j]] + pages[j + 1..];
        assert pages[j] in multiset(pages);
        FreePage(pages[j]);
        pages' := pages[..j] + pages[j + 1..];
        assert multiset(pages') == multiset(pages) - multiset{pages[j]};
      }
    }

    /** Only live address spaces have entries, and the null pointer is not one. */
    ghost predicate Owned(live: set<nat>)
      reads this
    {
      0 !in live && forall b: nat :: b !in live ==> View(b) == multiset{}
    }

    /**
     * Carry out one step if it is possible in the current state; `pages` are the kernel's own pages, and `live` the
     * address spaces that exist.  A new address space is one that kmalloc has just returned, so it is none of them.
     */
    method Execute(s: Step, pages: seq<nat>, live: set<nat>) returns (pages': seq<nat>, live': set<nat>)
      requires Valid() && multiset(pages) <= held && 0 !in pages && Owned(live)
      modifies this, ft
      ensures Valid() && multiset(pages') <= held && 0 !in pages' && Owned(live')
      ensures forall b: nat :: Touches(s) != Some(b) ==> View(b) == old(View(b)) && Sight(b) == old(Sight(b))
      ensures live' == Living(s, live, s.Fork? && |old(Collect(table, NamesIn(s.parent)))| <= s.budget)
      ensures s.Fork? && s.child !in live && s.child in live' ==> View(s.child) == old(View(s.parent))
      ensures s.Exit? && s.as_ != 0 ==> View(s.as_) == multiset{}
      ensures s.Fault? && s.as_ in live && DemandsZero(old(table)[HptHash(s.as_, s.addr / PAGE_SIZE, buckets)], s, old(ft.list) == []) ==>
        View(s.as_) == old(View(s.as_)) + multiset{(s.addr / PAGE_SIZE, true, ZeroPage())}
      ensures s.UserStore? && s.as_ in live && CanStore(old(table), s) ==>
        var e := old(table)[s.i][s.k];
        View(s.as_) + multiset{(e.page, true, Content(old(mem), e.frame))} == old(View(s.as_)) + multiset{(e.page, true, s.data)}
    {
      hide Counted, Exclusive, Consistent, Collect, InChains, SightOf;
      pages', live' := pages, live;
      match s
      case Fault(a, kind, addr, regions, kmallocOk) =>
        if a in live {
          ghost var j := FirstRegion(regions, addr);
          var _ := VmFault(kind, addr, true, a, regions, kmallocOk);
        }
      case UserStore(a, i, k, data) =>
        if a in live && i < |table| && k < |table[i]| && table[i][k].pid == a && table[i][k].valid && table[i][k].dirty {
          Store(i, k, data);
        }
      case Fork(o, n, regionsOk, budget) =>
        if (o == 0 || o in live) && n != 0 && n !in live {
          SeesNothing(table, mem, n);
          var ok := AsCopy(o, n, regionsOk, budget);
          if ok {
            live' := live + {n};
          } else {
            SeesNothing(table, mem, n);
          }
        }
      case Exit(a) =>
        AsDestroy(a);
        live' := live - {a};
      case Create(n) =>
        if n != 0 && n !in live {
          live' := live + {n};
        }
      case KernelAlloc =>
        pages' := KernelTake(pages);
      case KernelFree(j) =>
        pages' := KernelGive(pages, j);
    }

    /**
     * Isolation over whole runs: whatever other address spaces and the kernel do, in any order, an address
     * space that no step touches sees exactly what it saw before.
     */
    method Run(steps: seq<Step>, live: set<nat>) returns (live': set<nat>)
      requires Valid() && Owned(live)
      modifies this, ft
      ensures Valid() && Owned(live')
      ensures forall b: nat :: (forall s :: s in steps ==> Touches(s) != Some(b)) ==> View(b) == old(View(b)) && Sight(b) == old(Sight(b))
      ensures forall b: nat, p: nat :: (forall s :: s in steps ==> Touches(s) != Some(b)) ==> Found(b, p) == old(Found(b, p))
    {
      hide Counted, Exclusive, Consistent, Collect, InChains, SightOf;
      var pages: seq<nat> := [];
      live' := live;
      for n := 0 to |steps|
        invariant Valid() && multiset(pages) <= held && 0 !in pages && Owned(live')
        invariant forall b: nat :: (forall s :: s in steps ==> Touches(s) != Some(b)) ==> View(b) == old(View(b)) && Sight(b) == old(Sight(b))
      {
        assert steps[n] in steps;
        pages, live' := Execute(steps[n], pages, live');
      }
    }
  }

  /** Every address space but `n` sees the same through two tables. */
  ghost predicate OthersSee(t: Table, t': Table, mem: seq<Data>, n: nat) {
    forall b: nat :: b != n ==> SightOf(t', mem, b) == SightOf(t, mem, b)
  }

  lemma {:induction false} OthersSame(t: Table, mem: seq<Data>, n: nat)
    ensures OthersSee(t, t, mem, n)
  {
  }

  lemma {:induction false} OthersNext(t: Table, t1: Table, t2: Table, mem: seq<Data>, n: nat)
    requires OthersSee(t, t1, mem, n) && OthersSee(t1, t2, mem, n)
    ensures OthersSee(t, t2, mem, n)
  {
    hide SightOf;
  }

  lemma {:induction false} SightsBags(t: Table, t': Table, mem: seq<Data>, n: nat)
    requires OthersSee(t, t', mem, n)
    ensures forall b: nat :: b != n ==> SightOf(t', mem, b) == SightOf(t, mem, b) && Collect(t', Sees(mem, b)) == Collect(t, Sees(mem, b))
  {
    forall b: nat | b != n
      ensures Collect(t', Sees(mem, b)) == Collect(t, Sees(mem, b))
    {
      SightBag(t', t, mem, mem, b);
    }
  }

  /** An address space sees nothing exactly when it has no entry. */
  lemma {:induction false} SeesNothing(t: Table, mem: seq<Data>, a: nat)
    ensures NoEntries(t, a) <==> Collect(t, Sees(mem, a)) == multiset{}
  {
    if NoEntries(t, a) {
      NoEntriesNothing(t, a, mem);
    } else {
      var i: nat, k: nat :| i < |t| && k < |t[i]| && t[i][k].pid == a;
      Contributes(t, i, k, Sees(mem, a));
      assert |Sees(mem, a)(t[i][k])| == 1;
    }
  }

  /** A frame with exactly one reference. */
  ghost predicate Alone(frames: seq<Frame>, f: nat) {
    f < |frames| && frames[f].ref == 1
  }

  /** What a fault on an existing entry does: a write to a shared frame needs a copy, and no frame may be left for it. */
  ghost predicate HitOutcome(e: Pte, alone: bool, full: bool, kind: FaultType, addr: nat, regions: seq<Region>, r: FaultResult) {
    if kind.WriteFault? && !e.dirty then
      forall k: nat :: IsFirstRegion(regions, addr, k) ==>
        if k == |regions| || !regions[k].writable then r == Failed(EFAULT)
        else if !alone && full then r == Failed(ENOMEM)
        else r.Loaded? && r.entry == e.(dirty := true, frame := r.entry.frame) && (r.entry.frame == e.frame <==> alone)
    else
      r == Loaded(e)
  }

  /** What a read or write fault answers, for the chain that it looks in. */
  ghost predicate FaultOutcome(c: Chain, frames: seq<Frame>, full: bool, a: nat, kind: FaultType, addr: nat, regions: seq<Region>, kmallocOk: bool, r: FaultResult) {
    forall k: nat :: IsFirstHit(c, a, k) ==>
      if k < |c| then HitOutcome(c[k], Alone(frames, c[k].frame), full, kind, addr, regions, r)
      else MissOutcome(a, addr, regions, kmallocOk, full, r)
  }

  /** No valid entry of `a` is in a chain. */
  ghost predicate Missed(c: Chain, a: nat) {
    IsFirstHit(c, a, |c|)
  }

  /** What a second fault does after one that has loaded `e`, which was made by that fault if `made`. */
  ghost predicate AgainOutcome(e: Pte, made: bool, kind: FaultType, addr: nat, regions: seq<Region>, r: FaultResult) {
    if kind.WriteFault? && !e.dirty then
      forall k: nat :: IsFirstRegion(regions, addr, k) ==>
        if k == |regions| || !regions[k].writable then r == Failed(EFAULT)
        else if made then r == Loaded(e.(dirty := true))
        else r == Failed(ENOMEM) || (r.Loaded? && r.entry == e.(dirty := true, frame := r.entry.frame))
    else r == Loaded(e)
  }

  lemma {:induction false} AgainIs(e: Pte, alone: bool, full: bool, made: bool, kind: FaultType, addr: nat, regions: seq<Region>, r: FaultResult)
    requires HitOutcome(e, alone, full, kind, addr, regions, r) && (made ==> alone)
    ensures AgainOutcome(e, made, kind, addr, regions, r)
  {
  }

  lemma {:induction false} HitDirty(e: Pte, full: bool, kind: FaultType, addr: nat, regions: seq<Region>, r: FaultResult)
    requires e.dirty && exists alone :: HitOutcome(e, alone, full, kind, addr, regions, r)
    ensures r == Loaded(e)
  {
  }

  lemma {:induction false} SomeFirstHit(c: Chain, a: nat) returns (k: nat)
    ensures IsFirstHit(c, a, k) && (k == |c| <==> Missed(c, a))
    decreases |c|
  {
    k := 0;
    while k < |c| && !(c[k].pid == a && c[k].valid)
      invariant 0 <= k <= |c|
      invariant forall l :: 0 <= l < k ==> !(c[l].pid == a && c[l].valid)
    {
      k := k + 1;
    }
  }

  /** The entry that a fault has loaded is the first valid one of its address space in the chain. */
  lemma {:induction false} LoadedIsFirst(c: Chain, c': Chain, a: nat, k: nat, kind: FaultType, addr: nat, regions: seq<Region>, r: FaultResult) returns (k': nat)
    requires IsFirstHit(c, a, k) && r.Loaded? && (kind.ReadFault? || kind.WriteFault?)
    requires if k < |c| then (exists alone, full :: HitOutcome(c[k], alone, full, kind, addr, regions, r)) && c' == c[k := r.entry]
             else (exists ok, full :: MissOutcome(a, addr, regions, ok, full, r)) && c' == [r.entry] + c
    ensures k' < |c'| && IsFirstHit(c', a, k') && c'[k'] == r.entry
  {
    k' := if k < |c| then k else 0;
    var j := FirstRegion(regions, addr);
  }

  lemma {:induction false} FirstRegion(regions: seq<Region>, addr: nat) returns (k: nat)
    ensures IsFirstRegion(regions, addr, k)
  {
    k := 0;
    while k < |regions| && !Contains(regions[k], addr)
      invariant 0 <= k <= |regions|
      invariant forall l :: 0 <= l < k ==> !Contains(regions[l], addr)
    {
      k := k + 1;
    }
  }

  /** What a fault on an absent entry does. */
  ghost predicate MissOutcome(a: nat, addr: nat, regions: seq<Region>, kmallocOk: bool, full: bool, r: FaultResult) {
    forall k: nat :: IsFirstRegion(regions, addr, k) ==>
      if k == |regions| then r == Failed(EFAULT)
      else if !kmallocOk || full then r == Failed(ENOMEM)
      else r.Loaded? && r.entry == Pte(a, addr / PAGE_SIZE, r.entry.frame, true, regions[k].writable)
  }

  lemma {:induction false} RegionUnique(regions: seq<Region>, addr: nat, k: nat)
    requires IsFirstRegion(regions, addr, k)
    ensures forall l: nat :: IsFirstRegion(regions, addr, l) ==> l == k
  {
  }

  lemma {:induction false} HitUnique(c: Chain, a: nat, k: nat)
    requires IsFirstHit(c, a, k)
    ensures forall l: nat :: IsFirstHit(c, a, l) ==> l == k
  {
  }

  // ----- the invariant of the copying walk

  /** What a copy from `o` to `n` starts with: memory, what `o` sees, all named frames, and the number of entries of `o`. */
  datatype Copy = Copy(mem: seq<Data>, o: nat, n: nat, seen: multiset<(nat, bool, Data)>, named: multiset<nat>, total: nat)

  ghost function CopyOf(t: Table, mem: seq<Data>, o: nat, n: nat): Copy {
    Copy(mem, o, n, Collect(t, Sees(mem, o)), Collect(t, Names()), |Collect(t, NamesIn(o))|)
  }

  /**
   * About to walk chain `i`: `n` sees what `o` showed in the earlier chains, all of that is read-only, and `spent`
   * entries of `o` are shared.
   */
  ghost predicate CopyAt(t: Table, w: Copy, i: nat, spent: nat) {
    && i <= |t|
    && Walked(t, w.o, w.n, i, 0)
    && Collect(t, Names()) == w.named + Collect(t, NamesIn(w.n))
    && Collect(t, Sees(w.mem, w.n)) + Collect(t[i..], Sees(w.mem, w.o)) == w.seen
    && spent + |Collect(t[i..], NamesIn(w.o))| == w.total
  }

  /** The same with `r` entries of chain `i` still to go. */
  ghost predicate CopyState(t: Table, w: Copy, i: nat, r: nat, spent: nat) {
    && i < |t| && r <= |t[i]|
    && Walked(t, w.o, w.n, i, |t[i]| - r)
    && Collect(t, Names()) == w.named + Collect(t, NamesIn(w.n))
    && Collect(t, Sees(w.mem, w.n)) + Rest(t, i, r, Sees(w.mem, w.o)) == w.seen
    && spent + |Rest(t, i, r, NamesIn(w.o))| == w.total
  }

  lemma {:induction false} CopyStart(t: Table, mem: seq<Data>, o: nat, n: nat)
    requires NoEntries(t, n)
    ensures CopyAt(t, CopyOf(t, mem, o, n), 0, 0)
  {
    hide Collect;
    NoEntriesNothing(t, n, mem);
    assert t[0..] == t;
  }

  lemma {:induction false} CopyEnter(t: Table, w: Copy, i: nat, spent: nat)
    requires i < |t| && CopyAt(t, w, i, spent)
    ensures CopyState(t, w, i, |t[i]|, spent)
  {
    hide Collect, Rest;
    RestStart(t, i, Sees(w.mem, w.o));
    RestStart(t, i, NamesIn(w.o));
  }

  lemma {:induction false} CopyLeave(t: Table, w: Copy, i: nat, spent: nat)
    requires CopyState(t, w, i, 0, spent)
    ensures CopyAt(t, w, i + 1, spent)
  {
    hide Collect, Rest;
    RestStart(t, i, Sees(w.mem, w.o));
    RestStart(t, i, NamesIn(w.o));
  }

  lemma {:induction false} CopyEnd(t: Table, w: Copy, spent: nat)
    requires CopyAt(t, w, |t|, spent)
    ensures Collect(t, Sees(w.mem, w.n)) == w.seen && Collect(t, Names()) == w.named + Collect(t, NamesIn(w.n))
    ensures Clean(t, w.o) && Clean(t, w.n)
    ensures spent == w.total
  {
    assert t[|t|..] == [];
    assert Collect(t[|t|..], Sees(w.mem, w.o)) == multiset{};
  }

  lemma {:induction false} CopySkip(t: Table, w: Copy, i: nat, r: nat, spent: nat)
    requires CopyState(t, w, i, r, spent) && r > 0 && t[i][|t[i]| - r].pid != w.o
    ensures CopyState(t, w, i, r - 1, spent)
  {
    hide Collect, Rest;
    RestStep(t, i, r, Sees(w.mem, w.o));
    RestStep(t, i, r, NamesIn(w.o));
    assert Sees(w.mem, w.o)(t[i][|t[i]| - r]) == multiset{};
    assert NamesIn(w.o)(t[i][|t[i]| - r]) == multiset{};
  }

  /** When no entry can be had for the one at hand, the walk has not paid for all of them. */
  lemma {:induction false} CopyFail(t: Table, w: Copy, i: nat, r: nat, spent: nat)
    requires CopyState(t, w, i, r, spent) && r > 0 && t[i][|t[i]| - r].pid == w.o
    ensures var t1 := t[i := t[i][|t[i]| - r := t[i][|t[i]| - r].(dirty := false)]];
      Collect(t1, Names()) == w.named + Collect(t1, NamesIn(w.n))
    ensures spent < w.total
  {
    hide Collect, Rest;
    SameNames(t, i, |t[i]| - r, NamesIn(w.n));
    SameNames(t, i, |t[i]| - r, Names());
    RestStep(t, i, r, NamesIn(w.o));
    assert NamesIn(w.o)(t[i][|t[i]| - r]) == multiset{t[i][|t[i]| - r].frame};
  }

  /** Sharing the entry at hand advances the walk by one entry. */
  lemma {:induction false} CopyStep(t: Table, w: Copy, i: nat, r: nat, j: nat, spent: nat)
    requires CopyState(t, w, i, r, spent) && r > 0 && t[i][|t[i]| - r].pid == w.o && w.o != w.n && j < |t|
    ensures var e := t[i][|t[i]| - r];
      var t1 := t[i := t[i][|t[i]| - r := e.(dirty := false)]];
      CopyState(t1[j := [Pte(w.n, e.page, e.frame, e.valid, false)] + t1[j]], w, i, r - 1, spent + 1)
  {
    hide Collect, Rest, Walked, Sees, Names, NamesIn;
    var k := |t[i]| - r;
    var e := t[i][k];
    var e' := Pte(w.n, e.page, e.frame, e.valid, false);
    WalkedShare(t, i, r, w.o, w.n, j);
    Contributions(w.mem, w.o, w.n, e, e');
    SharedCollects(t, i, k, j, e', NamesIn(w.n));
    SharedCollects(t, i, k, j, e', Names());
    SharedCollects(t, i, k, j, e', Sees(w.mem, w.n));
    SharedRest(t, i, r, j, e', Sees(w.mem, w.o));
    SharedRest(t, i, r, j, e', NamesIn(w.o));
    var v, rest := Collect(t, Sees(w.mem, w.n)), Rest(t, i, r - 1, Sees(w.mem, w.o));
    assert (v + Sees(w.mem, w.o)(e)) + rest == v + (Sees(w.mem, w.o)(e) + rest);
  }

  /** What the two entries of a shared page contribute. */
  lemma {:induction false} Contributions(mem: seq<Data>, o: nat, n: nat, e: Pte, e': Pte)
    requires e.pid == o && o != n && e' == Pte(n, e.page, e.frame, e.valid, false)
    ensures NamesIn(n)(e.(dirty := false)) == NamesIn(n)(e) && Names()(e.(dirty := false)) == Names()(e)
    ensures Sees(mem, n)(e.(dirty := false)) == Sees(mem, n)(e)
    ensures NamesIn(n)(e') == Names()(e') && NamesIn(o)(e) == multiset{e.frame} && NamesIn(o)(e') == multiset{}
    ensures Sees(mem, n)(e') == Sees(mem, o)(e) && Sees(mem, o)(e') == multiset{}
  {
  }

  /** Clearing the write permission of one entry and putting another at the head of a chain. */
  lemma {:induction false} SharedCollects<X>(t: Table, i: nat, k: nat, j: nat, e': Pte, g: Pte -> multiset<X>)
    requires i < |t| && k < |t[i]| && j < |t| && g(t[i][k].(dirty := false)) == g(t[i][k])
    ensures var t1 := t[i := t[i][k := t[i][k].(dirty := false)]];
      Collect(t1[j := [e'] + t1[j]], g) == Collect(t, g) + g(e')
  {
    hide Collect;
    SameNames(t, i, k, g);
    InsertEntry(t[i := t[i][k := t[i][k].(dirty := false)]], j, e', g);
  }

  /** What is left to walk after that, for a function to which the new entry contributes nothing. */
  lemma {:induction false} SharedRest<X>(t: Table, i: nat, r: nat, j: nat, e': Pte, g: Pte -> multiset<X>)
    requires i < |t| && 0 < r <= |t[i]| && j < |t| && g(e') == multiset{}
    ensures Rest(t, i, r, g) == g(t[i][|t[i]| - r]) + Rest(t, i, r - 1, g)
    ensures var t1 := t[i := t[i][|t[i]| - r := t[i][|t[i]| - r].(dirty := false)]];
      var t2 := t1[j := [e'] + t1[j]];
      r - 1 <= |t2[i]| && Rest(t2, i, r - 1, g) == Rest(t, i, r - 1, g)
  {
    hide Rest;
    var e := t[i][|t[i]| - r].(dirty := false);
    RestStep(t, i, r, g);
    RestAfterUpdate(t, i, r, e, g);
    RestAfterInsert(t[i := t[i][|t[i]| - r := e]], i, r - 1, j, e', g);
  }

  /** No entry of `a` may be written. */
  ghost predicate Clean(t: Table, a: nat) {
    CleanUpTo(t, a, |t|)
  }

  ghost predicate CleanUpTo(t: Table, a: nat, n: nat) {
    forall i, k :: 0 <= i < |t| && i < n && 0 <= k < |t[i]| && t[i][k].pid == a ==> !t[i][k].dirty
  }

  /** Every entry of `n` is clean, and so is every entry of `o` in the first `i` chains and the first `k` entries of chain `i`. */
  ghost predicate Walked(t: Table, o: nat, n: nat, i: nat, k: nat) {
    && Clean(t, n)
    && CleanUpTo(t, o, i)
    && (i < |t| ==> forall l :: 0 <= l < |t[i]| && l < k && t[i][l].pid == o ==> !t[i][l].dirty)
  }

  lemma {:induction false} WalkedShare(t: Table, i: nat, r: nat, o: nat, n: nat, j: nat)
    requires o != n && i < |t| && j < |t| && 0 < r <= |t[i]| && t[i][|t[i]| - r].pid == o
    requires Walked(t, o, n, i, |t[i]| - r)
    ensures var e := t[i][|t[i]| - r];
      var t1 := t[i := t[i][|t[i]| - r := e.(dirty := false)]];
      var t2 := t1[j := [Pte(n, e.page, e.frame, e.valid, false)] + t1[j]];
      Walked(t2, o, n, i, |t2[i]| - (r - 1))
  {
    var e := t[i][|t[i]| - r];
    var t1 := t[i := t[i][|t[i]| - r := e.(dirty := false)]];
    var e' := Pte(n, e.page, e.frame, e.valid, false);
    assert Walked(t1, o, n, i, |t1[i]| - r + 1);
    WalkedInsert(t1, i, |t1[i]| - r + 1, o, n, j, e');
  }

  lemma {:induction false} WalkedInsert(t: Table, i: nat, k: nat, o: nat, n: nat, j: nat, e: Pte)
    requires i < |t| && j < |t| && !e.dirty && Walked(t, o, n, i, k)
    ensures Walked(t[j := [e] + t[j]], o, n, i, if i == j then k + 1 else k)
  {
    var t': Table := t[j := [e] + t[j]];
    forall x: int, l: int | 0 <= x < |t'| && 0 <= l < |t'[x]|
      ensures t'[x][l].pid == n ==> !t'[x][l].dirty
      ensures x < i && t'[x][l].pid == o ==> !t'[x][l].dirty
      ensures x == i && l < (if i == j then k + 1 else k) && t'[x][l].pid == o ==> !t'[x][l].dirty
    {
      if x == j {
        assert t'[x][l] == if l == 0 then e else t[x][l - 1];
      } else {
        assert t'[x][l] == t[x][l];
      }
    }
  }

  lemma {:induction false} SameNames<X>(t: Table, i: nat, k: nat, g: Pte -> multiset<X>)
    requires i < |t| && k < |t[i]|
    requires g(t[i][k].(dirty := false)) == g(t[i][k])
    ensures Collect(t[i := t[i][k := t[i][k].(dirty := false)]], g) == Collect(t, g)
  {
    var e := t[i][k].(dirty := false);
    UpdateEntry(t, i, k, e, g);
    Cancel(Collect(t[i := t[i][k := e]], g), Collect(t, g), g(e));
  }

  lemma Balance(n0: multiset<nat>, n1: multiset<nat>, m0: multiset<nat>, m1: multiset<nat>, x: multiset<nat>,
                named: multiset<nat>, mine: multiset<nat>)
    requires n1 + x == n0 && m1 + x == m0 && n0 + mine == named + m0
    ensures n1 + mine == named + m1
  {
    forall y ensures (n1 + mine)[y] == (named + m1)[y] {
      assert (n1 + x)[y] == n0[y] && (m1 + x)[y] == m0[y] && (n0 + mine)[y] == (named + m0)[y];
    }
  }

  /** A frame that a clean entry names is not also named by a dirty one. */
  lemma {:induction false} SharedNotDirty(frames: seq<Frame>, named: multiset<nat>, dirty: multiset<nat>, held: multiset<nat>, f: nat)
    requires Counted(frames, named, held) && Exclusive(frames, dirty) && dirty <= named
    requires f in named && dirty <= named - multiset{f}
    ensures f !in dirty
  {
    assert dirty[f] <= (named - multiset{f})[f];
    if f in dirty {
      DirtyIsAlone(frames, named, dirty, held, f);
    }
  }

  lemma {:induction false} NamedOnce(t: Table, i: nat, k: nat, j: nat, l: nat)
    requires i < |t| && k < |t[i]| && j < |t| && l < |t[j]| && (i, k) != (j, l)
    requires Collect(t, Names())[t[i][k].frame] == 1
    ensures t[j][l].frame != t[i][k].frame
  {
    hide Collect;
    var f := t[i][k].frame;
    var t1 := t[i := t[i][..k] + t[i][k + 1..]];
    RemoveEntry(t, i, k, Names());
    assert Collect(t1, Names())[f] == 0 by { assert Collect(t, Names()) == Collect(t1, Names()) + multiset{f}; }
    var l' := if i == j && k < l then l - 1 else l;
    assert t1[j][l'] == t[j][l];
    Contributes(t1, j, l', Names());
    assert multiset{t[j][l].frame} <= Collect(t1, Names()) by { assert Names()(t1[j][l']) == multiset{t[j][l].frame}; }
    assert t[j][l].frame in Collect(t1, Names());
  }

  lemma {:induction false} DirtyChange(frames: seq<Frame>, d: multiset<nat>, d': multiset<nat>, e: Pte, e': Pte)
    requires e' == e.(dirty := e'.dirty)
    requires Exclusive(frames, d) && d' + NamesDirty()(e) == d + NamesDirty()(e')
    requires e'.dirty ==> e.frame < |frames| && frames[e.frame].ref == 1
    ensures Exclusive(frames, d')
  {
    if e'.dirty && !e.dirty {
      assert d' == d + multiset{e.frame};
      OneMoreDirty(frames, d, e.frame);
    } else {
      assert d' <= d by {
        forall x ensures d'[x] <= d[x] { assert (d' + NamesDirty()(e))[x] == (d + NamesDirty()(e'))[x]; }
      }
      FewerDirty(frames, d, d');
    }
  }

  /** A clean entry's frame is named once more than the dirty entries name it. */
  lemma {:induction false} CleanNotDirty(t: Table, i: nat, k: nat)
    requires i < |t| && k < |t[i]| && !t[i][k].dirty
    ensures Collect(t, NamesDirty()) <= Collect(t, Names()) - multiset{t[i][k].frame}
  {
    DirtyAndClean(t);
    Contributes(t, i, k, NamesClean());
    var f, d, c, n := t[i][k].frame, Collect(t, NamesDirty()), Collect(t, NamesClean()), Collect(t, Names());
    assert multiset{f} <= c by { assert NamesClean()(t[i][k]) == multiset{f}; }
    forall x ensures d[x] <= (n - multiset{f})[x] { assert (d + c)[x] <= n[x]; }
  }

  /** A store through the only entry that names a frame is invisible to every other address space. */
  lemma {:induction false} AloneUnseen(t: Table, i: nat, k: nat, mem: seq<Data>, mem': seq<Data>, a: nat)
    requires i < |t| && k < |t[i]| && a != t[i][k].pid && Collect(t, Names())[t[i][k].frame] == 1
    requires |mem| == |mem'| && forall g :: 0 <= g < |mem| && g != t[i][k].frame ==> mem[g] == mem'[g]
    ensures Collect(t, Sees(mem', a)) == Collect(t, Sees(mem, a)) && SightOf(t, mem', a) == SightOf(t, mem, a)
  {
    var e := t[i][k];
    NamedApart(t, a, e.pid);
    Contributes(t, i, k, NamesIn(e.pid));
    var x, y, n := Collect(t, NamesIn(a)), Collect(t, NamesIn(e.pid)), Collect(t, Names());
    assert multiset{e.frame} <= y by { assert NamesIn(e.pid)(e) == multiset{e.frame}; }
    assert (x + y)[e.frame] <= n[e.frame];
    assert y[e.frame] >= multiset{e.frame}[e.frame];
    UnseenChange(t, mem, mem', e.frame, a);
  }

  /** A store through the only entry that names a frame changes what is seen through that entry alone. */
  lemma {:induction false} AloneSeenOnce(t: Table, i: nat, k: nat, mem: seq<Data>, mem': seq<Data>)
    requires i < |t| && k < |t[i]| && Collect(t, Names())[t[i][k].frame] == 1
    requires |mem| == |mem'| && forall g :: 0 <= g < |mem| && g != t[i][k].frame ==> mem[g] == mem'[g]
    ensures var e := t[i][k];
      Collect(t, Sees(mem', e.pid)) + Sees(mem, e.pid)(e) == Collect(t, Sees(mem, e.pid)) + Sees(mem', e.pid)(e)
  {
    var e := t[i][k];
    var t1 := t[i := t[i][..k] + t[i][k + 1..]];
    RemoveEntry(t, i, k, Names());
    RemoveEntry(t, i, k, Sees(mem, e.pid));
    RemoveEntry(t, i, k, Sees(mem', e.pid));
    NamedInTable(t1, e.pid);
    UnseenChange(t1, mem, mem', e.frame, e.pid);
  }

  lemma {:induction false} EmptyTable<X>(t: Table, g: Pte -> multiset<X>)
    requires forall i :: 0 <= i < |t| ==> t[i] == []
    ensures Collect(t, g) == multiset{}
    decreases |t|
  {
    if |t| > 0 {
      EmptyTable(t[1..], g);
    }
  }
}
