/** Kernel heap users: any interleaving of the heap's critical sections, with the pages that feed it. */
module HeapRuns {
  import opened HeapBlocks
  import opened HeapState
  import opened KHeap
  import opened PageRefPool
  import opened Words

  /**
   * One step of a heap user.  `Take` and `Give` are `alloc_kpages(1)` and `free_kpages` in the middle of an operation:
   * they move a page into and out of some thread's hands.  `Try`, `Refill` and `Obtain` are the critical sections of a
   * sub-page `kmalloc`, from the first to the one after `allocpagerefpage` has tried to get a page (`va`, or 0); a thread
   * that had to give its page back goes on as with 0.  `Whole` is the other branch of `kmalloc`.
   */
  datatype Op =
    | Take(p: nat) | Give(p: nat)
    | Try(sz: nat) | Refill(sz: nat, page: nat) | Obtain(s: nat, va: nat)
    | Whole(sz: nat, page: nat)
    | Free(ptr: nat)
    | Write(a: nat, offset: nat, v: nat)

  /** A thread between two sections of `allocpageref`: what it was asked for, and the heap page that it brought. */
  datatype Pending = Pending(sz: nat, page: nat)

  /** `p` is one of the `n` pages from `a` on. */
  predicate InRun(a: nat, n: nat, p: nat) {
    p % PAGE_SIZE == 0 && a <= p < a + n * PAGE_SIZE
  }

  ghost predicate Owns(recs: seq<Record>, all: seq<nat>, big: map<nat, nat>, p: nat) {
    (exists s :: s in all && s < |recs| && recs[s].page == p) || exists a :: a in big && InRun(a, big[a], p)
  }

  /** Every page is available or in the heap, never both. */
  ghost predicate Accounted(recs: seq<Record>, all: seq<nat>, big: map<nat, nat>, avail: set<nat>, total: set<nat>) {
    && (forall p :: p in avail ==> NewPages(recs, all, big, p, 1))
    && forall p: nat :: p in total <==> p in avail || Owns(recs, all, big, p)
  }

  /** The pages from `a` on. */
  function RunOf(a: nat, n: nat): (r: set<nat>)
    ensures a % PAGE_SIZE == 0 ==> forall p: nat :: p in r <==> InRun(a, n, p)
  {
    set p: nat | a <= p < a + n * PAGE_SIZE && p % PAGE_SIZE == 0
  }

  lemma PagesApartSym(a: nat, m: nat, p: nat)
    requires a % PAGE_SIZE == 0 && p % PAGE_SIZE == 0 && m > 0 && !InRun(a, m, p)
    ensures PagesApart(a, m, p, 1)
  {
  }

  lemma NotInRun(a: nat, m: nat, p: nat)
    requires PagesApart(a, m, p, 1) && m > 0
    ensures !InRun(a, m, p)
  {
  }

  /** Available pages are not owned. */
  lemma {:induction false} AvailableNotOwned(recs: seq<Record>, all: seq<nat>, big: map<nat, nat>, p: nat)
    requires NewPages(recs, all, big, p, 1) && Apart(recs, all, big)
    ensures !Owns(recs, all, big, p)
  {
    forall a | a in big
      ensures !InRun(a, big[a], p)
    {
      NotInRun(a, big[a], p);
    }
  }

  /** Consecutive available pages are a new run of pages. */
  lemma {:induction false} JoinPages(recs: seq<Record>, mem: map<nat, nat>, all: seq<nat>, free: seq<seq<nat>>, big: map<nat, nat>, page: nat, n: nat)
    requires Intact(recs, mem, all, free) && Apart(recs, all, big) && page > 0 && page % PAGE_SIZE == 0 && n > 0
    requires forall p: nat :: InRun(page, n, p) ==> NewPages(recs, all, big, p, 1)
    ensures NewPages(recs, all, big, page, n)
  {
    hide FreeList;
    forall s | s in all && s < |recs|
      ensures PagesApart(recs[s].page, 1, page, n)
    {
      PageAligned(recs, mem, all, free, s);
      Clear(recs, all, big, page, n, recs[s].page, 1);
    }
    forall a | a in big
      ensures PagesApart(a, big[a], page, n)
    {
      Clear(recs, all, big, page, n, a, big[a]);
    }
  }

  lemma {:induction false} Clear(recs: seq<Record>, all: seq<nat>, big: map<nat, nat>, page: nat, n: nat, x: nat, m: nat)
    requires page % PAGE_SIZE == 0 && n > 0 && x % PAGE_SIZE == 0 && m > 0
    requires forall p: nat :: InRun(page, n, p) ==> NewPages(recs, all, big, p, 1)
    requires (exists s :: s in all && s < |recs| && recs[s].page == x && m == 1) || (x in big && big[x] == m)
    ensures PagesApart(x, m, page, n)
  {
    var p := if x < page then page else x;
    if InRun(page, n, p) {
      assert NewPages(recs, all, big, p, 1);
      assert PagesApart(x, m, p, 1);
    }
  }

  lemma {:induction false} AddRunAccounted(recs: seq<Record>, all: seq<nat>, big: map<nat, nat>, avail: set<nat>, total: set<nat>, page: nat, n: nat)
    requires Accounted(recs, all, big, avail, total) && NewPages(recs, all, big, page, n) && page !in big
    requires forall p :: p in RunOf(page, n) ==> p in avail
    ensures Accounted(recs, all, big[page := n], avail - RunOf(page, n), total)
  {
    var big', avail' := big[page := n], avail - RunOf(page, n);
    forall p | p in avail'
      ensures NewPages(recs, all, big', p, 1)
    {
      PagesApartSym(page, n, p);
    }
    forall p: nat
      ensures p in total <==> p in avail' || Owns(recs, all, big', p)
    {
      assert p in total <==> p in avail || Owns(recs, all, big, p);
      if Owns(recs, all, big, p) && exists a :: a in big && InRun(a, big[a], p) {
        var a :| a in big && InRun(a, big[a], p);
        assert a in big' && InRun(a, big'[a], p);
      }
      assert page in big' && (InRun(page, big'[page], p) <==> p in RunOf(page, n));
      if Owns(recs, all, big', p) && exists a :: a in big' && InRun(a, big'[a], p) {
        var a :| a in big' && InRun(a, big'[a], p);
        assert a != page ==> a in big && InRun(a, big[a], p);
      }
    }
  }

  lemma {:induction false} DropRunAccounted(recs: seq<Record>, mem: map<nat, nat>, all: seq<nat>, free: seq<seq<nat>>, big: map<nat, nat>, avail: set<nat>, total: set<nat>, page: nat)
    requires Accounted(recs, all, big, avail, total) && Apart(recs, all, big) && Intact(recs, mem, all, free) && page in big
    ensures Accounted(recs, all, big - {page}, avail + RunOf(page, big[page]), total)
  {
    hide FreeList;
    var n, big' := big[page], big - {page};
    var avail' := avail + RunOf(page, n);
    forall p | p in avail'
      ensures NewPages(recs, all, big', p, 1)
    {
      if p in RunOf(page, n) {
        InsideRun(recs, all, big, page, p);
      }
    }
    forall p: nat
      ensures p in total <==> p in avail' || Owns(recs, all, big', p)
    {
      assert p in total <==> p in avail || Owns(recs, all, big, p);
      assert p in RunOf(page, n) <==> InRun(page, n, p);
      if exists a :: a in big && InRun(a, big[a], p) {
        var a :| a in big && InRun(a, big[a], p);
        assert a != page ==> a in big' && InRun(a, big'[a], p);
      }
      if exists a :: a in big' && InRun(a, big'[a], p) {
        var a :| a in big' && InRun(a, big'[a], p);
        assert a in big && InRun(a, big[a], p);
      }
    }
  }

  lemma {:induction false} InsideRun(recs: seq<Record>, all: seq<nat>, big: map<nat, nat>, page: nat, p: nat)
    requires Apart(recs, all, big) && page in big && InRun(page, big[page], p)
    ensures NewPages(recs, all, big - {page}, p, 1)
  {
    forall a | a in big - {page}
      ensures PagesApart(a, (big - {page})[a], p, 1)
    {
      assert PagesApart(a, big[a], page, big[page]);
    }
  }

  /** A heap page has been added (record `s`). */
  lemma {:induction false} AddPageAccounted(recs: seq<Record>, recs': seq<Record>, all: seq<nat>, big: map<nat, nat>, avail: set<nat>, total: set<nat>, s: nat, page: nat)
    requires Accounted(recs, all, big, avail, total) && page in avail && page % PAGE_SIZE == 0
    requires s < |recs| == |recs'| && recs'[s].page == page && s !in all
    requires forall r :: r in all ==> r < |recs| && recs'[r].page == recs[r].page
    ensures Accounted(recs', [s] + all, big, avail - {page}, total)
  {
    var all', avail' := [s] + all, avail - {page};
    forall p | p in avail'
      ensures NewPages(recs', all', big, p, 1)
    {
      assert NewPages(recs, all, big, p, 1);
      AlignedApart(p, page);
      forall r | r in all'
        ensures PagesApart(recs'[r].page, 1, p, 1)
      {
        assert r != s ==> PagesApart(recs[r].page, 1, p, 1);
      }
    }
    forall p: nat
      ensures p in total <==> p in avail' || Owns(recs', all', big, p)
    {
      assert p in total <==> p in avail || Owns(recs, all, big, p);
      assert s in all' && recs'[s].page == page;
      assert forall r :: r in all' && r != s ==> r in all && recs'[r].page == recs[r].page;
      assert forall r :: r in all ==> r in all' && recs'[r].page == recs[r].page;
    }
  }

  /** The same pages under changed records. */
  lemma {:induction false} SameAccounted(recs: seq<Record>, recs': seq<Record>, all: seq<nat>, big: map<nat, nat>, avail: set<nat>, total: set<nat>)
    requires Accounted(recs, all, big, avail, total) && Recorded(recs, recs')
    ensures Accounted(recs', all, big, avail, total)
  {
    forall p: nat
      ensures Owns(recs, all, big, p) <==> Owns(recs', all, big, p)
    {
      assert forall r :: 0 <= r < |recs| ==> recs'[r].page == recs[r].page;
    }
  }

  /** A heap page has been given back (record `s`). */
  lemma {:induction false} DropPageAccounted(recs: seq<Record>, mem: map<nat, nat>, all: seq<nat>, all': seq<nat>, free: seq<seq<nat>>, big: map<nat, nat>, avail: set<nat>, total: set<nat>, s: nat)
    requires Accounted(recs, all, big, avail, total) && Apart(recs, all, big) && Intact(recs, mem, all, free) && s in all && s < |recs|
    requires forall x :: x in all' <==> x in all && x != s
    ensures Accounted(recs, all', big, avail + {recs[s].page}, total)
  {
    hide FreeList;
    PageAligned(recs, mem, all, free, s);
    var page := recs[s].page;
    assert NewPages(recs, all', big, page, 1) by {
      OthersApart(recs, mem, all, free, big, s);
      forall a | a in big
        ensures PagesApart(a, big[a], page, 1)
      {
        PageAndBig(recs, all, big, s, a);
      }
    }
  }

  /** A whole-page allocation has the pages that its size needs. */
  ghost predicate Sized(big: map<nat, nat>, held: map<nat, nat>) {
    forall a :: a in big ==> a in held && held[a] < TWO32 && big[a] == WholePages(held[a])
  }

  lemma {:induction false} SizedWithout(big: map<nat, nat>, held: map<nat, nat>, ptr: nat)
    requires Sized(big, held)
    ensures Sized(big - {ptr}, held - {ptr})
  {
  }

  lemma {:induction false} WholeSize(big: map<nat, nat>, held: map<nat, nat>, ptr: nat)
    requires Sized(big, held)
    ensures ptr in big ==> ptr in held && held[ptr] < TWO32 && big[ptr] == WholePages(held[ptr])
  {
  }

  /** No two roots have the same page. */
  ghost predicate DistinctPages(roots: seq<Root>) {
    forall v, w :: 0 <= v < w < |roots| && roots[v].page != 0 ==> roots[v].page != roots[w].page
  }

  predicate Claimed(pending: map<nat, Pending>, p: nat) {
    exists s | s in pending :: pending[s].page == p
  }

  /** Pages outside the heap are available, in a thread's hands or full of records; a thread that waits for a page of records has its own heap page. */
  ghost predicate Outside(roots: seq<Root>, avail: set<nat>, carried: set<nat>, pending: map<nat, Pending>, reserved: set<nat>) {
    && avail !! carried && avail !! PoolPages(roots) && carried !! PoolPages(roots)
    && DistinctPages(roots)
    && pending.Keys == reserved
    && (forall s :: s in pending ==> pending[s].page in carried && pending[s].sz < LARGEST_SUBPAGE_SIZE)
    && forall s, r :: s in pending && r in pending && s != r ==> pending[s].page != pending[r].page
  }

  ghost function Loose(roots: seq<Root>, avail: set<nat>, carried: set<nat>): set<nat> {
    avail + carried + PoolPages(roots)
  }

  lemma {:induction false} OutsideTake(roots: seq<Root>, avail: set<nat>, carried: set<nat>, pending: map<nat, Pending>, reserved: set<nat>, p: nat)
    requires Outside(roots, avail, carried, pending, reserved) && p in avail
    ensures Outside(roots, avail - {p}, carried + {p}, pending, reserved)
    ensures Loose(roots, avail - {p}, carried + {p}) == Loose(roots, avail, carried)
  {
    hide PoolPages, DistinctPages;
  }

  lemma {:induction false} OutsideGive(roots: seq<Root>, avail: set<nat>, carried: set<nat>, pending: map<nat, Pending>, reserved: set<nat>, p: nat)
    requires Outside(roots, avail, carried, pending, reserved) && p in carried && !Claimed(pending, p)
    ensures Outside(roots, avail + {p}, carried - {p}, pending, reserved)
    ensures Loose(roots, avail + {p}, carried - {p}) == Loose(roots, avail, carried)
  {
    hide PoolPages, DistinctPages;
  }

  /** The pool's pages have not changed, and a thread waits now that did not. */
  lemma {:induction false} OutsideWait(roots: seq<Root>, roots': seq<Root>, avail: set<nat>, carried: set<nat>, pending: map<nat, Pending>, reserved: set<nat>, s: nat, x: Pending)
    requires Outside(roots, avail, carried, pending, reserved) && x.page in carried && !Claimed(pending, x.page) && s !in reserved && x.sz < LARGEST_SUBPAGE_SIZE
    requires SameRootPages(roots, roots')
    ensures Outside(roots', avail, carried, pending[s := x], reserved + {s}) && PoolPages(roots') == PoolPages(roots)
  {
    PoolPagesSame(roots, roots');
  }

  lemma {:induction false} OutsideSame(roots: seq<Root>, roots': seq<Root>, avail: set<nat>, carried: set<nat>, pending: map<nat, Pending>, reserved: set<nat>)
    requires Outside(roots, avail, carried, pending, reserved)
    requires SameRootPages(roots, roots')
    ensures Outside(roots', avail, carried, pending, reserved) && PoolPages(roots') == PoolPages(roots)
  {
    PoolPagesSame(roots, roots');
  }

  /** A page has gone from a thread's hands into the heap; the thread may have waited. */
  lemma {:induction false} OutsideUse(roots: seq<Root>, avail: set<nat>, carried: set<nat>, pending: map<nat, Pending>, reserved: set<nat>, s: nat, page: nat)
    requires Outside(roots, avail, carried, pending, reserved) && page in carried
    requires forall r :: r in pending && r != s ==> pending[r].page != page
    ensures Outside(roots, avail, carried - {page}, pending - {s}, reserved - {s})
    ensures Loose(roots, avail, carried - {page}) == Loose(roots, avail, carried) - {page}
  {
    hide PoolPages, DistinctPages;
  }

  lemma {:induction false} OutsideFail(roots: seq<Root>, avail: set<nat>, carried: set<nat>, pending: map<nat, Pending>, reserved: set<nat>, s: nat)
    requires Outside(roots, avail, carried, pending, reserved)
    ensures Outside(roots, avail, carried, pending - {s}, reserved - {s})
  {
    hide PoolPages, DistinctPages;
  }

  /** A page has gone from a thread's hands to a root. */
  lemma {:induction false} OutsideRoot(roots: seq<Root>, roots': seq<Root>, avail: set<nat>, carried: set<nat>, pending: map<nat, Pending>, reserved: set<nat>, s: nat, va: nat)
    requires Outside(roots, avail, carried, pending, reserved) && PageAdded(roots, roots', s, va) && va in carried && va != 0 && !Claimed(pending, va)
    ensures Outside(roots', avail, carried - {va}, pending, reserved) && PoolPages(roots') == PoolPages(roots) + {va}
    ensures Loose(roots', avail, carried - {va}) == Loose(roots, avail, carried)
  {
    PoolPagesAdded(roots, roots', s, va);
    StillDistinct(roots, roots', s, va);
    hide PoolPages, DistinctPages;
  }

  lemma {:induction false} PoolPagesAdded(roots: seq<Root>, roots': seq<Root>, s: nat, va: nat)
    requires PageAdded(roots, roots', s, va) && va != 0
    ensures PoolPages(roots') == PoolPages(roots) + {va}
  {
    var w := s / NPAGEREFS_PER_PAGE;
    assert roots'[w].page == va;
    MorePages(roots, roots', s, va);
  }

  lemma {:induction false} StillDistinct(roots: seq<Root>, roots': seq<Root>, s: nat, va: nat)
    requires PageAdded(roots, roots', s, va) && va != 0 && va !in PoolPages(roots) && DistinctPages(roots)
    ensures DistinctPages(roots')
  {
    forall v | 0 <= v < |roots| && roots[v].page != 0
      ensures roots[v].page != va
    {
      assert roots[v].page in PoolPages(roots);
    }
  }

  /** Pages that leave the heap were in nobody's hands. */
  lemma {:induction false} OutsideFreed(roots: seq<Root>, avail: set<nat>, carried: set<nat>, pending: map<nat, Pending>, reserved: set<nat>, p: nat)
    requires Outside(roots, avail, carried, pending, reserved) && p !in Loose(roots, avail, carried)
    ensures Outside(roots, avail, carried + {p}, pending, reserved)
    ensures Loose(roots, avail, carried + {p}) == Loose(roots, avail, carried) + {p}
  {
    hide PoolPages, DistinctPages;
  }

  lemma {:induction false} OutsideRun(roots: seq<Root>, avail: set<nat>, carried: set<nat>, pending: map<nat, Pending>, reserved: set<nat>, run: set<nat>)
    requires Outside(roots, avail, carried, pending, reserved)
    ensures run <= avail ==> Outside(roots, avail - run, carried, pending, reserved) && Loose(roots, avail - run, carried) == Loose(roots, avail, carried) - run
    ensures run !! Loose(roots, avail, carried) ==>
      Outside(roots, avail + run, carried, pending, reserved) && Loose(roots, avail + run, carried) == Loose(roots, avail, carried) + run
  {
    hide PoolPages, DistinctPages;
  }

  lemma {:induction false} HeapPageNotLoose(recs: seq<Record>, all: seq<nat>, big: map<nat, nat>, loose: set<nat>, total: set<nat>, s: nat)
    requires Accounted(recs, all, big, loose, total) && s in all && s < |recs|
    ensures recs[s].page !in loose
  {
    assert recs[s].page in loose ==> NewPages(recs, all, big, recs[s].page, 1);
    assert !PagesApart(recs[s].page, 1, recs[s].page, 1);
  }

  lemma {:induction false} RunNotLoose(recs: seq<Record>, all: seq<nat>, big: map<nat, nat>, loose: set<nat>, total: set<nat>, a: nat)
    requires Accounted(recs, all, big, loose, total) && Apart(recs, all, big) && a in big
    ensures RunOf(a, big[a]) !! loose
  {
    forall p | p in loose
      ensures p !in RunOf(a, big[a])
    {
      assert NewPages(recs, all, big, p, 1);
      NotInRun(a, big[a], p);
    }
  }

  class Machine {
    const heap: Heap
    /** Pages that `alloc_kpages` can give, and pages in the hands of threads that are in the middle of an operation. */
    var avail: set<nat>
    var carried: set<nat>
    /** The threads that have marked a record and wait for the page that it is on. */
    var pending: map<nat, Pending>
    /** What the heap's users hold, with the sizes they asked for. */
    var held: map<nat, nat>
    /** An assertion has failed. */
    var halted: bool
    ghost const total: set<nat>

    ghost predicate Valid()
      reads this, heap, heap.pool
    {
      && heap.Valid()
      && held == heap.live
      && Accounted(heap.recs, heap.all, heap.big, Loose(heap.pool.roots, avail, carried), total)
      && Outside(heap.pool.roots, avail, carried, pending, heap.reserved)
      && Sized(heap.big, held)
    }

    constructor (pages: set<nat>)
      requires forall p :: p in pages ==> p > 0 && p % PAGE_SIZE == 0
      ensures Valid() && !halted && avail == total == pages && carried == {} && held == map[] && pending == map[] && fresh(heap) && fresh(heap.pool)
    {
      heap := new Heap();
      avail, carried, pending, held, halted, total := pages, {}, map[], map[], false, pages;
      new;
      NoPoolPages(heap.pool.roots, pages);
    }

    method DoTake(p: nat)
      requires Valid()
      modifies this`avail, this`carried
      ensures Valid() && (p in old(avail) ==> avail == old(avail) - {p} && carried == old(carried) + {p})
    {
      hide Sound, Busy, Accounted, Outside, Records, Loose;
      if p in avail {
        OutsideTake(heap.pool.roots, avail, carried, pending, heap.reserved, p);
        avail, carried := avail - {p}, carried + {p};
      }
    }

    method DoGive(p: nat)
      requires Valid()
      modifies this`avail, this`carried
      ensures Valid() && (p in old(carried) && !Claimed(pending, p) ==> avail == old(avail) + {p} && carried == old(carried) - {p})
    {
      hide Sound, Busy, Accounted, Outside, Records, Loose;
      if p in carried && !Claimed(pending, p) {
        OutsideGive(heap.pool.roots, avail, carried, pending, heap.reserved, p);
        avail, carried := avail + {p}, carried - {p};
      }
    }

    method DoTry(sz: nat)
      requires Valid()
      modifies this`held, heap
      ensures Valid() && Preserved(old(held), held, old(heap.mem), heap.mem, -1)
      ensures sz >= LARGEST_SUBPAGE_SIZE ==> held == old(held) && heap.Sh() == old(heap.Sh())
      ensures sz < LARGEST_SUBPAGE_SIZE ==> forall t: nat :: BestFit(sz, t) ==>
        (if NoRoom(old(heap.recs), old(heap.same)[t]) then held == old(held) else exists ptr: nat :: ptr !in old(held) && held == old(held)[ptr := sz])
    {
      hide Sound, Busy, Size, Kept, Accounted, Outside, Records, Loose, BestFit, NoRoom;
      ghost var h := heap.Sh();
      KeptSame(h);
      if sz < LARGEST_SUBPAGE_SIZE {
        var t := BlockType(sz);
        FitsIn(sz, t);
        OneBestFit(sz, t);
        var ptr := heap.TryBlock(t, sz);
        if ptr != 0 {
          SameAccounted(h.recs, heap.recs, h.all, h.big, Loose(heap.pool.roots, avail, carried), total);
          held := held[ptr := sz];
        }
      }
    }

    method DoRefill(sz: nat, page: nat) returns (r: Refill)
      requires Valid()
      modifies this`held, this`carried, this`pending, heap, heap.pool
      ensures Valid() && Preserved(old(held), held, old(heap.mem), heap.mem, -1)
      ensures SameRootPages(old(heap.pool.roots), heap.pool.roots)
      ensures r.NeedPage? ==> heap.Sh() == old(heap.Sh()) && held == old(held) && carried == old(carried)
      ensures r.NeedPage? ==> pending == old(pending)[r.s := Pending(sz, page)] && r.s !in old(pending) && !HasPage(heap.pool.roots, r.s)
      ensures r.NeedPage? ==> IsFirstFree(old(heap.pool.roots), r.s) && forall x :: InUse(heap.pool.roots, x) <==> x == r.s || InUse(old(heap.pool.roots), x)
      ensures sz < LARGEST_SUBPAGE_SIZE && page in old(carried) && !Claimed(old(pending), page) ==>
        (r.NeedPage? <==> exists s :: IsFirstFree(old(heap.pool.roots), s) && 0 <= s < TOTAL_PAGEREFS && !HasPage(old(heap.pool.roots), s))
    {
      hide Sound, Busy, Size, Kept, Accounted, NewPages, Outside, Records, Loose, Used, IsFirstFree, HasPage, BestFit, InUse;
      ghost var h, roots, loose := heap.Sh(), heap.pool.roots, Loose(heap.pool.roots, avail, carried);
      ghost var reserved := heap.reserved;
      KeptSame(h);
      r := Full;
      if sz < LARGEST_SUBPAGE_SIZE && page in carried && !Claimed(pending, page) {
        CarriedIsLoose(roots, avail, carried, page);
        Available(h.recs, h.all, h.big, loose, total, page);
        var t := BlockType(sz);
        FitsIn(sz, t);
        r := heap.BeginRefill(t, sz, page);
        PendingAre(roots, avail, carried, pending, reserved);
        LooseSame(roots, heap.pool.roots, avail, carried);
        if r.NeedPage? {
          OutsideWait(roots, heap.pool.roots, avail, carried, pending, reserved, r.s, Pending(sz, page));
          pending := pending[r.s := Pending(sz, page)];
        } else {
          OutsideSame(roots, heap.pool.roots, avail, carried, pending, reserved);
          if r.Block? {
            UsedEffects(h, heap.Sh(), r.s, sz, page, r.ptr, loose, total);
            OutsideUseFresh(heap.pool.roots, avail, carried, pending, reserved, page);
            held, carried := held[r.ptr := sz], carried - {page};
          }
        }
      }
    }

    method DoObtain(s: nat, va: nat) returns (r: Refill)
      requires Valid()
      modifies this`held, this`carried, this`pending, heap, heap.pool
      ensures Valid() && Preserved(old(held), held, old(heap.mem), heap.mem, -1)
      ensures PoolPages(old(heap.pool.roots)) <= PoolPages(heap.pool.roots)
      ensures s in old(pending) && va in old(carried) && va != 0 && !Claimed(old(pending), va) && !HasPage(old(heap.pool.roots), s) ==>
        var x := old(pending)[s];
        && r.Block? && held == old(held)[r.ptr := x.sz] && r.ptr !in old(held) && r.ptr in heap.home && heap.home[r.ptr] == s
        && s < |heap.recs| && heap.recs[s].page == x.page && heap.lost == old(heap.lost)
        && pending == old(pending) - {s} && carried == old(carried) - {x.page, va} && PoolPages(heap.pool.roots) == PoolPages(old(heap.pool.roots)) + {va}
        && PageAdded(old(heap.pool.roots), heap.pool.roots, s, va)
      ensures s in old(pending) && va == 0 && !HasPage(old(heap.pool.roots), s) ==>
        r.Failed? && heap.Sh() == old(heap.Sh()) && held == old(held) && carried == old(carried) && pending == old(pending) - {s} && heap.pool.roots == old(heap.pool.roots)
    {
      hide Sound, Busy, Size, Kept, Accounted, NewPages, Outside, Records, Loose, Used, HasPage, BestFit, PoolPages, PageAdded;
      ghost var h, roots, loose := heap.Sh(), heap.pool.roots, Loose(heap.pool.roots, avail, carried);
      ghost var reserved := heap.reserved;
      KeptSame(h);
      r := Full;
      if s in pending && (va == 0 || (va in carried && !Claimed(pending, va))) {
        var x := pending[s];
        PendingAre(roots, avail, carried, pending, reserved);
        CarriedIsLoose(roots, avail, carried, x.page);
        Available(h.recs, h.all, h.big, loose, total, x.page);
        var t := BlockType(x.sz);
        FitsIn(x.sz, t);
        r := heap.ObtainPage(s, t, x.sz, x.page, va);
        MorePages(roots, heap.pool.roots, s, va);
        if r.Failed? {
          OutsideFail(roots, avail, carried, pending, reserved, s);
          pending := pending - {s};
        } else if r.Block? {
          UsedEffects(h, heap.Sh(), s, x.sz, x.page, r.ptr, loose, total);
          UsedPlace(h, heap.Sh(), s, x.sz, x.page, r.ptr);
          if va != 0 {
            ClaimedOther(pending, s, va);
            OutsideRoot(roots, heap.pool.roots, avail, carried, pending, reserved, s, va);
            OutsideUse(heap.pool.roots, avail, carried - {va}, pending, reserved, s, x.page);
            assert carried - {va} - {x.page} == carried - {x.page, va};
            carried := carried - {x.page, va};
          } else {
            OutsideUse(roots, avail, carried, pending, reserved, s, x.page);
            carried := carried - {x.page};
          }
          held, pending := held[r.ptr := x.sz], pending - {s};
        }
      }
    }

    method DoWhole(sz: nat, page: nat)
      requires Valid()
      modifies this`held, this`avail, heap
      ensures Valid() && Preserved(old(held), held, old(heap.mem), heap.mem, -1)
      ensures LARGEST_SUBPAGE_SIZE <= sz < TWO32 && page > 0 && page % PAGE_SIZE == 0 && WholePages(sz) > 0 && RunOf(page, WholePages(sz)) <= old(avail) ==>
        page !in old(held) && held == old(held)[page := sz] && avail == old(avail) - RunOf(page, WholePages(sz))
    {
      hide Sound, Busy, Kept, Accounted, NewPages, WholePages, Outside, Loose, Records;
      ghost var h, loose := heap.Sh(), Loose(heap.pool.roots, avail, carried);
      KeptSame(h);
      if LARGEST_SUBPAGE_SIZE <= sz < TWO32 && page > 0 && page % PAGE_SIZE == 0 && WholePages(sz) > 0 {
        var run := RunOf(page, WholePages(sz));
        if run <= avail {
          AvailIsLoose(heap.pool.roots, avail, carried, run);
          NewRun(h, loose, total, page, WholePages(sz));
          var ptr := heap.WholeKmalloc(sz, page);
          LiveKinds(h);
          AddRunAccounted(h.recs, h.all, h.big, loose, total, page, WholePages(sz));
          OutsideRun(heap.pool.roots, avail, carried, pending, heap.reserved, run);
          held, avail := held[ptr := sz], avail - run;
        }
      }
    }

    /** `freed` is the heap page that the freeing thread has in its hands afterwards, or 0. */
    method DoFree(ptr: nat) returns (freed: nat)
      requires Valid() && !halted
      modifies this, heap, heap.pool
      ensures halted <==> Panics(old(heap.Sh()), old(heap.pool.roots), ptr)
      ensures !halted ==> Valid() && Preserved(old(held), held, old(heap.mem), heap.mem, ptr) && held == old(held) - {ptr}
      ensures !halted ==> SameRootPages(old(heap.pool.roots), heap.pool.roots) && pending == old(pending)
      ensures !halted && IsLastBlock(old(heap.Sh()), ptr) ==>
        old(heap.home)[ptr] < |old(heap.recs)| && freed == old(heap.recs)[old(heap.home)[ptr]].page && carried == old(carried) + {freed} && avail == old(avail)
    {
      hide Sound, Busy, Kept, Accounted, NewPages, WholePages, Recorded, Sized, Outside, Loose, Records, IsLastBlock, Blocked;
      ghost var h, roots, loose := heap.Sh(), heap.pool.roots, Loose(heap.pool.roots, avail, carried);
      ghost var reserved := heap.reserved;
      KeptSame(h);
      freed := 0;
      LiveKinds(h);
      LastBlockHome(h, ptr);
      if ptr in held {
        SizedWithout(h.big, held, ptr);
        WholeSize(h.big, held, ptr);
        var found, page, panicked := heap.Kfree(ptr);
        if panicked {
          halted := true;
          return;
        }
        if found {
          FreedState(h, heap.recs, heap.all, roots, heap.pool.roots, avail, carried, pending, reserved, total, ptr, page);
          carried := carried + if page != 0 then {page} else {};
          freed := page;
        } else {
          RunFreedState(h, roots, heap.pool.roots, avail, carried, pending, reserved, total, ptr);
          avail := avail + RunOf(ptr, WholePages(held[ptr]));
        }
        held := held - {ptr};
      }
    }

    method DoWrite(a: nat, offset: nat, v: nat)
      requires Valid()
      modifies heap
      ensures Valid() && Preserved(held, held, old(heap.mem), heap.mem, a)
    {
      hide Sound, Kept, Accounted, Outside, Loose, Records;
      KeptSame(heap.Sh());
      if a in held && offset < held[a] {
        heap.Store(a, offset, v);
      }
    }

    method Execute(op: Op)
      requires halted || Valid()
      modifies this, heap, heap.pool
      ensures halted <==> old(halted) || (op.Free? && Panics(old(heap.Sh()), old(heap.pool.roots), op.ptr))
      ensures !halted ==> Valid() && Preserved(old(held), held, old(heap.mem), heap.mem, Subject(op))
      ensures !halted ==> PoolPages(old(heap.pool.roots)) <= PoolPages(heap.pool.roots)
    {
      hide Sound, Busy, Kept, Accounted, Outside, Loose, Records, PoolPages, Panics, Sized;
      if halted {
        return;
      }
      KeptSame(heap.Sh());
      ghost var roots := heap.pool.roots;
      match op
      case Take(p) => DoTake(p);
      case Give(p) => DoGive(p);
      case Try(sz) => DoTry(sz);
      case Refill(sz, page) =>
        var _ := DoRefill(sz, page);
        PoolPagesSame(roots, heap.pool.roots);
      case Obtain(s, va) =>
        var _ := DoObtain(s, va);
      case Whole(sz, page) => DoWhole(sz, page);
      case Free(ptr) =>
        var _ := DoFree(ptr);
        if !halted {
          PoolPagesSame(roots, heap.pool.roots);
        }
      case Write(a, offset, v) => DoWrite(a, offset, v);
    }

    /**
     * Whatever critical sections run in whatever order, until an assertion fails the heap stays consistent, no page is
     * lost, pages of records are kept, and an allocation that none of them frees or writes to is still held with its size
     * and contents.
     */
    method Run(ops: seq<Op>)
      requires Valid() && !halted
      modifies this, heap, heap.pool
      ensures !halted ==> Valid() && PoolPages(old(heap.pool.roots)) <= PoolPages(heap.pool.roots)
      ensures !halted ==> forall a :: a in old(held) && Untouched(ops, a) ==> a in held && held[a] == old(held)[a] && Kept(old(heap.mem), heap.mem, a, held[a])
    {
      hide Sound, Busy, Kept, Accounted, Sized, Untouched, Outside, Loose, Records, PoolPages, Panics;
      var i := 0;
      KeptSame(heap.Sh());
      while i < |ops| && !halted
        invariant 0 <= i <= |ops|
        invariant !halted ==> Valid() && PoolPages(old(heap.pool.roots)) <= PoolPages(heap.pool.roots)
        invariant !halted ==> forall a :: a in old(held) && Untouched(ops[..i], a) ==> a in held && held[a] == old(held)[a] && Kept(old(heap.mem), heap.mem, a, held[a])
      {
        ghost var held0, mem0 := held, heap.mem;
        Execute(ops[i]);
        if !halted {
          forall a | a in old(held) && Untouched(ops[..i + 1], a)
            ensures a in held && held[a] == old(held)[a] && Kept(old(heap.mem), heap.mem, a, held[a])
          {
            UntouchedPrefix(ops, i, a);
            KeptTwice(old(heap.mem), mem0, heap.mem, a, held0[a]);
          }
        }
        i := i + 1;
      }
      assert ops[..|ops|] == ops;
    }

    /** One `kmalloc` and its `kfree` on a fresh heap: nothing is live, and one page is gone for good. */
    method FirstUse(sz: nat, p: nat, q: nat)
      requires Valid() && !halted && held == map[] && carried == {} && pending == map[] && heap.lost == {}
      requires (forall w :: 0 <= w < |heap.pool.roots| ==> heap.pool.roots[w].page == 0)
      requires sz < LARGEST_SUBPAGE_SIZE && p in avail && q in avail && p != q
      modifies this, heap, heap.pool
      ensures !halted && Valid() && held == map[] && carried == {} && avail == old(avail) - {q} && PoolPages(heap.pool.roots) == {q}
    {
      hide Sound, Busy, Kept, Accounted, Sized, Outside, Loose, Records, PoolPages, NewPages, Preserved, IsLastBlock;
      ghost var roots := heap.pool.roots;
      NothingPooled(roots);
      FreshRecords(heap.Sh(), roots, heap.reserved, heap.lost, avail, carried, pending);
      DoTake(p);
      DoTake(q);
      AvailPositive(heap.Sh(), heap.pool.roots, avail, carried, total, q);
      var r := DoRefill(sz, p);
      var s := r.s;
      OneFirstFree(roots, 0);
      PoolPagesSame(roots, heap.pool.roots);
      r := DoObtain(s, q);
      ghost var h := heap.Sh();
      LastOfAll(h, r.ptr);
      NotBlocked(heap.pool.roots, s);
      ghost var roots1 := heap.pool.roots;
      var freed := DoFree(r.ptr);
      PoolPagesSame(roots1, heap.pool.roots);
      DoGive(freed);
    }

    /**
     * How the assertion in `freepageref` comes to fail: 256 times in a row there is no page for the first root's records,
     * then there is one for the second root's, and the one block that was allocated is freed.
     */
    method Shortage(sz: nat, p: nat, q: nat)
      requires Valid() && !halted && held == map[] && carried == {} && pending == map[] && heap.lost == {}
      requires (forall w :: 0 <= w < |heap.pool.roots| ==> heap.pool.roots[w].page == 0)
      requires sz < LARGEST_SUBPAGE_SIZE && p in avail && q in avail && p != q
      modifies this, heap, heap.pool
      ensures halted
    {
      hide Sound, Busy, Kept, Accounted, Sized, Outside, Loose, Records, PoolPages, NewPages, Preserved, IsLastBlock, InUse, HasPage, IsFirstFree, PageAdded, Blocked;
      NoneInUse(heap.Sh(), heap.pool.roots, heap.reserved, heap.lost, avail, carried, pending);
      DoTake(p);
      var i := 0;
      while i < NPAGEREFS_PER_PAGE
        invariant 0 <= i <= NPAGEREFS_PER_PAGE && Valid() && !halted && held == map[] && carried == {p} && pending == map[] && q in avail
        invariant forall w :: 0 <= w < |heap.pool.roots| ==> heap.pool.roots[w].page == 0
        invariant forall x: int :: InUse(heap.pool.roots, x) <==> 0 <= x < i
      {
        NextFree(heap.pool.roots, i);
        var r := DoRefill(sz, p);
        r := DoObtain(i, 0);
        i := i + 1;
      }
      DoTake(q);
      AvailPositive(heap.Sh(), heap.pool.roots, avail, carried, total, q);
      NextFree(heap.pool.roots, i);
      var r := DoRefill(sz, p);
      ghost var roots := heap.pool.roots;
      RecordsRoots(roots, heap.all, heap.reserved, heap.lost);
      r := DoObtain(i, q);
      LastOfAll(heap.Sh(), r.ptr);
      NowBlocked(roots, heap.pool.roots, q);
      var _ := DoFree(r.ptr);
    }
  }

  /** After 256 marked records without a page, one more record is taken from the second root. */
  lemma {:induction false} NowBlocked(roots: seq<Root>, roots': seq<Root>, va: nat)
    requires RootsOk(roots) && PageAdded(roots, roots', NPAGEREFS_PER_PAGE, va) && InUse(roots, 0) && roots[0].page == 0
    ensures Blocked(roots', NPAGEREFS_PER_PAGE)
  {
    BitSetCounts(roots[0].bits, 0);
    assert roots'[0] == roots[0];
  }

  lemma {:induction false} NextFree(roots: seq<Root>, i: nat)
    requires i < TOTAL_PAGEREFS && (forall x: int :: InUse(roots, x) <==> 0 <= x < i) && forall w :: 0 <= w < |roots| ==> roots[w].page == 0
    ensures IsFirstFree(roots, i) && !HasPage(roots, i) && forall r: nat :: IsFirstFree(roots, r) ==> r == i
  {
    OneFirstFree(roots, i);
  }

  /** With nothing live, reserved or lost no record is in use. */
  lemma {:induction false} NoneInUse(h: Shape, roots: seq<Root>, reserved: set<nat>, lost: set<nat>, avail: set<nat>, carried: set<nat>, pending: map<nat, Pending>)
    requires Sound(h) && Busy(h, NULL) && h.live == map[] && Records(roots, h.all, reserved, lost) && lost == {}
    requires Outside(roots, avail, carried, pending, reserved) && pending == map[]
    ensures forall x: int :: !InUse(roots, x)
  {
    hide Sound, Busy;
    NoHeapPages(h);
    forall x: int
      ensures !InUse(roots, x)
    {
      if x >= 0 {
        assert InUse(roots, x as nat) <==> x in h.all || x in reserved || x in lost;
      }
    }
  }

  /** The free of `ptr` runs into the assertion in `freepageref`. */
  ghost predicate Panics(h: Shape, roots: seq<Root>, ptr: nat) {
    IsLastBlock(h, ptr) && Blocked(roots, h.home[ptr])
  }

  lemma {:induction false} NoPoolPages(roots: seq<Root>, avail: set<nat>)
    requires forall w :: 0 <= w < |roots| ==> roots[w].page == 0
    ensures PoolPages(roots) == {} && Loose(roots, avail, {}) == avail && DistinctPages(roots)
  {
  }

  lemma {:induction false} FitsIn(sz: nat, t: nat)
    requires BestFit(sz, t)
    ensures t < NSIZES && sz <= Size(t)
  {
  }

  lemma {:induction false} CarriedIsLoose(roots: seq<Root>, avail: set<nat>, carried: set<nat>, p: nat)
    requires p in carried
    ensures p in Loose(roots, avail, carried)
  {
  }

  lemma {:induction false} AvailIsLoose(roots: seq<Root>, avail: set<nat>, carried: set<nat>, run: set<nat>)
    requires run <= avail
    ensures run <= Loose(roots, avail, carried)
  {
  }

  lemma {:induction false} LooseSame(roots: seq<Root>, roots': seq<Root>, avail: set<nat>, carried: set<nat>)
    requires SameRootPages(roots, roots')
    ensures Loose(roots', avail, carried) == Loose(roots, avail, carried)
  {
    PoolPagesSame(roots, roots');
  }

  lemma {:induction false} PendingAre(roots: seq<Root>, avail: set<nat>, carried: set<nat>, pending: map<nat, Pending>, reserved: set<nat>)
    requires Outside(roots, avail, carried, pending, reserved)
    ensures pending.Keys == reserved
    ensures forall s :: s in pending ==> pending[s].page in carried && pending[s].sz < LARGEST_SUBPAGE_SIZE
    ensures forall s, r :: s in pending && r in pending && s != r ==> pending[s].page != pending[r].page
  {
  }

  lemma {:induction false} ClaimedOther(pending: map<nat, Pending>, s: nat, va: nat)
    requires s in pending && !Claimed(pending, va)
    ensures pending[s].page != va
  {
  }

  lemma {:induction false} OutsideUseFresh(roots: seq<Root>, avail: set<nat>, carried: set<nat>, pending: map<nat, Pending>, reserved: set<nat>, page: nat)
    requires Outside(roots, avail, carried, pending, reserved) && page in carried && !Claimed(pending, page)
    ensures Outside(roots, avail, carried - {page}, pending, reserved)
    ensures Loose(roots, avail, carried - {page}) == Loose(roots, avail, carried) - {page}
  {
    hide PoolPages, DistinctPages;
  }

  /** What putting a page to use does to the accounts and to allocations. */
  lemma {:induction false} UsedEffects(h: Shape, h': Shape, s: nat, sz: nat, page: nat, ptr: nat, loose: set<nat>, total: set<nat>)
    requires Sound(h) && Accounted(h.recs, h.all, h.big, loose, total) && page in loose && Used(h, h', s, sz, page, ptr)
    ensures Accounted(h'.recs, h'.all, h'.big, loose - {page}, total)
    ensures ptr !in h.live && h'.live == h.live[ptr := sz] && h'.big == h.big
    ensures forall a :: a in h.live ==> Kept(h.mem, h'.mem, a, h.live[a])
  {
    hide Sound, Accounted, NewPages, Kept;
    Available(h.recs, h.all, h.big, loose, total, page);
    InRange(h);
    AddPageAccounted(h.recs, h'.recs, h.all, h.big, loose, total, s, page);
    KeptByNewPage(h, h'.mem, page);
  }

  lemma {:induction false} UsedPlace(h: Shape, h': Shape, s: nat, sz: nat, page: nat, ptr: nat)
    requires Used(h, h', s, sz, page, ptr)
    ensures ptr in h'.home && h'.home[ptr] == s && s < |h'.recs| && h'.recs[s].page == page
  {
  }

  lemma {:induction false} LastBlockHome(h: Shape, ptr: nat)
    requires Sound(h)
    ensures IsLastBlock(h, ptr) ==> ptr in h.home && ptr in h.live && h.home[ptr] < |h.recs|
  {
    hide Sound;
    LiveKinds(h);
    if ptr in h.home {
      HomeListed(h, ptr);
      InRange(h);
    }
  }

  /** The pages after a sub-page block has been freed: the page that its last block was on is in the thread's hands. */
  lemma {:induction false} FreedState(h: Shape, recs': seq<Record>, all': seq<nat>, roots: seq<Root>, roots': seq<Root>, avail: set<nat>, carried: set<nat>,
                                      pending: map<nat, Pending>, reserved: set<nat>, total: set<nat>, ptr: nat, page: nat)
    requires Sound(h) && Accounted(h.recs, h.all, h.big, Loose(roots, avail, carried), total) && ptr in h.home && h.home[ptr] < |h.recs|
    requires Outside(roots, avail, carried, pending, reserved) && SameRootPages(roots, roots') && Recorded(h.recs, recs')
    requires page == 0 ==> all' == h.all
    requires page != 0 ==> page == recs'[h.home[ptr]].page && forall x :: x in all' <==> x in h.all && x != h.home[ptr]
    ensures var carried' := carried + if page != 0 then {page} else {};
      Accounted(recs', all', h.big - {ptr}, Loose(roots', avail, carried'), total) && Outside(roots', avail, carried', pending, reserved)
    ensures page != 0 ==> page == h.recs[h.home[ptr]].page
  {
    hide Sound, Accounted, Outside, Loose;
    var loose := Loose(roots, avail, carried);
    LooseSame(roots, roots', avail, carried);
    OutsideSame(roots, roots', avail, carried, pending, reserved);
    FreedAccounted(h, recs', all', loose, total, ptr, page);
    if page != 0 {
      HomeListed(h, ptr);
      SamePageOf(h.recs, recs', h.home[ptr]);
      HeapPageNotLoose(h.recs, h.all, h.big, loose, total, h.home[ptr]);
      OutsideFreed(roots', avail, carried, pending, reserved, page);
    } else {
      assert loose + {} == loose && carried + {} == carried;
    }
  }

  lemma {:induction false} RunFreedState(h: Shape, roots: seq<Root>, roots': seq<Root>, avail: set<nat>, carried: set<nat>,
                                         pending: map<nat, Pending>, reserved: set<nat>, total: set<nat>, ptr: nat)
    requires Sound(h) && Accounted(h.recs, h.all, h.big, Loose(roots, avail, carried), total) && ptr in h.big
    requires Outside(roots, avail, carried, pending, reserved) && SameRootPages(roots, roots')
    ensures var avail' := avail + RunOf(ptr, h.big[ptr]);
      Accounted(h.recs, h.all, h.big - {ptr}, Loose(roots', avail', carried), total) && Outside(roots', avail', carried, pending, reserved)
  {
    hide Sound, Accounted, Outside, Loose;
    var loose := Loose(roots, avail, carried);
    Parts(h);
    LooseSame(roots, roots', avail, carried);
    OutsideSame(roots, roots', avail, carried, pending, reserved);
    DropRunAccounted(h.recs, h.mem, h.all, h.free, h.big, loose, total, ptr);
    RunNotLoose(h.recs, h.all, h.big, loose, total, ptr);
    OutsideRun(roots', avail, carried, pending, reserved, RunOf(ptr, h.big[ptr]));
  }

  lemma {:induction false} SamePageOf(recs: seq<Record>, recs': seq<Record>, s: nat)
    requires Recorded(recs, recs') && s < |recs|
    ensures recs'[s].page == recs[s].page
  {
  }

  lemma {:induction false} NothingPooled(roots: seq<Root>)
    requires forall w :: 0 <= w < |roots| ==> roots[w].page == 0
    ensures PoolPages(roots) == {}
  {
  }

  /** With nothing live, reserved or lost, no record is in use, and the first one's page does not exist. */
  lemma {:induction false} FreshRecords(h: Shape, roots: seq<Root>, reserved: set<nat>, lost: set<nat>, avail: set<nat>, carried: set<nat>, pending: map<nat, Pending>)
    requires Sound(h) && Busy(h, NULL) && h.live == map[] && Records(roots, h.all, reserved, lost) && lost == {}
    requires Outside(roots, avail, carried, pending, reserved) && pending == map[] && forall w :: 0 <= w < |roots| ==> roots[w].page == 0
    ensures IsFirstFree(roots, 0) && !HasPage(roots, 0)
  {
    hide Sound, Busy;
    NoHeapPages(h);
    assert !InUse(roots, 0 as nat);
  }

  /** A heap without live allocations has no pages. */
  lemma {:induction false} NoHeapPages(h: Shape)
    requires Sound(h) && Busy(h, NULL) && h.live == map[]
    ensures h.all == [] && h.big == map[]
  {
    hide Sound, Busy;
    LiveKinds(h);
    if |h.all| > 0 {
      assert h.all[0] in h.all;
      var a := PageIsUsed(h, NULL, h.all[0]);
      assert false;
    }
    assert forall a :: a !in h.big;
  }

  lemma {:induction false} AvailPositive(h: Shape, roots: seq<Root>, avail: set<nat>, carried: set<nat>, total: set<nat>, q: nat)
    requires Accounted(h.recs, h.all, h.big, Loose(roots, avail, carried), total) && q in carried
    ensures q != 0
  {
    hide PoolPages;
    assert q in Loose(roots, avail, carried);
    assert NewPages(h.recs, h.all, h.big, q, 1);
  }

  lemma {:induction false} LastOfAll(h: Shape, ptr: nat)
    requires Sound(h) && ptr in h.home && h.live.Keys == {ptr}
    ensures IsLastBlock(h, ptr)
  {
    hide Sound;
    LiveKinds(h);
  }

  lemma {:induction false} NotBlocked(roots: seq<Root>, s: nat)
    requires s == 0
    ensures !Blocked(roots, s)
  {
  }

  // ----- what does not come back

  /** The number of roots that have a page. */
  ghost function Paged(roots: seq<Root>): nat
    decreases |roots|
  {
    if roots == [] then 0 else Paged(roots[..|roots| - 1]) + if roots[|roots| - 1].page != 0 then 1 else 0
  }

  lemma {:induction false} PagedIs(roots: seq<Root>)
    requires DistinctPages(roots)
    ensures |PoolPages(roots)| == Paged(roots) <= |roots|
    decreases |roots|
  {
    if roots != [] {
      var last := |roots| - 1;
      var rest := roots[..last];
      PagedIs(rest);
      PoolPagesSnoc(rest, roots[last]);
      assert roots == rest + [roots[last]];
      assert roots[last].page != 0 ==> roots[last].page !in PoolPages(rest);
    } else {
      assert PoolPages(roots) == {};
    }
  }

  lemma {:induction false} PoolPagesSnoc(rest: seq<Root>, root: Root)
    ensures PoolPages(rest + [root]) == PoolPages(rest) + if root.page != 0 then {root.page} else {}
  {
    var roots := rest + [root];
    assert roots[|rest|] == root;
    forall p
      ensures p in PoolPages(roots) <==> p in PoolPages(rest) || (p == root.page && p != 0)
    {
      if w :| 0 <= w < |roots| && roots[w].page != 0 && roots[w].page == p {
        assert w < |rest| ==> rest[w].page == p;
      }
      if w :| 0 <= w < |rest| && rest[w].page != 0 && rest[w].page == p {
        assert roots[w].page == p;
      }
    }
  }

  /**
   * Once every allocation has been freed and no thread is in the middle of an operation, every page is available again
   * except those that hold records, which are never given back: as many as there are roots with a page, 16 at most.
   * All pages are available if and only if no root has one.
   */
  lemma {:induction false} AllReturned(h: Shape, roots: seq<Root>, avail: set<nat>, pending: map<nat, Pending>, reserved: set<nat>, total: set<nat>)
    requires Sound(h) && Busy(h, NULL) && h.live == map[] && RootsOk(roots)
    requires Accounted(h.recs, h.all, h.big, Loose(roots, avail, {}), total) && Outside(roots, avail, {}, pending, reserved)
    ensures total == avail + PoolPages(roots) && avail !! PoolPages(roots)
    ensures |PoolPages(roots)| == Paged(roots) <= NUM_PAGEREFPAGES
    ensures avail == total <==> forall w :: 0 <= w < |roots| ==> roots[w].page == 0
  {
    NoHeapPages(h);
    PagedIs(roots);
    assert forall p: nat :: !Owns(h.recs, h.all, h.big, p);
    hide Sound, Busy, PoolPages;
    assert total == Loose(roots, avail, {});
    NoneIfEmpty(roots);
  }

  lemma {:induction false} NoneIfEmpty(roots: seq<Root>)
    ensures PoolPages(roots) == {} <==> forall w :: 0 <= w < |roots| ==> roots[w].page == 0
  {
    forall w | 0 <= w < |roots| && roots[w].page != 0
      ensures roots[w].page in PoolPages(roots)
    {
    }
  }

  /** The allocation that an operation frees or writes to, or -1. */
  function Subject(op: Op): int {
    match op
    case Free(ptr) => ptr
    case Write(a, _, _) => a
    case _ => -1
  }

  ghost predicate Untouched(ops: seq<Op>, a: nat) {
    forall i :: 0 <= i < |ops| ==> Subject(ops[i]) != a
  }

  lemma {:induction false} UntouchedPrefix(ops: seq<Op>, i: nat, a: nat)
    requires i < |ops| && Untouched(ops[..i + 1], a)
    ensures Untouched(ops[..i], a) && Subject(ops[i]) != a
  {
    assert ops[..i + 1][i] == ops[i];
    forall j | 0 <= j < i
      ensures Subject(ops[..i][j]) != a
    {
      assert ops[..i + 1][j] == ops[..i][j];
    }
  }

  lemma {:induction false} KeptTwice(m1: map<nat, nat>, m2: map<nat, nat>, m3: map<nat, nat>, a: nat, size: nat)
    requires Kept(m1, m2, a, size) && Kept(m2, m3, a, size)
    ensures Kept(m1, m3, a, size)
  {
  }

  /** Every allocation but `x` is still held, with its size and contents. */
  ghost predicate Preserved(held: map<nat, nat>, held': map<nat, nat>, mem: map<nat, nat>, mem': map<nat, nat>, x: int) {
    forall a :: a in held && a != x ==> a in held' && held'[a] == held[a] && Kept(mem, mem', a, held[a])
  }

  lemma {:induction false} Available(recs: seq<Record>, all: seq<nat>, big: map<nat, nat>, avail: set<nat>, total: set<nat>, p: nat)
    requires Accounted(recs, all, big, avail, total) && p in avail
    ensures NewPages(recs, all, big, p, 1) && p % PAGE_SIZE == 0
  {
  }

  lemma {:induction false} InRange(h: Shape)
    requires Sound(h)
    ensures forall r :: r in h.all ==> r < |h.recs|
  {
  }

  lemma {:induction false} Parts(h: Shape)
    requires Sound(h)
    ensures Intact(h.recs, h.mem, h.all, h.free) && Apart(h.recs, h.all, h.big)
  {
  }

  /** The pages after a sub-page block has been freed. */
  lemma {:induction false} FreedAccounted(h: Shape, recs': seq<Record>, all': seq<nat>, avail: set<nat>, total: set<nat>, ptr: nat, freed: nat)
    requires Sound(h) && Accounted(h.recs, h.all, h.big, avail, total) && ptr in h.home && h.home[ptr] < |h.recs|
    requires Recorded(h.recs, recs')
    requires freed == 0 ==> all' == h.all
    requires freed != 0 ==> freed == recs'[h.home[ptr]].page && forall x :: x in all' <==> x in h.all && x != h.home[ptr]
    ensures Accounted(recs', all', h.big - {ptr}, avail + if freed != 0 then {freed} else {}, total)
  {
    hide Sound, Accounted;
    LiveKinds(h);
    assert h.big - {ptr} == h.big;
    if freed != 0 {
      HomeListed(h, ptr);
      Parts(h);
      DropPageAccounted(h.recs, h.mem, h.all, all', h.free, h.big, avail, total, h.home[ptr]);
    } else {
      assert avail + {} == avail;
    }
    SameAccounted(h.recs, recs', all', h.big, avail + if freed != 0 then {freed} else {}, total);
  }

  lemma {:induction false} NewRun(h: Shape, avail: set<nat>, total: set<nat>, page: nat, n: nat)
    requires Sound(h) && Accounted(h.recs, h.all, h.big, avail, total) && page > 0 && page % PAGE_SIZE == 0 && n > 0
    requires RunOf(page, n) <= avail
    ensures NewPages(h.recs, h.all, h.big, page, n)
  {
    hide Intact, Apart, Lists, Tiled, NewPages;
    forall p: nat | InRun(page, n, p)
      ensures NewPages(h.recs, h.all, h.big, p, 1)
    {
      assert p in RunOf(page, n);
    }
    JoinPages(h.recs, h.mem, h.all, h.free, h.big, page, n);
  }
}
