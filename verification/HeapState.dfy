/** What a consistent kernel heap is, and how taking, giving back, adding and dropping keep it consistent. */
module HeapState {
  import opened Nonlinear
  import opened HeapBlocks
  import opened Sequences
  import opened Words

  /** The fields of a page record other than its two links. */
  datatype Record = Record(page: nat, blktype: nat, offset: nat, nfree: nat)

  /** Every record is on the list of all pages, and on the list of its own block type and no other. */
  ghost predicate Lists(recs: seq<Record>, nextAll: seq<int>, allbase: int, all: seq<nat>,
                        nextSame: seq<int>, sizebases: seq<int>, same: seq<seq<nat>>) {
    && |nextAll| == |nextSame| == |recs| && |sizebases| == |same| == NSIZES
    && Threaded(nextAll, allbase, all)
    && (forall t :: 0 <= t < NSIZES ==> Threaded(nextSame, sizebases[t], same[t]))
    && forall t :: 0 <= t < NSIZES ==> OfType(recs, all, same[t], t)
  }

  ghost predicate OfType(recs: seq<Record>, all: seq<nat>, list: seq<nat>, t: nat) {
    forall s: nat :: s in list <==> s in all && s < |recs| && recs[s].blktype == t
  }

  /** Every heap page's free list is intact. */
  ghost predicate Intact(recs: seq<Record>, mem: map<nat, nat>, all: seq<nat>, free: seq<seq<nat>>) {
    |free| == |recs| && forall s :: s in all ==>
      s < |recs| && FreeList(mem, recs[s].page, recs[s].blktype, recs[s].offset, recs[s].nfree, free[s])
  }

  /** Heap pages and whole-page allocations (address to number of pages) do not overlap. */
  ghost predicate Apart(recs: seq<Record>, all: seq<nat>, big: map<nat, nat>) {
    && (forall s, r :: s in all && r in all && s != r && s < |recs| && r < |recs| ==> recs[s].page != recs[r].page)
    && (forall a :: a in big ==> a % PAGE_SIZE == 0 && a > 0 && big[a] > 0)
    && (forall s, a :: s in all && s < |recs| && a in big ==> PagesApart(recs[s].page, 1, a, big[a]))
    && forall a, b :: a in big && b in big && a != b ==> PagesApart(a, big[a], b, big[b])
  }

  ghost predicate PagesApart(a: nat, m: nat, b: nat, n: nat) {
    a + m * PAGE_SIZE <= b || b + n * PAGE_SIZE <= a
  }

  /**
   * The live blocks: `live` maps an address to the size that was asked for, and `home` the sub-page blocks to
   * their page records.  On every heap page a block is live exactly when it is not on the free list.
   */
  ghost predicate Tiled(recs: seq<Record>, all: seq<nat>, free: seq<seq<nat>>, live: map<nat, nat>, home: map<nat, nat>, big: map<nat, nat>) {
    && |free| == |recs|
    && live.Keys == home.Keys + big.Keys && home.Keys !! big.Keys
    && (forall a :: a in home ==> home[a] in all && home[a] < |recs| && InBlock(recs[home[a]], a, live[a]))
    && (forall a :: a in big ==> live[a] <= big[a] * PAGE_SIZE)
    && forall s :: s in all && s < |recs| ==> Complement(recs[s].page, recs[s].blktype, free[s], home, s)
  }

  /** `a` is a block of the page, and `size` bytes fit in it. */
  ghost predicate InBlock(rec: Record, a: nat, size: nat) {
    && rec.blktype < NSIZES
    && rec.page <= a < rec.page + PAGE_SIZE
    && (a - rec.page) % Size(rec.blktype) == 0
    && size <= Size(rec.blktype)
  }

  /** A block of record `s` is live exactly when it is not free. */
  ghost predicate Complement(page: nat, t: nat, list: seq<nat>, home: map<nat, nat>, s: nat) {
    t < NSIZES && forall b: nat :: b < NumBlocks(t) ==>
      (b !in list <==> BlockAddr(page, t, b) in home && home[BlockAddr(page, t, b)] == s)
  }

  // ----- taking and giving back a block

  /** Addresses on different heap pages differ. */
  lemma DifferentPages(p: nat, t: nat, b: nat, q: nat, u: nat, c: nat)
    requires t < NSIZES && u < NSIZES && b < NumBlocks(t) && c < NumBlocks(u)
    requires p % PAGE_SIZE == 0 && q % PAGE_SIZE == 0 && p != q
    ensures BlockAddr(p, t, b) != BlockAddr(q, u, c)
  {
    hide BlockAddr, NumBlocks, Size;
    BlockInPage(p, t, b);
    BlockInPage(q, u, c);
    SizePositive(t);
    SizePositive(u);
  }

  lemma {:induction false} TakeTiled(recs: seq<Record>, mem: map<nat, nat>, all: seq<nat>, free: seq<seq<nat>>,
                                     live: map<nat, nat>, home: map<nat, nat>, big: map<nat, nat>, s: nat, rec: Record, size: nat)
    requires Intact(recs, mem, all, free) && Apart(recs, all, big) && Tiled(recs, all, free, live, home, big)
    requires s in all && |free[s]| > 0 && rec.page == recs[s].page && rec.blktype == recs[s].blktype && size <= Size(rec.blktype)
    ensures var a := BlockAddr(rec.page, rec.blktype, free[s][0]);
      a !in live &&
      Tiled(recs[s := rec], all, free[s := free[s][1..]], live[a := size], home[a := s], big)
  {
    hide BlockAddr, NumBlocks, Size, FreeList, Complement;
    PageAligned(recs, mem, all, free, s);
    var page, t, b := rec.page, rec.blktype, free[s][0];
    var a := BlockAddr(page, t, b);
    FreeNumber(mem, page, t, recs[s].offset, recs[s].nfree, free[s]);
    BlockInPage(page, t, b);
    SizePositive(t);
    NotLive(recs, mem, all, free, live, home, big, s, b);
    PageComplement(recs, all, free, live, home, big, s);
    TakeComplement(page, t, free[s], home, s);
    OtherComplements(recs, mem, all, free, live, home, big, home[a := s], s, b);
    hide Intact, Apart;
    assert live[a := size].Keys == home[a := s].Keys + big.Keys;
  }

  lemma {:induction false} FreeNumber(mem: map<nat, nat>, page: nat, t: nat, offset: nat, nfree: nat, list: seq<nat>)
    requires FreeList(mem, page, t, offset, nfree, list) && |list| > 0
    ensures t < NSIZES && list[0] < NumBlocks(t) && Distinct(list)
  {
  }

  /** A change at one block of record `s` does not matter to other records. */
  lemma {:induction false} OtherComplements(recs: seq<Record>, mem: map<nat, nat>, all: seq<nat>, free: seq<seq<nat>>,
                                            live: map<nat, nat>, home: map<nat, nat>, big: map<nat, nat>, home': map<nat, nat>, s: nat, b: nat)
    requires Intact(recs, mem, all, free) && Apart(recs, all, big) && Tiled(recs, all, free, live, home, big)
    requires s in all && s < |recs| && recs[s].blktype < NSIZES && b < NumBlocks(recs[s].blktype)
    requires var x := BlockAddr(recs[s].page, recs[s].blktype, b);
      (forall a :: a != x ==> (a in home <==> a in home')) && forall a :: a != x && a in home ==> home[a] == home'[a]
    ensures forall r :: r in all && r != s ==> r < |recs| == |free| && Complement(recs[r].page, recs[r].blktype, free[r], home', r)
  {
    hide BlockAddr, NumBlocks, Size, Intact, Apart, Tiled, Complement;
    PageAligned(recs, mem, all, free, s);
    forall r | r in all && r != s
      ensures r < |recs| == |free| && Complement(recs[r].page, recs[r].blktype, free[r], home', r)
    {
      PageAligned(recs, mem, all, free, r);
      PagesDiffer(recs, all, big, r, s);
      PageComplement(recs, all, free, live, home, big, r);
      FreeLength(recs, mem, all, free);
      OtherComplement(recs[r].page, recs[r].blktype, free[r], home, home', r, recs[s].page, recs[s].blktype, b);
    }
  }

  lemma {:induction false} FreeLength(recs: seq<Record>, mem: map<nat, nat>, all: seq<nat>, free: seq<seq<nat>>)
    requires Intact(recs, mem, all, free)
    ensures |free| == |recs|
  {
  }

  lemma {:induction false} TakeComplement(page: nat, t: nat, list: seq<nat>, home: map<nat, nat>, s: nat)
    requires Complement(page, t, list, home, s) && Distinct(list) && |list| > 0
    ensures Complement(page, t, list[1..], home[BlockAddr(page, t, list[0]) := s], s)
  {
    hide BlockAddr, NumBlocks, Size;
    var b := list[0];
    var home' := home[BlockAddr(page, t, b) := s];
    forall c: nat | c < NumBlocks(t)
      ensures c !in list[1..] <==> BlockAddr(page, t, c) in home' && home'[BlockAddr(page, t, c)] == s
    {
      HeadOnce(list, c);
      if c != b {
        DifferentBlocks(page, t, b, c);
      }
    }
  }

  lemma {:induction false} NotFree(page: nat, t: nat, list: seq<nat>, home: map<nat, nat>, s: nat, b: nat)
    requires Complement(page, t, list, home, s) && b < NumBlocks(t) && b !in list
    ensures BlockAddr(page, t, b) in home && home[BlockAddr(page, t, b)] == s
  {
  }

  lemma {:induction false} GiveComplement(page: nat, t: nat, list: seq<nat>, home: map<nat, nat>, s: nat, b: nat)
    requires Complement(page, t, list, home, s)
    ensures Complement(page, t, [b] + list, home - {BlockAddr(page, t, b)}, s)
  {
    hide BlockAddr, NumBlocks, Size;
    var home' := home - {BlockAddr(page, t, b)};
    forall c: nat | c < NumBlocks(t)
      ensures c !in [b] + list <==> BlockAddr(page, t, c) in home' && home'[BlockAddr(page, t, c)] == s
    {
      if c != b {
        DifferentBlocks(page, t, b, c);
      }
    }
  }

  /** What happens at a block of one page does not matter to another page. */
  lemma {:induction false} OtherComplement(q: nat, u: nat, list: seq<nat>, home: map<nat, nat>, home': map<nat, nat>, r: nat, page: nat, t: nat, b: nat)
    requires Complement(q, u, list, home, r) && t < NSIZES && b < NumBlocks(t)
    requires page % PAGE_SIZE == 0 && q % PAGE_SIZE == 0 && page != q
    requires forall a :: a != BlockAddr(page, t, b) ==> (a in home <==> a in home')
    requires forall a :: a != BlockAddr(page, t, b) && a in home ==> home[a] == home'[a]
    ensures Complement(q, u, list, home', r)
  {
    hide BlockAddr, NumBlocks, Size;
    forall c: nat | c < NumBlocks(u)
      ensures c !in list <==> BlockAddr(q, u, c) in home' && home'[BlockAddr(q, u, c)] == r
    {
      DifferentPages(page, t, b, q, u, c);
    }
  }

  lemma {:induction false} HeadOnce(list: seq<nat>, c: nat)
    requires Distinct(list) && |list| > 0
    ensures c in list[1..] <==> c in list && c != list[0]
  {
  }

  /** A free block is not live. */
  lemma {:induction false} NotLive(recs: seq<Record>, mem: map<nat, nat>, all: seq<nat>, free: seq<seq<nat>>,
                                   live: map<nat, nat>, home: map<nat, nat>, big: map<nat, nat>, s: nat, b: nat)
    requires Intact(recs, mem, all, free) && Apart(recs, all, big) && Tiled(recs, all, free, live, home, big)
    requires s in all && b in free[s]
    ensures BlockAddr(recs[s].page, recs[s].blktype, b) !in live
  {
    hide BlockAddr, NumBlocks, Size, Links;
    var page, t := recs[s].page, recs[s].blktype;
    var a := BlockAddr(page, t, b);
    BlockInPage(page, t, b);
    SizePositive(t);
    assert Complement(recs[s].page, recs[s].blktype, free[s], home, s);
    if a in home {
      SamePage(recs, mem, all, free, live, home, big, a, s);
    }
    if a in big {
      assert PagesApart(page, 1, a, big[a]);
      AlignedSame(page, a);
    }
  }

  lemma AlignedSame(p: nat, q: nat)
    requires p % PAGE_SIZE == 0 && q % PAGE_SIZE == 0 && p <= q < p + PAGE_SIZE
    ensures p == q
  {
  }

  /** A live block on a heap page belongs to that page's record. */
  lemma {:induction false} SamePage(recs: seq<Record>, mem: map<nat, nat>, all: seq<nat>, free: seq<seq<nat>>,
                                    live: map<nat, nat>, home: map<nat, nat>, big: map<nat, nat>, a: nat, s: nat)
    requires Intact(recs, mem, all, free) && Apart(recs, all, big) && Tiled(recs, all, free, live, home, big)
    requires s in all && a in home && recs[s].page <= a < recs[s].page + PAGE_SIZE
    ensures home[a] == s
  {
    hide BlockAddr, NumBlocks, Size, Links, Complement;
    var r := home[a];
    assert r in all && InBlock(recs[r], a, live[a]);
    assert recs[r].page % PAGE_SIZE == 0 && recs[s].page % PAGE_SIZE == 0;
    var p, q := recs[r].page, recs[s].page;
    AlignedWithin(p, q, a);
  }

  lemma AlignedWithin(p: nat, q: nat, a: nat)
    requires p % PAGE_SIZE == 0 && q % PAGE_SIZE == 0 && p <= a < p + PAGE_SIZE && q <= a < q + PAGE_SIZE
    ensures p == q
  {
  }

  lemma {:induction false} GiveTiled(recs: seq<Record>, mem: map<nat, nat>, all: seq<nat>, free: seq<seq<nat>>,
                                     live: map<nat, nat>, home: map<nat, nat>, big: map<nat, nat>, s: nat, rec: Record, b: nat)
    requires Intact(recs, mem, all, free) && Apart(recs, all, big) && Tiled(recs, all, free, live, home, big)
    requires s in all && rec.page == recs[s].page && rec.blktype == recs[s].blktype && b < NumBlocks(rec.blktype) && b !in free[s]
    ensures var a := BlockAddr(rec.page, rec.blktype, b);
      a in home && home[a] == s &&
      Tiled(recs[s := rec], all, free[s := [b] + free[s]], live - {a}, home - {a}, big)
  {
    hide BlockAddr, NumBlocks, Size, FreeList, Complement;
    PageAligned(recs, mem, all, free, s);
    var page, t := rec.page, rec.blktype;
    var a := BlockAddr(page, t, b);
    PageComplement(recs, all, free, live, home, big, s);
    NotFree(page, t, free[s], home, s, b);
    GiveComplement(page, t, free[s], home, s, b);
    OtherComplements(recs, mem, all, free, live, home, big, home - {a}, s, b);
    hide Intact, Apart;
    assert (live - {a}).Keys == (home - {a}).Keys + big.Keys;
  }

  // ----- adding and dropping a page

  lemma {:induction false} AddTiled(recs: seq<Record>, all: seq<nat>, free: seq<seq<nat>>,
                                    live: map<nat, nat>, home: map<nat, nat>, big: map<nat, nat>, s: nat, rec: Record, list: seq<nat>)
    requires Tiled(recs, all, free, live, home, big)
    requires s < |recs| && s !in all && rec.blktype < NSIZES
    requires forall b: nat :: b < NumBlocks(rec.blktype) ==> b in list
    ensures Tiled(recs[s := rec], [s] + all, free[s := list], live, home, big)
  {
    hide BlockAddr, NumBlocks, Size;
    var recs', all', free' := recs[s := rec], [s] + all, free[s := list];
    forall r | r in all' && r < |recs'|
      ensures Complement(recs'[r].page, recs'[r].blktype, free'[r], home, r)
    {
      if r == s {
        assert forall a :: a in home ==> home[a] != s;
      } else {
        assert Complement(recs[r].page, recs[r].blktype, free[r], home, r);
      }
    }
  }

  lemma {:induction false} AddApart(recs: seq<Record>, all: seq<nat>, big: map<nat, nat>, s: nat, rec: Record)
    requires Apart(recs, all, big) && s < |recs| && s !in all
    requires NewPages(recs, all, big, rec.page, 1)
    ensures Apart(recs[s := rec], [s] + all, big)
  {
  }

  /** `n` pages at `page` that the heap does not own. */
  ghost predicate NewPages(recs: seq<Record>, all: seq<nat>, big: map<nat, nat>, page: nat, n: nat) {
    && page > 0 && page % PAGE_SIZE == 0 && n > 0
    && (forall s :: s in all && s < |recs| ==> PagesApart(recs[s].page, 1, page, n))
    && forall a :: a in big ==> PagesApart(a, big[a], page, n)
  }

  lemma {:induction false} NotBig(recs: seq<Record>, all: seq<nat>, big: map<nat, nat>, page: nat, n: nat)
    requires Apart(recs, all, big) && NewPages(recs, all, big, page, n)
    ensures page !in big
  {
    forall a | a in big
      ensures a != page
    {
      assert PagesApart(a, big[a], page, n) && big[a] > 0;
    }
  }

  lemma {:induction false} AddBig(recs: seq<Record>, all: seq<nat>, big: map<nat, nat>, page: nat, n: nat)
    requires Apart(recs, all, big) && NewPages(recs, all, big, page, n)
    ensures page !in big && Apart(recs, all, big[page := n])
  {
    NotBig(recs, all, big, page, n);
  }

  /** Records, free lists and links of other pages do not depend on one record. */
  lemma {:induction false} IntactUpdate(recs: seq<Record>, mem: map<nat, nat>, all: seq<nat>, free: seq<seq<nat>>,
                                        mem': map<nat, nat>, s: nat, rec: Record, list: seq<nat>)
    requires Intact(recs, mem, all, free) && s < |recs|
    requires FreeList(mem', rec.page, rec.blktype, rec.offset, rec.nfree, list)
    requires forall r, k :: r in all && r != s && 0 <= k < |free[r]| ==>
      var x := BlockAddr(recs[r].page, recs[r].blktype, free[r][k]);
      x in mem && x in mem' && mem'[x] == mem[x]
    ensures Intact(recs[s := rec], mem', all, free[s := list]) && Intact(recs[s := rec], mem', [s] + all, free[s := list])
  {
    hide BlockAddr, NumBlocks, Size, Links;
    forall r | r in [s] + all
      ensures r < |recs| && FreeList(mem', recs[s := rec][r].page, recs[s := rec][r].blktype, recs[s := rec][r].offset, recs[s := rec][r].nfree, free[s := list][r])
    {
      if r != s {
        assert r in all;
        OtherMemory(mem, mem', recs[r].page, recs[r].blktype, recs[r].offset, recs[r].nfree, free[r]);
      }
    }
    assert forall r :: r in all ==> r in [s] + all;
  }

  /** A sequence without its element at `k`. */
  ghost function Without(list: seq<nat>, k: nat): seq<nat>
    requires k < |list|
  {
    list[..k] + list[k + 1..]
  }

  lemma {:induction false} WithoutElements(list: seq<nat>, k: nat)
    requires k < |list| && Distinct(list)
    ensures forall x :: x in Without(list, k) <==> x in list && x != list[k]
  {
    var rest := Without(list, k);
    assert forall i :: 0 <= i < |rest| ==> rest[i] == list[if i < k then i else i + 1];
    forall x | x in list && x != list[k]
      ensures x in rest
    {
      var i :| 0 <= i < |list| && list[i] == x;
      assert rest[if i < k then i else i - 1] == x;
    }
  }

  /** A page whose blocks are all free can go. */
  lemma {:induction false} DropTiled(recs: seq<Record>, mem: map<nat, nat>, all: seq<nat>, free: seq<seq<nat>>,
                                     live: map<nat, nat>, home: map<nat, nat>, big: map<nat, nat>, s: nat, all': seq<nat>)
    requires Intact(recs, mem, all, free) && Tiled(recs, all, free, live, home, big)
    requires s in all && recs[s].nfree >= NumBlocks(recs[s].blktype)
    requires forall x :: x in all' <==> x in all && x != s
    ensures Tiled(recs, all', free, live, home, big)
  {
    hide BlockAddr, NumBlocks, Size, Links, Complement;
    forall a | a in home
      ensures home[a] != s
    {
      if home[a] == s {
        AllFree(recs[s], free[s], home, s, a, live[a]);
      }
    }
  }

  lemma {:induction false} AllFree(rec: Record, list: seq<nat>, home: map<nat, nat>, s: nat, a: nat, size: nat)
    requires rec.blktype < NSIZES && Distinct(list) && (forall k :: 0 <= k < |list| ==> list[k] < NumBlocks(rec.blktype))
    requires |list| >= NumBlocks(rec.blktype) && Complement(rec.page, rec.blktype, list, home, s) && InBlock(rec, a, size)
    ensures !(a in home && home[a] == s)
  {
    hide BlockAddr, NumBlocks, Size;
    SizePositive(rec.blktype);
    var b := (a - rec.page) / Size(rec.blktype);
    OffsetIsBlock(rec.page, rec.blktype, a - rec.page);
    DistinctFull(list, NumBlocks(rec.blktype), b);
  }

  lemma {:induction false} DropApart(recs: seq<Record>, all: seq<nat>, big: map<nat, nat>, all': seq<nat>)
    requires Apart(recs, all, big) && forall x :: x in all' ==> x in all
    ensures Apart(recs, all', big)
  {
  }

  lemma {:induction false} DropIntact(recs: seq<Record>, mem: map<nat, nat>, all: seq<nat>, free: seq<seq<nat>>, all': seq<nat>)
    requires Intact(recs, mem, all, free) && forall x :: x in all' ==> x in all
    ensures Intact(recs, mem, all', free)
  {
  }

  // ----- the lists of records

  lemma {:induction false} AddLists(recs: seq<Record>, nextAll: seq<int>, allbase: int, all: seq<nat>,
                                    nextSame: seq<int>, sizebases: seq<int>, same: seq<seq<nat>>, s: nat, rec: Record)
    requires Lists(recs, nextAll, allbase, all, nextSame, sizebases, same) && s < |recs| && s !in all && rec.blktype < NSIZES
    ensures var t := rec.blktype;
      Lists(recs[s := rec], nextAll[s := allbase], s, [s] + all, nextSame[s := sizebases[t]], sizebases[t := s], same[t := [s] + same[t]])
  {
    hide Threaded;
    var t := rec.blktype;
    ThreadPush(nextAll, allbase, all, s);
    assert s !in same[t] by { assert OfType(recs, all, same[t], t); }
    ThreadPush(nextSame, sizebases[t], same[t], s);
    var same', sizebases', nextSame' := same[t := [s] + same[t]], sizebases[t := s], nextSame[s := sizebases[t]];
    forall u | 0 <= u < NSIZES
      ensures Threaded(nextSame', sizebases'[u], same'[u]) && OfType(recs[s := rec], [s] + all, same'[u], u)
    {
      assert OfType(recs, all, same[u], u) && s !in same[u];
      if u != t {
        ThreadOther(nextSame, sizebases[u], same[u], s, sizebases[t]);
      }
    }
  }

  /** Changing a record but not its block type. */
  lemma {:induction false} SameLists(recs: seq<Record>, nextAll: seq<int>, allbase: int, all: seq<nat>,
                                     nextSame: seq<int>, sizebases: seq<int>, same: seq<seq<nat>>, s: nat, rec: Record)
    requires Lists(recs, nextAll, allbase, all, nextSame, sizebases, same) && s < |recs| && rec.blktype == recs[s].blktype
    ensures Lists(recs[s := rec], nextAll, allbase, all, nextSame, sizebases, same)
  {
    hide Threaded;
    forall u | 0 <= u < NSIZES
      ensures OfType(recs[s := rec], all, same[u], u)
    {
      assert OfType(recs, all, same[u], u);
    }
  }

  /** `remove_lists`: both lists lose the record and nothing else. */
  lemma {:induction false} DropLists(recs: seq<Record>, nextAll: seq<int>, allbase: int, all: seq<nat>,
                                     nextSame: seq<int>, sizebases: seq<int>, same: seq<seq<nat>>, k: nat, l: nat, t: nat,
                                     nextAll': seq<int>, allbase': int, nextSame': seq<int>, sizebase': int)
    requires Lists(recs, nextAll, allbase, all, nextSame, sizebases, same)
    requires k < |all| && t < NSIZES && l < |same[t]| && all[k] == same[t][l]
    requires |nextAll'| == |nextSame'| == |recs|
    requires Threaded(nextAll', allbase', Without(all, k)) && Threaded(nextSame', sizebase', Without(same[t], l))
    requires forall x :: 0 <= x < |recs| && x !in same[t] ==> nextSame'[x] == nextSame[x]
    ensures Lists(recs, nextAll', allbase', Without(all, k), nextSame', sizebases[t := sizebase'], same[t := Without(same[t], l)])
  {
    WithoutElements(all, k);
    WithoutElements(same[t], l);
    var all', same', sizebases' := Without(all, k), same[t := Without(same[t], l)], sizebases[t := sizebase'];
    hide Without;
    assert OfType(recs, all, same[t], t);
    forall u | 0 <= u < NSIZES
      ensures Threaded(nextSame', sizebases'[u], same'[u]) && OfType(recs, all', same'[u], u)
    {
      assert OfType(recs, all, same[u], u);
      if u != t {
        UntouchedThread(nextSame, nextSame', sizebases[u], same[u], same[t]);
      }
    }
  }

  lemma {:induction false} UntouchedThread(next: seq<int>, next': seq<int>, base: int, list: seq<nat>, other: seq<nat>)
    requires Threaded(next, base, list) && |next'| == |next| && forall x :: x in list ==> x !in other
    requires forall x :: 0 <= x < |next| && x !in other ==> next'[x] == next[x]
    ensures Threaded(next', base, list)
  {
    forall k | 0 <= k < |list|
      ensures next'[list[k]] == if k + 1 < |list| then list[k + 1] else NULL
    {
      assert list[k] in list;
      assert next[list[k]] == if k + 1 < |list| then list[k + 1] else NULL;
    }
  }

  // ----- what callers rely on

  /** The space that an allocation has to itself. */
  ghost function Extent(recs: seq<Record>, home: map<nat, nat>, big: map<nat, nat>, a: nat): nat {
    if a in big then big[a] * PAGE_SIZE
    else if a in home && home[a] < |recs| && recs[home[a]].blktype < NSIZES then Size(recs[home[a]].blktype)
    else 0
  }

  /** Where a live sub-page block is. */
  lemma {:induction false} HomeFacts(recs: seq<Record>, mem: map<nat, nat>, all: seq<nat>, free: seq<seq<nat>>,
                                     live: map<nat, nat>, home: map<nat, nat>, big: map<nat, nat>, a: nat)
    requires Intact(recs, mem, all, free) && Tiled(recs, all, free, live, home, big) && a in home
    ensures home[a] in all && home[a] < |recs| == |free| && a in live && a !in big
    ensures var rec := recs[home[a]];
      rec.blktype < NSIZES && rec.page > 0 && rec.page % PAGE_SIZE == 0 && live[a] <= Size(rec.blktype)
      && rec.page <= a < rec.page + PAGE_SIZE && (a - rec.page) % Size(rec.blktype) == 0
      && a + Size(rec.blktype) <= rec.page + PAGE_SIZE
  {
    hide BlockAddr, NumBlocks, FreeList, Complement, Size;
    var s := home[a];
    assert InBlock(recs[s], a, live[a]);
    PageAligned(recs, mem, all, free, s);
    hide Tiled, Intact;
    var page, t := recs[s].page, recs[s].blktype;
    SizePositive(t);
    OffsetIsBlock(page, t, a - page);
    BlockInPage(page, t, (a - page) / Size(t));
  }

  /** The block number of a live sub-page block is not on the free list. */
  lemma {:induction false} HomeBlock(recs: seq<Record>, mem: map<nat, nat>, all: seq<nat>, free: seq<seq<nat>>,
                                     live: map<nat, nat>, home: map<nat, nat>, big: map<nat, nat>, a: nat) returns (b: nat)
    requires Intact(recs, mem, all, free) && Tiled(recs, all, free, live, home, big) && a in home
    ensures home[a] in all && home[a] < |recs| == |free| && recs[home[a]].blktype < NSIZES
    ensures var rec := recs[home[a]]; b < NumBlocks(rec.blktype) && BlockAddr(rec.page, rec.blktype, b) == a && b !in free[home[a]]
  {
    hide BlockAddr, NumBlocks, Intact, Tiled, Size, Complement;
    HomeFacts(recs, mem, all, free, live, home, big, a);
    var s := home[a];
    var page, t := recs[s].page, recs[s].blktype;
    SizePositive(t);
    b := (a - page) / Size(t);
    OffsetIsBlock(page, t, a - page);
    PageComplement(recs, all, free, live, home, big, s);
    NotOnList(page, t, free[s], home, s, b);
  }

  lemma {:induction false} PageComplement(recs: seq<Record>, all: seq<nat>, free: seq<seq<nat>>, live: map<nat, nat>, home: map<nat, nat>, big: map<nat, nat>, s: nat)
    requires Tiled(recs, all, free, live, home, big) && s in all && s < |recs|
    ensures s < |free| && Complement(recs[s].page, recs[s].blktype, free[s], home, s)
  {
  }

  lemma {:induction false} NotOnList(page: nat, t: nat, list: seq<nat>, home: map<nat, nat>, s: nat, b: nat)
    requires Complement(page, t, list, home, s) && b < NumBlocks(t)
    requires BlockAddr(page, t, b) in home && home[BlockAddr(page, t, b)] == s
    ensures b !in list
  {
  }

  lemma {:induction false} PagesDiffer(recs: seq<Record>, all: seq<nat>, big: map<nat, nat>, s: nat, r: nat)
    requires Apart(recs, all, big) && s in all && r in all && s != r && s < |recs| && r < |recs|
    ensures recs[s].page != recs[r].page
  {
  }

  lemma {:induction false} PageAndBig(recs: seq<Record>, all: seq<nat>, big: map<nat, nat>, s: nat, a: nat)
    requires Apart(recs, all, big) && s in all && s < |recs| && a in big
    ensures PagesApart(recs[s].page, 1, a, big[a]) && a % PAGE_SIZE == 0 && a > 0 && big[a] > 0
  {
  }

  lemma {:induction false} BigAndBig(recs: seq<Record>, all: seq<nat>, big: map<nat, nat>, a: nat, b: nat)
    requires Apart(recs, all, big) && a in big && b in big && a != b
    ensures PagesApart(a, big[a], b, big[b]) && big[a] > 0 && big[b] > 0
  {
  }

  lemma {:induction false} HomeOrBig(recs: seq<Record>, all: seq<nat>, free: seq<seq<nat>>, live: map<nat, nat>, home: map<nat, nat>, big: map<nat, nat>)
    requires Tiled(recs, all, free, live, home, big)
    ensures forall a :: a in live <==> a in home || a in big
    ensures forall a :: a in home ==> a !in big
    ensures forall a :: a in big ==> live[a] <= big[a] * PAGE_SIZE
  {
  }

  /** Any two live allocations occupy disjoint space. */
  lemma {:induction false} LiveApart(recs: seq<Record>, mem: map<nat, nat>, all: seq<nat>, free: seq<seq<nat>>,
                                     live: map<nat, nat>, home: map<nat, nat>, big: map<nat, nat>, a: nat, b: nat)
    requires Intact(recs, mem, all, free) && Apart(recs, all, big) && Tiled(recs, all, free, live, home, big)
    requires a in live && b in live && a < b
    ensures a + Extent(recs, home, big, a) <= b
  {
    hide Intact, Apart, Tiled, Size;
    HomeOrBig(recs, all, free, live, home, big);
    if b in home {
      HomeFacts(recs, mem, all, free, live, home, big, b);
    }
    if a in big {
      if b in big {
        BigAndBig(recs, all, big, a, b);
      } else {
        PageAndBig(recs, all, big, home[b], a);
        AlignedOrder(a, recs[home[b]].page, b);
      }
    } else {
      HomeFacts(recs, mem, all, free, live, home, big, a);
      var s := home[a];
      var page, t := recs[s].page, recs[s].blktype;
      if b in big {
        PageAndBig(recs, all, big, s, b);
        AlignedSecond(page, a, b);
      } else if home[b] == s {
        SameStep(page, t, a, b);
      } else {
        PagesDiffer(recs, all, big, s, home[b]);
        AlignedPages(page, recs[home[b]].page, a, b);
      }
    }
  }

  lemma AlignedOrder(a: nat, page: nat, b: nat)
    requires a % PAGE_SIZE == 0 && page % PAGE_SIZE == 0 && page <= b < page + PAGE_SIZE && a < b
    ensures a <= page
  {
  }

  lemma AlignedSecond(page: nat, a: nat, b: nat)
    requires page % PAGE_SIZE == 0 && b % PAGE_SIZE == 0 && page <= a < page + PAGE_SIZE && a < b
    ensures page + PAGE_SIZE <= b
  {
  }

  lemma AlignedPages(p: nat, q: nat, a: nat, b: nat)
    requires p % PAGE_SIZE == 0 && q % PAGE_SIZE == 0 && p != q
    requires p <= a < p + PAGE_SIZE && q <= b < q + PAGE_SIZE && a < b
    ensures p + PAGE_SIZE <= b
  {
  }

  lemma SameStep(page: nat, t: nat, a: nat, b: nat)
    requires t < NSIZES && page <= a < b < page + PAGE_SIZE
    requires (a - page) % Size(t) == 0 && (b - page) % Size(t) == 0
    ensures a + Size(t) <= b
  {
    hide Size;
    SizePositive(t);
    OffsetIsBlock(page, t, a - page);
    OffsetIsBlock(page, t, b - page);
    var i, j := (a - page) / Size(t), (b - page) / Size(t);
    if i < j {
      BlocksApart(page, t, i, j);
    } else if j < i {
      BlocksApart(page, t, j, i);
    }
  }

  /** A live sub-page block is aligned to its size, lies within one page and is large enough. */
  lemma {:induction false} LiveWellPlaced(recs: seq<Record>, mem: map<nat, nat>, all: seq<nat>, free: seq<seq<nat>>,
                                          live: map<nat, nat>, home: map<nat, nat>, big: map<nat, nat>, a: nat)
    requires Intact(recs, mem, all, free) && Tiled(recs, all, free, live, home, big) && a in live
    ensures live[a] <= Extent(recs, home, big, a)
    ensures a in home ==> Extent(recs, home, big, a) > 0 && a % Extent(recs, home, big, a) == 0
    ensures a in home ==> a % PAGE_SIZE + Extent(recs, home, big, a) <= PAGE_SIZE
    ensures a in big ==> a !in home
  {
    hide Intact, Tiled, Size;
    HomeOrBig(recs, all, free, live, home, big);
    if a in home {
      HomeFacts(recs, mem, all, free, live, home, big, a);
      AlignedBlock(recs[home[a]].page, recs[home[a]].blktype, a);
    }
  }

  lemma AlignedBlock(page: nat, t: nat, a: nat)
    requires t < NSIZES && page % PAGE_SIZE == 0 && page <= a < page + PAGE_SIZE && (a - page) % Size(t) == 0
    ensures a % Size(t) == 0 && a % PAGE_SIZE == a - page
  {
    PageOffset(page, a);
    SizePositive(t);
    var sz, n := Size(t), NumBlocks(t);
    assert n * sz == PAGE_SIZE;
    hide Size, NumBlocks;
    Multiples(page, PAGE_SIZE, n, a - page, sz);
  }

  lemma PageOffset(page: nat, a: nat)
    requires page % PAGE_SIZE == 0 && page <= a < page + PAGE_SIZE
    ensures a % PAGE_SIZE == a - page
  {
  }

  lemma Multiples(x: nat, p: nat, n: nat, y: nat, sz: nat)
    requires sz > 0 && p == n * sz && p > 0 && x % p == 0 && y % sz == 0
    ensures (x + y) % sz == 0
  {
    DivMod(x, p);
    DivMod(y, sz);
    var q, k := x / p, y / sz;
    MulAssoc(q, n, sz);
    SumOfProducts(q * n, k, sz);
    DivIs(x + y, sz, q * n + k);
  }

  lemma SumOfProducts(x: int, y: int, z: int)
    ensures (x + y) * z == x * z + y * z
  {
  }

  // ----- the heap as one value

  datatype Shape = Shape(recs: seq<Record>, nextAll: seq<int>, allbase: int, nextSame: seq<int>, sizebases: seq<int>, mem: map<nat, nat>,
                         all: seq<nat>, same: seq<seq<nat>>, free: seq<seq<nat>>, live: map<nat, nat>, home: map<nat, nat>, big: map<nat, nat>)

  ghost predicate Sound(h: Shape) {
    && Lists(h.recs, h.nextAll, h.allbase, h.all, h.nextSame, h.sizebases, h.same)
    && Intact(h.recs, h.mem, h.all, h.free)
    && Apart(h.recs, h.all, h.big)
    && Tiled(h.recs, h.all, h.free, h.live, h.home, h.big)
  }

  /** Every page but that of record `x` has a live block. */
  ghost predicate Busy(h: Shape, x: int) {
    forall s :: s in h.all && s != x ==> s < |h.recs| && h.recs[s].blktype < NSIZES && h.recs[s].nfree < NumBlocks(h.recs[s].blktype)
  }

  lemma {:induction false} SoundRecord(h: Shape, s: nat)
    requires Sound(h) && s in h.all
    ensures s < |h.recs| == |h.free| == |h.nextAll| == |h.nextSame| && |h.sizebases| == |h.same| == NSIZES
    ensures var rec := h.recs[s];
      FreeList(h.mem, rec.page, rec.blktype, rec.offset, rec.nfree, h.free[s]) && rec.nfree == |h.free[s]|
      && rec.blktype < NSIZES && rec.nfree <= NumBlocks(rec.blktype) && rec.page > 0
  {
    hide NumBlocks, Links;
    DistinctBound(h.free[s], NumBlocks(h.recs[s].blktype));
  }

  lemma {:induction false} SoundLengths(h: Shape)
    requires Sound(h)
    ensures |h.recs| == |h.free| == |h.nextAll| == |h.nextSame| && |h.sizebases| == |h.same| == NSIZES
  {
  }

  /** After the first free block of record `s` has become live. */
  ghost function Taken(h: Shape, s: nat, rec: Record, size: nat): Shape
    requires s < |h.recs| && s < |h.free| && |h.free[s]| > 0 && rec.blktype < NSIZES
  {
    var a := BlockAddr(rec.page, rec.blktype, h.free[s][0]);
    h.(recs := h.recs[s := rec], free := h.free[s := h.free[s][1..]], live := h.live[a := size], home := h.home[a := s])
  }

  lemma {:induction false} TakeSound(h: Shape, s: nat, rec: Record, size: nat)
    requires Sound(h) && s in h.all && s < |h.recs| && s < |h.free| && |h.free[s]| > 0
    requires rec.page == h.recs[s].page && rec.blktype == h.recs[s].blktype < NSIZES && size <= Size(rec.blktype)
    requires FreeList(h.mem, rec.page, rec.blktype, rec.offset, rec.nfree, h.free[s][1..])
    ensures Sound(Taken(h, s, rec, size))
    ensures BlockAddr(rec.page, rec.blktype, h.free[s][0]) !in h.live
  {
    hide FreeList, Lists, Apart, Tiled, Size, NumBlocks, BlockAddr, Intact;
    TakeTiled(h.recs, h.mem, h.all, h.free, h.live, h.home, h.big, s, rec, size);
    SameLists(h.recs, h.nextAll, h.allbase, h.all, h.nextSame, h.sizebases, h.same, s, rec);
    OwnMemory(h.recs, h.mem, h.all, h.free, h.mem, s);
    IntactUpdate(h.recs, h.mem, h.all, h.free, h.mem, s, rec, h.free[s][1..]);
    ApartUpdate(h.recs, h.all, h.big, s, rec);
  }

  /** After block `b` of record `s` has been put back. */
  ghost function Given(h: Shape, s: nat, rec: Record, b: nat, mem: map<nat, nat>): Shape
    requires s < |h.recs| && s < |h.free| && rec.blktype < NSIZES
  {
    var a := BlockAddr(rec.page, rec.blktype, b);
    h.(recs := h.recs[s := rec], mem := mem, free := h.free[s := [b] + h.free[s]], live := h.live - {a}, home := h.home - {a})
  }

  lemma {:induction false} GiveSound(h: Shape, s: nat, rec: Record, b: nat, mem: map<nat, nat>)
    requires Sound(h) && s in h.all && s < |h.recs| && s < |h.free|
    requires rec.page == h.recs[s].page && rec.blktype == h.recs[s].blktype < NSIZES && b < NumBlocks(rec.blktype) && b !in h.free[s]
    requires FreeList(mem, rec.page, rec.blktype, rec.offset, rec.nfree, [b] + h.free[s])
    requires forall w :: w in h.mem && !(rec.page <= w < rec.page + PAGE_SIZE) ==> w in mem && mem[w] == h.mem[w]
    ensures Sound(Given(h, s, rec, b, mem))
    ensures BlockAddr(rec.page, rec.blktype, b) in h.live
  {
    hide FreeList, Lists, Apart, Tiled, Size, NumBlocks, BlockAddr, Intact;
    GiveTiled(h.recs, h.mem, h.all, h.free, h.live, h.home, h.big, s, rec, b);
    SameLists(h.recs, h.nextAll, h.allbase, h.all, h.nextSame, h.sizebases, h.same, s, rec);
    OthersApart(h.recs, h.mem, h.all, h.free, h.big, s);
    OutsidePage(h.recs, h.mem, h.all, h.free, mem, s, rec.page);
    OwnMemory(h.recs, h.mem, h.all, h.free, mem, s);
    IntactUpdate(h.recs, h.mem, h.all, h.free, mem, s, rec, [b] + h.free[s]);
    ApartUpdate(h.recs, h.all, h.big, s, rec);
    HomeIsLive(h.recs, h.all, h.free, h.live, h.home, h.big);
  }

  /** After the record `s`, which is on no list, has been filled in and its page threaded. */
  ghost function Prepared(h: Shape, s: nat, rec: Record, mem: map<nat, nat>, list: seq<nat>): Shape
    requires s < |h.recs| == |h.free|
  {
    h.(recs := h.recs[s := rec], mem := mem, free := h.free[s := list])
  }

  lemma {:induction false} PrepareSound(h: Shape, s: nat, rec: Record, mem: map<nat, nat>, list: seq<nat>)
    requires Sound(h) && s < |h.recs| == |h.free| && s !in h.all && NewPages(h.recs, h.all, h.big, rec.page, 1)
    requires FreeList(mem, rec.page, rec.blktype, rec.offset, rec.nfree, list)
    requires forall w :: w in h.mem && !(rec.page <= w < rec.page + PAGE_SIZE) ==> w in mem && mem[w] == h.mem[w]
    ensures Sound(Prepared(h, s, rec, mem, list))
    ensures NewPages(h.recs[s := rec], h.all, h.big, rec.page, 1)
  {
    hide FreeList, Size, NumBlocks, BlockAddr, Threaded, OfType, Complement;
    OutsidePage(h.recs, h.mem, h.all, h.free, mem, s, rec.page);
    OwnMemory(h.recs, h.mem, h.all, h.free, mem, s);
    IntactUpdate(h.recs, h.mem, h.all, h.free, mem, s, rec, list);
    UnlistedLists(h.recs, h.nextAll, h.allbase, h.all, h.nextSame, h.sizebases, h.same, s, rec);
    hide Intact, Lists;
    UnlistedTiled(h.recs, h.all, h.free, h.live, h.home, h.big, s, rec, list);
  }

  lemma {:induction false} UnlistedLists(recs: seq<Record>, nextAll: seq<int>, allbase: int, all: seq<nat>,
                                         nextSame: seq<int>, sizebases: seq<int>, same: seq<seq<nat>>, s: nat, rec: Record)
    requires Lists(recs, nextAll, allbase, all, nextSame, sizebases, same) && s < |recs| && s !in all
    ensures Lists(recs[s := rec], nextAll, allbase, all, nextSame, sizebases, same)
  {
    hide Threaded;
    forall u | 0 <= u < NSIZES
      ensures OfType(recs[s := rec], all, same[u], u)
    {
      assert OfType(recs, all, same[u], u);
    }
  }

  lemma {:induction false} UnlistedTiled(recs: seq<Record>, all: seq<nat>, free: seq<seq<nat>>, live: map<nat, nat>, home: map<nat, nat>, big: map<nat, nat>,
                                         s: nat, rec: Record, list: seq<nat>)
    requires Tiled(recs, all, free, live, home, big) && s < |recs| && s !in all
    ensures Tiled(recs[s := rec], all, free[s := list], live, home, big)
  {
    hide Complement, InBlock;
  }

  /** After the prepared record `s` has been put on both lists. */
  ghost function LinkedIn(h: Shape, s: nat): Shape
    requires s < |h.recs| == |h.nextAll| == |h.nextSame| && h.recs[s].blktype < NSIZES == |h.sizebases| == |h.same|
  {
    var t := h.recs[s].blktype;
    h.(nextAll := h.nextAll[s := h.allbase], allbase := s, nextSame := h.nextSame[s := h.sizebases[t]],
       sizebases := h.sizebases[t := s], all := [s] + h.all, same := h.same[t := [s] + h.same[t]])
  }

  /** Record `s` is prepared: its page is new and all its blocks are on the free list. */
  ghost predicate Fresh(h: Shape, s: nat) {
    && s < |h.recs| == |h.free| && s !in h.all
    && FreeList(h.mem, h.recs[s].page, h.recs[s].blktype, h.recs[s].offset, h.recs[s].nfree, h.free[s])
    && h.recs[s].blktype < NSIZES
    && (forall b: nat :: b < NumBlocks(h.recs[s].blktype) ==> b in h.free[s])
    && NewPages(h.recs, h.all, h.big, h.recs[s].page, 1)
  }

  lemma {:induction false} LinkSound(h: Shape, s: nat)
    requires Sound(h) && Fresh(h, s)
    requires s < |h.recs| == |h.nextAll| == |h.nextSame| && h.recs[s].blktype < NSIZES == |h.sizebases| == |h.same|
    ensures Sound(LinkedIn(h, s))
  {
    hide FreeList, Size, NumBlocks, BlockAddr, Threaded, OfType, Complement, PagesApart;
    var rec := h.recs[s];
    assert h.recs[s := rec] == h.recs && h.free[s := h.free[s]] == h.free;
    AddLists(h.recs, h.nextAll, h.allbase, h.all, h.nextSame, h.sizebases, h.same, s, rec);
    AddTiled(h.recs, h.all, h.free, h.live, h.home, h.big, s, rec, h.free[s]);
    hide Lists, Tiled;
    AddApart(h.recs, h.all, h.big, s, rec);
    hide Apart, NewPages;
    LinkIntact(h.recs, h.mem, h.all, h.free, s);
  }

  lemma {:induction false} LinkIntact(recs: seq<Record>, mem: map<nat, nat>, all: seq<nat>, free: seq<seq<nat>>, s: nat)
    requires Intact(recs, mem, all, free) && s < |recs|
    requires FreeList(mem, recs[s].page, recs[s].blktype, recs[s].offset, recs[s].nfree, free[s])
    ensures Intact(recs, mem, [s] + all, free)
  {
    hide FreeList;
  }

  /** After record `h.all[k]`, at position `l` of its size list, has left both lists. */
  ghost function Dropped(h: Shape, k: nat, l: nat, t: nat, nextAll: seq<int>, allbase: int, nextSame: seq<int>, sizebase: int): Shape
    requires k < |h.all| && t < NSIZES == |h.same| == |h.sizebases| && l < |h.same[t]|
  {
    h.(nextAll := nextAll, allbase := allbase, nextSame := nextSame, sizebases := h.sizebases[t := sizebase],
       all := Without(h.all, k), same := h.same[t := Without(h.same[t], l)])
  }

  lemma {:induction false} DropSound(h: Shape, k: nat, l: nat, t: nat, nextAll: seq<int>, allbase: int, nextSame: seq<int>, sizebase: int)
    requires Sound(h) && k < |h.all| && t < NSIZES == |h.same| == |h.sizebases| && l < |h.same[t]| && h.all[k] == h.same[t][l]
    requires var s := h.all[k]; s < |h.recs| && h.recs[s].blktype < NSIZES && h.recs[s].nfree >= NumBlocks(h.recs[s].blktype)
    requires |nextAll| == |nextSame| == |h.recs| == |h.nextSame|
    requires Threaded(nextAll, allbase, Without(h.all, k)) && Threaded(nextSame, sizebase, Without(h.same[t], l))
    requires forall x :: 0 <= x < |h.recs| && x !in h.same[t] ==> nextSame[x] == h.nextSame[x]
    ensures Sound(Dropped(h, k, l, t, nextAll, allbase, nextSame, sizebase))
  {
    DistinctAll(h);
    WithoutElements(h.all, k);
    hide FreeList, Lists, Apart, Tiled, Size, NumBlocks, BlockAddr, Intact, Threaded, Without;
    DropLists(h.recs, h.nextAll, h.allbase, h.all, h.nextSame, h.sizebases, h.same, k, l, t, nextAll, allbase, nextSame, sizebase);
    DropTiled(h.recs, h.mem, h.all, h.free, h.live, h.home, h.big, h.all[k], Without(h.all, k));
    DropApart(h.recs, h.all, h.big, Without(h.all, k));
    DropIntact(h.recs, h.mem, h.all, h.free, Without(h.all, k));
  }

  lemma {:induction false} DistinctAll(h: Shape)
    requires Sound(h)
    ensures Distinct(h.all)
  {
  }

  lemma {:induction false} HomeIsLive(recs: seq<Record>, all: seq<nat>, free: seq<seq<nat>>, live: map<nat, nat>, home: map<nat, nat>, big: map<nat, nat>)
    requires Tiled(recs, all, free, live, home, big)
    ensures forall a :: a in home ==> a in live
  {
  }

  lemma {:induction false} OthersApart(recs: seq<Record>, mem: map<nat, nat>, all: seq<nat>, free: seq<seq<nat>>, big: map<nat, nat>, s: nat)
    requires Intact(recs, mem, all, free) && Apart(recs, all, big) && s in all && s < |recs|
    ensures forall r :: r in all && r != s && r < |recs| ==> PagesApart(recs[r].page, 1, recs[s].page, 1)
  {
    hide FreeList;
    forall r | r in all && r != s && r < |recs|
      ensures PagesApart(recs[r].page, 1, recs[s].page, 1)
    {
      PageAligned(recs, mem, all, free, r);
      PageAligned(recs, mem, all, free, s);
    }
  }

  lemma {:induction false} PageAligned(recs: seq<Record>, mem: map<nat, nat>, all: seq<nat>, free: seq<seq<nat>>, s: nat)
    requires Intact(recs, mem, all, free) && s in all
    ensures s < |recs| && recs[s].page % PAGE_SIZE == 0 && recs[s].page > 0 && recs[s].blktype < NSIZES
  {
  }

  /** Memory that stays the same keeps every free list. */
  lemma {:induction false} OwnMemory(recs: seq<Record>, mem: map<nat, nat>, all: seq<nat>, free: seq<seq<nat>>, mem': map<nat, nat>, s: nat)
    requires Intact(recs, mem, all, free)
    requires forall r, b :: r in all && r != s && b in free[r] ==>
      var x := BlockAddr(recs[r].page, recs[r].blktype, b);
      x in mem ==> x in mem' && mem'[x] == mem[x]
    ensures forall r, k :: r in all && r != s && 0 <= k < |free[r]| ==>
      var x := BlockAddr(recs[r].page, recs[r].blktype, free[r][k]);
      x in mem && x in mem' && mem'[x] == mem[x]
  {
    hide BlockAddr;
    forall r, k | r in all && r != s && 0 <= k < |free[r]|
      ensures BlockAddr(recs[r].page, recs[r].blktype, free[r][k]) in mem
    {
      assert Links(mem, recs[r].page, recs[r].blktype, free[r]);
      assert free[r][k] in free[r];
    }
  }

  lemma {:induction false} ApartUpdate(recs: seq<Record>, all: seq<nat>, big: map<nat, nat>, s: nat, rec: Record)
    requires Apart(recs, all, big) && s < |recs| && rec.page == recs[s].page
    ensures Apart(recs[s := rec], all, big)
  {
  }

  /** Free blocks lie on their own pages, so changes on a page that the heap does not own leave them alone. */
  lemma {:induction false} OutsidePage(recs: seq<Record>, mem: map<nat, nat>, all: seq<nat>, free: seq<seq<nat>>, mem': map<nat, nat>, s: nat, page: nat)
    requires Intact(recs, mem, all, free)
    requires forall r :: r in all && r != s && r < |recs| ==> PagesApart(recs[r].page, 1, page, 1)
    requires forall w :: w in mem && !(page <= w < page + PAGE_SIZE) ==> w in mem' && mem'[w] == mem[w]
    ensures forall r, b :: r in all && r != s && b in free[r] ==>
      var x := BlockAddr(recs[r].page, recs[r].blktype, b);
      x in mem ==> x in mem' && mem'[x] == mem[x]
  {
    hide BlockAddr, NumBlocks, Size, Links;
    forall r, b | r in all && r != s && b in free[r]
      ensures var x := BlockAddr(recs[r].page, recs[r].blktype, b);
        x in mem ==> x in mem' && mem'[x] == mem[x]
    {
      BlockInPage(recs[r].page, recs[r].blktype, b);
      SizePositive(recs[r].blktype);
    }
  }

  lemma {:induction false} NewPagesAligned(recs: seq<Record>, all: seq<nat>, big: map<nat, nat>, page: nat, n: nat)
    requires NewPages(recs, all, big, page, n)
    ensures page > 0 && page % PAGE_SIZE == 0 && n > 0
  {
  }

  // ----- freeing

  /** Overwriting a block that is not free leaves the free list alone. */
  lemma {:induction false} FillKeeps(mem: map<nat, nat>, mem': map<nat, nat>, page: nat, t: nat, offset: nat, nfree: nat, list: seq<nat>, b: nat)
    requires FreeList(mem, page, t, offset, nfree, list) && b < NumBlocks(t) && b !in list
    requires forall w :: w in mem && !(BlockAddr(page, t, b) <= w < BlockAddr(page, t, b) + Size(t)) ==> w in mem' && mem'[w] == mem[w]
    ensures FreeList(mem', page, t, offset, nfree, list)
  {
    hide BlockAddr, NumBlocks, Size;
    forall k | 0 <= k < |list|
      ensures BlockAddr(page, t, list[k]) in mem' && mem'[BlockAddr(page, t, list[k])] == mem[BlockAddr(page, t, list[k])]
    {
      BlockOutside(page, t, b, list[k]);
    }
    OtherMemory(mem, mem', page, t, offset, nfree, list);
  }

  lemma BlockOutside(page: nat, t: nat, b: nat, c: nat)
    requires t < NSIZES && b != c
    ensures !(BlockAddr(page, t, b) <= BlockAddr(page, t, c) < BlockAddr(page, t, b) + Size(t))
  {
    hide BlockAddr, Size;
    SizePositive(t);
    if b < c {
      BlocksApart(page, t, b, c);
    } else {
      BlocksApart(page, t, c, b);
    }
  }

  /** `subpage_kfree` finds the page of a sub-page block, and no page for a whole-page allocation. */
  lemma {:induction false} OnPage(h: Shape, s: nat, a: nat)
    requires Sound(h) && s in h.all && a in h.live
    ensures s < |h.recs| && (h.recs[s].page <= a < h.recs[s].page + PAGE_SIZE <==> a in h.home && h.home[a] == s)
  {
    hide Lists, Intact, Apart, Tiled;
    HomeOrBig(h.recs, h.all, h.free, h.live, h.home, h.big);
    PageAligned(h.recs, h.mem, h.all, h.free, s);
    if a in h.home {
      HomeFacts(h.recs, h.mem, h.all, h.free, h.live, h.home, h.big, a);
      if h.recs[s].page <= a < h.recs[s].page + PAGE_SIZE {
        SamePage(h.recs, h.mem, h.all, h.free, h.live, h.home, h.big, a, s);
      }
    } else {
      PageAndBig(h.recs, h.all, h.big, s, a);
      BigOffPage(h.recs[s].page, a, h.big[a]);
    }
  }

  lemma BigOffPage(page: nat, a: nat, n: nat)
    requires PagesApart(page, 1, a, n) && n > 0
    ensures !(page <= a < page + PAGE_SIZE)
  {
  }

  /** Some block of a page that has fewer free blocks than blocks is not free. */
  lemma {:induction false} Missing(list: seq<nat>, n: nat) returns (b: nat)
    requires |list| < n
    ensures b < n && b !in list
  {
    if n - 1 !in list {
      b := n - 1;
    } else {
      var k :| 0 <= k < |list| && list[k] == n - 1;
      var rest := list[..k] + list[k + 1..];
      b := Missing(rest, n - 1);
      forall i | 0 <= i < |list|
        ensures list[i] != b
      {
        assert i < k ==> list[i] == rest[i];
        assert i > k ==> list[i] == rest[i - 1];
      }
    }
  }

  /** Every heap page but that of record `x` holds a live block. */
  lemma {:induction false} PageIsUsed(h: Shape, x: int, s: nat) returns (a: nat)
    requires Sound(h) && Busy(h, x) && s in h.all && s != x
    ensures a in h.live && a in h.home && h.home[a] == s
  {
    hide Lists, Intact, Apart, Tiled, Size, NumBlocks, BlockAddr, FreeList, Complement;
    SoundRecord(h, s);
    var rec := h.recs[s];
    var b := Missing(h.free[s], NumBlocks(rec.blktype));
    PageComplement(h.recs, h.all, h.free, h.live, h.home, h.big, s);
    NotFree(rec.page, rec.blktype, h.free[s], h.home, s, b);
    a := BlockAddr(rec.page, rec.blktype, b);
    HomeOrBig(h.recs, h.all, h.free, h.live, h.home, h.big);
  }

  // ----- whole pages

  lemma {:induction false} AddBigSound(h: Shape, page: nat, n: nat, size: nat)
    requires Sound(h) && NewPages(h.recs, h.all, h.big, page, n) && size <= n * PAGE_SIZE
    ensures page !in h.live && Sound(h.(live := h.live[page := size], big := h.big[page := n]))
  {
    hide Lists, Intact, Complement, InBlock;
    AddBig(h.recs, h.all, h.big, page, n);
    if page in h.home {
      HomeFacts(h.recs, h.mem, h.all, h.free, h.live, h.home, h.big, page);
      assert false;
    }
  }

  lemma {:induction false} DropBigSound(h: Shape, page: nat)
    requires Sound(h) && page in h.big
    ensures Sound(h.(live := h.live - {page}, big := h.big - {page}))
  {
    hide Lists, Intact, Complement, InBlock;
  }

  // ----- clients

  /** A free block is outside every live allocation. */
  lemma {:induction false} FreeOutside(h: Shape, r: nat, c: nat, a: nat)
    requires Sound(h) && r in h.all && r < |h.recs| == |h.free| && h.recs[r].blktype < NSIZES && c in h.free[r] && a in h.live
    ensures !(a <= BlockAddr(h.recs[r].page, h.recs[r].blktype, c) < a + Extent(h.recs, h.home, h.big, a))
  {
    hide Lists, Intact, Apart, Tiled, Size, NumBlocks, BlockAddr, FreeList;
    HomeOrBig(h.recs, h.all, h.free, h.live, h.home, h.big);
    var rec := h.recs[r];
    PageAligned(h.recs, h.mem, h.all, h.free, r);
    FreeInPage(h, r, c);
    if a in h.big {
      PageAndBig(h.recs, h.all, h.big, r, a);
    } else {
      HomeFacts(h.recs, h.mem, h.all, h.free, h.live, h.home, h.big, a);
      if h.home[a] == r {
        var b := HomeBlock(h.recs, h.mem, h.all, h.free, h.live, h.home, h.big, a);
        BlockOutside(rec.page, rec.blktype, b, c);
      } else {
        PagesDiffer(h.recs, h.all, h.big, r, h.home[a]);
        AlignedApart(rec.page, h.recs[h.home[a]].page);
      }
    }
  }

  lemma {:induction false} FreeInPage(h: Shape, r: nat, c: nat)
    requires Sound(h) && r in h.all && r < |h.recs| == |h.free| && h.recs[r].blktype < NSIZES && c in h.free[r]
    ensures h.recs[r].page <= BlockAddr(h.recs[r].page, h.recs[r].blktype, c) < h.recs[r].page + PAGE_SIZE
  {
    hide Lists, Apart, Tiled, Size, NumBlocks, BlockAddr, Links;
    SizePositive(h.recs[r].blktype);
    BlockInPage(h.recs[r].page, h.recs[r].blktype, c);
  }

  lemma AlignedApart(p: nat, q: nat)
    requires p % PAGE_SIZE == 0 && q % PAGE_SIZE == 0 && p != q
    ensures p + PAGE_SIZE <= q || q + PAGE_SIZE <= p
  {
  }

  /** Writing inside a live allocation keeps the heap consistent. */
  lemma {:induction false} WriteSound(h: Shape, a: nat, w: nat, v: nat)
    requires Sound(h) && a in h.live && a <= w < a + h.live[a]
    ensures Sound(h.(mem := h.mem[w := v]))
  {
    hide Lists, Apart, Tiled, Size, NumBlocks, BlockAddr, FreeList, Extent;
    LiveWellPlaced(h.recs, h.mem, h.all, h.free, h.live, h.home, h.big, a);
    forall r | r in h.all
      ensures FreeList(h.mem[w := v], h.recs[r].page, h.recs[r].blktype, h.recs[r].offset, h.recs[r].nfree, h.free[r])
    {
      WriteOutside(h, a, w, v, r);
    }
  }

  lemma {:induction false} WriteOutside(h: Shape, a: nat, w: nat, v: nat, r: nat)
    requires Sound(h) && a in h.live && a <= w < a + Extent(h.recs, h.home, h.big, a) && r in h.all && r < |h.recs| == |h.free|
    ensures FreeList(h.mem[w := v], h.recs[r].page, h.recs[r].blktype, h.recs[r].offset, h.recs[r].nfree, h.free[r])
  {
    SoundRecord(h, r);
    hide Sound, Size, NumBlocks, BlockAddr, Extent;
    var rec := h.recs[r];
    forall k | 0 <= k < |h.free[r]|
      ensures BlockAddr(rec.page, rec.blktype, h.free[r][k]) != w
    {
      FreeOutside(h, r, h.free[r][k], a);
    }
    OtherMemory(h.mem, h.mem[w := v], rec.page, rec.blktype, rec.offset, rec.nfree, h.free[r]);
  }

  /** The words in `size` bytes from `a` are the same. */
  ghost predicate Kept(mem: map<nat, nat>, mem': map<nat, nat>, a: nat, size: nat) {
    forall w :: a <= w < a + size && w in mem ==> w in mem' && mem'[w] == mem[w]
  }

  /** Allocations stay off pages that the heap does not own. */
  lemma {:induction false} LiveOffNew(h: Shape, page: nat, n: nat, a: nat)
    requires Sound(h) && NewPages(h.recs, h.all, h.big, page, n) && a in h.live
    ensures a + h.live[a] <= page || page + n * PAGE_SIZE <= a
  {
    hide Lists, Intact, Apart, Tiled, Size;
    HomeOrBig(h.recs, h.all, h.free, h.live, h.home, h.big);
    if a in h.big {
      assert PagesApart(a, h.big[a], page, n);
    } else {
      HomeFacts(h.recs, h.mem, h.all, h.free, h.live, h.home, h.big, a);
      assert PagesApart(h.recs[h.home[a]].page, 1, page, n);
    }
  }

  lemma {:induction false} KeptByNewPage(h: Shape, mem': map<nat, nat>, page: nat)
    requires Sound(h) && NewPages(h.recs, h.all, h.big, page, 1)
    requires forall w :: w in h.mem && !(page <= w < page + PAGE_SIZE) ==> w in mem' && mem'[w] == h.mem[w]
    ensures forall a :: a in h.live ==> Kept(h.mem, mem', a, h.live[a])
  {
    hide Sound, NewPages;
    forall a | a in h.live
      ensures Kept(h.mem, mem', a, h.live[a])
    {
      LiveOffNew(h, page, 1, a);
    }
  }

  lemma {:induction false} KeptByFree(h: Shape, mem': map<nat, nat>, ptr: nat)
    requires Sound(h) && ptr in h.live
    requires forall w :: w in h.mem && !(ptr <= w < ptr + Extent(h.recs, h.home, h.big, ptr)) ==> w in mem' && mem'[w] == h.mem[w]
    ensures forall a :: a in h.live && a != ptr ==> Kept(h.mem, mem', a, h.live[a])
  {
    hide Lists, Intact, Apart, Tiled, Extent;
    forall a | a in h.live && a != ptr
      ensures Kept(h.mem, mem', a, h.live[a])
    {
      LiveWellPlaced(h.recs, h.mem, h.all, h.free, h.live, h.home, h.big, a);
      if a < ptr {
        LiveApart(h.recs, h.mem, h.all, h.free, h.live, h.home, h.big, a, ptr);
      } else {
        LiveApart(h.recs, h.mem, h.all, h.free, h.live, h.home, h.big, ptr, a);
      }
    }
  }

  // ----- what a consistent heap is, for its users

  /** Live allocations are pairwise disjoint, large enough, and, below a page, aligned to their block size inside one page. */
  lemma {:induction false} LiveBlocks(h: Shape, a: nat, b: nat)
    requires Sound(h) && a in h.live && b in h.live
    ensures h.live[a] <= Extent(h.recs, h.home, h.big, a)
    ensures a in h.home ==> var n := Extent(h.recs, h.home, h.big, a); n > 0 && a % n == 0 && a % PAGE_SIZE + n <= PAGE_SIZE
    ensures a != b ==> a + Extent(h.recs, h.home, h.big, a) <= b || b + Extent(h.recs, h.home, h.big, b) <= a
  {
    hide Lists, Intact, Apart, Tiled, Extent;
    LiveWellPlaced(h.recs, h.mem, h.all, h.free, h.live, h.home, h.big, a);
    if a < b {
      LiveApart(h.recs, h.mem, h.all, h.free, h.live, h.home, h.big, a, b);
    } else if b < a {
      LiveApart(h.recs, h.mem, h.all, h.free, h.live, h.home, h.big, b, a);
    }
  }

  /**
   * On a heap page the free count is the length of the free list, which repeats no block, the offset is the invalid one
   * exactly when the list is empty, and a block is either on the list or live.
   */
  lemma {:induction false} PageLayout(h: Shape, s: nat, b: nat)
    requires Sound(h) && s in h.all && s < |h.recs| == |h.free| && h.recs[s].blktype < NSIZES && b < NumBlocks(h.recs[s].blktype)
    ensures h.recs[s].nfree == |h.free[s]| && Distinct(h.free[s])
    ensures h.recs[s].offset == INVALID_OFFSET <==> h.recs[s].nfree == 0
    ensures var a := BlockAddr(h.recs[s].page, h.recs[s].blktype, b);
      b !in h.free[s] <==> a in h.live && a in h.home && h.home[a] == s
  {
    SoundRecord(h, s);
    hide Lists, Intact, Apart, Tiled, Complement, NumBlocks, Size, BlockAddr, Links;
    var rec := h.recs[s];
    PageComplement(h.recs, h.all, h.free, h.live, h.home, h.big, s);
    HomeOrBig(h.recs, h.all, h.free, h.live, h.home, h.big);
    ComplementAt(rec.page, rec.blktype, h.free[s], h.home, s, b);
    if |h.free[s]| > 0 {
      FreeNumber(h.mem, rec.page, rec.blktype, rec.offset, rec.nfree, h.free[s]);
      SizePositive(rec.blktype);
      BlockInPage(rec.page, rec.blktype, h.free[s][0]);
    }
  }

  lemma {:induction false} ComplementAt(page: nat, t: nat, list: seq<nat>, home: map<nat, nat>, s: nat, b: nat)
    requires Complement(page, t, list, home, s) && b < NumBlocks(t)
    ensures b !in list <==> BlockAddr(page, t, b) in home && home[BlockAddr(page, t, b)] == s
  {
  }

  /** A page record is on the list of its own block size and on no other. */
  lemma {:induction false} OwnListOnly(h: Shape, s: nat, t: nat)
    requires Sound(h) && s in h.all && t < NSIZES
    ensures s < |h.recs| && |h.same| == NSIZES && (s in h.same[t] <==> h.recs[s].blktype == t)
  {
    hide Intact, Apart, Tiled, Threaded;
    SoundRecord(h, s);
    assert OfType(h.recs, h.all, h.same[t], t);
  }

  /** A live block is its page's only one exactly when all other blocks of the page are free. */
  lemma {:induction false} OnlyBlock(h: Shape, ptr: nat)
    requires Sound(h) && ptr in h.home
    ensures h.home[ptr] in h.all && h.home[ptr] < |h.recs| && h.recs[h.home[ptr]].blktype < NSIZES
    ensures (forall a :: a in h.home && a != ptr ==> h.home[a] != h.home[ptr]) <==>
      h.recs[h.home[ptr]].nfree + 1 == NumBlocks(h.recs[h.home[ptr]].blktype)
  {
    hide Lists, Apart, Intact, Tiled, Size, NumBlocks, BlockAddr, FreeList, Complement;
    var s := h.home[ptr];
    var b := HomeBlock(h.recs, h.mem, h.all, h.free, h.live, h.home, h.big, ptr);
    SoundRecord(h, s);
    var rec := h.recs[s];
    var n, list := NumBlocks(rec.blktype), h.free[s];
    PageComplement(h.recs, h.all, h.free, h.live, h.home, h.big, s);
    FreeNumbers(h.mem, rec.page, rec.blktype, rec.offset, rec.nfree, list);
    var more := [b] + list;
    DistinctBound(more, n);
    if |more| < n {
      var c := Missing(more, n);
      assert c != b && c !in list by {
        assert more[0] == b;
        assert forall k :: 0 <= k < |list| ==> more[k + 1] == list[k];
      }
      ComplementAt(rec.page, rec.blktype, list, h.home, s, c);
      DifferentBlocks(rec.page, rec.blktype, b, c);
      var a := BlockAddr(rec.page, rec.blktype, c);
      assert a in h.home && a != ptr && h.home[a] == h.home[ptr];
    } else {
      forall a | a in h.home && h.home[a] == s
        ensures a == ptr
      {
        var c := HomeBlock(h.recs, h.mem, h.all, h.free, h.live, h.home, h.big, a);
        DistinctFull(more, n, c);
      }
    }
  }

  lemma {:induction false} FreeNumbers(mem: map<nat, nat>, page: nat, t: nat, offset: nat, nfree: nat, list: seq<nat>)
    requires FreeList(mem, page, t, offset, nfree, list)
    ensures t < NSIZES && Distinct(list) && nfree == |list| && forall k :: 0 <= k < |list| ==> list[k] < NumBlocks(t)
  {
  }
}
