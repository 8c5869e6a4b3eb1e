/** The kernel heap: `kmalloc`, `kfree` and the sub-page allocator under them. */
module KHeap {
  import opened HeapBlocks
  import opened HeapState
  import opened PageRefPool
  import opened Words

  /** `blocktype`: the smallest block that a request fits in. */
  method BlockType(clientsz: nat) returns (t: nat)
    requires clientsz <= LARGEST_SUBPAGE_SIZE
    ensures BestFit(clientsz, t)
  {
    assert Size(7) == LARGEST_SUBPAGE_SIZE;
    t := 0;
    while t < NSIZES
      invariant 0 <= t <= NSIZES
      invariant forall u :: 0 <= u < t ==> Size(u) < clientsz
    {
      if clientsz <= Size(t) {
        return;
      }
      t := t + 1;
    }
    assert false;
  }

  /** `fill_deadbeef`: overwrite a block, word by word. */
  method FillDeadbeef(mem: map<nat, nat>, addr: nat, len: nat) returns (mem': map<nat, nat>)
    ensures SameOutside(mem, mem', addr, len)
    ensures forall i :: 0 <= i < len / 4 ==> addr + 4 * i in mem' && mem'[addr + 4 * i] == 0xdeadbeef
  {
    mem' := mem;
    var i := 0;
    while i < len / 4
      invariant 0 <= i <= len / 4
      invariant forall j :: 0 <= j < i ==> addr + 4 * j in mem' && mem'[addr + 4 * j] == 0xdeadbeef
      invariant SameOutside(mem, mem', addr, len)
    {
      mem' := mem'[addr + 4 * i := 0xdeadbeef];
      i := i + 1;
    }
  }

  /** Words outside a stretch of memory are unchanged. */
  ghost predicate SameOutside(mem: map<nat, nat>, mem': map<nat, nat>, addr: nat, len: nat) {
    forall w :: w in mem && !(addr <= w < addr + len) ==> w in mem' && mem'[w] == mem[w]
  }

  /** The block holds nothing of what it held, behind the word that links it. */
  ghost predicate Overwritten(mem: map<nat, nat>, addr: nat, len: nat) {
    forall i :: 0 < i < len / 4 ==> addr + 4 * i in mem && mem[addr + 4 * i] == 0xdeadbeef
  }

  lemma {:induction false} LinkedBeef(mem: map<nat, nat>, mem': map<nat, nat>, addr: nat, len: nat, next: nat)
    requires len > 0 && SameOutside(mem, mem', addr, len)
    requires forall i :: 0 <= i < len / 4 ==> addr + 4 * i in mem' && mem'[addr + 4 * i] == 0xdeadbeef
    ensures Overwritten(mem'[addr := next], addr, len) && SameOutside(mem, mem'[addr := next], addr, len)
  {
  }

  /** The free list of a fresh page: every block, the last one first. */
  ghost function Down(n: nat): seq<nat> {
    seq(n, k requires 0 <= k < n => n - 1 - k)
  }

  /** Threading the free list through a fresh page. */
  method ThreadPage(mem: map<nat, nat>, page: nat, t: nat) returns (mem': map<nat, nat>, offset: nat)
    requires t < NSIZES && page > 0 && page % PAGE_SIZE == 0
    ensures FreeList(mem', page, t, offset, NumBlocks(t), Down(NumBlocks(t)))
    ensures forall w :: w in mem && !(page <= w < page + PAGE_SIZE) ==> w in mem' && mem'[w] == mem[w]
    ensures forall b: nat :: b < NumBlocks(t) ==> b in Down(NumBlocks(t))
  {
    hide BlockAddr, Links, NumBlocks, Size, Down, FreeList;
    var fl := BlockAddr(page, t, 0);
    SomeBlocks(t);
    FirstLink(mem, page, t);
    mem' := mem[fl := 0];
    var i := 1;
    while i < NumBlocks(t)
      invariant 1 <= i <= NumBlocks(t) && fl == BlockAddr(page, t, i - 1)
      invariant Links(mem', page, t, Down(i))
      invariant forall w :: w in mem && !(page <= w < page + PAGE_SIZE) ==> w in mem' && mem'[w] == mem[w]
    {
      NextLink(mem', page, t, i);
      fl := BlockAddr(page, t, i);
      mem' := mem'[fl := BlockAddr(page, t, i - 1)];
      i := i + 1;
    }
    FullPage(mem', page, t);
    offset := fl - page;
    forall b: nat | b < NumBlocks(t)
      ensures b in Down(NumBlocks(t))
    {
      DownHas(NumBlocks(t), b);
    }
  }

  lemma {:induction false} DownHas(n: nat, b: nat)
    requires b < n
    ensures b in Down(n)
  {
    assert Down(n)[n - 1 - b] == b;
  }

  lemma {:induction false} FirstLink(mem: map<nat, nat>, page: nat, t: nat)
    requires t < NSIZES
    ensures Links(mem[BlockAddr(page, t, 0) := 0], page, t, Down(1))
    ensures page <= BlockAddr(page, t, 0) < page + PAGE_SIZE
  {
    hide BlockAddr, Links, Size;
    NoLinks(mem, page, t);
    PushLinks(mem, page, t, [], 0, 0);
    assert Down(1) == [0] + [];
    SizePositive(t);
    BlockInPage(page, t, 0);
  }

  /** Linking block `i` in front of the blocks below it. */
  lemma {:induction false} NextLink(mem: map<nat, nat>, page: nat, t: nat, i: nat)
    requires t < NSIZES && 0 < i < NumBlocks(t) && Links(mem, page, t, Down(i))
    ensures Links(mem[BlockAddr(page, t, i) := BlockAddr(page, t, i - 1)], page, t, Down(i + 1))
    ensures page <= BlockAddr(page, t, i) < page + PAGE_SIZE
  {
    hide BlockAddr, Links, Size, NumBlocks;
    PushLinks(mem, page, t, Down(i), i, BlockAddr(page, t, i - 1));
    assert Down(i + 1) == [i] + Down(i);
    SizePositive(t);
    BlockInPage(page, t, i);
  }

  lemma {:induction false} FullPage(mem: map<nat, nat>, page: nat, t: nat)
    requires t < NSIZES && page > 0 && page % PAGE_SIZE == 0 && Links(mem, page, t, Down(NumBlocks(t)))
    ensures BlockAddr(page, t, NumBlocks(t) - 1) >= page
    ensures FreeList(mem, page, t, BlockAddr(page, t, NumBlocks(t) - 1) - page, NumBlocks(t), Down(NumBlocks(t)))
  {
    hide BlockAddr, Links, Size, NumBlocks;
    SomeBlocks(t);
    BlockInPage(page, t, NumBlocks(t) - 1);
  }

  lemma SomeBlocks(t: nat)
    requires t < NSIZES
    ensures 2 <= NumBlocks(t)
  {
  }

  lemma NoLinks(mem: map<nat, nat>, page: nat, t: nat)
    requires t < NSIZES
    ensures Links(mem, page, t, [])
  {
  }

  /** One half of `remove_lists`: walk a list of records and unlink one of them. */
  method Unlink(next: seq<int>, base: int, s: nat, ghost list: seq<nat>) returns (next': seq<int>, base': int, ghost k: nat)
    requires Threaded(next, base, list) && s in list
    ensures k < |list| && list[k] == s && |next'| == |next|
    ensures Threaded(next', base', Without(list, k))
    ensures forall x :: 0 <= x < |next| && x !in list ==> next'[x] == next[x]
  {
    next', base' := next, base;
    var prev, cur := NULL, base;
    k := 0;
    while cur != NULL
      invariant 0 <= k <= |list| && s !in list[..k]
      invariant cur == if k < |list| then list[k] else NULL
      invariant prev == if k > 0 then list[k - 1] else NULL
      decreases |list| - k
    {
      if cur == s {
        ThreadUnlink(next, base, list, k);
        if prev == NULL {
          base' := next[s];
        } else {
          next' := next[prev := next[s]];
        }
        return;
      }
      assert next[list[k]] == if k + 1 < |list| then list[k + 1] else NULL;
      prev, cur := cur, next[cur];
      k := k + 1;
    }
    assert false;
  }

  /** How a section of `subpage_kmalloc` that has a fresh page ends. */
  datatype Refill =
    | Full                         // no record left
    | NeedPage(s: nat)             // a record is marked, and the page that it is on has to be obtained
    | Again                        // another thread obtained that page; the second one goes back
    | Failed                       // no page for the record, which stays marked
    | Block(s: nat, ptr: nat)      // done

  /** Every record in use is on the lists, with a page of records under it, or in a thread's hands, or lost. */
  ghost predicate Records(roots: seq<Root>, all: seq<nat>, reserved: set<nat>, lost: set<nat>) {
    && RootsOk(roots)
    && (forall s: nat :: InUse(roots, s) <==> s in all || s in reserved || s in lost)
    && (forall s :: s in reserved ==> s !in all && s !in lost)
    && (forall s :: s in lost ==> s !in all)
    && forall s :: s in all ==> HasPage(roots, s)
  }

  lemma {:induction false} RecordsRoots(roots: seq<Root>, all: seq<nat>, reserved: set<nat>, lost: set<nat>)
    requires Records(roots, all, reserved, lost)
    ensures RootsOk(roots)
  {
  }

  lemma {:induction false} ReservedRecord(roots: seq<Root>, all: seq<nat>, reserved: set<nat>, lost: set<nat>, s: nat)
    requires Records(roots, all, reserved, lost) && s in reserved
    ensures RootsOk(roots) && InUse(roots, s) && s < TOTAL_PAGEREFS && s !in all && s !in lost
    ensures HasPage(roots, s) <==> roots[s / NPAGEREFS_PER_PAGE].page != 0
  {
    assert InUse(roots, s);
  }

  lemma {:induction false} ReserveRecord(roots: seq<Root>, roots': seq<Root>, all: seq<nat>, reserved: set<nat>, lost: set<nat>, r: nat)
    requires Records(roots, all, reserved, lost) && !InUse(roots, r) && RootsOk(roots')
    requires SameRootPages(roots, roots')
    requires forall s :: InUse(roots', s) <==> s == r || InUse(roots, s)
    ensures Records(roots', all, reserved + {r}, lost) && r !in reserved && r !in all && r !in lost
  {
  }

  lemma {:induction false} LinkRecord(roots: seq<Root>, all: seq<nat>, reserved: set<nat>, lost: set<nat>, s: nat)
    requires Records(roots, all, reserved, lost) && s in reserved && HasPage(roots, s)
    ensures Records(roots, [s] + all, reserved - {s}, lost)
  {
  }

  lemma {:induction false} UnlinkRecord(roots: seq<Root>, all: seq<nat>, all': seq<nat>, reserved: set<nat>, lost: set<nat>, s: nat)
    requires Records(roots, all, reserved, lost) && s in all && forall x :: x in all' <==> x in all && x != s
    ensures Records(roots, all', reserved + {s}, lost) && s !in reserved && HasPage(roots, s)
  {
  }

  lemma {:induction false} ReleaseRecord(roots: seq<Root>, roots': seq<Root>, all: seq<nat>, reserved: set<nat>, lost: set<nat>, s: nat)
    requires Records(roots, all, reserved, lost) && s in reserved && RootsOk(roots')
    requires SameRootPages(roots, roots')
    requires forall r :: InUse(roots', r) <==> r != s && InUse(roots, r)
    ensures Records(roots', all, reserved - {s}, lost)
  {
  }

  lemma {:induction false} LoseRecord(roots: seq<Root>, all: seq<nat>, reserved: set<nat>, lost: set<nat>, s: nat)
    requires Records(roots, all, reserved, lost) && s in reserved
    ensures Records(roots, all, reserved - {s}, lost + {s})
  {
  }

  /** The root of record `s` has got the page `va`. */
  ghost predicate PageAdded(roots: seq<Root>, roots': seq<Root>, s: nat, va: nat) {
    var w := s / NPAGEREFS_PER_PAGE;
    w < |roots| && roots[w].page == 0 && roots' == roots[w := roots[w].(page := va)]
  }

  lemma {:induction false} RootRecord(roots: seq<Root>, roots': seq<Root>, all: seq<nat>, reserved: set<nat>, lost: set<nat>, s: nat, va: nat)
    requires Records(roots, all, reserved, lost) && PageAdded(roots, roots', s, va) && va != 0 && s in reserved && RootsOk(roots')
    requires forall r :: InUse(roots', r) <==> InUse(roots, r)
    ensures Records(roots', all, reserved, lost) && HasPage(roots', s)
  {
    assert InUse(roots, s);
  }

  lemma {:induction false} PoolPagesSame(roots: seq<Root>, roots': seq<Root>)
    requires SameRootPages(roots, roots')
    ensures PoolPages(roots') == PoolPages(roots)
  {
  }

  lemma {:induction false} SamePages(roots: seq<Root>, roots': seq<Root>, s: nat)
    requires SameRootPages(roots, roots')
    ensures HasPage(roots', s) <==> HasPage(roots, s)
  {
  }

  ghost predicate AllInUse(roots: seq<Root>) {
    forall s :: 0 <= s < TOTAL_PAGEREFS ==> InUse(roots, s)
  }

  /** There is one first record that is not in use. */
  lemma {:induction false} OneFirstFree(roots: seq<Root>, s: nat)
    requires IsFirstFree(roots, s) && s < TOTAL_PAGEREFS
    ensures !AllInUse(roots) && forall r: nat :: IsFirstFree(roots, r) ==> r == s
  {
  }

  /** No record can be had: all are in use, or the first free one is on a page that does not exist and cannot be obtained. */
  ghost predicate NoRecord(roots: seq<Root>, va: nat) {
    AllInUse(roots) || (va == 0 && exists s: nat :: s < TOTAL_PAGEREFS && IsFirstFree(roots, s) && !HasPage(roots, s))
  }

  lemma {:induction false} NeedsPage(roots: seq<Root>, s: nat, va: nat)
    requires s < TOTAL_PAGEREFS && IsFirstFree(roots, s) && !HasPage(roots, s)
    ensures NoRecord(roots, va) <==> va == 0
  {
  }

  lemma {:induction false} NeedsNone(roots: seq<Root>, va: nat)
    requires !exists s :: IsFirstFree(roots, s) && 0 <= s < TOTAL_PAGEREFS && !HasPage(roots, s)
    ensures NoRecord(roots, va) <==> AllInUse(roots)
  {
  }

  lemma {:induction false} MorePages(roots: seq<Root>, roots': seq<Root>, s: nat, va: nat)
    requires roots' == roots || PageAdded(roots, roots', s, va)
    ensures PoolPages(roots) <= PoolPages(roots')
  {
    if PageAdded(roots, roots', s, va) {
      forall p | p in PoolPages(roots)
        ensures p in PoolPages(roots')
      {
        var w :| 0 <= w < |roots| && roots[w].page != 0 && roots[w].page == p;
        assert roots'[w].page == p;
      }
    }
  }

  /** Every page on a list of one block size is full. */
  ghost predicate NoRoom(recs: seq<Record>, list: seq<nat>) {
    forall r :: r in list ==> r < |recs| && recs[r].nfree == 0
  }

  /** The smallest block size that a request fits in. */
  ghost predicate BestFit(sz: nat, t: nat) {
    t < NSIZES && sz <= Size(t) && forall u :: 0 <= u < t ==> Size(u) < sz
  }

  lemma {:induction false} OneBestFit(sz: nat, t: nat)
    requires BestFit(sz, t)
    ensures forall u: nat :: BestFit(sz, u) ==> u == t
  {
    hide Size;
  }

  /** A fresh page has gone into the heap under record `s`, and one block of it is live. */
  ghost predicate Used(h: Shape, h': Shape, s: nat, sz: nat, page: nat, ptr: nat) {
    && ptr != 0 && ptr !in h.live && h'.live == h.live[ptr := sz] && ptr in h'.home && h'.home == h.home[ptr := s]
    && s !in h.all && h'.all == [s] + h.all
    && s < |h'.recs| == |h.recs| && h'.recs == h.recs[s := h'.recs[s]] && h'.recs[s].page == page
    && h'.big == h.big
    && forall w :: w in h.mem && !(page <= w < page + PAGE_SIZE) ==> w in h'.mem && h'.mem[w] == h.mem[w]
  }

  lemma {:induction false} UsedMeans(h: Shape, h': Shape, sz: nat, page: nat, r: Refill)
    requires r.Block? ==> Used(h, h', r.s, sz, page, r.ptr)
    ensures r.Block? ==> r.ptr != 0 && r.ptr !in h.live && h'.live == h.live[r.ptr := sz] && r.ptr in h'.home && h'.big == h.big
  {
  }

  /** No other block of the page that `ptr` is on is live. */
  ghost predicate IsLastBlock(h: Shape, ptr: nat) {
    ptr in h.home && forall a :: a in h.home && a != ptr ==> h.home[a] != h.home[ptr]
  }

  lemma {:induction false} LastBlockIs(h: Shape, ptr: nat)
    requires Sound(h) && ptr in h.home
    ensures h.home[ptr] in h.all && h.home[ptr] < |h.recs| && h.recs[h.home[ptr]].blktype < NSIZES
    ensures IsLastBlock(h, ptr) <==> h.recs[h.home[ptr]].nfree + 1 == NumBlocks(h.recs[h.home[ptr]].blktype)
  {
    hide Sound, NumBlocks;
    OnlyBlock(h, ptr);
  }

  class Heap {
    const pool: Pool
    var recs: seq<Record>
    var nextAll: seq<int>
    var nextSame: seq<int>
    var sizebases: seq<int>
    var allbase: int
    var mem: map<nat, nat>
    /** The two kinds of lists of page records, and each page's free list. */
    ghost var all: seq<nat>
    ghost var same: seq<seq<nat>>
    ghost var free: seq<seq<nat>>
    /** The heap's meaning: live addresses and the sizes asked for, the sub-page ones' records, whole-page ones' page counts. */
    ghost var live: map<nat, nat>
    ghost var home: map<nat, nat>
    ghost var big: map<nat, nat>
    /** Records that a thread has marked and not yet put to use, and records marked for good because there was no page for them. */
    ghost var reserved: set<nat>
    ghost var lost: set<nat>

    ghost function Sh(): Shape
      reads this
    {
      Shape(recs, nextAll, allbase, nextSame, sizebases, mem, all, same, free, live, home, big)
    }

    /** Consistent, except that record `x` may have no live block. */
    ghost predicate Almost(x: int)
      reads this, pool
    {
      && Records(pool.roots, all, reserved, lost)
      && |recs| == TOTAL_PAGEREFS
      && Sound(Sh())
      && Busy(Sh(), x)
    }

    ghost predicate Valid()
      reads this, pool
    {
      Almost(NULL)
    }

    constructor ()
      ensures Valid() && fresh(pool)
      ensures live == map[] && all == [] && reserved == lost == {} && forall w :: 0 <= w < |pool.roots| ==> pool.roots[w].page == 0
    {
      pool := new Pool();
      recs := seq(TOTAL_PAGEREFS, _ => Record(0, 0, 0, 0));
      nextAll := seq(TOTAL_PAGEREFS, _ => NULL);
      nextSame := seq(TOTAL_PAGEREFS, _ => NULL);
      sizebases := seq(NSIZES, _ => NULL);
      allbase := NULL;
      mem := map[];
      all := [];
      same := seq(NSIZES, _ => []);
      free := seq(TOTAL_PAGEREFS, _ => []);
      live, home, big := map[], map[], map[];
      reserved, lost := {}, {};
    }

    /** The block-taking tail of `subpage_kmalloc`. */
    method TakeBlock(s: nat, size: nat) returns (ptr: nat)
      requires Almost(s) && s in all && s < |recs| && recs[s].nfree > 0
      requires recs[s].blktype < NSIZES && size <= Size(recs[s].blktype)
      modifies this`recs, this`free, this`live, this`home
      ensures Valid() && ptr > 0 && ptr !in old(live)
      ensures live == old(live)[ptr := size] && home == old(home)[ptr := s]
      ensures recs == old(recs)[s := recs[s]] && recs[s].page == old(recs[s]).page && recs[s].blktype == old(recs[s]).blktype
      ensures recs[s].nfree == old(recs[s]).nfree - 1
    {
      hide FreeList, Sound, Size, NumBlocks, BlockAddr, Records;
      ghost var h := Sh();
      SoundRecord(h, s);
      var rec := recs[s];
      PopBlock(mem, rec.page, rec.blktype, rec.offset, rec.nfree, free[s]);
      ptr := rec.page + rec.offset;
      var fl := mem[ptr];
      var nfree := rec.nfree - 1;
      var offset := if fl != 0 then fl - rec.page else INVALID_OFFSET;
      var rec' := rec.(nfree := nfree, offset := offset);
      TakeSound(h, s, rec', size);
      recs := recs[s := rec'];
      free, live, home := free[s := free[s][1..]], live[ptr := size], home[ptr := s];
      assert Sh() == Taken(h, s, rec', size);
    }

    /** Filling in the record of a fresh page and threading its free list. */
    method PreparePage(s: nat, t: nat, page: nat)
      requires Valid() && s in reserved && t < NSIZES && NewPages(recs, all, big, page, 1)
      modifies this`recs, this`mem, this`free
      ensures Valid() && s < TOTAL_PAGEREFS && Fresh(Sh(), s)
      ensures recs == old(recs)[s := recs[s]] && recs[s].page == page && recs[s].blktype == t && recs[s].nfree == NumBlocks(t)
      ensures forall w :: w in old(mem) && !(page <= w < page + PAGE_SIZE) ==> w in mem && mem[w] == old(mem)[w]
    {
      hide FreeList, Sound, Size, NumBlocks, BlockAddr, Down, NewPages, Records;
      ghost var h := Sh();
      SoundLengths(h);
      ReservedRecord(pool.roots, all, reserved, lost, s);
      NewPagesAligned(recs, all, big, page, 1);
      var mem', offset := ThreadPage(mem, page, t);
      var rec := Record(page, t, offset, NumBlocks(t));
      ghost var list := Down(NumBlocks(t));
      PrepareSound(h, s, rec, mem', list);
      mem, recs, free := mem', recs[s := rec], free[s := list];
      assert Sh() == Prepared(h, s, rec, mem', list);
    }

    /** Putting it on both lists. */
    method LinkPage(s: nat)
      requires Valid() && s in reserved && HasPage(pool.roots, s) && Fresh(Sh(), s)
      modifies this`nextAll, this`allbase, this`nextSame, this`sizebases, this`all, this`same, this`reserved
      ensures Almost(s) && all == [s] + old(all) && reserved == old(reserved) - {s}
    {
      hide FreeList, NumBlocks, NewPages, Sound, Records;
      LinkRecord(pool.roots, all, reserved, lost, s);
      ghost var h := Sh();
      SoundLengths(h);
      LinkSound(h, s);
      var t := recs[s].blktype;
      nextSame, sizebases := nextSame[s := sizebases[t]], sizebases[t := s];
      nextAll, allbase := nextAll[s := allbase], s;
      all, same, reserved := [s] + all, same[t := [s] + same[t]], reserved - {s};
      assert Sh() == LinkedIn(h, s);
    }

    /** The search of `subpage_kmalloc` for a page of the right block size that has room. */
    method FindRoom(t: nat) returns (s: int)
      requires Valid() && t < NSIZES
      ensures s == NULL ==> NoRoom(recs, same[t])
      ensures s != NULL ==> 0 <= s < |recs| && s in same[t] && s in all && recs[s].blktype == t && recs[s].nfree > 0
    {
      hide Records;
      ghost var list := same[t];
      assert Threaded(nextSame, sizebases[t], list) && OfType(recs, all, list, t);
      s := sizebases[t];
      ghost var k := 0;
      while s != NULL
        invariant 0 <= k <= |list|
        invariant s == if k < |list| then list[k] else NULL
        invariant forall j :: 0 <= j < k ==> list[j] < |recs| && recs[list[j]].nfree == 0
        decreases |list| - k
      {
        assert list[k] in list;
        if recs[s].nfree > 0 {
          return;
        }
        assert nextSame[list[k]] == if k + 1 < |list| then list[k + 1] else NULL;
        s := nextSame[s];
        k := k + 1;
      }
    }

    /** The first critical section of `subpage_kmalloc`: take a block from a page that has room. */
    method TryBlock(t: nat, sz: nat) returns (ptr: nat)
      requires Valid() && t < NSIZES && sz <= Size(t)
      modifies this`recs, this`free, this`live, this`home
      ensures Valid()
      ensures ptr == 0 <==> NoRoom(old(recs), old(same)[t])
      ensures ptr == 0 ==> Sh() == old(Sh())
      ensures ptr != 0 ==> ptr !in old(live) && live == old(live)[ptr := sz]
      ensures ptr != 0 ==> ptr in home && home == old(home)[ptr := home[ptr]] && Recorded(old(recs), recs)
    {
      hide Sound, Size, NumBlocks, Records;
      var s := FindRoom(t);
      if s == NULL {
        return 0;
      }
      ptr := TakeBlock(s, sz);
    }

    /** The end of `subpage_kmalloc`: a fresh page goes into the heap under record `s`, and a block is taken from it. */
    method UseRecord(s: nat, t: nat, sz: nat, page: nat) returns (ptr: nat)
      requires Valid() && s in reserved && HasPage(pool.roots, s) && t < NSIZES && sz <= Size(t) && NewPages(recs, all, big, page, 1)
      modifies this
      ensures Valid() && Used(old(Sh()), Sh(), s, sz, page, ptr)
      ensures reserved == old(reserved) - {s} && lost == old(lost)
    {
      hide Sound, Size, NumBlocks, NewPages, FreeList, Records;
      ReservedRecord(pool.roots, all, reserved, lost, s);
      PreparePage(s, t, page);
      LinkPage(s);
      SomeBlocks(t);
      ptr := TakeBlock(s, sz);
    }

    /**
     * The second critical section of `subpage_kmalloc`, for which the thread comes with a fresh page.  Other threads may
     * have changed the heap in between, so this starts from any consistent state.  It marks a record; if the page that the
     * record would be on does not exist yet, the section ends there.
     */
    method BeginRefill(t: nat, sz: nat, page: nat) returns (r: Refill)
      requires Valid() && t < NSIZES && sz <= Size(t) && NewPages(recs, all, big, page, 1)
      modifies this, pool
      ensures Valid() && lost == old(lost) && SameRootPages(old(pool.roots), pool.roots)
      ensures r.Full? || r.NeedPage? || r.Block?
      ensures r.Full? <==> AllInUse(old(pool.roots))
      ensures r.NeedPage? <==> exists s :: IsFirstFree(old(pool.roots), s) && 0 <= s < TOTAL_PAGEREFS && !HasPage(old(pool.roots), s)
      ensures r.Full? ==> Sh() == old(Sh()) && reserved == old(reserved)
      ensures r.NeedPage? ==> Sh() == old(Sh()) && r.s !in old(reserved) && reserved == old(reserved) + {r.s} && IsFirstFree(old(pool.roots), r.s)
      ensures r.NeedPage? ==> r.s < TOTAL_PAGEREFS && !HasPage(old(pool.roots), r.s) && !HasPage(pool.roots, r.s)
      ensures r.NeedPage? ==> forall x :: InUse(pool.roots, x) <==> x == r.s || InUse(old(pool.roots), x)
      ensures r.Block? ==> Used(old(Sh()), Sh(), r.s, sz, page, r.ptr) && reserved == old(reserved) && IsFirstFree(old(pool.roots), r.s)
    {
      hide Sound, Size, NewPages, Records, Used, Busy;
      ghost var roots := pool.roots;
      RecordsRoots(roots, all, reserved, lost);
      var s := pool.Reserve();
      if s == -1 {
        return Full;
      }
      OneFirstFree(roots, s);
      ReserveRecord(roots, pool.roots, all, reserved, lost, s);
      SamePages(roots, pool.roots, s);
      reserved := reserved + {s};
      if pool.roots[s / NPAGEREFS_PER_PAGE].page == 0 {
        return NeedPage(s);
      }
      var ptr := UseRecord(s, t, sz, page);
      r := Block(s, ptr);
    }

    /**
     * The section after `allocpagerefpage` has called `alloc_kpages` without the lock and got `va`, which may be 0.
     * Meanwhile another thread may have got the page for the same root.
     */
    method ObtainPage(s: nat, t: nat, sz: nat, page: nat, va: nat) returns (r: Refill)
      requires Valid() && s in reserved && t < NSIZES && sz <= Size(t) && NewPages(recs, all, big, page, 1)
      modifies this, pool
      ensures Valid()
      ensures r.Block? || r.Failed? || r.Again?
      ensures r.Failed? <==> va == 0 && !HasPage(old(pool.roots), s)
      ensures r.Again? <==> va != 0 && HasPage(old(pool.roots), s)
      ensures r.Failed? ==> Sh() == old(Sh()) && reserved == old(reserved) - {s} && lost == old(lost) + {s}
      ensures r.Again? ==> Sh() == old(Sh()) && reserved == old(reserved) && lost == old(lost)
      ensures r.Block? ==> r.s == s && Used(old(Sh()), Sh(), s, sz, page, r.ptr) && reserved == old(reserved) - {s} && lost == old(lost)
      ensures !r.Block? || va == 0 ==> pool.roots == old(pool.roots)
      ensures r.Block? && va != 0 ==> PageAdded(old(pool.roots), pool.roots, s, va)
    {
      hide Sound, Size, NewPages, Records, Used, Busy;
      ReservedRecord(pool.roots, all, reserved, lost, s);
      if pool.roots[s / NPAGEREFS_PER_PAGE].page == 0 {
        if va == 0 {
          LoseRecord(pool.roots, all, reserved, lost, s);
          reserved, lost := reserved - {s}, lost + {s};
          return Failed;
        }
        ghost var roots := pool.roots;
        pool.SetPage(s, va);
        RootRecord(roots, pool.roots, all, reserved, lost, s, va);
      } else if va != 0 {
        return Again;
      }
      var ptr := UseRecord(s, t, sz, page);
      r := Block(s, ptr);
    }

    /**
     * `subpage_kmalloc` without other threads in between.  `page` and `va` are what `alloc_kpages(1)` returns when it is
     * called for a heap page and for a page of records: 0, or a page that the heap does not own.
     */
    method SubpageKmalloc(sz: nat, page: nat, va: nat) returns (ptr: nat, ghost r: Refill)
      requires Valid() && sz <= LARGEST_SUBPAGE_SIZE
      requires page != 0 ==> NewPages(recs, all, big, page, 1)
      modifies this, pool
      ensures Valid() && big == old(big)
      ensures forall t: nat :: BestFit(sz, t) ==>
        (ptr == 0 <==> NoRoom(old(recs), old(same)[t]) && (page == 0 || NoRecord(old(pool.roots), va)))
      ensures ptr == 0 ==> Sh() == old(Sh())
      ensures ptr != 0 ==> ptr !in old(live) && live == old(live)[ptr := sz] && ptr in home
      ensures r.Block? ==> page != 0 && Used(old(Sh()), Sh(), r.s, sz, page, ptr)
      ensures !r.Block? ==> all == old(all) && mem == old(mem)
      ensures PoolPages(old(pool.roots)) <= PoolPages(pool.roots)
    {
      hide Sound, NumBlocks, Size, NewPages, Records, Busy, NoRecord, NoRoom, Used;
      var t := BlockType(sz);
      OneBestFit(sz, t);
      hide BestFit;
      r := Full;
      ptr := TryBlock(t, sz);
      if ptr == 0 && page != 0 {
        var b := RefillAlone(t, sz, page, va);
        r := b;
        UsedMeans(old(Sh()), Sh(), sz, page, b);
        ptr := if b.Block? then b.ptr else 0;
      }
    }

    /** The sections after the first one, without other threads in between. */
    method RefillAlone(t: nat, sz: nat, page: nat, va: nat) returns (r: Refill)
      requires Valid() && t < NSIZES && sz <= Size(t) && NewPages(recs, all, big, page, 1)
      modifies this, pool
      ensures Valid() && PoolPages(old(pool.roots)) <= PoolPages(pool.roots)
      ensures r.Block? <==> !NoRecord(old(pool.roots), va)
      ensures r.Block? ==> Used(old(Sh()), Sh(), r.s, sz, page, r.ptr)
      ensures !r.Block? ==> Sh() == old(Sh())
    {
      hide Sound, NumBlocks, Size, NewPages, Records, Busy, Used;
      ghost var roots := pool.roots;
      r := BeginRefill(t, sz, page);
      if r.NeedPage? {
        NeedsPage(roots, r.s, va);
        ghost var roots1, s := pool.roots, r.s;
        PoolPagesSame(roots, roots1);
        r := ObtainPage(r.s, t, sz, page, va);
        MorePages(roots1, pool.roots, s, va);
      } else {
        NeedsNone(roots, va);
        PoolPagesSame(roots, pool.roots);
      }
    }

    /** Overwriting a block and putting it in front of its page's free list. */
    method GiveBlock(s: nat, ptr: nat)
      requires Valid() && ptr in home && home[ptr] == s && s < |recs|
      modifies this`recs, this`mem, this`free, this`live, this`home
      ensures Gives(old(Sh()), Sh(), s, ptr) && Almost(s)
    {
      hide FreeList, Sound, Size, NumBlocks, BlockAddr, Records, Busy, Overwritten, SameOutside, Gives;
      ghost var h := Sh();
      GivenPlace(h, s, ptr);
      var rec := recs[s];
      var next := if rec.offset == INVALID_OFFSET then 0 else rec.page + rec.offset;
      var mem' := FillDeadbeef(mem, ptr, Size(rec.blktype));
      var rec' := rec.(offset := ptr - rec.page, nfree := rec.nfree + 1);
      ghost var h' := GivenShape(h, s, ptr, mem', next, rec');
      assert next != ptr;
      mem, recs := mem'[ptr := next], recs[s := rec'];
      free, live, home := h'.free, h'.live, h'.home;
      assert Sh() == h';
    }

    /** `remove_lists`. */
    method RemoveLists(s: nat)
      requires Almost(s) && s in all && s < |recs| && recs[s].blktype < NSIZES && recs[s].nfree == NumBlocks(recs[s].blktype)
      modifies this`nextAll, this`allbase, this`nextSame, this`sizebases, this`all, this`same, this`reserved
      ensures Valid() && (forall x :: x in all <==> x in old(all) && x != s) && reserved == old(reserved) + {s}
      ensures s !in old(reserved) && HasPage(pool.roots, s)
    {
      hide FreeList, Sound, Size, NumBlocks, BlockAddr, Without, Threaded, Records;
      ghost var h := Sh();
      var t := recs[s].blktype;
      OnBothLists(h, s, t);
      ghost var k, l;
      var nextSame', sizebase', nextAll', allbase';
      nextSame', sizebase', l := Unlink(nextSame, sizebases[t], s, same[t]);
      nextAll', allbase', k := Unlink(nextAll, allbase, s, all);
      DropSound(h, k, l, t, nextAll', allbase', nextSame', sizebase');
      DistinctAll(h);
      WithoutElements(all, k);
      UnlinkRecord(pool.roots, all, Without(all, k), reserved, lost, s);
      nextSame, sizebases := nextSame', sizebases[t := sizebase'];
      nextAll, allbase := nextAll', allbase';
      all, same, reserved := Without(all, k), same[t := Without(same[t], l)], reserved + {s};
      assert Sh() == Dropped(h, k, l, t, nextAll', allbase', nextSame', sizebase');
    }

    /** The search of `subpage_kfree` for the page that a pointer is on. */
    method FindPage(ptr: nat) returns (s: int)
      requires Valid() && ptr in live
      ensures s == NULL <==> ptr !in home
      ensures s != NULL ==> 0 <= s < |recs| && ptr in home && home[ptr] == s
    {
      hide Sound, Records;
      ghost var h := Sh();
      Threads(h);
      ghost var list := all;
      s := allbase;
      ghost var k := 0;
      while s != NULL
        invariant 0 <= k <= |list|
        invariant s == if k < |list| then list[k] else NULL
        invariant forall j :: 0 <= j < k ==> !(ptr in home && home[ptr] == list[j])
        decreases |list| - k
      {
        assert list[k] in list;
        OnPage(h, list[k], ptr);
        if recs[s].page <= ptr < recs[s].page + PAGE_SIZE {
          return;
        }
        assert nextAll[list[k]] == if k + 1 < |list| then list[k + 1] else NULL;
        s := nextAll[s];
        k := k + 1;
      }
      HomeListed(h, ptr);
    }

    /** Giving a record back to the pool, once it is on no list; `ok` is false if an assertion fails. */
    method FreeRecord(s: nat) returns (ok: bool)
      requires Valid() && s in reserved && HasPage(pool.roots, s)
      modifies this`reserved, pool
      ensures ok <==> !Blocked(old(pool.roots), s)
      ensures ok ==> Valid() && reserved == old(reserved) - {s} && SameRootPages(old(pool.roots), pool.roots)
    {
      hide Sound, Records, Busy;
      ghost var roots := pool.roots;
      ReservedRecord(roots, all, reserved, lost, s);
      ok := pool.Free(s);
      if ok {
        ReleaseRecord(roots, pool.roots, all, reserved, lost, s);
        reserved := reserved - {s};
      }
    }

    /**
     * `subpage_kfree`.  `freed` is the page given to `free_kpages`, or 0.  `panicked` means that the assertion in
     * `freepageref` failed: the page's last block was freed while an earlier root had records in use and no page.
     */
    method SubpageKfree(ptr: nat) returns (found: bool, freed: nat, panicked: bool)
      requires Valid() && ptr in live
      modifies this, pool
      ensures found <==> ptr in old(home)
      ensures panicked <==> found && IsLastBlock(old(Sh()), ptr) && Blocked(old(pool.roots), old(home)[ptr])
      ensures !panicked ==> Valid() && big == old(big) && reserved == old(reserved) && lost == old(lost) && SameRootPages(old(pool.roots), pool.roots)
      ensures !found ==> freed == 0 && Sh() == old(Sh())
      ensures found && !panicked ==> live == old(live) - {ptr} && home == old(home) - {ptr}
      ensures found && !panicked ==> old(home)[ptr] < |recs| == |old(recs)| && Recorded(old(recs), recs)
      ensures found && !panicked ==> (freed != 0 <==> IsLastBlock(old(Sh()), ptr))
      ensures found && !panicked && freed == 0 ==> all == old(all)
      ensures found && !panicked && freed != 0 ==> freed == recs[old(home)[ptr]].page && forall x :: x in all <==> x in old(all) && x != old(home)[ptr]
      ensures !panicked ==> forall w :: w in old(mem) && !(found && ptr <= w < ptr + old(Extent(recs, home, big, ptr))) ==> w in mem && mem[w] == old(mem)[w]
      ensures found && !panicked ==> Overwritten(mem, ptr, old(Extent(recs, home, big, ptr)))
    {
      hide FreeList, Sound, Size, NumBlocks, BlockAddr, Records;
      var s := FindPage(ptr);
      found, freed, panicked := false, 0, false;
      if s == NULL {
        return;
      }
      ghost var h := Sh();
      HomeListed(h, ptr);
      SoundRecord(h, s);
      LastBlockIs(h, ptr);
      GiveBlock(s, ptr);
      found := true;
      SoundRecord(Sh(), s);
      if recs[s].nfree == NumBlocks(recs[s].blktype) {
        RemoveLists(s);
        freed := recs[s].page;
        var ok := FreeRecord(s);
        panicked := !ok;
      }
    }

    /**
     * `kmalloc` without other threads in between.  `page` and `va` are what `alloc_kpages` returns when it is called: 0, or
     * pages that the heap does not own.
     */
    method Kmalloc(sz: nat, page: nat, va: nat) returns (ptr: nat)
      requires Valid() && sz < TWO32
      requires page != 0 ==> NewPages(recs, all, big, page, if sz >= LARGEST_SUBPAGE_SIZE then WholePages(sz) else 1)
      modifies this, pool
      ensures Valid()
      ensures sz >= LARGEST_SUBPAGE_SIZE ==> (ptr == 0 <==> page == 0)
      ensures sz < LARGEST_SUBPAGE_SIZE ==> forall t: nat :: BestFit(sz, t) ==>
        (ptr == 0 <==> NoRoom(old(recs), old(same)[t]) && (page == 0 || NoRecord(old(pool.roots), va)))
      ensures ptr == 0 ==> Sh() == old(Sh())
      ensures ptr != 0 ==> ptr !in old(live) && live == old(live)[ptr := sz] && (ptr in big <==> sz >= LARGEST_SUBPAGE_SIZE)
      ensures forall a :: a in old(live) ==> Kept(old(mem), mem, a, old(live)[a])
    {
      hide Sound, NewPages, WholePages, Kept, Busy, Records, NoRecord, BestFit, NoRoom;
      LiveKinds(Sh());
      ghost var h := Sh();
      if sz >= LARGEST_SUBPAGE_SIZE {
        ptr := WholeKmalloc(sz, page);
        return;
      }
      ghost var r;
      ptr, r := SubpageKmalloc(sz, page, va);
      LiveKinds(Sh());
      if r.Block? {
        assert Used(h, Sh(), r.s, sz, page, ptr);
        KeptByNewPage(h, mem, page);
      } else {
        KeptSame(h);
      }
    }

    /** The whole-page branch of `kmalloc`. */
    method WholeKmalloc(sz: nat, page: nat) returns (ptr: nat)
      requires Valid() && LARGEST_SUBPAGE_SIZE <= sz < TWO32
      requires page != 0 ==> NewPages(recs, all, big, page, WholePages(sz))
      modifies this`live, this`big
      ensures Valid() && ptr == page
      ensures ptr == 0 ==> Sh() == old(Sh())
      ensures ptr != 0 ==> ptr !in old(live) && live == old(live)[ptr := sz] && big == old(big)[ptr := WholePages(sz)]
      ensures forall a :: a in old(live) ==> Kept(old(mem), mem, a, old(live)[a])
    {
      hide Sound, NewPages, Records;
      ptr := page;
      if page != 0 {
        NewPagesAligned(recs, all, big, page, WholePages(sz));
        AddBigSound(Sh(), page, WholePages(sz), sz);
        live, big := live[page := sz], big[page := WholePages(sz)];
      }
    }

    /** `kfree`.  `freed` is the address given to `free_kpages`, or 0. */
    method Kfree(ptr: nat) returns (found: bool, freed: nat, panicked: bool)
      requires Valid() && (ptr == 0 || ptr in live)
      modifies this, pool
      ensures found <==> ptr in old(home)
      ensures panicked <==> found && IsLastBlock(old(Sh()), ptr) && Blocked(old(pool.roots), old(home)[ptr])
      ensures !panicked ==> Valid() && live == old(live) - {ptr} && home == old(home) - {ptr} && big == old(big) - {ptr}
      ensures !panicked ==> reserved == old(reserved) && lost == old(lost) && SameRootPages(old(pool.roots), pool.roots)
      ensures ptr == 0 ==> freed == 0 && Sh() == old(Sh())
      ensures !found ==> all == old(all) && recs == old(recs) && freed == ptr
      ensures found && !panicked ==> old(home)[ptr] < |recs| == |old(recs)| && Recorded(old(recs), recs)
      ensures found && !panicked ==> (freed != 0 <==> IsLastBlock(old(Sh()), ptr))
      ensures found && !panicked && freed == 0 ==> all == old(all)
      ensures found && !panicked && freed != 0 ==> freed == recs[old(home)[ptr]].page && forall x :: x in all <==> x in old(all) && x != old(home)[ptr]
      ensures !panicked ==> forall a :: a in old(live) && a != ptr ==> Kept(old(mem), mem, a, old(live)[a])
      ensures found && !panicked ==> Overwritten(mem, ptr, old(Extent(recs, home, big, ptr)))
    {
      hide Sound, Kept, Extent, Records, IsLastBlock, Blocked;
      ghost var h := Sh();
      KeptSame(h);
      LiveKinds(h);
      found, freed, panicked := false, 0, false;
      if ptr == 0 {
        return;
      }
      found, freed, panicked := SubpageKfree(ptr);
      if panicked {
        return;
      }
      if found {
        KeptByFree(h, mem, ptr);
      } else {
        assert ptr % PAGE_SIZE == 0;
        DropBigSound(h, ptr);
        live, big, freed := live - {ptr}, big - {ptr}, ptr;
      }
    }

    /** A client stores a word in an allocation that it holds. */
    method Store(a: nat, offset: nat, v: nat)
      requires Valid() && a in live && offset < live[a]
      modifies this`mem
      ensures Valid() && mem == old(mem)[a + offset := v]
      ensures forall b :: b in live && b != a ==> Kept(old(mem), mem, b, live[b])
    {
      hide Sound, Kept, Records;
      ghost var h := Sh();
      WriteSound(h, a, a + offset, v);
      KeptByWrite(h, a, a + offset, v);
      mem := mem[a + offset := v];
    }
  }


  /** The number of pages for a request that the sub-page allocator does not take, in 32-bit arithmetic. */
  function WholePages(sz: nat): (n: nat)
    requires sz < TWO32
    ensures n == 0 <==> sz == 0 || sz > TWO32 - PAGE_SIZE
    ensures n > 0 ==> (n - 1) * PAGE_SIZE < sz <= n * PAGE_SIZE
  {
    (sz + PAGE_SIZE - 1) % TWO32 / PAGE_SIZE
  }

  /** Records keep their page and block type. */
  ghost predicate Recorded(recs: seq<Record>, recs': seq<Record>) {
    |recs'| == |recs| && forall s :: 0 <= s < |recs| ==> recs'[s].page == recs[s].page && recs'[s].blktype == recs[s].blktype
  }

  lemma {:induction false} GivenBlock(h: Shape, s: nat, ptr: nat) returns (b: nat)
    requires Sound(h) && ptr in h.home && h.home[ptr] == s
    ensures s in h.all && s < |h.recs| == |h.free| && h.recs[s].blktype < NSIZES
    ensures var rec := h.recs[s];
      FreeList(h.mem, rec.page, rec.blktype, rec.offset, rec.nfree, h.free[s])
      && rec.page <= ptr && ptr + Size(rec.blktype) <= rec.page + PAGE_SIZE
      && b < NumBlocks(rec.blktype) && BlockAddr(rec.page, rec.blktype, b) == ptr && b !in h.free[s]
  {
    hide Lists, Intact, Apart, Tiled, NumBlocks, Size, BlockAddr, FreeList;
    HomeFacts(h.recs, h.mem, h.all, h.free, h.live, h.home, h.big, ptr);
    b := HomeBlock(h.recs, h.mem, h.all, h.free, h.live, h.home, h.big, ptr);
    SoundRecord(h, s);
  }

  lemma {:induction false} GivenSound(h: Shape, s: nat, ptr: nat, b: nat, mem': map<nat, nat>, next: nat, rec': Record)
    requires Sound(h) && s in h.all && s < |h.recs| == |h.free| && h.recs[s].blktype < NSIZES
    requires var rec := h.recs[s];
      && FreeList(h.mem, rec.page, rec.blktype, rec.offset, rec.nfree, h.free[s])
      && rec.page <= ptr && ptr + Size(rec.blktype) <= rec.page + PAGE_SIZE
      && b < NumBlocks(rec.blktype) && BlockAddr(rec.page, rec.blktype, b) == ptr && b !in h.free[s]
      && next == (if rec.offset == INVALID_OFFSET then 0 else rec.page + rec.offset)
      && rec' == rec.(offset := ptr - rec.page, nfree := rec.nfree + 1)
      && (forall w :: w in h.mem && !(ptr <= w < ptr + Size(rec.blktype)) ==> w in mem' && mem'[w] == h.mem[w])
    ensures next != ptr && rec'.blktype < NSIZES && Sound(Given(h, s, rec', b, mem'[ptr := next]))
  {
    hide FreeList, Sound, Size, NumBlocks, BlockAddr;
    SoundRecord(h, s);
    var rec := h.recs[s];
    SizePositive(rec.blktype);
    FillKeeps(h.mem, mem', rec.page, rec.blktype, rec.offset, rec.nfree, h.free[s], b);
    PushBlock(mem', rec.page, rec.blktype, rec.offset, rec.nfree, h.free[s], b);
    GiveSound(h, s, rec', b, mem'[ptr := next]);
  }

  lemma {:induction false} GivenPlace(h: Shape, s: nat, ptr: nat)
    requires Sound(h) && ptr in h.home && h.home[ptr] == s
    ensures s in h.all && s < |h.recs| && h.recs[s].blktype < NSIZES && h.recs[s].page <= ptr
  {
    var b := GivenBlock(h, s, ptr);
  }

  /** From `h` to `h'` the block at `ptr`, of the page of record `s`, is overwritten and put in front of the page's free list. */
  ghost predicate Gives(h: Shape, h': Shape, s: nat, ptr: nat) {
    && s < |h.recs| && h.recs[s].page <= ptr && h.recs[s].blktype < NSIZES
    && h' == h.(recs := h.recs[s := h.recs[s].(nfree := h.recs[s].nfree + 1, offset := ptr - h.recs[s].page)],
                mem := h'.mem, free := h'.free, live := h.live - {ptr}, home := h.home - {ptr})
    && SameOutside(h.mem, h'.mem, ptr, Size(h.recs[s].blktype)) && Overwritten(h'.mem, ptr, Size(h.recs[s].blktype))
  }

  /** The heap after the block at `ptr` has been put back. */
  lemma {:induction false} GivenShape(h: Shape, s: nat, ptr: nat, mem': map<nat, nat>, next: nat, rec': Record) returns (h': Shape)
    requires Sound(h) && Busy(h, NULL) && ptr in h.home && h.home[ptr] == s && s < |h.recs| && h.recs[s].blktype < NSIZES && h.recs[s].page <= ptr
    requires var rec := h.recs[s];
      && next == (if rec.offset == INVALID_OFFSET then 0 else rec.page + rec.offset)
      && rec' == rec.(offset := ptr - rec.page, nfree := rec.nfree + 1)
      && SameOutside(h.mem, mem', ptr, Size(rec.blktype))
    requires forall i :: 0 <= i < Size(h.recs[s].blktype) / 4 ==> ptr + 4 * i in mem' && mem'[ptr + 4 * i] == 0xdeadbeef
    ensures Sound(h') && Busy(h', s) && next != ptr && Gives(h, h', s, ptr)
    ensures h' == h.(recs := h.recs[s := rec'], mem := mem'[ptr := next], free := h'.free, live := h.live - {ptr}, home := h.home - {ptr})
  {
    hide Sound, FreeList, Size, NumBlocks, BlockAddr;
    var b := GivenBlock(h, s, ptr);
    GivenSound(h, s, ptr, b, mem', next, rec');
    h' := Given(h, s, rec', b, mem'[ptr := next]);
    LinkedBeef(h.mem, mem', ptr, Size(h.recs[s].blktype), next);
  }

  lemma {:induction false} OnBothLists(h: Shape, s: nat, t: nat)
    requires Sound(h) && s in h.all && s < |h.recs| && h.recs[s].blktype == t < NSIZES
    ensures |h.same| == |h.sizebases| == NSIZES && s in h.same[t]
    ensures |h.recs| == |h.nextAll| == |h.nextSame| == |h.free|
    ensures Threaded(h.nextSame, h.sizebases[t], h.same[t]) && Threaded(h.nextAll, h.allbase, h.all)
  {
    hide Threaded, Intact, Apart, Tiled;
    SoundLengths(h);
    assert OfType(h.recs, h.all, h.same[t], t);
  }

  lemma {:induction false} Threads(h: Shape)
    requires Sound(h)
    ensures |h.recs| == |h.nextAll| && Threaded(h.nextAll, h.allbase, h.all)
  {
  }

  lemma {:induction false} HomeListed(h: Shape, a: nat)
    requires Sound(h)
    ensures a in h.home ==> h.home[a] in h.all && a !in h.big
  {
  }

  lemma {:induction false} KeptSame(h: Shape)
    ensures forall a :: a in h.live ==> Kept(h.mem, h.mem, a, h.live[a])
  {
  }

  lemma {:induction false} LiveKinds(h: Shape)
    requires Sound(h)
    ensures 0 !in h.live && forall a :: a in h.live && a !in h.home ==> a in h.big && a % PAGE_SIZE == 0
    ensures forall a :: a in h.home ==> a in h.live && a !in h.big
    ensures forall a :: a in h.big ==> a in h.live
  {
    hide Lists, Intact, Complement, InBlock, PagesApart;
    if 0 in h.home {
      HomeFacts(h.recs, h.mem, h.all, h.free, h.live, h.home, h.big, 0);
      assert false;
    }
  }

  lemma {:induction false} KeptByWrite(h: Shape, a: nat, w: nat, v: nat)
    requires Sound(h) && a in h.live && a <= w < a + h.live[a]
    ensures forall b :: b in h.live && b != a ==> Kept(h.mem, h.mem[w := v], b, h.live[b])
  {
    hide Lists, Intact, Apart, Tiled, Extent;
    LiveWellPlaced(h.recs, h.mem, h.all, h.free, h.live, h.home, h.big, a);
    KeptByFree(h, h.mem[w := v], a);
  }
}
