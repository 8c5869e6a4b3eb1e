/** The geometry of kernel heap pages: block sizes, block addresses and the free list threaded through a page. */
module HeapBlocks {
  import opened Nonlinear
  import opened Sequences
  import opened Words

  const NSIZES: nat := 8
  const LARGEST_SUBPAGE_SIZE: nat := 2048
  const INVALID_OFFSET: nat := 0xffff

  /** The `sizes` table. */
  function Size(t: nat): (r: nat)
    requires t < NSIZES
    ensures 16 <= r <= LARGEST_SUBPAGE_SIZE && PAGE_SIZE % r == 0
  {
    [16, 32, 64, 128, 256, 512, 1024, 2048][t]
  }

  /** How many blocks of a type fit on a page. */
  function NumBlocks(t: nat): (n: nat)
    requires t < NSIZES
    ensures n * Size(t) == PAGE_SIZE && 2 <= n <= 256
  {
    PAGE_SIZE / Size(t)
  }

  /** The address of block `b` on a page. */
  function BlockAddr(page: nat, t: nat, b: nat): nat
    requires t < NSIZES
  {
    page + b * Size(t)
  }

  lemma BlockInPage(page: nat, t: nat, b: nat)
    requires t < NSIZES && b < NumBlocks(t)
    ensures page <= BlockAddr(page, t, b) && BlockAddr(page, t, b) + Size(t) <= page + PAGE_SIZE
    ensures (BlockAddr(page, t, b) - page) % Size(t) == 0
    ensures (BlockAddr(page, t, b) - page) / Size(t) == b
  {
    var sz := Size(t);
    MulMono(b + 1, NumBlocks(t), sz);
    MulSucc(b, sz);
    MulNonneg(b, sz);
    DivIs(b * sz, sz, b);
  }

  lemma BlocksApart(page: nat, t: nat, b: nat, c: nat)
    requires t < NSIZES && b < c
    ensures BlockAddr(page, t, b) + Size(t) <= BlockAddr(page, t, c)
  {
    MulMono(b + 1, c, Size(t));
    MulSucc(b, Size(t));
  }

  /** Every properly positioned offset is a block. */
  lemma OffsetIsBlock(page: nat, t: nat, offset: nat)
    requires t < NSIZES && offset < PAGE_SIZE && offset % Size(t) == 0
    ensures offset / Size(t) < NumBlocks(t)
    ensures BlockAddr(page, t, offset / Size(t)) == page + offset
  {
    var sz := Size(t);
    DivMod(offset, sz);
    MulCancelLess(offset / sz, NumBlocks(t), sz);
  }

  /**
   * The free list of a page: `list` names distinct blocks, `nfree` is its length, `offset` locates its first
   * block or is INVALID_OFFSET, and the first word of each free block points to the next one.
   */
  ghost predicate FreeList(mem: map<nat, nat>, page: nat, t: nat, offset: nat, nfree: nat, list: seq<nat>) {
    && t < NSIZES && page % PAGE_SIZE == 0 && page > 0
    && Distinct(list)
    && (forall k :: 0 <= k < |list| ==> list[k] < NumBlocks(t))
    && nfree == |list|
    && offset == (if |list| == 0 then INVALID_OFFSET else BlockAddr(page, t, list[0]) - page)
    && Links(mem, page, t, list)
  }

  /** The first word of each block in `list` holds the address of the next, the last one's holds NULL. */
  ghost predicate Links(mem: map<nat, nat>, page: nat, t: nat, list: seq<nat>)
    requires t < NSIZES
  {
    && (forall k :: 0 <= k < |list| ==> BlockAddr(page, t, list[k]) in mem)
    && forall k {:trigger mem[BlockAddr(page, t, list[k])]} :: 0 <= k < |list| ==>
         mem[BlockAddr(page, t, list[k])] == if k + 1 < |list| then BlockAddr(page, t, list[k + 1]) else 0
  }

  // ----- changes to a free list

  /** `subpage_kmalloc` takes the first block. */
  lemma {:induction false} PopBlock(mem: map<nat, nat>, page: nat, t: nat, offset: nat, nfree: nat, list: seq<nat>)
    requires FreeList(mem, page, t, offset, nfree, list) && nfree > 0
    ensures offset < PAGE_SIZE && page + offset == BlockAddr(page, t, list[0]) && page + offset in mem
    ensures mem[page + offset] == 0 <==> nfree == 1
    ensures mem[page + offset] != 0 ==> page <= mem[page + offset] < page + PAGE_SIZE
    ensures FreeList(mem, page, t, if nfree == 1 then INVALID_OFFSET else mem[page + offset] - page, nfree - 1, list[1..])
  {
    hide BlockAddr, NumBlocks, Size;
    var rest := list[1..];
    BlockInPage(page, t, list[0]);
    assert mem[BlockAddr(page, t, list[0])] == if 1 < |list| then BlockAddr(page, t, list[1]) else 0;
    if nfree > 1 {
      BlockInPage(page, t, list[1]);
    }
    SizePositive(t);
    forall k | 0 <= k < |rest|
      ensures rest[k] < NumBlocks(t) && BlockAddr(page, t, rest[k]) in mem
      ensures mem[BlockAddr(page, t, rest[k])] == if k + 1 < |rest| then BlockAddr(page, t, rest[k + 1]) else 0
    {
      assert rest[k] == list[k + 1];
      assert mem[BlockAddr(page, t, list[k + 1])] == if k + 2 < |list| then BlockAddr(page, t, list[k + 2]) else 0;
    }
  }

  lemma SizePositive(t: nat)
    requires t < NSIZES
    ensures 16 <= Size(t) <= LARGEST_SUBPAGE_SIZE
  {
  }

  /** Memory outside the free blocks' first words does not matter. */
  lemma {:induction false} OtherMemory(mem: map<nat, nat>, mem': map<nat, nat>, page: nat, t: nat, offset: nat, nfree: nat, list: seq<nat>)
    requires FreeList(mem, page, t, offset, nfree, list)
    requires forall k :: 0 <= k < |list| ==>
      BlockAddr(page, t, list[k]) in mem' && mem'[BlockAddr(page, t, list[k])] == mem[BlockAddr(page, t, list[k])]
    ensures FreeList(mem', page, t, offset, nfree, list)
  {
    hide BlockAddr, NumBlocks, Size;
  }

  /** `subpage_kfree` puts a block in front. */
  lemma {:induction false} PushBlock(mem: map<nat, nat>, page: nat, t: nat, offset: nat, nfree: nat, list: seq<nat>, b: nat)
    requires FreeList(mem, page, t, offset, nfree, list) && b < NumBlocks(t) && b !in list
    ensures var next := if offset == INVALID_OFFSET then 0 else page + offset;
      FreeList(mem[BlockAddr(page, t, b) := next], page, t, BlockAddr(page, t, b) - page, nfree + 1, [b] + list)
    ensures offset != INVALID_OFFSET ==> page + offset != BlockAddr(page, t, b)
  {
    hide BlockAddr, NumBlocks, Size, Links;
    var next := if offset == INVALID_OFFSET then 0 else page + offset;
    BlockInPage(page, t, b);
    SizePositive(t);
    if nfree > 0 {
      BlockInPage(page, t, list[0]);
      DifferentBlocks(page, t, b, list[0]);
    }
    PushLinks(mem, page, t, list, b, next);
    var list' := [b] + list;
    assert forall k :: 0 <= k < |list'| ==> list'[k] == if k == 0 then b else list[k - 1];
  }

  lemma {:induction false} PushLinks(mem: map<nat, nat>, page: nat, t: nat, list: seq<nat>, b: nat, next: nat)
    requires t < NSIZES && Links(mem, page, t, list) && b !in list
    requires next == if |list| == 0 then 0 else BlockAddr(page, t, list[0])
    ensures Links(mem[BlockAddr(page, t, b) := next], page, t, [b] + list)
  {
    hide BlockAddr, Size;
    var mem', list' := mem[BlockAddr(page, t, b) := next], [b] + list;
    forall k | 0 <= k < |list'|
      ensures BlockAddr(page, t, list'[k]) in mem'
      ensures mem'[BlockAddr(page, t, list'[k])] == if k + 1 < |list'| then BlockAddr(page, t, list'[k + 1]) else 0
    {
      if k > 0 {
        assert list'[k] == list[k - 1] && list[k - 1] != b;
        DifferentBlocks(page, t, b, list[k - 1]);
        assert mem[BlockAddr(page, t, list[k - 1])] == if k < |list| then BlockAddr(page, t, list[k]) else 0;
      }
    }
    assert forall k :: 0 <= k < |list'| ==> BlockAddr(page, t, list'[k]) in mem';
    assert forall k {:trigger mem'[BlockAddr(page, t, list'[k])]} :: 0 <= k < |list'| ==>
      mem'[BlockAddr(page, t, list'[k])] == if k + 1 < |list'| then BlockAddr(page, t, list'[k + 1]) else 0;
  }

  lemma DifferentBlocks(page: nat, t: nat, b: nat, c: nat)
    requires t < NSIZES && b != c
    ensures BlockAddr(page, t, b) != BlockAddr(page, t, c)
  {
    BlocksApart(page, t, if b < c then b else c, if b < c then c else b);
  }

  // ----- linked lists of page records

  /** `list` is what one visits by following `next` from `base`. */
  ghost predicate Threaded(next: seq<int>, base: int, list: seq<nat>) {
    && (forall k :: 0 <= k < |list| ==> list[k] < |next|)
    && Distinct(list)
    && base == (if |list| == 0 then NULL else list[0])
    && forall k {:trigger next[list[k]]} :: 0 <= k < |list| ==> next[list[k]] == if k + 1 < |list| then list[k + 1] else NULL
  }

  /** The null pointer among record indices. */
  const NULL: int := -1

  lemma {:induction false} ThreadPush(next: seq<int>, base: int, list: seq<nat>, s: nat)
    requires Threaded(next, base, list) && s < |next| && s !in list
    ensures Threaded(next[s := base], s, [s] + list)
  {
    var next', list' := next[s := base], [s] + list;
    forall k | 0 <= k < |list'|
      ensures list'[k] < |next'| && next'[list'[k]] == if k + 1 < |list'| then list'[k + 1] else NULL
    {
      if k > 0 {
        assert list'[k] == list[k - 1];
        assert next[list[k - 1]] == if k < |list| then list[k] else NULL;
      }
    }
  }

  /** A list that does not contain a record does not care about its link. */
  lemma {:induction false} ThreadOther(next: seq<int>, base: int, list: seq<nat>, s: nat, v: int)
    requires Threaded(next, base, list) && s < |next| && s !in list
    ensures Threaded(next[s := v], base, list)
  {
    forall k | 0 <= k < |list|
      ensures next[s := v][list[k]] == if k + 1 < |list| then list[k + 1] else NULL
    {
      assert list[k] in list;
    }
  }

  /** Unlinking: the predecessor, or the base, takes over the link of the record at position `k`. */
  lemma {:induction false} ThreadUnlink(next: seq<int>, base: int, list: seq<nat>, k: nat)
    requires Threaded(next, base, list) && k < |list|
    ensures var rest := list[..k] + list[k + 1..];
      if k == 0 then Threaded(next, next[list[0]], rest)
      else Threaded(next[list[k - 1] := next[list[k]]], base, rest)
  {
    var rest := list[..k] + list[k + 1..];
    assert forall i :: 0 <= i < |rest| ==> rest[i] == list[if i < k then i else i + 1];
    var next' := if k == 0 then next else next[list[k - 1] := next[list[k]]];
    assert next[list[k]] == if k + 1 < |list| then list[k + 1] else NULL;
    forall i | 0 <= i < |rest|
      ensures rest[i] < |next'| && next'[rest[i]] == if i + 1 < |rest| then rest[i + 1] else NULL
    {
      var j := if i < k then i else i + 1;
      assert rest[i] == list[j];
      assert next[list[j]] == if j + 1 < |list| then list[j + 1] else NULL;
    }
  }
}
