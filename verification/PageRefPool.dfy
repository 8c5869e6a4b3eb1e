/** The pool of heap page records: sixteen pages of 256 records each, with a bitmap of the records in use. */
module PageRefPool {

  const NUM_PAGEREFPAGES: nat := 16
  const NPAGEREFS_PER_PAGE: nat := 256
  const INUSE_WORDS: nat := 8
  const TOTAL_PAGEREFS: nat := 4096

  /** `kheap_root`: the page that holds the records, or 0, its bitmap, and the number of bits set. */
  datatype Root = Root(page: nat, bits: seq<bool>, numinuse: nat)

  ghost function Count(bits: seq<bool>): nat {
    if |bits| == 0 then 0 else (if bits[0] then 1 else 0) + Count(bits[1..])
  }

  lemma {:induction false} CountUpdate(bits: seq<bool>, i: nat, b: bool)
    requires i < |bits|
    ensures Count(bits[i := b]) == Count(bits) - (if bits[i] then 1 else 0) + (if b then 1 else 0)
    decreases |bits|
  {
    if i == 0 {
      assert bits[i := b][1..] == bits[1..];
    } else {
      assert bits[i := b][1..] == bits[1..][i - 1 := b];
      CountUpdate(bits[1..], i - 1, b);
    }
  }

  /** The count equals the length exactly when every bit is set. */
  lemma {:induction false} CountFull(bits: seq<bool>)
    ensures Count(bits) <= |bits|
    ensures Count(bits) == |bits| <==> forall i :: 0 <= i < |bits| ==> bits[i]
    decreases |bits|
  {
    if |bits| > 0 {
      CountFull(bits[1..]);
      assert forall i :: 0 < i < |bits| ==> bits[i] == bits[1..][i - 1];
      assert (forall i :: 0 <= i < |bits| ==> bits[i]) ==> forall i :: 0 <= i < |bits[1..]| ==> bits[1..][i];
    }
  }

  ghost predicate RootOk(root: Root) {
    |root.bits| == NPAGEREFS_PER_PAGE && root.numinuse == Count(root.bits)
  }

  /**
   * Roots are taken up in order: one that has been used means that every one before it was full.  Such a root is still
   * full if it has no page, because its records are in nobody's hands.
   */
  ghost predicate Ordered(roots: seq<Root>) {
    forall v, w :: 0 <= v < w < |roots| && (roots[w].page != 0 || roots[w].numinuse > 0) ==>
      roots[v].page != 0 || roots[v].numinuse == NPAGEREFS_PER_PAGE
  }

  ghost predicate RootsOk(roots: seq<Root>) {
    |roots| == NUM_PAGEREFPAGES && (forall w :: 0 <= w < |roots| ==> RootOk(roots[w])) && Ordered(roots)
  }

  /** Whether a record is in use. */
  ghost predicate InUse(roots: seq<Root>, s: int) {
    && 0 <= s < TOTAL_PAGEREFS && s / NPAGEREFS_PER_PAGE < |roots|
    && s % NPAGEREFS_PER_PAGE < |roots[s / NPAGEREFS_PER_PAGE].bits|
    && roots[s / NPAGEREFS_PER_PAGE].bits[s % NPAGEREFS_PER_PAGE]
  }

  /** Whether the page that a record is on exists. */
  ghost predicate HasPage(roots: seq<Root>, s: int) {
    0 <= s < TOTAL_PAGEREFS && s / NPAGEREFS_PER_PAGE < |roots| && roots[s / NPAGEREFS_PER_PAGE].page != 0
  }

  ghost predicate SameRootPages(roots: seq<Root>, roots': seq<Root>) {
    |roots'| == |roots| && forall w :: 0 <= w < |roots| ==> roots'[w].page == roots[w].page
  }

  /** The pages that hold records. */
  ghost function PoolPages(roots: seq<Root>): set<nat> {
    set w | 0 <= w < |roots| && roots[w].page != 0 :: roots[w].page
  }

  /** An earlier root has records in use and no page: `freepageref` asserts that there is none. */
  ghost predicate Blocked(roots: seq<Root>, s: int) {
    exists w :: 0 <= w < s / NPAGEREFS_PER_PAGE && w < |roots| && roots[w].page == 0 && roots[w].numinuse > 0
  }

  /**
   * When freeing a record that is in use runs into the assertion: exactly when an earlier root has no page, and then
   * all the records of that root are in use.
   */
  lemma {:induction false} BlockedIs(roots: seq<Root>, s: int)
    requires RootsOk(roots) && InUse(roots, s)
    ensures Blocked(roots, s) <==> exists w :: 0 <= w < s / NPAGEREFS_PER_PAGE && roots[w].page == 0
    ensures forall w, r :: 0 <= w < s / NPAGEREFS_PER_PAGE && roots[w].page == 0 && w * NPAGEREFS_PER_PAGE <= r < (w + 1) * NPAGEREFS_PER_PAGE ==>
      InUse(roots, r)
  {
    var v := s / NPAGEREFS_PER_PAGE;
    BitSetCounts(roots[v].bits, s % NPAGEREFS_PER_PAGE);
    forall w | 0 <= w < v && roots[w].page == 0
      ensures roots[w].numinuse == NPAGEREFS_PER_PAGE && forall k :: 0 <= k < NPAGEREFS_PER_PAGE ==> roots[w].bits[k]
    {
      assert roots[v].numinuse > 0;
      CountFull(roots[w].bits);
    }
    forall w, r | 0 <= w < v && roots[w].page == 0 && w * NPAGEREFS_PER_PAGE <= r < (w + 1) * NPAGEREFS_PER_PAGE
      ensures InUse(roots, r)
    {
      assert r / NPAGEREFS_PER_PAGE == w;
      assert roots[w].bits[r % NPAGEREFS_PER_PAGE];
    }
  }

  class Pool {
    var roots: seq<Root>

    ghost predicate Valid()
      reads this
    {
      RootsOk(roots)
    }

    constructor ()
      ensures Valid()
      ensures (forall s :: !InUse(roots, s)) && forall w :: 0 <= w < |roots| ==> roots[w].page == 0
    {
      var bits := seq(NPAGEREFS_PER_PAGE, _ => false);
      NoneSet(bits);
      roots := seq(NUM_PAGEREFPAGES, _ => Root(0, bits, 0));
    }

    /** The first part of `allocpageref`: the first free record is marked, or -1 is returned when all are in use. */
    method Reserve() returns (r: int)
      requires Valid()
      modifies this
      ensures Valid() && SameRootPages(old(roots), roots)
      ensures r == -1 ==> roots == old(roots)
      ensures r == -1 <==> forall s :: 0 <= s < TOTAL_PAGEREFS ==> InUse(old(roots), s)
      ensures r != -1 ==> 0 <= r < TOTAL_PAGEREFS && IsFirstFree(old(roots), r)
      ensures r != -1 ==> forall s :: InUse(roots, s) <==> s == r || InUse(old(roots), s)
    {
      var w := 0;
      while w < NUM_PAGEREFPAGES
        invariant 0 <= w <= NUM_PAGEREFPAGES && Valid() && roots == old(roots)
        invariant forall v :: 0 <= v < w ==> roots[v].numinuse == NPAGEREFS_PER_PAGE
        invariant forall s :: 0 <= s < w * NPAGEREFS_PER_PAGE ==> InUse(roots, s)
      {
        var root := roots[w];
        CountFull(root.bits);
        if root.numinuse < NPAGEREFS_PER_PAGE {
          var b := FirstClear(root.bits);
          r := w * NPAGEREFS_PER_PAGE + b;
          CountUpdate(root.bits, b, true);
          roots := roots[w := root.(bits := root.bits[b := true], numinuse := root.numinuse + 1)];
          FirstInRoot(old(roots), w, b);
          MarkedInUse(old(roots), w, b);
          return;
        }
        forall s | w * NPAGEREFS_PER_PAGE <= s < (w + 1) * NPAGEREFS_PER_PAGE
          ensures InUse(roots, s)
        {
          assert s / NPAGEREFS_PER_PAGE == w;
        }
        w := w + 1;
      }
      assert w * NPAGEREFS_PER_PAGE == TOTAL_PAGEREFS;
      return -1;
    }

    /** The end of `allocpagerefpage`: the page for the records of a root that has none. */
    method SetPage(s: nat, page: nat)
      requires Valid() && InUse(roots, s) && !HasPage(roots, s) && page != 0
      modifies this
      ensures Valid() && (forall r :: InUse(roots, r) <==> InUse(old(roots), r))
      ensures roots == old(roots)[s / NPAGEREFS_PER_PAGE := old(roots)[s / NPAGEREFS_PER_PAGE].(page := page)]
    {
      var w := s / NPAGEREFS_PER_PAGE;
      BitSetCounts(roots[w].bits, s % NPAGEREFS_PER_PAGE);
      roots := roots[w := roots[w].(page := page)];
    }

    /** `freepageref`: find the page that the record is on and clear its bit; `ok` is false if the assertion fails. */
    method Free(p: nat) returns (ok: bool)
      requires Valid() && InUse(roots, p) && HasPage(roots, p)
      modifies this
      ensures Valid() && SameRootPages(old(roots), roots)
      ensures ok <==> !Blocked(old(roots), p)
      ensures !ok ==> roots == old(roots)
      ensures ok ==> forall s :: InUse(roots, s) <==> s != p && InUse(old(roots), s)
    {
      var w := 0;
      while w < NUM_PAGEREFPAGES
        invariant 0 <= w <= p / NPAGEREFS_PER_PAGE && Valid() && roots == old(roots)
        invariant forall v :: 0 <= v < w ==> !(roots[v].page == 0 && roots[v].numinuse > 0)
      {
        var root := roots[w];
        var j := p - w * NPAGEREFS_PER_PAGE;
        if root.page == 0 {
          if root.numinuse != 0 {
            return false;
          }
        } else if 0 <= j < NPAGEREFS_PER_PAGE {
          assert p / NPAGEREFS_PER_PAGE == w && p % NPAGEREFS_PER_PAGE == j;
          CountUpdate(root.bits, j, false);
          BitSetCounts(root.bits, j);
          roots := roots[w := root.(bits := root.bits[j := false], numinuse := root.numinuse - 1)];
          ClearedInUse(old(roots), w, j);
          return true;
        }
        w := w + 1;
      }
      assert false;
    }
  }

  /** The first record that is not in use. */
  ghost predicate IsFirstFree(roots: seq<Root>, s: int) {
    !InUse(roots, s) && forall r :: 0 <= r < s ==> InUse(roots, r)
  }

  lemma {:induction false} FirstInRoot(roots: seq<Root>, w: nat, b: nat)
    requires RootsOk(roots) && w < NUM_PAGEREFPAGES && b < NPAGEREFS_PER_PAGE && !roots[w].bits[b] && forall k :: 0 <= k < b ==> roots[w].bits[k]
    requires forall s :: 0 <= s < w * NPAGEREFS_PER_PAGE ==> InUse(roots, s)
    ensures IsFirstFree(roots, w * NPAGEREFS_PER_PAGE + b)
  {
    var r := w * NPAGEREFS_PER_PAGE + b;
    assert r / NPAGEREFS_PER_PAGE == w && r % NPAGEREFS_PER_PAGE == b;
    forall s | w * NPAGEREFS_PER_PAGE <= s < r
      ensures InUse(roots, s)
    {
      assert s / NPAGEREFS_PER_PAGE == w && s % NPAGEREFS_PER_PAGE == s - w * NPAGEREFS_PER_PAGE;
    }
  }

  lemma {:induction false} MarkedInUse(roots: seq<Root>, w: nat, b: nat)
    requires RootsOk(roots) && w < NUM_PAGEREFPAGES && b < NPAGEREFS_PER_PAGE
    ensures var roots' := roots[w := roots[w].(bits := roots[w].bits[b := true], numinuse := roots[w].numinuse + 1)];
      forall s :: InUse(roots', s) <==> s == w * NPAGEREFS_PER_PAGE + b || InUse(roots, s)
  {
    var r := w * NPAGEREFS_PER_PAGE + b;
    assert r / NPAGEREFS_PER_PAGE == w && r % NPAGEREFS_PER_PAGE == b;
    assert forall s :: 0 <= s < TOTAL_PAGEREFS ==> s == s / NPAGEREFS_PER_PAGE * NPAGEREFS_PER_PAGE + s % NPAGEREFS_PER_PAGE;
  }

  lemma {:induction false} ClearedInUse(roots: seq<Root>, w: nat, b: nat)
    requires RootsOk(roots) && w < NUM_PAGEREFPAGES && b < NPAGEREFS_PER_PAGE && roots[w].numinuse > 0
    ensures var roots' := roots[w := roots[w].(bits := roots[w].bits[b := false], numinuse := roots[w].numinuse - 1)];
      forall s :: InUse(roots', s) <==> s != w * NPAGEREFS_PER_PAGE + b && InUse(roots, s)
  {
    var r := w * NPAGEREFS_PER_PAGE + b;
    assert r / NPAGEREFS_PER_PAGE == w && r % NPAGEREFS_PER_PAGE == b;
    assert forall s :: 0 <= s < TOTAL_PAGEREFS ==> s == s / NPAGEREFS_PER_PAGE * NPAGEREFS_PER_PAGE + s % NPAGEREFS_PER_PAGE;
  }

  lemma {:induction false} BitSetCounts(bits: seq<bool>, i: nat)
    requires i < |bits|
    ensures bits[i] ==> Count(bits) > 0
  {
    CountUpdate(bits, i, false);
  }

  lemma {:induction false} NoneSet(bits: seq<bool>)
    requires forall i :: 0 <= i < |bits| ==> !bits[i]
    ensures Count(bits) == 0
    decreases |bits|
  {
    if |bits| > 0 {
      NoneSet(bits[1..]);
    }
  }

  /** The search through one bitmap, a word at a time, skipping full words. */
  method FirstClear(bits: seq<bool>) returns (b: nat)
    requires |bits| == NPAGEREFS_PER_PAGE && Count(bits) < NPAGEREFS_PER_PAGE
    ensures b < |bits| && !bits[b] && forall i :: 0 <= i < b ==> bits[i]
  {
    CountFull(bits);
    b := 0;
    var i := 0;
    while i < INUSE_WORDS
      invariant 0 <= i <= INUSE_WORDS
      invariant forall k :: 0 <= k < i * 32 ==> bits[k]
    {
      var full := forall k :: i * 32 <= k < i * 32 + 32 ==> bits[k];
      if !full {
        var j := 0;
        while j < 32
          invariant 0 <= j <= 32
          invariant forall k :: i * 32 <= k < i * 32 + j ==> bits[k]
        {
          if !bits[i * 32 + j] {
            return i * 32 + j;
          }
          j := j + 1;
        }
        assert false;
      }
      i := i + 1;
    }
    assert false;
  }
}
