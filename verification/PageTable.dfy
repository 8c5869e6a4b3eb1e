/**
 * The hashed page table as data: buckets of chained entries, and what the entries of the whole table
 * amount to when each contributes a bag of values.
 */
module PageTable {
  import opened Multisets
  import opened Nonlinear

  /** `pid` is the address space; `frame`, `valid` and `dirty` are the EntryLo fields that the kernel sets. */
  datatype Pte = Pte(pid: nat, page: nat, frame: nat, valid: bool, dirty: bool)

  type Chain = seq<Pte>
  type Table = seq<Chain>

  // ----- collecting over chains and tables

  ghost function CollectChain<X>(c: Chain, g: Pte -> multiset<X>): multiset<X> {
    if |c| == 0 then multiset{} else g(c[0]) + CollectChain(c[1..], g)
  }

  ghost function Collect<X>(t: Table, g: Pte -> multiset<X>): multiset<X> {
    if |t| == 0 then multiset{} else CollectChain(t[0], g) + Collect(t[1..], g)
  }

  lemma {:induction false} ChainConcat<X>(c: Chain, d: Chain, g: Pte -> multiset<X>)
    ensures CollectChain(c + d, g) == CollectChain(c, g) + CollectChain(d, g)
    decreases |c|
  {
    if |c| == 0 {
      assert c + d == d;
    } else {
      assert (c + d)[1..] == c[1..] + d;
      ChainConcat(c[1..], d, g);
    }
  }

  /** A chain, split around one of its entries. */
  lemma {:induction false} ChainAt<X>(c: Chain, k: nat, g: Pte -> multiset<X>)
    requires k < |c|
    ensures CollectChain(c, g) == CollectChain(c[..k], g) + g(c[k]) + CollectChain(c[k + 1..], g)
  {
    assert c == c[..k] + ([c[k]] + c[k + 1..]);
    ChainConcat(c[..k], [c[k]] + c[k + 1..], g);
    assert ([c[k]] + c[k + 1..])[1..] == c[k + 1..];
  }

  lemma {:induction false} ChainUpdate<X>(c: Chain, k: nat, e: Pte, g: Pte -> multiset<X>)
    requires k < |c|
    ensures CollectChain(c[k := e], g) + g(c[k]) == CollectChain(c, g) + g(e)
  {
    ChainAt(c, k, g);
    ChainAt(c[k := e], k, g);
    assert c[k := e][..k] == c[..k] && c[k := e][k + 1..] == c[k + 1..];
  }

  lemma {:induction false} ChainRemove<X>(c: Chain, k: nat, g: Pte -> multiset<X>)
    requires k < |c|
    ensures CollectChain(c[..k] + c[k + 1..], g) + g(c[k]) == CollectChain(c, g)
  {
    ChainAt(c, k, g);
    ChainConcat(c[..k], c[k + 1..], g);
  }

  lemma {:induction false} TableUpdate<X>(t: Table, i: nat, c: Chain, g: Pte -> multiset<X>)
    requires i < |t|
    ensures Collect(t[i := c], g) + CollectChain(t[i], g) == Collect(t, g) + CollectChain(c, g)
    decreases i
  {
    if i == 0 {
      assert t[i := c][1..] == t[1..];
    } else {
      assert t[i := c][1..] == t[1..][i - 1 := c];
      TableUpdate(t[1..], i - 1, c, g);
      var h, r, r' := CollectChain(t[0], g), Collect(t[1..], g), Collect(t[1..][i - 1 := c], g);
      assert (h + r') + CollectChain(t[i], g) == h + (r' + CollectChain(t[i], g)) == h + (r + CollectChain(c, g));
    }
  }

  // ----- the three ways in which the table changes

  /** `insert_page` puts an entry at the head of a chain. */
  lemma {:induction false} InsertEntry<X>(t: Table, i: nat, e: Pte, g: Pte -> multiset<X>)
    requires i < |t|
    ensures Collect(t[i := [e] + t[i]], g) == Collect(t, g) + g(e)
  {
    TableUpdate(t, i, [e] + t[i], g);
    assert ([e] + t[i])[1..] == t[i];
    assert Collect(t, g) + (g(e) + CollectChain(t[i], g)) == (Collect(t, g) + g(e)) + CollectChain(t[i], g);
    Cancel(Collect(t[i := [e] + t[i]], g), Collect(t, g) + g(e), CollectChain(t[i], g));
  }

  lemma {:induction false} UpdateEntry<X>(t: Table, i: nat, k: nat, e: Pte, g: Pte -> multiset<X>)
    requires i < |t| && k < |t[i]|
    ensures Collect(t[i := t[i][k := e]], g) + g(t[i][k]) == Collect(t, g) + g(e)
  {
    TableUpdate(t, i, t[i][k := e], g);
    ChainUpdate(t[i], k, e, g);
    Exchange(Collect(t[i := t[i][k := e]], g), CollectChain(t[i], g), Collect(t, g), CollectChain(t[i][k := e], g),
             g(t[i][k]), g(e));
  }

  lemma {:induction false} RemoveEntry<X>(t: Table, i: nat, k: nat, g: Pte -> multiset<X>)
    requires i < |t| && k < |t[i]|
    ensures Collect(t[i := t[i][..k] + t[i][k + 1..]], g) + g(t[i][k]) == Collect(t, g)
  {
    TableUpdate(t, i, t[i][..k] + t[i][k + 1..], g);
    ChainRemove(t[i], k, g);
    var c := t[i][..k] + t[i][k + 1..];
    Exchange(Collect(t[i := c], g), CollectChain(t[i], g), Collect(t, g), CollectChain(c, g), g(t[i][k]), multiset{});
  }

  // ----- comparing what different functions collect

  lemma {:induction false} ChainSum<X>(c: Chain, g: Pte -> multiset<X>, h: Pte -> multiset<X>, gh: Pte -> multiset<X>)
    requires forall k :: 0 <= k < |c| ==> g(c[k]) + h(c[k]) <= gh(c[k])
    ensures CollectChain(c, g) + CollectChain(c, h) <= CollectChain(c, gh)
    decreases |c|
  {
    if |c| > 0 {
      ChainSum(c[1..], g, h, gh);
      assert g(c[0]) + h(c[0]) <= gh(c[0]);
    }
  }

  lemma {:induction false} TableSum<X>(t: Table, g: Pte -> multiset<X>, h: Pte -> multiset<X>, gh: Pte -> multiset<X>)
    requires forall e :: g(e) + h(e) <= gh(e)
    ensures Collect(t, g) + Collect(t, h) <= Collect(t, gh)
    decreases |t|
  {
    if |t| > 0 {
      ChainSum(t[0], g, h, gh);
      TableSum(t[1..], g, h, gh);
    }
  }

  /** An entry's own contribution is in what the table collects. */
  lemma {:induction false} Contributes<X>(t: Table, i: nat, k: nat, g: Pte -> multiset<X>)
    requires i < |t| && k < |t[i]|
    ensures g(t[i][k]) <= Collect(t, g)
  {
    RemoveEntry(t, i, k, g);
  }

  /** A nonempty collection comes from some entry. */
  lemma {:induction false} ComesFrom<X>(t: Table, g: Pte -> multiset<X>, x: X) returns (i: nat, k: nat)
    requires x in Collect(t, g)
    ensures i < |t| && k < |t[i]| && x in g(t[i][k])
    decreases |t|
  {
    if x in CollectChain(t[0], g) {
      i := 0;
      k := ComesFromChain(t[0], g, x);
    } else {
      i, k := ComesFrom(t[1..], g, x);
      assert t[1..][i] == t[i + 1];
      i := i + 1;
    }
  }

  lemma {:induction false} ComesFromChain<X>(c: Chain, g: Pte -> multiset<X>, x: X) returns (k: nat)
    requires x in CollectChain(c, g)
    ensures k < |c| && x in g(c[k])
    decreases |c|
  {
    if x in g(c[0]) {
      k := 0;
    } else {
      k := ComesFromChain(c[1..], g, x);
      k := k + 1;
    }
  }

  // ----- what is collected

  /** The frame an entry names. */
  ghost function Names(): Pte -> multiset<nat> {
    (e: Pte) => multiset{e.frame}
  }

  /** The frame that an entry of address space `a` names. */
  ghost function NamesIn(a: nat): Pte -> multiset<nat> {
    (e: Pte) => if e.pid == a then multiset{e.frame} else multiset{}
  }

  ghost function NamesDirty(): Pte -> multiset<nat> {
    (e: Pte) => if e.dirty then multiset{e.frame} else multiset{}
  }

  ghost function NamesClean(): Pte -> multiset<nat> {
    (e: Pte) => if e.dirty then multiset{} else multiset{e.frame}
  }

  type Data = seq<int>

  /** Page contents, with out-of-range frames reading as empty. */
  ghost function Content(mem: seq<Data>, f: nat): Data {
    if f < |mem| then mem[f] else []
  }

  /** What address space `a` sees through an entry: page number, valid bit and page contents. */
  ghost function Sees(mem: seq<Data>, a: nat): Pte -> multiset<(nat, bool, Data)> {
    (e: Pte) => if e.pid == a then multiset{(e.page, e.valid, Content(mem, e.frame))} else multiset{}
  }

  /** Address space `a` has no entry at all. */
  ghost predicate NoEntries(t: Table, a: nat) {
    forall i, k :: 0 <= i < |t| && 0 <= k < |t[i]| ==> t[i][k].pid != a
  }

  lemma {:induction false} NoEntriesNothing(t: Table, a: nat, mem: seq<Data>)
    requires NoEntries(t, a)
    ensures Collect(t, NamesIn(a)) == multiset{}
    ensures Collect(t, Sees(mem, a)) == multiset{}
  {
    if f :| f in Collect(t, NamesIn(a)) {
      var i, k := ComesFrom(t, NamesIn(a), f);
      assert false;
    }
    if v :| v in Collect(t, Sees(mem, a)) {
      var i, k := ComesFrom(t, Sees(mem, a), v);
      assert false;
    }
  }

  // ----- the part of the table that a walk has not reached yet

  /** What the last `r` entries of chain `i` and all later chains contribute. */
  ghost function Rest<X>(t: Table, i: nat, r: nat, g: Pte -> multiset<X>): multiset<X>
    requires i < |t| && r <= |t[i]|
  {
    CollectChain(t[i][|t[i]| - r..], g) + Collect(t[i + 1..], g)
  }

  lemma {:induction false} RestStart<X>(t: Table, i: nat, g: Pte -> multiset<X>)
    requires i < |t|
    ensures Collect(t[i..], g) == Rest(t, i, |t[i]|, g)
    ensures Rest(t, i, 0, g) == Collect(t[i + 1..], g)
  {
    assert t[i..][1..] == t[i + 1..] && t[i][0..] == t[i];
    assert t[i][|t[i]|..] == [];
  }

  lemma {:induction false} RestStep<X>(t: Table, i: nat, r: nat, g: Pte -> multiset<X>)
    requires i < |t| && 0 < r <= |t[i]|
    ensures Rest(t, i, r, g) == g(t[i][|t[i]| - r]) + Rest(t, i, r - 1, g)
  {
    assert t[i][|t[i]| - r..][1..] == t[i][|t[i]| - (r - 1)..];
  }

  /** The walk has passed an entry: changing it does not matter any more. */
  lemma {:induction false} RestAfterUpdate<X>(t: Table, i: nat, r: nat, e: Pte, g: Pte -> multiset<X>)
    requires i < |t| && 0 < r <= |t[i]|
    ensures Rest(t[i := t[i][|t[i]| - r := e]], i, r - 1, g) == Rest(t, i, r - 1, g)
  {
    var c := t[i][|t[i]| - r := e];
    assert c[|c| - (r - 1)..] == t[i][|t[i]| - (r - 1)..];
    assert t[i := c][i + 1..] == t[i + 1..];
  }

  /** An entry that contributes nothing may be put at the head of any chain, even the one being walked. */
  lemma {:induction false} RestAfterInsert<X>(t: Table, i: nat, r: nat, j: nat, e: Pte, g: Pte -> multiset<X>)
    requires i < |t| && j < |t| && r <= |t[i]| && g(e) == multiset{}
    ensures r <= |t[j := [e] + t[j]][i]|
    ensures Rest(t[j := [e] + t[j]], i, r, g) == Rest(t, i, r, g)
  {
    var t' := t[j := [e] + t[j]];
    if j <= i {
      assert t'[i + 1..] == t[i + 1..];
      assert t'[i][|t'[i]| - r..] == t[i][|t[i]| - r..];
    } else {
      var s, m := t[i + 1..], j - i - 1;
      assert t'[i + 1..] == s[m := [e] + s[m]];
      InsertEntry(s, m, e, g);
    }
  }

  // ----- hashing

  /** Bitwise exclusive or. */
  function BitXor(x: nat, y: nat): nat
    decreases x + y
  {
    if x == 0 && y == 0 then 0 else 2 * BitXor(x / 2, y / 2) + if x % 2 != y % 2 then 1 else 0
  }

  /** `hpt_hash`: the bucket of a page of an address space. */
  function HptHash(a: nat, page: nat, buckets: nat): (r: nat)
    requires buckets > 0
    ensures r < buckets
  {
    BitXor(a, page) % buckets
  }

  lemma {:induction false} XorTwice(x: nat, y: nat)
    ensures BitXor(BitXor(x, y), y) == x
    decreases x + y
  {
    if x != 0 || y != 0 {
      XorTwice(x / 2, y / 2);
      var z := BitXor(x, y);
      XorParts(x, y);
      XorParts(z, y);
    }
  }

  /** The low bit and the others. */
  lemma {:induction false} XorParts(x: nat, y: nat)
    ensures BitXor(x, y) / 2 == BitXor(x / 2, y / 2) && BitXor(x, y) % 2 == (if x % 2 != y % 2 then 1 else 0)
  {
  }

  lemma {:induction false} XorCommutes(x: nat, y: nat)
    ensures BitXor(x, y) == BitXor(y, x)
    decreases x + y
  {
    if x != 0 || y != 0 {
      XorCommutes(x / 2, y / 2);
    }
  }

  /** Two pages of an address space are in the same bucket only if their exclusive ors with it differ by a multiple of the table size. */
  lemma {:induction false} SameBucket(a: nat, p: nat, q: nat, buckets: nat)
    requires buckets > 0 && p != q && HptHash(a, p, buckets) == HptHash(a, q, buckets)
    ensures BitXor(a, p) != BitXor(a, q) && (BitXor(a, p) - BitXor(a, q)) % buckets == 0
    ensures BitXor(a, p) >= buckets || BitXor(a, q) >= buckets
  {
    XorCommutes(a, p);
    XorCommutes(a, q);
    XorTwice(p, a);
    XorTwice(q, a);
    hide BitXor;
    SameRemainder(BitXor(a, p), BitXor(a, q), buckets);
  }

  lemma SameRemainder(x: nat, y: nat, n: nat)
    requires n > 0 && x % n == y % n
    ensures (x - y) % n == 0 && (x < n && y < n ==> x == y)
  {
    DivMod(x, n);
    DivMod(y, n);
    var k := x / n - y / n;
    assert x - y == k * n;
    DivIs(x - y, n, k);
    if x < n && y < n {
      DivIs(x, n, 0);
      DivIs(y, n, 0);
    }
  }

  // ----- every entry is where its hash says

  ghost predicate InChains(t: Table, buckets: nat)
    requires buckets > 0
  {
    forall i, k :: 0 <= i < |t| && 0 <= k < |t[i]| ==> HptHash(t[i][k].pid, t[i][k].page, buckets) == i
  }

  lemma {:induction false} ChainsInsert(t: Table, buckets: nat, i: nat, e: Pte)
    requires buckets > 0 && InChains(t, buckets) && i < |t| && HptHash(e.pid, e.page, buckets) == i
    ensures InChains(t[i := [e] + t[i]], buckets)
  {
    hide HptHash;
    var t': Table := t[i := [e] + t[i]];
    forall j, k | 0 <= j < |t'| && 0 <= k < |t'[j]|
      ensures HptHash(t'[j][k].pid, t'[j][k].page, buckets) == j
    {
      assert j == i && k > 0 ==> t'[j][k] == t[j][k - 1];
    }
  }

  lemma {:induction false} ChainsUpdate(t: Table, buckets: nat, i: nat, k: nat, e: Pte)
    requires buckets > 0 && InChains(t, buckets) && i < |t| && k < |t[i]| && e.pid == t[i][k].pid && e.page == t[i][k].page
    ensures InChains(t[i := t[i][k := e]], buckets)
  {
    hide HptHash;
  }

  lemma {:induction false} ChainsRemove(t: Table, buckets: nat, i: nat, k: nat)
    requires buckets > 0 && InChains(t, buckets) && i < |t| && k < |t[i]|
    ensures InChains(t[i := t[i][..k] + t[i][k + 1..]], buckets)
  {
    hide HptHash;
    var t': Table := t[i := t[i][..k] + t[i][k + 1..]];
    forall j, l | 0 <= j < |t'| && 0 <= l < |t'[j]|
      ensures HptHash(t'[j][l].pid, t'[j][l].page, buckets) == j
    {
      assert j == i ==> t'[j][l] == t[j][if l < k then l else l + 1];
    }
  }

  // ----- what an address space sees, in the order in which its entries are found

  ghost function SeenIn(mem: seq<Data>, a: nat, c: Chain): seq<(nat, bool, Data)>
    decreases |c|
  {
    if c == [] then [] else
    (if c[0].pid == a then [(c[0].page, c[0].valid, Content(mem, c[0].frame))] else []) + SeenIn(mem, a, c[1..])
  }

  /** Chain by chain. */
  ghost function SightOf(t: Table, mem: seq<Data>, a: nat): (s: seq<seq<(nat, bool, Data)>>)
    ensures |s| == |t| && forall i :: 0 <= i < |t| ==> s[i] == SeenIn(mem, a, t[i])
  {
    seq(|t|, i requires 0 <= i < |t| => SeenIn(mem, a, t[i]))
  }

  /** An entry of another address space at the head of a chain. */
  lemma {:induction false} SightInsert(t: Table, mem: seq<Data>, a: nat, i: nat, e: Pte)
    requires i < |t| && e.pid != a
    ensures SightOf(t[i := [e] + t[i]], mem, a) == SightOf(t, mem, a)
  {
    assert ([e] + t[i])[1..] == t[i];
    assert SeenIn(mem, a, [e] + t[i]) == [] + SeenIn(mem, a, t[i]) == SeenIn(mem, a, t[i]);
  }

  /** An entry that changes without its owner seeing it. */
  lemma {:induction false} SeenUpdate(mem: seq<Data>, mem': seq<Data>, a: nat, c: Chain, k: nat, e: Pte)
    requires k < |c| && e.pid == c[k].pid && e.page == c[k].page && e.valid == c[k].valid
    requires forall l :: 0 <= l < |c| && c[l].pid == a ==> Content(mem', c[k := e][l].frame) == Content(mem, c[l].frame)
    ensures SeenIn(mem', a, c[k := e]) == SeenIn(mem, a, c)
    decreases |c|
  {
    hide Content;
    if k == 0 {
      assert c[k := e][1..] == c[1..];
      forall l | 0 <= l < |c[1..]| && c[1..][l].pid == a
        ensures Content(mem', c[1..][l].frame) == Content(mem, c[1..][l].frame)
      {
        assert c[k := e][l + 1] == c[l + 1];
      }
      SeenSame(mem, mem', a, c[1..]);
    } else {
      assert c[k := e][1..] == c[1..][k - 1 := e] && c[k := e][0] == c[0];
      forall l | 0 <= l < |c[1..]| && c[1..][l].pid == a
        ensures Content(mem', c[1..][k - 1 := e][l].frame) == Content(mem, c[1..][l].frame)
      {
        assert c[k := e][l + 1] == c[1..][k - 1 := e][l];
      }
      SeenUpdate(mem, mem', a, c[1..], k - 1, e);
    }
  }

  lemma {:induction false} SeenSame(mem: seq<Data>, mem': seq<Data>, a: nat, c: Chain)
    requires forall l :: 0 <= l < |c| && c[l].pid == a ==> Content(mem', c[l].frame) == Content(mem, c[l].frame)
    ensures SeenIn(mem', a, c) == SeenIn(mem, a, c)
    decreases |c|
  {
    hide Content;
    if c != [] {
      SeenSame(mem, mem', a, c[1..]);
    }
  }

  lemma {:induction false} SightUpdate(t: Table, mem: seq<Data>, a: nat, i: nat, k: nat, e: Pte)
    requires i < |t| && k < |t[i]| && e == t[i][k].(dirty := e.dirty)
    ensures SightOf(t[i := t[i][k := e]], mem, a) == SightOf(t, mem, a)
  {
    SeenUpdate(mem, mem, a, t[i], k, e);
  }

  lemma {:induction false} SeenRemove(mem: seq<Data>, a: nat, c: Chain, k: nat)
    requires k < |c| && c[k].pid != a
    ensures SeenIn(mem, a, c[..k] + c[k + 1..]) == SeenIn(mem, a, c)
    decreases |c|
  {
    hide Content;
    if k == 0 {
      assert c[..0] + c[1..] == c[1..];
    } else {
      var c' := c[..k] + c[k + 1..];
      assert c'[0] == c[0] && c'[1..] == c[1..][..k - 1] + c[1..][k..];
      SeenRemove(mem, a, c[1..], k - 1);
    }
  }

  lemma {:induction false} SightRemove(t: Table, mem: seq<Data>, a: nat, i: nat, k: nat)
    requires i < |t| && k < |t[i]| && t[i][k].pid != a
    ensures SightOf(t[i := t[i][..k] + t[i][k + 1..]], mem, a) == SightOf(t, mem, a)
  {
    SeenRemove(mem, a, t[i], k);
  }

  /** Memory that none of the address space's entries name. */
  lemma {:induction false} SightMemory(t: Table, mem: seq<Data>, mem': seq<Data>, f: nat, a: nat)
    requires |mem| == |mem'| && forall g :: 0 <= g < |mem| && g != f ==> mem[g] == mem'[g]
    requires f !in Collect(t, NamesIn(a))
    ensures SightOf(t, mem', a) == SightOf(t, mem, a)
  {
    hide Collect;
    forall i | 0 <= i < |t|
      ensures SeenIn(mem', a, t[i]) == SeenIn(mem, a, t[i])
    {
      forall k | 0 <= k < |t[i]| && t[i][k].pid == a
        ensures t[i][k].frame != f
      {
        Contributes(t, i, k, NamesIn(a));
        assert t[i][k].frame in NamesIn(a)(t[i][k]);
      }
      SeenSame(mem, mem', a, t[i]);
    }
  }

  /** Pointing an entry at a frame with the same contents that nothing else names. */
  lemma {:induction false} SightMove(t: Table, mem: seq<Data>, mem': seq<Data>, i: nat, k: nat, e: Pte, a: nat)
    requires i < |t| && k < |t[i]| && e == t[i][k].(frame := e.frame, dirty := e.dirty)
    requires e.frame < |mem| && t[i][k].frame < |mem| && mem' == mem[e.frame := mem[t[i][k].frame]] && e.frame !in Collect(t, Names())
    ensures SightOf(t[i := t[i][k := e]], mem', a) == SightOf(t, mem, a)
  {
    hide Collect;
    forall j, l | 0 <= j < |t| && 0 <= l < |t[j]|
      ensures t[j][l].frame != e.frame
    {
      Contributes(t, j, l, Names());
      assert t[j][l].frame in Names()(t[j][l]);
    }
    forall j | 0 <= j < |t|
      ensures SeenIn(mem', a, t[i := t[i][k := e]][j]) == SeenIn(mem, a, t[j])
    {
      if j == i {
        SeenUpdate(mem, mem', a, t[i], k, e);
      } else {
        SeenSame(mem, mem', a, t[j]);
      }
    }
  }

  lemma {:induction false} SeenBag(mem: seq<Data>, a: nat, c: Chain)
    ensures CollectChain(c, Sees(mem, a)) == multiset(SeenIn(mem, a, c))
    decreases |c|
  {
    hide Content;
    if c != [] {
      SeenBag(mem, a, c[1..]);
    }
  }

  /** What is seen in order determines what is seen at all. */
  lemma {:induction false} SightBag(t: Table, t': Table, mem: seq<Data>, mem': seq<Data>, a: nat)
    requires SightOf(t, mem, a) == SightOf(t', mem', a)
    ensures Collect(t, Sees(mem, a)) == Collect(t', Sees(mem', a))
    decreases |t|
  {
    assert |SightOf(t, mem, a)| == |t| && |SightOf(t', mem', a)| == |t'|;
    if |t| > 0 {
      SeenBag(mem, a, t[0]);
      SeenBag(mem', a, t'[0]);
      assert SightOf(t, mem, a)[0] == SightOf(t', mem', a)[0];
      assert SightOf(t[1..], mem, a) == SightOf(t, mem, a)[1..];
      assert SightOf(t'[1..], mem', a) == SightOf(t', mem', a)[1..];
      SightBag(t[1..], t'[1..], mem, mem', a);
    }
  }

  /** The first valid page in what is seen. */
  ghost function FirstValid(s: seq<(nat, bool, Data)>): seq<(nat, bool, Data)>
    decreases |s|
  {
    if s == [] then [] else if s[0].1 then [s[0]] else FirstValid(s[1..])
  }

  /** What the search of a chain finds for an address space is the first valid page that it sees there. */
  lemma {:induction false} FoundIsSeen(mem: seq<Data>, a: nat, c: Chain, k: nat)
    requires k <= |c| && (forall l :: 0 <= l < k ==> !(c[l].pid == a && c[l].valid)) && (k < |c| ==> c[k].pid == a && c[k].valid)
    ensures FirstValid(SeenIn(mem, a, c)) == if k < |c| then [(c[k].page, true, Content(mem, c[k].frame))] else []
    decreases |c|
  {
    hide Content;
    if c != [] {
      if k > 0 {
        FoundIsSeen(mem, a, c[1..], k - 1);
      }
      var rest := SeenIn(mem, a, c[1..]);
      assert c[0].pid == a ==> SeenIn(mem, a, c)[1..] == rest;
      assert c[0].pid != a ==> SeenIn(mem, a, c) == rest;
    }
  }
}
