/** Program arguments on their way through the kernel: copied in from the old user program, out to the new one's stack. */
module ArgBuf {
  import opened UserMemory
  import opened Words

  datatype Result = Ok | EFAULT | E2BIG

  /** The strings one after the other, each with its terminator. */
  ghost function Packed(args: seq<seq<nat>>): seq<nat>
    decreases |args|
  {
    if args == [] then [] else Packed(args[..|args| - 1]) + args[|args| - 1] + [0]
  }

  ghost predicate Strings(args: seq<seq<nat>>) {
    forall i :: 0 <= i < |args| ==> NoNul(args[i])
  }

  ghost predicate NoNul(s: seq<nat>) {
    forall j :: 0 <= j < |s| ==> s[j] != 0
  }

  /** The first arguments of the argv at `u`: pointers, and strings where they point. */
  ghost predicate ArgvPrefix(m: Memory, u: nat, ptrs: seq<nat>, args: seq<seq<nat>>) {
    |ptrs| == |args| && forall i :: 0 <= i < |ptrs| ==> ArgAt(m, u, i, ptrs[i], args[i])
  }

  ghost predicate ArgAt(m: Memory, u: nat, i: nat, p: nat, s: seq<nat>) {
    p != 0 && WordAt(m, u + WORD * i, p) && StringAt(m, p, s)
  }

  /** A whole argv, with the null pointer at its end. */
  ghost predicate Argv(m: Memory, u: nat, ptrs: seq<nat>, args: seq<seq<nat>>) {
    ArgvPrefix(m, u, ptrs, args) && WordAt(m, u + WORD * |args|, 0)
  }

  lemma {:induction false} PackedSnoc(args: seq<seq<nat>>, s: seq<nat>)
    ensures Packed(args + [s]) == Packed(args) + s + [0] && |Packed(args + [s])| == |Packed(args)| + |s| + 1
  {
    assert (args + [s])[..|args|] == args;
  }

  /** Longer argument lists take more space, by at least one byte per argument. */
  lemma {:induction false} PackedGrows(args: seq<seq<nat>>, j: nat, k: nat)
    requires j <= k <= |args|
    ensures |Packed(args[..j])| + (k - j) <= |Packed(args[..k])|
    decreases k - j
  {
    if j < k {
      PackedGrows(args, j, k - 1);
      PackedSnoc(args[..k - 1], args[k - 1]);
      assert args[..k] == args[..k - 1] + [args[k - 1]];
    }
  }

  /** Why copying in stopped, after `args` had been read. */
  ghost predicate Stopped(m: Memory, u: nat, max: nat, ptrs: seq<nat>, args: seq<seq<nat>>, r: Result) {
    && ArgvPrefix(m, u, ptrs, args)
    && |Packed(args)| <= max
    && var end, room := u + WORD * |args|, max - |Packed(args)|;
       match r
       case Ok => WordAt(m, end, 0)
       case E2BIG => WordMapped(m, end) && forall p :: WordAt(m, end, p) ==> p != 0 && Scans(m, p, room, TooLong)
       case EFAULT => !WordMapped(m, end) || forall p :: WordAt(m, end, p) ==> p != 0 && Scans(m, p, room, Fault)
  }

  lemma {:induction false} NoArgs(m: Memory, u: nat)
    ensures ArgvPrefix(m, u, [], []) && Packed([]) == [] && Strings([])
  {
  }

  /** The word at an address is no other than `p`. */
  lemma {:induction false} NotNull(m: Memory, u: nat, p: nat)
    requires WordAt(m, u, p)
    ensures forall q :: WordAt(m, u, q) <==> q == p
    ensures WordMapped(m, u)
  {
  }

  ghost function Bytes(m: Memory, a: nat, n: nat): (s: seq<nat>)
    requires Mapped(m, a, n)
    ensures |s| == n && forall j :: 0 <= j < n ==> s[j] == m[a + j]
  {
    seq(n, j requires 0 <= j < n => m[a + j])
  }

  lemma {:induction false} FoundBytes(m: Memory, a: nat, room: nat, n: nat)
    requires Scans(m, a, room, Found(n))
    ensures n < room && Mapped(m, a, n) && a + n in m && m[a + n] == 0 && NoNul(Bytes(m, a, n)) && StringAt(m, a, Bytes(m, a, n))
  {
    var s := Bytes(m, a, n);
    forall b | a <= b < a + n
      ensures m[b] == s[b - a] && m[b] != 0
    {
      assert s[b - a] == m[a + (b - a)];
    }
    forall j | 0 <= j < n
      ensures s[j] != 0
    {
      assert m[a + j] != 0;
    }
  }

  lemma {:induction false} OneMore(m: Memory, u: nat, ptrs: seq<nat>, args: seq<seq<nat>>, p: nat, s: seq<nat>)
    requires ArgvPrefix(m, u, ptrs, args) && Strings(args) && p != 0 && WordAt(m, u + WORD * |args|, p) && StringAt(m, p, s) && NoNul(s)
    ensures ArgvPrefix(m, u, ptrs + [p], args + [s]) && Strings(args + [s])
  {
    hide WordAt, StringAt, NoNul;
    var ptrs', args' := ptrs + [p], args + [s];
    forall i | 0 <= i < |ptrs'|
      ensures ArgAt(m, u, i, ptrs'[i], args'[i])
    {
      assert i < |ptrs| ==> ArgAt(m, u, i, ptrs[i], args[i]);
    }
  }

  class Buffer {
    const data: array<nat>
    var len: nat
    var nargs: nat

    constructor (max: nat)
      ensures fresh(data) && data.Length == max && len == 0 && nargs == 0
    {
      data := new nat[max];
      len, nargs := 0, 0;
    }

    /** The buffer holds the arguments. */
    ghost predicate Holds(args: seq<seq<nat>>)
      reads this, data
    {
      len <= data.Length && data[..len] == Packed(args) && nargs == |args| && Strings(args)
    }

    /** `argbuf_copyin`. */
    method CopyIn(m: Memory, uargv: nat) returns (r: Result, ghost ptrs: seq<nat>, ghost args: seq<seq<nat>>)
      requires len == 0
      modifies this, data
      ensures Stopped(m, uargv, data.Length, ptrs, args, r)
      ensures r == Ok ==> Holds(args)
    {
      hide WordAt, StringAt, Packed, ArgvPrefix, Scans, NoNul, Plain, Strings;
      NoArgs(m, uargv);
      nargs := 0;
      var u := uargv;
      ptrs, args := [], [];
      while true
        invariant u == uargv + WORD * nargs && len <= data.Length && Holds(args) && ArgvPrefix(m, uargv, ptrs, args)
        decreases data.Length - len
      {
        var ok, p := CopyInWord(m, u);
        if !ok {
          return EFAULT, ptrs, args;
        }
        if p == 0 {
          return Ok, ptrs, args;
        }
        NotNull(m, u, p);
        var scan; ghost var s;
        scan, s := Fetch(m, p, args);
        if scan == TooLong {
          return E2BIG, ptrs, args;
        }
        if scan == Fault {
          return EFAULT, ptrs, args;
        }
        OneMore(m, uargv, ptrs, args, p, s);
        u := u + WORD;
        nargs := nargs + 1;
        ptrs, args := ptrs + [p], args + [s];
      }
    }

    /** Reading one argument string behind the others. */
    method Fetch(m: Memory, p: nat, ghost args: seq<seq<nat>>) returns (scan: Scan, ghost s: seq<nat>)
      requires len <= data.Length && data[..len] == Packed(args)
      modifies this`len, data
      ensures Scans(m, p, data.Length - old(len), scan)
      ensures !scan.Found? ==> len == old(len)
      ensures scan.Found? ==> old(len) < len <= data.Length && data[..len] == Packed(args + [s]) && NoNul(s) && StringAt(m, p, s)
    {
      hide StringAt, Packed, Scans, NoNul;
      s := [];
      ghost var before := data[..len];
      scan := CopyInStr(m, p, data.Length - len, data, len);
      if scan.Found? {
        FoundBytes(m, p, data.Length - len, scan.n);
        s := Bytes(m, p, scan.n);
        assert data[..len + scan.n + 1] == before + s + [0];
        PackedSnoc(args, s);
        len := len + scan.n + 1;
      }
    }

    /**
     * `argbuf_copyout`.  On success the new stack holds the arguments as an argv: the pointers, a null pointer, and
     * right behind them the strings; nothing else changes.  It succeeds exactly when that space is mapped.
     */
    method CopyOut(m: Memory, top: nat, ghost args: seq<seq<nat>>) returns (r: Result, m': Memory, stack: nat, argc: nat, uargv: nat)
      requires Holds(args) && len + 3 + WORD * (nargs + 1) <= top < TWO32
      ensures argc == |args| && stack == uargv && uargv == StringBase(top, len) - WORD * (nargs + 1)
      ensures r == Ok <==> Mapped(m, uargv, WORD * (nargs + 1) + len)
      ensures r != E2BIG
      ensures r == Ok ==> SameOutside(m, m', uargv, WORD * (nargs + 1) + len)
      ensures r == Ok ==> Argv(m', uargv, Pointers(args, StringBase(top, len)), args)
    {
      hide WordAt, StringAt, Packed, Strings, NoNul, Mapped, WordMapped;
      var base := top - len;
      base := base - base % WORD;
      stack := base - WORD * (nargs + 1);
      uargv, argc, r, m' := stack, nargs, EFAULT, m;
      var pos, i := 0, 0;
      PlacedNone(m, uargv, base, args);
      PackedWhole(args);
      while pos < len
        invariant 0 <= i <= nargs && pos == |Packed(args[..i])|
        invariant Placed(m, m', uargv, base, args, i)
      {
        MoreArgs(args, i);
        PackedPiece(args, i);
        var ok;
        ghost var m1 := m';
        ok, m' := CopyOutWord(m', uargv + WORD * i, base + pos);
        if !ok {
          WordMissing(m, m1, uargv, base, args, i);
          return;
        }
        ghost var m2 := m';
        var n;
        InData(args, i, data[..len]);
        ok, m', n := CopyOutStr(data, pos, |args[i]|, m', base + pos);
        if !ok {
          StringMissing(m, m2, uargv, base, args, i);
          return;
        }
        PlacedOne(m, m1, m2, m', uargv, base, args, i);
        pos := pos + n;
        i := i + 1;
      }
      MoreArgs(args, i);
      ghost var m1 := m';
      var ok;
      ok, m' := CopyOutWord(m', uargv + WORD * i, 0);
      if !ok {
        WordMissing(m, m1, uargv, base, args, i);
        return;
      }
      r := Ok;
      Finished(m, m1, m', uargv, base, args);
    }
  }

  lemma {:induction false} InData(args: seq<seq<nat>>, i: nat, data: seq<nat>)
    requires i < |args| && Strings(args) && data == Packed(args)
    ensures var pos, n := |Packed(args[..i])|, |args[i]|;
      pos + n < |data| && data[pos + n] == 0 && forall j :: pos <= j < pos + n ==> data[j] != 0
  {
    PackedPiece(args, i);
    hide Packed;
    var pos, s := |Packed(args[..i])|, args[i];
    assert NoNul(s);
    var piece := data[pos..pos + |s| + 1];
    assert piece == s + [0];
    assert data[pos + |s|] == piece[|s|];
    forall j | pos <= j < pos + |s|
      ensures data[j] != 0
    {
      assert data[j] == piece[j - pos];
    }
  }

  /** Where the strings go: below the stack top, aligned. */
  function StringBase(top: nat, len: nat): (b: nat)
    requires len + 3 <= top
    ensures b + len <= top < b + len + WORD && b % WORD == 0
  {
    (top - len) - (top - len) % WORD
  }

  ghost function Pointers(args: seq<seq<nat>>, base: nat): (p: seq<nat>)
    ensures |p| == |args| && forall i :: 0 <= i < |args| ==> p[i] == base + |Packed(args[..i])|
  {
    seq(|args|, i requires 0 <= i < |args| => base + |Packed(args[..i])|)
  }

  // ----- copying out

  /** After the first `k` arguments: their pointers and strings are in place, and nothing outside of the space has changed. */
  ghost predicate Placed(m: Memory, m': Memory, u: nat, base: nat, args: seq<seq<nat>>, k: nat)
    requires k <= |args|
  {
    && m'.Keys == m.Keys
    && (forall i :: 0 <= i < k ==> WordAt(m', u + WORD * i, Pointers(args, base)[i]))
    && StringsIn(m', base, args, k)
    && forall b :: b in m && !(u <= b < base + |Packed(args)|) ==> m'[b] == m[b]
  }

  ghost predicate StringsIn(m: Memory, base: nat, args: seq<seq<nat>>, k: nat)
    requires k <= |args|
  {
    && |Packed(args[..k])| <= |Packed(args)|
    && forall b :: base <= b < base + |Packed(args[..k])| ==> b in m && m[b] == Packed(args)[b - base]
  }

  lemma {:induction false} PlacedNone(m: Memory, u: nat, base: nat, args: seq<seq<nat>>)
    ensures Placed(m, m, u, base, args, 0) && |Packed(args[..0])| == 0
  {
    assert args[..0] == [];
  }

  lemma {:induction false} PackedWhole(args: seq<seq<nat>>)
    ensures args[..|args|] == args
  {
  }

  /** The next argument exists as long as there are bytes left, and its string is the next piece of the data. */
  lemma {:induction false} PackedPiece(args: seq<seq<nat>>, i: nat)
    requires i < |args|
    ensures var pos := |Packed(args[..i])|;
      && |Packed(args[..i + 1])| == pos + |args[i]| + 1 <= |Packed(args)|
      && Packed(args)[pos..pos + |args[i]| + 1] == args[i] + [0]
    decreases |args|
  {
    var last := |args| - 1;
    var rest := args[..last];
    PackedSnoc(rest, args[last]);
    assert args == rest + [args[last]];
    assert args[..i] == rest[..i];
    if i < last {
      PackedPiece(rest, i);
      assert args[..i + 1] == rest[..i + 1];
    } else {
      assert args[..i] == rest && args[..i + 1] == args;
    }
  }

  lemma {:induction false} MoreArgs(args: seq<seq<nat>>, i: nat)
    requires i <= |args|
    ensures |Packed(args[..i])| < |Packed(args)| ==> i < |args|
    ensures |Packed(args[..i])| >= |Packed(args)| ==> i == |args|
  {
    PackedGrows(args, i, |args|);
    PackedWhole(args);
  }

  lemma {:induction false} WordOutside(m: Memory, m': Memory, a: nat, n: nat, x: nat, v: nat)
    requires SameOutside(m, m', a, n) && WordAt(m, x, v) && (x + WORD <= a || a + n <= x)
    ensures WordAt(m', x, v)
  {
  }

  /** A pointer and its string have been copied. */
  lemma {:induction false} PlacedOne(m: Memory, m1: Memory, m2: Memory, m3: Memory, u: nat, base: nat, args: seq<seq<nat>>, i: nat)
    requires i < |args| && base == u + WORD * (|args| + 1) && Placed(m, m1, u, base, args, i)
    requires SameOutside(m1, m2, u + WORD * i, WORD) && WordAt(m2, u + WORD * i, Pointers(args, base)[i])
    requires var pos, n := |Packed(args[..i])|, |args[i]| + 1;
      && SameOutside(m2, m3, base + pos, n) && Mapped(m2, base + pos, n) && pos + n <= |Packed(args)|
      && forall b :: base + pos <= b < base + pos + n ==> m3[b] == Packed(args)[b - base]
    ensures Placed(m, m3, u, base, args, i + 1)
  {
    hide WordAt, Packed;
    var pos, n := |Packed(args[..i])|, |args[i]| + 1;
    PackedPiece(args, i);
    forall j | 0 <= j < i + 1
      ensures WordAt(m3, u + WORD * j, Pointers(args, base)[j])
    {
      if j < i {
        WordOutside(m1, m2, u + WORD * i, WORD, u + WORD * j, Pointers(args, base)[j]);
      }
      WordOutside(m2, m3, base + pos, n, u + WORD * j, Pointers(args, base)[j]);
    }
  }

  lemma {:induction false} WordMissing(m: Memory, m1: Memory, u: nat, base: nat, args: seq<seq<nat>>, i: nat)
    requires i <= |args| && m1.Keys == m.Keys && !WordMapped(m1, u + WORD * i)
    ensures !Mapped(m, u, WORD * (|args| + 1) + |Packed(args)|)
  {
    var a := u + WORD * i;
    assert a !in m || a + 1 !in m || a + 2 !in m || a + 3 !in m;
    assert WORD * i + WORD <= WORD * (|args| + 1);
  }

  lemma {:induction false} StringMissing(m: Memory, m2: Memory, u: nat, base: nat, args: seq<seq<nat>>, i: nat)
    requires i < |args| && m2.Keys == m.Keys && base == u + WORD * (|args| + 1)
    requires !Mapped(m2, base + |Packed(args[..i])|, |args[i]| + 1)
    ensures !Mapped(m, u, WORD * (|args| + 1) + |Packed(args)|)
  {
    PackedPiece(args, i);
    hide Packed;
    var pos := |Packed(args[..i])|;
    var b :| base + pos <= b < base + pos + |args[i]| + 1 && b !in m2;
  }

  /** All of it is in place once the null pointer has been written. */
  lemma {:induction false} Finished(m: Memory, m1: Memory, m2: Memory, u: nat, base: nat, args: seq<seq<nat>>)
    requires base == u + WORD * (|args| + 1) && base > 0 && Strings(args) && Placed(m, m1, u, base, args, |args|)
    requires SameOutside(m1, m2, u + WORD * |args|, WORD) && WordAt(m2, u + WORD * |args|, 0)
    ensures Argv(m2, u, Pointers(args, base), args) && SameOutside(m, m2, u, WORD * (|args| + 1) + |Packed(args)|)
    ensures Mapped(m, u, WORD * (|args| + 1) + |Packed(args)|)
  {
    hide Packed, WordAt, StringAt, Strings;
    PackedWhole(args);
    forall i | 0 <= i < |args|
      ensures ArgAt(m2, u, i, Pointers(args, base)[i], args[i])
    {
      WordOutside(m1, m2, u + WORD * |args|, WORD, u + WORD * i, Pointers(args, base)[i]);
      StringStored(m1, m2, u, base, args, i);
    }
    forall b | u <= b < u + WORD * (|args| + 1) + |Packed(args)|
      ensures b in m
    {
      if b < base {
        var i := (b - u) / WORD;
        WordCovers(m2, u, i, b, if i < |args| then Pointers(args, base)[i] else 0);
      }
    }
  }

  lemma {:induction false} WordCovers(m: Memory, u: nat, i: nat, b: nat, v: nat)
    requires WordAt(m, u + WORD * i, v) && u + WORD * i <= b < u + WORD * i + WORD
    ensures b in m
  {
  }

  lemma {:induction false} StringStored(m1: Memory, m2: Memory, u: nat, base: nat, args: seq<seq<nat>>, i: nat)
    requires i < |args| && base == u + WORD * (|args| + 1) && Strings(args) && StringsIn(m1, base, args, |args|)
    requires SameOutside(m1, m2, u + WORD * |args|, WORD)
    ensures StringAt(m2, Pointers(args, base)[i], args[i])
  {
    PackedWhole(args);
    PackedPiece(args, i);
    hide Packed;
    var pos, s := |Packed(args[..i])|, args[i];
    var p := base + pos;
    var data := Packed(args);
    var piece := data[pos..pos + |s| + 1];
    assert piece == s + [0] && NoNul(s);
    forall b | p <= b < p + |s| + 1
      ensures b in m2 && m2[b] == piece[b - p]
    {
      assert m1[b] == data[b - base];
    }
    forall b | p <= b < p + |s|
      ensures m2[b] == s[b - p] && m2[b] != 0
    {
      assert piece[b - p] == s[b - p];
    }
    assert m2[p + |s|] == piece[p + |s| - p];
  }

  // ----- copying in

  /** What was read is the beginning of every argv that is there. */
  lemma {:induction false} ReadIsPrefix(m: Memory, u: nat, ptrs: seq<nat>, args: seq<seq<nat>>, ptrs': seq<nat>, args': seq<seq<nat>>)
    requires ArgvPrefix(m, u, ptrs, args) && Argv(m, u, ptrs', args')
    ensures |args| <= |args'| && args == args'[..|args|]
    decreases |args|
  {
    hide WordAt, StringAt;
    if args != [] {
      var last := |args| - 1;
      assert ArgvPrefix(m, u, ptrs[..last], args[..last]) by {
        forall i | 0 <= i < last
          ensures ArgAt(m, u, i, ptrs[..last][i], args[..last][i])
        {
          assert ArgAt(m, u, i, ptrs[i], args[i]);
        }
      }
      ReadIsPrefix(m, u, ptrs[..last], args[..last], ptrs', args');
      assert ArgAt(m, u, last, ptrs[last], args[last]);
      if last == |args'| {
        WordUnique(m, u + WORD * last, ptrs[last], 0);
        assert false;
      }
      assert ArgAt(m, u, last, ptrs'[last], args'[last]);
      WordUnique(m, u + WORD * last, ptrs[last], ptrs'[last]);
      StringUnique(m, ptrs[last], args[last], args'[last]);
      assert args == args[..last] + [args[last]] && args'[..last + 1] == args'[..last] + [args'[last]];
    }
  }

  /** A string that has a 0 or a byte that is not mapped within the room, or neither. */
  lemma {:induction false} ScanOf(m: Memory, p: nat, s: seq<nat>, room: nat)
    requires StringAt(m, p, s)
    ensures Scans(m, p, room, TooLong) ==> room > 0 && |s| >= room
    ensures Scans(m, p, room, Fault) ==> room == 0
  {
    assert p + |s| in m && m[p + |s|] == 0;
  }

  /** The argument that copying in stopped at. */
  lemma {:induction false} StoppedAt(m: Memory, u: nat, max: nat, ptrs: seq<nat>, args: seq<seq<nat>>, r: Result, ptrs': seq<nat>, args': seq<seq<nat>>)
    requires Stopped(m, u, max, ptrs, args, r) && Argv(m, u, ptrs', args')
    ensures |args| <= |args'| && args == args'[..|args|]
    ensures r == Ok ==> |args| == |args'|
    ensures r != Ok ==> |args| < |args'|
    ensures var room := max - |Packed(args)|; r == E2BIG ==> room > 0 && |args'[|args|]| >= room
    ensures r == EFAULT ==> |Packed(args)| == max
  {
    ReadIsPrefix(m, u, ptrs, args, ptrs', args');
    hide WordAt, StringAt, Packed, Scans;
    var k := |args|;
    var end := u + WORD * k;
    if k == |args'| {
      NotNull(m, end, 0);
    } else {
      assert ArgAt(m, u, k, ptrs'[k], args'[k]);
      NotNull(m, end, ptrs'[k]);
      ScanOf(m, ptrs'[k], args'[k], max - |Packed(args)|);
    }
  }

  /**
   * What copying in does with an argv that can be read.  It succeeds exactly when the strings fit.  When they do not,
   * the answer is E2BIG exactly if no number of arguments fills the buffer to the last byte; otherwise `copyinstr` is
   * called with no room left, and the answer is EFAULT.
   */
  lemma {:induction false} CopyInOutcome(m: Memory, u: nat, max: nat, ptrs: seq<nat>, args: seq<seq<nat>>, r: Result, ptrs': seq<nat>, args': seq<seq<nat>>)
    requires Stopped(m, u, max, ptrs, args, r) && Argv(m, u, ptrs', args')
    ensures r == Ok <==> |Packed(args')| <= max
    ensures r == Ok ==> args == args'
    ensures r == E2BIG <==> |Packed(args')| > max && forall k :: 0 <= k < |args'| ==> |Packed(args'[..k])| != max
  {
    StoppedAt(m, u, max, ptrs, args, r, ptrs', args');
    hide Packed, Argv, Stopped;
    PackedWhole(args');
    var k := |args|;
    if r != Ok {
      PackedPiece(args', k);
      PackedGrows(args', k + 1, |args'|);
      forall j | 0 <= j < |args'|
        ensures j <= k ==> |Packed(args'[..j])| <= |Packed(args)|
        ensures j > k ==> |Packed(args'[..j])| >= |Packed(args'[..k + 1])|
      {
        if j <= k {
          PackedGrows(args', j, k);
        } else {
          PackedGrows(args', k + 1, j);
        }
      }
    }
  }

  /** For instance: the arguments "a" and "b" and a buffer of two bytes. */
  lemma {:induction false} ExactlyFull(m: Memory, u: nat, ptrs: seq<nat>, args: seq<seq<nat>>, r: Result, ptrs': seq<nat>)
    requires Stopped(m, u, 2, ptrs, args, r) && Argv(m, u, ptrs', [[97], [98]])
    ensures r == EFAULT
  {
    var args' := [[97], [98]];
    CopyInOutcome(m, u, 2, ptrs, args, r, ptrs', args');
    hide Argv, Stopped;
    assert args' == [[97]] + [[98]] && args'[..1] == [[97]] && [[97]] == [] + [[97]];
    PackedSnoc([], [97]);
    PackedSnoc([[97]], [98]);
    assert |Packed(args'[..1])| == 2 && |Packed(args')| == 4;
  }

  /** The space that the pointers and the strings will take on the new stack is mapped. */
  ghost predicate RoomFor(m: Memory, top: nat, args: seq<seq<nat>>) {
    var n, p := |Packed(args)|, WORD * (|args| + 1);
    n + 3 <= top && p <= StringBase(top, n) && Mapped(m, StringBase(top, n) - p, p + n)
  }

  /** Why a transfer of the argv `args` ends as it does. */
  ghost predicate TransferOutcome(m: Memory, max: nat, top: nat, args: seq<seq<nat>>, r: Result) {
    && (r == Ok <==> |Packed(args)| <= max && RoomFor(m, top, args))
    && (r == E2BIG <==> |Packed(args)| > max && forall k :: 0 <= k < |args| ==> |Packed(args[..k])| != max)
  }

  /**
   * Both together: the new program finds the strings that the old one passed, in the same order.  That happens exactly
   * if the old program has an argv, which fits the buffer, and the new stack has room for it.
   */
  method Transfer(buf: Buffer, m: Memory, uargv: nat, m1: Memory, top: nat)
    returns (r: Result, m2: Memory, argc: nat, uargv': nat, ghost ptrs: seq<nat>, ghost args: seq<seq<nat>>)
    requires buf.len == 0 && buf.data.Length * 5 + 7 <= top < TWO32
    modifies buf, buf.data
    ensures r == Ok ==> Argv(m, uargv, ptrs, args) && argc == |args| && |Packed(args)| <= buf.data.Length
    ensures forall ptrs', args' :: Argv(m, uargv, ptrs', args') ==> TransferOutcome(m1, buf.data.Length, top, args', r)
    ensures r == Ok ==> var base := StringBase(top, |Packed(args)|);
      && Argv(m2, uargv', Pointers(args, base), args) && uargv' + WORD * (argc + 1) == base
      && SameOutside(m1, m2, uargv', base + |Packed(args)| - uargv')
  {
    hide Packed, Argv, Strings, Stopped, Mapped;
    m2, argc, uargv' := m1, 0, 0;
    r, ptrs, args := buf.CopyIn(m, uargv);
    ghost var read := r;
    forall ptrs', args' | Argv(m, uargv, ptrs', args')
      ensures read == Ok <==> |Packed(args')| <= buf.data.Length
      ensures read == Ok ==> args == args'
      ensures read == E2BIG <==> |Packed(args')| > buf.data.Length && forall k :: 0 <= k < |args'| ==> |Packed(args'[..k])| != buf.data.Length
    {
      CopyInOutcome(m, uargv, buf.data.Length, ptrs, args, read, ptrs', args');
    }
    if r == Ok {
      ArgsBound(args);
      StoppedOk(m, uargv, buf.data.Length, ptrs, args);
      var stack;
      r, m2, stack, argc, uargv' := buf.CopyOut(m1, top, args);
    }
  }

  lemma {:induction false} ArgsBound(args: seq<seq<nat>>)
    ensures |args| <= |Packed(args)|
  {
    PackedGrows(args, 0, |args|);
    PackedWhole(args);
    assert args[..0] == [];
  }

  lemma {:induction false} StoppedOk(m: Memory, u: nat, max: nat, ptrs: seq<nat>, args: seq<seq<nat>>)
    requires Stopped(m, u, max, ptrs, args, Ok)
    ensures Argv(m, u, ptrs, args) && |Packed(args)| <= max
  {
  }
}
