/** User memory as the kernel sees it when it copies: the mapped bytes, and words and strings in them. */
module UserMemory {
  import opened Words


  const WORD: nat := 4

  /** The mapped bytes of an address space. */
  type Memory = map<nat, nat>

  ghost predicate Mapped(m: Memory, a: nat, n: nat) {
    forall b :: a <= b < a + n ==> b in m
  }

  /** A pointer is four bytes, the most significant first. */
  function Joined(x: nat, y: nat, z: nat, w: nat): nat {
    ((x * 256 + y) * 256 + z) * 256 + w
  }

  ghost predicate WordAt(m: Memory, a: nat, v: nat) {
    a in m && a + 1 in m && a + 2 in m && a + 3 in m && Joined(m[a], m[a + 1], m[a + 2], m[a + 3]) == v
  }

  predicate WordMapped(m: Memory, a: nat) {
    a in m && a + 1 in m && a + 2 in m && a + 3 in m
  }

  /** The two memories agree outside of `n` bytes at `a`. */
  ghost predicate SameOutside(m: Memory, m': Memory, a: nat, n: nat) {
    m'.Keys == m.Keys && forall b :: b in m && !(a <= b < a + n) ==> m'[b] == m[b]
  }

  /** `copyin` of a pointer. */
  method CopyInWord(m: Memory, a: nat) returns (ok: bool, v: nat)
    ensures ok <==> WordMapped(m, a)
    ensures ok ==> WordAt(m, a, v)
  {
    ok, v := false, 0;
    if a in m && a + 1 in m && a + 2 in m && a + 3 in m {
      ok, v := true, Joined(m[a], m[a + 1], m[a + 2], m[a + 3]);
    }
  }

  lemma Split(v: nat)
    requires v < TWO32
    ensures Joined(v / 0x100_0000, v / 0x1_0000 % 256, v / 256 % 256, v % 256) == v
  {
    var a := v / 256;
    var b := a / 256;
    var c := b / 256;
    assert v / 0x1_0000 == b && v / 0x100_0000 == c;
    assert Joined(c, b % 256, a % 256, v % 256) == v;
  }

  /** `copyout` of a pointer. */
  method CopyOutWord(m: Memory, a: nat, v: nat) returns (ok: bool, m': Memory)
    requires v < TWO32
    ensures ok <==> WordMapped(m, a)
    ensures ok ==> WordAt(m', a, v) && SameOutside(m, m', a, WORD)
  {
    ok, m' := false, m;
    if a in m && a + 1 in m && a + 2 in m && a + 3 in m {
      Split(v);
      hide Joined;
      ok := true;
      m' := m[a := v / 0x100_0000][a + 1 := v / 0x1_0000 % 256][a + 2 := v / 256 % 256][a + 3 := v % 256];
    }
  }

  /** A string of bytes that are not 0, and a 0 behind it. */
  ghost predicate StringAt(m: Memory, a: nat, s: seq<nat>) {
    && (forall b :: a <= b < a + |s| ==> b in m && m[b] == s[b - a] && m[b] != 0)
    && a + |s| in m && m[a + |s|] == 0
  }

  /** The first `k` bytes are mapped and none of them is 0. */
  ghost predicate Plain(m: Memory, a: nat, k: nat) {
    forall b :: a <= b < a + k ==> b in m && m[b] != 0
  }

  datatype Scan = Fault | TooLong | Found(n: nat)

  /** What comes first in the `room` bytes at `a`: the end of a string, a byte that is not mapped, or the end of the room. */
  ghost predicate Scans(m: Memory, a: nat, room: nat, r: Scan) {
    match r
    case Found(n) => n < room && Plain(m, a, n) && a + n in m && m[a + n] == 0
    // an empty range is taken for one that wraps around
    case Fault => room == 0 || exists b :: a <= b < a + room && Plain(m, a, b - a) && b !in m
    case TooLong => room > 0 && Plain(m, a, room)
  }

  /** `copyinstr`. */
  method CopyInStr(m: Memory, a: nat, room: nat, dest: array<nat>, at: nat) returns (r: Scan)
    requires at + room <= dest.Length
    modifies dest
    ensures Scans(m, a, room, r)
    ensures r.Found? ==> forall j :: at <= j <= at + r.n ==> a + (j - at) in m && dest[j] == m[a + (j - at)]
    ensures forall j :: 0 <= j < at ==> dest[j] == old(dest[j])
  {
    if room == 0 {
      return Fault;
    }
    var i := 0;
    while i < room
      invariant 0 <= i <= room && Plain(m, a, i)
      invariant forall j :: at <= j < at + i ==> dest[j] == m[a + (j - at)]
      invariant forall j :: 0 <= j < at ==> dest[j] == old(dest[j])
    {
      if a + i !in m {
        assert Plain(m, a, a + i - a);
        return Fault;
      }
      dest[at + i] := m[a + i];
      if m[a + i] == 0 {
        return Found(i);
      }
      i := i + 1;
    }
    r := TooLong;
  }

  /** `copyoutstr` of the string at `pos`, which is `len` bytes and a 0. */
  method CopyOutStr(data: array<nat>, pos: nat, ghost len: nat, m: Memory, a: nat) returns (ok: bool, m': Memory, n: nat)
    requires pos + len < data.Length && data[pos + len] == 0 && forall i :: pos <= i < pos + len ==> data[i] != 0
    ensures ok <==> Mapped(m, a, len + 1)
    ensures ok ==> n == len + 1 && SameOutside(m, m', a, n) && forall b :: a <= b < a + n ==> m'[b] == data[pos + (b - a)]
  {
    ok, m', n := false, m, 0;
    while true
      invariant 0 <= n <= len && m'.Keys == m.Keys && Mapped(m, a, n)
      invariant forall b :: a <= b < a + n ==> m'[b] == data[pos + (b - a)]
      invariant forall b :: b in m && !(a <= b < a + n) ==> m'[b] == m[b]
      decreases len - n
    {
      if a + n !in m {
        return;
      }
      m' := m'[a + n := data[pos + n]];
      n := n + 1;
      if data[pos + n - 1] == 0 {
        ok := true;
        return;
      }
    }
  }

  /** A string is told by where it is. */
  lemma {:induction false} StringUnique(m: Memory, a: nat, s: seq<nat>, t: seq<nat>)
    requires StringAt(m, a, s) && StringAt(m, a, t)
    ensures s == t
  {
    NoLonger(m, a, s, t);
    NoLonger(m, a, t, s);
    forall i | 0 <= i < |s|
      ensures s[i] == t[i]
    {
      assert m[a + i] == s[a + i - a];
    }
  }

  lemma {:induction false} NoLonger(m: Memory, a: nat, s: seq<nat>, t: seq<nat>)
    requires StringAt(m, a, s) && StringAt(m, a, t)
    ensures |t| <= |s|
  {
  }

  lemma {:induction false} WordUnique(m: Memory, a: nat, v: nat, w: nat)
    requires WordAt(m, a, v) && WordAt(m, a, w)
    ensures v == w
  {
  }
}
