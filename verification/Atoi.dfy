/** Reading a decimal integer: `atoi`, and its round trip with `%d`. */
module Atoi {
  import opened Formats
  import opened Numerals
  import opened Words

  predicate IsBlank(c: char) {
    c == ' ' || c == '\t'
  }

  ghost function SkipBlanks(s: string): string
    decreases |s|
  {
    if s != [] && IsBlank(s[0]) then SkipBlanks(s[1..]) else s
  }

  /** The digits that a string starts with. */
  ghost function DigitPrefix(s: string): (d: string)
    ensures d <= s && AllDigits(d, 10) && (|d| == |s| || !IsDigit(s[|d|]))
    decreases |s|
  {
    if s != [] && IsDigit(s[0]) then [s[0]] + DigitPrefix(s[1..]) else []
  }

  /** The number at the start of a string: blanks, an optional sign and digits, and then anything. */
  ghost function Parsed(s: string): int {
    var t := SkipBlanks(s);
    var neg := t != [] && t[0] == '-';
    var u := if t != [] && (t[0] == '-' || t[0] == '+') then t[1..] else t;
    var n := Value(DigitPrefix(u), 10);
    Signed(if neg then 0 - n else n, TWO32)
  }

  lemma {:induction false} SkipIs(s: string, k: nat)
    requires k <= |s| && forall i :: 0 <= i < k ==> IsBlank(s[i])
    ensures SkipBlanks(s) == SkipBlanks(s[k..])
    decreases k
  {
    if k > 0 {
      SkipIs(s[1..], k - 1);
      assert s[1..][k - 1..] == s[k..];
    } else {
      assert s[0..] == s;
    }
  }

  lemma {:induction false} PrefixIs(s: string, k: nat)
    requires k <= |s| && AllDigits(s[..k], 10) && (k == |s| || !IsDigit(s[k]))
    ensures DigitPrefix(s) == s[..k]
    decreases k
  {
    if k > 0 {
      assert s[0] == s[..k][0];
      assert s[1..][..k - 1] == s[..k][1..];
      PrefixIs(s[1..], k - 1);
      assert s[..k] == [s[0]] + s[1..][..k - 1];
    }
  }

  lemma ModStep(x: nat, d: nat)
    ensures (x % TWO32 * 10 + d) % TWO32 == (x * 10 + d) % TWO32
  {
    var q := x / TWO32;
    assert x == q * TWO32 + x % TWO32;
    assert x * 10 + d == (10 * q) * TWO32 + (x % TWO32 * 10 + d);
  }

  lemma SignedMod(v: nat, n: nat)
    requires v == n % TWO32
    ensures Signed(v, TWO32) == Signed(n, TWO32) && Signed(0 - v, TWO32) == Signed(0 - n, TWO32)
  {
    var q := n / TWO32;
    assert n == q * TWO32 + v;
    assert 0 - n == (0 - q) * TWO32 + (0 - v);
    assert (0 - n) % TWO32 == (0 - v) % TWO32;
  }

  /** `atoi`, whose accumulator is an unsigned word. */
  method Atoi(s: string) returns (r: int)
    ensures r == Parsed(s)
  {
    hide Signed, Value, DigitPrefix;
    var i := 0;
    while i < |s| && IsBlank(s[i])
      invariant 0 <= i <= |s| && forall j :: 0 <= j < i ==> IsBlank(s[j])
    {
      i := i + 1;
    }
    SkipIs(s, i);
    ghost var t := s[i..];
    assert SkipBlanks(t) == t;
    var neg := false;
    if i < |s| && s[i] == '-' {
      neg := true;
      i := i + 1;
    } else if i < |s| && s[i] == '+' {
      i := i + 1;
    }
    ghost var u := s[i..];
    assert u == if t != [] && (t[0] == '-' || t[0] == '+') then t[1..] else t;
    var val := ReadDigits(s, i);
    SignedMod(val, Value(DigitPrefix(u), 10));
    var v: int := val;
    r := Signed(if neg then -v else v, TWO32);
  }

  /** The digit loop. */
  method ReadDigits(s: string, start: nat) returns (val: nat)
    requires start <= |s|
    ensures val == Value(DigitPrefix(s[start..]), 10) % TWO32
  {
    hide Value, DigitPrefix;
    val := 0;
    var i := start;
    ghost var u := s[start..];
    ValueEmpty();
    while i < |s| && IsDigit(s[i])
      invariant start <= i <= |s| && AllDigits(u[..i - start], 10) && val == Value(u[..i - start], 10) % TWO32
    {
      ghost var done := u[..i - start];
      ValueSnoc(done, s[i], 10);
      assert u[..i + 1 - start] == done + [s[i]];
      ModStep(Value(done, 10), DigitValue(s[i]));
      val := (val * 10 + DigitValue(s[i])) % TWO32;
      i := i + 1;
    }
    PrefixIs(u, i - start);
  }

  lemma ValueEmpty()
    ensures Value("", 10) == 0
  {
  }

  /** Blanks, an optional sign, digits and something that is not a digit. */
  lemma {:induction false} ParsedIs(blanks: string, sign: string, digits: string, rest: string)
    requires (forall k :: 0 <= k < |blanks| ==> IsBlank(blanks[k])) && (sign == "" || sign == "-" || sign == "+")
    requires AllDigits(digits, 10) && digits != "" && (rest == "" || !IsDigit(rest[0]))
    ensures Parsed(blanks + (sign + (digits + rest))) == Signed(if sign == "-" then 0 - Value(digits, 10) else Value(digits, 10), TWO32)
  {
    hide Value, Signed, DigitPrefix, SkipBlanks;
    var u := digits + rest;
    var t := sign + u;
    var s := blanks + t;
    SkipIs(s, |blanks|);
    assert s[|blanks|..] == t;
    assert IsDigit(digits[0]) && u[0] == digits[0];
    if sign == "" {
      assert t == u;
    } else {
      assert t[0] == sign[0] && t[1..] == u;
    }
    NoBlank(t);
    assert u[..|digits|] == digits;
    PrefixIs(u, |digits|);
  }

  lemma {:induction false} NoBlank(t: string)
    requires t != [] && !IsBlank(t[0])
    ensures SkipBlanks(t) == t
  {
  }

  /** Reading what `%d` printed gives the int back, also after blanks and before text that is not a digit. */
  lemma {:induction false} RoundTrip(i: int, blanks: string, rest: string)
    requires -0x8000_0000 <= i < 0x8000_0000
    requires (forall k :: 0 <= k < |blanks| ==> IsBlank(blanks[k])) && (rest == "" || !IsDigit(rest[0]))
    ensures Parsed(blanks + (Output(PLAIN, [Num(i)], "%d") + rest)) == i
  {
    hide Output, Text, Value, Parsed, Signed;
    DecimalText(i);
    var digits := Text(Magnitude(i), 10);
    ValueText(Magnitude(i), 10);
    assert Minus(i) + digits + rest == Minus(i) + (digits + rest);
    ParsedIs(blanks, Minus(i), digits, rest);
    SignedInt(i);
  }

  /** In particular for the text alone. */
  lemma {:induction false} ReadBack(i: int)
    requires -0x8000_0000 <= i < 0x8000_0000
    ensures Parsed(Output(PLAIN, [Num(i)], "%d")) == i
  {
    hide Output, Parsed;
    RoundTrip(i, "", "");
    var text := Output(PLAIN, [Num(i)], "%d");
    assert "" + (text + "") == text;
  }

  /** The blanks are the space and the tab, and no other character: a newline, for instance, ends the number. */
  lemma {:induction false} BlanksAre(c: char)
    ensures IsBlank(c) <==> c as int == 32 || c as int == 9
  {
  }

  /** Text that has no digit where the number should be is 0. */
  lemma {:induction false} NoNumber(blanks: string, sign: string, rest: string)
    requires (forall k :: 0 <= k < |blanks| ==> IsBlank(blanks[k])) && (sign == "" || sign == "-" || sign == "+")
    requires rest == "" || (!IsDigit(rest[0]) && (sign == "" ==> !IsBlank(rest[0]) && rest[0] != '-' && rest[0] != '+'))
    ensures Parsed(blanks + (sign + rest)) == 0
  {
    var t := sign + rest;
    SkipIs(blanks + t, |blanks|);
    assert (blanks + t)[|blanks|..] == t;
    if sign == "" {
      assert t == rest;
    } else {
      assert t[0] == sign[0] && t[1..] == rest;
    }
    assert SkipBlanks(t) == t;
    PrefixIs(rest, 0);
    ValueEmpty();
  }
}
