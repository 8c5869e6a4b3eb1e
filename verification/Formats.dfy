/** What a format string and its arguments print as. */
module Formats {
  import opened Nonlinear
  import opened Numerals
  import opened Words

  datatype Size = IntSize | LongSize | LongLongSize | SizeTSize

  /** A variable argument: an integer or a string (`Null` is the null pointer). */
  datatype Arg = Num(v: int) | Str(s: string) | Null

  /** The state between two characters of the format. */
  datatype Field = Field(inPct: bool, size: Size, spacing: nat, left: bool, zero: bool, alt: bool)

  const PLAIN := Field(false, IntSize, 0, false, false, false)

  predicate IsModifier(ch: char) {
    ch == '#' || ch == '-' || ch == 'l' || ch == 'z' || IsDigit(ch)
  }

  predicate IsNumeric(ch: char) {
    ch == 'd' || ch == 'o' || ch == 'u' || ch == 'p' || ch == 'x'
  }

  /** `__pf_modifier`. */
  function Modify(f: Field, ch: char): Field
    requires IsModifier(ch)
  {
    match ch
    case '#' => f.(alt := true)
    case '-' => f.(left := true)
    case 'l' => f.(size := if f.size == LongSize then LongLongSize else LongSize)
    case 'z' => f.(size := SizeTSize)
    case '0' => if f.spacing > 0 then f.(spacing := f.spacing * 10) else f.(zero := true)
    case _ => f.(spacing := f.spacing * 10 + DigitValue(ch))
  }

  /** Two to the number of bits of an argument. */
  function Modulus(size: Size): (m: nat)
    ensures 0 < m <= TWO64
  {
    if size == LongLongSize then TWO64 else TWO32
  }

  lemma SameResidue(v: int, m: int)
    requires m > 0
    ensures (v - v % m) % m == 0 && (v - (v % m - m)) % m == 0
  {
    var q := v / m;
    DivMod(v, m);
    DivIs(v - v % m, m, q);
    MulSucc(q, m);
    DivIs(v - (v % m - m), m, q + 1);
  }

  /** The signed number of its width that an integer is congruent to. */
  function Signed(v: int, m: int): (r: int)
    requires m > 0
    ensures -m <= 2 * r < m && (v - r) % m == 0
  {
    SameResidue(v, m);
    var u := v % m;
    if 2 * u < m then u else u - m
  }

  /** The integer argument that comes next; a call that passes too few or other arguments is undefined in C. */
  function NextNum(args: seq<Arg>): int {
    if args != [] && args[0].Num? then args[0].v else 0
  }

  function NextStr(args: seq<Arg>): string {
    if args != [] && args[0].Str? then args[0].s else "(null)"
  }

  function Rest(args: seq<Arg>): seq<Arg> {
    if args == [] then [] else args[1..]
  }

  /** `__pf_getnum`: what is printed is the magnitude, and a sign. */
  function Number(f: Field, ch: char, v: int): (r: (nat, bool))
    ensures r.0 < TWO64
  {
    if ch == 'p' then (v % TWO32, false)
    else if ch == 'd' then
      var s := Signed(v, Modulus(f.size));
      if s < 0 then (-s, true) else (s, false)
    else (v % Modulus(f.size), false)
  }

  /** `__pf_setbase`. */
  function Base(ch: char): (b: nat)
    ensures b == 8 || b == 10 || b == 16
  {
    if ch == 'x' || ch == 'p' then 16 else if ch == 'o' then 8 else 10
  }

  /** What comes before the digits if a prefix is wanted. */
  function Prefix(wanted: bool, base: nat): string {
    if wanted && base == 16 then "0x" else if wanted && base == 8 then "0" else ""
  }

  function BasePrefix(f: Field, ch: char): string {
    Prefix(f.alt || ch == 'p', Base(ch))
  }

  function Fill(c: char, n: nat): (s: string)
    ensures |s| == n && forall i :: 0 <= i < n ==> s[i] == c
  {
    seq(n, _ => c)
  }

  function FillChar(f: Field): char {
    if f.zero then '0' else ' '
  }

  /** How many fill characters a text of length `len` needs. */
  function Padding(f: Field, len: nat): nat {
    if f.spacing > len then f.spacing - len else 0
  }

  /** A text in its field: spaces go before the prefixes, zeros after them, and fill on the right behind the text. */
  function Padded(f: Field, prefix: string, prefix2: string, stuff: string): string {
    var fill := Fill(FillChar(f), Padding(f, |prefix| + |prefix2| + |stuff|));
    if f.left then prefix + prefix2 + stuff + fill
    else if f.zero then prefix + prefix2 + fill + stuff
    else fill + prefix + prefix2 + stuff
  }

  function NumberText(f: Field, ch: char, v: int): string {
    var n := Number(f, ch, v);
    Padded(f, if n.1 then "-" else "", BasePrefix(f, ch), Text(n.0, Base(ch)))
  }

  /** The text of `%c`, of `%%` and of a character that is not a conversion; a NUL prints as nothing. */
  function CharText(ch: char, v: int): string {
    if ch == 'c' then (if v % 256 == 0 then "" else [(v % 256) as char]) else [ch]
  }

  datatype Fed = Fed(field: Field, args: seq<Arg>, out: string)

  /** One character of the format. */
  function Feed(f: Field, args: seq<Arg>, ch: char): Fed {
    if !f.inPct && ch != '%' then Fed(f, args, [ch])
    else if !f.inPct then Fed(f.(inPct := true), args, "")
    else if IsModifier(ch) then Fed(Modify(f, ch), args, "")
    else if IsNumeric(ch) then Fed(PLAIN, Rest(args), NumberText(f, ch, NextNum(args)))
    else if ch == 's' then Fed(PLAIN, Rest(args), Padded(f, "", "", NextStr(args)))
    else Fed(PLAIN, if ch == 'c' then Rest(args) else args, Padded(f, "", "", CharText(ch, NextNum(args))))
  }

  /** Everything that a format prints, from a state on. */
  function Output(f: Field, args: seq<Arg>, fmt: string): string
    decreases |fmt|
  {
    if fmt == [] then [] else
    var r := Feed(f, args, fmt[0]);
    r.out + Output(r.field, r.args, fmt[1..])
  }

  /** The state and the arguments left after a format. */
  function After(f: Field, args: seq<Arg>, fmt: string): (Field, seq<Arg>)
    decreases |fmt|
  {
    if fmt == [] then (f, args) else
    var r := Feed(f, args, fmt[0]);
    After(r.field, r.args, fmt[1..])
  }

  lemma {:induction false} OutputConcat(f: Field, args: seq<Arg>, a: string, b: string)
    ensures Output(f, args, a + b) == Output(f, args, a) + Output(After(f, args, a).0, After(f, args, a).1, b)
    ensures After(f, args, a + b) == After(After(f, args, a).0, After(f, args, a).1, b)
    decreases |a|
  {
    hide Feed;
    if a == [] {
      assert a + b == b;
    } else {
      var r := Feed(f, args, a[0]);
      assert (a + b)[0] == a[0] && (a + b)[1..] == a[1..] + b;
      OutputConcat(r.field, r.args, a[1..], b);
    }
  }

  /** Text without a `%` prints as itself. */
  lemma {:induction false} Literal(args: seq<Arg>, text: string)
    requires '%' !in text
    ensures Output(PLAIN, args, text) == text && After(PLAIN, args, text) == (PLAIN, args)
    decreases |text|
  {
    if text != [] {
      assert text[0] in text;
      Literal(args, text[1..]);
      assert text == [text[0]] + text[1..];
    }
  }

  /** A text in its field is as long as the field is wide, or as itself if that is more. */
  lemma {:induction false} PaddedLength(f: Field, prefix: string, prefix2: string, stuff: string)
    ensures var len := |prefix| + |prefix2| + |stuff|; |Padded(f, prefix, prefix2, stuff)| == if len < f.spacing then f.spacing else len
  {
  }

  /** Modifiers print nothing and are collected in the state. */
  ghost predicate AllModifiers(s: string) {
    forall i :: 0 <= i < |s| ==> IsModifier(s[i])
  }

  function Modified(f: Field, mods: string): Field
    requires AllModifiers(mods)
    decreases |mods|
  {
    if mods == [] then f else Modify(Modified(f, mods[..|mods| - 1]), mods[|mods| - 1])
  }

  lemma {:induction false} ModifiersCollect(f: Field, args: seq<Arg>, mods: string)
    requires f.inPct && AllModifiers(mods)
    ensures Output(f, args, mods) == "" && After(f, args, mods) == (Modified(f, mods), args) && Modified(f, mods).inPct
    decreases |mods|
  {
    hide Modify;
    if mods != [] {
      var last := |mods| - 1;
      ModifierKeeps(Modified(f, mods[..last]), mods[last]);
      ModifiersCollect(f, args, mods[..last]);
      OutputConcat(f, args, mods[..last], [mods[last]]);
      assert mods == mods[..last] + [mods[last]];
      One(Modified(f, mods[..last]), args, mods[last]);
    }
  }

  lemma {:induction false} ModifierKeeps(f: Field, ch: char)
    requires IsModifier(ch)
    ensures Modify(f, ch).inPct == f.inPct
    ensures f.inPct ==> forall args: seq<Arg> :: Feed(f, args, ch) == Fed(Modify(f, ch), args, "")
  {
  }

  lemma {:induction false} One(f: Field, args: seq<Arg>, ch: char)
    ensures Output(f, args, [ch]) == Feed(f, args, ch).out
    ensures After(f, args, [ch]) == (Feed(f, args, ch).field, Feed(f, args, ch).args)
  {
    hide Feed;
    assert [ch][1..] == [];
    var r := Feed(f, args, ch);
    assert Output(r.field, r.args, [ch][1..]) == [];
    assert r.out + [] == r.out;
  }

  /** The conversions that take an argument. */
  predicate Consumes(ch: char) {
    IsNumeric(ch) || ch == 's' || ch == 'c'
  }

  /** A whole directive: `%`, modifiers and a conversion.  It uses up one argument or none. */
  lemma {:induction false} Directive(args: seq<Arg>, mods: string, ch: char)
    requires AllModifiers(mods) && !IsModifier(ch)
    ensures var f := Modified(PLAIN.(inPct := true), mods);
      Output(PLAIN, args, "%" + mods + [ch]) == Feed(f, args, ch).out
    ensures After(PLAIN, args, "%" + mods + [ch]) == (PLAIN, if Consumes(ch) && args != [] then args[1..] else args)
  {
    hide Modified, Padded, NumberText;
    var start := PLAIN.(inPct := true);
    var f := Modified(start, mods);
    One(PLAIN, args, '%');
    OutputConcat(PLAIN, args, "%", mods);
    ModifiersCollect(start, args, mods);
    OutputConcat(PLAIN, args, "%" + mods, [ch]);
    One(f, args, ch);
  }

  /** The digits of a number larger than 0 set the field width to it. */
  lemma {:induction false} WidthIs(f: Field, w: nat)
    requires w > 0 && f.spacing == 0
    ensures AllModifiers(Text(w, 10)) && Modified(f, Text(w, 10)) == f.(spacing := w)
    decreases w
  {
    hide Modify;
    var s := Text(w, 10);
    var last := |s| - 1;
    DigitRead(w % 10);
    hide DigitChar, DigitValue;
    assert s[last] == DigitChar(w % 10);
    if w >= 10 {
      WidthIs(f, w / 10);
      assert s[..last] == Text(w / 10, 10);
      ModifyDigit(f.(spacing := w / 10), s[last]);
    } else {
      assert s[..last] == [] && Modified(f, s[..last]) == f;
      ModifyDigit(f, s[last]);
    }
  }

  lemma DigitRead(d: nat)
    requires d < 10
    ensures IsDigit(DigitChar(d)) && DigitValue(DigitChar(d)) == d && (DigitChar(d) == '0' <==> d == 0)
  {
    var c := DigitChar(d);
    assert c == '0' + d as char;
    assert c as int == 48 + d;
  }

  lemma ModifyDigit(f: Field, c: char)
    requires IsDigit(c) && (f.spacing > 0 || c != '0')
    ensures Modify(f, c) == f.(spacing := f.spacing * 10 + DigitValue(c))
  {
  }

  lemma SignedInt(i: int)
    requires -0x8000_0000 <= i < 0x8000_0000
    ensures Signed(i, TWO32) == i
  {
  }

  ghost function Minus(i: int): string {
    if i < 0 then "-" else ""
  }

  ghost function Magnitude(i: int): nat {
    if i < 0 then -i else i
  }

  /** A `d` directive prints the sign and the decimal numeral of an int in the field that the modifiers make. */
  lemma {:induction false} IntDirective(mods: string, i: int)
    requires AllModifiers(mods) && -0x8000_0000 <= i < 0x8000_0000
    requires Modified(PLAIN.(inPct := true), mods).size == IntSize
    ensures Output(PLAIN, [Num(i)], "%" + mods + "d") ==
      Padded(Modified(PLAIN.(inPct := true), mods), Minus(i), "", Text(Magnitude(i), 10))
  {
    Directive([Num(i)], mods, 'd');
    hide Text, Output, Modified, Padded;
    ModifiersCollect(PLAIN.(inPct := true), [Num(i)], mods);
    SignedInt(i);
  }

  /** `%d` prints the decimal numeral of an int, and a minus sign before a negative one. */
  lemma {:induction false} DecimalText(i: int)
    requires -0x8000_0000 <= i < 0x8000_0000
    ensures Output(PLAIN, [Num(i)], "%d") == Minus(i) + Text(Magnitude(i), 10)
  {
    var f := PLAIN.(inPct := true);
    assert Modified(f, "") == f;
    hide Output, Text, Modified, Padded, Minus, Magnitude;
    IntDirective("", i);
    assert "%" + "" + "d" == "%d";
    Unpadded(f, Minus(i), Text(Magnitude(i), 10));
  }

  lemma {:induction false} Unpadded(f: Field, prefix: string, stuff: string)
    requires f.spacing == 0 && !f.left && !f.zero
    ensures Padded(f, prefix, "", stuff) == prefix + stuff
  {
    assert prefix + "" == prefix;
    assert Fill(' ', 0) + prefix == prefix;
  }

  /** `%Nd` right-aligns that text in a field of N characters. */
  lemma {:induction false} WideDecimalText(w: nat, i: int)
    requires w > 0 && -0x8000_0000 <= i < 0x8000_0000
    ensures var text := Output(PLAIN, [Num(i)], "%d");
      Output(PLAIN, [Num(i)], "%" + Text(w, 10) + "d") == Fill(' ', if |text| < w then w - |text| else 0) + text
  {
    hide Text, Modify, Modified, Output;
    DecimalText(i);
    var f := PLAIN.(inPct := true);
    WidthIs(f, w);
    IntDirective(Text(w, 10), i);
  }

  lemma {:induction false} ModifiedConcat(f: Field, a: string, b: string)
    requires AllModifiers(a) && AllModifiers(b)
    ensures AllModifiers(a + b) && Modified(f, a + b) == Modified(Modified(f, a), b)
    decreases |b|
  {
    hide Modify;
    if b == [] {
      assert a + b == a;
    } else {
      var last := |b| - 1;
      ModifiedConcat(f, a, b[..last]);
      assert (a + b)[..|a + b| - 1] == a + b[..last];
      assert forall i :: 0 <= i < |a + b| ==> (a + b)[i] == if i < |a| then a[i] else b[i - |a|];
    }
  }

  lemma {:induction false} BothFlags(f: Field)
    requires f.spacing == 0
    ensures AllModifiers("-0") && Modified(f, "-0") == f.(left := true, zero := true)
  {
    assert "-0"[..1] == "-" && "-"[..0] == "";
    assert Modified(f, "") == f;
    assert Modified(f, "-") == Modify(f, '-');
    assert Modified(f, "-0") == Modify(Modify(f, '-'), '0');
  }

  /**
   * Where the code and ISO C differ: with both flags `%-0Nd` fills with zeros, on the right, so that the text can be
   * read as another number.  It agrees with the standard, which has spaces there, exactly if there is nothing to fill.
   */
  lemma {:induction false} LeftZeroFill(w: nat, i: int)
    requires w > 0 && -0x8000_0000 <= i < 0x8000_0000
    ensures var text := Output(PLAIN, [Num(i)], "%d");
      var pad := if |text| < w then w - |text| else 0;
      && Output(PLAIN, [Num(i)], "%" + ("-0" + Text(w, 10)) + "d") == text + Fill('0', pad)
      && (Output(PLAIN, [Num(i)], "%" + ("-0" + Text(w, 10)) + "d") == text + Fill(' ', pad) <==> |text| >= w)
  {
    var f := PLAIN.(inPct := true);
    var g := f.(left := true, zero := true);
    BothFlags(f);
    hide Text, Modify, Modified, Output, Minus, Magnitude;
    DecimalText(i);
    WidthIs(g, w);
    ModifiedConcat(f, "-0", Text(w, 10));
    IntDirective("-0" + Text(w, 10), i);
    LeftFilled(g.(spacing := w), Minus(i), Text(Magnitude(i), 10));
    var text := Output(PLAIN, [Num(i)], "%d");
    FillsDiffer(text, if |text| < w then w - |text| else 0);
    hide Padded;
  }

  lemma {:induction false} FillsDiffer(text: string, n: nat)
    ensures text + Fill('0', n) == text + Fill(' ', n) <==> n == 0
  {
    if n > 0 {
      assert (text + Fill('0', n))[|text|] == '0' && (text + Fill(' ', n))[|text|] == ' ';
    } else {
      assert Fill('0', n) == Fill(' ', n);
    }
  }

  lemma {:induction false} LeftFilled(f: Field, prefix: string, stuff: string)
    requires f.left && f.zero
    ensures var text := prefix + stuff;
      Padded(f, prefix, "", stuff) == text + Fill('0', if |text| < f.spacing then f.spacing - |text| else 0)
  {
    assert prefix + "" == prefix;
  }
}
