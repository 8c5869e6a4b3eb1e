/** What directives print: every flag, width, size and conversion, and one directive after the other. */
module Directives {
  import opened Formats
  import opened Nonlinear
  import opened Numerals
  import opened Words

  // ----- the grammar of directives

  ghost predicate IsFlags(s: string) {
    forall i :: 0 <= i < |s| ==> s[i] == '#' || s[i] == '-' || s[i] == '0'
  }

  predicate IsSize(s: string) {
    s == "" || s == "l" || s == "ll" || s == "z"
  }

  function SizeOf(s: string): Size {
    if s == "l" then LongSize else if s == "ll" then LongLongSize else if s == "z" then SizeTSize else IntSize
  }

  /** The digits of a field width; no digits mean none. */
  function WidthText(w: nat): string {
    if w == 0 then "" else Text(w, 10)
  }

  function Mods(flags: string, w: nat, size: string): string {
    flags + WidthText(w) + size
  }

  function DirectiveText(flags: string, w: nat, size: string, ch: char): string {
    "%" + Mods(flags, w, size) + [ch]
  }

  function FieldOf(flags: string, w: nat, size: string): Field {
    Field(true, SizeOf(size), w, '-' in flags, '0' in flags, '#' in flags)
  }

  lemma {:induction false} FlagsAre(f: Field, flags: string)
    requires IsFlags(flags) && f.spacing == 0
    ensures AllModifiers(flags)
    ensures Modified(f, flags) == f.(left := f.left || '-' in flags, zero := f.zero || '0' in flags, alt := f.alt || '#' in flags)
    decreases |flags|
  {
    if flags != [] {
      var last := |flags| - 1;
      FlagsAre(f, flags[..last]);
      assert flags == flags[..last] + [flags[last]];
    }
  }

  lemma {:induction false} SizesAre(f: Field, size: string)
    requires IsSize(size) && f.size == IntSize
    ensures AllModifiers(size) && Modified(f, size) == f.(size := SizeOf(size))
  {
    assert Modified(f, "") == f;
    if size == "ll" {
      assert size[..1] == "l" && "l"[..0] == "";
      assert Modified(f, "l") == Modify(f, 'l');
    } else if size != "" {
      assert size[..0] == "";
    }
  }

  /** Flags, width and size set the fields of the state that they are for, and no others. */
  lemma {:induction false} FieldIs(flags: string, w: nat, size: string)
    requires IsFlags(flags) && IsSize(size)
    ensures AllModifiers(Mods(flags, w, size)) && Modified(PLAIN.(inPct := true), Mods(flags, w, size)) == FieldOf(flags, w, size)
  {
    var f := PLAIN.(inPct := true);
    var f1 := f.(left := '-' in flags, zero := '0' in flags, alt := '#' in flags);
    FlagsAre(f, flags);
    WidthSets(f1, w);
    SizesAre(f1.(spacing := w), size);
    hide Modify, Modified, Text;
    ModifiedConcat(f, flags, WidthText(w));
    ModifiedConcat(f, flags + WidthText(w), size);
  }

  lemma {:induction false} WidthSets(f: Field, w: nat)
    requires f.spacing == 0
    ensures AllModifiers(WidthText(w)) && Modified(f, WidthText(w)) == f.(spacing := w)
  {
    if w > 0 {
      WidthIs(f, w);
    }
  }

  // ----- the text of one directive

  /** What a conversion prints without regard to the field: sign, prefix, and digits or text. */
  datatype Parts = Parts(sign: string, prefix: string, body: string)

  function Whole(p: Parts): string {
    p.sign + p.prefix + p.body
  }

  function PartsOf(alt: bool, size: Size, args: seq<Arg>, ch: char): Parts {
    if IsNumeric(ch) then
      var n := Number(PLAIN.(size := size), ch, NextNum(args));
      Parts(if n.1 then "-" else "", Prefix(alt || ch == 'p', Base(ch)), Text(n.0, Base(ch)))
    else if ch == 's' then Parts("", "", NextStr(args))
    else Parts("", "", CharText(ch, NextNum(args)))
  }

  lemma {:induction false} Prints(flags: string, w: nat, size: string, ch: char, args: seq<Arg>)
    requires IsFlags(flags) && IsSize(size) && !IsModifier(ch)
    ensures var p := PartsOf('#' in flags, SizeOf(size), args, ch);
      Output(PLAIN, args, DirectiveText(flags, w, size, ch)) == Padded(FieldOf(flags, w, size), p.sign, p.prefix, p.body)
  {
    FieldIs(flags, w, size);
    hide Text, Padded, Output, Modified, Mods, Feed, PartsOf;
    Directive(args, Mods(flags, w, size), ch);
    FedParts(FieldOf(flags, w, size), args, ch);
  }

  lemma {:induction false} FedParts(f: Field, args: seq<Arg>, ch: char)
    requires f.inPct && !IsModifier(ch)
    ensures var p := PartsOf(f.alt, f.size, args, ch); Feed(f, args, ch).out == Padded(f, p.sign, p.prefix, p.body)
  {
    hide Text, Padded, Signed;
  }

  /** The same directive without field width and without the flags that are about it. */
  function Bare(flags: string, size: string, ch: char): string {
    DirectiveText(if '#' in flags then "#" else "", 0, size, ch)
  }

  lemma {:induction false} BarePrints(flags: string, size: string, ch: char, args: seq<Arg>)
    requires IsFlags(flags) && IsSize(size) && !IsModifier(ch)
    ensures Output(PLAIN, args, Bare(flags, size, ch)) == Whole(PartsOf('#' in flags, SizeOf(size), args, ch))
  {
    var hash := if '#' in flags then "#" else "";
    Prints(hash, 0, size, ch, args);
    hide Text, Output, PartsOf;
    var p := PartsOf('#' in flags, SizeOf(size), args, ch);
    assert Fill(' ', 0) + p.sign == p.sign;
  }

  /** How much is missing of a field. */
  function Missing(w: nat, text: string): nat {
    if |text| < w then w - |text| else 0
  }

  /** Without `-` and `0` spaces come before the text. */
  lemma {:induction false} AlignRight(flags: string, w: nat, size: string, ch: char, args: seq<Arg>)
    requires IsFlags(flags) && IsSize(size) && !IsModifier(ch) && '-' !in flags && '0' !in flags
    ensures var text := Output(PLAIN, args, Bare(flags, size, ch));
      Output(PLAIN, args, DirectiveText(flags, w, size, ch)) == Fill(' ', Missing(w, text)) + text
  {
    hide Output, PartsOf, Padded, Whole, Bare, DirectiveText, Fill, Missing;
    Prints(flags, w, size, ch, args);
    BarePrints(flags, size, ch, args);
    PadsTo(FieldOf(flags, w, size), PartsOf('#' in flags, SizeOf(size), args, ch));
  }

  /** Where the fill goes. */
  lemma {:induction false} PadsTo(f: Field, p: Parts)
    ensures f.left ==> Padded(f, p.sign, p.prefix, p.body) == Whole(p) + Fill(if f.zero then '0' else ' ', Missing(f.spacing, Whole(p)))
    ensures !f.left && !f.zero ==> Padded(f, p.sign, p.prefix, p.body) == Fill(' ', Missing(f.spacing, Whole(p))) + Whole(p)
    ensures !f.left && f.zero ==> Padded(f, p.sign, p.prefix, p.body) == p.sign + p.prefix + Fill('0', Missing(f.spacing, Whole(p))) + p.body
  {
    hide Fill;
    var fill := Fill(FillChar(f), Missing(f.spacing, Whole(p)));
    assert fill + p.sign + p.prefix + p.body == fill + (p.sign + p.prefix + p.body);
  }

  /** With `-` the fill comes behind the text: spaces, or zeros if there is a `0` as well. */
  lemma {:induction false} AlignLeft(flags: string, w: nat, size: string, ch: char, args: seq<Arg>)
    requires IsFlags(flags) && IsSize(size) && !IsModifier(ch) && '-' in flags
    ensures var text := Output(PLAIN, args, Bare(flags, size, ch));
      Output(PLAIN, args, DirectiveText(flags, w, size, ch)) == text + Fill(if '0' in flags then '0' else ' ', Missing(w, text))
  {
    hide Output, PartsOf, Padded, Whole, Bare, DirectiveText, Fill, Missing;
    Prints(flags, w, size, ch, args);
    BarePrints(flags, size, ch, args);
    PadsTo(FieldOf(flags, w, size), PartsOf('#' in flags, SizeOf(size), args, ch));
  }

  /** With `0` alone zeros come between the prefixes and the digits. */
  lemma {:induction false} ZeroFill(flags: string, w: nat, size: string, ch: char, args: seq<Arg>)
    requires IsFlags(flags) && IsSize(size) && !IsModifier(ch) && '0' in flags && '-' !in flags
    ensures var p := PartsOf('#' in flags, SizeOf(size), args, ch);
      Output(PLAIN, args, DirectiveText(flags, w, size, ch)) == p.sign + p.prefix + Fill('0', Missing(w, Whole(p))) + p.body
  {
    hide Output, PartsOf, Padded, Whole, DirectiveText, Fill, Missing;
    Prints(flags, w, size, ch, args);
    PadsTo(FieldOf(flags, w, size), PartsOf('#' in flags, SizeOf(size), args, ch));
  }

  // ----- the conversions

  /** The numbers that a size can hold. */
  function Range(size: string): nat {
    if size == "ll" then TWO64 else TWO32
  }

  /** `%d`, `%ld`, `%zd` and `%lld` print the decimal numeral of any number of their size, behind a minus sign if negative. */
  lemma {:induction false} SignedText(size: string, i: int)
    requires IsSize(size) && -(Range(size) as int) <= 2 * i < Range(size)
    ensures PartsOf(false, SizeOf(size), [Num(i)], 'd') == Parts(Minus(i), "", Text(Magnitude(i), 10))
    ensures Output(PLAIN, [Num(i)], DirectiveText("", 0, size, 'd')) == Minus(i) + Text(Magnitude(i), 10)
    ensures AllDigits(Text(Magnitude(i), 10), 10) && Value(Text(Magnitude(i), 10), 10) == Magnitude(i)
  {
    BarePrints("", size, 'd', [Num(i)]);
    hide Text, Output, Signed;
    ValueText(Magnitude(i), 10);
    SignedOwn(i, Range(size));
    assert Minus(i) + "" == Minus(i);
  }

  lemma SignedOwn(i: int, m: int)
    requires m > 0 && -m <= 2 * i < m
    ensures Signed(i, m) == i
  {
    if i < 0 {
      DivIs(i, m, -1);
    } else {
      DivIs(i, m, 0);
    }
  }

  /**
   * `%u`, `%o`, `%x` and `%p` of any size print digits that stand for the number in base 10, 8, 16 and 16, behind `0x` for
   * `%#x` and `%p` and behind `0` for `%#o`.
   */
  lemma {:induction false} UnsignedText(alt: bool, size: string, ch: char, i: nat)
    requires IsSize(size) && (ch == 'u' || ch == 'o' || ch == 'x' || ch == 'p') && i < (if ch == 'p' then TWO32 else Range(size))
    ensures var b := if ch == 'u' then 10 else if ch == 'o' then 8 else 16;
      var prefix := if ch == 'p' || (alt && ch == 'x') then "0x" else if alt && ch == 'o' then "0" else "";
      && Output(PLAIN, [Num(i)], DirectiveText(if alt then "#" else "", 0, size, ch)) == prefix + Text(i, b)
      && AllDigits(Text(i, b), b) && Value(Text(i, b), b) == i
  {
    var flags := if alt then "#" else "";
    var b := if ch == 'u' then 10 else if ch == 'o' then 8 else 16;
    BarePrints(flags, size, ch, [Num(i)]);
    UnsignedParts(alt, size, ch, i);
    hide Text, Output, PartsOf;
    ValueText(i, b);
    var p := PartsOf(alt, SizeOf(size), [Num(i)], ch);
    assert p.sign + p.prefix == p.prefix;
  }

  lemma {:induction false} UnsignedParts(alt: bool, size: string, ch: char, i: nat)
    requires IsSize(size) && (ch == 'u' || ch == 'o' || ch == 'x' || ch == 'p') && i < (if ch == 'p' then TWO32 else Range(size))
    ensures PartsOf(alt, SizeOf(size), [Num(i)], ch) ==
      Parts("", if ch == 'p' || (alt && ch == 'x') then "0x" else if alt && ch == 'o' then "0" else "",
            Text(i, if ch == 'u' then 10 else if ch == 'o' then 8 else 16))
  {
    hide Text;
    DivIs(i, if ch == 'p' then TWO32 else Range(size), 0);
  }

  /** `%s` prints its string, and `(null)` for the null pointer. */
  lemma {:induction false} StringText(size: string, s: string)
    requires IsSize(size)
    ensures Output(PLAIN, [Str(s)], DirectiveText("", 0, size, 's')) == s
    ensures Output(PLAIN, [Null], DirectiveText("", 0, size, 's')) == "(null)"
  {
    BarePrints("", size, 's', [Str(s)]);
    BarePrints("", size, 's', [Null]);
    hide Output;
    assert "" + "" + s == s;
  }

  /** `%c` prints the character with the argument's low byte, and nothing for a zero byte. */
  lemma {:induction false} CharacterText(size: string, v: int)
    requires IsSize(size)
    ensures var text := Output(PLAIN, [Num(v)], DirectiveText("", 0, size, 'c'));
      if v % 256 == 0 then text == "" else |text| == 1 && text[0] as int == v % 256
  {
    BarePrints("", size, 'c', [Num(v)]);
    hide Output;
    assert "" + "" + CharText('c', v) == CharText('c', v);
  }

  /** `%%`, and a letter that is no conversion, print that character. */
  lemma {:induction false} OtherText(size: string, ch: char, args: seq<Arg>)
    requires IsSize(size) && !IsModifier(ch) && !Consumes(ch)
    ensures Output(PLAIN, args, DirectiveText("", 0, size, ch)) == [ch]
  {
    BarePrints("", size, ch, args);
    hide Output;
    assert "" + "" + [ch] == [ch];
  }

  // ----- one after the other

  /** A part of a format: text, or a directive. */
  datatype Piece = Literally(text: string) | Converting(mods: string, ch: char)

  ghost predicate IsPiece(p: Piece) {
    match p
    case Literally(text) => '%' !in text
    case Converting(mods, ch) => AllModifiers(mods) && !IsModifier(ch)
  }

  function FormatOf(p: Piece): string {
    match p
    case Literally(text) => text
    case Converting(mods, ch) => "%" + mods + [ch]
  }

  predicate Takes(p: Piece) {
    p.Converting? && Consumes(p.ch)
  }

  ghost predicate ArePieces(ps: seq<Piece>) {
    forall k :: 0 <= k < |ps| ==> IsPiece(ps[k])
  }

  function Joined(ps: seq<Piece>): string
    decreases |ps|
  {
    if ps == [] then "" else Joined(ps[..|ps| - 1]) + FormatOf(ps[|ps| - 1])
  }

  /** The number of arguments that the pieces take. */
  function Taken(ps: seq<Piece>): (n: nat)
    ensures n <= |ps|
    decreases |ps|
  {
    if ps == [] then 0 else Taken(ps[..|ps| - 1]) + if Takes(ps[|ps| - 1]) then 1 else 0
  }

  /** A piece prints by itself, uses up its argument if it takes one, and does not look at others. */
  lemma {:induction false} PieceAlone(p: Piece, args: seq<Arg>)
    requires IsPiece(p) && (Takes(p) ==> args != [])
    ensures Output(PLAIN, args, FormatOf(p)) == Output(PLAIN, if Takes(p) then [args[0]] else [], FormatOf(p))
    ensures After(PLAIN, args, FormatOf(p)) == (PLAIN, if Takes(p) then args[1..] else args)
  {
    var own := if Takes(p) then [args[0]] else [];
    match p {
      case Literally(text) =>
        Literal(args, text);
        Literal(own, text);
      case Converting(mods, ch) =>
        Directive(args, mods, ch);
        Directive(own, mods, ch);
        hide Output, After, Modified, Padded, NumberText;
        assert Takes(p) ==> NextNum(args) == NextNum(own) && NextStr(args) == NextStr(own);
    }
  }

  /** The arguments that are left are those behind the ones taken. */
  lemma {:induction false} PiecesTake(ps: seq<Piece>, args: seq<Arg>)
    requires ArePieces(ps) && Taken(ps) <= |args|
    ensures After(PLAIN, args, Joined(ps)) == (PLAIN, args[Taken(ps)..])
    decreases |ps|
  {
    if ps != [] {
      var last := |ps| - 1;
      var n := Taken(ps[..last]);
      PiecesTake(ps[..last], args);
      PieceAlone(ps[last], args[n..]);
      OutputConcat(PLAIN, args, Joined(ps[..last]), FormatOf(ps[last]));
      hide Output, After, FormatOf;
      assert Takes(ps[last]) ==> args[n..][1..] == args[n + 1..];
    }
  }

  lemma {:induction false} JoinedAt(ps: seq<Piece>, k: nat)
    requires k < |ps|
    ensures Joined(ps) == Joined(ps[..k]) + FormatOf(ps[k]) + Joined(ps[k + 1..])
    ensures Taken(ps) == Taken(ps[..k]) + (if Takes(ps[k]) then 1 else 0) + Taken(ps[k + 1..])
    decreases |ps|
  {
    hide FormatOf, Takes;
    var last := |ps| - 1;
    if k == last {
      assert ps[k + 1..] == [];
      assert Joined(ps[..k]) + FormatOf(ps[k]) + "" == Joined(ps[..k]) + FormatOf(ps[k]);
    } else {
      JoinedAt(ps[..last], k);
      assert ps[..last][..k] == ps[..k];
      var rest := ps[k + 1..];
      assert rest[..|rest| - 1] == ps[..last][k + 1..] && rest[|rest| - 1] == ps[last];
      Regroup(Joined(ps[..k]), FormatOf(ps[k]), Joined(ps[..last][k + 1..]), FormatOf(ps[last]));
    }
  }

  lemma {:induction false} Regroup(a: string, b: string, c: string, d: string)
    ensures a + b + c + d == a + b + (c + d)
  {
  }

  /**
   * Each piece of a format prints what it prints of its own argument alone, at its place: in front of it is what the pieces
   * before it print of the arguments before its own, and behind it what the others print of the rest.
   */
  lemma {:induction false} EachPrintsItsOwn(ps: seq<Piece>, args: seq<Arg>, k: nat)
    requires ArePieces(ps) && Taken(ps) <= |args| && k < |ps|
    ensures Taken(ps[..k]) + (if Takes(ps[k]) then 1 else 0) <= |args|
    ensures var n := Taken(ps[..k]);
      var m := if Takes(ps[k]) then n + 1 else n;
      && Output(PLAIN, args, Joined(ps)) ==
         Output(PLAIN, args, Joined(ps[..k])) + Output(PLAIN, args[n..m], FormatOf(ps[k])) + Output(PLAIN, args[m..], Joined(ps[k + 1..]))
  {
    JoinedAt(ps, k);
    var n := Taken(ps[..k]);
    var m := if Takes(ps[k]) then n + 1 else n;
    PiecesTake(ps[..k], args);
    PieceAlone(ps[k], args[n..]);
    hide FormatOf;
    OutputConcat(PLAIN, args, Joined(ps[..k]), FormatOf(ps[k]));
    OutputConcat(PLAIN, args, Joined(ps[..k]) + FormatOf(ps[k]), Joined(ps[k + 1..]));
    hide Output, After, Joined, Taken;
    assert args[n..m] == if Takes(ps[k]) then [args[n..][0]] else [];
    assert args[m..] == if Takes(ps[k]) then args[n..][1..] else args[n..];
  }

  /** For directives that all take an argument: the k-th prints what it prints of the k-th argument. */
  lemma {:induction false} KthPrintsKth(ps: seq<Piece>, args: seq<Arg>, k: nat)
    requires ArePieces(ps) && (forall i :: 0 <= i < |ps| ==> Takes(ps[i])) && |ps| <= |args| && k < |ps|
    ensures Output(PLAIN, args, Joined(ps)) ==
      Output(PLAIN, args, Joined(ps[..k])) + Output(PLAIN, [args[k]], FormatOf(ps[k])) + Output(PLAIN, args[k + 1..], Joined(ps[k + 1..]))
  {
    hide Output, Joined, FormatOf, Taken;
    AllTake(ps);
    AllTake(ps[..k]);
    EachPrintsItsOwn(ps, args, k);
    assert args[k..k + 1] == [args[k]];
  }

  lemma {:induction false} AllTake(ps: seq<Piece>)
    requires forall i :: 0 <= i < |ps| ==> Takes(ps[i])
    ensures Taken(ps) == |ps|
    decreases |ps|
  {
    hide Takes;
    if ps != [] {
      AllTake(ps[..|ps| - 1]);
    }
  }

  /** For instance `%u%u`. */
  lemma {:induction false} TwoNumbers(i: nat, j: nat)
    requires i < TWO32 && j < TWO32
    ensures Output(PLAIN, [Num(i), Num(j)], "%u%u") == Text(i, 10) + Text(j, 10)
  {
    var u := Converting("", 'u');
    var ps, args := [u, u], [Num(i), Num(j)];
    assert "%" + "" + "u" == "%u" && "" + "%u" == "%u" && "%u" + "%u" == "%u%u";
    assert ps[..1] == [u] && [u][..0] == [] && ps[1..] == [u] && ps[2..] == [];
    assert Joined([]) == "" && Joined([u]) == "%u" && Joined(ps) == "%u%u";
    assert args[..1] == [Num(i)] && args[1..] == [Num(j)];
    KthPrintsKth(ps, args, 0);
    UnsignedText(false, "", 'u', i);
    UnsignedText(false, "", 'u', j);
    assert DirectiveText("", 0, "", 'u') == "%u";
    hide Text;
    assert Output(PLAIN, args, "") == "";
    assert "" + Text(i, 10) == Text(i, 10) && "" + Text(j, 10) == Text(j, 10);
    assert "" + Text(i, 10) + Text(j, 10) == Text(i, 10) + Text(j, 10);
  }
}
