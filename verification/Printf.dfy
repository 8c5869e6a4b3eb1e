/** The printf engine: a state that is fed the format one character at a time and sends text to a sink. */
module Printf {
  import opened Formats
  import opened Numerals
  import opened Words

  /** The sink of `vsnprintf`: a buffer that takes what fits. */
  class Snp {
    const buf: array<char>
    const buflen: nat
    var bufpos: nat

    ghost predicate Valid()
      reads this
    {
      bufpos <= buflen <= buf.Length
    }

    constructor (buf: array<char>, buflen: nat)
      requires buflen <= buf.Length
      ensures Valid() && this.buf == buf && this.buflen == buflen && bufpos == 0
    {
      this.buf, this.buflen, bufpos := buf, buflen, 0;
    }

    /** `__snprintf_send`: the longest prefix of the data that fits is stored. */
    method Send(data: string)
      requires Valid()
      modifies this`bufpos, buf
      ensures Valid()
      ensures bufpos == if old(bufpos) + |data| <= buflen then old(bufpos) + |data| else buflen
      ensures buf[..bufpos] == old(buf[..bufpos]) + data[..bufpos - old(bufpos)]
      ensures forall j :: bufpos <= j < buf.Length ==> buf[j] == old(buf[j])
    {
      var i := 0;
      while i < |data|
        invariant 0 <= i <= |data| && Valid()
        invariant bufpos == if old(bufpos) + i <= buflen then old(bufpos) + i else buflen
        invariant forall j :: 0 <= j < old(bufpos) ==> buf[j] == old(buf[j])
        invariant forall j :: old(bufpos) <= j < bufpos ==> buf[j] == data[j - old(bufpos)]
        invariant forall j :: bufpos <= j < buf.Length ==> buf[j] == old(buf[j])
        modifies `bufpos, buf
      {
        if bufpos < buflen {
          buf[bufpos] := data[i];
          bufpos := bufpos + 1;
        }
        i := i + 1;
      }
    }
  }

  /** The last digit of a number and the number without it. */
  method LastDigit(n: nat, base: nat) returns (d: char, rest: nat)
    requires 2 <= base <= 16
    ensures rest == 0 ==> Text(n, base) == [d]
    ensures rest > 0 ==> Text(n, base) == Text(rest, base) + [d] && rest < n
  {
    TextSplit(n, base);
    hide Text, DigitChar;
    d, rest := DigitChar(n % base), n / base;
  }

  lemma {:induction false} TextOnward(rest: string, d: char, done: string)
    ensures rest + [d] + done == rest + ([d] + done)
    ensures "" + [d] + done == [d] + done
  {
  }

  /** `__pf_printnum`'s conversion: the digits are made from the last one on, from the right end of a buffer. */
  method Convert(buf: array<char>, num: nat, base: nat) returns (x: nat)
    requires num < TWO64 && (base == 8 || base == 10 || base == 16)
    requires buf.Length == NUMBER_BUF_SIZE
    modifies buf
    ensures x < NUMBER_BUF_SIZE && buf[NUMBER_BUF_SIZE - 1] == '\0' && buf[x..NUMBER_BUF_SIZE - 1] == Text(num, base)
  {
    Fits(num, base);
    x := NUMBER_BUF_SIZE - 1;
    buf[x] := '\0';
    var xnum: nat := num;
    ghost var done := "";
    while true
      invariant 1 <= x <= NUMBER_BUF_SIZE - 1 && buf[NUMBER_BUF_SIZE - 1] == '\0'
      invariant buf[x..NUMBER_BUF_SIZE - 1] == done && Text(num, base) == Text(xnum, base) + done
      decreases xnum
    {
      hide Text;
      x, xnum := PutDigit(buf, x, xnum, base, done);
      done := [buf[x]] + done;
      if xnum == 0 {
        break;
      }
    }
  }

  /** One turn of the loop: the digit goes in front of the ones that are `done`. */
  method PutDigit(buf: array<char>, x: nat, n: nat, base: nat, ghost done: string) returns (x': nat, rest: nat)
    requires 1 <= x < buf.Length == NUMBER_BUF_SIZE && 2 <= base <= 16 && buf[x..NUMBER_BUF_SIZE - 1] == done
    modifies buf
    ensures x' == x - 1 && buf[x'..NUMBER_BUF_SIZE - 1] == [buf[x']] + done
    ensures forall j :: 0 <= j < buf.Length && j != x' ==> buf[j] == old(buf[j])
    ensures rest == 0 ==> Text(n, base) + done == [buf[x']] + done
    ensures rest > 0 ==> rest < n && Text(n, base) + done == Text(rest, base) + ([buf[x']] + done)
  {
    hide Text;
    var d;
    d, rest := LastDigit(n, base);
    x' := x - 1;
    buf[x'] := d;
    TextOnward(Text(rest, base), d, done);
    assert buf[x..NUMBER_BUF_SIZE - 1] == done;
  }

  /** One more digit of a width. */
  lemma {:induction false} WidthDigit(w: nat, ch: char)
    requires IsDigit(ch) && (w > 0 || ch != '0')
    ensures var w' := w * 10 + DigitValue(ch); w' > 0 && Text(w', 10) == (if w == 0 then "" else Text(w, 10)) + [ch]
  {
    var w' := w * 10 + DigitValue(ch);
    DigitRead(DigitValue(ch));
    assert DigitChar(DigitValue(ch)) == ch;
    assert w' / 10 == w && w' % 10 == DigitValue(ch);
    TextSplit(w', 10);
  }

  /** The engine's state. */
  class Printer {
    const sink: Snp
    var args: seq<Arg>
    var charcount: nat
    var inPct: bool
    var size: Size
    var num: nat
    var sign: bool
    var spacing: nat
    var rightspc: bool
    var fillchar: char
    var base: nat
    var baseprefix: bool
    var altformat: bool
    /** All text sent so far, and what the buffer held at first. */
    ghost var sent: string
    ghost const initial: string

    /** The sink has stored what fits of the text, and the characters are counted. */
    ghost predicate Valid()
      reads this, sink, sink.buf
    {
      && sink.Valid()
      && charcount == |sent|
      && sink.bufpos == (if |sent| <= sink.buflen then |sent| else sink.buflen)
      && sink.buf[..sink.bufpos] == sent[..sink.bufpos]
      && |initial| == sink.buf.Length
      && (forall j :: sink.bufpos <= j < sink.buf.Length ==> sink.buf[j] == initial[j])
      && (fillchar == ' ' || fillchar == '0')
    }

    ghost function Current(): Field
      reads this
    {
      Field(inPct, size, spacing, rightspc, fillchar == '0', altformat)
    }

    /** The start of `__vprintf`. */
    constructor (sink: Snp, args: seq<Arg>)
      requires sink.Valid() && sink.bufpos == 0
      ensures Valid() && this.sink == sink && this.args == args && sent == "" && Current() == PLAIN && !sign && !baseprefix && initial == sink.buf[..]
    {
      this.sink, this.args, charcount, sent, initial := sink, args, 0, "", sink.buf[..];
      inPct, size, num, sign, spacing := false, IntSize, 0, false, 0;
      rightspc, fillchar, base, baseprefix, altformat := false, ' ', 0, false, false;
    }

    /** `__pf_print`. */
    method Print(txt: string)
      requires Valid()
      modifies this`charcount, this`sent, sink`bufpos, sink.buf
      ensures Valid() && sent == old(sent) + txt
    {
      ghost var before := sent;
      sink.Send(txt);
      charcount := charcount + |txt|;
      sent := sent + txt;
      assert sink.buf[..sink.bufpos] == sent[..sink.bufpos];
    }

    /** `__pf_endfield`. */
    method EndField()
      requires Valid()
      modifies this`inPct, this`size, this`num, this`sign, this`spacing, this`rightspc, this`fillchar, this`base, this`baseprefix, this`altformat
      ensures Valid() && Current() == PLAIN && !sign && !baseprefix
    {
      inPct, size, num, sign, spacing := false, IntSize, 0, false, 0;
      rightspc, fillchar, base, baseprefix, altformat := false, ' ', 0, false, false;
    }

    /** `__pf_modifier`.  A digit that is part of the width is written behind the numeral of the width so far. */
    method Modifier(ch: char)
      requires Valid() && IsModifier(ch)
      modifies this`altformat, this`rightspc, this`size, this`spacing, this`fillchar
      ensures Valid() && Current() == Modify(old(Current()), ch)
      ensures IsDigit(ch) && (ch != '0' || old(spacing) > 0) ==>
        fillchar == old(fillchar) && Text(spacing, 10) == (if old(spacing) == 0 then "" else Text(old(spacing), 10)) + [ch]
      ensures ch == '0' && old(spacing) == 0 ==> spacing == 0 && fillchar == '0'
    {
      hide Text;
      if ch == '#' {
        altformat := true;
      } else if ch == '-' {
        rightspc := true;
      } else if ch == 'l' {
        if size == LongSize {
          size := LongLongSize;
        } else {
          size := LongSize;
        }
      } else if ch == 'z' {
        size := SizeTSize;
      } else if ch == '0' {
        if spacing > 0 {
          WidthDigit(spacing, ch);
          spacing := spacing * 10;
        } else {
          fillchar := '0';
        }
      } else {
        WidthDigit(spacing, ch);
        spacing := spacing * 10 + DigitValue(ch);
      }
    }

    /** `__pf_getnum`: the number of the argument's width that has the argument's low bits, as magnitude and sign. */
    method GetNum(ch: char)
      requires Valid() && IsNumeric(ch) && !sign
      modifies this`args, this`num, this`sign
      ensures Valid() && args == Rest(old(args)) && (num, sign) == Number(Current(), ch, NextNum(old(args)))
      ensures var v, n, m: int := NextNum(old(args)), if sign then 0 - num else num, if ch == 'p' then TWO32 else Modulus(size);
        && (v - n) % m == 0 && (sign ==> num > 0)
        && if ch == 'd' then -m <= 2 * n < m else 0 <= n < m
    {
      SameResidue(NextNum(args), Modulus(size));
      SameResidue(NextNum(args), TWO32);
      var v := NextNum(args);
      args := Rest(args);
      if ch == 'p' {
        num := v % TWO32;
      } else if ch == 'd' {
        var signednum := Signed(v, Modulus(size));
        if signednum < 0 {
          sign := true;
          num := -signednum;
        } else {
          num := signednum;
        }
      } else {
        num := v % Modulus(size);
      }
    }

    /** `__pf_setbase`: the base in which the digits will be read, and whether its prefix is printed. */
    method SetBase(ch: char)
      requires Valid() && IsNumeric(ch)
      modifies this`base, this`baseprefix
      ensures Valid() && base == Base(ch) && baseprefix == (old(baseprefix) || altformat || ch == 'p')
      ensures !old(baseprefix) ==> Prefix(baseprefix, base) == BasePrefix(Current(), ch)
      ensures Value(Text(num, base), Base(ch)) == num
    {
      if ch == 'd' || ch == 'u' {
        base := 10;
      } else if ch == 'x' || ch == 'p' {
        base := 16;
      } else {
        base := 8;
      }
      if altformat || ch == 'p' {
        baseprefix := true;
      }
      ValueText(num, base);
    }

    /** `__pf_fill`. */
    method FillOut(spc: nat)
      requires Valid()
      modifies this`charcount, this`sent, sink`bufpos, sink.buf
      ensures Valid() && sent == old(sent) + Fill(fillchar, spc)
    {
      var i := 0;
      while i < spc
        invariant 0 <= i <= spc && Valid() && sent == old(sent) + Fill(fillchar, i)
        modifies this`charcount, this`sent, sink`bufpos, sink.buf
      {
        Print([fillchar]);
        assert Fill(fillchar, i) + [fillchar] == Fill(fillchar, i + 1);
        i := i + 1;
      }
    }

    method FillWhen(b: bool, spc: nat)
      requires Valid()
      modifies this`charcount, this`sent, sink`bufpos, sink.buf
      ensures Valid() && sent == old(sent) + if b then Fill(fillchar, spc) else ""
    {
      hide Valid;
      if spc > 0 && b {
        FillOut(spc);
      } else {
        assert Fill(fillchar, 0) == "";
        assert sent + "" == sent;
      }
    }

    /** `__pf_printstuff`. */
    method PrintStuff(prefix: string, prefix2: string, stuff: string)
      requires Valid()
      modifies this`charcount, this`sent, sink`bufpos, sink.buf
      ensures Valid() && sent == old(sent) + Padded(Current(), prefix, prefix2, stuff)
    {
      hide Fill;
      var len := |prefix| + |prefix2| + |stuff|;
      var spc := spacing;
      if spc > len {
        spc := spc - len;
      } else {
        spc := 0;
      }
      ghost var f, before := Current(), sent;
      assert FillChar(f) == fillchar;
      hide Valid;
      ghost var fill := Fill(fillchar, spc);
      Layout(before, f, prefix, prefix2, stuff, fill);
      PrintPrefixes(spc, prefix, prefix2);
      PrintRest(spc, stuff);
    }

    /** The first half: spaces on the left and the prefixes. */
    method PrintPrefixes(spc: nat, prefix: string, prefix2: string)
      requires Valid()
      modifies this`charcount, this`sent, sink`bufpos, sink.buf
      ensures Valid()
      ensures sent == old(sent) + ((if !rightspc && fillchar != '0' then Fill(fillchar, spc) else "") + prefix + prefix2)
    {
      hide Valid, Fill;
      ghost var left := if !rightspc && fillchar != '0' then Fill(fillchar, spc) else "";
      FillWhen(!rightspc && fillchar != '0', spc);
      Print(prefix);
      Append(old(sent), left, prefix);
      Print(prefix2);
      Append(old(sent), left + prefix, prefix2);
    }

    /** The second half: zeros on the left, the text and fill on the right. */
    method PrintRest(spc: nat, stuff: string)
      requires Valid()
      modifies this`charcount, this`sent, sink`bufpos, sink.buf
      ensures Valid()
      ensures sent == old(sent) + ((if !rightspc && fillchar == '0' then Fill(fillchar, spc) else "") + stuff + (if rightspc then Fill(fillchar, spc) else ""))
    {
      hide Valid, Fill;
      ghost var middle := if !rightspc && fillchar == '0' then Fill(fillchar, spc) else "";
      FillWhen(!rightspc && fillchar == '0', spc);
      Print(stuff);
      Append(old(sent), middle, stuff);
      FillWhen(rightspc, spc);
      Append(old(sent), middle + stuff, if rightspc then Fill(fillchar, spc) else "");
    }

    /** `__pf_printnum`. */
    method PrintNum()
      requires Valid() && num < TWO64 && (base == 8 || base == 10 || base == 16)
      modifies this`charcount, this`sent, sink`bufpos, sink.buf
      ensures Valid()
      ensures sent == old(sent) + Padded(Current(), if sign then "-" else "", Prefix(baseprefix, base), Text(num, base))
    {
      var buf := new char[NUMBER_BUF_SIZE];
      var x := Convert(buf, num, base);
      var bprefix;
      if baseprefix && base == 16 {
        bprefix := "0x";
      } else if baseprefix && base == 8 {
        bprefix := "0";
      } else {
        bprefix := "";
      }
      var sprefix := if sign then "-" else "";
      PrintStuff(sprefix, bprefix, buf[x..NUMBER_BUF_SIZE - 1]);
    }

    /** The branch of `__pf_send` for an integer conversion. */
    method SendNumber(ch: char)
      requires Valid() && IsNumeric(ch) && !sign && !baseprefix
      modifies this, sink`bufpos, sink.buf
      ensures Valid() && !sign && !baseprefix && Current() == PLAIN && args == Rest(old(args))
      ensures sent == old(sent) + NumberText(old(Current()), ch, NextNum(old(args)))
    {
      hide Padded, Text;
      GetNum(ch);
      SetBase(ch);
      PrintNum();
      EndField();
    }

    /** The branches that print a text in a field. */
    method SendText(text: string)
      requires Valid() && !sign && !baseprefix
      modifies this, sink`bufpos, sink.buf
      ensures Valid() && !sign && !baseprefix && Current() == PLAIN && args == old(args)
      ensures sent == old(sent) + Padded(old(Current()), "", "", text)
    {
      hide Padded;
      PrintStuff("", "", text);
      EndField();
    }

    /** `__pf_send`. */
    method Send(ch: char)
      requires Valid() && ch != '\0' && !sign && !baseprefix
      modifies this, sink`bufpos, sink.buf
      ensures Valid() && !sign && !baseprefix
      ensures var r := Feed(old(Current()), old(args), ch); Current() == r.field && args == r.args && sent == old(sent) + r.out
    {
      hide Padded, Text, NumberText, Modify;
      if !inPct && ch != '%' {
        Print([ch]);
      } else if !inPct {
        inPct := true;
      } else if IsModifier(ch) {
        Modifier(ch);
      } else if IsNumeric(ch) {
        SendNumber(ch);
      } else if ch == 's' {
        var str := NextStr(args);
        args := Rest(args);
        SendText(str);
      } else {
        var x := CharText(ch, NextNum(args));
        if ch == 'c' {
          args := Rest(args);
        }
        SendText(x);
      }
    }
  }

  /** The three places where fill can go. */
  lemma {:induction false} Layout(before: string, f: Field, prefix: string, prefix2: string, stuff: string, fill: string)
    requires fill == Fill(FillChar(f), Padding(f, |prefix| + |prefix2| + |stuff|))
    ensures before + Padded(f, prefix, prefix2, stuff) ==
            before + ((if !f.left && !f.zero then fill else "") + prefix + prefix2)
            + ((if !f.left && f.zero then fill else "") + stuff + (if f.left then fill else ""))
  {
    hide Fill;
    Halves(f, prefix, prefix2, stuff, fill);
  }

  lemma {:induction false} Halves(f: Field, prefix: string, prefix2: string, stuff: string, fill: string)
    requires fill == Fill(FillChar(f), Padding(f, |prefix| + |prefix2| + |stuff|))
    ensures Padded(f, prefix, prefix2, stuff) ==
      ((if !f.left && !f.zero then fill else "") + prefix + prefix2) + ((if !f.left && f.zero then fill else "") + stuff + (if f.left then fill else ""))
  {
    hide Fill;
    assert "" + prefix == prefix && "" + stuff == stuff;
    assert stuff + "" == stuff && fill + stuff + "" == fill + stuff;
    if f.left {
      assert prefix + prefix2 + stuff + fill == prefix + prefix2 + (stuff + fill);
    } else if f.zero {
      assert prefix + prefix2 + fill + stuff == prefix + prefix2 + (fill + stuff);
    }
  }

  lemma {:induction false} Append(before: string, done: string, more: string)
    ensures before + done + more == before + (done + more)
    ensures more == "" ==> done + more == done
  {
  }

  /** `__vprintf`: the sink is sent what the format prints, and the number of its characters is returned. */
  method VPrintf(sink: Snp, fmt: string, args: seq<Arg>) returns (chars: nat)
    requires sink.Valid() && sink.bufpos == 0 && '\0' !in fmt
    modifies sink`bufpos, sink.buf
    ensures sink.Valid() && chars == |Output(PLAIN, args, fmt)|
    ensures sink.bufpos == if chars <= sink.buflen then chars else sink.buflen
    ensures sink.buf[..sink.bufpos] == Output(PLAIN, args, fmt)[..sink.bufpos]
    ensures forall j :: sink.bufpos <= j < sink.buf.Length ==> sink.buf[j] == old(sink.buf[j])
  {
    var pf := new Printer(sink, args);
    var i := 0;
    while i < |fmt|
      invariant 0 <= i <= |fmt| && pf.sink == sink && pf.Valid() && !pf.sign && !pf.baseprefix && pf.initial == old(sink.buf[..])
      invariant pf.sent + Output(pf.Current(), pf.args, fmt[i..]) == Output(PLAIN, args, fmt)
      modifies pf, sink`bufpos, sink.buf
    {
      hide Feed, Output;
      assert fmt[i] in fmt;
      OutputNext(pf.sent, pf.Current(), pf.args, fmt, i);
      pf.Send(fmt[i]);
      i := i + 1;
    }
    assert fmt[i..] == [];
    chars := pf.charcount;
  }

  /** The next character of the format. */
  lemma {:induction false} OutputNext(sent: string, f: Field, args: seq<Arg>, fmt: string, i: nat)
    requires i < |fmt|
    ensures var r := Feed(f, args, fmt[i]);
      sent + Output(f, args, fmt[i..]) == sent + r.out + Output(r.field, r.args, fmt[i + 1..])
  {
    hide Feed;
    assert fmt[i..][0] == fmt[i] && fmt[i..][1..] == fmt[i + 1..];
    Append(sent, Feed(f, args, fmt[i]).out, Output(Feed(f, args, fmt[i]).field, Feed(f, args, fmt[i]).args, fmt[i + 1..]));
  }

  /**
   * `vsnprintf`: stores the longest prefix of the output that fits and a terminator, touches nothing behind it, and
   * returns the length of the whole output.
   */
  method VSnprintf(buf: array<char>, len: nat, fmt: string, args: seq<Arg>) returns (chars: nat)
    requires len <= buf.Length && '\0' !in fmt
    modifies buf
    ensures chars == |Output(PLAIN, args, fmt)|
    ensures len == 0 ==> buf[..] == old(buf[..])
    ensures len > 0 ==>
      var n := if chars < len then chars else len - 1;
      && buf[..n] == Output(PLAIN, args, fmt)[..n] && buf[n] == '\0'
      && forall j :: n < j < buf.Length ==> buf[j] == old(buf[j])
  {
    var snp := new Snp(buf, if len == 0 then 0 else len - 1);
    chars := VPrintf(snp, fmt, args);
    if len > 0 {
      buf[snp.bufpos] := '\0';
    }
  }
}
