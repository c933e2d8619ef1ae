/** printf: the formatting state machine, one character of the format at a time. */
module Printf {
  import Digits
  import opened Numerals

  /** 64 bits in octal, a NUL, and one more: sizeof(long long) * CHAR_BIT / 3 + 2. */
  const NUMBER_BUF_SIZE := 64 / 3 + 2
  const NUL := 0 as char

  datatype Size = IntSize | LongSize | LongLongSize

  datatype Arg = Int(value: int) | Str(text: string) | Null

  // ------------------------------------------------------------ reference

  /** What is kept between two characters of the format. */
  datatype Format = Format(inPct: bool, size: Size, spacing: nat, left: bool, zero: bool, alt: bool, out: string,
                           args: seq<Arg>)

  function Between(out: string, args: seq<Arg>): Format {
    Format(false, IntSize, 0, false, false, false, out, args)
  }

  function Bits(size: Size): nat {
    if size == LongLongSize then 0x1_0000_0000_0000_0000 else 0x1_0000_0000
  }

  function IntArg(args: seq<Arg>): int {
    if args != [] && args[0].Int? then args[0].value else 0
  }

  function Rest(args: seq<Arg>): seq<Arg> {
    if args == [] then [] else args[1..]
  }

  /** The argument as a signed integer of its size. */
  function AsSigned(v: int, size: Size): int {
    var u := v % Bits(size);
    if u < Bits(size) / 2 then u else u - Bits(size)
  }

  predicate IsModifier(ch: char) {
    ch == '#' || ch == '-' || ch == 'l' || '0' <= ch <= '9'
  }

  predicate IsConversion(ch: char) {
    ch == 'd' || ch == 'o' || ch == 'u' || ch == 'p' || ch == 'x'
  }

  function Modified(f: Format, ch: char): Format
    requires IsModifier(ch)
  {
    if ch == '#' then f.(alt := true)
    else if ch == '-' then f.(left := true)
    else if ch == 'l' then f.(size := if f.size == LongSize then LongLongSize else LongSize)
    else if ch == '0' && f.spacing == 0 then f.(zero := true)
    else f.(spacing := f.spacing * 10 + (ch as int - '0' as int))
  }

  function BaseOf(ch: char): nat
    requires IsConversion(ch)
  {
    if ch == 'o' then 8 else if ch == 'x' || ch == 'p' then 16 else 10
  }

  /** The magnitude printed for an argument. */
  function Magnitude(v: int, size: Size, ch: char): nat {
    if ch == 'p' then v % Bits(IntSize)
    else if ch == 'd' then (var s := AsSigned(v, size); if s < 0 then -s else s)
    else v % Bits(size)
  }

  function SignPrefix(v: int, size: Size, ch: char): string {
    if ch == 'd' && AsSigned(v, size) < 0 then "-" else ""
  }

  function BasePrefix(ch: char, alt: bool): string
    requires IsConversion(ch)
  {
    if !alt && ch != 'p' then "" else if BaseOf(ch) == 16 then "0x" else if BaseOf(ch) == 8 then "0" else ""
  }

  /** A text in its field: padded in front, between prefixes and text, or behind. */
  function Padded(spacing: nat, left: bool, zero: bool, prefix: string, stuff: string): string {
    var len := |prefix| + |stuff|;
    var spc := if spacing > len then spacing - len else 0;
    var fill := Repeat(if zero then '0' else ' ', spc);
    if left then prefix + stuff + fill
    else if zero then prefix + fill + stuff
    else fill + prefix + stuff
  }

  function Converted(f: Format, ch: char): string
    requires IsConversion(ch)
  {
    var v := IntArg(f.args);
    Padded(f.spacing, f.left, f.zero, SignPrefix(v, f.size, ch) + BasePrefix(ch, f.alt),
           Numeral(Magnitude(v, f.size, ch), BaseOf(ch)))
  }

  function Text(args: seq<Arg>): string {
    if args != [] && args[0].Str? then args[0].text else "(null)"
  }

  /** The text of a character argument, up to the NUL: nothing for the NUL itself. */
  function CharText(v: int): string {
    if v % 256 == 0 then "" else [(v % 256) as char]
  }

  /** One character of the format. */
  function Next(f: Format, ch: char): Format {
    if !f.inPct && ch != '%' then f.(out := f.out + [ch])
    else if !f.inPct then f.(inPct := true)
    else if IsModifier(ch) then Modified(f, ch)
    else if IsConversion(ch) then Between(f.out + Converted(f, ch), Rest(f.args))
    else if ch == 's' then Between(f.out + Padded(f.spacing, f.left, f.zero, "", Text(f.args)), Rest(f.args))
    else if ch == 'c' then
      Between(f.out + Padded(f.spacing, f.left, f.zero, "", CharText(IntArg(f.args))), Rest(f.args))
    else Between(f.out + Padded(f.spacing, f.left, f.zero, "", [ch]), f.args)
  }

  function Run(f: Format, format: string): Format {
    if format == [] then f else Next(Run(f, format[..|format| - 1]), format[|format| - 1])
  }

  // ------------------------------------------------------------ the code

  class Printer {
    var out: string
    var charcount: nat
    var args: seq<Arg>
    var inPct: bool
    var size: Size
    var num: nat
    var sign: int
    var spacing: nat
    var rightspc: bool
    var fillchar: char
    var base: nat
    var baseprefix: bool
    var altformat: bool

    ghost predicate Valid()
      reads this
    {
      charcount == |out| && (fillchar == ' ' || fillchar == '0')
    }

    /** Nothing of an earlier conversion is left. */
    ghost predicate Clean()
      reads this
    {
      num == 0 && sign == 0 && base == 0 && !baseprefix
    }

    ghost function View(): Format
      reads this
    {
      Format(inPct, size, spacing, rightspc, fillchar == '0', altformat, out, args)
    }

    constructor (arguments: seq<Arg>)
      ensures Valid() && Clean() && View() == Between("", arguments)
    {
      out, charcount, args := "", 0, arguments;
      inPct, size, num, sign, spacing := false, IntSize, 0, 0, 0;
      rightspc, fillchar, base, baseprefix, altformat := false, ' ', 0, false, false;
    }

    method Print(txt: string)
      requires Valid()
      modifies this`out, this`charcount
      ensures Valid() && out == old(out) + txt
    {
      out := out + txt;
      charcount := charcount + |txt|;
    }

    method EndField()
      requires Valid()
      modifies this
      ensures Valid() && Clean() && View() == Between(old(out), old(args))
    {
      inPct, size, num, sign, spacing := false, IntSize, 0, 0, 0;
      rightspc, fillchar, base, baseprefix, altformat := false, ' ', 0, false, false;
    }

    method Modifier(ch: char)
      requires Valid() && IsModifier(ch)
      modifies this`altformat, this`rightspc, this`size, this`spacing, this`fillchar
      ensures Valid() && View() == Modified(old(View()), ch)
    {
      if ch == '#' {
        altformat := true;
      } else if ch == '-' {
        rightspc := true;
      } else if ch == 'l' {
        if size == LongSize {
          size := LongLongSize;
        } else {
          size := LongSize;
        }
      } else if ch == '0' {
        if spacing > 0 {
          spacing := spacing * 10;
        } else {
          fillchar := '0';
        }
      } else {
        spacing := spacing * 10 + (ch as int - '0' as int);
      }
    }

    method GetNum(ch: char)
      requires IsConversion(ch) && Clean()
      modifies this`num, this`sign, this`args
      ensures num == Magnitude(IntArg(old(args)), size, ch) && args == Rest(old(args))
      ensures sign == if SignPrefix(IntArg(old(args)), size, ch) == "" then 0 else -1
    {
      var v := IntArg(args);
      args := Rest(args);
      if ch == 'p' {
        num := v % Bits(IntSize);
      } else if ch == 'd' {
        var signed := AsSigned(v, size);
        if signed < 0 {
          sign := -1;
          num := -signed;
        } else {
          num := signed;
        }
      } else {
        num := v % Bits(size);
      }
    }

    method SetBase(ch: char)
      requires IsConversion(ch) && NoBase()
      modifies this`base, this`baseprefix
      ensures base == BaseOf(ch) && baseprefix == (altformat || ch == 'p')
    {
      if ch == 'd' || ch == 'u' {
        base := 10;
      } else if ch == 'x' || ch == 'p' {
        base := 16;
      } else {
        base := 8;
      }
      if altformat || ch == 'p' {
        baseprefix := true;
      }
    }

    ghost predicate NoBase()
      reads this
    {
      base == 0 && !baseprefix
    }

    method Fill(spc: nat)
      requires Valid()
      modifies this`out, this`charcount
      ensures Valid() && out == old(out) + Repeat(fillchar, spc)
    {
      var i := 0;
      while i < spc
        invariant 0 <= i <= spc && Valid() && out == old(out) + Repeat(fillchar, i)
      {
        Print([fillchar]);
        assert Repeat(fillchar, i + 1) == Repeat(fillchar, i) + [fillchar];
        i := i + 1;
      }
    }

    method PrintStuff(prefix: string, prefix2: string, stuff: string)
      requires Valid()
      modifies this`out, this`charcount
      ensures Valid() && out == old(out) + Padded(spacing, rightspc, fillchar == '0', prefix + prefix2, stuff)
    {
      var len := |prefix| + |prefix2| + |stuff|;
      var spc: nat := if spacing > len then spacing - len else 0;
      ghost var out0, fill := out, Repeat(fillchar, spc);
      if spc > 0 && !rightspc && fillchar != '0' {
        Fill(spc);
      }
      Print(prefix);
      Print(prefix2);
      if spc > 0 && !rightspc && fillchar == '0' {
        Fill(spc);
      }
      Print(stuff);
      if spc > 0 && rightspc {
        Fill(spc);
      }
      Joined(out0, fill, prefix, prefix2, stuff);
    }

    /** The text up to the NUL, as strlen and the loop that prints it find it. */
    method CString(buf: array<char>, x: nat, ghost end: nat) returns (text: string)
      requires x <= end < buf.Length && buf[end] == NUL
      requires forall i :: x <= i < end ==> buf[i] != NUL
      ensures text == buf[x..end]
    {
      var e := x;
      while buf[e] != NUL
        invariant x <= e <= end
        decreases end - e
      {
        e := e + 1;
      }
      text := buf[x..e];
    }

    /** The digits, written from right to left into the buffer. Every access is inside
        the buffer, for every number of 64 bits and every base. */
    method NumberText() returns (text: string)
      requires IsBase(base) && num < Bits(LongLongSize)
      ensures text == Numeral(num, base)
    {
      hide Numeral, IsBase, Quotient, Remainder, Digit;
      var buf := new char[NUMBER_BUF_SIZE];
      var x := NUMBER_BUF_SIZE - 1;
      buf[x] := NUL;
      x := x - 1;
      FitsBuffer(num, base);
      var xnum: nat := num;
      ghost var written := "";
      var again := true;
      while again
        invariant buf.Length == NUMBER_BUF_SIZE && |written| == NUMBER_BUF_SIZE - 2 - x
        invariant -1 <= x <= NUMBER_BUF_SIZE - 2 && buf[x + 1..NUMBER_BUF_SIZE - 1] == written
        invariant buf[NUMBER_BUF_SIZE - 1] == NUL && NUL !in written
        invariant Numeral(num, base) == (if again then Numeral(xnum, base) else "") + written
        decreases again, xnum
      {
        NumeralStep(xnum, base);
        var digit := Digit(Remainder(xnum, base));
        ghost var front := if Quotient(xnum, base) > 0 then Numeral(Quotient(xnum, base), base) else "";
        DigitInFront(front, digit, written);
        DigitIsText(xnum, base);
        PutChar(buf, x, digit);
        written := [digit] + written;
        x := x - 1;
        xnum := Quotient(xnum, base);
        again := xnum > 0;
      }
      x := x + 1;
      assert forall i :: x <= i < NUMBER_BUF_SIZE - 1 ==> buf[i] == written[i - x];
      text := CString(buf, x, NUMBER_BUF_SIZE - 1);
    }

    method PrintNum()
      requires Valid() && IsBase(base) && num < Bits(LongLongSize)
      modifies this`out, this`charcount
      ensures Valid()
      ensures out == old(out) + Padded(spacing, rightspc, fillchar == '0',
        (if sign != 0 then "-" else "") + (if !baseprefix then "" else if base == 16 then "0x" else if base == 8 then "0" else ""),
        Numeral(num, base))
    {
      var x := NumberText();
      var bprefix := "";
      if baseprefix && base == 16 {
        bprefix := "0x";
      } else if baseprefix && base == 8 {
        bprefix := "0";
      }
      var sprefix := if sign != 0 then "-" else "";
      PrintStuff(sprefix, bprefix, x);
    }

    /** __pf_send */
    method Send(ch: char)
      requires Valid() && Clean()
      modifies this
      ensures Valid() && Clean() && View() == Next(old(View()), ch)
    {
      hide Padded, Numeral, AsSigned;
      if !inPct && ch != '%' {
        Print([ch]);
      } else if !inPct {
        inPct := true;
      } else if IsModifier(ch) {
        Modifier(ch);
      } else if IsConversion(ch) {
        MagnitudeFits(IntArg(args), size, ch);
        GetNum(ch);
        SetBase(ch);
        PrintNum();
        EndField();
      } else if ch == 's' {
        var str := Text(args);
        args := Rest(args);
        NoPrefix(spacing, rightspc, fillchar == '0', str);
        PrintStuff("", "", str);
        EndField();
      } else {
        var x: string;
        if ch == 'c' {
          x := CharText(IntArg(args));
          args := Rest(args);
        } else {
          x := [ch];
        }
        NoPrefix(spacing, rightspc, fillchar == '0', x);
        PrintStuff("", "", x);
        EndField();
      }
    }

    /** __vprintf: the count returned is the length of what was printed. */
    method Vprintf(format: string) returns (count: nat)
      requires Valid() && Clean()
      modifies this
      ensures Valid() && View() == Run(old(View()), format) && count == |out|
    {
      hide Next;
      var i := 0;
      assert format[..0] == [];
      while i < |format|
        invariant 0 <= i <= |format| && Valid() && Clean() && View() == Run(old(View()), format[..i])
      {
        assert format[..i + 1][..i] == format[..i];
        Send(format[i]);
        i := i + 1;
      }
      assert format[..i] == format;
      count := charcount;
    }
  }

  lemma DigitInFront(front: string, digit: char, written: string)
    ensures front + [digit] + written == front + ([digit] + written)
    ensures |front + [digit] + written| >= 1 + |written|
  {
  }

  lemma DigitIsText(n: nat, b: nat)
    requires IsBase(b)
    ensures Remainder(n, b) < 16 && Digit(Remainder(n, b)) != NUL
  {
    var d: nat := Remainder(n, b);
    assert d < 16;
    assert forall i :: 0 <= i < 16 ==> DIGITS[i] >= '0';
  }

  /** Writes one character in front of the text at the end of the buffer. */
  method PutChar(buf: array<char>, x: nat, c: char)
    requires x + 1 < buf.Length
    modifies buf
    ensures buf[x..buf.Length - 1] == [c] + old(buf[x + 1..buf.Length - 1])
    ensures buf[buf.Length - 1] == old(buf[buf.Length - 1])
  {
    buf[x] := c;
  }

  lemma Joined(out0: string, fill: string, p: string, q: string, s: string)
    ensures out0 + p + q + s + fill == out0 + (p + q + s + fill)
    ensures out0 + p + q + fill + s == out0 + (p + q + fill + s)
    ensures out0 + fill + p + q + s == out0 + (fill + (p + q) + s)
    ensures fill == "" ==> out0 + p + q + s == out0 + (p + q + s + fill)
    ensures fill == "" ==> out0 + p + q + s == out0 + (p + q + fill + s)
    ensures fill == "" ==> out0 + p + q + s == out0 + (fill + (p + q) + s)
  {
  }

  lemma NoPrefix(spacing: nat, left: bool, zero: bool, stuff: string)
    ensures Padded(spacing, left, zero, "" + "", stuff) == Padded(spacing, left, zero, "", stuff)
  {
  }

  lemma MagnitudeFits(v: int, size: Size, ch: char)
    ensures Magnitude(v, size, ch) < Bits(LongLongSize)
  {
  }

  function Quotient(n: nat, b: nat): nat
    requires IsBase(b)
  {
    n / b
  }

  function Remainder(n: nat, b: nat): (r: nat)
    requires IsBase(b)
    ensures r < 16
  {
    n % b
  }

  lemma QuotientFacts(n: nat, b: nat)
    requires IsBase(b)
    ensures n < b ==> Quotient(n, b) == 0 && Remainder(n, b) == n
    ensures n >= b ==> 0 < Quotient(n, b) < n
    ensures Quotient(n, b) == n / b && Remainder(n, b) == n % b
  {
    if b == 8 {
    } else if b == 10 {
    } else {
      assert b == 16;
    }
  }

  lemma NumeralStep(n: nat, b: nat)
    requires IsBase(b)
    ensures Quotient(n, b) > 0 ==> Quotient(n, b) < n
    ensures Numeral(n, b) ==
      (if Quotient(n, b) > 0 then Numeral(Quotient(n, b), b) else "") + [Digit(Remainder(n, b))]
  {
    hide Quotient, Remainder;
    QuotientFacts(n, b);
    NumeralCases(n, b);
    hide Numeral;
  }

  lemma NumeralCases(n: nat, b: nat)
    requires IsBase(b)
    ensures n < b ==> Numeral(n, b) == [Digit(n)]
    ensures n >= b ==> Numeral(n, b) == Numeral(n / b, b) + [Digit(n % b)]
  {
  }

  /** A number of 64 bits has at most 22 digits, and 22 digits and a NUL fill the buffer. */
  lemma FitsBuffer(n: nat, b: nat)
    requires IsBase(b) && n < Bits(LongLongSize)
    ensures |Numeral(n, b)| <= NUMBER_BUF_SIZE - 1
  {
    NumeralLength(n, b, 22);
    assert Bits(LongLongSize) <= Digits.Pow(b, 22) by {
      PowersOfTheBases();
    }
  }

  lemma PowersOfTheBases()
    ensures Digits.Pow(8, 21) <= Bits(LongLongSize) - 1 < Digits.Pow(8, 22)
    ensures Bits(LongLongSize) < Digits.Pow(10, 22)
    ensures Bits(LongLongSize) < Digits.Pow(16, 22)
  {
    assert Digits.Pow(8, 7) == 2_097_152;
    assert Digits.Pow(8, 14) == 4_398_046_511_104;
    assert Digits.Pow(8, 21) == 9_223_372_036_854_775_808;
    assert Digits.Pow(10, 11) == 100_000_000_000;
    assert Digits.Pow(10, 22) == 10_000_000_000_000_000_000_000;
    assert Digits.Pow(16, 8) == 4_294_967_296;
    assert Digits.Pow(16, 16) == 18_446_744_073_709_551_616;
    assert Digits.Pow(16, 22) == 18_446_744_073_709_551_616 * 16_777_216;
  }

  /** The buffer could not be smaller: the largest number has 22 digits in octal. */
  lemma BufferIsTight()
    ensures |Numeral(Bits(LongLongSize) - 1, 8)| == NUMBER_BUF_SIZE - 1
  {
    PowersOfTheBases();
    NumeralLength(Bits(LongLongSize) - 1, 8, 21);
    FitsBuffer(Bits(LongLongSize) - 1, 8);
  }
}
