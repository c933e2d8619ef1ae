/** What printf prints for an int under %d, read back by atoi. */
module PrintReadBack {
  import D = Digits
  import opened Numerals
  import opened Printf
  import opened Atoi

  predicate IsInt(v: int) {
    -WORD / 2 <= v < WORD / 2
  }

  function Abs(v: int): (r: int)
    ensures r >= 0
  {
    if v < 0 then -v else v
  }

  /** The text of v without padding. */
  function Natural(v: int): string {
    (if v < 0 then "-" else "") + Numeral(Abs(v), 10)
  }

  /** The format with any of the flags - and 0, and a width. */
  function WidthFormat(left: bool, zero: bool, w: nat): string {
    FullFormat(false, left, zero, w, 0, 'd')
  }

  /** The format with any of the flags #, - and 0, a width, any number of ls, and a
      conversion. */
  function FullFormat(alt: bool, left: bool, zero: bool, w: nat, ls: nat, ch: char): string {
    Flags(alt, left, zero, w) + Repeat('l', ls) + [ch]
  }

  function Flags(alt: bool, left: bool, zero: bool, w: nat): string {
    "%" + (if alt then "#" else "") + (if left then "-" else "") + (if zero then "0" else "") +
    (if w == 0 then "" else Numeral(w, 10))
  }

  /** What is printed for v. */
  function Field(v: int, left: bool, zero: bool, w: nat): string {
    Padded(w, left, zero, if v < 0 then "-" else "", Numeral(Abs(v), 10))
  }

  // ------------------------------------------------------------ the format is understood

  lemma {:induction false} RunConcat(f: Format, a: string, b: string)
    ensures Run(f, a + b) == Run(Run(f, a), b)
    decreases |b|
  {
    hide Next;
    if b == [] {
      assert a + b == a;
    } else {
      RunConcat(f, a, b[..|b| - 1]);
      assert (a + b)[..|a + b| - 1] == a + b[..|b| - 1];
    }
  }

  lemma RunOne(f: Format, c: char)
    ensures Run(f, [c]) == Next(f, c)
  {
    hide Next;
    assert [c][..0] == [];
  }

  /** Digits behind a width so far extend it. */
  lemma {:induction false} WidthDigits(f: Format, w: nat)
    requires f.inPct && f.spacing == 0 && w > 0
    ensures Run(f, Numeral(w, 10)) == f.(spacing := w)
    decreases w
  {
    DecimalDigits(w);
    if w < 10 {
      DecimalValue(w);
      RunOne(f, Digit(w));
    } else {
      WidthDigits(f, w / 10);
      DecimalValue(w % 10);
      RunConcat(f, Numeral(w / 10, 10), [Digit(w % 10)]);
      RunOne(f.(spacing := w / 10), Digit(w % 10));
    }
  }

  lemma DecimalValue(d: nat)
    requires d < 10
    ensures '0' <= Digit(d) <= '9' && Digit(d) as int - '0' as int == d
  {
    DecimalChar(d);
    DigitRoundTrip(d);
  }

  /** What is kept after the flags and the width. */
  lemma FlagsKept(out: string, args: seq<Arg>, alt: bool, left: bool, zero: bool, w: nat)
    ensures Run(Between(out, args), Flags(alt, left, zero, w)) == Format(true, IntSize, w, left, zero, alt, out, args)
  {
    hide Run, Numeral;
    var f0 := Between(out, args);
    var a, m, z := if alt then "#" else "", if left then "-" else "", if zero then "0" else "";
    var d := if w == 0 then "" else Numeral(w, 10);
    var f1 := f0.(inPct := true);
    var f2 := f1.(alt := alt);
    var f3 := f2.(left := left);
    var f4 := f3.(zero := zero);
    RunOne(f0, '%');
    RunMaybe(f1, alt, '#');
    RunMaybe(f2, left, '-');
    RunMaybe(f3, zero, '0');
    if w == 0 {
      RunNothing(f4);
    } else {
      WidthDigits(f4, w);
    }
    hide Next;
    RunConcat(f0, "%", a);
    RunConcat(f0, "%" + a, m);
    RunConcat(f0, "%" + a + m, z);
    RunConcat(f0, "%" + a + m + z, d);
  }

  /** One l asks for a long, a second for a long long, a third for a long again. */
  function SizeOf(ls: nat): Size {
    if ls == 0 then IntSize else if ls % 2 == 0 then LongLongSize else LongSize
  }

  lemma {:induction false} LsKept(f: Format, ls: nat)
    requires f.inPct && f.size == IntSize
    ensures Run(f, Repeat('l', ls)) == f.(size := SizeOf(ls))
  {
    hide Run;
    if ls == 0 {
      RunNothing(f);
    } else {
      LsKept(f, ls - 1);
      assert Repeat('l', ls) == Repeat('l', ls - 1) + "l";
      RunConcat(f, Repeat('l', ls - 1), "l");
      RunOne(f.(size := SizeOf(ls - 1)), 'l');
    }
  }

  /** All in front of the conversion. */
  lemma FormatKept(out: string, args: seq<Arg>, alt: bool, left: bool, zero: bool, w: nat, ls: nat, ch: char)
    ensures Run(Between(out, args), FullFormat(alt, left, zero, w, ls, ch)) ==
      Next(Format(true, SizeOf(ls), w, left, zero, alt, out, args), ch)
  {
    hide Run, Next, Flags;
    var f0 := Between(out, args);
    FlagsKept(out, args, alt, left, zero, w);
    LsKept(Format(true, IntSize, w, left, zero, alt, out, args), ls);
    RunConcat(f0, Flags(alt, left, zero, w), Repeat('l', ls));
    RunConcat(f0, Flags(alt, left, zero, w) + Repeat('l', ls), [ch]);
    RunOne(Format(true, SizeOf(ls), w, left, zero, alt, out, args), ch);
  }

  /** A prefix and a text in a field of width w, with the fill where it belongs. */
  ghost predicate InField(text: string, w: nat, left: bool, zero: bool, prefix: string, stuff: string, fill: string) {
    && |fill| == (if w > |prefix| + |stuff| then w - |prefix| - |stuff| else 0)
    && (forall i :: 0 <= i < |fill| ==> fill[i] == if zero then '0' else ' ')
    && text == if left then prefix + stuff + fill else if zero then prefix + fill + stuff else fill + prefix + stuff
  }

  lemma FieldOf(w: nat, left: bool, zero: bool, prefix: string, stuff: string) returns (fill: string)
    ensures InField(Padded(w, left, zero, prefix, stuff), w, left, zero, prefix, stuff, fill)
  {
    fill := Repeat(if zero then '0' else ' ', if w > |prefix| + |stuff| then w - |prefix| - |stuff| else 0);
  }

  /** ds are the digits of n in base b: they evaluate to it and do not begin with a zero
      that could be left out. */
  ghost predicate AreDigitsOf(ds: string, n: nat, b: nat) {
    && Value(ds, b) == n && ds != [] && (|ds| > 1 ==> ds[0] != '0')
    && forall i :: 0 <= i < |ds| ==> 0 <= DigitValue(ds[i]) < b
  }

  lemma {:induction false} NumeralDigits(n: nat, b: nat)
    requires IsBase(b)
    ensures AreDigitsOf(Numeral(n, b), n, b) && (n > 0 ==> Numeral(n, b)[0] != '0')
    decreases n
  {
    NumeralEvaluates(n, b);
    if n < b {
      DigitRoundTrip(n);
      assert n > 0 ==> Digit(n) != '0';
    } else {
      NumeralDigits(n / b, b);
      DigitRoundTrip(n % b);
    }
  }

  /** What %d, %u, %x, %o and %p print, with any flags, width and size: the digits of the
      argument in the base, behind the sign and the prefix, in the field. */
  lemma PrintsNumber(out: string, v: int, more: seq<Arg>, alt: bool, left: bool, zero: bool, w: nat, ls: nat, ch: char)
    returns (text: string, ds: string, fill: string)
    requires ch == 'd' || ch == 'u' || ch == 'x' || ch == 'o' || ch == 'p'
    ensures Run(Between(out, [Int(v)] + more), FullFormat(alt, left, zero, w, ls, ch)) == Between(out + text, more)
    ensures var word: int := if ls > 0 && ls % 2 == 0 && ch != 'p' then 0x1_0000_0000_0000_0000 else 0x1_0000_0000;
            var u := v % word;
            var neg := ch == 'd' && u >= word / 2;
            var b := if ch == 'x' || ch == 'p' then 16 else if ch == 'o' then 8 else 10;
            var prefix := (if neg then "-" else "") +
              if ch == 'p' || (alt && ch == 'x') then "0x" else if alt && ch == 'o' then "0" else "";
            AreDigitsOf(ds, if neg then word - u else u, b) && InField(text, w, left, zero, prefix, ds, fill)
  {
    hide Run, Numeral, Padded, AreDigitsOf, InField;
    FormatKept(out, [Int(v)] + more, alt, left, zero, w, ls, ch);
    var size := SizeOf(ls);
    ds := Numeral(Magnitude(v, size, ch), BaseOf(ch));
    NumeralDigits(Magnitude(v, size, ch), BaseOf(ch));
    var prefix := SignPrefix(v, size, ch) + BasePrefix(ch, alt);
    text := Padded(w, left, zero, prefix, ds);
    fill := FieldOf(w, left, zero, prefix, ds);
    assert ([Int(v)] + more)[1..] == more;
  }

  /** What %s and %c print: the text of the argument in the field; the character NUL is no
      text. */
  lemma PrintsText(out: string, arg: Arg, more: seq<Arg>, alt: bool, left: bool, zero: bool, w: nat, ls: nat, ch: char)
    returns (text: string, fill: string)
    requires (ch == 's' && (arg.Str? || arg.Null?)) || (ch == 'c' && arg.Int?)
    ensures Run(Between(out, [arg] + more), FullFormat(alt, left, zero, w, ls, ch)) == Between(out + text, more)
    ensures var stuff := if arg.Str? then arg.text else if arg.Null? then "(null)"
                         else if arg.value % 256 == 0 then "" else [(arg.value % 256) as char];
            InField(text, w, left, zero, "", stuff, fill)
  {
    hide Run, Padded, InField;
    FormatKept(out, [arg] + more, alt, left, zero, w, ls, ch);
    var stuff := if ch == 's' then Text([arg] + more) else CharText(IntArg([arg] + more));
    text := Padded(w, left, zero, "", stuff);
    fill := FieldOf(w, left, zero, "", stuff);
    assert ([arg] + more)[1..] == more;
  }

  /** Characters outside a conversion are printed as they are. */
  lemma {:induction false} PrintsPlain(out: string, args: seq<Arg>, plain: string)
    requires forall i :: 0 <= i < |plain| ==> plain[i] != '%'
    ensures Run(Between(out, args), plain) == Between(out + plain, args)
    decreases |plain|
  {
    if plain == [] {
      assert out + plain == out;
    } else {
      var m := |plain| - 1;
      PrintsPlain(out, args, plain[..m]);
      assert out + plain[..m] + [plain[m]] == out + plain;
    }
  }

  /** printf with the format and v prints the field. */
  lemma PrintsField(v: int, left: bool, zero: bool, w: nat)
    requires IsInt(v)
    ensures Run(Between("", [Int(v)]), WidthFormat(left, zero, w)) == Between(Field(v, left, zero, w), [])
  {
    hide Run, Numeral, Padded;
    FormatKept("", [Int(v)], false, left, zero, w, 0, 'd');
    assert AsSigned(v, IntSize) == v;
    assert (if v < 0 then "-" else "") + "" == if v < 0 then "-" else "";
    assert "" + Field(v, left, zero, w) == Field(v, left, zero, w);
  }

  lemma RunNothing(f: Format)
    ensures Run(f, "") == f
  {
  }

  lemma RunMaybe(f: Format, flag: bool, c: char)
    requires f.inPct && f.spacing == 0 && ((c == '-' && !f.left) || (c == '0' && !f.zero) || (c == '#' && !f.alt))
    ensures Run(f, if flag then [c] else "") ==
      if c == '-' then f.(left := flag) else if c == '0' then f.(zero := flag) else f.(alt := flag)
  {
    RunOne(f, c);
  }

  /** The field is as wide as the width asks, or as the number needs. */
  lemma FieldLength(v: int, left: bool, zero: bool, w: nat)
    ensures |Field(v, left, zero, w)| == if w > |Natural(v)| then w else |Natural(v)|
  {
    hide Numeral;
  }

  // ------------------------------------------------------------ reading it back

  /** atoi of the field is v, unless zeros were padded behind a number other than zero. */
  lemma ReadsBack(v: int, left: bool, zero: bool, w: nat)
    requires IsInt(v)
    ensures AtoiOf(Field(v, left, zero, w)) == v <==> !(left && zero && w > |Natural(v)|) || v == 0
  {
    hide Numeral, AtoiOf, Value, Signed32;
    var neg, ds := v < 0, Numeral(Abs(v), 10);
    var spc := if w > |Natural(v)| then w - |Natural(v)| else 0;
    DecimalDigits(Abs(v));
    NumeralEvaluates(Abs(v), 10);
    InRange(v);
    if left && zero {
      ZerosBehind(ds, spc);
      Reads("", if neg then "-" else "", ds + Repeat('0', spc), "");
      BehindShape(neg, ds, spc);
      ScaledBack(v, spc);
    } else if left {
      Reads("", if neg then "-" else "", ds, Repeat(' ', spc));
      assert "" + (if neg then "-" else "") + ds + Repeat(' ', spc) == Field(v, left, zero, w);
    } else if zero {
      ZerosInFront(spc, ds);
      Reads("", if neg then "-" else "", Repeat('0', spc) + ds, "");
      FrontShape(neg, ds, spc);
    } else {
      Reads(Repeat(' ', spc), if neg then "-" else "", ds, "");
      assert Repeat(' ', spc) + (if neg then "-" else "") + ds + "" == Field(v, left, zero, w);
    }
  }

  /** %-02d of 1 prints 10. */
  lemma ZeroPaddedBehind()
    ensures WidthFormat(true, true, 2) == "%-02d" && Field(1, true, true, 2) == "10" && AtoiOf("10") == 10
  {
    hide WidthFormat, Field, AtoiOf;
    FormatOfTwo();
    FieldOfOne();
    TenReads();
  }

  lemma FormatOfTwo()
    ensures WidthFormat(true, true, 2) == "%-02d"
  {
    OneDigit(2);
    hide Numeral, Digit;
    assert Repeat('l', 0) == "";
  }

  lemma FieldOfOne()
    ensures Field(1, true, true, 2) == "10"
  {
    OneDigit(1);
    hide Numeral, Digit;
    assert Repeat('0', 1) == "0";
  }

  lemma OneDigit(d: nat)
    requires d < 10
    ensures Numeral(d, 10) == [('0' as int + d) as char]
  {
    DecimalValue(d);
  }

  lemma TenReads()
    ensures AtoiOf("10") == 10
  {
    hide AtoiOf;
    Reads("", "", "10", "");
    assert "" + "" + "10" + "" == "10";
    assert "10"[..1] == "1" && "1"[..0] == "";
    assert Value("1", 10) == 1;
    assert Value("10", 10) == 10;
  }

  lemma InRange(v: int)
    requires IsInt(v)
    ensures Signed32(v) == v && (if v < 0 then -Abs(v) else Abs(v)) == v
  {
  }

  lemma BehindShape(neg: bool, ds: string, spc: nat)
    ensures var sign := if neg then "-" else "";
            "" + sign + (ds + Repeat('0', spc)) + "" == sign + ds + Repeat('0', spc)
  {
  }

  lemma FrontShape(neg: bool, ds: string, spc: nat)
    ensures var sign := if neg then "-" else "";
            "" + sign + (Repeat('0', spc) + ds) + "" == sign + Repeat('0', spc) + ds
  {
  }

  /** A value scaled by a power of ten wraps back to itself only if nothing was scaled:
      one less than the power is odd, so the word would have to divide the value. */
  lemma ScaledBack(v: int, k: nat)
    requires IsInt(v)
    ensures Signed32(if v < 0 then -(Abs(v) * D.Pow(10, k)) else Abs(v) * D.Pow(10, k)) == v <==> k == 0 || v == 0
  {
    hide Signed32;
    var p: int := D.Pow(10, k);
    SignOut(v, p);
    InRange(v);
    if v == 0 {
      assert v * p == 0;
    } else if k == 0 {
      assert v * p == v;
    } else {
      TenIsEven(k);
      NotBack(v, p);
    }
  }

  lemma NotBack(v: int, p: int)
    requires IsInt(v) && v != 0 && p % 2 == 0
    ensures Signed32(v * p) != v
  {
    hide *;
    if Signed32(v * p) == v {
      var e := Wrapped(v * p, v);
      MulLess(v, p);
      OddBelow(p);
      NoOddMultiple(v, p - 1, e);
    }
  }

  lemma OddBelow(p: int)
    requires p % 2 == 0
    ensures (p - 1) % 2 == 1
  {
  }

  /** The word divides no product of an odd number and an int other than zero. */
  lemma NoOddMultiple(v: int, m: int, e: int)
    requires IsInt(v) && m % 2 == 1 && v * m == WORD * e
    ensures v == 0
  {
    WordIsPower();
    hide D.Pow2;
    var r := OddFactor(v, m, 32, e);
    NoMultiple(v, r);
  }

  lemma Wrapped(x: int, v: int) returns (e: int)
    requires Signed32(x) == v
    ensures x == WORD * e + v
  {
    e := if x % WORD < WORD / 2 then x / WORD else x / WORD + 1;
  }

  lemma NoMultiple(v: int, r: int)
    requires IsInt(v) && v == WORD * r
    ensures v == 0
  {
  }

  lemma SignOut(v: int, p: int)
    ensures (if v < 0 then -(Abs(v) * p) else Abs(v) * p) == v * p
  {
  }

  lemma MulLess(v: int, p: int)
    ensures v * (p - 1) == v * p - v
  {
  }

  lemma TenIsEven(k: nat)
    requires k > 0
    ensures D.Pow(10, k) % 2 == 0
  {
    var p := D.Pow(10, k - 1);
    assert D.Pow(10, k) == 10 * p;
    hide D.Pow;
    EvenProduct(p);
  }

  lemma EvenProduct(p: int)
    ensures 10 * p % 2 == 0
  {
    assert 10 * p == 2 * (5 * p);
  }

  lemma WordIsPower()
    ensures D.Pow2(32) == WORD
  {
    assert D.Pow2(8) == 256;
    assert D.Pow2(16) == 65536;
    assert D.Pow2(24) == 16777216;
  }

  /** An odd factor carries no power of two. */
  lemma {:induction false} OddFactor(a: int, m: int, n: nat, q: int) returns (r: int)
    requires m % 2 == 1 && a * m == D.Pow2(n) * q
    ensures a == D.Pow2(n) * r
    decreases n
  {
    if n == 0 {
      r := a;
    } else {
      EvenFactor(a, m, D.Pow2(n - 1) * q, D.Pow2(n - 1), q);
      var u := a / 2;
      HalfProduct(a, u, m, D.Pow2(n - 1), q);
      r := OddFactor(u, m, n - 1, q);
      TwiceProduct(D.Pow2(n - 1), r);
    }
  }

  lemma EvenFactor(a: int, m: int, h: int, p: int, q: int)
    requires m % 2 == 1 && h == p * q && a * m == 2 * p * q
    ensures a % 2 == 0
  {
    assert a * m == 2 * h by {
      TwiceProduct(p, q);
    }
    if a % 2 == 1 {
      OddProduct(a, m);
    }
  }

  lemma OddProduct(a: int, m: int)
    requires a % 2 == 1 && m % 2 == 1
    ensures a * m % 2 == 1
  {
    var x, y := a / 2, m / 2;
    assert a * m == (2 * x + 1) * (2 * y + 1) == 2 * (2 * x * y + x + y) + 1;
  }

  lemma HalfProduct(a: int, u: int, m: int, p: int, q: int)
    requires a == 2 * u && a * m == 2 * p * q
    ensures u * m == p * q
  {
    TwiceProduct(u, m);
    TwiceProduct(p, q);
  }

  lemma TwiceProduct(p: int, q: int)
    ensures 2 * p * q == 2 * (p * q)
  {
  }
}
