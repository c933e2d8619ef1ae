/** atoi, in unsigned 32-bit arithmetic with the result taken as an int. */
module Atoi {
  import opened Numerals

  const WORD := 0x1_0000_0000

  /** The int with the same 32 bits. */
  function Signed32(u: int): (v: int)
    ensures -WORD / 2 <= v < WORD / 2 && (u - v) % WORD == 0
  {
    var r := u % WORD;
    if r < WORD / 2 then r else r - WORD
  }

  predicate IsBlank(c: char) {
    c == ' ' || c == '\t'
  }

  predicate IsDigit(c: char) {
    '0' <= c <= '9'
  }

  /** The text behind leading blanks. */
  function SkipBlanks(s: string): string {
    if s != [] && IsBlank(s[0]) then SkipBlanks(s[1..]) else s
  }

  /** The digits that a text begins with. */
  function DigitRun(s: string): string {
    if s != [] && IsDigit(s[0]) then [s[0]] + DigitRun(s[1..]) else []
  }

  function SkipSign(s: string): string {
    if s != [] && (s[0] == '-' || s[0] == '+') then s[1..] else s
  }

  predicate IsNegative(s: string) {
    s != [] && s[0] == '-'
  }

  /** Blanks, a sign, digits: the value of the digits with the sign, modulo the word. */
  function AtoiOf(s: string): int {
    var t := SkipBlanks(s);
    var v := Value(DigitRun(SkipSign(t)), 10);
    Signed32(if IsNegative(t) then -v else v)
  }

  /** atoi; the index i stands for the pointer. */
  method Parse(s: string) returns (r: int)
    ensures r == AtoiOf(s)
  {
    hide Value, Signed32, DigitRun, SkipBlanks;
    var neg := false;
    var i := Blanks(s);
    ghost var t := SkipBlanks(s);
    if i < |s| && s[i] == '-' {
      neg := true;
      i := i + 1;
    } else if i < |s| && s[i] == '+' {
      i := i + 1;
    }
    assert SkipSign(t) == s[i..];
    var val := ReadDigits(s, i);
    Wraps(Value(DigitRun(s[i..]), 10));
    if neg {
      return Signed32(-val);
    }
    r := Signed32(val);
  }

  method Blanks(s: string) returns (i: nat)
    ensures i <= |s| && SkipBlanks(s) == s[i..]
  {
    i := 0;
    while i < |s| && IsBlank(s[i])
      invariant 0 <= i <= |s| && SkipBlanks(s) == SkipBlanks(s[i..])
    {
      assert s[i..][1..] == s[i + 1..];
      i := i + 1;
    }
  }

  /** The value of the digits from index i0 on. */
  method ReadDigits(s: string, i0: nat) returns (val: int)
    requires i0 <= |s|
    ensures val == Value(DigitRun(s[i0..]), 10) % WORD
  {
    hide Value;
    var i := i0;
    ghost var ds := "";
    val := 0;
    NoDigits();
    while i < |s|
      invariant i0 <= i <= |s| && DigitRun(s[i0..]) == ds + DigitRun(s[i..])
      invariant val == Value(ds, 10) % WORD
    {
      if !IsDigit(s[i]) {
        break;
      }
      var digit := s[i] as int - '0' as int;
      assert s[i..][1..] == s[i + 1..];
      ValueSnoc(ds, s[i], 10);
      Accumulate(Value(ds, 10), digit);
      ds := ds + [s[i]];
      val := (val * 10 + digit) % WORD;
      i := i + 1;
    }
    assert DigitRun(s[i..]) == [];
    assert ds + [] == ds;
  }

  lemma NoDigits()
    ensures Value("", 10) % WORD == 0
  {
  }

  lemma Accumulate(v: int, d: int)
    ensures (v % WORD * 10 + d) % WORD == (v * 10 + d) % WORD
  {
    var q := v / WORD;
    assert v == WORD * q + v % WORD;
    assert v * 10 + d == WORD * (10 * q) + (v % WORD * 10 + d);
  }

  lemma Wraps(v: int)
    ensures Signed32(v % WORD) == Signed32(v) && Signed32(-(v % WORD)) == Signed32(-v)
  {
    SameRest(v, v % WORD, v / WORD);
    SameRest(-v, -(v % WORD), -(v / WORD));
  }

  lemma SameRest(a: int, b: int, q: int)
    requires a == WORD * q + b
    ensures a % WORD == b % WORD
  {
    var d := a / WORD - q - b / WORD;
    assert a % WORD - b % WORD == -WORD * d;
  }

  // ------------------------------------------------------------ what atoi reads

  lemma {:induction false} BlanksSkipped(b: string, s: string)
    requires (forall i :: 0 <= i < |b| ==> IsBlank(b[i])) && (s == [] || !IsBlank(s[0]))
    ensures SkipBlanks(b + s) == s
    decreases |b|
  {
    if b == [] {
      assert b + s == s;
    } else {
      BlanksSkipped(b[1..], s);
      assert (b + s)[1..] == b[1..] + s;
    }
  }

  lemma {:induction false} DigitsRead(ds: string, rest: string)
    requires (forall i :: 0 <= i < |ds| ==> IsDigit(ds[i])) && (rest == [] || !IsDigit(rest[0]))
    ensures DigitRun(ds + rest) == ds
    decreases |ds|
  {
    if ds == [] {
      assert ds + rest == rest;
    } else {
      DigitsRead(ds[1..], rest);
      assert (ds + rest)[1..] == ds[1..] + rest;
    }
  }

  /** Blanks and tabs, an optional sign, digits or none, and then anything else. Every text
      has this shape. */
  lemma Reads(b: string, sign: string, ds: string, rest: string)
    requires forall i :: 0 <= i < |b| ==> b[i] == ' ' || b[i] == '\t'
    requires sign == "" || sign == "-" || sign == "+"
    requires forall i :: 0 <= i < |ds| ==> '0' <= ds[i] <= '9'
    requires rest == [] || !('0' <= rest[0] <= '9')
    requires sign == "" && ds == [] && rest != [] ==> rest[0] != ' ' && rest[0] != '\t' && rest[0] != '-' && rest[0] != '+'
    ensures AtoiOf(b + sign + ds + rest) == Signed32(if sign == "-" then -Value(ds, 10) else Value(ds, 10))
  {
    hide Value, Signed32, DigitRun, SkipBlanks, SkipSign, IsNegative, AtoiOf;
    var body := ds + rest;
    Regroup(b, sign, ds, rest);
    SignRead(sign, body);
    BlanksSkipped(b, sign + body);
    DigitsRead(ds, rest);
    AtoiParts(b + sign + ds + rest, sign + body, body, ds, sign == "-");
  }

  lemma AtoiParts(s: string, t: string, body: string, ds: string, neg: bool)
    requires SkipBlanks(s) == t && SkipSign(t) == body && DigitRun(body) == ds && IsNegative(t) == neg
    ensures AtoiOf(s) == Signed32(if neg then -Value(ds, 10) else Value(ds, 10))
  {
  }

  lemma Regroup(a: string, b: string, c: string, d: string)
    ensures a + b + c + d == a + (b + (c + d))
  {
  }

  lemma SignRead(sign: string, body: string)
    requires sign == "" || sign == "-" || sign == "+"
    requires sign == "" && body != [] ==> !IsBlank(body[0]) && body[0] != '-' && body[0] != '+'
    ensures var t := sign + body;
            (t == [] || !IsBlank(t[0])) && IsNegative(t) == (sign == "-") && SkipSign(t) == body
  {
    var t := sign + body;
    if sign == "" {
      assert t == body;
    } else {
      assert t[0] == sign[0] && t[1..] == body;
    }
  }
}
