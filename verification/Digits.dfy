/** Machine words and multi-digit numbers.

    The long-long library works on a machine whose `unsigned int` has 2*h bits,
    for whatever h the compiler uses. A digit has h bits, its base is
    B = Pow2(h), an `unsigned int` holds values below B*B and an
    `unsigned long long` values below B*B*B*B. Everything below is stated for
    every h >= 1. */
module Digits {

  function Pow(b: nat, e: nat): nat
  {
    if e == 0 then 1 else b * Pow(b, e - 1)
  }

  function Pow2(e: nat): (p: nat)
    ensures p >= 1
    ensures e >= 1 ==> p >= 2 && p % 2 == 0
  {
    if e == 0 then 1 else 2 * Pow2(e - 1)
  }

  /** The value of a big-endian digit string. */
  function Val(b: nat, s: seq<nat>): nat
  {
    if s == [] then 0 else s[0] * Pow(b, |s| - 1) + Val(b, s[1..])
  }

  predicate AreDigits(b: nat, s: seq<nat>)
  {
    forall i :: 0 <= i < |s| ==> s[i] < b
  }

  /** Bitwise or, bit by bit. */
  function BitOr(x: nat, y: nat): nat
  {
    if x == 0 then y
    else if y == 0 then x
    else 2 * BitOr(x / 2, y / 2) + (if x % 2 == 1 || y % 2 == 1 then 1 else 0)
  }

  /** Unsigned arithmetic: the result modulo one machine word of two digits. */
  function Wrap(b: nat, x: int): (w: nat)
    requires b >= 1
    ensures w < b * b
  {
    MulPos(b, b);
    x % (b * b)
  }

  /** One more than the largest unsigned long long. */
  function Modulus(h: nat): (m: nat)
    ensures m >= 1
  {
    MulPos(Pow2(h), Pow2(h));
    MulPos(Pow2(h) * Pow2(h), Pow2(h) * Pow2(h));
    Pow2(h) * Pow2(h) * (Pow2(h) * Pow2(h))
  }

  function HHalf(b: nat, x: nat): nat
    requires b >= 1
  {
    x / b
  }

  function LHalf(b: nat, x: nat): (r: nat)
    requires b >= 1
    ensures r < b
  {
    x % b
  }

  // ----- products

  lemma MulPos(x: nat, y: nat)
    requires x >= 1 && y >= 1
    ensures x * y >= 1
  {
  }

  lemma MulAssoc(x: int, y: int, z: int)
    ensures x * (y * z) == (x * y) * z
  {
  }

  lemma MulSum(x: int, y: int, z: int)
    ensures (x + y) * z == x * z + y * z
  {
  }

  lemma MulDiff(x: int, y: int, z: int)
    ensures (x - y) * z == x * z - y * z
  {
  }

  lemma ModSmall(x: nat, m: nat)
    requires x < m
    ensures x % m == x
  {
  }

  lemma MulMono(x: int, y: int, z: nat)
    requires x <= y
    ensures x * z <= y * z
  {
  }

  lemma MulLess(x: int, y: int, z: nat)
    requires x * z < y * z
    ensures x < y
  {
    if x >= y {
      MulMono(y, x, z);
    }
  }

  lemma MulStrict(x: int, y: int, z: nat)
    requires x < y && z >= 1
    ensures x * z < y * z
    ensures x * z + z <= y * z
  {
    MulMono(x + 1, y, z);
    assert (x + 1) * z == x * z + z;
  }

  lemma MulBound(x: nat, y: nat, a: nat, b: nat)
    requires x <= a && y <= b
    ensures x * y <= a * b
  {
    MulMono(x, a, y);
    MulMono(y, b, a);
  }

  /** The quotient and remainder are the only ones there are. */
  lemma DivModUnique(u: nat, v: nat, q: int, r: int)
    requires v >= 1 && u == q * v + r && 0 <= r < v
    ensures q == u / v && r == u % v
  {
    var q', r' := u / v, u % v;
    assert u == q' * v + r' by { assert u == v * (u / v) + u % v; }
    assert (q - q') * v == r' - r && (q' - q) * v == r - r';
    if q > q' {
      MulMono(1, q - q', v);
    } else if q < q' {
      MulMono(1, q' - q, v);
    }
  }

  // ----- powers

  lemma {:induction false} Pow2Add(x: nat, y: nat)
    ensures Pow2(x + y) == Pow2(x) * Pow2(y)
  {
    if x > 0 {
      Pow2Add(x - 1, y);
      assert Pow2(x + y) == 2 * Pow2(x - 1 + y) && Pow2(x) == 2 * Pow2(x - 1);
      hide Pow2;
      MulAssoc(2, Pow2(x - 1), Pow2(y));
    }
  }

  lemma PowPos(b: nat, e: nat)
    requires b >= 1
    ensures Pow(b, e) >= 1
  {
    if e > 0 {
      PowPos(b, e - 1);
      MulPos(b, Pow(b, e - 1));
    }
  }

  lemma {:induction false} PowAdd(b: nat, x: nat, y: nat)
    ensures Pow(b, x + y) == Pow(b, x) * Pow(b, y)
  {
    if x > 0 {
      PowAdd(b, x - 1, y);
      assert Pow(b, x + y) == b * Pow(b, x - 1 + y) && Pow(b, x) == b * Pow(b, x - 1);
      hide Pow;
      MulAssoc(b, Pow(b, x - 1), Pow(b, y));
    }
  }

  // ----- values of digit strings

  lemma {:induction false} ValBound(b: nat, s: seq<nat>)
    requires AreDigits(b, s)
    ensures Val(b, s) < Pow(b, |s|)
  {
    if s != [] {
      var p := Pow(b, |s| - 1);
      assert Val(b, s[1..]) < p by { ValBound(b, s[1..]); }
      MulMono(s[0] + 1, b, p);
      assert (s[0] + 1) * p == s[0] * p + p;
    }
  }

  lemma {:induction false} ValConcat(b: nat, s: seq<nat>, t: seq<nat>)
    ensures Val(b, s + t) == Val(b, s) * Pow(b, |t|) + Val(b, t)
  {
    if s == [] {
      assert s + t == t;
    } else {
      var p, q := Pow(b, |s| - 1), Pow(b, |t|);
      assert (s + t)[1..] == s[1..] + t;
      ValConcat(b, s[1..], t);
      PowAdd(b, |s| - 1, |t|);
      assert s[0] * (p * q) + Val(b, s[1..]) * q == (s[0] * p + Val(b, s[1..])) * q;
    }
  }

  lemma ValOne(b: nat, x: nat)
    ensures Val(b, [x]) == x
  {
    assert [x][1..] == [];
    assert Pow(b, 0) == 1;
  }

  lemma ValSnoc(b: nat, s: seq<nat>, x: nat)
    ensures Val(b, s + [x]) == Val(b, s) * b + x
  {
    ValConcat(b, s, [x]);
    ValOne(b, x);
    assert Pow(b, 1) == b * Pow(b, 0);
  }

  lemma ValCons(b: nat, x: nat, s: seq<nat>)
    ensures Val(b, [x] + s) == x * Pow(b, |s|) + Val(b, s)
  {
    assert ([x] + s)[1..] == s;
  }

  /** Digit strings starting with zeros have the value of the rest. */
  lemma {:induction false} ValZeros(b: nat, s: seq<nat>, k: nat)
    requires k <= |s|
    requires forall i :: 0 <= i < k ==> s[i] == 0
    ensures Val(b, s) == Val(b, s[k..])
  {
    if k == 0 {
      assert s[0..] == s;
    } else {
      ValZeros(b, s[1..], k - 1);
      assert s[1..][k - 1..] == s[k..];
    }
  }

  /** The value of n digits leads with at least s[0] and less than s[0] + 1 units. */
  lemma ValLeading(b: nat, s: seq<nat>)
    requires |s| >= 1 && AreDigits(b, s)
    ensures s[0] * Pow(b, |s| - 1) <= Val(b, s) < (s[0] + 1) * Pow(b, |s| - 1)
  {
    ValBound(b, s[1..]);
    var p := Pow(b, |s| - 1);
    assert Val(b, s) == s[0] * p + Val(b, s[1..]);
    hide Val, Pow;
    MulSum(s[0], 1, p);
  }

  // ----- bits

  lemma {:induction false} BitOrZero(x: nat)
    ensures BitOr(x, 0) == x == BitOr(0, x)
  {
  }

  lemma {:induction false} BitOrSym(x: nat, y: nat)
    ensures BitOr(x, y) == BitOr(y, x)
    decreases x + y
  {
    if x > 0 && y > 0 {
      BitOrSym(x / 2, y / 2);
    }
  }

  /** Or-ing numbers whose bits do not meet adds them. */
  lemma {:induction false} BitOrDisjoint(a: nat, k: nat, y: nat)
    requires y < Pow2(k)
    ensures BitOr(a * Pow2(k), y) == a * Pow2(k) + y
    decreases k
  {
    var x := a * Pow2(k);
    if k == 0 {
      BitOrZero(x);
    } else if x > 0 && y > 0 {
      var p := Pow2(k - 1);
      assert x == 2 * (a * p) by { assert a * (2 * p) == 2 * (a * p); }
      assert x / 2 == a * p && x % 2 == 0;
      BitOrDisjoint(a, k - 1, y / 2);
    } else if x == 0 {
      BitOrZero(y);
    } else {
      BitOrZero(x);
    }
  }

  // ----- words

  /** COMBINE: one unsigned int out of two digits. */
  function Combine(h: nat, x: nat, y: nat): nat
  {
    BitOr(Wrap(Pow2(h), x * Pow2(h)), y)
  }

  lemma CombineIs(h: nat, x: nat, y: nat)
    requires x < Pow2(h) && y < Pow2(h)
    ensures Combine(h, x, y) == x * Pow2(h) + y < Pow2(h) * Pow2(h)
  {
    var b := Pow2(h);
    MulStrict(x, b, b);
    ModSmall(x * b, b * b);
    BitOrDisjoint(x, h, y);
  }

  lemma QuotientBounds(u: nat, v: nat, b: nat)
    requires v >= 1 && u < v * b
    ensures u / v * v <= u < (u / v + 1) * v
    ensures u / v < b
  {
    MulSum(u / v, 1, v);
    MulLess(u / v, b, v);
  }

  lemma WrapSmall(b: nat, x: nat)
    requires b >= 1 && x < b * b
    ensures Wrap(b, x) == x
  {
    ModSmall(x, b * b);
  }

  lemma DigitProduct(b: nat, x: nat, y: nat)
    requires x < b && y < b
    ensures x * y < b * b
    ensures x * y + x + y < b * b
  {
    MulBound(x, y, b - 1, b - 1);
    assert (b - 1) * (b - 1) == b * b - 2 * b + 1;
  }

  lemma WrapNegative(m: nat, e: int)
    requires 0 <= e + m < m
    ensures e % m == e + m
  {
  }

  lemma WrapBelow(b: nat, e: int)
    requires b >= 1 && 0 <= e + b * b < b * b
    ensures Wrap(b, e) == e + b * b
  {
    WrapNegative(b * b, e);
  }

  // ----- bits of a word

  /** x >> k */
  function DropBits(x: nat, k: nat): nat
  {
    HHalf(Pow2(k), x)
  }

  /** The last k bits of x. */
  function LowBits(x: nat, k: nat): (r: nat)
    ensures r < Pow2(k)
  {
    LHalf(Pow2(k), x)
  }

  lemma BitsSplit(x: nat, k: nat)
    ensures x == DropBits(x, k) * Pow2(k) + LowBits(x, k)
  {
    HalvesSplit(Pow2(k), x);
  }

  lemma HalvesSplit(b: nat, x: nat)
    requires b >= 1
    ensures x == HHalf(b, x) * b + LHalf(b, x)
  {
  }

  /** Moving a digit left by sh bits: its top bits leave, the others stay above sh zeros. */
  lemma MoveLeft(h: nat, x: nat, sh: nat)
    requires sh < h && x < Pow2(h)
    ensures x * Pow2(sh) == DropBits(x, h - sh) * Pow2(h) + LowBits(x, h - sh) * Pow2(sh)
    ensures DropBits(x, h - sh) < Pow2(sh)
    ensures LowBits(x, h - sh) * Pow2(sh) + Pow2(sh) <= Pow2(h)
    ensures x * Pow2(sh) < Pow2(h) * Pow2(h)
  {
    hide *;
    Pow2Add(h - sh, sh);
    BitsSplit(x, h - sh);
    MoveParts(Pow2(h), Pow2(h - sh), Pow2(sh), x, DropBits(x, h - sh), LowBits(x, h - sh));
  }

  lemma MoveLeftWord(h: nat, x: nat, sh: nat)
    requires sh < h && x < Pow2(h)
    ensures LHalf(Pow2(h), Wrap(Pow2(h), x * Pow2(sh))) == LowBits(x, h - sh) * Pow2(sh)
  {
    hide *;
    MoveLeft(h, x, sh);
    WrapSmall(Pow2(h), x * Pow2(sh));
    LowPart(Pow2(h), x * Pow2(sh), DropBits(x, h - sh), LowBits(x, h - sh) * Pow2(sh));
  }

  lemma MoveParts(b: nat, c: nat, k: nat, x: nat, q: nat, r: nat)
    requires b == c * k && c >= 1 && k >= 1 && x < b && x == q * c + r && r < c
    ensures q < k && r * k + k <= b && x * k == q * b + r * k && x * k < b * b
  {
    MulLess(q, k, c);
    MulStrict(r, c, k);
    MulSum(q * c, r, k);
    MulAssoc(q, c, k);
    MulMono(1, c, k);
    MulMono(k, b, x);
    MulStrict(x, b, b);
  }

  lemma LowPart(b: nat, w: nat, q: nat, r: nat)
    requires b >= 1 && w == q * b + r && r < b
    ensures LHalf(b, w) == r && HHalf(b, w) == q
  {
    DivModUnique(w, b, q, r);
  }
}
