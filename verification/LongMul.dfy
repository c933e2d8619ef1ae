/** Long long multiplication out of half-size products, after section 4.3.3 of
    Knuth, volume 2. An `unsigned int` has modulus w = B*B, a long long w*w. */
module LongMul {
  import opened Digits

  /** A long long as two words. */
  function Word(w: nat, hi: nat, lo: nat): nat
  {
    hi * w + lo
  }

  /** The two's complement reading of x < m. */
  function Signed(m: nat, x: nat): int
  {
    if 2 * x < m then x else x - m
  }

  /** The two's complement representation of x. */
  function Unsigned(m: nat, x: int): (r: nat)
    requires m >= 1
    ensures r < m
  {
    x % m
  }

  predicate FitsSigned(m: nat, x: int)
  {
    0 <= 2 * x + m && 2 * x < m
  }

  // ----- carries

  /** A wrapped sum is exact up to one multiple of the modulus. */
  lemma WrapWitness(b: nat, x: int) returns (k: int)
    requires b >= 1
    ensures Wrap(b, x) == x + k * (b * b)
  {
    var w := b * b;
    assert w >= 1 by { MulPos(b, b); }
    k := -(x / w);
    DivModEq(x, w);
    MulNeg(x / w, w);
  }

  lemma DivModEq(x: int, w: nat)
    requires w >= 1
    ensures x == x / w * w + x % w
  {
  }

  lemma MulNeg(x: int, y: int)
    ensures (-x) * y == -(x * y)
  {
  }

  /** prodl += dl; prodh += dh + (prodl < was): exact modulo two words. */
  lemma CarryWord(b: nat, hi: nat, lo: nat, dh: nat, dl: nat) returns (k: int)
    requires b >= 1 && lo < b * b && dl < b * b
    ensures var w := b * b;
            var lo' := Wrap(b, lo + dl);
            var hi' := Wrap(b, hi + (dh + (if lo' < lo then 1 else 0)));
            Word(w, hi', lo') == Word(w, hi, lo) + Word(w, dh, dl) + k * (w * w)
    ensures Wrap(b, lo + dl) < lo <==> Wrap(b, lo + dl) < dl
  {
    hide *;
    var w := b * b;
    CarryLow(b, lo, dl);
    var c := if Wrap(b, lo + dl) < lo then 1 else 0;
    k := WrapWitness(b, hi + (dh + c));
    CarrySum(w, hi, lo, dh, dl, c, k, Wrap(b, hi + (dh + c)), Wrap(b, lo + dl));
  }

  lemma CarryLow(b: nat, lo: nat, dl: nat)
    requires b >= 1 && lo < b * b && dl < b * b
    ensures Wrap(b, lo + dl) == lo + dl - (if Wrap(b, lo + dl) < lo then b * b else 0)
    ensures Wrap(b, lo + dl) < lo <==> Wrap(b, lo + dl) < dl
  {
    var w := b * b;
    if lo + dl < w {
      ModSmall(lo + dl, w);
    } else {
      DivModUnique(lo + dl, w, 1, lo + dl - w);
    }
  }

  lemma CarrySum(w: nat, hi: nat, lo: nat, dh: nat, dl: nat, c: int, k: int, hi': nat, lo': nat)
    requires lo' == lo + dl - c * w && hi' == hi + (dh + c) + k * w
    ensures Word(w, hi', lo') == Word(w, hi, lo) + Word(w, dh, dl) + k * (w * w)
  {
    MulSum(hi + (dh + c), k * w, w);
    MulSum(hi, dh + c, w);
    MulSum(dh, c, w);
    MulAssoc(k, w, w);
  }

  /** prodl -= dl; prodh -= dh + (prodl > was): exact modulo two words. */
  lemma BorrowWord(b: nat, hi: nat, lo: nat, dh: nat, dl: nat) returns (k: int)
    requires b >= 1 && lo < b * b && dl < b * b
    ensures var w := b * b;
            var lo' := Wrap(b, lo - dl);
            var hi' := Wrap(b, hi - (dh + (if lo' > lo then 1 else 0)));
            Word(w, hi', lo') == Word(w, hi, lo) - Word(w, dh, dl) + k * (w * w)
  {
    hide *;
    var w := b * b;
    BorrowLow(b, lo, dl);
    var c := if Wrap(b, lo - dl) > lo then 1 else 0;
    k := WrapWitness(b, hi - (dh + c));
    BorrowSum(w, hi, lo, dh, dl, c, k, Wrap(b, hi - (dh + c)), Wrap(b, lo - dl));
  }

  lemma BorrowLow(b: nat, lo: nat, dl: nat)
    requires b >= 1 && lo < b * b && dl < b * b
    ensures Wrap(b, lo - dl) == lo - dl + (if Wrap(b, lo - dl) > lo then b * b else 0)
  {
    var w := b * b;
    if lo >= dl {
      ModSmall(lo - dl, w);
    } else {
      WrapNegative(w, lo - dl);
    }
  }

  lemma BorrowSum(w: nat, hi: nat, lo: nat, dh: nat, dl: nat, c: int, k: int, hi': nat, lo': nat)
    requires lo' == lo - dl + c * w && hi' == hi - (dh + c) + k * w
    ensures Word(w, hi', lo') == Word(w, hi, lo) - Word(w, dh, dl) + k * (w * w)
  {
    MulSum(hi - (dh + c), k * w, w);
    MulDiff(hi, dh + c, w);
    MulSum(dh, c, w);
    MulAssoc(k, w, w);
  }

  // ----- __lmulq

  /** LHUP: the low half moved to the upper half. */
  function Lhup(b: nat, x: nat): (r: nat)
    requires b >= 1
    ensures r < b * b
  {
    Wrap(b, x * b)
  }

  /** l << N as two words is HHALF(l), LHUP(l). */
  lemma ShiftedWord(b: nat, x: nat)
    requires b >= 1
    ensures Word(b * b, HHalf(b, x), Lhup(b, x)) == x * b
  {
    HalvesSplit(b, x);
    hide HHalf, LHalf;
    ShiftedSum(b, x, HHalf(b, x), LHalf(b, x));
  }

  lemma ShiftedSum(b: nat, x: nat, hi: nat, lo: nat)
    requires b >= 1 && x == hi * b + lo && lo < b
    ensures Wrap(b, x * b) == lo * b && x * b == hi * (b * b) + lo * b
  {
    MulSum(hi * b, lo, b);
    MulAssoc(hi, b, b);
    MulStrict(lo, b, b);
    DivModUnique(x * b, b * b, hi, lo * b);
  }

  function SignedBy(neg: bool, x: int): int
  {
    if neg then -x else x
  }

  /** The factors of the middle product and its sign. */
  method Differences(u1: nat, u0: nat, v1: nat, v0: nat) returns (udiff: nat, vdiff: nat, neg: bool)
    ensures udiff <= u1 + u0 && (udiff <= u1 || udiff <= u0)
    ensures vdiff <= v1 + v0 && (vdiff <= v1 || vdiff <= v0)
    ensures SignedBy(neg, udiff * vdiff) == (u1 - u0) * (v0 - v1)
  {
    if u1 >= u0 {
      udiff, neg := u1 - u0, false;
    } else {
      udiff, neg := u0 - u1, true;
    }
    if v0 >= v1 {
      vdiff := v0 - v1;
    } else {
      vdiff, neg := v1 - v0, !neg;
    }
    MulNeg(u0 - u1, v0 - v1);
    MulNeg(v1 - v0, u0 - u1);
    MulNeg(v1 - v0, u1 - u0);
  }

  /** The identity the algorithm rests on, at half size n. */
  lemma Karatsuba(n: nat, u1: nat, u0: nat, v1: nat, v0: nat)
    ensures (u1 * n + u0) * (v1 * n + v0)
         == u1 * v1 * (n * n) + (u1 * v1 + (u1 - u0) * (v0 - v1) + u0 * v0) * n + u0 * v0
  {
    ProductOfDifferences(u1, u0, v0, v1);
    ProductOfSums(u1, u0, v1, v0, n);
    MulSum(u1 * v0, u0 * v1, n);
  }

  lemma ProductOfDifferences(a: int, b: int, c: int, d: int)
    ensures (a - b) * (c - d) == a * c - a * d - b * c + b * d
  {
    MulSum(a, -b, c - d);
    MulSum(c, -d, a);
    MulSum(c, -d, b);
  }

  lemma ProductOfSums(a: int, b: int, c: int, d: int, n: int)
    ensures (a * n + b) * (c * n + d) == a * c * (n * n) + a * d * n + b * c * n + b * d
  {
    var x, y := a * n, c * n;
    MulSum(x, b, y + d);
    MulSum(y, d, x);
    MulSum(y, d, b);
    assert x * y == a * c * (n * n) by {
      MulAssoc(a, n, y);
      MulAssoc(n, c, n);
      MulAssoc(c, n, n);
      MulAssoc(a, c, n * n);
    }
    assert x * d == a * d * n by {
      MulAssoc(a, n, d);
      MulAssoc(a, d, n);
    }
    MulAssoc(b, c, n);
  }

  /** The multiple of the modulus that separates two residues is zero. */
  lemma SameResidue(m: nat, x: nat, y: nat, k: int)
    requires x < m && y < m && x == y + k * m
    ensures x == y
  {
    if k >= 1 {
      MulMono(1, k, m);
    } else if k <= -1 {
      MulMono(k, -1, m);
    }
  }

  /** short * short = int, exactly. */
  method DigitMul(b: nat, x: nat, y: nat) returns (p: nat)
    requires x < b && y < b
    ensures p == x * y < b * b
  {
    DigitProduct(b, x, y);
    WrapSmall(b, x * y);
    p := Wrap(b, x * y);
  }

  method Halves(b: nat, x: nat) returns (hi: nat, lo: nat)
    requires b >= 1 && x < b * b
    ensures hi < b && lo < b && x == hi * b + lo
  {
    hi, lo := HHalf(b, x), LHalf(b, x);
    HalfDigits(b, x);
    HalvesSplit(b, x);
  }

  /** __lmulq: the exact double-width product. */
  method Lmulq(h: nat, u: nat, v: nat) returns (prod: nat)
    requires h >= 1 && u < Pow2(h) * Pow2(h) && v < Pow2(h) * Pow2(h)
    ensures prod == u * v
  {
    hide *;
    var b := Pow2(h);
    var u1, u0 := Halves(b, u);
    var v1, v0 := Halves(b, v);
    var low := DigitMul(b, u0, v0);
    if u1 == 0 && v1 == 0 {
      return low;
    }
    var udiff, vdiff, neg := Differences(u1, u0, v1, v0);
    var mid := DigitMul(b, udiff, vdiff);
    var high := DigitMul(b, u1, v1);
    ghost var k;
    prod, k := AssembleProduct(b, high, mid, neg, low);
    ExactFromParts(b, u, v, u1, u0, v1, v0, high, SignedBy(neg, mid), low, prod, k);
  }

  lemma ExactFromParts(b: nat, u: nat, v: nat, u1: nat, u0: nat, v1: nat, v0: nat,
                       high: nat, mid: int, low: nat, prod: nat, k: int)
    requires u == u1 * b + u0 && v == v1 * b + v0 && u < b * b && v < b * b
    requires high == u1 * v1 && mid == (u1 - u0) * (v0 - v1) && low == u0 * v0
    requires prod < b * b * (b * b)
    requires prod == high * (b * b) + high * b + mid * b + low * b + low + k * (b * b * (b * b))
    ensures prod == u * v
  {
    ProductParts(b, u, v, u1, u0, v1, v0, high, mid, low);
    ProductBound(b * b, u, v);
    SameResidue(b * b * (b * b), prod, u * v, k);
  }

  lemma ProductParts(b: nat, u: nat, v: nat, u1: nat, u0: nat, v1: nat, v0: nat, high: nat, mid: int, low: nat)
    requires u == u1 * b + u0 && v == v1 * b + v0
    requires high == u1 * v1 && mid == (u1 - u0) * (v0 - v1) && low == u0 * v0
    ensures u * v == high * (b * b) + high * b + mid * b + low * b + low
  {
    Karatsuba(b, u1, u0, v1, v0);
    ExactProduct(b, high, mid, low, u * v);
  }

  lemma HalfDigits(b: nat, x: nat)
    requires b >= 1 && x < b * b
    ensures HHalf(b, x) < b
  {
    HalvesSplit(b, x);
    hide HHalf, LHalf;
    MulLess(HHalf(b, x), b, b);
  }

  lemma ExactProduct(b: nat, high: nat, mid: int, low: nat, uv: int)
    requires uv == high * (b * b) + (high + mid + low) * b + low
    ensures uv == high * (b * b) + high * b + mid * b + low * b + low
  {
    MulSum(high + mid, low, b);
    MulSum(high, mid, b);
  }

  lemma ProductBound(w: nat, u: nat, v: nat)
    requires u < w && v < w
    ensures u * v < w * w
  {
    DigitProduct(w, u, v);
  }

  /** prod = (high << 2N) + (high << N) +- (mid << N) + (low << N) + low, in two words. */
  method AssembleProduct(b: nat, high: nat, mid: nat, neg: bool, low: nat) returns (prod: nat, ghost k: int)
    requires b >= 2 && high < b * b && mid < b * b && low < b * b
    ensures prod < b * b * (b * b)
    ensures prod == high * (b * b) + high * b + SignedBy(neg, mid) * b + low * b + low + k * (b * b * (b * b))
  {
    hide *;
    var w := b * b;
    ShiftedWord(b, high);
    ShiftedWord(b, mid);
    ShiftedWord(b, low);
    var prodh := Wrap(b, high + HHalf(b, high));
    var prodl := Lhup(b, high);
    ghost var k1 := StartWord(b, high);
    ghost var k2;
    var was := prodl;
    if neg {
      k2 := BorrowWord(b, prodh, prodl, HHalf(b, mid), Lhup(b, mid));
      prodl := Wrap(b, prodl - Lhup(b, mid));
      prodh := Wrap(b, prodh - (HHalf(b, mid) + if prodl > was then 1 else 0));
    } else {
      k2 := CarryWord(b, prodh, prodl, HHalf(b, mid), Lhup(b, mid));
      prodl := Wrap(b, prodl + Lhup(b, mid));
      prodh := Wrap(b, prodh + (HHalf(b, mid) + if prodl < was then 1 else 0));
    }
    was := prodl;
    ghost var k3 := CarryWord(b, prodh, prodl, HHalf(b, low), Lhup(b, low));
    prodl := Wrap(b, prodl + Lhup(b, low));
    prodh := Wrap(b, prodh + (HHalf(b, low) + if prodl < was then 1 else 0));
    ghost var k4 := CarryWord(b, prodh, prodl, 0, low);
    WordLow(w, low);
    prodl := Wrap(b, prodl + low);
    if prodl < low {
      prodh := Wrap(b, prodh + 1);
    } else {
      WrapSmall(b, prodh);
    }
    WordBound(w, prodh, prodl);
    prod := Word(w, prodh, prodl);
    k := k1 + k2 + k3 + k4;
    FourMultiples(k1, k2, k3, k4, w * w);
    SignedTimes(neg, mid, b);
  }

  lemma SignedTimes(neg: bool, x: int, y: int)
    ensures SignedBy(neg, x) * y == SignedBy(neg, x * y) == if neg then -(x * y) else x * y
  {
    MulNeg(x, y);
  }

  lemma StartWord(b: nat, high: nat) returns (k: int)
    requires b >= 1
    ensures Word(b * b, Wrap(b, high + HHalf(b, high)), Lhup(b, high)) == high * (b * b) + high * b + k * (b * b * (b * b))
  {
    ShiftedWord(b, high);
    k := WrapWitness(b, high + HHalf(b, high));
    hide HHalf, Lhup, Wrap;
    StartSum(b * b, high, HHalf(b, high), k);
  }

  lemma StartSum(w: nat, high: nat, x: nat, k: int)
    ensures (high + x + k * w) * w == high * w + x * w + k * (w * w)
  {
    MulSum(high + x, k * w, w);
    MulSum(high, x, w);
    MulAssoc(k, w, w);
  }

  lemma WordLow(w: nat, x: nat)
    ensures Word(w, 0, x) == x
  {
  }

  lemma WordBound(w: nat, hi: nat, lo: nat)
    requires hi < w && lo < w
    ensures Word(w, hi, lo) < w * w
  {
    MulStrict(hi, w, w);
  }

  lemma FourMultiples(k1: int, k2: int, k3: int, k4: int, m: nat)
    ensures (k1 + k2 + k3 + k4) * m == k1 * m + k2 * m + k3 * m + k4 * m
  {
    MulSum(k1 + k2 + k3, k4, m);
    MulSum(k1 + k2, k3, m);
    MulSum(k1, k2, m);
  }

  // ----- __muldi3

  /** Numbers a multiple of the modulus apart have the same representation. */
  lemma SameUnsigned(m: nat, x: int, y: int, k: int)
    requires m >= 1 && x == y + k * m
    ensures Unsigned(m, x) == Unsigned(m, y)
  {
    hide Unsigned;
    UnsignedWitness(m, x);
    UnsignedWitness(m, y);
    var c := x / m - y / m;
    MulDiff(x / m, y / m, m);
    MulDiff(k, c, m);
    SameResidue(m, Unsigned(m, x), Unsigned(m, y), k - c);
  }

  lemma UnsignedWitness(m: nat, x: int)
    requires m >= 1
    ensures x == x / m * m + Unsigned(m, x)
  {
  }

  lemma UnsignedSmall(m: nat, x: nat)
    requires x < m
    ensures Unsigned(m, x) == x
  {
    ModSmall(x, m);
  }

  /** Reading back a representation gives the number if and only if it fits. */
  lemma SignedOfUnsigned(m: nat, x: int)
    requires m >= 1
    ensures Signed(m, Unsigned(m, x)) == x <==> FitsSigned(m, x)
  {
    if FitsSigned(m, x) {
      if x >= 0 {
        ModSmall(x, m);
      } else {
        WrapNegative(m, x);
      }
    } else {
      SignedFits(m, Unsigned(m, x));
    }
  }

  lemma SignedFits(m: nat, u: nat)
    requires u < m
    ensures FitsSigned(m, Signed(m, u))
  {
  }

  /** Unary minus on an unsigned number. */
  function Negate(m: nat, x: nat): (r: nat)
    requires x < m
    ensures r < m
  {
    Unsigned(m, m - x)
  }

  lemma NegateIs(m: nat, x: nat)
    requires x < m
    ensures Negate(m, x) == Unsigned(m, SignedBy(true, x))
    ensures x == Unsigned(m, SignedBy(false, x))
  {
    SameUnsigned(m, m - x, SignedBy(true, x), 1);
    UnsignedSmall(m, x);
  }

  /** A long long product is exact up to a multiple of its modulus. */
  lemma WordProduct(w: nat, u: nat, v: nat, u1: nat, u0: nat, v1: nat, v0: nat, mid: int, lowH: nat, lowL: nat,
                    hi: nat, k: int)
    requires u == u1 * w + u0 && v == v1 * w + v0 && mid == (u1 - u0) * (v0 - v1)
    requires u0 * v0 == lowH * w + lowL
    requires hi == u1 * v1 + mid + lowL + lowH + k * w
    ensures Word(w, hi, lowL) == u * v + (k - u1 * v1 - lowH) * (w * w)
  {
    var high := u1 * v1;
    ProductParts(w, u, v, u1, u0, v1, v0, high, mid, u0 * v0);
    WordSum(w, u * v, high, mid, lowH, lowL, hi, k);
  }

  lemma WordSum(w: nat, uv: int, high: nat, mid: int, lowH: nat, lowL: nat, hi: nat, k: int)
    requires hi == high + mid + lowL + lowH + k * w
    requires uv == high * (w * w) + high * w + mid * w + (lowH * w + lowL) * w + (lowH * w + lowL)
    ensures hi * w + lowL == uv + (k - high - lowH) * (w * w)
  {
    MulSum(high + mid + lowL + lowH, k * w, w);
    MulSum(high + mid + lowL, lowH, w);
    MulSum(high + mid, lowL, w);
    MulSum(high, mid, w);
    MulAssoc(k, w, w);
    MulSum(lowH * w, lowL, w);
    MulAssoc(lowH, w, w);
    MulDiff(k - high, lowH, w * w);
    MulDiff(k, high, w * w);
  }

  /** The unsigned product of two long longs, modulo one long long. */
  method UnsignedProduct(h: nat, u: nat, v: nat) returns (prod: nat, ghost k: int)
    requires h >= 1 && u < Modulus(h) && v < Modulus(h)
    ensures prod < Modulus(h)
    ensures prod == u * v + k * Modulus(h)
  {
    hide Pow2, HHalf, LHalf, Wrap, Word, SignedBy;
    var b := Pow2(h);
    var w := b * b;
    var u1, u0 := Halves(w, u);
    var v1, v0 := Halves(w, v);
    var low := Lmulq(h, u0, v0);
    ProductBound(w, u0, v0);
    if u1 == 0 && v1 == 0 {
      return low, 0;
    }
    var lowH, lowL := Halves(w, low);
    var udiff, vdiff, negmid := Differences(u1, u0, v1, v0);
    var mid := Wrap(b, udiff * vdiff);
    var high := Wrap(b, u1 * v1);
    var hi := Wrap(b, high + SignedBy(negmid, mid) + lowL + lowH);
    ghost var k1 := HighWord(b, u1 * v1, udiff * vdiff, negmid, lowL, lowH);
    k := k1 - u1 * v1 - lowH;
    WordProduct(w, u, v, u1, u0, v1, v0, SignedBy(negmid, udiff * vdiff), lowH, lowL, hi, k1);
    WordBound(w, hi, lowL);
    prod := Word(w, hi, lowL);
  }

  /** Wrapping the parts first does not change the wrapped sum, up to the modulus. */
  lemma HighWord(b: nat, high: nat, mid: nat, neg: bool, lowL: nat, lowH: nat) returns (k: int)
    requires b >= 1
    ensures Wrap(b, Wrap(b, high) + SignedBy(neg, Wrap(b, mid)) + lowL + lowH)
         == high + SignedBy(neg, mid) + lowL + lowH + k * (b * b)
  {
    hide Wrap;
    var k1 := WrapWitness(b, high);
    var k2 := WrapWitness(b, mid);
    var k3 := WrapWitness(b, Wrap(b, high) + SignedBy(neg, Wrap(b, mid)) + lowL + lowH);
    k := k1 + SignedBy(neg, k2) + k3;
    SignedTimes(neg, k2, b * b);
    MulSum(k1 + SignedBy(neg, k2), k3, b * b);
    MulSum(k1, SignedBy(neg, k2), b * b);
  }

  /** __muldi3 is the product modulo one long long, for all inputs. */
  method Muldi3(h: nat, a: int, c: int) returns (r: int)
    requires h >= 1 && FitsSigned(Modulus(h), a) && FitsSigned(Modulus(h), c)
    ensures r == Signed(Modulus(h), Unsigned(Modulus(h), a * c))
  {
    var m := Modulus(h);
    var u, v, negall;
    if a >= 0 {
      u, negall := a, false;
    } else {
      u, negall := -a, true;
    }
    if c >= 0 {
      v := c;
    } else {
      v, negall := -c, !negall;
    }
    hide Pow2, Unsigned, Signed, Modulus;
    var prod, k := UnsignedProduct(h, u, v);
    SignOfProduct(a, c, u, v, negall, prod, k, m);
    NegateIs(m, prod);
    r := Signed(m, if negall then Negate(m, prod) else prod);
  }

  lemma SignOfProduct(a: int, c: int, u: nat, v: nat, neg: bool, prod: nat, k: int, m: nat)
    requires m >= 1 && prod == u * v + k * m
    requires u == (if a >= 0 then a else -a) && v == (if c >= 0 then c else -c) && neg == ((a < 0) != (c < 0))
    ensures Unsigned(m, SignedBy(neg, prod)) == Unsigned(m, a * c)
  {
    hide Unsigned;
    MulNeg(a, c);
    MulNeg(c, a);
    MulNeg(c, -a);
    assert a * c == SignedBy(neg, u * v);
    SignedTimes(neg, k, m);
    SameUnsigned(m, SignedBy(neg, prod), a * c, SignedBy(neg, k));
  }
}
