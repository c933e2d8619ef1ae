/** The array passes of the division: multiply-subtract (D4), add-back (D6) and
    the shifts that normalise and denormalise (D1, D8). */
module DigitArrays {
  import opened Digits

  // ----- D4: multiply and subtract

  /** One digit of D4: what the wrapped word holds is the exact difference,
      borrowing t' units of the next digit. */
  lemma BorrowStep(b: nat, x: nat, y: nat, qhat: nat, t: nat)
    requires b >= 2 && x < b && y < b && qhat < b && t < b
    ensures var w := Wrap(b, x - y * qhat - t);
            var t' := (b - HHalf(b, w)) % b;
            LHalf(b, w) - b * t' == x - y * qhat - t
  {
    var m := y * qhat;
    DigitProduct(b, y, qhat);
    MulBound(y, qhat, b - 1, b - 1);
    assert (b - 1) * (b - 1) == b * b - 2 * b + 1;
    BorrowDigit(b, x - m - t);
  }

  lemma BorrowDigit(b: nat, e: int)
    requires b >= 2 && b - b * b <= e < b
    ensures var w := Wrap(b, e);
            var t' := (b - HHalf(b, w)) % b;
            LHalf(b, w) - b * t' == e
  {
    hide *;
    if e >= 0 {
      assert Wrap(b, e) == e by {
        MulMono(1, b, b);
        WrapSmall(b, e);
      }
      NoBorrow(b, e);
    } else {
      assert Wrap(b, e) == e + b * b by { WrapBelow(b, e); }
      BorrowSplit(b, e + b * b);
    }
  }

  lemma NoBorrow(b: nat, e: nat)
    requires b >= 2 && e < b
    ensures LHalf(b, e) - b * ((b - HHalf(b, e)) % b) == e
  {
    assert e / b == 0 && b % b == 0;
  }

  lemma BorrowSplit(b: nat, w: nat)
    requires b >= 2 && b <= w < b * b
    ensures LHalf(b, w) - b * ((b - HHalf(b, w)) % b) == w - b * b
  {
    var hi, lo := w / b, w % b;
    assert w == hi * b + lo;
    assert 1 <= hi < b by { MulLess(hi, b, b); }
    ModSmall(b - hi, b);
    MulDiff(b, hi, b);
  }

  lemma SubtractDigit(b: nat, p: nat, x': nat, x: nat, y: nat, qhat: nat, t: nat, t': nat,
                      lowNew: nat, lowOld: nat, lowV: nat)
    requires x' - b * t' == x - y * qhat - t
    requires lowNew + qhat * lowV == lowOld + t * p
    ensures x' * p + lowNew + qhat * (y * p + lowV) == x * p + lowOld + t' * (b * p)
  {
    assert qhat * (y * p + lowV) == (y * qhat) * p + qhat * lowV by {
      MulSum(y * p, lowV, qhat);
      MulAssoc(qhat, y, p);
    }
    assert t' * (b * p) == (b * t') * p by { MulAssoc(t', b, p); }
    MulSum(x - y * qhat - t, b * t', p);
    MulDiff(x - y * qhat, t, p);
    MulDiff(x, y * qhat, p);
  }

  /** D4 after the digits past i: the low digits of u hold the difference, up
      to t units of digit i. */
  ghost predicate SubtractedTo(b: nat, o: seq<nat>, u: seq<nat>, v: seq<nat>, i: nat, qhat: nat, t: nat)
  {
    && |o| == |u| == |v| + 1 && i <= |v| && t < b
    && AreDigits(b, u)
    && u[..i + 1] == o[..i + 1]
    && Val(b, u[i + 1..]) + qhat * Val(b, v[i..]) == Val(b, o[i + 1..]) + t * Pow(b, |v| - i)
  }

  lemma SubtractStart(b: nat, o: seq<nat>, v: seq<nat>, qhat: nat)
    requires b >= 1 && |o| == |v| + 1 && AreDigits(b, o)
    ensures SubtractedTo(b, o, o, v, |v|, qhat, 0)
  {
    assert o[|v| + 1..] == [] && v[|v|..] == [];
  }

  lemma SubtractStep(b: nat, o: seq<nat>, u: seq<nat>, v: seq<nat>, i: nat, qhat: nat, t: nat)
    requires b >= 2 && SubtractedTo(b, o, u, v, i, qhat, t) && i > 0
    requires AreDigits(b, v) && qhat < b
    ensures var w := Wrap(b, u[i] - v[i - 1] * qhat - t);
            SubtractedTo(b, o, u[i := LHalf(b, w)], v, i - 1, qhat, (b - HHalf(b, w)) % b)
  {
    var w := Wrap(b, u[i] - v[i - 1] * qhat - t);
    var x', t' := LHalf(b, w), (b - HHalf(b, w)) % b;
    var u' := u[i := x'];
    var p := Pow(b, |v| - i);
    assert x' - b * t' == u[i] - v[i - 1] * qhat - t by { BorrowStep(b, u[i], v[i - 1], qhat, t); }
    assert u[i] == o[i] by { assert u[..i + 1][i] == o[..i + 1][i]; }
    assert u'[..i] == o[..i] by { assert u'[..i] == u[..i + 1][..i]; }
    assert u'[i + 1..] == u[i + 1..];
    SliceHead(b, u', i);
    SliceHead(b, o, i);
    SliceHead(b, v, i - 1);
    SubtractDigit(b, p, x', o[i], v[i - 1], qhat, t, t', Val(b, u[i + 1..]), Val(b, o[i + 1..]), Val(b, v[i..]));
  }

  /** The final borrow out of the top digit. */
  lemma SubtractLast(b: nat, o: seq<nat>, u: seq<nat>, v: seq<nat>, qhat: nat, t: nat)
    requires b >= 2 && SubtractedTo(b, o, u, v, 0, qhat, t)
    ensures var w := Wrap(b, u[0] - t);
            var u' := u[0 := LHalf(b, w)];
            AreDigits(b, u') &&
            Val(b, u') == Val(b, o) - qhat * Val(b, v) + (if HHalf(b, w) != 0 then Pow(b, |u|) else 0)
  {
    var w := Wrap(b, u[0] - t);
    var u' := u[0 := LHalf(b, w)];
    assert u[0] == o[0] by { assert u[..1][0] == o[..1][0]; }
    LastBorrow(b, u[0], t);
    assert u'[1..] == u[1..];
    assert v[0..] == v;
    LastDigit(b, Pow(b, |v|), u'[0], o[0], t, if HHalf(b, w) != 0 then 1 else 0);
  }

  /** D4 on the digits us[k..k+n], v being vs[w+1..w+n]: subtracts qhat * v,
      modulo the n+1 digits there are; there is a borrow exactly when the
      difference is negative. */
  method MultiplySubtract(h: nat, us: array<nat>, k: nat, vs: array<nat>, w: nat, n: nat, qhat: nat)
    returns (borrow: bool)
    requires h >= 1 && us != vs && k + n < us.Length && w + n < vs.Length
    requires AreDigits(Pow2(h), us[k..k + n + 1]) && AreDigits(Pow2(h), vs[w + 1..w + n + 1]) && qhat < Pow2(h)
    modifies us
    ensures AreDigits(Pow2(h), us[k..k + n + 1])
    ensures us[..k] == old(us[..k]) && us[k + n + 1..] == old(us[k + n + 1..])
    ensures var u := old(Val(Pow2(h), us[k..k + n + 1]));
            var v := Val(Pow2(h), vs[w + 1..w + n + 1]);
            Val(Pow2(h), us[k..k + n + 1]) == u - qhat * v + (if borrow then Pow(Pow2(h), n + 1) else 0)
  {
    hide *;
    var b := Pow2(h);
    ghost var o, v := us[k..k + n + 1], vs[w + 1..w + n + 1];
    var t: nat, i := 0, n;
    SubtractStart(b, o, v, qhat);
    while i > 0
      invariant 0 <= i <= n
      invariant SubtractedTo(b, o, us[k..k + n + 1], v, i, qhat, t)
      invariant us[..k] == old(us[..k]) && us[k + n + 1..] == old(us[k + n + 1..])
    {
      ghost var u := us[k..k + n + 1];
      SubtractStep(b, o, u, v, i, qhat, t);
      t := Wrap(b, us[k + i] - vs[w + i] * qhat - t);
      us[k + i] := LHalf(b, t);
      assert us[k..k + n + 1] == u[i := LHalf(b, t)];
      t := (b - HHalf(b, t)) % b;
      i := i - 1;
    }
    ghost var u := us[k..k + n + 1];
    SubtractLast(b, o, u, v, qhat, t);
    t := Wrap(b, us[k] - t);
    us[k] := LHalf(b, t);
    assert us[k..k + n + 1] == u[0 := LHalf(b, t)];
    borrow := HHalf(b, t) != 0;
  }

  lemma SliceHead(b: nat, s: seq<nat>, i: nat)
    requires i < |s|
    ensures Val(b, s[i..]) == s[i] * Pow(b, |s| - i - 1) + Val(b, s[i + 1..])
  {
    assert s[i..][1..] == s[i + 1..];
  }

  lemma LastBorrow(b: nat, x: nat, c: nat)
    requires b >= 2 && x < b && c < b
    ensures var t := Wrap(b, x - c);
            LHalf(b, t) == x - c + (if HHalf(b, t) != 0 then b else 0)
    ensures HHalf(b, Wrap(b, x - c)) != 0 <==> x < c
  {
    var bb := b * b;
    assert bb >= b by { MulMono(1, b, b); }
    if x >= c {
      ModSmall(x - c, bb);
      DivModUnique(x - c, b, 0, x - c);
    } else {
      WrapNegative(bb, x - c);
      MulDiff(b, 1, b);
      DivModUnique(x - c + bb, b, b - 1, x - c + b);
    }
  }

  lemma LastDigit(b: nat, p: nat, x': nat, x: nat, c: nat, bit: nat)
    requires x' == x - c + bit * b
    ensures x' * p == x * p - c * p + bit * (b * p)
  {
    MulSum(x - c, bit * b, p);
    MulDiff(x, c, p);
    MulAssoc(bit, b, p);
  }

  // ----- D6: add back

  ghost predicate AddedTo(b: nat, o: seq<nat>, u: seq<nat>, v: seq<nat>, i: nat, t: nat)
  {
    && |o| == |u| == |v| + 1 && i <= |v| && t <= 1
    && AreDigits(b, u)
    && u[..i + 1] == o[..i + 1]
    && Val(b, u[i + 1..]) + t * Pow(b, |v| - i) == Val(b, o[i + 1..]) + Val(b, v[i..])
  }

  lemma AddStart(b: nat, o: seq<nat>, v: seq<nat>)
    requires |o| == |v| + 1 && AreDigits(b, o)
    ensures AddedTo(b, o, o, v, |v|, 0)
  {
    assert o[|v| + 1..] == [] && v[|v|..] == [];
  }

  lemma CarryDigit(b: nat, w: nat)
    requires b >= 2 && w < 2 * b
    ensures HHalf(b, w) <= 1 && w == HHalf(b, w) * b + LHalf(b, w)
  {
    if w < b {
      DivModUnique(w, b, 0, w);
    } else {
      DivModUnique(w, b, 1, w - b);
    }
  }

  lemma AddDigit(b: nat, p: nat, x': nat, x: nat, y: nat, t: nat, t': nat, lowNew: nat, lowOld: nat, lowV: nat)
    requires t + x + y == t' * b + x'
    requires lowNew + t * p == lowOld + lowV
    ensures x' * p + lowNew + t' * (b * p) == x * p + lowOld + y * p + lowV
  {
    MulSum(t + x, y, p);
    MulSum(t, x, p);
    MulSum(t' * b, x', p);
    MulAssoc(t', b, p);
  }

  lemma AddStep(b: nat, o: seq<nat>, u: seq<nat>, v: seq<nat>, i: nat, t: nat)
    requires b >= 2 && AddedTo(b, o, u, v, i, t) && i > 0 && AreDigits(b, v)
    ensures var w := t + u[i] + v[i - 1];
            AddedTo(b, o, u[i := LHalf(b, w)], v, i - 1, HHalf(b, w))
  {
    var w := t + u[i] + v[i - 1];
    var u' := u[i := LHalf(b, w)];
    assert w < 2 * b && u[i] == o[i] by {
      assert u[i] < b && v[i - 1] < b;
      assert u[..i + 1][i] == o[..i + 1][i];
    }
    CarryDigit(b, w);
    assert u'[..i] == o[..i] by { assert u'[..i] == u[..i + 1][..i]; }
    assert u'[i + 1..] == u[i + 1..];
    SliceHead(b, u', i);
    SliceHead(b, o, i);
    SliceHead(b, v, i - 1);
    AddDigit(b, Pow(b, |v| - i), u'[i], o[i], v[i - 1], t, HHalf(b, w),
             Val(b, u[i + 1..]), Val(b, o[i + 1..]), Val(b, v[i..]));
  }

  lemma AddLast(b: nat, o: seq<nat>, u: seq<nat>, v: seq<nat>, t: nat)
    requires b >= 2 && AddedTo(b, o, u, v, 0, t)
    ensures var u' := u[0 := LHalf(b, u[0] + t)];
            AreDigits(b, u') &&
            Val(b, u') == Val(b, o) + Val(b, v) - (if u[0] + t >= b then Pow(b, |u|) else 0)
  {
    var w := u[0] + t;
    var u' := u[0 := LHalf(b, w)];
    assert u[0] == o[0] by { assert u[..1][0] == o[..1][0]; }
    CarryDigit(b, w);
    assert u'[1..] == u[1..];
    assert v[0..] == v;
    AddDigit(b, Pow(b, |v|), u'[0], o[0], 0, t, HHalf(b, w), Val(b, u[1..]), Val(b, o[1..]), Val(b, v));
  }

  /** D6: adds v to the digits us[k..k+n], dropping the carry out of the top. */
  method AddBack(h: nat, us: array<nat>, k: nat, vs: array<nat>, w: nat, n: nat)
    requires h >= 1 && us != vs && k + n < us.Length && w + n < vs.Length
    requires AreDigits(Pow2(h), us[k..k + n + 1]) && AreDigits(Pow2(h), vs[w + 1..w + n + 1])
    modifies us
    ensures AreDigits(Pow2(h), us[k..k + n + 1])
    ensures us[..k] == old(us[..k]) && us[k + n + 1..] == old(us[k + n + 1..])
    ensures var sum := old(Val(Pow2(h), us[k..k + n + 1])) + Val(Pow2(h), vs[w + 1..w + n + 1]);
            Val(Pow2(h), us[k..k + n + 1]) == (if sum >= Pow(Pow2(h), n + 1) then sum - Pow(Pow2(h), n + 1) else sum)
  {
    hide *;
    var b := Pow2(h);
    ghost var o, v := us[k..k + n + 1], vs[w + 1..w + n + 1];
    var t: nat, i := 0, n;
    AddStart(b, o, v);
    while i > 0
      invariant 0 <= i <= n
      invariant AddedTo(b, o, us[k..k + n + 1], v, i, t)
      invariant us[..k] == old(us[..k]) && us[k + n + 1..] == old(us[k + n + 1..])
    {
      ghost var u := us[k..k + n + 1];
      AddStep(b, o, u, v, i, t);
      t := t + us[k + i] + vs[w + i];
      us[k + i] := LHalf(b, t);
      assert us[k..k + n + 1] == u[i := LHalf(b, t)];
      t := HHalf(b, t);
      i := i - 1;
    }
    ghost var u := us[k..k + n + 1];
    AddLast(b, o, u, v, t);
    us[k] := LHalf(b, us[k] + t);
    assert us[k..k + n + 1] == u[0 := LHalf(b, u[0] + t)];
    ValBound(b, us[k..k + n + 1]);
  }

  // ----- shifts

  /** The digits of s moved left by sh bits, losing what leaves the top digit. */
  function Shl(h: nat, s: seq<nat>, sh: nat): (r: seq<nat>)
    requires 0 < sh < h
    ensures |r| == |s|
  {
    if s == [] then []
    else [ShlDigit(h, s[0], if |s| == 1 then 0 else s[1], sh)] + Shl(h, s[1..], sh)
  }

  function ShlDigit(h: nat, x: nat, next: nat, sh: nat): nat
    requires 0 < sh < h
  {
    BitOr(LHalf(Pow2(h), Wrap(Pow2(h), x * Pow2(sh))), DropBits(next, h - sh))
  }

  lemma ShlDigitIs(h: nat, x: nat, next: nat, sh: nat)
    requires 0 < sh < h && x < Pow2(h) && next < Pow2(h)
    ensures ShlDigit(h, x, next, sh) == LowBits(x, h - sh) * Pow2(sh) + DropBits(next, h - sh) < Pow2(h)
  {
    hide Pow2, BitOr, Wrap, LHalf, DropBits, LowBits;
    MoveLeftWord(h, x, sh);
    MoveLeft(h, x, sh);
    MoveLeft(h, next, sh);
    BitOrDisjoint(LowBits(x, h - sh), sh, DropBits(next, h - sh));
  }

  /** Nothing but the top bits is lost: they are the carry out of the top digit. */
  lemma {:induction false} ShlValue(h: nat, s: seq<nat>, sh: nat)
    requires 0 < sh < h && s != [] && AreDigits(Pow2(h), s)
    ensures AreDigits(Pow2(h), Shl(h, s, sh))
    ensures Val(Pow2(h), s) * Pow2(sh)
         == DropBits(s[0], h - sh) * Pow(Pow2(h), |s|) + Val(Pow2(h), Shl(h, s, sh))
  {
    hide Pow2, ShlDigit, DropBits, LowBits, Val;
    var b := Pow2(h);
    var x, rest := s[0], s[1..];
    var next := if |s| == 1 then 0 else s[1];
    var x', rest' := ShlDigit(h, x, next, sh), Shl(h, rest, sh);
    ShlDigitIs(h, x, next, sh);
    MoveLeft(h, x, sh);
    if |s| == 1 {
      ValNone(b);
      DropNone(h - sh);
    } else {
      ShlValue(h, rest, sh);
    }
    assert s == [x] + rest && Shl(h, s, sh) == [x'] + rest';
    ValCons(b, x, rest);
    ValCons(b, x', rest');
    ShlSum(b, Pow(b, |rest|), Pow2(sh), x, DropBits(x, h - sh), x', DropBits(next, h - sh), Val(b, rest), Val(b, rest'));
  }

  lemma ValNone(b: nat)
    ensures Val(b, []) == 0
  {
  }

  lemma DropNone(k: nat)
    ensures DropBits(0, k) == 0 == LowBits(0, k)
  {
  }

  lemma ShlSum(b: nat, p: nat, k: nat, x: nat, top: nat, x': nat, next: nat, low: nat, low': nat)
    requires x * k == top * b + (x' - next)
    requires low * k == next * p + low'
    ensures (x * p + low) * k == top * (b * p) + (x' * p + low')
  {
    MulSum(x * p, low, k);
    assert x * p * k == (x * k) * p;
    MulSum(top * b, x' - next, p);
    MulDiff(x', next, p);
    MulAssoc(top, b, p);
  }

  /** Shifting left multiplies, when the product still fits the digits there are. */
  lemma ShlMultiplies(h: nat, s: seq<nat>, sh: nat)
    requires 0 < sh < h && AreDigits(Pow2(h), s) && s != []
    requires Val(Pow2(h), s) * Pow2(sh) < Pow(Pow2(h), |s|)
    ensures AreDigits(Pow2(h), Shl(h, s, sh))
    ensures Val(Pow2(h), Shl(h, s, sh)) == Val(Pow2(h), s) * Pow2(sh)
  {
    hide *;
    ShlValue(h, s, sh);
    NoCarry(Val(Pow2(h), s) * Pow2(sh), DropBits(s[0], h - sh), Pow(Pow2(h), |s|), Val(Pow2(h), Shl(h, s, sh)));
  }

  lemma NoCarry(x: nat, top: nat, m: nat, low: nat)
    requires x == top * m + low && x < m
    ensures x == low
  {
    if top >= 1 {
      MulMono(1, top, m);
    }
  }

  lemma {:induction false} ShlAt(h: nat, s: seq<nat>, sh: nat, i: nat)
    requires 0 < sh < h && i < |s|
    ensures Shl(h, s, sh)[i] == ShlDigit(h, s[i], if i == |s| - 1 then 0 else s[i + 1], sh)
  {
    if i > 0 {
      ShlAt(h, s[1..], sh, i - 1);
    }
  }

  /** shl: shifts p[a..a+len] in place. */
  method ShiftLeft(h: nat, p: array<nat>, a: nat, len: nat, sh: nat)
    requires 0 < sh < h && a + len < p.Length && AreDigits(Pow2(h), p[a..a + len + 1])
    requires Val(Pow2(h), p[a..a + len + 1]) * Pow2(sh) < Pow(Pow2(h), len + 1)
    modifies p
    ensures p[..a] == old(p[..a]) && p[a + len + 1..] == old(p[a + len + 1..])
    ensures p[a..a + len + 1] == Shl(h, old(p[a..a + len + 1]), sh)
    ensures AreDigits(Pow2(h), p[a..a + len + 1])
    ensures Val(Pow2(h), p[a..a + len + 1]) == old(Val(Pow2(h), p[a..a + len + 1])) * Pow2(sh)
  {
    hide *;
    ghost var o := p[a..a + len + 1];
    var i := 0;
    while i < len
      invariant 0 <= i <= len
      invariant p[..a] == old(p[..a]) && p[a + len + 1..] == old(p[a + len + 1..])
      invariant forall j :: 0 <= j < i ==> p[a + j] == Shl(h, o, sh)[j]
      invariant forall j :: i <= j <= len ==> p[a + j] == o[j]
    {
      ShlAt(h, o, sh, i);
      p[a + i] := ShlDigit(h, p[a + i], p[a + i + 1], sh);
      i := i + 1;
    }
    ShlAt(h, o, sh, len);
    ShlDigitEnd(h, p[a + i], sh);
    p[a + i] := LHalf(Pow2(h), Wrap(Pow2(h), p[a + i] * Pow2(sh)));
    assert p[a..a + len + 1] == Shl(h, o, sh);
    ShlMultiplies(h, o, sh);
  }

  lemma ShlDigitEnd(h: nat, x: nat, sh: nat)
    requires 0 < sh < h
    ensures ShlDigit(h, x, 0, sh) == LHalf(Pow2(h), Wrap(Pow2(h), x * Pow2(sh)))
  {
    hide LHalf, Wrap, Pow2, DropBits;
    DropNone(h - sh);
    BitOrZero(LHalf(Pow2(h), Wrap(Pow2(h), x * Pow2(sh))));
  }

  /** The digits of s moved right by d bits, taking in the low bits of the digit c before them. */
  function Shr(h: nat, c: nat, s: seq<nat>, d: nat): (r: seq<nat>)
    requires 0 < d < h
    ensures |r| == |s|
    decreases |s|
  {
    if s == [] then [] else [ShrDigit(h, c, s[0], d)] + Shr(h, s[0], s[1..], d)
  }

  function ShrDigit(h: nat, c: nat, x: nat, d: nat): nat
    requires 0 < d < h
  {
    BitOr(DropBits(x, d), LHalf(Pow2(h), Wrap(Pow2(h), c * Pow2(h - d))))
  }

  lemma ShrDigitIs(h: nat, c: nat, x: nat, d: nat)
    requires 0 < d < h && c < Pow2(h) && x < Pow2(h)
    ensures ShrDigit(h, c, x, d) == DropBits(x, d) + LowBits(c, d) * Pow2(h - d) < Pow2(h)
  {
    hide LHalf, Wrap, Pow2, DropBits, LowBits, BitOr;
    BitOrSym(DropBits(x, d), LHalf(Pow2(h), Wrap(Pow2(h), c * Pow2(h - d))));
    assert h - (h - d) == d;
    ShlDigitIs(h, c, x, h - d);
  }

  /** Shifting right by d and back loses only the low d bits of the last digit. */
  lemma {:induction false} ShrValue(h: nat, c: nat, s: seq<nat>, d: nat)
    requires 0 < d < h && c < Pow2(h) && AreDigits(Pow2(h), s) && s != []
    ensures AreDigits(Pow2(h), Shr(h, c, s, d))
    ensures Val(Pow2(h), Shr(h, c, s, d)) * Pow2(d) + LowBits(s[|s| - 1], d)
         == LowBits(c, d) * Pow(Pow2(h), |s|) + Val(Pow2(h), s)
    decreases |s|
  {
    hide Pow2, ShrDigit, DropBits, LowBits, Val;
    var b, k := Pow2(h), Pow2(d);
    var x, rest := s[0], s[1..];
    var x', rest' := ShrDigit(h, c, x, d), Shr(h, x, rest, d);
    ShrDigitIs(h, c, x, d);
    assert s == [x] + rest && Shr(h, c, s, d) == [x'] + rest';
    ValCons(b, x, rest);
    ValCons(b, x', rest');
    assert b == Pow2(h - d) * k by { Pow2Add(h - d, d); }
    if rest == [] {
      ValNone(b);
    } else {
      ShrValue(h, x, rest, d);
    }
    BitsSplit(x, d);
    ShrSum(b, Pow(b, |rest|), k, Pow2(h - d), LowBits(c, d), x, DropBits(x, d), LowBits(x, d), x',
           LowBits(s[|s| - 1], d), Val(b, rest), Val(b, rest'));
  }

  lemma ShrSum(b: nat, p: nat, k: nat, kk: nat, c: nat, x: nat, q: nat, r: nat, x': nat, lost: nat, low: nat, low': nat)
    requires b == kk * k && x == q * k + r && x' == q + c * kk
    requires low' * k + lost == r * p + low
    ensures (x' * p + low') * k + lost == c * (b * p) + (x * p + low)
  {
    MulSum(x' * p, low', k);
    assert x' * p * k == (x' * k) * p by {
      MulAssoc(x', p, k);
      MulAssoc(x', k, p);
    }
    MulSum(q, c * kk, k);
    MulAssoc(c, kk, k);
    MulSum(q * k, c * b, p);
    MulSum(q * k, r, p);
    MulAssoc(c, b, p);
  }

  /** When the low bits are zero and the digit before s is zero, shifting right divides exactly. */
  lemma ShrDivides(h: nat, s: seq<nat>, d: nat, r: nat)
    requires 0 < d < h && AreDigits(Pow2(h), s) && s != [] && Val(Pow2(h), s) == r * Pow2(d)
    ensures AreDigits(Pow2(h), Shr(h, 0, s, d))
    ensures Val(Pow2(h), Shr(h, 0, s, d)) == r
  {
    hide *;
    ShrValue(h, 0, s, d);
    DropNone(d);
    ExactQuotient(Val(Pow2(h), Shr(h, 0, s, d)), Pow2(d), LowBits(s[|s| - 1], d), r);
  }

  lemma ExactQuotient(q: nat, k: nat, low: nat, r: nat)
    requires k >= 1 && low < k && q * k + low == r * k
    ensures q == r
  {
    DivModUnique(r * k, k, q, low);
    DivModUnique(r * k, k, r, 0);
  }

  lemma {:induction false} ShrAt(h: nat, c: nat, s: seq<nat>, d: nat, i: nat)
    requires 0 < d < h && i < |s|
    ensures Shr(h, c, s, d)[i] == ShrDigit(h, if i == 0 then c else s[i - 1], s[i], d)
    decreases i
  {
    if i > 0 {
      ShrAt(h, s[0], s[1..], d, i - 1);
    }
  }

  /** The denormalising shift: u[m+1..m+n] (at us[k+1..k+n]) move right by d bits. */
  method ShiftRight(h: nat, us: array<nat>, k: nat, n: nat, d: nat)
    requires 0 < d < h && 1 <= n && k + n < us.Length
    modifies us
    ensures us[..k] == old(us[..k]) && us[k] == 0 && us[k + n + 1..] == old(us[k + n + 1..])
    ensures us[k + 1..k + n + 1] == Shr(h, old(us[k]), old(us[k + 1..k + n + 1]), d)
  {
    hide *;
    ghost var o, c := us[k + 1..k + n + 1], us[k];
    var i := n;
    while i > 0
      invariant 0 <= i <= n
      invariant us[..k] == old(us[..k]) && us[k + n + 1..] == old(us[k + n + 1..]) && us[k] == c
      invariant forall j :: i <= j < n ==> us[k + 1 + j] == Shr(h, c, o, d)[j]
      invariant forall j :: 0 <= j < i ==> us[k + 1 + j] == o[j]
    {
      ShrAt(h, c, o, d, i - 1);
      us[k + i] := ShrDigit(h, us[k + i - 1], us[k + i], d);
      i := i - 1;
    }
    us[k] := 0;
    forall j | 0 <= j < n
      ensures us[k + 1..k + n + 1][j] == Shr(h, c, o, d)[j]
    {
      assert us[k + 1..k + n + 1][j] == us[k + 1 + j];
    }
    assert us[k + 1..k + n + 1] == Shr(h, c, o, d);
  }
}
