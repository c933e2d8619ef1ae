/** Unsigned long long division, after Algorithm D of Knuth, volume 2, section 4.3.1. */
module QDivRem {
  import opened Digits
  import opened DigitEstimate
  import opened DigitArrays

  // ----- one digit of the quotient: D3 to D6

  /** A digit string led by three digits. */
  lemma LeadThree(b: nat, s: seq<nat>)
    requires |s| >= 3
    ensures Val(b, s) == ((s[0] * b + s[1]) * b + s[2]) * Pow(b, |s| - 3) + Val(b, s[3..])
  {
    hide Val, Pow;
    LeadTwo(b, s);
    SliceHead(b, s, 2);
    PowStep(b, |s| - 3);
    LeadSum(b, Pow(b, |s| - 3), s[0] * b + s[1], s[2]);
  }

  lemma PowStep(b: nat, e: nat)
    ensures Pow(b, e + 1) == b * Pow(b, e)
  {
  }

  lemma LeadSum(b: nat, p: nat, hi: nat, x: nat)
    ensures hi * (b * p) + x * p == (hi * b + x) * p
  {
    MulAssoc(hi, b, p);
    MulSum(hi * b, x, p);
  }

  lemma LeadTwo(b: nat, s: seq<nat>)
    requires |s| >= 2
    ensures Val(b, s) == (s[0] * b + s[1]) * Pow(b, |s| - 2) + Val(b, s[2..])
  {
    hide Val, Pow;
    assert s[0..] == s;
    SliceHead(b, s, 0);
    SliceHead(b, s, 1);
    PowStep(b, |s| - 2);
    LeadSum(b, Pow(b, |s| - 2), s[0], s[1]);
  }

  /** The window is below v*B, so its top digit is at most the divisor's. */
  lemma TopDigit(b: nat, u: seq<nat>, v: seq<nat>)
    requires |u| == |v| + 1 && |v| >= 1 && AreDigits(b, u) && AreDigits(b, v)
    requires Val(b, u) < Val(b, v) * b
    ensures u[0] <= v[0]
  {
    var p := Pow(b, |v| - 1);
    ValLeading(b, u);
    ValLeading(b, v);
    assert Pow(b, |v|) == b * p;
    TopSum(b, p, u[0], v[0], Val(b, u), Val(b, v));
  }

  lemma TopSum(b: nat, p: nat, u0: nat, v0: nat, u: nat, v: nat)
    requires u0 * (b * p) <= u < v * b && v < (v0 + 1) * p
    ensures u0 <= v0
  {
    MulMono(v, (v0 + 1) * p, b);
    assert (v0 + 1) * p * b == (v0 + 1) * (b * p) by { MulAssoc(v0 + 1, p, b); }
    MulLess(u0, v0 + 1, b * p);
  }

  /** The digits of the two windows fit the shape D3 is about. */
  lemma WindowLeads(b: nat, u: seq<nat>, v: seq<nat>, q: nat)
    requires |u| == |v| + 1 && |v| >= 2 && AreDigits(b, u) && AreDigits(b, v) && v[0] >= 1
    requires q * Val(b, v) <= Val(b, u) < (q + 1) * Val(b, v)
    ensures Leading(b, Pow(b, |v| - 2), v[0], v[1], Val(b, v[2..]), u[0] * b + u[1], u[2], Val(b, u[3..]),
                    Val(b, v), Val(b, u), q)
    ensures q * v[0] <= u[0] * b + u[1]
  {
    hide Val, Pow;
    LeadTwo(b, v);
    LeadThree(b, u);
    ValBound(b, v[2..]);
    ValBound(b, u[3..]);
    FirstEstimate(b, Pow(b, |v| - 2), v[0], v[1], Val(b, v[2..]), u[0] * b + u[1], u[2], Val(b, u[3..]), q);
  }

  /** After D4 the borrow tells exactly whether the estimate was one too large,
      and then one add-back leaves the true remainder. */
  lemma BorrowTells(m: nat, u: nat, v: nat, q: nat, r: nat, qhat: nat, borrow: bool, left: nat)
    requires u == q * v + r && r < v && v <= m && q <= qhat <= q + 1
    requires left < m && left == u - qhat * v + (if borrow then m else 0)
    ensures borrow <==> qhat == q + 1
    ensures !borrow ==> left == r
    ensures borrow ==> left + v == r + m && left + v >= m
  {
    MulSum(q, 1, v);
  }

  /** D3 to D6 at us[k..k+n]: the quotient digit and, in place, the remainder.
      qhat is the estimate D3 made and borrowed says whether D4 borrowed. */
  method DivideDigit(h: nat, us: array<nat>, k: nat, vs: array<nat>, w: nat, n: nat)
    returns (digit: nat, ghost qhat0: nat, ghost borrowed: bool)
    requires h >= 1 && n >= 2 && us != vs && k + n < us.Length && w + n < vs.Length
    requires AreDigits(Pow2(h), us[k..k + n + 1]) && AreDigits(Pow2(h), vs[w + 1..w + n + 1])
    requires vs[w + 1] >= Pow2(h) / 2
    requires Val(Pow2(h), us[k..k + n + 1]) < Val(Pow2(h), vs[w + 1..w + n + 1]) * Pow2(h)
    modifies us
    ensures AreDigits(Pow2(h), us[k..k + n + 1])
    ensures us[..k] == old(us[..k]) && us[k + n + 1..] == old(us[k + n + 1..])
    ensures digit < Pow2(h)
    ensures var v := Val(Pow2(h), vs[w + 1..w + n + 1]);
            old(Val(Pow2(h), us[k..k + n + 1])) == digit * v + Val(Pow2(h), us[k..k + n + 1]) &&
            Val(Pow2(h), us[k..k + n + 1]) < v
    ensures digit <= qhat0 <= digit + 1 && (borrowed <==> qhat0 == digit + 1)
  {
    hide *;
    var b := Pow2(h);
    ghost var u, v := us[k..k + n + 1], vs[w + 1..w + n + 1];
    HalfPositive(h, v[0]);
    ghost var q := TrueDigit(b, u, v);
    WindowLeads(b, u, v, q);
    TopDigit(b, u, v);
    DigitsAt(b, u, v);
    var uj0, uj1, uj2 := us[k], us[k + 1], us[k + 2];
    var v1, v2 := vs[w + 1], vs[w + 2];
    var qhat, rhat, tooBig := FirstGuess(h, v1, uj0, uj1, q);
    ghost var corrections;
    qhat, corrections := CorrectGuess(h, v1, v2, uj2, qhat, rhat, tooBig,
      Pow(b, n - 2), Val(b, v[2..]), uj0 * b + uj1, Val(b, u[3..]), Val(b, v), Val(b, u), q);
    qhat0 := qhat;
    var borrow := MultiplySubtract(h, us, k, vs, w, n, qhat);
    borrowed := borrow;
    ghost var left := Val(b, us[k..k + n + 1]);
    ValBound(b, us[k..k + n + 1]);
    DivisorBound(b, v);
    BorrowTells(Pow(b, n + 1), Val(b, u), Val(b, v), q, Val(b, u) - q * Val(b, v), qhat, borrow, left);
    if borrow {
      qhat := qhat - 1;
      AddBack(h, us, k, vs, w, n);
    }
    digit := qhat;
  }

  lemma HalfPositive(h: nat, x: nat)
    requires h >= 1 && x >= Pow2(h) / 2
    ensures x >= 1
  {
  }

  lemma TrueDigit(b: nat, u: seq<nat>, v: seq<nat>) returns (q: nat)
    requires |v| >= 1 && AreDigits(b, v) && v[0] >= 1 && Val(b, u) < Val(b, v) * b
    ensures q < b && q * Val(b, v) <= Val(b, u) < (q + 1) * Val(b, v)
    ensures Val(b, u) - q * Val(b, v) < Val(b, v)
  {
    hide *;
    DivisorPositive(b, v);
    q := Val(b, u) / Val(b, v);
    QuotientBounds(Val(b, u), Val(b, v), b);
    MulSum(q, 1, Val(b, v));
  }

  lemma DivisorPositive(b: nat, v: seq<nat>)
    requires |v| >= 1 && AreDigits(b, v) && v[0] >= 1
    ensures Val(b, v) >= Pow(b, |v| - 1) >= 1
  {
    PowPos(b, |v| - 1);
    ValLeading(b, v);
    MulMono(1, v[0], Pow(b, |v| - 1));
  }

  lemma DivisorBound(b: nat, v: seq<nat>)
    requires AreDigits(b, v) && b >= 1
    ensures Val(b, v) < Pow(b, |v|) <= Pow(b, |v| + 1)
  {
    ValBound(b, v);
    MulMono(1, b, Pow(b, |v|));
  }

  lemma DigitsAt(b: nat, u: seq<nat>, v: seq<nat>)
    requires AreDigits(b, u) && AreDigits(b, v) && |u| >= 3 && |v| >= 2
    ensures u[0] < b && u[1] < b && u[2] < b && v[0] < b && v[1] < b
  {
  }

  // ----- the loop on j: D2 to D7

  /** j digits of the quotient are known: the first j digits of the dividend
      are used up and what they leave is below the divisor. */
  ghost predicate DividedTo(b: nat, o: seq<nat>, u: seq<nat>, q: seq<nat>, v: seq<nat>, j: nat)
  {
    && |o| == |u| && |q| == j && j + |v| <= |o|
    && AreDigits(b, o) && AreDigits(b, u) && AreDigits(b, q)
    && (forall i :: 0 <= i < j ==> u[i] == 0)
    && u[j + |v|..] == o[j + |v|..]
    && Val(b, o[..j + |v|]) == Val(b, q) * Val(b, v) + Val(b, u[j..j + |v|])
    && Val(b, u[j..j + |v|]) < Val(b, v)
  }

  lemma LoopStart(b: nat, o: seq<nat>, v: seq<nat>)
    requires AreDigits(b, o) && |v| <= |o| && Val(b, o[..|v|]) < Val(b, v)
    ensures DividedTo(b, o, o, [], v, 0)
  {
    assert o[0..|v|] == o[..|v|];
  }

  /** The next window brings down one digit. */
  lemma BringDown(b: nat, o: seq<nat>, u: seq<nat>, q: seq<nat>, v: seq<nat>, j: nat)
    requires DividedTo(b, o, u, q, v, j) && j + |v| < |o|
    ensures AreDigits(b, u[j..j + |v| + 1])
    ensures Val(b, u[j..j + |v| + 1]) == Val(b, u[j..j + |v|]) * b + o[j + |v|]
    ensures Val(b, u[j..j + |v| + 1]) < Val(b, v) * b
  {
    var n := |v|;
    assert u[j..j + n + 1] == u[j..j + n] + [u[j + n]];
    assert u[j + n] == o[j + n] by { assert u[j + n..][0] == o[j + n..][0]; }
    ValSnoc(b, u[j..j + n], u[j + n]);
    MulMono(Val(b, u[j..j + n]) + 1, Val(b, v), b);
    MulSum(Val(b, u[j..j + n]), 1, b);
  }

  /** A remainder below the divisor leaves the top digit of its window zero. */
  lemma TopIsZero(b: nat, s: seq<nat>, v: seq<nat>)
    requires |s| == |v| + 1 && AreDigits(b, s) && AreDigits(b, v) && Val(b, s) < Val(b, v)
    ensures s[0] == 0 && Val(b, s) == Val(b, s[1..])
  {
    ValBound(b, v);
    if s[0] >= 1 {
      MulMono(1, s[0], Pow(b, |v|));
    }
  }

  lemma LoopStep(b: nat, o: seq<nat>, u: seq<nat>, q: seq<nat>, v: seq<nat>, j: nat, u': seq<nat>, digit: nat)
    requires DividedTo(b, o, u, q, v, j) && j + |v| < |o| && |u'| == |u| && AreDigits(b, v) && digit < b
    requires u'[..j] == u[..j] && u'[j + |v| + 1..] == u[j + |v| + 1..]
    requires AreDigits(b, u'[j..j + |v| + 1])
    requires Val(b, u[j..j + |v| + 1]) == digit * Val(b, v) + Val(b, u'[j..j + |v| + 1])
    requires Val(b, u'[j..j + |v| + 1]) < Val(b, v)
    ensures DividedTo(b, o, u', q + [digit], v, j + 1)
  {
    var n := |v|;
    var win := u'[j..j + n + 1];
    TopIsZero(b, win, v);
    assert win[1..] == u'[j + 1..j + 1 + n];
    BringDown(b, o, u, q, v, j);
    StepDigits(b, u, u', j, n);
    assert u'[j + 1 + n..] == o[j + 1 + n..] by { assert u[j + n..][1..] == o[j + n..][1..]; }
    assert o[..j + 1 + n] == o[..j + n] + [o[j + n]];
    ValSnoc(b, o[..j + n], o[j + n]);
    ValSnoc(b, q, digit);
    StepSum(b, Val(b, q), Val(b, v), Val(b, u[j..j + n]), Val(b, o[..j + n]), o[j + n], digit, Val(b, win));
    assert forall i :: 0 <= i < j + 1 ==> u'[i] == 0 by {
      forall i | 0 <= i < j + 1
        ensures u'[i] == 0
      {
        if i < j {
          assert u'[..j][i] == u[..j][i];
        } else {
          assert u'[j] == win[0];
        }
      }
    }
  }

  lemma StepDigits(b: nat, u: seq<nat>, u': seq<nat>, j: nat, n: nat)
    requires |u| == |u'| && j + n < |u| && AreDigits(b, u)
    requires u'[..j] == u[..j] && u'[j + n + 1..] == u[j + n + 1..] && AreDigits(b, u'[j..j + n + 1])
    ensures AreDigits(b, u')
  {
    forall i | 0 <= i < |u'|
      ensures u'[i] < b
    {
      if i < j {
        assert u'[..j][i] == u[..j][i];
      } else if i < j + n + 1 {
        assert u'[i] == u'[j..j + n + 1][i - j];
      } else {
        assert u'[j + n + 1..][i - j - n - 1] == u[j + n + 1..][i - j - n - 1];
      }
    }
  }

  lemma StepSum(b: nat, q: nat, v: nat, r: nat, o: nat, x: nat, digit: nat, r': nat)
    requires o == q * v + r && r * b + x == digit * v + r'
    ensures o * b + x == (q * b + digit) * v + r'
  {
    MulSum(q * v, r, b);
    assert q * v * b == q * b * v;
    MulSum(q * b, digit, v);
  }

  /** One pass of the loop, D3 to D7, in the dividend us[a..a+len-1]. */
  method DividePass(h: nat, us: array<nat>, a: nat, ghost len: nat, vs: array<nat>, w: nat, n: nat, j: nat,
                    ghost o: seq<nat>, ghost q: seq<nat>)
    returns (digit: nat)
    requires h >= 1 && n >= 2 && us != vs && a + len <= us.Length && w + n < vs.Length && j + n < len == |o|
    requires AreDigits(Pow2(h), vs[w + 1..w + n + 1]) && vs[w + 1] >= Pow2(h) / 2
    requires DividedTo(Pow2(h), o, us[a..a + len], q, vs[w + 1..w + n + 1], j)
    modifies us
    ensures us[..a] == old(us[..a]) && us[a + len..] == old(us[a + len..])
    ensures DividedTo(Pow2(h), o, us[a..a + len], q + [digit], vs[w + 1..w + n + 1], j + 1)
  {
    hide *;
    var b := Pow2(h);
    ghost var s, v := us[..], vs[w + 1..w + n + 1];
    ghost var u := s[a..a + len];
    assert u == us[a..a + len];
    BringDown(b, o, u, q, v, j);
    SliceOfSlice(s, a, len, j, j + n + 1);
    assert us[a + j..a + j + n + 1] == s[a + j..a + j + n + 1];
    ghost var qhat, borrowed;
    digit, qhat, borrowed := DivideDigit(h, us, a + j, vs, w, n);
    ghost var s' := us[..];
    FrameStep(s, s', a, len, j, n);
    ghost var u' := s'[a..a + len];
    SliceOfSlice(s', a, len, j, j + n + 1);
    assert us[a + j..a + j + n + 1] == s'[a + j..a + j + n + 1];
    LoopStep(b, o, u, q, v, j, u', digit);
    assert u' == us[a..a + len];
  }

  /** D2 to D7 on the dividend us[a..a+m+n] and the divisor vs[w+1..w+n]; the
      quotient goes to qs[c..c+m] and the remainder stays in the dividend. */
  method DivideLoop(h: nat, us: array<nat>, a: nat, vs: array<nat>, w: nat, qs: array<nat>, c: nat, m: nat, n: nat)
    requires h >= 1 && n >= 2 && us != vs && us != qs && vs != qs
    requires a + m + n < us.Length && w + n < vs.Length && c + m < qs.Length
    requires AreDigits(Pow2(h), us[a..a + m + n + 1]) && AreDigits(Pow2(h), vs[w + 1..w + n + 1])
    requires vs[w + 1] >= Pow2(h) / 2
    requires Val(Pow2(h), us[a..a + n]) < Val(Pow2(h), vs[w + 1..w + n + 1])
    modifies us, qs
    ensures us[..a] == old(us[..a]) && us[a + m + n + 1..] == old(us[a + m + n + 1..])
    ensures qs[..c] == old(qs[..c]) && qs[c + m + 1..] == old(qs[c + m + 1..])
    ensures DividedTo(Pow2(h), old(us[a..a + m + n + 1]), us[a..a + m + n + 1], qs[c..c + m + 1],
                      vs[w + 1..w + n + 1], m + 1)
  {
    hide *;
    ghost var o, v := us[a..a + m + n + 1], vs[w + 1..w + n + 1];
    assert o[..n] == us[a..a + n];
    LoopStart(Pow2(h), o, v);
    var j := 0;
    assert qs[c..c + j] == [];
    while j <= m
      invariant 0 <= j <= m + 1
      invariant us[..a] == old(us[..a]) && us[a + m + n + 1..] == old(us[a + m + n + 1..])
      invariant qs[..c] == old(qs[..c]) && qs[c + m + 1..] == old(qs[c + m + 1..])
      invariant DividedTo(Pow2(h), o, us[a..a + m + n + 1], qs[c..c + j], vs[w + 1..w + n + 1], j)
    {
      ghost var q := qs[c..c + j];
      var digit := DividePass(h, us, a, m + n + 1, vs, w, n, j, o, q);
      qs[c + j] := digit;
      assert qs[c..c + j + 1] == q + [digit];
      j := j + 1;
    }
  }

  lemma SliceOfSlice(s: seq<nat>, a: nat, len: nat, i: nat, j: nat)
    requires i <= j <= len && a + len <= |s|
    ensures s[a..a + len][i..j] == s[a + i..a + j]
  {
    var t := s[a..a + len];
    forall k | 0 <= k < j - i
      ensures t[i..j][k] == s[a + i..a + j][k]
    {
      assert t[i + k] == s[a + i + k];
    }
  }

  lemma FrameStep(s: seq<nat>, s': seq<nat>, a: nat, len: nat, j: nat, n: nat)
    requires |s| == |s'| && a + len <= |s| && j + n < len
    requires s'[..a + j] == s[..a + j] && s'[a + j + n + 1..] == s[a + j + n + 1..]
    ensures s'[..a] == s[..a] && s'[a + len..] == s[a + len..]
    ensures s'[a..a + len][..j] == s[a..a + len][..j]
    ensures s'[a..a + len][j + n + 1..] == s[a..a + len][j + n + 1..]
  {
    assert s'[..a] == s'[..a + j][..a] && s[..a] == s[..a + j][..a];
    assert s'[a + len..] == s'[a + j + n + 1..][len - j - n - 1..] && s[a + len..] == s[a + j + n + 1..][len - j - n - 1..];
    assert s[a..a + len][..j] == s[..a + j][a..] && s'[a..a + len][..j] == s'[..a + j][a..];
    assert s[a..a + len][j + n + 1..] == s[a + j + n + 1..][..len - j - n - 1];
    assert s'[a..a + len][j + n + 1..] == s'[a + j + n + 1..][..len - j - n - 1];
  }

  // ----- words and digits

  lemma ValFour(b: nat, x1: nat, x2: nat, x3: nat, x4: nat)
    ensures Val(b, [x1, x2, x3, x4]) == (x1 * b + x2) * (b * b) + (x3 * b + x4)
  {
    hide *;
    ValOne(b, x1);
    ValSnoc(b, [x1], x2);
    assert [x1] + [x2] == [x1, x2];
    ValSnoc(b, [x1, x2], x3);
    assert [x1, x2] + [x3] == [x1, x2, x3];
    ValSnoc(b, [x1, x2, x3], x4);
    assert [x1, x2, x3] + [x4] == [x1, x2, x3, x4];
    FourSum(b, x1 * b + x2, x3, x4);
  }

  lemma FourSum(b: nat, hi: nat, x3: nat, x4: nat)
    ensures (hi * b + x3) * b + x4 == hi * (b * b) + (x3 * b + x4)
  {
    MulSum(hi * b, x3, b);
    MulAssoc(hi, b, b);
  }

  /** Breaking a long long into its four digits. */
  method SplitDigits(h: nat, x: nat, p: array<nat>)
    requires x < Modulus(h) && p.Length == 5
    modifies p
    ensures p[0] == old(p[0]) && AreDigits(Pow2(h), p[1..5]) && Val(Pow2(h), p[1..5]) == x
  {
    var b := Pow2(h);
    var hi, lo := HHalf(b * b, x), LHalf(b * b, x);
    p[1], p[2], p[3], p[4] := HHalf(b, hi), LHalf(b, hi), HHalf(b, lo), LHalf(b, lo);
    assert p[1..5] == [HHalf(b, hi), LHalf(b, hi), HHalf(b, lo), LHalf(b, lo)];
    SplitValue(b, x);
  }

  lemma SplitValue(b: nat, x: nat)
    requires b >= 1 && b * b >= 1 && x < b * b * (b * b)
    ensures var hi, lo := HHalf(b * b, x), LHalf(b * b, x);
            var s := [HHalf(b, hi), LHalf(b, hi), HHalf(b, lo), LHalf(b, lo)];
            AreDigits(b, s) && Val(b, s) == x
  {
    hide *;
    var hi, lo := HHalf(b * b, x), LHalf(b * b, x);
    ValFour(b, HHalf(b, hi), LHalf(b, hi), HHalf(b, lo), LHalf(b, lo));
    HalvesSplit(b * b, x);
    HalvesSplit(b, hi);
    HalvesSplit(b, lo);
    assert hi < b * b by { MulLess(hi, b * b, b * b); }
    assert HHalf(b, hi) < b by { MulLess(HHalf(b, hi), b, b); }
    assert HHalf(b, lo) < b by { MulLess(HHalf(b, lo), b, b); }
    FourAreDigits(b, HHalf(b, hi), LHalf(b, hi), HHalf(b, lo), LHalf(b, lo));
  }

  lemma FourAreDigits(b: nat, x1: nat, x2: nat, x3: nat, x4: nat)
    ensures AreDigits(b, [x1, x2, x3, x4]) <==> x1 < b && x2 < b && x3 < b && x4 < b
  {
    var s := [x1, x2, x3, x4];
    if AreDigits(b, s) {
      assert s[0] < b && s[1] < b && s[2] < b && s[3] < b;
    }
  }

  /** Assembling a long long from four digits. */
  function JoinDigits(h: nat, s: seq<nat>): nat
    requires |s| == 4
  {
    Combine(h, s[0], s[1]) * (Pow2(h) * Pow2(h)) + Combine(h, s[2], s[3])
  }

  lemma JoinValue(h: nat, s: seq<nat>)
    requires |s| == 4 && AreDigits(Pow2(h), s)
    ensures JoinDigits(h, s) == Val(Pow2(h), s)
  {
    hide Pow2, Combine, Val;
    assert s == [s[0], s[1], s[2], s[3]];
    ValFour(Pow2(h), s[0], s[1], s[2], s[3]);
    CombineIs(h, s[0], s[1]);
    CombineIs(h, s[2], s[3]);
  }

  // ----- the one-digit divisor

  /** One step of short division, r*B + x by t. */
  method ShortStep(h: nat, r: nat, x: nat, t: nat, ghost sofar: nat, ghost q: nat) returns (digit: nat, r': nat)
    requires 1 <= t < Pow2(h) && r < t && x < Pow2(h) && sofar == q * t + r
    ensures digit < Pow2(h) && r' < t && sofar * Pow2(h) + x == (q * Pow2(h) + digit) * t + r'
  {
    hide *;
    var rbj := Combine(h, r, x);
    ShortDigit(h, r, x, t);
    digit, r' := rbj / t, rbj % t;
    StepSum(Pow2(h), q, t, r, sofar, x, digit, r');
  }

  lemma ShortDigit(h: nat, r: nat, x: nat, t: nat)
    requires 1 <= t < Pow2(h) && r < t && x < Pow2(h)
    ensures var rbj := Combine(h, r, x);
            rbj / t < Pow2(h) && r * Pow2(h) + x == rbj / t * t + rbj % t
  {
    hide *;
    CombineIs(h, r, x);
    ShortQuotient(Pow2(h), r, x, t, Combine(h, r, x));
  }

  lemma ShortQuotient(b: nat, r: nat, x: nat, t: nat, rbj: nat)
    requires 1 <= t < b && r < t && x < b && rbj == r * b + x
    ensures rbj / t < b && rbj == rbj / t * t + rbj % t
  {
    MulMono(r + 1, t, b);
    MulSum(r, 1, b);
    MulLess(rbj / t, b, t);
  }

  /** Exercise 16: the divisor is the single digit t. */
  method ShortDivide(h: nat, u: seq<nat>, t: nat) returns (q: nat, r: nat)
    requires |u| == 4 && AreDigits(Pow2(h), u) && 1 <= t < Pow2(h)
    ensures Val(Pow2(h), u) == q * t + r && r < t
  {
    hide *;
    var b := Pow2(h);
    FourAreDigits(b, u[0], u[1], u[2], u[3]);
    assert u == [u[0], u[1], u[2], u[3]];
    FirstShort(b, u[0], t);
    var q1, r1 := u[0] / t, u[0] % t;
    var q2, r2 := ShortStep(h, r1, u[1], t, u[0], q1);
    ghost var s2, w2 := u[0] * b + u[1], q1 * b + q2;
    var q3, r3 := ShortStep(h, r2, u[2], t, s2, w2);
    ghost var s3, w3 := s2 * b + u[2], w2 * b + q3;
    var q4, r4 := ShortStep(h, r3, u[3], t, s3, w3);
    q, r := JoinDigits(h, [q1, q2, q3, q4]), r4;
    FourAreDigits(b, q1, q2, q3, q4);
    JoinValue(h, [q1, q2, q3, q4]);
    ValFour(b, q1, q2, q3, q4);
    ValFour(b, u[0], u[1], u[2], u[3]);
    FourSum(b, w2, q3, q4);
    FourSum(b, s2, u[2], u[3]);
  }

  lemma FirstShort(b: nat, x: nat, t: nat)
    requires x < b && t >= 1
    ensures x == x / t * t + x % t && x / t < b
  {
    MulMono(1, t, x / t);
  }

  // ----- D1: normalising

  /** D1: the least shift that takes the leading digit to at least half the base. */
  method NormalShift(h: nat, v1: nat) returns (d: nat)
    requires h >= 1 && 1 <= v1 < Pow2(h)
    ensures d < h && Pow2(h) / 2 <= v1 * Pow2(d) < Pow2(h)
  {
    var b := Pow2(h);
    d := 0;
    var t := v1;
    while t < b / 2
      invariant t == v1 * Pow2(d) < b && d < h
      decreases b - t
    {
      TwiceShift(h, v1, d);
      t := Wrap(b, t * 2);
      d := d + 1;
    }
  }

  lemma TwiceShift(h: nat, v1: nat, d: nat)
    requires h >= 1 && v1 >= 1 && v1 * Pow2(d) < Pow2(h) / 2 && d < h
    ensures d + 1 < h && v1 * Pow2(d + 1) == v1 * Pow2(d) * 2 < Pow2(h)
    ensures Wrap(Pow2(h), v1 * Pow2(d) * 2) == v1 * Pow2(d) * 2 > v1 * Pow2(d)
  {
    var t := v1 * Pow2(d);
    assert v1 * (2 * Pow2(d)) == t * 2 by { MulAssoc(v1, Pow2(d), 2); }
    MulMono(1, v1, Pow2(d));
    Pow2Order(h, d + 1);
    assert t * 2 < Pow2(h) * Pow2(h) by { MulMono(1, Pow2(h), Pow2(h)); }
    WrapSmall(Pow2(h), t * 2);
  }

  lemma {:induction false} Pow2Order(h: nat, d: nat)
    requires Pow2(d) < Pow2(h)
    ensures d < h
  {
    if h == 0 {
    } else if d > 0 {
      Pow2Order(h - 1, d - 1);
    }
  }

  /** Shifting the divisor loses no bit and leads with at least half the base. */
  lemma DivisorFits(h: nat, v: seq<nat>, d: nat)
    requires h >= 1 && |v| >= 1 && AreDigits(Pow2(h), v) && d < h && v[0] * Pow2(d) < Pow2(h)
    ensures Val(Pow2(h), v) * Pow2(d) < Pow(Pow2(h), |v|)
  {
    hide Val, Pow, Pow2, AreDigits;
    var b, p := Pow2(h), Pow(Pow2(h), |v| - 1);
    PowStep(b, |v| - 1);
    ValLeading(b, v);
    Pow2Add(h - d, d);
    FitsSum(b, p, Pow2(h - d), Pow2(d), v[0], Val(b, v));
  }

  lemma FitsSum(b: nat, p: nat, c: nat, k: nat, v0: nat, v: nat)
    requires b == c * k && k >= 1 && v0 * k < b && v < (v0 + 1) * p
    ensures v * k < b * p
  {
    MulLess(v0, c, k);
    MulMono(v0 + 1, c, k);
    MulStrict(v, (v0 + 1) * p, k);
    assert (v0 + 1) * p * k == ((v0 + 1) * k) * p;
    MulMono((v0 + 1) * k, b, p);
  }

  lemma DivisorLeads(h: nat, v: seq<nat>, d: nat, v': seq<nat>)
    requires h >= 1 && |v| == |v'| >= 1 && AreDigits(Pow2(h), v) && AreDigits(Pow2(h), v')
    requires Val(Pow2(h), v') == Val(Pow2(h), v) * Pow2(d)
    ensures v'[0] >= v[0] * Pow2(d)
  {
    hide Val, Pow, Pow2, AreDigits;
    var b, p, k := Pow2(h), Pow(Pow2(h), |v| - 1), Pow2(d);
    ValLeading(b, v);
    ValLeading(b, v');
    LeadsSum(p, k, v[0], v'[0], Val(b, v), Val(b, v'));
  }

  lemma LeadsSum(p: nat, k: nat, v0: nat, v0': nat, v: nat, v': nat)
    requires v0 * p <= v && v' == v * k && v' < (v0' + 1) * p
    ensures v0' >= v0 * k
  {
    MulMono(v0 * p, v, k);
    assert v0 * p * k == (v0 * k) * p;
    MulLess(v0 * k, v0' + 1, p);
  }

  /** The dividend has room for the shift, and its first n digits are then below the divisor. */
  lemma DividendFits(h: nat, u: seq<nat>, d: nat)
    requires |u| >= 1 && AreDigits(Pow2(h), u) && u[0] == 0 && d < h
    ensures Val(Pow2(h), u) < Pow(Pow2(h), |u| - 1)
    ensures Val(Pow2(h), u) * Pow2(d) < Pow(Pow2(h), |u|)
  {
    hide Val, Pow, Pow2, AreDigits;
    var b, p := Pow2(h), Pow(Pow2(h), |u| - 1);
    PowStep(b, |u| - 1);
    ValLeading(b, u);
    assert (u[0] + 1) * p == p;
    Pow2Add(h - d, d);
    ShiftFits(b, p, Pow2(h - d), Pow2(d), Val(b, u));
  }

  lemma ShiftFits(b: nat, p: nat, c: nat, k: nat, u: nat)
    requires b == c * k && c >= 1 && k >= 1 && u < p
    ensures u * k < b * p
  {
    MulMono(1, c, k);
    MulStrict(u, p, k);
    MulMono(k, b, p);
  }

  lemma DividendStarts(h: nat, u: nat, u': seq<nat>, v: nat, d: nat, n: nat)
    requires 1 <= n <= |u'| && AreDigits(Pow2(h), u') && Val(Pow2(h), u') == u * Pow2(d)
    requires u < Pow(Pow2(h), |u'| - 1) && v >= Pow(Pow2(h), n - 1)
    ensures Val(Pow2(h), u'[..n]) < v * Pow2(d)
  {
    var b := Pow2(h);
    assert u' == u'[..n] + u'[n..];
    ValConcat(b, u'[..n], u'[n..]);
    PowAdd(b, n - 1, |u'| - n);
    StartsSum(Pow(b, |u'| - n), Pow(b, n - 1), Pow2(d), Val(b, u'[..n]), Val(b, u'[n..]), u, v);
  }

  lemma StartsSum(p: nat, r: nat, k: nat, hi: nat, lo: nat, u: nat, v: nat)
    requires hi * p + lo == u * k && u < r * p && v >= r && k >= 1
    ensures hi < v * k
  {
    MulStrict(u, r * p, k);
    assert r * p * k == (r * k) * p;
    MulLess(hi, r * k, p);
    MulMono(r, v, k);
  }

  // ----- the whole division

  datatype Division = DivideByZero | Divided(quotient: nat, remainder: nat)

  /** D1: shifts dividend us[a..a+m+n] and divisor vs[w+1..w+n] alike. */
  method Normalise(h: nat, us: array<nat>, a: nat, vs: array<nat>, w: nat, m: nat, n: nat) returns (d: nat)
    requires h >= 1 && n >= 1 && us != vs && a + m + n < us.Length && w + n < vs.Length
    requires AreDigits(Pow2(h), us[a..a + m + n + 1]) && AreDigits(Pow2(h), vs[w + 1..w + n + 1])
    requires us[a] == 0 && vs[w + 1] >= 1
    modifies us, vs
    ensures d < h && us[..a] == old(us[..a])
    ensures AreDigits(Pow2(h), us[a..a + m + n + 1]) && AreDigits(Pow2(h), vs[w + 1..w + n + 1])
    ensures Val(Pow2(h), us[a..a + m + n + 1]) == old(Val(Pow2(h), us[a..a + m + n + 1])) * Pow2(d)
    ensures Val(Pow2(h), vs[w + 1..w + n + 1]) == old(Val(Pow2(h), vs[w + 1..w + n + 1])) * Pow2(d)
    ensures vs[w + 1] >= Pow2(h) / 2
    ensures Val(Pow2(h), us[a..a + n]) < Val(Pow2(h), vs[w + 1..w + n + 1])
  {
    hide *;
    ghost var b := Pow2(h);
    ghost var u, v := us[a..a + m + n + 1], vs[w + 1..w + n + 1];
    assert v[0] < b by { FirstIsDigit(b, v); }
    d := NormalShift(h, vs[w + 1]);
    DividendFits(h, u, d);
    DivisorFits(h, v, d);
    DivisorPositive(b, v);
    ZeroShift();
    if d > 0 {
      ShiftLeft(h, us, a, m + n, d);
      ShiftLeft(h, vs, w + 1, n - 1, d);
      assert vs[w + 1..w + n + 1] == vs[w + 1..w + 1 + n - 1 + 1];
    }
    ghost var u', v' := us[a..a + m + n + 1], vs[w + 1..w + n + 1];
    DivisorLeads(h, v, d, v');
    DividendStarts(h, Val(b, u), u', Val(b, v), d, n);
    SliceOfSlice(us[..], a, m + n + 1, 0, n);
    assert us[..][a..a + m + n + 1] == u' && us[..][a..a + n] == us[a..a + n] && u'[0..n] == u'[..n];
  }

  lemma FirstIsDigit(b: nat, s: seq<nat>)
    requires AreDigits(b, s) && s != []
    ensures s[0] < b
  {
  }

  lemma ZeroShift()
    ensures Pow2(0) == 1
  {
  }

  /** What the loop leaves, in terms of the numbers before the shift by d bits. */
  lemma LoopResult(h: nat, u: nat, v: nat, d: nat, o: seq<nat>, u': seq<nat>, q: seq<nat>, v': seq<nat>, j: nat)
    returns (r: nat)
    requires DividedTo(Pow2(h), o, u', q, v', j) && |o| == j + |v'|
    requires Val(Pow2(h), o) == u * Pow2(d) && Val(Pow2(h), v') == v * Pow2(d)
    ensures forall i :: 0 <= i < j ==> u'[i] == 0
    ensures AreDigits(Pow2(h), q) && AreDigits(Pow2(h), u'[j..])
    ensures u == Val(Pow2(h), q) * v + r && r < v && Val(Pow2(h), u'[j..]) == r * Pow2(d)
  {
    hide Val, Pow2;
    assert o[..j + |v'|] == o && u'[j..j + |v'|] == u'[j..];
    r := UnshiftSum(u, v, Pow2(d), Val(Pow2(h), q), Val(Pow2(h), u'[j..]));
  }

  lemma UnshiftSum(u: nat, v: nat, k: nat, q: nat, rest: nat) returns (r: nat)
    requires k >= 1 && u * k == q * (v * k) + rest && rest < v * k
    ensures u == q * v + r && r < v && rest == r * k
  {
    assert rest == (u - q * v) * k by {
      MulAssoc(q, v, k);
      MulDiff(u, q * v, k);
    }
    if u < q * v {
      MulMono(1, q * v - u, k);
      MulDiff(q * v, u, k);
      assert false;
    }
    r := u - q * v;
    MulLess(r, v, k);
  }

  /** D8: the remainder, shifted back, out of the last n of the four digits. */
  method Denormalise(h: nat, us: array<nat>, k: nat, n: nat, d: nat, ghost r: nat) returns (remainder: nat)
    requires h >= 1 && n >= 1 && us.Length == 5 && k + n == 4 && d < h
    requires (forall i :: 0 <= i <= k ==> us[i] == 0)
    requires AreDigits(Pow2(h), us[k + 1..]) && Val(Pow2(h), us[k + 1..]) == r * Pow2(d)
    modifies us
    ensures remainder == r
  {
    hide *;
    ghost var o := us[k + 1..];
    ZeroShift();
    if d > 0 {
      ShrDivides(h, o, d, r);
      assert us[k + 1..k + n + 1] == o;
      ShiftRight(h, us, k, n, d);
      assert us[k + 1..] == us[k + 1..k + n + 1];
      assert forall i :: 0 <= i < k ==> us[i] == 0 by {
        assert forall i :: 0 <= i < k ==> us[i] == us[..k][i];
        assert forall i :: 0 <= i < k ==> old(us[i]) == old(us[..k])[i];
      }
    }
    assert us[1..5][k..] == us[k + 1..];
    PaddedValue(h, us[1..5], k);
    remainder := JoinDigits(h, us[1..5]);
  }

  /** Four digits of which the first k are zero join to the value of the others. */
  lemma PaddedValue(h: nat, s: seq<nat>, k: nat)
    requires |s| == 4 && k <= 4 && (forall i :: 0 <= i < k ==> s[i] == 0) && AreDigits(Pow2(h), s[k..])
    ensures JoinDigits(h, s) == Val(Pow2(h), s[k..])
  {
    hide Val, JoinDigits, Pow2;
    forall i | 0 <= i < 4
      ensures s[i] < Pow2(h)
    {
      if i >= k {
        assert s[i] == s[k..][i - k];
      }
    }
    JoinValue(h, s);
    ValZeros(Pow2(h), s, k);
  }

  method ClearDigits(qs: array<nat>, c: nat)
    requires c <= qs.Length
    modifies qs
    ensures forall k :: 0 <= k < c ==> qs[k] == 0
  {
    var i := c;
    while i > 0
      invariant 0 <= i <= c
      invariant forall k :: i <= k < c ==> qs[k] == 0
    {
      i := i - 1;
      qs[i] := 0;
    }
  }

  /** D1 to D8 for a divisor of n >= 2 digits, vs[w+1..4], led by a nonzero
      digit; the dividend is us[a+1..4]. */
  method LongDivide(h: nat, us: array<nat>, a: nat, vs: array<nat>, w: nat, m: nat, n: nat, ghost u: nat, ghost v: nat)
    returns (quotient: nat, remainder: nat)
    requires h >= 1 && n >= 2 && us != vs && us.Length == vs.Length == 5
    requires a + m + n == 4 && w + n == 4
    requires AreDigits(Pow2(h), us[a..a + m + n + 1]) && AreDigits(Pow2(h), vs[w + 1..w + n + 1])
    requires (forall i :: 0 <= i <= a ==> us[i] == 0) && vs[w + 1] >= 1
    requires Val(Pow2(h), us[a..a + m + n + 1]) == u && Val(Pow2(h), vs[w + 1..w + n + 1]) == v
    modifies us, vs
    ensures u == quotient * v + remainder && remainder < v
  {
    hide *;
    var qs := new nat[5];
    var c := 4 - m;
    ClearDigits(qs, c);
    var d := Normalise(h, us, a, vs, w, m, n);
    ghost var o, zeros := us[a..a + m + n + 1], qs[..c];
    DivideLoop(h, us, a, vs, w, qs, c, m, n);
    ghost var u' := us[a..a + m + n + 1];
    ghost var r := LoopResult(h, u, v, d, o, u', qs[c..c + m + 1], vs[w + 1..w + n + 1], m + 1);
    QuotientDigits(qs[..], qs[1..5], zeros, c, m);
    PaddedValue(h, qs[1..5], c - 1);
    quotient := JoinDigits(h, qs[1..5]);
    RemainderDigits(us[..], u', old(us[..a]), a, m, n);
    assert us[..][a + m + 1..] == us[a + m + 1..];
    remainder := Denormalise(h, us, a + m, n, d, r);
  }

  lemma QuotientDigits(s: seq<nat>, t: seq<nat>, zeros: seq<nat>, c: nat, m: nat)
    requires |s| == 5 && c + m == 4 && c >= 1 && s[..c] == zeros && (forall k :: 0 <= k < c ==> zeros[k] == 0)
    requires t == s[1..5]
    ensures (forall i :: 0 <= i < c - 1 ==> t[i] == 0) && t[c - 1..] == s[c..c + m + 1]
  {
    forall i | 0 <= i < c - 1
      ensures t[i] == 0
    {
      assert t[i] == s[..c][i + 1];
    }
  }

  lemma RemainderDigits(s: seq<nat>, t: seq<nat>, zeros: seq<nat>, a: nat, m: nat, n: nat)
    requires |s| == 5 && a + m + n == 4 && s[..a] == zeros && (forall k :: 0 <= k < a ==> zeros[k] == 0)
    requires t == s[a..a + m + n + 1] && (forall i :: 0 <= i < m + 1 ==> t[i] == 0)
    ensures (forall i :: 0 <= i <= a + m ==> s[i] == 0) && s[a + m + 1..] == t[m + 1..]
  {
    forall i | 0 <= i <= a + m
      ensures s[i] == 0
    {
      if i < a {
        assert s[i] == s[..a][i];
      } else {
        assert s[i] == t[i - a];
      }
    }
  }

  /** __qdivrem. */
  method Qdivrem(h: nat, ull: nat, vll: nat) returns (r: Division)
    requires h >= 1 && ull < Modulus(h) && vll < Modulus(h)
    ensures vll == 0 ==> r == DivideByZero
    ensures vll != 0 ==> r == Divided(ull / vll, ull % vll)
  {
    hide *;
    if vll == 0 {
      return DivideByZero;
    }
    if ull < vll {
      DivModUnique(ull, vll, 0, ull);
      return Divided(0, ull);
    }
    var us, vs := new nat[5], new nat[5];
    us[0] := 0;
    SplitDigits(h, ull, us);
    SplitDigits(h, vll, vs);
    var n, w, oneDigit := DivisorDigits(h, vs, vll);
    if oneDigit {
      var q, rem := ShortDivide(h, us[1..5], vs[4]);
      DivModUnique(ull, vll, q, rem);
      return Divided(q, rem);
    }
    var m, a := DividendDigits(h, us, vs, w, n, ull, vll);
    var q, rem := LongDivide(h, us, a, vs, w, m, n, ull, vll);
    DivModUnique(ull, vll, q, rem);
    r := Divided(q, rem);
  }

  /** Strips the divisor's leading zeros; stops at once when one digit is left. */
  method DivisorDigits(h: nat, vs: array<nat>, ghost v: nat) returns (n: nat, w: nat, oneDigit: bool)
    requires vs.Length == 5 && AreDigits(Pow2(h), vs[1..5]) && Val(Pow2(h), vs[1..5]) == v >= 1
    ensures oneDigit ==> 1 <= vs[4] == v < Pow2(h)
    ensures !oneDigit ==>
      n >= 2 && w + n == 4 && vs[w + 1] >= 1 &&
      AreDigits(Pow2(h), vs[w + 1..w + n + 1]) && Val(Pow2(h), vs[w + 1..w + n + 1]) == v
  {
    hide *;
    n, w, oneDigit := 4, 0, false;
    while vs[w + 1] == 0
      invariant n >= 2 && w + n == 4 && !oneDigit
      invariant forall i :: 1 <= i <= w ==> vs[i] == 0
      decreases n
    {
      n := n - 1;
      if n == 1 {
        oneDigit := true;
        Stripped(Pow2(h), vs[1..5], 3, v);
        assert vs[1..5][3..] == [vs[4]];
        ValOne(Pow2(h), vs[4]);
        return;
      }
      w := w + 1;
    }
    Stripped(Pow2(h), vs[1..5], w, v);
    assert vs[1..5][w..] == vs[w + 1..w + n + 1];
  }

  lemma Stripped(b: nat, s: seq<nat>, k: nat, v: nat)
    requires k <= |s| && AreDigits(b, s) && Val(b, s) == v && (forall i :: 0 <= i < k ==> s[i] == 0)
    ensures AreDigits(b, s[k..]) && Val(b, s[k..]) == v
    ensures k < |s| ==> s[|s| - 1] < b
  {
    ValZeros(b, s, k);
  }

  /** Strips the dividend's leading zeros; it has no fewer digits than the divisor. */
  method DividendDigits(h: nat, us: array<nat>, vs: array<nat>, w: nat, n: nat, ghost u: nat, ghost v: nat)
    returns (m: nat, a: nat)
    requires us.Length == vs.Length == 5 && us[0] == 0 && u >= v
    requires AreDigits(Pow2(h), us[1..5]) && Val(Pow2(h), us[1..5]) == u
    requires n >= 2 && w + n == 4 && vs[w + 1] >= 1
    requires AreDigits(Pow2(h), vs[w + 1..w + n + 1]) && Val(Pow2(h), vs[w + 1..w + n + 1]) == v
    ensures a + m + n == 4 && (forall i :: 0 <= i <= a ==> us[i] == 0)
    ensures AreDigits(Pow2(h), us[a..a + m + n + 1]) && Val(Pow2(h), us[a..a + m + n + 1]) == u
  {
    hide *;
    DivisorPositive(Pow2(h), vs[w + 1..w + n + 1]);
    m, a := 4 - n, 0;
    while us[a + 1] == 0
      invariant a + m + n == 4
      invariant forall i :: 0 <= i <= a ==> us[i] == 0
      decreases m
    {
      Stripped(Pow2(h), us[1..5], a + 1, u);
      ValBound(Pow2(h), us[1..5][a + 1..]);
      assert |us[1..5][a + 1..]| == m + n - 1;
      m, a := m - 1, a + 1;
    }
    WithLeadingZero(Pow2(h), us[..], us[1..5], a, u);
    assert us[..][a..] == us[a..a + m + n + 1];
  }

  lemma WithLeadingZero(b: nat, s: seq<nat>, t: seq<nat>, a: nat, u: nat)
    requires b >= 1 && |s| >= 1 && t == s[1..] && a < |s| && (forall i :: 0 <= i <= a ==> s[i] == 0)
    requires AreDigits(b, t) && Val(b, t) == u
    ensures AreDigits(b, s[a..]) && Val(b, s[a..]) == u
  {
    assert Val(b, s) == u;
    ValZeros(b, s, a);
    forall i | 0 <= i < |s|
      ensures s[i] < b
    {
      if i > 0 {
        assert s[i] == t[i - 1];
      }
    }
  }
}
