/** The quotient-digit estimate, step D3 of Algorithm D: at most one too large. */
module DigitEstimate {
  import opened Digits

  /** D3 and D4 rest on the two leading digits: with v = (v1 v2 ...), an
      estimate that passes the two-digit test is at most one too large. */
  lemma TwoDigitTest(b: nat, p: nat, v12: nat, vr: nat, u012: nat, ur: nat, qhat: nat)
    requires p >= 1 && vr < p && ur < p && qhat < b && v12 >= b
    requires qhat * v12 <= u012
    ensures (qhat - 1) * (v12 * p + vr) <= u012 * p + ur
  {
    var v, u := v12 * p + vr, u012 * p + ur;
    assert qhat * v == qhat * v12 * p + qhat * vr;
    MulMono(qhat * v12, u012, p);
    MulBound(qhat, vr, b, p);
    MulMono(b, v12, p);
    assert (qhat - 1) * v == qhat * v - v;
  }

  /** An estimate that fails the two-digit test is too large. */
  lemma TwoDigitTooBig(p: nat, v12: nat, vr: nat, u012: nat, ur: nat, qhat: nat)
    requires p >= 1 && ur < p && qhat * v12 > u012
    ensures qhat * (v12 * p + vr) > u012 * p + ur
  {
    var v := v12 * p + vr;
    assert qhat * v == qhat * v12 * p + qhat * vr;
    MulMono(u012 + 1, qhat * v12, p);
    assert (u012 + 1) * p == u012 * p + p;
  }

  /** The one-digit estimate never falls below the true digit. */
  lemma FirstEstimate(b: nat, p: nat, v1: nat, v2: nat, vr: nat, u01: nat, u2: nat, ur: nat, q: nat)
    requires u2 < b && ur < p
    requires q * ((v1 * b + v2) * p + vr) <= (u01 * b + u2) * p + ur
    ensures q * v1 <= u01
  {
    var bp := b * p;
    var w := v2 * p + vr;
    assert (v1 * b + v2) * p + vr == v1 * bp + w by {
      MulSum(v1 * b, v2, p);
      MulAssoc(v1, b, p);
    }
    assert q * (v1 * bp + w) == (q * v1) * bp + q * w by {
      MulSum(v1 * bp, w, q);
      MulAssoc(q, v1, bp);
    }
    assert (u01 * b + u2) * p + ur < (u01 + 1) * bp by {
      MulSum(u01 * b, u2, p);
      MulAssoc(u01, b, p);
      MulStrict(u2, b, p);
      MulSum(u01, 1, bp);
    }
    MulLess(q * v1, u01 + 1, bp);
  }

  /** What D3 knows of the numbers the leading digits stand for: v is led by
      v1 and v2, u by u01 (two digits) and u2, above tails vr and ur below p;
      q is the true digit. */
  ghost predicate Leading(b: nat, p: nat, v1: nat, v2: nat, vr: nat, u01: nat, u2: nat, ur: nat,
                          v: nat, u: nat, q: nat)
  {
    && v1 >= 1 && v2 < b && u2 < b
    && vr < p && ur < p
    && v == (v1 * b + v2) * p + vr
    && u == (u01 * b + u2) * p + ur
    && q * v <= u < (q + 1) * v
  }

  /** D3, first part: the quotient of the two leading digits by v1, or the base
      itself when u[j] equals v1. */
  method FirstGuess(h: nat, v1: nat, uj0: nat, uj1: nat, ghost q: nat) returns (qhat: nat, rhat: nat, tooBig: bool)
    requires uj0 <= v1 < Pow2(h) && uj1 < Pow2(h) && 1 <= v1
    requires q < Pow2(h) && q * v1 <= uj0 * Pow2(h) + uj1
    ensures q <= qhat && rhat < Pow2(h)
    ensures qhat * v1 + rhat == uj0 * Pow2(h) + uj1
    ensures tooBig ==> qhat == Pow2(h)
    ensures !tooBig ==> qhat < Pow2(h)
  {
    var b := Pow2(h);
    tooBig := uj0 == v1;
    if tooBig {
      qhat, rhat := b, uj1;
    } else {
      var nn := Combine(h, uj0, uj1);
      FirstDigit(h, v1, nn, uj0, uj1, q);
      qhat, rhat := nn / v1, nn % v1;
    }
  }

  /** D3, second part: correct the guess against v2. The result is the true
      digit or one more; because v1 is at least half the base, at most two
      corrections happen. */
  method CorrectGuess(h: nat, v1: nat, v2: nat, uj2: nat, qhat0: nat, rhat0: nat, tooBig0: bool,
                      ghost p: nat, ghost vr: nat, ghost u01: nat, ghost ur: nat,
                      ghost v: nat, ghost u: nat, ghost q: nat)
    returns (qhat: nat, ghost corrections: nat)
    requires h >= 1 && Pow2(h) / 2 <= v1 < Pow2(h)
    requires Leading(Pow2(h), p, v1, v2, vr, u01, uj2, ur, v, u, q)
    requires q < Pow2(h) && q <= qhat0 && rhat0 < Pow2(h)
    requires qhat0 * v1 + rhat0 == u01
    requires if tooBig0 then qhat0 == Pow2(h) else qhat0 < Pow2(h)
    ensures q <= qhat <= q + 1 && qhat < Pow2(h)
    ensures qhat + corrections == qhat0 && corrections <= 2
  {
    hide *;
    var b := Pow2(h);
    LeadingDigits(b, p, v1, v2, vr, u01, uj2, ur, v, u, q);
    EvenBase(h);
    Balances(qhat0, v1, rhat0, u01);
    var rhat: nat, tooBig := rhat0, tooBig0;
    qhat, corrections := qhat0, 0;
    while tooBig || Wrap(b, v2 * qhat) > Combine(h, rhat, uj2)
      invariant q <= qhat && rhat < b && qhat + corrections == qhat0
      invariant Balanced(qhat, v1, rhat, u01)
      invariant if tooBig then qhat == b && corrections == 0 else qhat < b
      invariant corrections == 0 || (corrections == 1 && v1 <= rhat)
      decreases qhat
    {
      if !tooBig {
        FailedTest(h, p, v1, v2, vr, u01, uj2, ur, v, u, q, qhat, rhat);
      }
      tooBig := false;
      LowerGuess(qhat, v1, rhat, u01);
      qhat := qhat - 1;
      rhat := rhat + v1;
      corrections := corrections + 1;
      if rhat >= b {
        break;
      }
    }
    PassedTest(h, p, v1, v2, vr, u01, uj2, ur, v, u, q, qhat, rhat);
  }

  lemma LeadingDigits(b: nat, p: nat, v1: nat, v2: nat, vr: nat, u01: nat, u2: nat, ur: nat, v: nat, u: nat, q: nat)
    requires Leading(b, p, v1, v2, vr, u01, u2, ur, v, u, q)
    ensures v2 < b && u2 < b
  {
  }

  predicate Balanced(qhat: nat, v1: nat, rhat: nat, u01: nat) {
    qhat * v1 + rhat == u01
  }

  lemma Balances(qhat: nat, v1: nat, rhat: nat, u01: nat)
    ensures Balanced(qhat, v1, rhat, u01) <==> qhat * v1 + rhat == u01
  {
  }

  lemma LowerGuess(qhat: nat, v1: nat, rhat: nat, u01: nat)
    requires Balanced(qhat, v1, rhat, u01) && qhat >= 1
    ensures Balanced(qhat - 1, v1, rhat + v1, u01)
  {
    MulSum(qhat - 1, 1, v1);
  }

  lemma EvenBase(h: nat)
    requires h >= 1
    ensures Pow2(h) == 2 * (Pow2(h) / 2)
  {
  }

  lemma FailedTest(h: nat, p: nat, v1: nat, v2: nat, vr: nat, u01: nat, u2: nat, ur: nat, v: nat, u: nat, q: nat,
                   qhat: nat, rhat: nat)
    requires Leading(Pow2(h), p, v1, v2, vr, u01, u2, ur, v, u, q) && v2 < Pow2(h) && u2 < Pow2(h)
    requires qhat < Pow2(h) && rhat < Pow2(h) && Balanced(qhat, v1, rhat, u01)
    requires Wrap(Pow2(h), v2 * qhat) > Combine(h, rhat, u2)
    ensures q < qhat
  {
    hide *;
    Balances(qhat, v1, rhat, u01);
    TestMeans(h, v1, v2, qhat, rhat, u2, u01);
    FailedEstimate(Pow2(h), p, v1, v2, vr, u01, u2, ur, v, u, q, qhat);
  }

  lemma FailedEstimate(b: nat, p: nat, v1: nat, v2: nat, vr: nat, u01: nat, u2: nat, ur: nat, v: nat, u: nat, q: nat,
                       qhat: nat)
    requires Leading(b, p, v1, v2, vr, u01, u2, ur, v, u, q)
    requires qhat * (v1 * b + v2) > u01 * b + u2
    ensures q < qhat
  {
    TwoDigitTooBig(p, v1 * b + v2, vr, u01 * b + u2, ur, qhat);
    MulLess(q, qhat, v);
  }

  lemma PassedTest(h: nat, p: nat, v1: nat, v2: nat, vr: nat, u01: nat, u2: nat, ur: nat, v: nat, u: nat, q: nat,
                   qhat: nat, rhat: nat)
    requires Leading(Pow2(h), p, v1, v2, vr, u01, u2, ur, v, u, q) && v2 < Pow2(h) && u2 < Pow2(h)
    requires qhat < Pow2(h) && Balanced(qhat, v1, rhat, u01)
    requires rhat < Pow2(h) ==> Wrap(Pow2(h), v2 * qhat) <= Combine(h, rhat, u2)
    ensures qhat <= q + 1
  {
    hide *;
    Balances(qhat, v1, rhat, u01);
    if rhat < Pow2(h) {
      TestMeans(h, v1, v2, qhat, rhat, u2, u01);
    } else {
      RemainderPastBase(Pow2(h), v1, v2, qhat, rhat, u01, u2);
    }
    PassedEstimate(Pow2(h), p, v1, v2, vr, u01, u2, ur, v, u, q, qhat);
  }

  lemma PassedEstimate(b: nat, p: nat, v1: nat, v2: nat, vr: nat, u01: nat, u2: nat, ur: nat, v: nat, u: nat, q: nat,
                       qhat: nat)
    requires Leading(b, p, v1, v2, vr, u01, u2, ur, v, u, q) && qhat < b
    requires qhat * (v1 * b + v2) <= u01 * b + u2
    ensures qhat <= q + 1
  {
    MulMono(1, v1, b);
    TwoDigitTest(b, p, v1 * b + v2, vr, u01 * b + u2, ur, qhat);
    MulLess(qhat - 1, q + 1, v);
  }

  lemma FirstDigit(h: nat, v1: nat, nn: nat, uj0: nat, uj1: nat, q: nat)
    requires uj0 < v1 < Pow2(h) && uj1 < Pow2(h) && nn == Combine(h, uj0, uj1)
    requires q * v1 <= uj0 * Pow2(h) + uj1
    ensures q <= nn / v1 < Pow2(h)
    ensures nn / v1 * v1 + nn % v1 == uj0 * Pow2(h) + uj1
  {
    CombineIs(h, uj0, uj1);
    FirstQuotient(Pow2(h), v1, nn, uj0, uj1, q);
  }

  lemma FirstQuotient(b: nat, v1: nat, nn: nat, uj0: nat, uj1: nat, q: nat)
    requires uj0 < v1 < b && uj1 < b && nn == uj0 * b + uj1 && q * v1 <= nn
    ensures q <= nn / v1 < b
    ensures nn / v1 * v1 + nn % v1 == nn
  {
    assert nn < v1 * b by {
      MulMono(uj0 + 1, v1, b);
      MulSum(uj0, 1, b);
    }
    QuotientBounds(nn, v1, b);
    MulLess(q, nn / v1 + 1, v1);
  }

  /** While rhat is a digit, the loop test compares qhat*(v1 v2) with (u0 u1 u2). */
  lemma TestMeans(h: nat, v1: nat, v2: nat, qhat: nat, rhat: nat, uj2: nat, u01: nat)
    requires v2 < Pow2(h) && qhat < Pow2(h) && rhat < Pow2(h) && uj2 < Pow2(h)
    requires qhat * v1 + rhat == u01
    ensures Wrap(Pow2(h), v2 * qhat) > Combine(h, rhat, uj2) <==>
            qhat * (v1 * Pow2(h) + v2) > u01 * Pow2(h) + uj2
  {
    hide *;
    assert Combine(h, rhat, uj2) == rhat * Pow2(h) + uj2 by { CombineIs(h, rhat, uj2); }
    assert Wrap(Pow2(h), v2 * qhat) == v2 * qhat by {
      DigitProduct(Pow2(h), v2, qhat);
      WrapSmall(Pow2(h), v2 * qhat);
    }
    TestExpanded(Pow2(h), v1, v2, qhat, rhat, u01);
  }

  lemma TestExpanded(b: nat, v1: nat, v2: nat, qhat: nat, rhat: nat, u01: nat)
    requires qhat * v1 + rhat == u01
    ensures u01 * b - rhat * b == qhat * (v1 * b + v2) - v2 * qhat
  {
    MulSum(qhat * v1, rhat, b);
    MulAssoc(qhat, v1, b);
    MulSum(v1 * b, v2, qhat);
  }

  lemma RemainderPastBase(b: nat, v1: nat, v2: nat, qhat: nat, rhat: nat, u01: nat, uj2: nat)
    requires v2 < b && qhat < b && rhat >= b && qhat * v1 + rhat == u01
    ensures qhat * (v1 * b + v2) <= u01 * b + uj2
  {
    DigitProduct(b, v2, qhat);
    MulSum(qhat * v1, rhat, b);
    MulAssoc(qhat, v1, b);
    MulSum(v1 * b, v2, qhat);
    MulMono(b, rhat, b);
  }
}
