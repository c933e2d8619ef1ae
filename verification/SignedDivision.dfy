/** Signed long long quotient and remainder over the unsigned division. */
module SignedDivision {
  import opened Digits
  import opened LongMul
  import opened QDivRem

  datatype SignedResult = ByZero | Value(value: int)

  function Abs(x: int): nat
  {
    if x < 0 then -x else x
  }

  /** q and r divide a by b with truncation toward zero (section 6.5.5 of C99). */
  predicate Truncates(a: int, b: int, q: int, r: int)
  {
    a == b * q + r && Abs(r) < Abs(b) && (r == 0 || (r < 0 <==> a < 0))
  }

  function TruncQuotient(a: int, b: int): int
    requires b != 0
  {
    SignedBy((a < 0) != (b < 0), Abs(a) / Abs(b))
  }

  function TruncRemainder(a: int, b: int): int
    requires b != 0
  {
    SignedBy(a < 0, Abs(a) % Abs(b))
  }

  lemma TruncDefined(a: int, b: int)
    requires b != 0
    ensures Truncates(a, b, TruncQuotient(a, b), TruncRemainder(a, b))
  {
    var q, r := Abs(a) / Abs(b), Abs(a) % Abs(b);
    assert Abs(a) == q * Abs(b) + r;
    MulNeg(b, q);
    MulNeg(q, b);
    MulNeg(-b, q);
  }

  /** Truncating division has one answer. */
  lemma TruncUnique(a: int, b: int, q: int, r: int, q': int, r': int)
    requires b != 0 && Truncates(a, b, q, r) && Truncates(a, b, q', r')
    ensures q == q' && r == r'
  {
    MulDiff(q, q', b);
    AbsProduct(q - q', b, r' - r);
    if q != q' {
      MulMono(1, Abs(q - q'), Abs(b));
      assert false;
    }
  }

  lemma AbsProduct(x: int, y: int, z: int)
    requires x * y == z
    ensures Abs(x) * Abs(y) == Abs(z)
  {
    MulNeg(x, y);
    MulNeg(y, x);
    MulNeg(y, -x);
    if x > 0 && y > 0 {
      MulMono(1, x, y);
    } else if x < 0 && y < 0 {
      MulMono(1, -x, -y);
    } else if x > 0 && y < 0 {
      MulMono(1, x, -y);
    } else if x < 0 && y > 0 {
      MulMono(1, -x, y);
    }
  }

  /** The magnitude of a signed long long, as computed on its representation. */
  method Magnitude(h: nat, a: int) returns (ua: nat)
    requires h >= 1 && FitsSigned(Modulus(h), a)
    ensures ua == Abs(a) < Modulus(h)
  {
    hide Modulus;
    var m := Modulus(h);
    ua := Unsigned(m, a);
    if a < 0 {
      WrapNegative(m, a);
      ua := Negate(m, ua);
      UnsignedSmall(m, -a);
    } else {
      UnsignedSmall(m, a);
    }
  }

  /** __divdi3: the truncated quotient, modulo one long long. */
  method Divdi3(h: nat, a: int, b: int) returns (r: SignedResult)
    requires h >= 1 && FitsSigned(Modulus(h), a) && FitsSigned(Modulus(h), b)
    ensures b == 0 ==> r == ByZero
    ensures b != 0 ==> r == Value(Signed(Modulus(h), Unsigned(Modulus(h), TruncQuotient(a, b))))
    ensures b != 0 && FitsSigned(Modulus(h), TruncQuotient(a, b)) ==> r == Value(TruncQuotient(a, b))
  {
    hide Modulus, Unsigned, Signed, Negate;
    var m := Modulus(h);
    var ua := Magnitude(h, a);
    var ub := Magnitude(h, b);
    var neg := (a < 0) != (b < 0);
    var d := Qdivrem(h, ua, ub);
    if d.DivideByZero? {
      return ByZero;
    }
    var uq := d.quotient;
    QuotientSmall(ua, ub);
    NegateIs(m, uq);
    if neg {
      uq := Negate(m, uq);
    }
    if FitsSigned(m, TruncQuotient(a, b)) {
      SignedOfUnsigned(m, TruncQuotient(a, b));
    }
    r := Value(Signed(m, uq));
  }

  lemma QuotientSmall(u: nat, v: nat)
    requires v >= 1
    ensures u / v <= u
  {
    MulMono(1, v, u / v);
  }

  /** __moddi3: the truncated remainder, exactly. */
  method Moddi3(h: nat, a: int, b: int) returns (r: SignedResult)
    requires h >= 1 && FitsSigned(Modulus(h), a) && FitsSigned(Modulus(h), b)
    ensures b == 0 ==> r == ByZero
    ensures b != 0 ==> r == Value(TruncRemainder(a, b))
  {
    hide Modulus, Unsigned, Signed, Negate;
    var m := Modulus(h);
    var ua := Magnitude(h, a);
    var ub := Magnitude(h, b);
    var d := Qdivrem(h, ua, ub);
    if d.DivideByZero? {
      return ByZero;
    }
    var ur := d.remainder;
    NegateIs(m, ur);
    if a < 0 {
      ur := Negate(m, ur);
    }
    RemainderFits(m, a, b);
    SignedOfUnsigned(m, TruncRemainder(a, b));
    r := Value(Signed(m, ur));
  }

  lemma RemainderFits(m: nat, a: int, b: int)
    requires b != 0 && FitsSigned(m, b)
    ensures FitsSigned(m, TruncRemainder(a, b))
  {
  }

  /** The truncated quotient does not fit exactly when the most negative number is divided by -1. */
  lemma QuotientFits(m: nat, a: int, b: int)
    requires m % 2 == 0 && b != 0 && FitsSigned(m, a) && FitsSigned(m, b)
    ensures FitsSigned(m, TruncQuotient(a, b)) <==> !(2 * a + m == 0 && b == -1)
  {
    hide FitsSigned, SignedBy;
    QuotientCases(Abs(a), Abs(b));
    FitsCases(m, a, b, Abs(a) / Abs(b));
  }

  lemma QuotientCases(u: nat, v: nat)
    requires v >= 1
    ensures u / v <= u && (v == 1 ==> u / v == u) && (v >= 2 ==> 2 * (u / v) <= u)
  {
    QuotientSmall(u, v);
    if v == 1 {
      DivModUnique(u, v, u, 0);
    } else {
      HalfQuotient(u, v);
    }
  }

  lemma FitsCases(m: nat, a: int, b: int, q: nat)
    requires m % 2 == 0 && b != 0 && FitsSigned(m, a) && FitsSigned(m, b)
    requires q <= Abs(a) && (Abs(b) == 1 ==> q == Abs(a)) && (Abs(b) >= 2 ==> 2 * q <= Abs(a))
    ensures FitsSigned(m, SignedBy((a < 0) != (b < 0), q)) <==> !(2 * a + m == 0 && b == -1)
  {
  }

  lemma HalfQuotient(u: nat, v: nat)
    requires v >= 2
    ensures 2 * (u / v) <= u
  {
    MulMono(2, v, u / v);
  }

  /** a = b*q + r modulo one long long, for the quotient and remainder the two
      functions return, the most negative dividend included. */
  lemma QuotientAndRemainder(h: nat, a: int, b: int)
    requires h >= 1 && b != 0 && FitsSigned(Modulus(h), a) && FitsSigned(Modulus(h), b)
    ensures var m := Modulus(h);
            var q := Signed(m, Unsigned(m, TruncQuotient(a, b)));
            Unsigned(m, b * q + TruncRemainder(a, b)) == Unsigned(m, a)
  {
    hide *;
    var m := Modulus(h);
    var t := TruncQuotient(a, b);
    TruncDefined(a, b);
    TruncSum(a, b, t, TruncRemainder(a, b));
    var k := SignedWitness(m, t);
    WitnessTimes(b, Signed(m, Unsigned(m, t)), t, k, m);
    SameUnsigned(m, b * Signed(m, Unsigned(m, t)) + TruncRemainder(a, b), a, b * k);
  }

  lemma TruncSum(a: int, b: int, q: int, r: int)
    requires Truncates(a, b, q, r)
    ensures a == b * q + r
  {
  }

  lemma SignedWitness(m: nat, t: int) returns (k: int)
    requires m >= 1
    ensures Signed(m, Unsigned(m, t)) == t + k * m
  {
    hide Unsigned;
    UnsignedWitness(m, t);
    var c := t / m;
    k := if 2 * Unsigned(m, t) < m then -c else -c - 1;
    MulNeg(c, m);
    MulDiff(-c, 1, m);
  }

  lemma WitnessTimes(b: int, q: int, t: int, k: int, m: nat)
    requires q == t + k * m
    ensures b * q == b * t + (b * k) * m
  {
    MulSum(t, k * m, b);
    MulAssoc(b, k, m);
  }
}
