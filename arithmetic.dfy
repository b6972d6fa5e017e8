/** The two arithmetic combinators on values, `multiply` and `add`, with the
    integer division of the source language (rounding toward zero). */
module Arithmetic {
  import opened Syntax

  /** What both combinators return when an operand is not a complex number. */
  const Zero: Value := ComplexNumber(0, 1, 0, 1)

  /** The multiplicative unit 1/1 + (0/1)i. */
  const One: Value := ComplexNumber(1, 1, 0, 1)

  /** A complex number whose two denominators are non-zero denotes a number. */
  predicate WellFormed(v: Value) {
    v.ComplexNumber? ==> v.b != 0 && v.d != 0
  }

  /** The real part a/b of a well-formed complex number. */
  function Re(v: Value): real
    requires v.ComplexNumber? && v.b != 0
  {
    v.a as real / v.b as real
  }

  /** The imaginary part c/d of a well-formed complex number. */
  function Im(v: Value): real
    requires v.ComplexNumber? && v.d != 0
  {
    v.c as real / v.d as real
  }

  function Abs(n: int): nat {
    if n < 0 then -n else n
  }

  /** Integer division as the source performs it (`/` on Rust integers). */
  function TruncDiv(n: int, m: int): (r: int)
    requires m != 0
    ensures n >= 0 && m > 0 ==> r == n / m
  {
    var k := Abs(n) / Abs(m);
    if (n < 0) == (m < 0) then k else -k
  }

  /** The quotient is rounded toward zero: q * m never overshoots n, lies
      within |m| of it and has n's sign. */
  lemma TruncDivRoundsTowardZero(n: int, m: int)
    requires m != 0
    ensures Abs(TruncDiv(n, m) * m) <= Abs(n) < Abs(TruncDiv(n, m) * m) + Abs(m)
    ensures TruncDiv(n, m) * m == 0 || (TruncDiv(n, m) * m < 0 <==> n < 0)
  {
    var q, k, mm := TruncDiv(n, m), Abs(n) / Abs(m), Abs(m);
    DivBounds(Abs(n), mm);
    NegatedProducts(k, mm);
    assert q * m == (if n < 0 then -(k * mm) else k * mm);
  }

  lemma DivBounds(nn: nat, mm: int)
    requires mm > 0
    ensures nn / mm >= 0 && (nn / mm) * mm <= nn < (nn / mm) * mm + mm
  {
  }

  lemma NegatedProducts(k: int, mm: int)
    ensures (-k) * (-mm) == k * mm
    ensures (-k) * mm == -(k * mm) && k * (-mm) == -(k * mm)
  {
  }

  lemma ZeroMultiple(t: int, mm: int)
    requires mm > 0 && 0 <= t * mm < mm
    ensures t == 0
  {
  }

  lemma MulDivCancel(k: nat, mm: int)
    requires mm > 0
    ensures (k * mm) / mm == k
  {
    var r := (k * mm) / mm;
    DivBounds(k * mm, mm);
    assert (k - r) * mm == k * mm - r * mm;
    ZeroMultiple(k - r, mm);
  }

  /** Dividing an exact multiple gives the factor back. */
  lemma TruncDivExact(k: int, m: int)
    requires m != 0
    ensures TruncDiv(k * m, m) == k
  {
    var kk: int, mm: int := Abs(k), Abs(m);
    NegatedProducts(kk, mm);
    assert k * m == (if (k < 0) == (m < 0) then kk * mm else -(kk * mm));
    MulDivCancel(kk, mm);
  }

  /** `multiply`: the product of two complex numbers over the common denominator
      b1*b2*d1*d2, or `Zero` when an operand is not a complex number. */
  function Multiply(x: Value, y: Value): (r: Value)
    ensures r.ComplexNumber?
    ensures !(x.ComplexNumber? && y.ComplexNumber?) ==> r == Zero
    ensures x.ComplexNumber? && y.ComplexNumber? ==> r.b == r.d
    ensures WellFormed(x) && WellFormed(y) ==> WellFormed(r)
  {
    match (x, y)
    case (ComplexNumber(a1, b1, c1, d1), ComplexNumber(a2, b2, c2, d2)) =>
      var af := a1 * a2 * d1 * d2 - c1 * c2 * b1 * b2;
      var bf := b1 * b2 * d1 * d2;
      var cf := a1 * c2 * b2 * d1 + a2 * c1 * b1 * d2;
      var df := bf;
      assert b1 != 0 && b2 != 0 && d1 != 0 && d2 != 0 ==> bf != 0 by {
        if b1 != 0 && b2 != 0 && d1 != 0 && d2 != 0 {
          assert b1 * b2 != 0;
          assert b1 * b2 * d1 != 0;
        }
      }
      ComplexNumber(af, bf, cf, df)
    case _ => Zero
  }

  /** `add` divides by every denominator of its operands: it panics exactly on
      two complex numbers one of which does not denote a number. */
  predicate AddDividesByZero(x: Value, y: Value)
    ensures AddDividesByZero(x, y) <==>
      x.ComplexNumber? && y.ComplexNumber? && !(WellFormed(x) && WellFormed(y))
  {
    x.ComplexNumber? && y.ComplexNumber? &&
    (x.b == 0 || y.b == 0 || x.d == 0 || y.d == 0)
  }

  /** `add`, with the formula as the source writes it: the real denominator is
      b1 * gcd(b1, b2) / b2 (not the least common multiple), the imaginary
      numerators are scaled by d1 * gcd(d1, d2) / d2, and the imaginary
      denominator is the real one. `Zero` when an operand is not a complex number. */
  function Add(gcd: (int, int) -> int, x: Value, y: Value): (r: Value)
    requires !AddDividesByZero(x, y)
    ensures r.ComplexNumber?
    ensures !(x.ComplexNumber? && y.ComplexNumber?) ==> r == Zero
    ensures x.ComplexNumber? && y.ComplexNumber? ==> r.d == r.b
  {
    match (x, y)
    case (ComplexNumber(a1, b1, c1, d1), ComplexNumber(a2, b2, c2, d2)) =>
      var lcm := TruncDiv(b1 * gcd(b1, b2), b2);
      var bf := lcm;
      var af := a1 * TruncDiv(lcm, b1) + a2 * TruncDiv(lcm, b2);
      var lcmi := TruncDiv(d1 * gcd(d1, d2), d2);
      var df := lcm;
      var cf := c1 * TruncDiv(lcmi, d1) + c2 * TruncDiv(lcmi, d2);
      ComplexNumber(af, bf, cf, df)
    case _ => Zero
  }

  /** `multiply` is complex multiplication on the numbers the values denote. */
  lemma MultiplyMeaning(x: Value, y: Value)
    requires x.ComplexNumber? && y.ComplexNumber? && WellFormed(x) && WellFormed(y)
    ensures WellFormed(Multiply(x, y))
    ensures Re(Multiply(x, y)) == Re(x) * Re(y) - Im(x) * Im(y)
    ensures Im(Multiply(x, y)) == Re(x) * Im(y) + Im(x) * Re(y)
  {
    MultiplyRealPart(x, y);
    MultiplyImaginaryPart(x, y);
  }

  lemma MultiplyRealPart(x: Value, y: Value)
    requires x.ComplexNumber? && y.ComplexNumber? && WellFormed(x) && WellFormed(y)
    ensures Re(Multiply(x, y)) == Re(x) * Re(y) - Im(x) * Im(y)
  {
    MultiplyComponents(x, y);
    ProductRealPartOfInts(x.a, x.b, x.c, x.d, y.a, y.b, y.c, y.d);
  }

  lemma MultiplyImaginaryPart(x: Value, y: Value)
    requires x.ComplexNumber? && y.ComplexNumber? && WellFormed(x) && WellFormed(y)
    ensures Im(Multiply(x, y)) == Re(x) * Im(y) + Im(x) * Re(y)
  {
    MultiplyComponents(x, y);
    ProductImaginaryPartOfInts(x.a, x.b, x.c, x.d, y.a, y.b, y.c, y.d);
  }

  /** The integer components `multiply` computes. */
  lemma MultiplyComponents(x: Value, y: Value)
    requires x.ComplexNumber? && y.ComplexNumber?
    ensures Multiply(x, y).a == x.a * y.a * x.d * y.d - x.c * y.c * x.b * y.b
    ensures Multiply(x, y).b == x.b * y.b * x.d * y.d
    ensures Multiply(x, y).c == x.a * y.c * y.b * x.d + y.a * x.c * x.b * y.d
    ensures Multiply(x, y).d == x.b * y.b * x.d * y.d
  {
  }

  lemma ProductRealPartOfInts(a1: int, b1: int, c1: int, d1: int, a2: int, b2: int, c2: int, d2: int)
    requires b1 != 0 && d1 != 0 && b2 != 0 && d2 != 0
    ensures b1 * b2 * d1 * d2 != 0
    ensures (a1 * a2 * d1 * d2 - c1 * c2 * b1 * b2) as real / (b1 * b2 * d1 * d2) as real
         == (a1 as real / b1 as real) * (a2 as real / b2 as real) - (c1 as real / d1 as real) * (c2 as real / d2 as real)
  {
    NonzeroProduct4(b1, b2, d1, d2);
    CastQuotientOfDifference(a1, a2, d1, d2, c1, c2, b1, b2, b1, b2, d1, d2);
    ProductRealPart(a1 as real, b1 as real, c1 as real, d1 as real, a2 as real, b2 as real, c2 as real, d2 as real);
  }

  lemma ProductImaginaryPartOfInts(a1: int, b1: int, c1: int, d1: int, a2: int, b2: int, c2: int, d2: int)
    requires b1 != 0 && d1 != 0 && b2 != 0 && d2 != 0
    ensures b1 * b2 * d1 * d2 != 0
    ensures (a1 * c2 * b2 * d1 + a2 * c1 * b1 * d2) as real / (b1 * b2 * d1 * d2) as real
         == (a1 as real / b1 as real) * (c2 as real / d2 as real) + (c1 as real / d1 as real) * (a2 as real / b2 as real)
  {
    NonzeroProduct4(b1, b2, d1, d2);
    CastQuotientOfSum(a1, c2, b2, d1, a2, c1, b1, d2, b1, b2, d1, d2);
    ProductImaginaryPart(a1 as real, b1 as real, c1 as real, d1 as real, a2 as real, b2 as real, c2 as real, d2 as real);
  }

  /** A difference of two four-fold products over a four-fold product, computed
      on integers and cast, equals the same quotient computed over the reals. */
  lemma CastQuotientOfDifference(p1: int, q1: int, s1: int, t1: int, p2: int, q2: int, s2: int, t2: int,
                                 e: int, f: int, g: int, h: int)
    requires e * f * g * h != 0
    ensures (p1 * q1 * s1 * t1 - p2 * q2 * s2 * t2) as real / (e * f * g * h) as real
         == (p1 as real * q1 as real * s1 as real * t1 as real - p2 as real * q2 as real * s2 as real * t2 as real)
          / (e as real * f as real * g as real * h as real)
  {
    CastDifference(p1, q1, s1, t1, p2, q2, s2, t2);
    RealProduct4(e, f, g, h);
  }

  /** The same for a sum of two four-fold products. */
  lemma CastQuotientOfSum(p1: int, q1: int, s1: int, t1: int, p2: int, q2: int, s2: int, t2: int,
                          e: int, f: int, g: int, h: int)
    requires e * f * g * h != 0
    ensures (p1 * q1 * s1 * t1 + p2 * q2 * s2 * t2) as real / (e * f * g * h) as real
         == (p1 as real * q1 as real * s1 as real * t1 as real + p2 as real * q2 as real * s2 as real * t2 as real)
          / (e as real * f as real * g as real * h as real)
  {
    CastSum(p1, q1, s1, t1, p2, q2, s2, t2);
    RealProduct4(e, f, g, h);
  }

  lemma NonzeroProduct4(p: int, q: int, s: int, t: int)
    requires p != 0 && q != 0 && s != 0 && t != 0
    ensures p * q * s * t != 0
  {
    assert p * q != 0;
    assert p * q * s != 0;
  }

  lemma CastDifference(p1: int, q1: int, s1: int, t1: int, p2: int, q2: int, s2: int, t2: int)
    ensures (p1 * q1 * s1 * t1 - p2 * q2 * s2 * t2) as real
         == p1 as real * q1 as real * s1 as real * t1 as real - p2 as real * q2 as real * s2 as real * t2 as real
  {
    RealProduct4(p1, q1, s1, t1);
    RealProduct4(p2, q2, s2, t2);
  }

  lemma CastSum(p1: int, q1: int, s1: int, t1: int, p2: int, q2: int, s2: int, t2: int)
    ensures (p1 * q1 * s1 * t1 + p2 * q2 * s2 * t2) as real
         == p1 as real * q1 as real * s1 as real * t1 as real + p2 as real * q2 as real * s2 as real * t2 as real
  {
    RealProduct4(p1, q1, s1, t1);
    RealProduct4(p2, q2, s2, t2);
  }

  /** The real part of the product formula, over the reals. */
  lemma ProductRealPart(a1: real, b1: real, c1: real, d1: real, a2: real, b2: real, c2: real, d2: real)
    requires b1 != 0.0 && d1 != 0.0 && b2 != 0.0 && d2 != 0.0
    ensures (a1 * a2 * d1 * d2 - c1 * c2 * b1 * b2) / (b1 * b2 * d1 * d2) == (a1 / b1) * (a2 / b2) - (c1 / d1) * (c2 / d2)
  {
    FractionDifference(a1 * a2 * d1 * d2, c1 * c2 * b1 * b2, b1 * b2 * d1 * d2);
    FractionProduct(a1, b1, a2, b2, d1 * d2);
    FractionProduct(c1, d1, c2, d2, b1 * b2);
  }

  /** The imaginary part of the product formula, over the reals. */
  lemma ProductImaginaryPart(a1: real, b1: real, c1: real, d1: real, a2: real, b2: real, c2: real, d2: real)
    requires b1 != 0.0 && d1 != 0.0 && b2 != 0.0 && d2 != 0.0
    ensures (a1 * c2 * b2 * d1 + a2 * c1 * b1 * d2) / (b1 * b2 * d1 * d2) == (a1 / b1) * (c2 / d2) + (c1 / d1) * (a2 / b2)
  {
    FractionSum(a1 * c2 * b2 * d1, a2 * c1 * b1 * d2, b1 * b2 * d1 * d2);
    FractionProduct(a1, b1, c2, d2, b2 * d1);
    FractionProduct(c1, d1, a2, b2, b1 * d2);
  }

  lemma RealProduct4(p: int, q: int, s: int, t: int)
    ensures (p * q * s * t) as real == p as real * q as real * s as real * t as real
  {
    assert (p * q) as real == p as real * q as real;
    assert (p * q * s) as real == (p * q) as real * s as real;
  }

  /** p/q * s/t, with numerator and denominator both multiplied by a common k. */
  lemma FractionProduct(p: real, q: real, s: real, t: real, k: real)
    requires q != 0.0 && t != 0.0 && k != 0.0
    ensures (p * s * k) / (q * t * k) == (p / q) * (s / t)
  {
    assert (p / q) * (s / t) * (q * t * k) == p * s * k;
  }

  lemma FractionDifference(p: real, s: real, q: real)
    requires q != 0.0
    ensures (p - s) / q == p / q - s / q
  {
  }

  lemma FractionSum(p: real, s: real, q: real)
    requires q != 0.0
    ensures (p + s) / q == p / q + s / q
  {
  }

  /** Multiplying by one gives a1*d1/(b1*d1) + (c1*b1/(b1*d1))i: the same number,
      in a representation that is not reduced. */
  lemma MultiplyByOne(x: Value)
    requires x.ComplexNumber? && WellFormed(x)
    ensures Multiply(x, One) == ComplexNumber(x.a * x.d, x.b * x.d, x.c * x.b, x.b * x.d)
    ensures Re(Multiply(x, One)) == Re(x) && Im(Multiply(x, One)) == Im(x)
  {
    MultiplyMeaning(x, One);
  }

  /** When both operands share the denominators b and d, and gcd(b, b) = b and
      gcd(d, d) = d (as for any b, d > 0), `add` sums the numerators and puts
      both parts over b. */
  lemma AddCommonDenominators(gcd: (int, int) -> int, x: Value, y: Value)
    requires x.ComplexNumber? && y.ComplexNumber? && WellFormed(x)
    requires y.b == x.b && y.d == x.d
    requires gcd(x.b, x.b) == x.b && gcd(x.d, x.d) == x.d
    ensures Add(gcd, x, y) == ComplexNumber(x.a + y.a, x.b, x.c + y.c, x.b)
  {
    var b, d := x.b, x.d;
    TruncDivExact(b, b);
    TruncDivExact(1, b);
    TruncDivExact(d, d);
    TruncDivExact(1, d);
    assert TruncDiv(b * gcd(b, b), b) == b;
    assert TruncDiv(d * gcd(d, d), d) == d;
  }

  /** Under the same conditions the real part of the result is the sum of the
      real parts, while the imaginary part is the sum exactly when b = d or the
      imaginary numerators cancel. */
  lemma AddCommonDenominatorsMeaning(gcd: (int, int) -> int, x: Value, y: Value)
    requires x.ComplexNumber? && y.ComplexNumber? && WellFormed(x)
    requires y.b == x.b && y.d == x.d
    requires gcd(x.b, x.b) == x.b && gcd(x.d, x.d) == x.d
    ensures WellFormed(Add(gcd, x, y))
    ensures Re(Add(gcd, x, y)) == Re(x) + Re(y)
    ensures Im(Add(gcd, x, y)) == Im(x) + Im(y) <==> x.b == x.d || x.c + y.c == 0
  {
    AddCommonDenominators(gcd, x, y);
    var r := Add(gcd, x, y);
    var b, d := x.b as real, x.d as real;
    assert r.a as real == x.a as real + y.a as real;
    assert r.c as real == x.c as real + y.c as real;
    FractionSum(x.a as real, y.a as real, b);
    FractionSum(x.c as real, y.c as real, d);
    SameNumeratorQuotients((x.c + y.c) as real, b, d);
  }

  /** More generally, the real part is the sum whenever the computed real
      denominator b1 * gcd(b1, b2) / b2 is a non-zero common multiple
      k1 * b1 = k2 * b2 of both real denominators. */
  lemma AddRealPartOverCommonMultiple(gcd: (int, int) -> int, x: Value, y: Value, k1: int, k2: int)
    requires x.ComplexNumber? && y.ComplexNumber? && WellFormed(x) && WellFormed(y)
    requires TruncDiv(x.b * gcd(x.b, y.b), y.b) == k1 * x.b == k2 * y.b != 0
    ensures WellFormed(Add(gcd, x, y))
    ensures Re(Add(gcd, x, y)) == Re(x) + Re(y)
  {
    AddOverCommonMultiple(gcd, x, y, k1, k2);
    SumOverCommonMultipleOfInts(x.a, x.b, y.a, y.b, k1, k2);
  }

  /** The integer components of the real part in that case. */
  lemma AddOverCommonMultiple(gcd: (int, int) -> int, x: Value, y: Value, k1: int, k2: int)
    requires x.ComplexNumber? && y.ComplexNumber? && WellFormed(x) && WellFormed(y)
    requires TruncDiv(x.b * gcd(x.b, y.b), y.b) == k1 * x.b == k2 * y.b != 0
    ensures Add(gcd, x, y).a == x.a * k1 + y.a * k2 && Add(gcd, x, y).b == k1 * x.b
  {
    TruncDivExact(k1, x.b);
    TruncDivExact(k2, y.b);
  }

  lemma SumOverCommonMultipleOfInts(a1: int, b1: int, a2: int, b2: int, k1: int, k2: int)
    requires b1 != 0 && b2 != 0 && k1 * b1 == k2 * b2 != 0
    ensures (a1 * k1 + a2 * k2) as real / (k1 * b1) as real == a1 as real / b1 as real + a2 as real / b2 as real
  {
    var l := (k1 * b1) as real;
    assert (a1 * k1 + a2 * k2) as real == a1 as real * k1 as real + a2 as real * k2 as real;
    assert l == k1 as real * b1 as real && l == k2 as real * b2 as real;
    SumOverCommonMultiple(a1 as real, b1 as real, a2 as real, b2 as real, k1 as real, k2 as real, l);
  }

  /** For instance, when b2 divides b1 and gcd(b1, b2) = b2, the real
      denominator is b1 and the real part is the sum. */
  lemma AddRealPartWhenDenominatorDivides(gcd: (int, int) -> int, x: Value, y: Value, k: int)
    requires x.ComplexNumber? && y.ComplexNumber? && WellFormed(x) && WellFormed(y)
    requires x.b == k * y.b && gcd(x.b, y.b) == y.b
    ensures Add(gcd, x, y).b == x.b
    ensures Re(Add(gcd, x, y)) == Re(x) + Re(y)
  {
    TruncDivExact(x.b, y.b);
    assert TruncDiv(x.b * gcd(x.b, y.b), y.b) == 1 * x.b;
    AddRealPartOverCommonMultiple(gcd, x, y, 1, k);
  }

  lemma SumOverCommonMultiple(a1: real, b1: real, a2: real, b2: real, k1: real, k2: real, l: real)
    requires b1 != 0.0 && b2 != 0.0 && l != 0.0 && l == k1 * b1 && l == k2 * b2
    ensures (a1 * k1 + a2 * k2) / l == a1 / b1 + a2 / b2
  {
    FractionSum(a1 * k1, a2 * k2, l);
    assert (a1 * k1) / l == a1 / b1 by {
      assert (a1 / b1) * l == a1 * k1;
    }
    assert (a2 * k2) / l == a2 / b2 by {
      assert (a2 / b2) * l == a2 * k2;
    }
  }

  lemma SameNumeratorQuotients(s: real, b: real, d: real)
    requires b != 0.0 && d != 0.0
    ensures s / b == s / d <==> b == d || s == 0.0
  {
    if s / b == s / d && s != 0.0 {
      assert s * d == (s / b) * b * d;
      assert s * b == (s / d) * d * b;
    }
  }

  /** Pins the truncated "lcm": with gcd(2, 3) = 1, 1/2 + 1/3 gets the real
      denominator 2*1/3 = 0, so the result has a zero denominator instead of 5/6. */
  lemma AddTruncatesDenominator(gcd: (int, int) -> int)
    requires gcd(2, 3) == 1
    ensures Add(gcd, ComplexNumber(1, 2, 0, 1), ComplexNumber(1, 3, 0, 1)) == ComplexNumber(0, 0, 0, 0)
    ensures !WellFormed(Add(gcd, ComplexNumber(1, 2, 0, 1), ComplexNumber(1, 3, 0, 1)))
  {
  }

  /** Pins the imaginary denominator: (1/2)i + (1/2)i gives 0/1 + (2/1)i, because
      the numerators are scaled to the imaginary denominator 2 but divided by
      the real one, 1. */
  lemma AddImaginaryOverRealDenominator(gcd: (int, int) -> int)
    requires gcd(1, 1) == 1 && gcd(2, 2) == 2
    ensures Add(gcd, ComplexNumber(0, 1, 1, 2), ComplexNumber(0, 1, 1, 2)) == ComplexNumber(0, 1, 2, 1)
    ensures Im(Add(gcd, ComplexNumber(0, 1, 1, 2), ComplexNumber(0, 1, 1, 2))) != 1.0
  {
  }
}
