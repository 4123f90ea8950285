/**
  RationalNum of include/bwsl/RationalNum.hpp: a numerator and a denominator
  kept divided by their gcd, ordered by cross-multiplication, with the four
  arithmetic operators (also against a plain integer on either side) and a
  `num//den` text form.

  get_gcd is computed with C++'s truncating `%`, so its sign follows the
  arguments and Simplify can leave a negative denominator; cross-multiplication
  then orders such a value the wrong way round. Both the constructor as
  written (SimplifyAsWritten) and one that moves the sign to the numerator
  (Make) are modelled, and so are both versions of each arithmetic operator:
  AddAsWritten and its kin build the source's pair, Add and its kin the same
  pair with its sign moved to the numerator.
*/
module RationalNum {
  import opened MathUtils
  import opened Wrappers
  import RelationalUtils

  datatype Rational = Rational(num: int, den: int)
  {
    /** The number the pair stands for. */
    function Value(): real
      requires den != 0
    {
      num as real / den as real
    }

    /** Positive denominator and no common factor other than 1 and -1. */
    ghost predicate Normal()
    {
      den > 0 && Coprime(num, den)
    }
  }

  /** The default-constructed value 0//1. */
  const Zero := Rational(0, 1)

  ghost predicate Coprime(a: int, b: int)
  {
    forall d :: Divides(d, a) && Divides(d, b) ==> Abs(d) == 1
  }

  // ---------------------------------------------------------------------------
  // Real arithmetic on quotients
  // ---------------------------------------------------------------------------

  /** Two fractions with the same cross products have the same value. */
  lemma SameRatio(a: int, b: int, c: int, d: int)
    requires b != 0 && d != 0 && a * d == c * b
    ensures a as real / b as real == c as real / d as real
  {
    var x, y := a as real / b as real, c as real / d as real;
    assert a as real == x * b as real;
    assert c as real == y * d as real;
    assert (a * d) as real == a as real * d as real;
    assert (c * b) as real == c as real * b as real;
    assert x * (b as real * d as real) == y * (b as real * d as real);
  }

  lemma QuotientSum(x: int, p: int, y: int, q: int)
    requires p != 0 && q != 0
    ensures (x * q + y * p) as real / (p * q) as real == x as real / p as real + y as real / q as real
  {
    var u, v := x as real / p as real, y as real / q as real;
    assert x as real == u * p as real && y as real == v * q as real;
    assert (x * q + y * p) as real == (u + v) * (p as real * q as real);
    assert (p * q) as real == p as real * q as real;
  }

  lemma QuotientProduct(x: int, p: int, y: int, q: int)
    requires p != 0 && q != 0
    ensures (x * y) as real / (p * q) as real == (x as real / p as real) * (y as real / q as real)
  {
    var u, v := x as real / p as real, y as real / q as real;
    assert x as real == u * p as real && y as real == v * q as real;
    assert (x * y) as real == (u * v) * (p as real * q as real);
    assert (p * q) as real == p as real * q as real;
  }

  lemma QuotientQuotient(x: int, p: int, y: int, q: int)
    requires p != 0 && q != 0 && y != 0
    ensures (x * q) as real / (y * p) as real == (x as real / p as real) / (y as real / q as real)
  {
    var u, v := x as real / p as real, y as real / q as real;
    assert x as real == u * p as real && y as real == v * q as real;
    assert v != 0.0;
    assert (x * q) as real == u * (p as real * q as real);
    assert (y * p) as real == v * (p as real * q as real);
  }

  lemma QuotientDifference(x: int, p: int, y: int, q: int)
    requires p != 0 && q != 0
    ensures (x * q - y * p) as real / (p * q) as real == x as real / p as real - y as real / q as real
  {
    var u, v := x as real / p as real, y as real / q as real;
    assert x as real == u * p as real && y as real == v * q as real;
    assert (x * q - y * p) as real == (u - v) * (p as real * q as real);
    assert (p * q) as real == p as real * q as real;
  }

  lemma QuotientScaled(x: int, p: int, k: int)
    requires p != 0 && k != 0
    ensures x as real / (p * k) as real == (x as real / p as real) / k as real
  {
    var u := x as real / p as real;
    assert x as real == u * p as real;
    assert x as real == (u / k as real) * (p as real * k as real);
    assert (p * k) as real == p as real * k as real;
  }

  lemma QuotientLess(x: int, p: int, y: int, q: int)
    requires p > 0 && q > 0
    ensures x * q < y * p <==> x as real / p as real < y as real / q as real
  {
    var u, v := x as real / p as real, y as real / q as real;
    assert x as real == u * p as real && y as real == v * q as real;
    assert (x * q) as real == u * (p as real * q as real);
    assert (y * p) as real == v * (p as real * q as real);
    assert p as real * q as real > 0.0;
  }

  // ---------------------------------------------------------------------------
  // Construction: Simplify
  // ---------------------------------------------------------------------------

  /** A divisor divides exactly: the truncated quotient times the divisor. */
  lemma ExactQuotient(x: int, s: int)
    requires Divides(s, x)
    ensures TDiv(x, s) * s == x
  {
    var e := x / s;
    assert x == e * s;
    DivExactTruncated(e, s);
  }

  /** Dividing two numbers by their gcd leaves two numbers without a common
      factor. */
  lemma CoprimeQuotients(x: int, y: int, g: int, qx: int, qy: int)
    requires g != 0 && g == Gcd(x, y) && x == qx * g && y == qy * g
    ensures Coprime(qx, qy)
  {
    forall d | Divides(d, qx) && Divides(d, qy) ensures Abs(d) == 1
    {
      DividesScaled(d, qx, g);
      DividesScaled(d, qy, g);
      GcdGreatest(x, y, d * g);
      UnitFromDivides(d, g);
    }
  }

  lemma DividesScaled(d: int, q: int, g: int)
    requires Divides(d, q) && g != 0
    ensures Divides(d * g, q * g)
  {
    var k := q / d;
    assert q == k * d;
    assert q * g == k * (d * g) by {
      assert q * g == (k * d) * g;
    }
    MulMod(d * g, k);
  }

  lemma UnitFromDivides(d: int, g: int)
    requires g != 0 && Divides(d * g, g)
    ensures Abs(d) == 1
  {
    var m := g / (d * g);
    assert g == m * (d * g);
    assert (m * d) * g == 1 * g;
    assert m * d == 1;
    MulAbsLower(m, d);
  }

  /** The numbers dividing x are those dividing -x. */
  lemma DividesNegated(d: int, x: int)
    ensures Divides(d, x) <==> Divides(d, -x)
  {
    if d != 0 {
      if x % d == 0 {
        var e := x / d;
        assert -x == (-e) * d;
        MulMod(d, -e);
      }
      if (-x) % d == 0 {
        var e := (-x) / d;
        assert x == (-e) * d;
        MulMod(d, -e);
      }
    }
  }

  /** The two-argument constructor as written: both terms divided by
      get_gcd(num, den). The result has the same ratio and no common factor,
      but its denominator may be negative. */
  function SimplifyAsWritten(num: int, den: int): (r: Rational)
    requires num != 0 || den != 0
    ensures r.num * den == num * r.den
    ensures Coprime(r.num, r.den)
    ensures den != 0 ==> r.den != 0
  {
    var g := Gcd(num, den);
    SimplifyFacts(num, den);
    Rational(TDiv(num, g), TDiv(den, g))
  }

  lemma SimplifyFacts(num: int, den: int)
    requires num != 0 || den != 0
    ensures Gcd(num, den) != 0
    ensures var g := Gcd(num, den);
      var qn, qd := TDiv(num, g), TDiv(den, g);
      qn * den == num * qd && Coprime(qn, qd) && (den != 0 ==> qd != 0)
  {
    var g := Gcd(num, den);
    GcdDivides(num, den);
    ExactQuotient(num, g);
    ExactQuotient(den, g);
    var qn, qd := TDiv(num, g), TDiv(den, g);
    CrossOfQuotients(qn, qd, g);
    CoprimeQuotients(num, den, g, qn, qd);
  }

  lemma CrossOfQuotients(qn: int, qd: int, g: int)
    ensures qn * (qd * g) == (qn * g) * qd
  {
  }

  /** The constructor with the sign moved to the numerator: the result is in
      normal form and has the value num / den. */
  function Make(num: int, den: int): (r: Rational)
    requires den != 0
    ensures r.Normal()
    ensures r.num * den == num * r.den
    ensures r.Value() == num as real / den as real
  {
    var s := SimplifyAsWritten(num, den);
    SignFix(s, num, den);
    SameRatio(SignFixed(s).num, SignFixed(s).den, num, den);
    SignFixed(s)
  }

  /** A pair with its sign moved to the numerator. */
  function SignFixed(s: Rational): Rational
  {
    if s.den < 0 then Rational(-s.num, -s.den) else s
  }

  /** Flipping both signs of a simplified pair with a negative denominator
      keeps it simplified and keeps its ratio. */
  lemma SignFix(s: Rational, num: int, den: int)
    requires s.den != 0 && Coprime(s.num, s.den) && s.num * den == num * s.den
    ensures SignFixed(s).Normal() && SignFixed(s).num * den == num * SignFixed(s).den
  {
    if s.den < 0 {
      var r := Rational(-s.num, -s.den);
      forall d | Divides(d, r.num) && Divides(d, r.den) ensures Abs(d) == 1 {
        DividesNegated(d, s.num);
        DividesNegated(d, s.den);
      }
      assert (-s.num) * den == -(s.num * den);
      assert num * (-s.den) == -(num * s.den);
    }
  }

  // ---------------------------------------------------------------------------
  // Normal form is canonical
  // ---------------------------------------------------------------------------

  /** Euclid's lemma: a number without common factors with q that divides
      q * m divides m. */
  lemma CoprimeDivides(p: int, q: int, m: int)
    requires Coprime(p, q) && Divides(p, q * m)
    ensures Divides(p, m)
  {
    var g := Gcd(p, q);
    GcdDivides(p, q);
    assert Abs(g) == 1;
    var x, y := Bezout(p, q);
    MulMod(p, m * x);
    DividesLinear(p, (m * x) * p, q * m, y);
    Distribute(m, p, q, x, y);
    assert (m * x) * p + y * (q * m) == m * g;
    DividesLinear(p, 0, m * g, g);
    assert g * (m * g) == m by {
      if g == 1 { } else { assert g == -1; }
    }
  }

  lemma Distribute(m: int, p: int, q: int, x: int, y: int)
    ensures m * (p * x + q * y) == (m * x) * p + y * (q * m)
  {
  }

  /** A positive divisor of a positive number is at most that number. */
  lemma DividesLe(d: int, x: int)
    requires d > 0 && x > 0 && Divides(d, x)
    ensures d <= x
  {
    var e := x / d;
    assert x == e * d;
    if e <= 0 {
      MulLe(e, 0, d);
    }
    MulLe(1, e, d);
  }

  /** Every divisor of 1 or -1 is 1 or -1. */
  lemma UnitDivisor(d: int, g: int)
    requires Abs(g) == 1 && Divides(d, g)
    ensures Abs(d) == 1
  {
    var e := g / d;
    assert g == e * d;
    assert e != 0;
    MulAbsLower(e, d);
  }

  /** Two numbers with an integer combination equal to 1 have no common
      factor other than 1 and -1. */
  lemma CoprimeOfCombination(a: int, b: int, x: int, y: int)
    requires a * x + b * y == 1
    ensures Coprime(a, b)
  {
    forall d | Divides(d, a) && Divides(d, b) ensures Abs(d) == 1 {
      DividesLinear(d, 0, a, x);
      DividesLinear(d, x * a, b, y);
      assert x * a + y * b == 1;
      UnitDivisor(d, 1);
    }
  }

  lemma CrossFromRatio(a: int, b: int, c: int, d: int)
    requires b != 0 && d != 0 && a as real / b as real == c as real / d as real
    ensures a * d == c * b
  {
    var v := a as real / b as real;
    assert a as real == v * b as real && c as real == v * d as real;
    assert (a * d) as real == v * (b as real * d as real);
    assert (c * b) as real == v * (b as real * d as real);
  }

  /** A rational in normal form is determined by its value. */
  lemma NormalUnique(a: Rational, b: Rational)
    requires a.Normal() && b.Normal() && a.Value() == b.Value()
    ensures a == b
  {
    CrossFromRatio(a.num, a.den, b.num, b.den);
    MulMod(a.den, b.num);
    CoprimeDivides(a.den, a.num, b.den);
    MulMod(b.den, a.num);
    CoprimeDivides(b.den, b.num, a.den);
    DividesLe(a.den, b.den);
    DividesLe(b.den, a.den);
    ScaledLess(a.num, b.num, a.den);
    ScaledLess(b.num, a.num, a.den);
  }

  /** Two constructions give the same stored pair exactly when their
      arguments have the same ratio: the constructor is canonical. */
  lemma MakeEqualIff(n1: int, d1: int, n2: int, d2: int)
    requires d1 != 0 && d2 != 0
    ensures Make(n1, d1) == Make(n2, d2) <==> n1 * d2 == n2 * d1
  {
    if n1 * d2 == n2 * d1 {
      SameRatio(n1, d1, n2, d2);
      NormalUnique(Make(n1, d1), Make(n2, d2));
    }
    if Make(n1, d1) == Make(n2, d2) {
      CrossFromRatio(n1, d1, n2, d2);
    }
  }

  /** A normal rational with the value n / d, where n and d have no common
      factor (witnessed by n * x + d * y == 1), is n//d. */
  lemma Canonical(r: Rational, n: int, d: int, x: int, y: int)
    requires r.Normal() && d > 0 && n * x + d * y == 1
    requires r.Value() == n as real / d as real
    ensures r == Rational(n, d)
  {
    CoprimeOfCombination(n, d, x, y);
    NormalUnique(r, Rational(n, d));
  }

  /** A negative fraction, -34//9 (the difference 5/9 - 13/3 of the tests),
      is stored as 34//-9: get_gcd(-34, 9) is -1. Cross-multiplication then
      finds it greater than 0//1. Make stores -34//9, which compares less. */
  lemma NegativeDenominatorCounterexample()
    ensures SimplifyAsWritten(-34, 9) == Rational(34, -9)
    ensures SimplifyAsWritten(-34, 9).Value() < 0.0
    ensures Less(Zero, SimplifyAsWritten(-34, 9))
    ensures Make(-34, 9) == Rational(-34, 9)
    ensures !Less(Zero, Make(-34, 9)) && Less(Make(-34, 9), Zero)
  {
    assert TRem(-34, 9) == -7;
    assert TRem(9, -7) == 2;
    assert TRem(-7, 2) == -1;
    assert TRem(2, -1) == 0;
    assert Gcd(-34, 9) == -1;
    assert TDiv(-34, -1) == 34 && TDiv(9, -1) == -9;
  }

  // ---------------------------------------------------------------------------
  // Comparison
  // ---------------------------------------------------------------------------

  /** operator< between rationals: cross-multiplication. */
  predicate Less(a: Rational, b: Rational)
  {
    a.num * b.den < b.num * a.den
  }

  /** With positive denominators cross-multiplication orders by value. */
  lemma LessIsValueOrder(a: Rational, b: Rational)
    requires a.den > 0 && b.den > 0
    ensures Less(a, b) <==> a.Value() < b.Value()
  {
    QuotientLess(a.num, a.den, b.num, b.den);
  }

  /** The derived `==` of two rationals with positive denominators holds
      exactly when their values are equal, and `<=` when the first value is
      at most the second. */
  lemma DerivedComparisons(a: Rational, b: Rational)
    requires a.den > 0 && b.den > 0
    ensures RelationalUtils.Eq(Less, Less, a, b) <==> a.Value() == b.Value()
    ensures RelationalUtils.Le(Less, Less, a, b) <==> a.Value() <= b.Value()
    ensures RelationalUtils.Ge(Less, Less, a, b) <==> a.Value() >= b.Value()
  {
    LessIsValueOrder(a, b);
    LessIsValueOrder(b, a);
  }

  /** operator<(rational, integer) as written: the truncated quotient
      num / den is compared with the integer. */
  predicate LessIntAsWritten(a: Rational, k: int)
    requires a.den != 0
  {
    TDiv(a.num, a.den) < k
  }

  /** operator<(integer, rational) as written. */
  predicate IntLessAsWritten(k: int, a: Rational)
    requires a.den != 0
  {
    k < TDiv(a.num, a.den)
  }

  /** Truncation makes 1//2 equal to 0 under the derived `==`, and -1//2 not
      less than 0. */
  lemma TruncatedComparisonCounterexample()
    ensures Rational(1, 2).Value() == 0.5
    ensures !LessIntAsWritten(Rational(1, 2), 0) && !IntLessAsWritten(0, Rational(1, 2))
    ensures Rational(-1, 2).Value() < 0.0 && !LessIntAsWritten(Rational(-1, 2), 0)
    ensures !LessInt(Rational(1, 2), 0) && IntLess(0, Rational(1, 2))
    ensures LessInt(Rational(-1, 2), 0)
  {
    assert TDiv(1, 2) == 0 && TDiv(-1, 2) == 0;
    LessIntIsValueOrder(Rational(1, 2), 0);
    LessIntIsValueOrder(Rational(-1, 2), 0);
  }

  /** operator<(rational, integer) comparing the value: num < k * den. */
  predicate LessInt(a: Rational, k: int)
  {
    a.num < k * a.den
  }

  /** operator<(integer, rational) comparing the value: k * den < num. */
  predicate IntLess(k: int, a: Rational)
  {
    k * a.den < a.num
  }

  /** With a positive denominator the corrected mixed comparisons order by
      value. */
  lemma LessIntIsValueOrder(a: Rational, k: int)
    requires a.den > 0
    ensures LessInt(a, k) <==> a.Value() < k as real
    ensures IntLess(k, a) <==> (k as real) < a.Value()
  {
    QuotientLess(a.num, a.den, k, 1);
    QuotientLess(k, 1, a.num, a.den);
  }

  /** On an integer-valued rational the truncated comparison is exact, so
      the source agrees with the value order there. */
  lemma TruncatedComparisonOnIntegers(a: Rational, k: int)
    requires a.den > 0 && IsInt(a)
    ensures LessIntAsWritten(a, k) <==> LessInt(a, k)
    ensures IntLessAsWritten(k, a) <==> IntLess(k, a)
  {
    var q := TDiv(a.num, a.den);
    TRemZeroIff(a.num, a.den);
    ExactQuotient(a.num, a.den);
    assert a.num == q * a.den;
    ScaledLess(q, k, a.den);
    ScaledLess(k, q, a.den);
  }

  /** Multiplying both sides by a positive factor keeps a strict order. */
  lemma ScaledLess(x: int, y: int, w: int)
    requires w > 0
    ensures x < y <==> x * w < y * w
  {
    if x < y {
      MulLe(x + 1, y, w);
    } else {
      MulLe(y, x, w);
    }
  }

  /** IsInt: the denominator divides the numerator. */
  predicate IsInt(a: Rational)
    requires a.den != 0
  {
    TRem(a.num, a.den) == 0
  }

  /** IsInt holds exactly when the value is an integer. */
  lemma IsIntIffIntegerValue(a: Rational, k: int)
    requires a.den != 0
    ensures IsInt(a) <==> Divides(a.den, a.num)
    ensures IsInt(a) ==> a.Value() == TDiv(a.num, a.den) as real
    ensures a.Value() == k as real ==> IsInt(a)
  {
    TRemZeroIff(a.num, a.den);
    if IsInt(a) {
      ExactQuotient(a.num, a.den);
      SameRatio(a.num, a.den, TDiv(a.num, a.den), 1);
    }
    if a.Value() == k as real {
      assert a.num as real == k as real * a.den as real;
      assert a.num == k * a.den;
      MulMod(a.den, k);
      TRemZeroIff(a.num, a.den);
    }
  }

  // ---------------------------------------------------------------------------
  // Arithmetic
  // ---------------------------------------------------------------------------

  lemma MulNonzero(x: int, y: int)
    requires x != 0 && y != 0
    ensures x * y != 0
  {
    MulAbsLower(x, y);
  }

  /** The value of the product of two fractions, on Rational pairs. */
  lemma ProductValue(a: Rational, b: Rational)
    requires a.den != 0 && b.den != 0
    ensures a.den * b.den != 0
    ensures (a.num * b.num) as real / (a.den * b.den) as real == a.Value() * b.Value()
  {
    MulNonzero(a.den, b.den);
    QuotientProduct(a.num, a.den, b.num, b.den);
  }

  /** The value of a fraction times an integer, on Rational pairs. */
  lemma ScaledValue(a: Rational, k: int)
    requires a.den != 0
    ensures (a.num * k) as real / a.den as real == a.Value() * k as real
  {
    QuotientProduct(a.num, a.den, k, 1);
    assert a.den * 1 == a.den;
  }

  /** The two-argument constructor as written keeps the value num / den. */
  lemma SimplifyValue(num: int, den: int)
    requires den != 0
    ensures SimplifyAsWritten(num, den).den != 0
    ensures SimplifyAsWritten(num, den).Value() == num as real / den as real
  {
    var s := SimplifyAsWritten(num, den);
    SameRatio(s.num, s.den, num, den);
  }

  /** Moving the sign of a simplified pair of value v to the numerator gives
      the normal form of v, and leaves a positive denominator alone. */
  lemma SignFixedNormal(s: Rational, v: real)
    requires s.den != 0 && Coprime(s.num, s.den) && s.Value() == v
    ensures SignFixed(s).Normal() && SignFixed(s).Value() == v
    ensures s.den > 0 ==> SignFixed(s) == s
  {
    SignFix(s, s.num, s.den);
    SameRatio(SignFixed(s).num, SignFixed(s).den, s.num, s.den);
  }

  /** operator+ as written: the cross products through the constructor as
      written. The pair is simplified and has the sum as its value, but its
      denominator may be negative. */
  function AddAsWritten(a: Rational, b: Rational): (r: Rational)
    requires a.den != 0 && b.den != 0
    ensures r.den != 0 && Coprime(r.num, r.den) && r.Value() == a.Value() + b.Value()
  {
    MulNonzero(a.den, b.den);
    QuotientSum(a.num, a.den, b.num, b.den);
    SimplifyValue(a.num * b.den + b.num * a.den, a.den * b.den);
    SimplifyAsWritten(a.num * b.den + b.num * a.den, a.den * b.den)
  }

  /** operator- as written. */
  function SubAsWritten(a: Rational, b: Rational): (r: Rational)
    requires a.den != 0 && b.den != 0
    ensures r.den != 0 && Coprime(r.num, r.den) && r.Value() == a.Value() - b.Value()
  {
    MulNonzero(a.den, b.den);
    QuotientDifference(a.num, a.den, b.num, b.den);
    SimplifyValue(a.num * b.den - b.num * a.den, a.den * b.den);
    SimplifyAsWritten(a.num * b.den - b.num * a.den, a.den * b.den)
  }

  /** operator* as written. */
  function MulAsWritten(a: Rational, b: Rational): (r: Rational)
    requires a.den != 0 && b.den != 0
    ensures r.den != 0 && Coprime(r.num, r.den) && r.Value() == a.Value() * b.Value()
  {
    ProductValue(a, b);
    SimplifyValue(a.num * b.num, a.den * b.den);
    SimplifyAsWritten(a.num * b.num, a.den * b.den)
  }

  /** operator/ as written; a zero numerator in the divisor is left out. */
  function DivAsWritten(a: Rational, b: Rational): (r: Rational)
    requires a.den != 0 && b.den != 0 && b.num != 0
    ensures r.den != 0 && Coprime(r.num, r.den) && r.Value() == a.Value() / b.Value()
  {
    MulNonzero(b.num, a.den);
    QuotientQuotient(a.num, a.den, b.num, b.den);
    SimplifyValue(a.num * b.den, b.num * a.den);
    SimplifyAsWritten(a.num * b.den, b.num * a.den)
  }

  /** operator+(rational, integer) as written: (num + k * den) // den. */
  function AddIntAsWritten(a: Rational, k: int): (r: Rational)
    requires a.den != 0
    ensures r.den != 0 && Coprime(r.num, r.den) && r.Value() == a.Value() + k as real
  {
    QuotientSum(a.num, a.den, k, 1);
    SimplifyValue(a.num + k * a.den, a.den);
    SimplifyAsWritten(a.num + k * a.den, a.den)
  }

  /** operator-(rational, integer) as written: (num - k * den) // den. */
  function SubIntAsWritten(a: Rational, k: int): (r: Rational)
    requires a.den != 0
    ensures r.den != 0 && Coprime(r.num, r.den) && r.Value() == a.Value() - k as real
  {
    QuotientDifference(a.num, a.den, k, 1);
    assert a.den * 1 == a.den && a.num * 1 == a.num;
    SimplifyValue(a.num - k * a.den, a.den);
    SimplifyAsWritten(a.num - k * a.den, a.den)
  }

  /** operator/(rational, integer) as written: num // (den * k). */
  function DivIntAsWritten(a: Rational, k: int): (r: Rational)
    requires a.den != 0 && k != 0
    ensures r.den != 0 && Coprime(r.num, r.den) && r.Value() == a.Value() / k as real
  {
    MulNonzero(a.den, k);
    QuotientScaled(a.num, a.den, k);
    SimplifyValue(a.num, a.den * k);
    SimplifyAsWritten(a.num, a.den * k)
  }

  /** operator*(rational, integer) as written: (num * k) // den. */
  function MulIntAsWritten(a: Rational, k: int): (r: Rational)
    requires a.den != 0
    ensures r.den != 0 && Coprime(r.num, r.den) && r.Value() == a.Value() * k as real
  {
    ScaledValue(a, k);
    SimplifyValue(a.num * k, a.den);
    SimplifyAsWritten(a.num * k, a.den)
  }

  /** operator-(integer, rational) as written: (k * den - num) // den. */
  function IntSubAsWritten(k: int, a: Rational): (r: Rational)
    requires a.den != 0
    ensures r.den != 0 && Coprime(r.num, r.den) && r.Value() == k as real - a.Value()
  {
    QuotientSum(k, 1, -a.num, a.den);
    assert (-a.num) as real / a.den as real == -a.Value();
    SimplifyValue(k * a.den - a.num, a.den);
    SimplifyAsWritten(k * a.den - a.num, a.den)
  }

  /** operator/(integer, rational) as written: (k * den) // num. */
  function IntDivAsWritten(k: int, a: Rational): (r: Rational)
    requires a.den != 0 && a.num != 0
    ensures r.den != 0 && Coprime(r.num, r.den) && r.Value() == k as real / a.Value()
  {
    QuotientQuotient(k, 1, a.num, a.den);
    assert a.num * 1 == a.num;
    SimplifyValue(k * a.den, a.num);
    SimplifyAsWritten(k * a.den, a.num)
  }

  // The corrected operators: the pair the source builds with its sign moved
  // to the numerator, which is the normal form of the result
  // (CorrectedIsSignFixed).

  /** operator+ */
  function Add(a: Rational, b: Rational): (r: Rational)
    requires a.den != 0 && b.den != 0
    ensures r.Normal() && r.Value() == a.Value() + b.Value()
  {
    MulNonzero(a.den, b.den);
    QuotientSum(a.num, a.den, b.num, b.den);
    Make(a.num * b.den + b.num * a.den, a.den * b.den)
  }

  /** operator- */
  function Sub(a: Rational, b: Rational): (r: Rational)
    requires a.den != 0 && b.den != 0
    ensures r.Normal() && r.Value() == a.Value() - b.Value()
  {
    MulNonzero(a.den, b.den);
    QuotientDifference(a.num, a.den, b.num, b.den);
    Make(a.num * b.den - b.num * a.den, a.den * b.den)
  }

  /** operator* */
  function Mul(a: Rational, b: Rational): (r: Rational)
    requires a.den != 0 && b.den != 0
    ensures r.Normal() && r.Value() == a.Value() * b.Value()
  {
    ProductValue(a, b);
    Make(a.num * b.num, a.den * b.den)
  }

  /** operator/; a zero numerator in the divisor is left out. */
  function Div(a: Rational, b: Rational): (r: Rational)
    requires a.den != 0 && b.den != 0 && b.num != 0
    ensures r.Normal() && r.Value() == a.Value() / b.Value()
  {
    MulNonzero(b.num, a.den);
    QuotientQuotient(a.num, a.den, b.num, b.den);
    Make(a.num * b.den, b.num * a.den)
  }

  /** operator+(rational, integer) */
  function AddInt(a: Rational, k: int): (r: Rational)
    requires a.den != 0
    ensures r.Normal() && r.Value() == a.Value() + k as real
  {
    QuotientSum(a.num, a.den, k, 1);
    Make(a.num + k * a.den, a.den)
  }

  /** operator-(rational, integer) */
  function SubInt(a: Rational, k: int): (r: Rational)
    requires a.den != 0
    ensures r.Normal() && r.Value() == a.Value() - k as real
  {
    QuotientDifference(a.num, a.den, k, 1);
    assert a.den * 1 == a.den && a.num * 1 == a.num;
    Make(a.num - k * a.den, a.den)
  }

  /** operator/(rational, integer) */
  function DivInt(a: Rational, k: int): (r: Rational)
    requires a.den != 0 && k != 0
    ensures r.Normal() && r.Value() == a.Value() / k as real
  {
    MulNonzero(a.den, k);
    QuotientScaled(a.num, a.den, k);
    Make(a.num, a.den * k)
  }

  /** operator*(rational, integer) */
  function MulInt(a: Rational, k: int): (r: Rational)
    requires a.den != 0
    ensures r.Normal() && r.Value() == a.Value() * k as real
  {
    ScaledValue(a, k);
    Make(a.num * k, a.den)
  }

  /** operator+(integer, rational): the operands swapped, in the source too. */
  function IntAdd(k: int, a: Rational): (r: Rational)
    requires a.den != 0
    ensures r.Normal() && r.Value() == k as real + a.Value()
  {
    AddInt(a, k)
  }

  /** operator-(integer, rational) */
  function IntSub(k: int, a: Rational): (r: Rational)
    requires a.den != 0
    ensures r.Normal() && r.Value() == k as real - a.Value()
  {
    QuotientSum(k, 1, -a.num, a.den);
    assert (-a.num) as real / a.den as real == -a.Value();
    Make(k * a.den - a.num, a.den)
  }

  /** operator*(integer, rational): the operands swapped, in the source too. */
  function IntMul(k: int, a: Rational): (r: Rational)
    requires a.den != 0
    ensures r.Normal() && r.Value() == k as real * a.Value()
  {
    MulInt(a, k)
  }

  /** operator/(integer, rational) */
  function IntDiv(k: int, a: Rational): (r: Rational)
    requires a.den != 0 && a.num != 0
    ensures r.Normal() && r.Value() == k as real / a.Value()
  {
    QuotientQuotient(k, 1, a.num, a.den);
    assert a.num * 1 == a.num;
    Make(k * a.den, a.num)
  }

  /** Each corrected operator is its as-written counterpart with the sign
      moved to the numerator (by SignFixedNormal, the same pair wherever the
      as-written denominator is already positive). */
  lemma CorrectedIsSignFixed(a: Rational, b: Rational, k: int)
    requires a.den != 0 && b.den != 0
    ensures Add(a, b) == SignFixed(AddAsWritten(a, b))
    ensures Sub(a, b) == SignFixed(SubAsWritten(a, b))
    ensures Mul(a, b) == SignFixed(MulAsWritten(a, b))
    ensures b.num != 0 ==> Div(a, b) == SignFixed(DivAsWritten(a, b))
    ensures AddInt(a, k) == SignFixed(AddIntAsWritten(a, k))
    ensures SubInt(a, k) == SignFixed(SubIntAsWritten(a, k))
    ensures k != 0 ==> DivInt(a, k) == SignFixed(DivIntAsWritten(a, k))
    ensures MulInt(a, k) == SignFixed(MulIntAsWritten(a, k))
    ensures IntSub(k, a) == SignFixed(IntSubAsWritten(k, a))
    ensures a.num != 0 ==> IntDiv(k, a) == SignFixed(IntDivAsWritten(k, a))
  {
  }

  /** Multiplication commutes on the stored pair, not only on the value. */
  lemma MulCommutes(a: Rational, b: Rational)
    requires a.den != 0 && b.den != 0
    ensures Mul(a, b) == Mul(b, a)
  {
    assert a.num * b.num == b.num * a.num && a.den * b.den == b.den * a.den;
  }

  // ---------------------------------------------------------------------------
  // The values of the tests
  // ---------------------------------------------------------------------------

  /** 5//7 is less than 10//11 under every derived operator. */
  lemma RelationalExample()
    ensures Make(5, 7) == Rational(5, 7) && Make(10, 11) == Rational(10, 11)
    ensures var a, b := Make(5, 7), Make(10, 11);
      Less(a, b) && RelationalUtils.Gt(Less, Less, b, a)
      && RelationalUtils.Le(Less, Less, a, a) && RelationalUtils.Le(Less, Less, b, b)
      && RelationalUtils.Le(Less, Less, a, b) && RelationalUtils.Ge(Less, Less, b, a)
  {
    Canonical(Make(5, 7), 5, 7, 3, -2);
    Canonical(Make(10, 11), 10, 11, -1, 1);
  }

  /** The operands of the arithmetic tests, 5//9 and 13//3, are stored as
      given. */
  lemma OperandsExample()
    ensures Make(5, 9) == Rational(5, 9) && Make(13, 3) == Rational(13, 3)
  {
    Canonical(Make(5, 9), 5, 9, 2, -1);
    Canonical(Make(13, 3), 13, 3, 1, -4);
  }

  /** With a of value 5/9 and b of value 13/3: the sum the tests expect, in normal
      form. */
  lemma SumExample(a: Rational, b: Rational)
    requires a.den > 0 && b.den > 0 && a.Value() == 5.0 / 9.0 && b.Value() == 13.0 / 3.0
    ensures Add(a, b) == Rational(44, 9)
  {
    Canonical(Add(a, b), 44, 9, -1, 5);
  }

  /** With a of value 5/9 and b of value 13/3: both differences the tests expect. */
  lemma DifferenceExample(a: Rational, b: Rational)
    requires a.den > 0 && b.den > 0 && a.Value() == 5.0 / 9.0 && b.Value() == 13.0 / 3.0
    ensures Sub(a, b) == Rational(-34, 9) && Sub(b, a) == Rational(34, 9)
  {
    Canonical(Sub(a, b), -34, 9, -4, -15);
    Canonical(Sub(b, a), 34, 9, 4, -15);
  }

  /** operator- as written on the operands of the tests: 5//9 - 13//3 is
      stored as 34//-9 (get_gcd(-102, 27) is -3), which cross-multiplication
      places above 0//1, while 13//3 - 5//9 is 34//9. The expected value of
      the test, built from (-34, 9), is stored as 34//-9 as well, so the
      test's `==` holds. */
  lemma DifferenceAsWrittenExample(a: Rational, b: Rational)
    requires a.num == 5 && a.den == 9 && b.num == 13 && b.den == 3
    ensures SubAsWritten(a, b) == Rational(34, -9) && Less(Zero, SubAsWritten(a, b))
    ensures RelationalUtils.Eq(Less, Less, SubAsWritten(a, b), SimplifyAsWritten(-34, 9))
    ensures SubAsWritten(b, a) == Rational(34, 9)
    ensures Sub(a, b) == SignFixed(SubAsWritten(a, b)) == Rational(-34, 9)
  {
    assert SubAsWritten(a, b) == Rational(34, -9) by {
      assert a.num * b.den - b.num * a.den == -102 && a.den * b.den == 27;
      assert TRem(-102, 27) == -21 && TRem(27, -21) == 6;
      assert TRem(-21, 6) == -3 && TRem(6, -3) == 0;
      assert Gcd(-102, 27) == -3;
    }
    assert SubAsWritten(b, a) == Rational(34, 9) by {
      assert b.num * a.den - a.num * b.den == 102 && b.den * a.den == 27;
      assert TRem(102, 27) == 21 && TRem(27, 21) == 6;
      assert TRem(21, 6) == 3 && TRem(6, 3) == 0;
      assert Gcd(102, 27) == 3;
    }
    assert SimplifyAsWritten(-34, 9) == Rational(34, -9) by {
      NegativeDenominatorCounterexample();
    }
    assert RelationalUtils.Eq(Less, Less, Rational(34, -9), Rational(34, -9));
    CorrectedIsSignFixed(a, b, 0);
  }

  /** With a of value 5/9 and b of value 13/3: the products and quotients the tests
      expect. */
  lemma ProductExample(a: Rational, b: Rational)
    requires a.den > 0 && b.den > 0 && a.Value() == 5.0 / 9.0 && b.Value() == 13.0 / 3.0
    ensures Mul(a, b) == Mul(b, a) && Mul(a, b) == Rational(65, 27)
    ensures Div(a, b) == Rational(5, 39) && Div(b, a) == Rational(39, 5)
  {
    MulCommutes(a, b);
    assert Mul(a, b) == Rational(65, 27) by { Canonical(Mul(a, b), 65, 27, 5, -12); }
    assert Div(a, b) == Rational(5, 39) by { Canonical(Div(a, b), 5, 39, 8, -1); }
    assert Div(b, a) == Rational(39, 5) by { Canonical(Div(b, a), 39, 5, -1, 8); }
  }

  /** With a of value 5/9: the mixed operations against an integer the
      tests expect. */
  lemma MixedExample(a: Rational)
    requires a.den > 0 && a.Value() == 5.0 / 9.0
    ensures AddInt(a, 10) == Rational(95, 9) && IntAdd(10, a) == AddInt(a, 10)
    ensures IntMul(10, a) == Rational(50, 9) && IntDiv(11, a) == Rational(99, 5)
    ensures DivInt(a, 11) == Rational(5, 99)
  {
    Canonical(AddInt(a, 10), 95, 9, 2, -21);
    Canonical(IntMul(10, a), 50, 9, 2, -11);
    MixedQuotients(a);
  }

  /** The two quotients of MixedExample. */
  lemma MixedQuotients(a: Rational)
    requires a.den > 0 && a.Value() == 5.0 / 9.0
    ensures IntDiv(11, a) == Rational(99, 5) && DivInt(a, 11) == Rational(5, 99)
  {
    Canonical(IntDiv(11, a), 99, 5, -1, 20);
    Canonical(DivInt(a, 11), 5, 99, 20, -1);
  }
}
