/**
  Integer helpers of include/bwsl/MathUtils.hpp: the product of a container,
  the mixed-radix conversion between a site index and its coordinates (first
  dimension most significant), the truncating C++ division used by get_gcd,
  binomial coefficients, sign and difference helpers, and the component-wise
  in-place vector operations sum_into, subtract_into and invert.
*/
module MathUtils {

  function Abs(x: int): nat { if x < 0 then -x else x }

  // ---------------------------------------------------------------------------
  // C++ integer division: `/` rounds toward zero and `%` takes the sign of the
  // dividend (Dafny's own / and % are Euclidean).
  // ---------------------------------------------------------------------------

  /** C++ `a / b` on signed integers. */
  function TDiv(a: int, b: int): int
    requires b != 0
  {
    if a >= 0 then (if b > 0 then a / b else -(a / -b))
    else (if b > 0 then -((-a) / b) else (-a) / (-b))
  }

  /** C++ `a % b` on signed integers: the remainder left by TDiv. */
  function TRem(a: int, b: int): (r: int)
    requires b != 0
    ensures Abs(r) < Abs(b)
    ensures a >= 0 ==> r >= 0
    ensures a <= 0 ==> r <= 0
  {
    TruncatedDivision(a, b);
    a - TDiv(a, b) * b
  }

  lemma TruncatedDivision(a: int, b: int)
    requires b != 0
    ensures var r := a - TDiv(a, b) * b;
      Abs(r) < Abs(b) && (a >= 0 ==> r >= 0) && (a <= 0 ==> r <= 0)
  {
    var x: int, y: int := Abs(a), Abs(b);
    var q: int := x / y;
    var r: int := x - q * y;
    EuclidFacts(x, y);
    NegatedProduct(q, y);
    if a >= 0 && b < 0 {
      assert TDiv(a, b) == -q && b == -y;
      assert a - TDiv(a, b) * b == r;
    } else if a < 0 && b > 0 {
      assert TDiv(a, b) == -q && b == y;
      assert a - TDiv(a, b) * b == -r;
    } else if a < 0 && b < 0 {
      assert TDiv(a, b) == q && b == -y;
      assert a - TDiv(a, b) * b == -r;
    } else {
      assert TDiv(a, b) == q && b == y;
    }
  }

  /** Euclidean division of a natural number by a positive one. */
  lemma EuclidFacts(x: nat, y: int)
    requires y > 0
    ensures x == (x / y) * y + x % y && 0 <= x % y < y && x / y >= 0
  {
  }

  lemma NegatedProduct(q: int, y: int)
    ensures (-q) * (-y) == q * y && (-q) * y == -(q * y) && q * (-y) == -(q * y)
  {
  }

  /** For a non-zero divisor the truncated and the Euclidean remainder vanish together. */
  lemma TRemZeroIff(a: int, b: int)
    requires b != 0
    ensures TRem(a, b) == 0 <==> a % b == 0
  {
    if a % b == 0 {
      var e := a / b;
      assert a == e * b;
      DivExactTruncated(e, b);
    } else {
      MulMod(b, TDiv(a, b));
    }
  }

  lemma DivExactTruncated(e: int, b: int)
    requires b != 0
    ensures TDiv(e * b, b) == e
  {
    var a := e * b;
    if a >= 0 {
      if b > 0 {
        MulMod(b, e);
      } else {
        assert a == (-e) * (-b);
        MulMod(-b, -e);
      }
    } else {
      if b > 0 {
        assert -a == (-e) * b;
        MulMod(b, -e);
      } else {
        assert -a == e * (-b);
        MulMod(-b, e);
      }
    }
  }

  // ---------------------------------------------------------------------------
  // Arithmetic facts the solver needs spelled out
  // ---------------------------------------------------------------------------

  lemma MulNonneg(a: int, b: int)
    requires a >= 0 && b >= 0
    ensures a * b >= 0
  {
  }

  lemma MulLe(a: int, b: int, w: int)
    requires a <= b && w >= 0
    ensures a * w <= b * w
  {
    MulNonneg(b - a, w);
    assert (b - a) * w == b * w - a * w;
  }

  lemma MulAbsLower(a: int, w: int)
    requires a != 0
    ensures Abs(a * w) >= Abs(w)
  {
    if a > 0 {
      if w >= 0 {
        MulNonneg(a - 1, w);
        assert a * w == (a - 1) * w + w;
      } else {
        MulNonneg(a - 1, -w);
        assert a * w == -((a - 1) * (-w)) + w;
      }
    } else {
      if w >= 0 {
        MulNonneg(-a - 1, w);
        assert a * w == -((-a - 1) * w) - w;
      } else {
        MulNonneg(-a - 1, -w);
        assert a * w == (-a - 1) * (-w) - w;
      }
    }
  }

  /** Euclidean quotient and remainder are the only ones with 0 <= r < |w|. */
  lemma DivModUnique(x: int, w: int, q: int, r: int)
    requires w != 0 && 0 <= r < Abs(w) && x == q * w + r
    ensures x / w == q && x % w == r
  {
    var q', r' := x / w, x % w;
    assert (q' - q) * w == r - r' by {
      assert q' * w + r' == q * w + r;
      assert (q' - q) * w == q' * w - q * w;
    }
    if q' != q {
      MulAbsLower(q' - q, w);
    }
  }

  lemma DivLe(x: nat, d: int)
    requires d > 0
    ensures 0 <= x / d <= x
  {
    var q := x / d;
    assert x == q * d + x % d;
    if q > 0 {
      MulLe(1, d, q);
    }
  }

  /** Adding a multiple of the modulus does not change the Euclidean remainder. */
  lemma ModShift(y: int, q: int, s: int)
    requires s > 0
    ensures (y + q * s) % s == y % s
  {
    assert y == (y / s) * s + y % s;
    assert y + q * s == (y / s + q) * s + y % s;
    DivModUnique(y + q * s, s, y / s + q, y % s);
  }

  /** (y mod s + z) mod s == (y + z) mod s. */
  lemma ModAddMod(y: int, z: int, s: int)
    requires s > 0
    ensures (y % s + z) % s == (y + z) % s
  {
    assert y == (y / s) * s + y % s;
    assert y % s + z == (y + z) + -(y / s) * s;
    ModShift(y + z, -(y / s), s);
  }

  lemma ModOfInRange(x: int, s: int)
    requires 0 <= x < s
    ensures x % s == x && x / s == 0
  {
    DivModUnique(x, s, 0, x);
  }

  lemma MulMod(d: int, m: int)
    requires d != 0
    ensures (m * d) % d == 0 && (m * d) / d == m
  {
    DivModUnique(m * d, d, m, 0);
  }

  // ---------------------------------------------------------------------------
  // Divisibility
  // ---------------------------------------------------------------------------

  predicate Divides(d: int, x: int) { d != 0 && x % d == 0 }

  lemma DividesLinear(d: int, x: int, y: int, k: int)
    requires Divides(d, x) && Divides(d, y)
    ensures Divides(d, x + k * y)
  {
    var p, q := x / d, y / d;
    assert x == p * d;
    assert y == q * d;
    assert x + k * y == (p + k * q) * d;
    MulMod(d, p + k * q);
  }

  // ---------------------------------------------------------------------------
  // get_gcd: Euclid's algorithm with the C++ truncating remainder.
  // ---------------------------------------------------------------------------

  /** get_gcd(a, b): `b == 0 ? a : get_gcd(b, a % b)` with C++ `%`. The sign of
      the result follows the remainders and may be negative. */
  function Gcd(a: int, b: int): int
    decreases Abs(b)
  {
    if b == 0 then a else Gcd(b, TRem(a, b))
  }

  /** The result divides both arguments, and is zero only when both are. */
  lemma {:induction false} GcdDivides(a: int, b: int)
    ensures Gcd(a, b) == 0 <==> a == 0 && b == 0
    ensures Gcd(a, b) != 0 ==> Divides(Gcd(a, b), a) && Divides(Gcd(a, b), b)
    decreases Abs(b)
  {
    if b == 0 {
      if a != 0 { MulMod(a, 1); }
    } else {
      var r := TRem(a, b);
      GcdDivides(b, r);
      var g := Gcd(b, r);
      assert g == Gcd(a, b);
      assert g != 0;
      DividesLinear(g, r, b, TDiv(a, b));
      assert r + TDiv(a, b) * b == a;
    }
  }

  /** Every common divisor of the arguments divides the result. */
  lemma {:induction false} GcdGreatest(a: int, b: int, d: int)
    requires Divides(d, a) && Divides(d, b)
    ensures Divides(d, Gcd(a, b))
    decreases Abs(b)
  {
    if b != 0 {
      var r := TRem(a, b);
      DividesLinear(d, a, b, -TDiv(a, b));
      assert a + -TDiv(a, b) * b == r;
      GcdGreatest(b, r, d);
    }
  }

  /** The result is an integer combination of the arguments. */
  lemma {:induction false} Bezout(a: int, b: int) returns (x: int, y: int)
    ensures Gcd(a, b) == a * x + b * y
    decreases Abs(b)
  {
    if b == 0 {
      x, y := 1, 0;
    } else {
      var q, r := TDiv(a, b), TRem(a, b);
      var x1, y1 := Bezout(b, r);
      BezoutStep(a, b, q, r, x1, y1);
      x, y := y1, x1 - q * y1;
    }
  }

  lemma BezoutStep(a: int, b: int, q: int, r: int, x1: int, y1: int)
    requires r == a - q * b
    ensures b * x1 + r * y1 == a * y1 + b * (x1 - q * y1)
  {
    assert r * y1 == a * y1 - (q * b) * y1;
    assert b * (x1 - q * y1) == b * x1 - (q * b) * y1;
  }

  // ---------------------------------------------------------------------------
  // accumulate_product and the mixed-radix index <-> coordinates conversion
  // ---------------------------------------------------------------------------

  /** accumulate_product: product of the elements, 1 for an empty container. */
  function Product(s: seq<int>): int
  {
    if |s| == 0 then 1 else s[0] * Product(s[1..])
  }

  /** accumulate_sum: sum of the elements, 0 for an empty container. */
  function Sum(s: seq<int>): int
  {
    if |s| == 0 then 0 else s[0] + Sum(s[1..])
  }

  /** Grid extents must all be positive for the conversions to divide. */
  predicate Positive(size: seq<int>)
  {
    forall i :: 0 <= i < |size| ==> size[i] > 0
  }

  /** Coordinates lying on the grid of the given extents. */
  predicate InRange(c: seq<int>, size: seq<int>)
    requires |c| == |size|
  {
    forall i :: 0 <= i < |c| ==> 0 <= c[i] < size[i]
  }

  lemma {:induction false} ProductPositive(s: seq<int>)
    requires Positive(s)
    ensures Product(s) > 0
  {
    if |s| > 0 {
      ProductPositive(s[1..]);
    }
  }

  lemma {:induction false} ProductNonnegative(s: seq<int>)
    requires forall i :: 0 <= i < |s| ==> s[i] >= 0
    ensures Product(s) >= 0
  {
    if |s| > 0 {
      ProductNonnegative(s[1..]);
      MulNonneg(s[0], Product(s[1..]));
    }
  }

  /** Product of a suffix: the first extent times the product of the rest. */
  lemma ProductSuffix(s: seq<int>, i: nat)
    requires i < |s|
    ensures Product(s[i..]) == s[i] * Product(s[i + 1..])
  {
    assert s[i..][1..] == s[i + 1..];
  }

  /** array_to_index: mixed-radix composition, first dimension most significant. */
  function RowMajor(a: seq<int>, size: seq<int>): int
    requires |a| == |size|
  {
    if |size| == 0 then 0 else a[0] * Product(size[1..]) + RowMajor(a[1..], size[1..])
  }

  /** index_to_array: mixed-radix decomposition, first dimension most significant. */
  function Coordinates(index: nat, size: seq<int>): (c: seq<int>)
    requires Positive(size)
    ensures |c| == |size|
  {
    if |size| == 0 then []
    else
      ProductPositive(size[1..]);
      var w := Product(size[1..]);
      EuclidFacts(index, w);
      [index / w] + Coordinates(index % w, size[1..])
  }

  /** In-range coordinates give an index below the number of sites. */
  lemma {:induction false} RowMajorBound(c: seq<int>, size: seq<int>)
    requires |c| == |size| && InRange(c, size)
    ensures 0 <= RowMajor(c, size) < Product(size)
  {
    if |size| > 0 {
      RowMajorBound(c[1..], size[1..]);
      var w, r := Product(size[1..]), RowMajor(c[1..], size[1..]);
      MulNonneg(c[0], w);
      MulLe(c[0], size[0] - 1, w);
      assert (size[0] - 1) * w + w == size[0] * w;
    }
  }

  /** Decomposing an index below the number of sites gives in-range coordinates
      that compose back to the same index. */
  lemma {:induction false} CoordinatesRoundTrip(index: nat, size: seq<int>)
    requires Positive(size) && index < Product(size)
    ensures InRange(Coordinates(index, size), size)
    ensures RowMajor(Coordinates(index, size), size) == index
  {
    if |size| > 0 {
      ProductPositive(size[1..]);
      var w := Product(size[1..]);
      var q, r := index / w, index % w;
      EuclidFacts(index, w);
      var c := Coordinates(index, size);
      assert c == [q] + Coordinates(r, size[1..]);
      CoordinatesRoundTrip(r, size[1..]);
      assert c[1..] == Coordinates(r, size[1..]);
      assert Product(size) == size[0] * w;
      if q >= size[0] {
        MulLe(size[0], q, w);
        assert false;
      }
      assert RowMajor(c, size) == q * w + RowMajor(c[1..], size[1..]);
    }
  }

  /** Composing in-range coordinates and decomposing the index gives them back. */
  lemma {:induction false} RowMajorRoundTrip(c: seq<int>, size: seq<int>)
    requires |c| == |size| && Positive(size) && InRange(c, size)
    ensures RowMajor(c, size) >= 0
    ensures Coordinates(RowMajor(c, size), size) == c
  {
    RowMajorBound(c, size);
    if |size| > 0 {
      ProductPositive(size[1..]);
      var w, r := Product(size[1..]), RowMajor(c[1..], size[1..]);
      RowMajorBound(c[1..], size[1..]);
      RowMajorRoundTrip(c[1..], size[1..]);
      var index := RowMajor(c, size);
      assert index == c[0] * w + r;
      DivModUnique(index, w, c[0], r);
      assert Coordinates(index, size) == [c[0]] + Coordinates(r, size[1..]);
    }
  }

  /** The coordinates of site 0 are all zero. */
  lemma {:induction false} CoordinatesOfZero(size: seq<int>)
    requires Positive(size)
    ensures forall i :: 0 <= i < |size| ==> Coordinates(0, size)[i] == 0
  {
    if |size| > 0 {
      ProductPositive(size[1..]);
      CoordinatesOfZero(size[1..]);
      assert Coordinates(0, size) == [0] + Coordinates(0, size[1..]);
    }
  }

  /** array_to_index as the source runs it: `prod` starts at the product of all
      extents and is divided by each extent before its coordinate is added. */
  method ArrayToIndex(a: seq<int>, size: seq<int>) returns (index: int)
    requires |a| == |size| && Positive(size)
    ensures index == RowMajor(a, size)
    ensures InRange(a, size) ==> 0 <= index < Product(size)
  {
    var dim := |size|;
    index := 0;
    var prod := Product(size);
    assert size[0..] == size && a[0..] == a;
    for i := 0 to dim
      invariant prod == Product(size[i..])
      invariant index + RowMajor(a[i..], size[i..]) == RowMajor(a, size)
    {
      ArrayToIndexStep(a, size, i, prod);
      prod := prod / size[i];
      index := index + prod * a[i];
    }
    if InRange(a, size) {
      RowMajorBound(a, size);
    }
  }

  /** One step of ArrayToIndex: dividing the running product by the extent
      leaves the weight of coordinate i. */
  lemma ArrayToIndexStep(a: seq<int>, size: seq<int>, i: nat, prod: int)
    requires |a| == |size| && Positive(size) && i < |size| && prod == Product(size[i..])
    ensures prod / size[i] == Product(size[i + 1..])
    ensures RowMajor(a[i..], size[i..]) == (prod / size[i]) * a[i] + RowMajor(a[i + 1..], size[i + 1..])
  {
    var w := Product(size[i + 1..]);
    ProductSuffix(size, i);
    MulMod(size[i], w);
    RowMajorSuffix(a, size, i);
  }

  lemma RowMajorSuffix(a: seq<int>, size: seq<int>, i: nat)
    requires |a| == |size| && i < |size|
    ensures RowMajor(a[i..], size[i..]) == a[i] * Product(size[i + 1..]) + RowMajor(a[i + 1..], size[i + 1..])
  {
    assert a[i..][1..] == a[i + 1..] && size[i..][1..] == size[i + 1..];
  }

  /** One step of index_to_array on the extents from i on: dividing their
      product by the first gives the stride, and the first coordinate is the
      quotient by that stride. */
  lemma CoordinatesStep(index: nat, size: seq<int>, i: nat)
    requires Positive(size) && i < |size|
    ensures Product(size[i + 1..]) > 0 && Product(size[i..]) / size[i] == Product(size[i + 1..])
    ensures Coordinates(index, size[i..])
      == [index / Product(size[i + 1..])] + Coordinates(index % Product(size[i + 1..]), size[i + 1..])
  {
    ProductSuffix(size, i);
    ProductPositive(size[i + 1..]);
    MulMod(size[i], Product(size[i + 1..]));
    assert size[i..][1..] == size[i + 1..];
  }

  /** index_to_array as the source runs it: `prod` shrinks by one extent per
      dimension, the quotient is the coordinate and the remainder carries on. */
  method IndexToArray(index: nat, size: seq<int>) returns (result: seq<int>)
    requires Positive(size)
    ensures result == Coordinates(index, size)
    ensures index < Product(size) ==> InRange(result, size) && RowMajor(result, size) == index
  {
    var dim := |size|;
    var prod := Product(size);
    result := seq(dim, _ => 0);
    var rest: nat := index;
    assert size[0..] == size;
    for i := 0 to dim
      invariant |result| == dim
      invariant prod == Product(size[i..])
      invariant result[..i] + Coordinates(rest, size[i..]) == Coordinates(index, size)
    {
      CoordinatesStep(rest, size, i);
      prod := prod / size[i];
      result := result[i := rest / prod];
      assert result[..i + 1] == result[..i] + [rest / prod];
      rest := rest % prod;
    }
    assert result[..dim] == result;
    if index < Product(size) {
      CoordinatesRoundTrip(index, size);
    }
  }

  // ---------------------------------------------------------------------------
  // Binomial coefficients
  // ---------------------------------------------------------------------------

  /** C(n, k) by Pascal's rule: the independent definition cbinomial is checked against. */
  function Binomial(n: nat, k: nat): nat
  {
    if k == 0 then 1 else if n == 0 then 0 else Binomial(n - 1, k - 1) + Binomial(n - 1, k)
  }

  lemma {:induction false} BinomialAboveN(n: nat, k: nat)
    requires k > n
    ensures Binomial(n, k) == 0
  {
    if n > 0 {
      BinomialAboveN(n - 1, k - 1);
      BinomialAboveN(n - 1, k);
    }
  }

  lemma {:induction false} BinomialDiagonal(n: nat)
    ensures Binomial(n, n) == 1
  {
    if n > 0 {
      BinomialDiagonal(n - 1);
      BinomialAboveN(n - 1, n);
    }
  }

  /** C(n, k) == C(n, n - k): the identity cbinomial uses to shorten its loop. */
  lemma {:induction false} BinomialSymmetric(n: nat, k: nat)
    requires k <= n
    ensures Binomial(n, k) == Binomial(n, n - k)
  {
    if k == 0 {
      BinomialDiagonal(n);
    } else if k == n {
      BinomialDiagonal(n);
    } else {
      BinomialSymmetric(n - 1, k - 1);
      BinomialSymmetric(n - 1, k);
      assert n - 1 - (k - 1) == n - k;
      assert Binomial(n, n - k) == Binomial(n - 1, n - k - 1) + Binomial(n - 1, n - k);
    }
  }

  /** Absorption: k * C(n, k) == n * C(n - 1, k - 1). */
  lemma {:induction false} BinomialAbsorption(n: nat, k: nat)
    requires n >= 1 && k >= 1
    ensures k * Binomial(n, k) == n * Binomial(n - 1, k - 1)
  {
    if n == 1 {
      if k == 1 {
        assert Binomial(1, 1) == Binomial(0, 0) + Binomial(0, 1);
      } else {
        BinomialAboveN(1, k);
        BinomialAboveN(0, k - 1);
      }
    } else if k == 1 {
      BinomialAbsorption(n - 1, 1);
      assert Binomial(n, 1) == Binomial(n - 1, 0) + Binomial(n - 1, 1);
    } else {
      BinomialAbsorption(n - 1, k);
      BinomialAbsorption(n - 1, k - 1);
      AbsorptionStep(n, k, Binomial(n - 1, k - 1), Binomial(n - 1, k),
        Binomial(n - 2, k - 2), Binomial(n - 2, k - 1));
    }
  }

  lemma AbsorptionStep(n: int, k: int, a: int, b: int, c: int, d: int)
    requires a == c + d && k * b == (n - 1) * d && (k - 1) * a == (n - 1) * c
    ensures k * (a + b) == n * a
  {
    assert k * (a + b) == a + (k - 1) * a + k * b;
    assert (n - 1) * a == (n - 1) * c + (n - 1) * d;
  }

  /** One step of the multiplicative formula: i * C(n, i) == (n + 1 - i) * C(n, i - 1). */
  lemma BinomialStep(n: nat, i: nat)
    requires 1 <= i <= n
    ensures i * Binomial(n, i) == (n + 1 - i) * Binomial(n, i - 1)
  {
    var j := n + 1 - i;
    BinomialAbsorption(n, i);
    BinomialSymmetric(n, i - 1);
    assert n - (i - 1) == j;
    BinomialAbsorption(n, j);
    BinomialSymmetric(n - 1, i - 1);
    assert n - 1 - (i - 1) == j - 1;
  }

  /** cbinomial: 0 when k > n; otherwise the multiplicative formula over
      min(k, n - k) factors, each division exact. A negative k not above n
      leaves the loop empty and gives 1. */
  method CBinomial(n: int, k: int) returns (res: int)
    ensures k > n ==> res == 0
    ensures 0 <= k <= n ==> res == Binomial(n, k)
    ensures k < 0 && k <= n ==> res == 1
  {
    res := 1;
    if k > n {
      return 0;
    }
    var kk := k;
    if kk > n - kk {
      kk := n - kk;
    }
    if 0 <= k {
      BinomialSymmetric(n, k);
    }
    var i := 1;
    while i <= kk
      invariant 1 <= i
      invariant kk >= 0 ==> i <= kk + 1 && kk <= n && res == Binomial(n, i - 1)
      invariant kk < 0 ==> res == 1
    {
      BinomialStep(n, i);
      res := res * (n + 1 - i);
      assert res == i * Binomial(n, i);
      MulMod(i, Binomial(n, i));
      res := res / i;
      i := i + 1;
    }
  }

  // ---------------------------------------------------------------------------
  // Sign and differences
  // ---------------------------------------------------------------------------

  /** sgn: -1, 0 or 1 according to the sign of the argument. */
  function Sgn(v: int): (r: int)
    ensures r == -1 <==> v < 0
    ensures r == 0 <==> v == 0
    ensures r == 1 <==> v > 0
  {
    (if 0 < v then 1 else 0) - (if v < 0 then 1 else 0)
  }

  /** absdiff: the distance between two values, never negative, whichever is larger. */
  function AbsDiff(a: int, b: int): (r: int)
    ensures r >= 0
    ensures r == a - b || r == b - a
  {
    if a > b then a - b else b - a
  }

  lemma AbsDiffSymmetric(a: int, b: int)
    ensures AbsDiff(a, b) == AbsDiff(b, a) == Abs(a - b)
  {
  }

  /** signeddiff: the signed difference of two unsigned values, computed without
      ever forming a negative unsigned intermediate. */
  function SignedDiff(a: nat, b: nat): (r: int)
    ensures r == a - b
  {
    if a > b then a - b else -(b - a)
  }

  // ---------------------------------------------------------------------------
  // Component-wise vector operations
  // ---------------------------------------------------------------------------

  function Plus(left: seq<int>, right: seq<int>): (s: seq<int>)
    requires |right| >= |left|
    ensures |s| == |left|
  {
    seq(|left|, i requires 0 <= i < |left| => left[i] + right[i])
  }

  function Minus(left: seq<int>, right: seq<int>): (s: seq<int>)
    requires |right| >= |left|
    ensures |s| == |left|
  {
    seq(|left|, i requires 0 <= i < |left| => left[i] - right[i])
  }

  function Negated(c: seq<int>): (s: seq<int>)
    ensures |s| == |c|
  {
    seq(|c|, i requires 0 <= i < |c| => -c[i])
  }

  /** Negating twice gives the vector back. */
  lemma NegatedInvolution(c: seq<int>)
    ensures Negated(Negated(c)) == c
  {
  }

  /** sum_into: `left[i] += right[i]` for every position of `left`; `right` is read only. */
  method SumInto(left: array<int>, right: seq<int>)
    requires |right| >= left.Length
    modifies left
    ensures left[..] == Plus(old(left[..]), right)
  {
    for i := 0 to left.Length
      invariant forall k :: 0 <= k < i ==> left[k] == old(left[k]) + right[k]
      invariant forall k :: i <= k < left.Length ==> left[k] == old(left[k])
    {
      left[i] := left[i] + right[i];
    }
  }

  /** subtract_into: `left[i] -= right[i]` for every position of `left`; `right` is read only. */
  method SubtractInto(left: array<int>, right: seq<int>)
    requires |right| >= left.Length
    modifies left
    ensures left[..] == Minus(old(left[..]), right)
  {
    for i := 0 to left.Length
      invariant forall k :: 0 <= k < i ==> left[k] == old(left[k]) - right[k]
      invariant forall k :: i <= k < left.Length ==> left[k] == old(left[k])
    {
      left[i] := left[i] - right[i];
    }
  }

  /** invert: negates every component in place. */
  method Invert(c: array<int>)
    modifies c
    ensures c[..] == Negated(old(c[..]))
  {
    for i := 0 to c.Length
      invariant forall k :: 0 <= k < i ==> c[k] == -old(c[k])
      invariant forall k :: i <= k < c.Length ==> c[k] == old(c[k])
    {
      c[i] := -c[i];
    }
  }

  /** get_inverted: negates every component of a copy. */
  method GetInverted(c: seq<int>) returns (r: seq<int>)
    ensures r == Negated(c)
  {
    r := c;
    for i := 0 to |r|
      invariant |r| == |c|
      invariant forall k :: 0 <= k < i ==> r[k] == -c[k]
      invariant forall k :: i <= k < |r| ==> r[k] == c[k]
    {
      r := r[i := -r[i]];
    }
  }
}
