/**
  The integer helpers of src/MathUtils.hpp that differ from their successors
  in include/bwsl/MathUtils.hpp: accumulate_product and accumulate_sum, whose
  std::accumulate starts from the `int` literals 1 and 0 (so the running
  value is an `int`, narrowed after every step), and the triangular index of
  an unordered pair of values.
*/
module LegacyMathUtils {
  import MathUtils
  import Pairs

  const TwoTo31: int := 0x8000_0000
  const TwoTo32: int := 0x1_0000_0000
  const TwoTo64: int := 0x1_0000_0000_0000_0000

  /** Conversion of any integer to a 32-bit `int` (two's complement wrap-around). */
  function ToInt32(x: int): (r: int)
    ensures -TwoTo31 <= r < TwoTo31
    ensures (r - x) % TwoTo32 == 0
  {
    MathUtils.EuclidFacts(0, TwoTo32);
    var m := (x + TwoTo31) % TwoTo32;
    assert x + TwoTo31 == ((x + TwoTo31) / TwoTo32) * TwoTo32 + m;
    MathUtils.MulMod(TwoTo32, -((x + TwoTo31) / TwoTo32));
    m - TwoTo31
  }

  /** Conversion of any integer to `size_t` (arithmetic modulo 2^64). */
  function ToSizeT(x: int): (r: nat)
    ensures r < TwoTo64
  {
    x % TwoTo64
  }

  predicate AllSizeT(v: seq<int>)
  {
    forall i :: 0 <= i < |v| ==> 0 <= v[i] < TwoTo64
  }

  // ---------------------------------------------------------------------------
  // accumulate_product / accumulate_sum as written: an `int` accumulator
  // ---------------------------------------------------------------------------

  /** std::accumulate with `std::multiplies<size_t>` from an `int` accumulator:
      each step multiplies in size_t and narrows the product back to `int`. */
  function FoldProductInt(acc: int, v: seq<int>): int
    decreases |v|
  {
    if |v| == 0 then acc
    else FoldProductInt(ToInt32(ToSizeT(acc) * ToSizeT(v[0]) % TwoTo64), v[1..])
  }

  /** std::accumulate with `+` from an `int` accumulator: the `int` is widened
      to size_t for the addition and narrowed back to `int` after it. */
  function FoldSumInt(acc: int, v: seq<int>): int
    decreases |v|
  {
    if |v| == 0 then acc
    else FoldSumInt(ToInt32((ToSizeT(acc) + ToSizeT(v[0])) % TwoTo64), v[1..])
  }

  /** accumulate_product as written: the `int` result cast to size_t. */
  function AccumulateProductAsWritten(v: seq<int>): nat
  {
    ToSizeT(FoldProductInt(1, v))
  }

  /** accumulate_sum as written: the `int` result cast to size_t. */
  function AccumulateSumAsWritten(v: seq<int>): nat
  {
    ToSizeT(FoldSumInt(0, v))
  }

  /** Two extents of 2^16 give a product of 2^32, which the `int` accumulator
      wraps to 0; a single extent of 2^31 is summed to 2^64 - 2^31. */
  lemma AccumulateTruncates()
    ensures MathUtils.Product([0x1_0000, 0x1_0000]) == TwoTo32
    ensures AccumulateProductAsWritten([0x1_0000, 0x1_0000]) == 0
    ensures MathUtils.Sum([TwoTo31]) == TwoTo31
    ensures AccumulateSumAsWritten([TwoTo31]) == TwoTo64 - TwoTo31
  {
    assert FoldProductInt(1, [0x1_0000, 0x1_0000]) == FoldProductInt(0x1_0000, [0x1_0000]);
    assert [0x1_0000, 0x1_0000][1..] == [0x1_0000];
    assert FoldSumInt(0, [TwoTo31]) == -TwoTo31;
  }

  // ---------------------------------------------------------------------------
  // accumulate_product / accumulate_sum as intended: a size_t accumulator
  // ---------------------------------------------------------------------------

  /** accumulate_product with the accumulator of the element type: the product
      of all elements, and the product of a concatenation is the product of the
      products. */
  function AccumulateProduct(v: seq<int>): (p: int)
    ensures p == MathUtils.Product(v)
    ensures forall k :: 0 <= k <= |v| ==> p == MathUtils.Product(v[..k]) * MathUtils.Product(v[k..])
  {
    forall k | 0 <= k <= |v|
      ensures MathUtils.Product(v) == MathUtils.Product(v[..k]) * MathUtils.Product(v[k..])
    {
      ProductSplit(v, k);
    }
    MathUtils.Product(v)
  }

  /** accumulate_sum with the accumulator of the element type: the sum of all
      elements, split at any point into the sums of the two parts. */
  function AccumulateSum(v: seq<int>): (s: int)
    ensures s == MathUtils.Sum(v)
    ensures forall k :: 0 <= k <= |v| ==> s == MathUtils.Sum(v[..k]) + MathUtils.Sum(v[k..])
  {
    forall k | 0 <= k <= |v|
      ensures MathUtils.Sum(v) == MathUtils.Sum(v[..k]) + MathUtils.Sum(v[k..])
    {
      SumSplit(v, k);
    }
    MathUtils.Sum(v)
  }

  lemma {:induction false} ProductSplit(v: seq<int>, k: nat)
    requires k <= |v|
    ensures MathUtils.Product(v) == MathUtils.Product(v[..k]) * MathUtils.Product(v[k..])
  {
    if k > 0 {
      ProductSplit(v[1..], k - 1);
      assert v[1..][..k - 1] == v[..k][1..];
      assert v[1..][k - 1..] == v[k..];
      assert MathUtils.Product(v[..k]) == v[0] * MathUtils.Product(v[..k][1..]);
    } else {
      assert v[k..] == v;
    }
  }

  lemma {:induction false} SumSplit(v: seq<int>, k: nat)
    requires k <= |v|
    ensures MathUtils.Sum(v) == MathUtils.Sum(v[..k]) + MathUtils.Sum(v[k..])
  {
    if k > 0 {
      SumSplit(v[1..], k - 1);
      assert v[1..][..k - 1] == v[..k][1..];
      assert v[1..][k - 1..] == v[k..];
    } else {
      assert v[k..] == v;
    }
  }

  /** One step of the `int` accumulator is exact while the product fits. */
  lemma ProductStepExact(acc: int, x: int)
    requires 1 <= acc && 1 <= x < TwoTo64 && acc * x < TwoTo31
    ensures ToInt32(ToSizeT(acc) * ToSizeT(x) % TwoTo64) == acc * x
  {
    var p := acc * x;
    MathUtils.MulLe(1, x, acc);
    MathUtils.ModOfInRange(acc, TwoTo64);
    MathUtils.ModOfInRange(x, TwoTo64);
    assert ToSizeT(acc) * ToSizeT(x) == p;
    MathUtils.ModOfInRange(p, TwoTo64);
    MathUtils.ModOfInRange(p + TwoTo31, TwoTo32);
  }

  /** While the true product stays below 2^31 the `int` accumulator is exact. */
  lemma {:induction false} FoldProductExact(acc: int, v: seq<int>)
    requires 1 <= acc && MathUtils.Positive(v) && AllSizeT(v)
    requires acc * MathUtils.Product(v) < TwoTo31
    ensures FoldProductInt(acc, v) == acc * MathUtils.Product(v)
    decreases |v|
  {
    if |v| > 0 {
      var x, tail := v[0], v[1..];
      var rest := MathUtils.Product(tail);
      var next := acc * x;
      assert MathUtils.Positive(tail) && AllSizeT(tail) by {
        forall i | 0 <= i < |tail| ensures 0 < tail[i] < TwoTo64 {
          assert tail[i] == v[i + 1];
        }
      }
      MathUtils.ProductPositive(tail);
      assert MathUtils.Product(v) == x * rest;
      assert acc * MathUtils.Product(v) == next * rest;
      MathUtils.MulLe(1, rest, next);
      MathUtils.MulLe(1, x, acc);
      ProductStepExact(acc, x);
      FoldProductExact(next, tail);
    }
  }

  /** accumulate_product as written agrees with the intended product whenever
      that product, of positive extents, fits in an `int`. */
  lemma AccumulateProductAgrees(v: seq<int>)
    requires MathUtils.Positive(v) && AllSizeT(v) && MathUtils.Product(v) < TwoTo31
    ensures AccumulateProductAsWritten(v) == AccumulateProduct(v)
  {
    FoldProductExact(1, v);
    MathUtils.ProductPositive(v);
    MathUtils.ModOfInRange(MathUtils.Product(v), TwoTo64);
  }

  // ---------------------------------------------------------------------------
  // The triangular index of an unordered pair
  // ---------------------------------------------------------------------------

  /** The a-th triangular number a * (a + 1) / 2. */
  function Tri(a: nat): nat
  {
    MathUtils.MulNonneg(a, a + 1);
    a * (a + 1) / 2
  }

  lemma TriSucc(a: nat)
    ensures Tri(a + 1) == Tri(a) + a + 1
    ensures 2 * Tri(a) == a * (a + 1)
  {
    Pairs.ConsecutiveEven(a);
    Pairs.ConsecutiveEven(a + 1);
    var x, y := a * (a + 1), (a + 1) * (a + 2);
    assert y == x + 2 * (a + 1);
    MathUtils.DivModUnique(x, 2, x / 2, 0);
    MathUtils.DivModUnique(y, 2, x / 2 + a + 1, 0);
  }

  lemma TriBelowSquare(a: nat)
    ensures Tri(a) <= a * a + a
  {
    TriSucc(a);
  }

  /** GetPairIndex: the row of the smaller value, counted in a triangle that
      lists every pair once, plus the larger value. */
  function GetPairIndex(a: nat, b: nat, numsites: nat): (p: nat)
    requires a < numsites && b < numsites
  {
    var an := if a < b then a else b;
    var bn := if a < b then b else a;
    TriBelowSquare(an);
    MathUtils.MulLe(an, numsites - 1, an);
    assert Tri(an) <= an * numsites + bn by {
      assert an * an <= (numsites - 1) * an;
      assert (numsites - 1) * an == an * numsites - an;
    }
    an * numsites + bn - Tri(an)
  }

  /** GetNumPairs: numvals * (numvals + 1) / 2 pairs with repetition. */
  function GetNumPairs(numvals: nat): (n: nat)
    ensures n == Tri(numvals)
  {
    MathUtils.MulNonneg(numvals, numvals + 1);
    numvals * (numvals + 1) / 2
  }

  /** The index of the first pair of row a: (a, a). */
  function RowStart(a: nat, n: nat): int
  {
    a * n + a - Tri(a)
  }

  lemma RowStartSucc(a: nat, n: nat)
    ensures RowStart(a + 1, n) == RowStart(a, n) + (n - a)
  {
    TriSucc(a);
    assert (a + 1) * n == a * n + n;
  }

  lemma {:induction false} RowStartMonotone(a: nat, c: nat, n: nat)
    requires a <= c <= n
    ensures RowStart(a, n) + (c - a) <= RowStart(c, n)
    decreases c - a
  {
    if a < c {
      RowStartSucc(a, n);
      RowStartMonotone(a + 1, c, n);
    }
  }

  lemma RowStartOfN(n: nat)
    ensures RowStart(n, n) == GetNumPairs(n)
  {
    TriSucc(n);
  }

  /** GetPairIndex is the same for (a, b) and (b, a). */
  lemma PairIndexSymmetric(a: nat, b: nat, n: nat)
    requires a < n && b < n
    ensures GetPairIndex(a, b, n) == GetPairIndex(b, a, n)
  {
  }

  /** Within its row, the pair (a, b) with a <= b sits b - a places after (a, a),
      strictly before the next row begins. */
  lemma PairIndexInRow(a: nat, b: nat, n: nat)
    requires a <= b < n
    ensures GetPairIndex(a, b, n) == RowStart(a, n) + (b - a)
    ensures GetPairIndex(a, b, n) < RowStart(a + 1, n)
  {
    RowStartSucc(a, n);
  }

  /** Pairs a <= b < n have distinct indices below GetNumPairs(n): the
      triangular table is filled without collisions. */
  lemma PairIndexInjective(a: nat, b: nat, c: nat, d: nat, n: nat)
    requires a <= b < n && c <= d < n
    ensures GetPairIndex(a, b, n) < GetNumPairs(n)
    ensures GetPairIndex(a, b, n) == GetPairIndex(c, d, n) ==> a == c && b == d
  {
    PairIndexInRow(a, b, n);
    PairIndexInRow(c, d, n);
    RowStartMonotone(a + 1, n, n);
    RowStartOfN(n);
    if a < c {
      RowStartMonotone(a + 1, c, n);
    } else if c < a {
      RowStartMonotone(c + 1, a, n);
    }
  }
}
