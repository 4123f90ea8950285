/**
  The pair encoding of include/bwsl/Pairs.hpp. Two values below `maxval`
  form the ordered pair (a, b) whose index is b * maxval + a; the `noself`
  variant subtracts the number of completed rows from that index.
*/
module Pairs {
  import MathUtils

  datatype Pair = Pair(first: nat, second: nat)

  /** GetPairIndex: `b * maxval + a`, reduced by `i / maxval` when `noself`. */
  function GetPairIndex(a: nat, b: nat, maxval: nat, noself: bool): (i: nat)
    requires noself ==> maxval > 0
    ensures i <= b * maxval + a
  {
    var i := b * maxval + a;
    if noself then MathUtils.DivLe(i, maxval); i - i / maxval else i
  }

  /** GetPair: first the value modulo `maxval`, then the quotient; with `noself`
      the index is first raised by `i / (maxval - 1)`. */
  function GetPair(i: nat, maxval: nat, noself: bool): (p: Pair)
    requires maxval > 0
    requires noself ==> maxval > 1
    ensures p.first < maxval
  {
    var j := if noself then i + i / (maxval - 1) else i;
    Pair(j % maxval, j / maxval)
  }

  /** GetNumPairs: maxval * (maxval + 1) / 2, or maxval * (maxval - 1) / 2 with `noself`. */
  function GetNumPairs(maxval: nat, noself: bool): nat
  {
    if maxval == 0 then 0
    else maxval * (if noself then maxval - 1 else maxval + 1) / 2
  }

  /** The ordered index of (a, b) decodes back to (a, b) when a is below maxval. */
  lemma PairRoundTrip(a: nat, b: nat, maxval: nat)
    requires a < maxval
    ensures GetPair(GetPairIndex(a, b, maxval, false), maxval, false) == Pair(a, b)
  {
    MathUtils.DivModUnique(b * maxval + a, maxval, b, a);
  }

  /** Every index is the ordered index of the pair it decodes to. */
  lemma IndexRoundTrip(i: nat, maxval: nat)
    requires maxval > 0
    ensures var p := GetPair(i, maxval, false);
      GetPairIndex(p.first, p.second, maxval, false) == i
  {
  }

  /** Pairs of values below maxval get indices below maxval squared. */
  lemma PairIndexBound(a: nat, b: nat, maxval: nat)
    requires a < maxval && b < maxval
    ensures GetPairIndex(a, b, maxval, false) < maxval * maxval
  {
    MathUtils.MulLe(b, maxval - 1, maxval);
  }

  /** With `noself`, the subtracted amount is exactly the row b. */
  lemma NoSelfIndex(a: nat, b: nat, maxval: nat)
    requires a < maxval
    ensures GetPairIndex(a, b, maxval, true) == b * maxval + a - b
  {
    MathUtils.DivModUnique(b * maxval + a, maxval, b, a);
  }

  /** With `noself` the encoding is not one-to-one and does not decode back:
      on three values, (2, 0) and (0, 1) share index 2, which decodes to (0, 1). */
  lemma NoSelfCollision()
    ensures GetPairIndex(2, 0, 3, true) == GetPairIndex(0, 1, 3, true) == 2
    ensures GetPair(2, 3, true) == Pair(0, 1)
  {
  }

  /** The halvings in GetNumPairs are exact. */
  lemma NumPairsExact(maxval: nat)
    ensures 2 * GetNumPairs(maxval, false) == maxval * (maxval + 1)
    ensures 2 * GetNumPairs(maxval, true) == maxval * (maxval - 1)
  {
    if maxval > 0 {
      ConsecutiveEven(maxval);
      ConsecutiveEven(maxval - 1);
      var x, y := maxval * (maxval + 1), maxval * (maxval - 1);
      assert x == 2 * (x / 2) + x % 2;
      assert y == 2 * (y / 2) + y % 2;
      assert (maxval - 1) * (maxval - 1 + 1) == y;
    }
  }

  lemma ConsecutiveEven(m: int)
    ensures (m * (m + 1)) % 2 == 0
  {
    var h := m / 2;
    if m % 2 == 0 {
      assert m == 2 * h;
      assert m * (m + 1) == (2 * h) * (m + 1);
      assert m * (m + 1) == (h * (m + 1)) * 2;
      MathUtils.MulMod(2, h * (m + 1));
    } else {
      assert m + 1 == 2 * (h + 1);
      assert m * (m + 1) == m * (2 * (h + 1));
      assert m * (m + 1) == (m * (h + 1)) * 2;
      MathUtils.MulMod(2, m * (h + 1));
    }
  }
}
