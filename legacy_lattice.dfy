/**
  The historical lattice base class of src/Lattice.hpp: a lattice of `dim`
  extents with its neighbour table, site offsets computed from coordinates
  (wrapping them first), coordinates recovered from offsets, and the
  triangular index of an unordered pair of sites.

  GetOffset and GetCoordinates start their running radix from the product of
  the FIRST dim - 1 extents and divide it by each extent in turn, so the
  weight of coordinate i is the product of extents i .. dim - 2. Row-major
  order needs the product of extents i + 1 .. dim - 1; the two agree when all
  extents are equal and differ otherwise. Both are modelled: the as-written
  pair with its counterexample, and the row-major pair the rest of the model
  uses.
*/
module LegacyLattice {
  import MathUtils
  import LegacyMathUtils
  import opened HyperCubicGrid

  // ---------------------------------------------------------------------------
  // GetOffset / GetCoordinates as written
  // ---------------------------------------------------------------------------

  /** The starting radix of the source: the product of all extents but the last. */
  function LegacyWeight(size: seq<nat>): (w: nat)
    requires |size| >= 1 && MathUtils.Positive(size)
    ensures w >= 1
  {
    var front := size[..|size| - 1];
    assert MathUtils.Positive(front) by {
      forall i | 0 <= i < |front| ensures front[i] > 0 {
        assert front[i] == size[i];
      }
    }
    MathUtils.ProductPositive(front);
    MathUtils.Product(front)
  }

  /** Dividing the radix by the first extent leaves the radix of the rest. */
  lemma LegacyWeightStep(size: seq<nat>)
    requires |size| >= 2 && MathUtils.Positive(size)
    ensures MathUtils.Positive(size[1..])
    ensures LegacyWeight(size) == size[0] * LegacyWeight(size[1..])
    ensures LegacyWeight(size) / size[0] == LegacyWeight(size[1..])
  {
    assert size[..|size| - 1][1..] == size[1..][..|size[1..]| - 1];
    MathUtils.MulMod(size[0], LegacyWeight(size[1..]));
  }

  /** The offset the source computes from wrapped coordinates `w`: coordinate
      i weighted by the product of extents i .. dim - 2. */
  function OffsetAsWritten(w: seq<int>, size: seq<nat>): int
    requires |w| == |size| && MathUtils.Positive(size)
  {
    if |size| == 0 then 0
    else w[0] * LegacyWeight(size) + OffsetAsWritten(w[1..], size[1..])
  }

  /** The coordinates the source computes from an offset: quotient by the
      running radix, then the remainder carries on. */
  function CoordinatesAsWritten(offset: nat, size: seq<nat>): (c: seq<int>)
    requires MathUtils.Positive(size)
    ensures |c| == |size|
  {
    if |size| == 0 then []
    else
      var p := LegacyWeight(size);
      [offset / p] + CoordinatesAsWritten(offset % p, size[1..])
  }

  /** The first loop of GetOffset and GetCoordinates: the product of the
      first dim - 1 extents. `dim >= 1` is needed because `dim - 1` is
      unsigned. */
  method FrontProduct(size: seq<nat>) returns (prod: nat)
    requires |size| >= 1 && MathUtils.Positive(size)
    ensures prod == LegacyWeight(size)
  {
    prod := 1;
    for i := 0 to |size| - 1
      invariant prod == MathUtils.Product(size[..i])
    {
      PrefixProductStep(size, i);
      prod := prod * size[i];
    }
  }

  lemma PrefixProductStep(size: seq<nat>, i: nat)
    requires i < |size|
    ensures MathUtils.Product(size[..i + 1]) == MathUtils.Product(size[..i]) * size[i]
  {
    LegacyMathUtils.ProductSplit(size[..i + 1], i);
    assert size[..i + 1][..i] == size[..i] && size[..i + 1][i..] == [size[i]];
  }

  /** The two `while` loops of GetOffset: add the extent while negative, then
      subtract it while too large; the result is the Euclidean remainder. */
  method WrapCoordinate(x0: int, s: nat) returns (x: int)
    requires s > 0
    ensures x == x0 % s
  {
    x := x0;
    while x < 0
      invariant x % s == x0 % s
      decreases -x
    {
      MathUtils.ModShift(x, 1, s);
      x := x + s;
    }
    while x >= s
      invariant x >= 0 && x % s == x0 % s
      decreases x
    {
      MathUtils.ModShift(x - s, 1, s);
      x := x - s;
    }
    MathUtils.ModOfInRange(x, s);
  }

  /** Lattice::GetOffset as written: each coordinate is wrapped and weighted
      by the running radix, which is then divided by the coordinate's extent. */
  method GetOffsetAsWritten(coords: seq<int>, size: seq<nat>) returns (offset: int)
    requires |coords| == |size| >= 1 && MathUtils.Positive(size)
    ensures offset == OffsetAsWritten(WrapAll(coords, size), size)
  {
    var dim := |size|;
    ghost var w := WrapAll(coords, size);
    offset := 0;
    var prod := FrontProduct(size);
    assert size[0..] == size && w[0..] == w;
    for i := 0 to dim
      invariant i < dim ==> MathUtils.Positive(size[i..]) && prod == LegacyWeight(size[i..])
      invariant offset + OffsetAsWritten(w[i..], size[i..]) == OffsetAsWritten(w, size)
    {
      var x := WrapCoordinate(coords[i], size[i]);
      OffsetSuffix(w, size, i);
      offset := offset + prod * x;
      if i + 1 < dim {
        LegacyWeightStep(size[i..]);
      }
      prod := prod / size[i];
    }
  }

  lemma OffsetSuffix(w: seq<int>, size: seq<nat>, i: nat)
    requires |w| == |size| && MathUtils.Positive(size) && i < |size|
    ensures MathUtils.Positive(size[i..])
    ensures OffsetAsWritten(w[i..], size[i..])
         == w[i] * LegacyWeight(size[i..]) + OffsetAsWritten(w[i + 1..], size[i + 1..])
  {
    assert w[i..][1..] == w[i + 1..] && size[i..][1..] == size[i + 1..];
  }

  /** Lattice::GetCoordinates as written: quotient by the running radix,
      remainder kept, radix divided by the extent. */
  method GetCoordinatesAsWritten(offset: nat, size: seq<nat>) returns (d: seq<int>)
    requires |size| >= 1 && MathUtils.Positive(size)
    ensures d == CoordinatesAsWritten(offset, size)
  {
    var dim := |size|;
    var prod := FrontProduct(size);
    assert size[0..] == size;
    d := seq(dim, _ => 0);
    var rest: nat := offset;
    for i := 0 to dim
      invariant |d| == dim
      invariant i < dim ==> MathUtils.Positive(size[i..]) && prod == LegacyWeight(size[i..])
      invariant d[..i] + CoordinatesAsWritten(rest, size[i..]) == CoordinatesAsWritten(offset, size)
    {
      assert size[i..][1..] == size[i + 1..];
      d := d[i := rest / prod];
      assert d[..i + 1] == d[..i] + [rest / prod];
      rest := rest % prod;
      if i + 1 < dim {
        LegacyWeightStep(size[i..]);
      }
      prod := prod / size[i];
    }
    assert d[..dim] == d;
  }

  // ---------------------------------------------------------------------------
  // What the source computes on equal extents, and where it goes wrong
  // ---------------------------------------------------------------------------

  predicate EqualExtents(size: seq<nat>)
  {
    forall i, j :: 0 <= i < |size| && 0 <= j < |size| ==> size[i] == size[j]
  }

  /** With equal extents the radix of the source is the row-major weight. */
  lemma EqualExtentsWeight(size: seq<nat>)
    requires |size| >= 1 && MathUtils.Positive(size) && EqualExtents(size)
    ensures LegacyWeight(size) == MathUtils.Product(size[1..])
  {
    assert size[..|size| - 1] == size[1..];
  }

  /** With equal extents the as-written offset is the row-major index. */
  lemma {:induction false} EqualExtentsOffset(w: seq<int>, size: seq<nat>)
    requires |w| == |size| && MathUtils.Positive(size) && EqualExtents(size)
    ensures OffsetAsWritten(w, size) == MathUtils.RowMajor(w, size)
  {
    if |size| > 0 {
      EqualExtentsWeight(size);
      EqualExtentsOffset(w[1..], size[1..]);
    }
  }

  /** With equal extents the as-written coordinates are the mixed-radix digits. */
  lemma {:induction false} EqualExtentsCoordinates(offset: nat, size: seq<nat>)
    requires MathUtils.Positive(size) && EqualExtents(size)
    ensures CoordinatesAsWritten(offset, size) == MathUtils.Coordinates(offset, size)
  {
    if |size| > 0 {
      EqualExtentsWeight(size);
      var p := LegacyWeight(size);
      EqualExtentsCoordinates(offset % p, size[1..]);
    }
  }

  /** On equal extents (the square test lattices) the as-written pair is a
      round trip: every site's coordinates are on the grid and give the site
      back. */
  lemma EqualExtentsRoundTrip(offset: nat, size: seq<nat>)
    requires MathUtils.Positive(size) && EqualExtents(size) && offset < MathUtils.Product(size)
    ensures MathUtils.InRange(CoordinatesAsWritten(offset, size), size)
    ensures OffsetAsWritten(WrapAll(CoordinatesAsWritten(offset, size), size), size) == offset
  {
    EqualExtentsCoordinates(offset, size);
    var c := CoordinatesAsWritten(offset, size);
    MathUtils.CoordinatesRoundTrip(offset, size);
    WrapAllOnGrid(c, size);
    EqualExtentsOffset(c, size);
  }

  /** On a 2 x 3 lattice the sites (0, 2) and (1, 0) get the same offset 2,
      and offset 5 decomposes to the off-grid (2, 1), which maps back to 1. */
  lemma UnequalExtentsCounterexample()
    ensures OffsetAsWritten(WrapAll([0, 2], [2, 3]), [2, 3]) == 2
    ensures OffsetAsWritten(WrapAll([1, 0], [2, 3]), [2, 3]) == 2
    ensures CoordinatesAsWritten(5, [2, 3]) == [2, 1]
    ensures OffsetAsWritten(WrapAll([2, 1], [2, 3]), [2, 3]) == 1
  {
    var size: seq<nat> := [2, 3];
    assert size[..1] == [2] && size[1..] == [3] && size[1..][..0] == [] && [2][1..] == [];
    assert LegacyWeight(size) == 2;
    assert LegacyWeight(size[1..]) == 1;
    assert WrapAll([0, 2], size) == [0, 2];
    assert WrapAll([1, 0], size) == [1, 0];
    assert WrapAll([2, 1], size) == [0, 1];
    assert [0, 2][1..] == [2] && [1, 0][1..] == [0] && [0, 1][1..] == [1];
    assert CoordinatesAsWritten(1, size[1..]) == [1];
  }

  // ---------------------------------------------------------------------------
  // GetOffset / GetCoordinates in row-major order
  // ---------------------------------------------------------------------------

  /** GetOffset with the row-major radix: wrap every coordinate onto the grid,
      then the index is below the number of sites and its digits are the
      wrapped coordinates. */
  function GetOffset(coords: seq<int>, size: seq<nat>): (offset: int)
    requires |coords| == |size| && MathUtils.Positive(size)
    ensures 0 <= offset < MathUtils.Product(size)
    ensures MathUtils.Coordinates(offset, size) == WrapAll(coords, size)
  {
    MathUtils.RowMajorBound(WrapAll(coords, size), size);
    MathUtils.RowMajorRoundTrip(WrapAll(coords, size), size);
    MathUtils.RowMajor(WrapAll(coords, size), size)
  }

  /** GetCoordinates with the row-major radix: the digits of a site are on the
      grid and GetOffset gives the site back. */
  function GetCoordinates(offset: nat, size: seq<nat>): (c: seq<int>)
    requires MathUtils.Positive(size) && offset < MathUtils.Product(size)
    ensures |c| == |size| && MathUtils.InRange(c, size)
    ensures GetOffset(c, size) == offset
  {
    var c := MathUtils.Coordinates(offset, size);
    MathUtils.CoordinatesRoundTrip(offset, size);
    WrapAllOnGrid(c, size);
    c
  }

  /** On the 2 x 3 lattice the row-major offsets of (0, 2) and (1, 0) differ. */
  lemma RowMajorSeparates()
    ensures GetOffset([0, 2], [2, 3]) == 2
    ensures GetOffset([1, 0], [2, 3]) == 3
  {
    var size: seq<nat> := [2, 3];
    assert WrapAll([0, 2], size) == [0, 2];
    assert WrapAll([1, 0], size) == [1, 0];
    assert size[1..] == [3] && size[1..][1..] == [];
    assert [0, 2][1..] == [2] && [1, 0][1..] == [0];
  }

  /** Wrapping is periodic: adding a multiple of an extent to one coordinate
      leaves the wrapped coordinates unchanged. */
  lemma WrapAllPeriodic(c: seq<int>, size: seq<nat>, k: nat, m: int)
    requires |c| == |size| && MathUtils.Positive(size) && k < |c|
    ensures WrapAll(c[k := c[k] + m * size[k]], size) == WrapAll(c, size)
  {
    MathUtils.ModShift(c[k], m, size[k]);
  }

  /** Both versions of GetOffset wrap first, so neither sees a shift of one
      coordinate by a multiple of its extent. */
  lemma OffsetPeriodic(c: seq<int>, size: seq<nat>, k: nat, m: int)
    requires |c| == |size| && MathUtils.Positive(size) && k < |c|
    ensures OffsetAsWritten(WrapAll(c[k := c[k] + m * size[k]], size), size)
         == OffsetAsWritten(WrapAll(c, size), size)
    ensures GetOffset(c[k := c[k] + m * size[k]], size) == GetOffset(c, size)
  {
    WrapAllPeriodic(c, size, k, m);
  }

  // ---------------------------------------------------------------------------
  // The lattice object
  // ---------------------------------------------------------------------------

  /** A historical lattice: its extents, number of sites, neighbour lists and
      per-pair per-axis distance entries. */
  datatype Lattice = Lattice(
    dim: nat,
    size: seq<nat>,
    numsites: nat,
    neighbors: seq<seq<nat>>,
    distances: seq<seq<int>>)
  {
    predicate Valid()
    {
      dim == |size| && MathUtils.Positive(size) && numsites == MathUtils.Product(size)
    }

    /** PairIndex: the triangular index of the unordered pair {a, b}, the same
        for (a, b) and (b, a) and below the number of unordered pairs. */
    function PairIndex(a: nat, b: nat): (r: nat)
      requires a < numsites && b < numsites
      ensures r == LegacyMathUtils.GetPairIndex(b, a, numsites)
      ensures r < LegacyMathUtils.GetNumPairs(numsites)
    {
      LegacyMathUtils.PairIndexSymmetric(a, b, numsites);
      if a <= b then
        LegacyMathUtils.PairIndexInjective(a, b, a, b, numsites);
        LegacyMathUtils.GetPairIndex(a, b, numsites)
      else
        LegacyMathUtils.PairIndexInjective(b, a, b, a, numsites);
        LegacyMathUtils.GetPairIndex(a, b, numsites)
    }

    /** EnforceBoundaries: every component wrapped onto the grid. */
    method EnforceBoundaries(coords: array<int>)
      requires Valid() && coords.Length == dim
      modifies coords
      ensures coords[..] == WrapAll(old(coords[..]), size)
    {
      WrapInPlace(coords, size);
    }

    /** AreNeighbors: whether b occurs in the neighbour list of a. */
    function AreNeighbors(a: nat, b: nat): (r: bool)
      requires a < |neighbors|
      ensures r <==> exists k :: 0 <= k < |neighbors[a]| && neighbors[a][k] == b
    {
      b in neighbors[a]
    }
  }

  /** The constructor: the dimension is the number of extents and the number
      of sites their product, at least one. */
  function NewLattice(size: seq<nat>, neighbors: seq<seq<nat>>, distances: seq<seq<int>>): (l: Lattice)
    requires MathUtils.Positive(size)
    ensures l.Valid() && l.numsites >= 1
    ensures l.size == size && l.neighbors == neighbors && l.distances == distances
  {
    MathUtils.ProductPositive(size);
    Lattice(|size|, size, MathUtils.Product(size), neighbors, distances)
  }
}
