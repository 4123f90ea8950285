/**
  The infinite Bravais lattice of include/bwsl/Bravais.hpp: a dimension, a
  coordination number gamma, the direct basis as a dim x dim matrix stored so
  that entries j*dim .. j*dim+dim-1 hold basis vector j, its inverse, and a
  table of gamma/2 integer neighbour offsets of dim components each. Slot
  2k of a point's neighbours adds offset k, slot 2k+1 subtracts it.

  Real-space vectors are exact reals: the floating-point rounding of the
  source is not represented.
*/
module Bravais {
  import MathUtils

  datatype Bravais = Bravais(dim: nat, gamma: nat, direct: seq<real>, inverse: seq<real>, offsets: seq<int>)
  {
    /** The sizes the constructor asserts. */
    predicate Valid()
    {
      |direct| == dim * dim && |inverse| == dim * dim && |offsets| == gamma / 2 * dim
    }

    /** Component `i` of neighbour offset `row`. */
    function Offset(row: nat, i: nat): int
      requires Valid() && row < gamma / 2 && i < dim
    {
      RowEntryBound(row, i, gamma / 2, dim);
      offsets[row * dim + i]
    }

    /** Entry `i` of basis vector `j`. */
    function Basis(i: nat, j: nat): real
      requires Valid() && i < dim && j < dim
    {
      RowEntryBound(j, i, dim, dim);
      direct[i + j * dim]
    }

    /** GetNeighbor: a copy of `point` whose first dim components are moved by
        offset idx/2, forwards for even idx and backwards for odd idx. */
    function GetNeighbor(point: seq<int>, idx: nat): (n: seq<int>)
      requires Valid() && |point| >= dim && idx / 2 < gamma / 2
      ensures |n| == |point|
      ensures forall i :: dim <= i < |point| ==> n[i] == point[i]
    {
      seq(|point|, i requires 0 <= i < |point| =>
        if i < dim then point[i] + Direction(idx) * Offset(idx / 2, i) else point[i])
    }

    /** Component i of the real-space image of `coords`, summed over the first
        j basis vectors. */
    function PartialSum(coords: seq<int>, i: nat, j: nat): real
      requires Valid() && |coords| == dim && i < dim && j <= dim
    {
      if j == 0 then 0.0 else PartialSum(coords, i, j - 1) + (coords[j - 1] as real) * Basis(i, j - 1)
    }

    /** GetRealSpace: the linear combination of the basis vectors with the
        integer coordinates as weights. */
    function GetRealSpace(coords: seq<int>): (p: seq<real>)
      requires Valid() && |coords| == dim
      ensures |p| == dim
    {
      seq(dim, i requires 0 <= i < dim => PartialSum(coords, i, dim))
    }

    /** GetVector: the real-space image of the integer difference second - first. */
    function GetVector(first: seq<int>, second: seq<int>): (v: seq<real>)
      requires Valid() && |first| >= dim && |second| >= dim
      ensures |v| == dim
    {
      GetRealSpace(Difference(first, second, dim))
    }

    /** Moving forwards along an offset and then backwards along the same offset
        returns to the starting point, and so does the reverse order. */
    lemma NeighborInverse(point: seq<int>, k: nat)
      requires Valid() && |point| >= dim && k < gamma / 2
      ensures GetNeighbor(GetNeighbor(point, 2 * k), 2 * k + 1) == point
      ensures GetNeighbor(GetNeighbor(point, 2 * k + 1), 2 * k) == point
    {
      assert (2 * k) / 2 == k && (2 * k + 1) / 2 == k;
      assert Direction(2 * k) == 1 && Direction(2 * k + 1) == -1;
    }

    /** The real-space map is additive on integer differences. */
    lemma {:induction false} PartialSumDifference(a: seq<int>, b: seq<int>, i: nat, j: nat)
      requires Valid() && |a| == dim && |b| == dim && i < dim && j <= dim
      ensures PartialSum(Difference(a, b, dim), i, j) == PartialSum(b, i, j) - PartialSum(a, i, j)
    {
      if j > 0 {
        PartialSumDifference(a, b, i, j - 1);
        var d := Difference(a, b, dim);
        assert d[j - 1] == b[j - 1] - a[j - 1];
        LinearStep(PartialSum(d, i, j - 1), PartialSum(a, i, j - 1), PartialSum(b, i, j - 1),
          d[j - 1] as real, a[j - 1] as real, b[j - 1] as real, Basis(i, j - 1));
      }
    }

    lemma LinearStep(pd: real, pa: real, pb: real, d: real, a: real, b: real, x: real)
      requires pd == pb - pa && d == b - a
      ensures pd + d * x == (pb + b * x) - (pa + a * x)
    {
    }

    /** GetVector(first, second) is the real-space position of `second` minus
        that of `first`. */
    lemma VectorIsPositionDifference(first: seq<int>, second: seq<int>)
      requires Valid() && |first| == dim && |second| == dim
      ensures forall i :: 0 <= i < dim ==>
        GetVector(first, second)[i] == GetRealSpace(second)[i] - GetRealSpace(first)[i]
    {
      forall i | 0 <= i < dim
        ensures GetVector(first, second)[i] == GetRealSpace(second)[i] - GetRealSpace(first)[i]
      {
        PartialSumDifference(first, second, i, dim);
      }
    }

    /** The vector from a point to itself is zero, and swapping the two points negates it. */
    lemma VectorAntisymmetric(first: seq<int>, second: seq<int>)
      requires Valid() && |first| == dim && |second| == dim
      ensures forall i :: 0 <= i < dim ==> GetVector(first, first)[i] == 0.0
      ensures forall i :: 0 <= i < dim ==> GetVector(second, first)[i] == -GetVector(first, second)[i]
    {
      VectorIsPositionDifference(first, first);
      VectorIsPositionDifference(first, second);
      VectorIsPositionDifference(second, first);
    }

    /** With the identity as direct basis, real-space positions are the coordinates themselves. */
    lemma {:induction false} IdentityPartialSum(coords: seq<int>, i: nat, j: nat)
      requires Valid() && direct == Identity(dim) && |coords| == dim && i < dim && j <= dim
      ensures PartialSum(coords, i, j) == if i < j then coords[i] as real else 0.0
    {
      if j > 0 {
        IdentityPartialSum(coords, i, j - 1);
        IdentityEntry(dim, i, j - 1);
      }
    }

    lemma IdentityRealSpace(coords: seq<int>)
      requires Valid() && direct == Identity(dim) && |coords| == dim
      ensures forall i :: 0 <= i < dim ==> GetRealSpace(coords)[i] == coords[i] as real
    {
      forall i | 0 <= i < dim
        ensures GetRealSpace(coords)[i] == coords[i] as real
      {
        IdentityPartialSum(coords, i, dim);
      }
    }
  }

  /** +1 for even neighbour slots, -1 for odd ones. */
  function Direction(idx: nat): int
  {
    if idx % 2 == 0 then 1 else -1
  }

  /** The neighbour slot that undoes slot j: 2k and 2k+1 are partners. */
  function Partner(j: nat): nat
  {
    if j % 2 == 0 then j + 1 else j - 1
  }

  /** The first n components of second - first. */
  function Difference(first: seq<int>, second: seq<int>, n: nat): (d: seq<int>)
    requires |first| >= n && |second| >= n
    ensures |d| == n
  {
    seq(n, i requires 0 <= i < n => second[i] - first[i])
  }

  /** The dim x dim identity matrix in the basis layout. */
  function Identity(dim: nat): (m: seq<real>)
    ensures |m| == dim * dim
  {
    seq(dim * dim, k requires 0 <= k < dim * dim => if k % dim == k / dim then 1.0 else 0.0)
  }

  lemma IdentityEntry(dim: nat, i: nat, j: nat)
    requires i < dim && j < dim
    ensures i + j * dim < dim * dim
    ensures Identity(dim)[i + j * dim] == if i == j then 1.0 else 0.0
  {
    RowEntryBound(j, i, dim, dim);
    MathUtils.DivModUnique(i + j * dim, dim, j, i);
  }

  lemma RowEntryBound(row: nat, i: nat, rows: nat, width: nat)
    requires row < rows && i < width
    ensures row * width + i < rows * width
    ensures i + row * width < rows * width
  {
    MathUtils.MulLe(row + 1, rows, width);
  }

  // ---------------------------------------------------------------------------
  // The four canonical lattices
  // ---------------------------------------------------------------------------

  const ChainLattice: Bravais := Bravais(1, 2, [1.0], [1.0], [1])

  const SquareLattice: Bravais :=
    Bravais(2, 4, [1.0, 0.0, 0.0, 1.0], [1.0, 0.0, 0.0, 1.0], [1, 0, 0, 1])

  const CubicLattice: Bravais :=
    Bravais(3, 6,
      [1.0, 0.0, 0.0, 0.0, 1.0, 0.0, 0.0, 0.0, 1.0],
      [1.0, 0.0, 0.0, 0.0, 1.0, 0.0, 0.0, 0.0, 1.0],
      [1, 0, 0, 0, 1, 0, 0, 0, 1])

  /** The triangular lattice; `sqrt3` stands for the floating-point value of the square root of 3. */
  function TriangularLattice(sqrt3: real): (b: Bravais)
    requires sqrt3 > 0.0
    ensures b.Valid() && b.dim == 2 && b.gamma == 6
  {
    Bravais(2, 6, [1.0, 0.0, 0.5, sqrt3 / 2.0], [1.0, -1.0 / sqrt3, 0.0, 2.0 / sqrt3], [1, 0, 0, 1, 1, -1])
  }

  /** Each constant satisfies the constructor's size invariant with its dimension and coordination. */
  lemma ConstantsValid()
    ensures ChainLattice.Valid() && ChainLattice.dim == 1 && ChainLattice.gamma == 2
    ensures SquareLattice.Valid() && SquareLattice.dim == 2 && SquareLattice.gamma == 4
    ensures CubicLattice.Valid() && CubicLattice.dim == 3 && CubicLattice.gamma == 6
  {
  }

  /** Chain, square and cubic lattices have the identity as direct basis. */
  lemma HyperCubicBases()
    ensures ChainLattice.direct == Identity(1)
    ensures SquareLattice.direct == Identity(2)
    ensures CubicLattice.direct == Identity(3)
  {
    forall k | 0 <= k < 4
      ensures SquareLattice.direct[k] == Identity(2)[k]
    {
      IdentityEntry(2, k % 2, k / 2);
    }
    forall k | 0 <= k < 9
      ensures CubicLattice.direct[k] == Identity(3)[k]
    {
      IdentityEntry(3, k % 3, k / 3);
    }
  }

  /** Slot 0 of the square lattice at (2, 2) is (3, 2), of the chain at (2) is (3);
      the six triangular neighbours of (2, 2) are (3, 2), (1, 2), (2, 3), (2, 1), (3, 1), (1, 3). */
  lemma NeighborExamples(sqrt3: real)
    requires sqrt3 > 0.0
    ensures SquareLattice.GetNeighbor([2, 2], 0) == [3, 2]
    ensures ChainLattice.GetNeighbor([2], 0) == [3] && ChainLattice.GetNeighbor([2], 1) == [1]
    ensures var t := TriangularLattice(sqrt3);
      t.GetNeighbor([2, 2], 0) == [3, 2] && t.GetNeighbor([2, 2], 1) == [1, 2]
      && t.GetNeighbor([2, 2], 2) == [2, 3] && t.GetNeighbor([2, 2], 3) == [2, 1]
      && t.GetNeighbor([2, 2], 4) == [3, 1] && t.GetNeighbor([2, 2], 5) == [1, 3]
  {
    var t := TriangularLattice(sqrt3);
    forall slot | 0 <= slot < 6
      ensures t.GetNeighbor([2, 2], slot) == [2 + Direction(slot) * t.Offset(slot / 2, 0), 2 + Direction(slot) * t.Offset(slot / 2, 1)]
    {
    }
    assert t.Offset(0, 0) == 1 && t.Offset(0, 1) == 0;
    assert t.Offset(1, 0) == 0 && t.Offset(1, 1) == 1;
    assert t.Offset(2, 0) == 1 && t.Offset(2, 1) == -1;
    assert SquareLattice.Offset(0, 0) == 1 && SquareLattice.Offset(0, 1) == 0;
    assert ChainLattice.Offset(0, 0) == 1;
  }

  /** The triangular basis places (1, 1) at (1.5, sqrt3 / 2). */
  lemma TriangularRealSpaceExample(sqrt3: real)
    requires sqrt3 > 0.0
    ensures TriangularLattice(sqrt3).GetRealSpace([1, 1]) == [1.5, sqrt3 / 2.0]
  {
    var t := TriangularLattice(sqrt3);
    assert t.Basis(0, 0) == 1.0 && t.Basis(1, 0) == 0.0;
    assert t.Basis(0, 1) == 0.5 && t.Basis(1, 1) == sqrt3 / 2.0;
    assert t.PartialSum([1, 1], 0, 1) == 1.0;
    assert t.PartialSum([1, 1], 1, 1) == 0.0;
    assert t.PartialSum([1, 1], 0, 2) == 1.5;
    assert t.PartialSum([1, 1], 1, 2) == sqrt3 / 2.0;
  }
}
