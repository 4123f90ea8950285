/**
  The finite grid of include/bwsl/HyperCubicGrid.hpp: extents per dimension,
  sites numbered in mixed radix (first dimension most significant), open or
  closed (periodic) boundaries, translation of one site relative to another,
  minimum-image jumps and the ordered pair index of two sites.
*/
module HyperCubicGrid {
  import MathUtils
  import Pairs

  datatype Boundaries = Open | Closed

  /** Component-wise Euclidean reduction of coordinates onto the extents: what
      the boundary-enforcing while loops leave behind. */
  function WrapAll(c: seq<int>, size: seq<nat>): (w: seq<int>)
    requires |c| == |size| && MathUtils.Positive(size)
    ensures |w| == |c|
    ensures MathUtils.InRange(w, size)
  {
    seq(|c|, i requires 0 <= i < |c| => c[i] % size[i])
  }

  /** Wrapping leaves on-grid coordinates alone. */
  lemma WrapAllOnGrid(c: seq<int>, size: seq<nat>)
    requires |c| == |size| && MathUtils.Positive(size) && MathUtils.InRange(c, size)
    ensures WrapAll(c, size) == c
  {
    forall i | 0 <= i < |c|
      ensures WrapAll(c, size)[i] == c[i]
    {
      MathUtils.ModOfInRange(c[i], size[i]);
    }
  }

  /** Wraps every component into [0, size[i]) by repeated additions and
      subtractions of the extent, as both EnforceBoundaries do. */
  method WrapInPlace(coords: array<int>, size: seq<nat>)
    requires coords.Length == |size| && MathUtils.Positive(size)
    modifies coords
    ensures coords[..] == WrapAll(old(coords[..]), size)
  {
    for i := 0 to coords.Length
      invariant forall k :: 0 <= k < i ==> coords[k] == old(coords[k]) % size[k]
      invariant forall k :: i <= k < coords.Length ==> coords[k] == old(coords[k])
    {
      var s := size[i];
      ghost var steps := 0;
      while coords[i] < 0
        invariant coords[i] == old(coords[i]) + steps * s
        invariant forall k :: 0 <= k < i ==> coords[k] == old(coords[k]) % size[k]
        invariant forall k :: i < k < coords.Length ==> coords[k] == old(coords[k])
        decreases -coords[i]
      {
        coords[i] := coords[i] + s;
        steps := steps + 1;
      }
      while coords[i] >= s
        invariant coords[i] >= 0
        invariant coords[i] == old(coords[i]) + steps * s
        invariant forall k :: 0 <= k < i ==> coords[k] == old(coords[k]) % size[k]
        invariant forall k :: i < k < coords.Length ==> coords[k] == old(coords[k])
        decreases coords[i]
      {
        coords[i] := coords[i] - s;
        steps := steps - 1;
      }
      MathUtils.ModShift(old(coords[i]), steps, s);
      MathUtils.ModOfInRange(coords[i], s);
    }
  }

  /** One component of a closed-boundary jump: the displacement c along an axis
      of extent s, shifted once by s into the minimum-image range. */
  function JumpComponent(c: int, s: int): int
  {
    var half := s / 2;
    var c1 := if c > half then c - s else c;
    if c1 < -half || (s % 2 == 0 && c1 == -half) then c1 + s else c1
  }

  /** The loop of GetJump under closed boundaries: each component is brought
      into (-s/2, s/2] by at most one subtraction and one addition of its extent. */
  method MinimumImageInPlace(jump: array<int>, size: seq<nat>)
    requires jump.Length == |size| && MathUtils.Positive(size)
    modifies jump
    ensures jump[..] == seq(|size|, k requires 0 <= k < |size| => JumpComponent(old(jump[k]), size[k]))
  {
    for i := 0 to jump.Length
      invariant forall k :: 0 <= k < i ==> jump[k] == JumpComponent(old(jump[k]), size[k])
      invariant forall k :: i <= k < jump.Length ==> jump[k] == old(jump[k])
    {
      var s: int := size[i];
      var half: int := s / 2;
      if jump[i] > half {
        jump[i] := jump[i] - s;
      }
      if jump[i] < -half || (s % 2 == 0 && jump[i] == -half) {
        jump[i] := jump[i] + s;
      }
    }
  }

  /** For a displacement between two on-grid coordinates, the jump differs from
      it by at most one extent and lies in (-s/2, s/2]. */
  lemma JumpComponentRange(c: int, s: int)
    requires s > 0 && -s < c < s
    ensures var r := JumpComponent(c, s);
      (r == c || r == c - s || r == c + s) && (r - c) % s == 0 && -s < 2 * r <= s
  {
    var r := JumpComponent(c, s);
    JumpComponentShift(c, s);
    if r == c - s {
      MathUtils.MulMod(s, -1);
    } else if r == c + s {
      MathUtils.MulMod(s, 1);
    } else {
      MathUtils.MulMod(s, 0);
    }
  }

  lemma JumpComponentShift(c: int, s: int)
    requires s > 0 && -s < c < s
    ensures var r := JumpComponent(c, s);
      (r == c || r == c - s || r == c + s) && -s < 2 * r <= s
  {
  }

  /** The jump is a shortest representative of its residue class. */
  lemma JumpIsMinimumImage(c: int, s: int, m: int)
    requires s > 0 && -s < c < s
    ensures MathUtils.Abs(JumpComponent(c, s)) <= MathUtils.Abs(JumpComponent(c, s) + m * s)
  {
    JumpComponentRange(c, s);
    if m >= 1 {
      MathUtils.MulLe(1, m, s);
    } else if m <= -1 {
      MathUtils.MulLe(m, -1, s);
    }
  }

  datatype Grid = Grid(dim: nat, size: seq<nat>, numSites: nat, numPairs: nat, boundaries: Boundaries)
  {
    /** The state the constructor establishes, with every extent positive. */
    predicate Valid()
    {
      dim == |size| && MathUtils.Positive(size) && numSites == MathUtils.Product(size)
      && numPairs == Pairs.GetNumPairs(numSites, false)
    }

    /** The coordinates of a site, as index_to_array computes them. */
    function Coords(i: nat): (c: seq<int>)
      requires Valid()
      ensures |c| == dim
    {
      MathUtils.Coordinates(i, size)
    }

    /** The site of some coordinates, as array_to_index computes it. */
    function Index(c: seq<int>): int
      requires Valid() && |c| == dim
    {
      MathUtils.RowMajor(c, size)
    }

    predicate OnGrid(c: seq<int>)
      requires Valid() && |c| == dim
    {
      MathUtils.InRange(c, size)
    }

    /** coords(b) - coords(a), component by component. */
    function Displacement(a: nat, b: nat): (d: seq<int>)
      requires Valid()
      ensures |d| == dim
    {
      MathUtils.Minus(Coords(b), Coords(a))
    }

    /** The site holding b once a is translated to the origin (closed boundaries). */
    function MappedSite(a: nat, b: nat): (s: int)
      requires Valid()
      ensures 0 <= s < numSites
    {
      MathUtils.RowMajorBound(WrapAll(Displacement(a, b), size), size);
      Index(WrapAll(Displacement(a, b), size))
    }

    /** The site holding i once the origin is translated to a (closed boundaries). */
    function UnMappedSite(i: nat, a: nat): (s: int)
      requires Valid()
      ensures 0 <= s < numSites
    {
      MathUtils.RowMajorBound(WrapAll(MathUtils.Plus(Coords(a), Coords(i)), size), size);
      Index(WrapAll(MathUtils.Plus(Coords(a), Coords(i)), size))
    }

    /** The displacement from a to b, reduced to the minimum image under closed boundaries. */
    function Jump(a: nat, b: nat): (j: seq<int>)
      requires Valid()
      ensures |j| == dim
    {
      var d := Displacement(a, b);
      if boundaries == Closed then seq(dim, i requires 0 <= i < dim => JumpComponent(d[i], size[i])) else d
    }

    /** GetCoordinates: the coordinates of a site; a site on the grid has
        on-grid coordinates that index back to it. */
    method GetCoordinates(offset: nat) returns (c: seq<int>)
      requires Valid()
      ensures c == Coords(offset)
      ensures offset < numSites ==> OnGrid(c) && Index(c) == offset
    {
      c := MathUtils.IndexToArray(offset, size);
    }

    /** GetIndex: the site of some coordinates; on-grid coordinates give a site
        of the grid whose coordinates are the same. */
    method GetIndex(coords: seq<int>) returns (i: int)
      requires Valid() && |coords| == dim
      ensures i == Index(coords)
      ensures OnGrid(coords) ==> 0 <= i < numSites && Coords(i) == coords
    {
      i := MathUtils.ArrayToIndex(coords, size);
      if OnGrid(coords) {
        MathUtils.RowMajorRoundTrip(coords, size);
      }
    }

    /** IsOnGrid: every component is non-negative and below its extent. */
    method IsOnGrid(coords: seq<int>) returns (b: bool)
      requires Valid() && |coords| == dim
      ensures b <==> OnGrid(coords)
    {
      for i := 0 to dim
        invariant forall k :: 0 <= k < i ==> 0 <= coords[k] < size[k]
      {
        if coords[i] < 0 || coords[i] >= size[i] {
          return false;
        }
      }
      return true;
    }

    /** EnforceBoundaries: under closed boundaries every component is wrapped
        onto the grid; under open boundaries nothing changes. */
    method EnforceBoundaries(coords: array<int>)
      requires Valid() && coords.Length == dim
      modifies coords
      ensures boundaries == Closed ==> coords[..] == WrapAll(old(coords[..]), size)
      ensures boundaries == Open ==> coords[..] == old(coords[..])
    {
      if boundaries == Closed {
        WrapInPlace(coords, size);
      }
    }

    /** GetMappedSite: coords(b) - coords(a), wrapped under closed boundaries
        and indexed; under open boundaries the displacement is indexed as it
        is, and need not give a site of the grid. */
    method GetMappedSite(a: nat, b: nat) returns (s: int)
      requires Valid()
      ensures boundaries == Closed ==> s == MappedSite(a, b) && 0 <= s < numSites
      ensures boundaries == Open ==> s == Index(Displacement(a, b))
    {
      var cbs := GetCoordinates(b);
      var ca := GetCoordinates(a);
      var cb := new int[dim](i requires 0 <= i < dim => cbs[i]);
      assert cb[..] == cbs;
      MathUtils.SubtractInto(cb, ca);
      EnforceBoundaries(cb);
      s := GetIndex(cb[..]);
      if boundaries == Closed {
        MathUtils.RowMajorBound(cb[..], size);
      }
    }

    /** GetUnMappedSite: coords(a) + coords(i), wrapped under closed
        boundaries and indexed; under open boundaries the sum is indexed as it
        is, and need not give a site of the grid. */
    method GetUnMappedSite(i: nat, a: nat) returns (s: int)
      requires Valid()
      ensures boundaries == Closed ==> s == UnMappedSite(i, a) && 0 <= s < numSites
      ensures boundaries == Open ==> s == Index(MathUtils.Plus(Coords(a), Coords(i)))
    {
      var cas := GetCoordinates(a);
      var ci := GetCoordinates(i);
      var ca := new int[dim](k requires 0 <= k < dim => cas[k]);
      assert ca[..] == cas;
      MathUtils.SumInto(ca, ci);
      EnforceBoundaries(ca);
      s := GetIndex(ca[..]);
      if boundaries == Closed {
        MathUtils.RowMajorBound(ca[..], size);
      }
    }

    /** GetJump: the displacement from a to b; under closed boundaries each
        component is shifted by at most one extent into (-s/2, s/2]. */
    method GetJump(a: nat, b: nat) returns (jump: seq<int>)
      requires Valid() && a < numSites && b < numSites
      ensures jump == Jump(a, b)
      ensures boundaries == Open ==> jump == Displacement(a, b)
      ensures boundaries == Closed ==> forall i :: 0 <= i < dim ==>
        (jump[i] - Displacement(a, b)[i]) % size[i] == 0 && -size[i] < 2 * jump[i] <= size[i]
    {
      var cbs := GetCoordinates(b);
      var ca := GetCoordinates(a);
      var cb := new int[dim](i requires 0 <= i < dim => cbs[i]);
      assert cb[..] == cbs;
      MathUtils.SubtractInto(cb, ca);
      ghost var d := cb[..];
      assert d == Displacement(a, b);
      if boundaries == Closed {
        MinimumImageInPlace(cb, size);
      }
      jump := cb[..];
      JumpProperties(a, b);
    }

    /** Under open boundaries the jump is the raw displacement; under closed
        ones each component differs from it by a multiple of the extent and
        lies in (-s/2, s/2]. */
    lemma JumpProperties(a: nat, b: nat)
      requires Valid() && a < numSites && b < numSites
      ensures boundaries == Open ==> Jump(a, b) == Displacement(a, b)
      ensures boundaries == Closed ==> forall i :: 0 <= i < dim ==>
        (Jump(a, b)[i] - Displacement(a, b)[i]) % size[i] == 0 && -size[i] < 2 * Jump(a, b)[i] <= size[i]
    {
      if boundaries == Closed {
        DisplacementInRange(a, b);
        forall i | 0 <= i < dim
          ensures (Jump(a, b)[i] - Displacement(a, b)[i]) % size[i] == 0 && -size[i] < 2 * Jump(a, b)[i] <= size[i]
        {
          JumpComponentRange(Displacement(a, b)[i], size[i]);
        }
      }
    }

    /** GetPairIndex: the ordered pair index b * numSites + a. */
    function GetPairIndex(a: nat, b: nat): (p: nat)
      requires Valid()
      ensures a < numSites && b < numSites ==> p < numSites * numSites
    {
      ProductOfExtents(size);
      PairIndexBelow(a, b, numSites);
      Pairs.GetPairIndex(a, b, numSites, false)
    }

    /** GetIndividualIndices: the two sites of an ordered pair index. */
    function GetIndividualIndices(pair: nat): (p: Pairs.Pair)
      requires Valid()
      ensures p.first < numSites
    {
      MathUtils.ProductPositive(size);
      Pairs.GetPair(pair, numSites, false)
    }

    // -------------------------------------------------------------------------
    // Properties
    // -------------------------------------------------------------------------

    /** Every site of the grid has on-grid coordinates that index back to it. */
    lemma IndexCoordinatesRoundTrip(i: nat)
      requires Valid() && i < numSites
      ensures OnGrid(Coords(i)) && Index(Coords(i)) == i
    {
      MathUtils.CoordinatesRoundTrip(i, size);
    }

    /** Two sites below numSites are recovered from their pair index. */
    lemma PairIndicesRoundTrip(a: nat, b: nat)
      requires Valid() && a < numSites
      ensures GetIndividualIndices(GetPairIndex(a, b)) == Pairs.Pair(a, b)
    {
      Pairs.PairRoundTrip(a, b, numSites);
    }

    lemma DisplacementInRange(a: nat, b: nat)
      requires Valid() && a < numSites && b < numSites
      ensures forall i :: 0 <= i < dim ==> -size[i] < Displacement(a, b)[i] < size[i]
    {
      IndexCoordinatesRoundTrip(a);
      IndexCoordinatesRoundTrip(b);
    }

    /** A site mapped relative to itself is the origin. */
    lemma MappedSelf(a: nat)
      requires Valid()
      ensures MappedSite(a, a) == 0
    {
      var d := Displacement(a, a);
      var w := WrapAll(d, size);
      forall i | 0 <= i < dim
        ensures w[i] == 0
      {
        assert d[i] == 0;
        MathUtils.ModOfInRange(0, size[i]);
      }
      RowMajorOfZeros(w, size);
    }

    /** Mapping relative to the origin changes nothing. */
    lemma MappedFromOrigin(b: nat)
      requires Valid() && b < numSites
      ensures MappedSite(0, b) == b
    {
      MathUtils.CoordinatesOfZero(size);
      IndexCoordinatesRoundTrip(b);
      assert Displacement(0, b) == Coords(b);
      WrapAllOnGrid(Coords(b), size);
    }

    /** Unmapping relative to i undoes mapping relative to i. */
    lemma UnMapRoundTrip(i: nat, j: nat)
      requires Valid() && j < numSites
      ensures UnMappedSite(MappedSite(i, j), i) == j
    {
      var w := WrapAll(Displacement(i, j), size);
      MathUtils.RowMajorRoundTrip(w, size);
      var m := MappedSite(i, j);
      assert Coords(m) == w;
      IndexCoordinatesRoundTrip(j);
      var ci, cj := Coords(i), Coords(j);
      var sum := MathUtils.Plus(ci, w);
      forall k | 0 <= k < dim
        ensures sum[k] % size[k] == cj[k]
      {
        UnwrapComponent(cj[k], ci[k], size[k]);
      }
      assert WrapAll(sum, size) == cj;
    }
  }

  /** Adding x back to (y - x) reduced modulo s gives y again, for y in [0, s). */
  lemma UnwrapComponent(y: int, x: int, s: int)
    requires 0 <= y < s
    ensures ((y - x) % s + x) % s == y
  {
    var d := y - x;
    assert d == (d / s) * s + d % s;
    assert d % s + x == y + -(d / s) * s;
    MathUtils.ModShift(y, -(d / s), s);
    MathUtils.ModOfInRange(y, s);
  }

  lemma PairIndexBelow(a: nat, b: nat, n: nat)
    requires n > 0
    ensures a < n && b < n ==> Pairs.GetPairIndex(a, b, n, false) < n * n
  {
    if a < n && b < n {
      Pairs.PairIndexBound(a, b, n);
    }
  }

  lemma ProductOfExtents(size: seq<nat>)
    ensures MathUtils.Product(size) >= 0
    ensures MathUtils.Positive(size) ==> MathUtils.Product(size) > 0
  {
    MathUtils.ProductNonnegative(size);
    if MathUtils.Positive(size) {
      MathUtils.ProductPositive(size);
    }
  }

  lemma {:induction false} RowMajorOfZeros(c: seq<int>, size: seq<nat>)
    requires |c| == |size| && forall i :: 0 <= i < |c| ==> c[i] == 0
    ensures MathUtils.RowMajor(c, size) == 0
  {
    if |c| > 0 {
      RowMajorOfZeros(c[1..], size[1..]);
    }
  }

  /** The grid the constructor builds from a list of extents. */
  function NewGrid(size: seq<nat>, boundaries: Boundaries): (g: Grid)
    ensures g.dim == |size| && g.size == size && g.boundaries == boundaries
    ensures g.numSites == MathUtils.Product(size)
    ensures MathUtils.Positive(size) ==> g.Valid() && g.numSites > 0
  {
    ProductOfExtents(size);
    var n := MathUtils.Product(size);
    Grid(|size|, size, n, Pairs.GetNumPairs(n, false), boundaries)
  }

  /** On a two-dimensional grid of extents [a, b], site i sits at (i / b, i % b)
      and (x, y) is site x * b + y. */
  lemma TwoDimensional(i: nat, c: seq<int>, a: nat, b: nat)
    requires a > 0 && b > 0 && |c| == 2
    ensures MathUtils.Coordinates(i, [a, b]) == [i / b, i % b]
    ensures MathUtils.RowMajor(c, [a, b]) == c[0] * b + c[1]
  {
    var size := [a, b];
    assert size[1..] == [b] && [b][1..] == [];
    assert MathUtils.Product([b]) == b;
    assert MathUtils.Coordinates(i % b, [b]) == [i % b];
    assert MathUtils.RowMajor(c[1..], [b]) == c[1];
    assert MathUtils.RowMajor(c, size) == c[0] * b + MathUtils.RowMajor(c[1..], [b]);
  }

  /** On a closed two-dimensional grid of extents [p, q], translating a to
      the origin moves b by the row and column differences, each wrapped. */
  lemma MappedSiteTwoDimensional(g: Grid, p: nat, q: nat, a: nat, b: nat)
    requires g.Valid() && p > 0 && q > 0 && g.size == [p, q]
    ensures g.MappedSite(a, b) == ((b / q - a / q) % p) * q + (b % q - a % q) % q
  {
    TwoDimensional(a, [0, 0], p, q);
    TwoDimensional(b, [0, 0], p, q);
    var w := WrapAll(g.Displacement(a, b), g.size);
    assert w == [(b / q - a / q) % p, (b % q - a % q) % q];
    TwoDimensional(0, w, p, q);
  }

  /** The 3 x 4 grid has twelve sites, and translating site 6 to the origin
      takes sites 7, 2 and 1 to sites 1, 8 and 11. */
  lemma MappedSiteExamples()
    ensures NewGrid([3, 4], Closed).numSites == 12
    ensures var g := NewGrid([3, 4], Closed);
      g.MappedSite(6, 7) == 1 && g.MappedSite(6, 2) == 8 && g.MappedSite(6, 1) == 11
  {
    var g := NewGrid([3, 4], Closed);
    MappedSiteTwoDimensional(g, 3, 4, 6, 7);
    MappedSiteTwoDimensional(g, 3, 4, 6, 2);
    MappedSiteTwoDimensional(g, 3, 4, 6, 1);
  }

  /** Jumps between sites 1, 8, 0 and 6 of the closed 3 x 4 grid. */
  lemma ClosedJumpExamples()
    ensures var g := NewGrid([3, 4], Closed);
      g.Jump(1, 8) == [-1, -1] && g.Jump(8, 1) == [1, 1] && g.Jump(0, 6) == [1, 2] && g.Jump(6, 0) == [-1, 2]
  {
    var g := NewGrid([3, 4], Closed);
    TwoDimensional(0, [0, 0], 3, 4);
    TwoDimensional(1, [0, 0], 3, 4);
    TwoDimensional(6, [0, 0], 3, 4);
    TwoDimensional(8, [0, 0], 3, 4);
    assert g.Displacement(1, 8) == [2, -1];
    assert g.Displacement(8, 1) == [-2, 1];
    assert g.Displacement(0, 6) == [1, 2];
    assert g.Displacement(6, 0) == [-1, -2];
  }

  /** The same jumps on the open 3 x 4 grid are the raw displacements. */
  lemma OpenJumpExamples()
    ensures var g := NewGrid([3, 4], Open);
      g.Jump(1, 8) == [2, -1] && g.Jump(8, 1) == [-2, 1] && g.Jump(0, 6) == [1, 2] && g.Jump(6, 0) == [-1, -2]
  {
    var g := NewGrid([3, 4], Open);
    TwoDimensional(0, [0, 0], 3, 4);
    TwoDimensional(1, [0, 0], 3, 4);
    TwoDimensional(6, [0, 0], 3, 4);
    TwoDimensional(8, [0, 0], 3, 4);
    assert g.Displacement(1, 8) == [2, -1];
    assert g.Displacement(8, 1) == [-2, 1];
    assert g.Displacement(0, 6) == [1, 2];
    assert g.Displacement(6, 0) == [-1, -2];
  }
}
