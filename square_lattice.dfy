/**
  The historical square lattice of src/SquareLattice.hpp: every site has
  2 * dim neighbours, one step back and one step forward along each axis with
  periodic wrap, and a table holds, for every unordered pair of sites, the
  per-axis integer minimum-image separation.

  The tables built here use the row-major offsets and coordinates of
  LegacyLattice (GetOffset, GetCoordinates). The tables the source builds
  with the inherited pair are NeighborTableAsWritten and SeparationAsWritten:
  they are the same on equal extents, as on every square test lattice, and
  differ on a 2 x 3 lattice.
*/
module SquareLattice {
  import MathUtils
  import Bravais
  import LegacyMathUtils
  import opened HyperCubicGrid
  import LegacyLattice

  // ---------------------------------------------------------------------------
  // Neighbour table
  // ---------------------------------------------------------------------------

  /** The sign of slot j: -1 for even slots, +1 for odd ones. */
  function Step(j: nat): int
  {
    (j % 2) * 2 - 1
  }

  /** The number of sites, a positive natural number. */
  function NumSites(size: seq<nat>): (n: nat)
    requires MathUtils.Positive(size)
    ensures n == MathUtils.Product(size) && n >= 1
  {
    MathUtils.ProductPositive(size);
    MathUtils.Product(size)
  }

  lemma HalfBelow(j: nat, d: nat)
    requires j < 2 * d
    ensures j / 2 < d && Bravais.Partner(j) < 2 * d && Bravais.Partner(j) / 2 == j / 2
  {
  }

  /** `coords` with axis j / 2 moved by Step(j). */
  function Shifted(coords: seq<int>, j: nat): (n: seq<int>)
    requires j / 2 < |coords|
    ensures |n| == |coords|
  {
    coords[j / 2 := coords[j / 2] + Step(j)]
  }

  /** Entry j of site i in CreateNeighbors: the site's coordinates shifted
      along axis j / 2, wrapped, and turned back into an offset. */
  function NeighborSite(size: seq<nat>, i: nat, j: nat): (n: nat)
    requires MathUtils.Positive(size) && i < MathUtils.Product(size) && j < 2 * |size|
    ensures n < MathUtils.Product(size)
  {
    SlotOffset(size, LegacyLattice.GetCoordinates(i, size), j)
  }

  /** The offset of the site one step from coordinates c along axis j / 2,
      wrapped. */
  function SlotOffset(size: seq<nat>, c: seq<int>, j: nat): (n: nat)
    requires MathUtils.Positive(size) && |c| == |size| && j < 2 * |size|
    ensures n < MathUtils.Product(size)
  {
    HalfBelow(j, |size|);
    LegacyLattice.GetOffset(WrapAll(Shifted(c, j), size), size)
  }

  /** Entry j of site i is the site whose coordinates are those of i moved
      one step along axis j / 2 and wrapped. */
  lemma NeighborSiteCoordinates(size: seq<nat>, i: nat, j: nat)
    requires MathUtils.Positive(size) && i < MathUtils.Product(size) && j < 2 * |size|
    ensures j / 2 < |size|
    ensures MathUtils.Coordinates(NeighborSite(size, i, j), size)
         == WrapAll(Shifted(LegacyLattice.GetCoordinates(i, size), j), size)
  {
    var c := LegacyLattice.GetCoordinates(i, size);
    HalfBelow(j, |size|);
    var w := WrapAll(Shifted(c, j), size);
    WrapAllOnGrid(w, size);
    assert NeighborSite(size, i, j) == LegacyLattice.GetOffset(w, size);
  }

  /** The whole neighbour table: one row of 2 * dim entries per site. */
  function NeighborTable(size: seq<nat>): (t: seq<seq<nat>>)
    requires MathUtils.Positive(size)
    ensures |t| == MathUtils.Product(size)
    ensures forall i :: 0 <= i < |t| ==> |t[i]| == 2 * |size|
  {
    MathUtils.ProductPositive(size);
    seq(MathUtils.Product(size), i requires 0 <= i < MathUtils.Product(size) =>
      seq(2 * |size|, j requires 0 <= j < 2 * |size| => NeighborSite(size, i, j)))
  }

  /** CreateNeighbors: a table of nsites rows of 2 * dim zeros is allocated
      and filled site by site, slot by slot. */
  method CreateNeighbors(size: seq<nat>) returns (neighbors: seq<seq<nat>>)
    requires MathUtils.Positive(size)
    ensures neighbors == NeighborTable(size)
  {
    var nsites := NumSites(size);
    var dim := |size|;
    neighbors := seq(nsites, _ => seq(2 * dim, _ => 0));
    for i := 0 to nsites
      invariant |neighbors| == nsites
      invariant forall r :: 0 <= r < nsites ==> |neighbors[r]| == 2 * dim
      invariant forall r, k :: 0 <= r < i && 0 <= k < 2 * dim ==> neighbors[r][k] == NeighborSite(size, r, k)
    {
      neighbors := FillNeighbors(size, neighbors, i);
    }
    TableEquality(size, neighbors);
  }

  /** The inner loop of CreateNeighbors: slot j of site i gets the offset of
      the site one step along axis j / 2, wrapped; the other rows are left
      alone. */
  method FillNeighbors(size: seq<nat>, neighbors: seq<seq<nat>>, i: nat) returns (t: seq<seq<nat>>)
    requires MathUtils.Positive(size) && i < MathUtils.Product(size)
    requires i < |neighbors| && |neighbors[i]| == 2 * |size|
    ensures |t| == |neighbors| && |t[i]| == 2 * |size|
    ensures forall r :: 0 <= r < |t| && r != i ==> t[r] == neighbors[r]
    ensures forall k :: 0 <= k < 2 * |size| ==> t[i][k] == NeighborSite(size, i, k)
  {
    var dim := |size|;
    var coords := LegacyLattice.GetCoordinates(i, size);
    t := neighbors;
    for j := 0 to dim * 2
      invariant |t| == |neighbors| && |t[i]| == 2 * dim
      invariant forall r :: 0 <= r < |t| && r != i ==> t[r] == neighbors[r]
      invariant forall k :: 0 <= k < j ==> t[i][k] == NeighborSite(size, i, k)
    {
      HalfBelow(j, dim);
      var neighbor := Shifted(coords, j);
      var wrapped := WrapAll(neighbor, size);
      var offset: nat := LegacyLattice.GetOffset(wrapped, size);
      assert offset == NeighborSite(size, i, j);
      var row: seq<nat> := t[i][j := offset];
      t := t[i := row];
    }
  }

  lemma TableEquality(size: seq<nat>, t: seq<seq<nat>>)
    requires MathUtils.Positive(size) && |t| == MathUtils.Product(size)
    requires forall r :: 0 <= r < |t| ==> |t[r]| == 2 * |size|
    requires forall r, k :: 0 <= r < |t| && 0 <= k < 2 * |size| ==> t[r][k] == NeighborSite(size, r, k)
    ensures t == NeighborTable(size)
  {
    var n := NeighborTable(size);
    forall r | 0 <= r < |t| ensures t[r] == n[r] {
      assert forall k :: 0 <= k < 2 * |size| ==> t[r][k] == n[r][k];
    }
  }

  /** Slot j and its partner slot step along the same axis in opposite
      directions, so the partner of j leads from the neighbour back to the
      site. */
  lemma PartnerReturns(size: seq<nat>, i: nat, j: nat)
    requires MathUtils.Positive(size) && i < MathUtils.Product(size) && j < 2 * |size|
    ensures Bravais.Partner(j) < 2 * |size|
    ensures NeighborSite(size, NeighborSite(size, i, j), Bravais.Partner(j)) == i
  {
    HalfBelow(j, |size|);
    var c := LegacyLattice.GetCoordinates(i, size);
    var n := NeighborSite(size, i, j);
    NeighborSiteCoordinates(size, i, j);
    var cn := LegacyLattice.GetCoordinates(n, size);
    assert cn == WrapAll(Shifted(c, j), size);
    var back := WrapAll(Shifted(cn, Bravais.Partner(j)), size);
    assert Step(Bravais.Partner(j)) == -Step(j);
    ShiftBack(c, cn, size, j);
    assert back == c;
    assert LegacyLattice.GetOffset(back, size) == i;
  }

  lemma ShiftBack(c: seq<int>, cn: seq<int>, size: seq<nat>, j: nat)
    requires |c| == |size| && MathUtils.Positive(size) && MathUtils.InRange(c, size)
    requires j < 2 * |size| && j / 2 == Bravais.Partner(j) / 2 && Step(Bravais.Partner(j)) == -Step(j)
    requires cn == WrapAll(Shifted(c, j), size)
    ensures WrapAll(Shifted(cn, Bravais.Partner(j)), size) == c
  {
    var back := WrapAll(Shifted(cn, Bravais.Partner(j)), size);
    forall k | 0 <= k < |size| ensures back[k] == c[k]
    {
      MathUtils.ModOfInRange(c[k], size[k]);
      if k == j / 2 {
        MathUtils.ModAddMod(c[k] + Step(j), -Step(j), size[k]);
      } else {
        MathUtils.ModOfInRange(cn[k], size[k]);
      }
    }
  }

  /** On a square lattice neighbourhood is symmetric: every site listed for
      i lists i in return. */
  lemma NeighborsSymmetric(size: seq<nat>, a: nat, b: nat)
    requires MathUtils.Positive(size) && a < MathUtils.Product(size)
    requires b in NeighborTable(size)[a]
    ensures b < MathUtils.Product(size)
    ensures a in NeighborTable(size)[b]
  {
    var t := NeighborTable(size);
    var j :| 0 <= j < |t[a]| && t[a][j] == b;
    assert b == NeighborSite(size, a, j);
    PartnerReturns(size, a, j);
    assert t[b][Bravais.Partner(j)] == NeighborSite(size, b, Bravais.Partner(j)) == a;
  }

  /** GetCoordination: 2 * dim, the length of every row of the table. */
  function GetCoordination(size: seq<nat>): (z: nat)
    requires MathUtils.Positive(size)
    ensures forall i :: 0 <= i < MathUtils.Product(size) ==> |NeighborTable(size)[i]| == z
  {
    2 * |size|
  }

  // ---------------------------------------------------------------------------
  // Minimum-image distance table
  // ---------------------------------------------------------------------------

  /** The per-axis adjustment of GenerateDistances: one extent is subtracted
      above l / 2 and added below -l / 2 (C++ `-l/2` truncates toward zero,
      which for l > 0 is -(l / 2)). */
  function MinImage(d: int, l: int): int
  {
    if d > l / 2 then d - l else if d < -(l / 2) then d + l else d
  }

  /** For a difference of two on-grid coordinates the adjusted value is
      congruent to it modulo the extent and at most half the extent in size. */
  lemma MinImageProperties(d: int, l: int)
    requires l > 0 && -l < d < l
    ensures (MinImage(d, l) - d) % l == 0
    ensures MinImage(d, l) - d in {-l, 0, l}
    ensures -(l / 2) <= MinImage(d, l) <= l / 2
  {
    var r := MinImage(d, l);
    if r == d - l {
      MathUtils.MulMod(l, -1);
    } else if r == d + l {
      MathUtils.MulMod(l, 1);
    }
  }

  /** The entry of GenerateDistances for sites i <= j along axis k. */
  function Separation(size: seq<nat>, i: nat, j: nat, k: nat): int
    requires MathUtils.Positive(size) && i < MathUtils.Product(size) && j < MathUtils.Product(size) && k < |size|
  {
    var ci := LegacyLattice.GetCoordinates(i, size);
    var cj := LegacyLattice.GetCoordinates(j, size);
    MinImage(ci[k] - cj[k], size[k])
  }

  /** Every entry is a minimum image of the coordinate difference: that
      difference with at most one extent added or subtracted, of size at
      most half the extent. */
  lemma SeparationIsMinimumImage(size: seq<nat>, i: nat, j: nat, k: nat)
    requires MathUtils.Positive(size) && i < MathUtils.Product(size) && j < MathUtils.Product(size) && k < |size|
    ensures var d := LegacyLattice.GetCoordinates(i, size)[k] - LegacyLattice.GetCoordinates(j, size)[k];
      Separation(size, i, j, k) - d in {-(size[k] as int), 0, size[k] as int} && -(size[k] / 2) <= Separation(size, i, j, k) <= size[k] / 2
  {
    var ci := LegacyLattice.GetCoordinates(i, size);
    var cj := LegacyLattice.GetCoordinates(j, size);
    assert 0 <= ci[k] < size[k] && 0 <= cj[k] < size[k];
    MinImageProperties(ci[k] - cj[k], size[k]);
  }

  /** The index of row (i, j) of the distance table. */
  function Row(n: nat, i: nat, j: nat): nat
    requires i < n && j < n
  {
    LegacyMathUtils.GetPairIndex(i, j, n)
  }

  /** Row (i, j), i <= j, holds the minimum-image separations of i and j. */
  ghost predicate RowHolds(size: seq<nat>, t: seq<seq<int>>, i: nat, j: nat)
    requires MathUtils.Positive(size) && i < MathUtils.Product(size) && j < MathUtils.Product(size)
  {
    var r := Row(MathUtils.Product(size), i, j);
    r < |t| && |t[r]| == |size|
    && forall k :: 0 <= k < |size| ==> t[r][k] == Separation(size, i, j, k)
  }

  /** Every row (a, b), a <= b, with an index below m holds its
      separations. */
  ghost predicate RowsHoldBelow(size: seq<nat>, t: seq<seq<int>>, m: nat)
    requires MathUtils.Positive(size)
  {
    forall a, b :: 0 <= a <= b < MathUtils.Product(size) && Row(MathUtils.Product(size), a, b) < m ==> RowHolds(size, t, a, b)
  }

  /** The pair after (i, j) in the visiting order of GenerateDistances has
      the next row index. */
  lemma NextRow(n: nat, i: nat, j: nat)
    requires i <= j < n
    ensures j + 1 < n ==> Row(n, i, j + 1) == Row(n, i, j) + 1
    ensures j + 1 == n && i + 1 < n ==> Row(n, i + 1, i + 1) == Row(n, i, j) + 1
    ensures j + 1 == n && i + 1 == n ==> Row(n, i, j) + 1 == LegacyMathUtils.GetNumPairs(n)
  {
    LegacyMathUtils.PairIndexInRow(i, j, n);
    LegacyMathUtils.RowStartSucc(i, n);
    if j + 1 < n {
      LegacyMathUtils.PairIndexInRow(i, j + 1, n);
    } else if i + 1 < n {
      LegacyMathUtils.PairIndexInRow(i + 1, i + 1, n);
    } else {
      LegacyMathUtils.RowStartOfN(n);
    }
  }

  /** The innermost loop of GenerateDistances: for every axis k the
      adjusted coordinate difference of sites i and j is written into row
      `row`; the other rows are left alone. */
  method WriteRow(size: seq<nat>, distances: seq<seq<int>>, i: nat, j: nat, row: nat)
    returns (t: seq<seq<int>>)
    requires MathUtils.Positive(size) && i < MathUtils.Product(size) && j < MathUtils.Product(size)
    requires row < |distances| && |distances[row]| == |size|
    ensures |t| == |distances| && |t[row]| == |size|
    ensures forall r :: 0 <= r < |t| && r != row ==> t[r] == distances[r]
    ensures forall k :: 0 <= k < |size| ==> t[row][k] == Separation(size, i, j, k)
  {
    var coordi := LegacyLattice.GetCoordinates(i, size);
    var coordj := LegacyLattice.GetCoordinates(j, size);
    t := distances;
    for k := 0 to |size|
      invariant |t| == |distances| && |t[row]| == |size|
      invariant forall r :: 0 <= r < |t| && r != row ==> t[r] == distances[r]
      invariant forall k' :: 0 <= k' < k ==> t[row][k'] == Separation(size, i, j, k')
    {
      var dist := coordi[k] - coordj[k];
      var l: int := size[k];
      if dist > l / 2 {
        dist := dist - l;
      } else if dist < -(l / 2) {
        dist := dist + l;
      }
      t := t[row := t[row][k := dist]];
    }
  }

  /** Writing row (i, j) keeps every row written before it. */
  lemma RowsKept(size: seq<nat>, before: seq<seq<int>>, after: seq<seq<int>>, i: nat, j: nat)
    requires MathUtils.Positive(size) && i <= j < MathUtils.Product(size)
    requires Row(MathUtils.Product(size), i, j) < |before| == |after|
    requires |after[Row(MathUtils.Product(size), i, j)]| == |size|
    requires forall r :: 0 <= r < |after| && r != Row(MathUtils.Product(size), i, j) ==> after[r] == before[r]
    requires forall k :: 0 <= k < |size| ==> after[Row(MathUtils.Product(size), i, j)][k] == Separation(size, i, j, k)
    requires RowsHoldBelow(size, before, Row(MathUtils.Product(size), i, j))
    ensures RowsHoldBelow(size, after, Row(MathUtils.Product(size), i, j) + 1)
  {
    var n := MathUtils.Product(size);
    forall a, b | 0 <= a <= b < n && Row(n, a, b) <= Row(n, i, j)
      ensures RowHolds(size, after, a, b)
    {
      if Row(n, a, b) == Row(n, i, j) {
        LegacyMathUtils.PairIndexInjective(a, b, i, j, n);
      }
    }
  }

  /** GenerateDistances: a table of n(n+1)/2 rows of dim zeros is allocated;
      for every pair i <= j and axis k the adjusted coordinate difference is
      written at row GetPairIndex(i, j, n). The loops visit the rows in
      increasing order, one row per pair, and every row is written. */
  method GenerateDistances(size: seq<nat>) returns (distances: seq<seq<int>>)
    requires MathUtils.Positive(size)
    ensures |distances| == LegacyMathUtils.GetNumPairs(NumSites(size))
    ensures forall r :: 0 <= r < |distances| ==> |distances[r]| == |size|
    ensures forall i, j :: 0 <= i <= j < MathUtils.Product(size) ==> RowHolds(size, distances, i, j)
  {
    var numsites := NumSites(size);
    var dim := |size|;
    var rows := LegacyMathUtils.GetNumPairs(numsites);
    distances := seq(rows, _ => seq(dim, _ => 0));
    ghost var next: nat := 0;
    for i := 0 to numsites
      invariant |distances| == rows
      invariant forall r :: 0 <= r < rows ==> |distances[r]| == dim
      invariant i < numsites ==> next == Row(numsites, i, i)
      invariant i == numsites ==> next == rows
      invariant RowsHoldBelow(size, distances, next)
      invariant forall a, b :: 0 <= a <= b < numsites && a < i ==> Row(numsites, a, b) < next
    {
      for j := i to numsites
        invariant |distances| == rows
        invariant forall r :: 0 <= r < rows ==> |distances[r]| == dim
        invariant j < numsites ==> next == Row(numsites, i, j)
        invariant j == numsites ==> (i + 1 < numsites ==> next == Row(numsites, i + 1, i + 1)) && (i + 1 == numsites ==> next == rows)
        invariant RowsHoldBelow(size, distances, next)
        invariant forall a, b :: 0 <= a <= b < numsites && (a < i || (a == i && b < j)) ==> Row(numsites, a, b) < next
      {
        var row := Row(numsites, i, j);
        LegacyMathUtils.PairIndexInjective(i, j, i, j, numsites);
        ghost var before := distances;
        distances := WriteRow(size, distances, i, j, row);
        NextRow(numsites, i, j);
        RowsKept(size, before, distances, i, j);
        next := next + 1;
      }
    }
  }

  // ---------------------------------------------------------------------------
  // Construction
  // ---------------------------------------------------------------------------

  /** The SquareLattice constructor: the base lattice built from the
      neighbour table of CreateNeighbors and the table of GenerateDistances. */
  method NewSquareLattice(size: seq<nat>) returns (l: LegacyLattice.Lattice)
    requires MathUtils.Positive(size)
    ensures l.Valid() && l.size == size && l.numsites == NumSites(size)
    ensures l.neighbors == NeighborTable(size)
    ensures |l.distances| == LegacyMathUtils.GetNumPairs(l.numsites)
    ensures forall i, j :: 0 <= i <= j < l.numsites ==> RowHolds(size, l.distances, i, j)
  {
    var neighbors := CreateNeighbors(size);
    var distances := GenerateDistances(size);
    l := LegacyLattice.NewLattice(size, neighbors, distances);
  }

  /** AreNeighbors on a square lattice is symmetric. */
  lemma AreNeighborsSymmetric(l: LegacyLattice.Lattice, a: nat, b: nat)
    requires l.Valid() && l.neighbors == NeighborTable(l.size)
    requires a < l.numsites && l.AreNeighbors(a, b)
    ensures b < l.numsites && l.AreNeighbors(b, a)
  {
    NeighborsSymmetric(l.size, a, b);
  }

  // ---------------------------------------------------------------------------
  // The tables through the inherited GetCoordinates and GetOffset
  // ---------------------------------------------------------------------------

  /** Entry j of site i as CreateNeighbors computes it with the inherited
      GetCoordinates and GetOffset, whose radix is right only for equal
      extents. */
  function NeighborSiteAsWritten(size: seq<nat>, i: nat, j: nat): int
    requires MathUtils.Positive(size) && j < 2 * |size|
  {
    HalfBelow(j, |size|);
    var c := LegacyLattice.CoordinatesAsWritten(i, size);
    LegacyLattice.OffsetAsWritten(WrapAll(Shifted(c, j), size), size)
  }

  /** The neighbour table CreateNeighbors builds with the inherited pair. */
  function NeighborTableAsWritten(size: seq<nat>): (t: seq<seq<int>>)
    requires MathUtils.Positive(size)
    ensures |t| == MathUtils.Product(size)
    ensures forall i :: 0 <= i < |t| ==> |t[i]| == 2 * |size|
  {
    MathUtils.ProductPositive(size);
    seq(MathUtils.Product(size), i requires 0 <= i < MathUtils.Product(size) =>
      seq(2 * |size|, j requires 0 <= j < 2 * |size| => NeighborSiteAsWritten(size, i, j)))
  }

  /** The entry of GenerateDistances for sites i and j along axis k with the
      inherited GetCoordinates. */
  function SeparationAsWritten(size: seq<nat>, i: nat, j: nat, k: nat): int
    requires MathUtils.Positive(size) && k < |size|
  {
    var ci := LegacyLattice.CoordinatesAsWritten(i, size);
    var cj := LegacyLattice.CoordinatesAsWritten(j, size);
    MinImage(ci[k] - cj[k], size[k])
  }

  /** On equal extents every neighbour entry the source computes is the
      row-major one of NeighborSite. */
  lemma EqualExtentsNeighborSite(size: seq<nat>, i: nat, j: nat)
    requires MathUtils.Positive(size) && LegacyLattice.EqualExtents(size)
    requires i < MathUtils.Product(size) && j < 2 * |size|
    ensures NeighborSiteAsWritten(size, i, j) == NeighborSite(size, i, j)
  {
    HalfBelow(j, |size|);
    LegacyLattice.EqualExtentsCoordinates(i, size);
    var w := WrapAll(Shifted(LegacyLattice.GetCoordinates(i, size), j), size);
    LegacyLattice.EqualExtentsOffset(w, size);
    WrapAllOnGrid(w, size);
  }

  /** On equal extents the source's neighbour table is NeighborTable, so
      PartnerReturns and NeighborsSymmetric hold of it. */
  lemma EqualExtentsNeighborTable(size: seq<nat>)
    requires MathUtils.Positive(size) && LegacyLattice.EqualExtents(size)
    ensures NeighborTableAsWritten(size) == NeighborTable(size)
  {
    var t, u := NeighborTableAsWritten(size), NeighborTable(size);
    forall i | 0 <= i < |t| ensures t[i] == u[i] {
      forall j | 0 <= j < 2 * |size| ensures t[i][j] == u[i][j] {
        EqualExtentsNeighborSite(size, i, j);
      }
    }
  }

  /** On equal extents every separation the source computes is the one of
      Separation, so SeparationIsMinimumImage holds of it. */
  lemma EqualExtentsSeparation(size: seq<nat>, i: nat, j: nat, k: nat)
    requires MathUtils.Positive(size) && LegacyLattice.EqualExtents(size)
    requires i < MathUtils.Product(size) && j < MathUtils.Product(size) && k < |size|
    ensures SeparationAsWritten(size, i, j, k) == Separation(size, i, j, k)
  {
    LegacyLattice.EqualExtentsCoordinates(i, size);
    LegacyLattice.EqualExtentsCoordinates(j, size);
  }

  /** On the 2 x 3 lattice the source's slot 0 of site 5 is site 3, where
      the row-major table has site 2, and the partner slot of site 3 leads
      to site 1 rather than back to 5. */
  lemma UnequalExtentsNeighbors(size: seq<nat>)
    requires size == [2, 3]
    ensures MathUtils.Positive(size) && MathUtils.Product(size) == 6
    ensures NeighborSiteAsWritten(size, 5, 0) == 3 && NeighborSite(size, 5, 0) == 2
    ensures NeighborSiteAsWritten(size, 3, 1) == 1
  {
    Weights2x3(size);
    assert NeighborSiteAsWritten(size, 5, 0) == 3 by {
      Coordinates2x3(size, 5, 2, 1);
      assert Shifted([2, 1], 0) == [1, 1];
      assert WrapAll([1, 1], size) == [1, 1];
      Offset2x3(size, 1, 1);
    }
    assert NeighborSiteAsWritten(size, 3, 1) == 1 by {
      Coordinates2x3(size, 3, 1, 1);
      assert Shifted([1, 1], 1) == [2, 1];
      assert WrapAll([2, 1], size) == [0, 1];
      Offset2x3(size, 0, 1);
    }
    assert NeighborSite(size, 5, 0) == 2 by {
      TwoDimensional(5, [0, 2], 2, 3);
      assert LegacyLattice.GetCoordinates(5, size) == [1, 2];
      assert Shifted([1, 2], 0) == [0, 2];
      assert WrapAll([0, 2], size) == [0, 2];
      TwoDimensional(0, [0, 2], 2, 3);
    }
  }

  lemma Weights2x3(size: seq<nat>)
    requires size == [2, 3]
    ensures MathUtils.Positive(size) && MathUtils.Product(size) == 6
    ensures LegacyLattice.LegacyWeight(size) == 2 && LegacyLattice.LegacyWeight(size[1..]) == 1
  {
    assert size[1..] == [3] && size[1..][1..] == [];
    assert size[..1] == [2] && size[1..][..0] == [];
    assert MathUtils.Product(size[1..]) == 3 * MathUtils.Product(size[1..][1..]);
  }

  /** As written, site i = 2x + y of the 2 x 3 lattice decomposes to (x, y). */
  lemma Coordinates2x3(size: seq<nat>, i: nat, x: nat, y: nat)
    requires size == [2, 3] && y < 2 && i == 2 * x + y
    ensures LegacyLattice.CoordinatesAsWritten(i, size) == [x, y]
  {
    Weights2x3(size);
    MathUtils.DivModUnique(i, 2, x, y);
    assert LegacyLattice.CoordinatesAsWritten(y, size[1..]) == [y];
  }

  /** As written, (x, y) on the 2 x 3 lattice has offset 2x + y. */
  lemma Offset2x3(size: seq<nat>, x: int, y: int)
    requires size == [2, 3]
    ensures LegacyLattice.OffsetAsWritten([x, y], size) == 2 * x + y
  {
    Weights2x3(size);
    assert [x, y][1..] == [y] && [y][1..] == [];
    assert LegacyLattice.OffsetAsWritten([y], size[1..]) == y * 1 + LegacyLattice.OffsetAsWritten([], []);
  }

  // ---------------------------------------------------------------------------
  // The 3 x 3 lattice of the tests
  // ---------------------------------------------------------------------------

  /** Site 3x + y of the 3 x 3 lattice sits at (x, y). */
  lemma Coords3x3(size: seq<nat>, i: nat, x: nat, y: nat)
    requires size == [3, 3] && x < 3 && y < 3 && i == 3 * x + y
    ensures MathUtils.Positive(size) && NumSites(size) == 9
    ensures LegacyLattice.GetCoordinates(i, size) == [x, y]
  {
    TwoDimensional(i, [0, 0], 3, 3);
    MathUtils.DivModUnique(i, 3, x, y);
  }

  /** The move of slot j along axis `axis`: Step(j) on axis j / 2, none on
      the other. */
  function AxisStep(j: nat, axis: nat): int
  {
    if j / 2 == axis then Step(j) else 0
  }

  lemma Wrap3(c: int, w: nat)
    requires w < 3 && (w == c || w == c - 3 || w == c + 3)
    ensures c % 3 == w
  {
    MathUtils.ModOfInRange(w, 3);
    if w == c - 3 {
      MathUtils.ModShift(w, 1, 3);
    } else if w == c + 3 {
      MathUtils.ModShift(w, -1, 3);
    }
  }

  /** Slot j of (x, y) on the 3 x 3 lattice is (nx, ny): one step back (even
      j) or forward (odd j) along axis j / 2, wrapped across the edge. */
  lemma Slot3x3(size: seq<nat>, x: nat, y: nat, j: nat, nx: nat, ny: nat)
    requires size == [3, 3] && x < 3 && y < 3 && j < 4 && nx < 3 && ny < 3
    requires nx == x + AxisStep(j, 0) || nx == x + AxisStep(j, 0) - 3 || nx == x + AxisStep(j, 0) + 3
    requires ny == y + AxisStep(j, 1) || ny == y + AxisStep(j, 1) - 3 || ny == y + AxisStep(j, 1) + 3
    ensures MathUtils.Positive(size)
    ensures SlotOffset(size, [x, y], j) == 3 * nx + ny
  {
    var c := Shifted([x, y], j);
    assert c == [x + AxisStep(j, 0), y + AxisStep(j, 1)];
    Wrap3(c[0], nx);
    Wrap3(c[1], ny);
    assert WrapAll(c, size) == [nx, ny];
    MathUtils.ModOfInRange(nx, 3);
    MathUtils.ModOfInRange(ny, 3);
    assert WrapAll([nx, ny], size) == [nx, ny];
    TwoDimensional(0, [nx, ny], 3, 3);
    assert SlotOffset(size, [x, y], j) == MathUtils.RowMajor([nx, ny], size);
  }

  /** The row of site (x, y) of the 3 x 3 table lists its four slot sites
      in order. */
  lemma Row3x3(size: seq<nat>, i: nat, x: nat, y: nat)
    requires size == [3, 3] && x < 3 && y < 3 && i == 3 * x + y
    ensures MathUtils.Positive(size) && NumSites(size) == 9
    ensures NeighborTable(size)[i]
         == [SlotOffset(size, [x, y], 0), SlotOffset(size, [x, y], 1), SlotOffset(size, [x, y], 2), SlotOffset(size, [x, y], 3)]
  {
    Coords3x3(size, i, x, y);
    var r := NeighborTable(size)[i];
    assert |r| == 4;
    forall j | 0 <= j < 4
      ensures r[j] == SlotOffset(size, [x, y], j)
    {
      assert r[j] == NeighborSite(size, i, j);
    }
  }

  /** On the 3 x 3 lattice site 0 has neighbours 6, 3, 2, 1 in slot order. */
  lemma NeighborsOf0(size: seq<nat>)
    requires size == [3, 3]
    ensures MathUtils.Positive(size) && NumSites(size) == 9
    ensures NeighborTable(size)[0] == [6, 3, 2, 1]
  {
    Row3x3(size, 0, 0, 0);
    Slot3x3(size, 0, 0, 0, 2, 0);
    Slot3x3(size, 0, 0, 1, 1, 0);
    Slot3x3(size, 0, 0, 2, 0, 2);
    Slot3x3(size, 0, 0, 3, 0, 1);
  }

  /** On the 3 x 3 lattice site 8 has neighbours 5, 2, 7, 6 in slot order. */
  lemma NeighborsOf8(size: seq<nat>)
    requires size == [3, 3]
    ensures MathUtils.Positive(size) && NumSites(size) == 9
    ensures NeighborTable(size)[8] == [5, 2, 7, 6]
  {
    Row3x3(size, 8, 2, 2);
    Slot3x3(size, 2, 2, 0, 1, 2);
    Slot3x3(size, 2, 2, 1, 0, 2);
    Slot3x3(size, 2, 2, 2, 2, 1);
    Slot3x3(size, 2, 2, 3, 2, 0);
  }

  /** On the 3 x 3 lattice site 1 has neighbours 7, 4, 0, 2 in slot order. */
  lemma NeighborsOf1(size: seq<nat>)
    requires size == [3, 3]
    ensures MathUtils.Positive(size) && NumSites(size) == 9
    ensures NeighborTable(size)[1] == [7, 4, 0, 2]
  {
    Row3x3(size, 1, 0, 1);
    Slot3x3(size, 0, 1, 0, 2, 1);
    Slot3x3(size, 0, 1, 1, 1, 1);
    Slot3x3(size, 0, 1, 2, 0, 0);
    Slot3x3(size, 0, 1, 3, 0, 2);
  }

  /** The neighbour pairs of the 3 x 3 test: 0 neighbours 1, 3, 6 and 2 but
      not 4, 8 neighbours 6 and 1 neighbours 4. */
  lemma AreNeighbors3x3(l: LegacyLattice.Lattice)
    requires l.Valid() && l.size == [3, 3] && l.neighbors == NeighborTable(l.size)
    ensures l.numsites == 9
    ensures l.AreNeighbors(0, 1) && l.AreNeighbors(0, 3) && l.AreNeighbors(0, 6) && l.AreNeighbors(0, 2)
    ensures !l.AreNeighbors(0, 4)
    ensures l.AreNeighbors(8, 6) && l.AreNeighbors(1, 4)
  {
    NeighborsOf0(l.size);
    NeighborsOf8(l.size);
    NeighborsOf1(l.size);
    Listed(l.neighbors[0], l.neighbors[8], l.neighbors[1]);
  }

  lemma Listed(r0: seq<nat>, r8: seq<nat>, r1: seq<nat>)
    requires r0 == [6, 3, 2, 1] && r8 == [5, 2, 7, 6] && r1 == [7, 4, 0, 2]
    ensures 1 in r0 && 3 in r0 && 6 in r0 && 2 in r0 && 4 !in r0
    ensures 6 in r8 && 4 in r1
  {
  }

  /** On the 3 x 3 lattice the separation of sites 0 and 2 is (0, 1): the raw
      difference -2 along the second axis becomes 1 across the edge. */
  lemma Distance3x3(size: seq<nat>)
    requires size == [3, 3]
    ensures MathUtils.Positive(size) && NumSites(size) == 9
    ensures Separation(size, 0, 2, 0) == 0 && Separation(size, 0, 2, 1) == 1
    ensures Separation(size, 0, 8, 0) == 1 && Separation(size, 0, 8, 1) == 1
  {
    Coords3x3(size, 0, 0, 0);
    Coords3x3(size, 2, 0, 2);
    Coords3x3(size, 8, 2, 2);
  }
}
