/**
  The lattice of include/bwsl/Lattice.hpp: a HyperCubicGrid decorated by a
  Bravais lattice, with tables built once at construction and answered by
  lookup afterwards: the real-space position of every site, the
  minimum-image vector and distance from site 0 to every site, the
  neighbour list of every site, and the momenta of the reciprocal lattice.

  Distances are kept squared (the square root is monotone, so every
  comparison the source makes between distances is the same comparison
  between squared distances). Momenta are kept as the centred integer
  coordinates that the source hands to the reciprocal-space map.
*/
module Lattice {
  import MathUtils
  import Bravais
  import opened HyperCubicGrid

  /** A grid and a Bravais lattice that can be combined: same dimension, and
      neighbour slots coming in forward/backward pairs. */
  predicate Compatible(g: Grid, b: Bravais.Bravais)
  {
    g.Valid() && b.Valid() && b.dim == g.dim && b.gamma % 2 == 0
  }

  // ---------------------------------------------------------------------------
  // Boundaries and windings
  // ---------------------------------------------------------------------------

  /** Lattice::EnforceBoundaries: wraps every component onto the grid,
      whatever the boundary condition of the grid. */
  method EnforceBoundaries(g: Grid, coords: array<int>)
    requires g.Valid() && coords.Length == g.dim
    modifies coords
    ensures coords[..] == WrapAll(old(coords[..]), g.size)
  {
    WrapInPlace(coords, g.size);
  }

  /** GetWinding: each component divided by its extent, truncated toward zero. */
  function GetWinding(g: Grid, jumps: seq<int>): (w: seq<int>)
    requires g.Valid() && |jumps| == g.dim
    ensures |w| == |jumps|
    ensures forall i :: 0 <= i < |w| ==>
      jumps[i] == w[i] * g.size[i] + MathUtils.TRem(jumps[i], g.size[i])
  {
    seq(|jumps|, i requires 0 <= i < |jumps| => MathUtils.TDiv(jumps[i], g.size[i]))
  }

  /** A jump shorter than the extent winds zero times; a jump of m whole extents winds m times. */
  lemma WindingCounts(g: Grid, jumps: seq<int>, m: seq<int>)
    requires g.Valid() && |jumps| == g.dim && |m| == g.dim
    ensures (forall i :: 0 <= i < g.dim ==> -g.size[i] < jumps[i] < g.size[i]) ==>
      forall i :: 0 <= i < g.dim ==> GetWinding(g, jumps)[i] == 0
    ensures (forall i :: 0 <= i < g.dim ==> jumps[i] == m[i] * g.size[i]) ==> GetWinding(g, jumps) == m
  {
    if forall i :: 0 <= i < g.dim ==> -g.size[i] < jumps[i] < g.size[i] {
      forall i | 0 <= i < g.dim
        ensures GetWinding(g, jumps)[i] == 0
      {
        if jumps[i] >= 0 {
          MathUtils.ModOfInRange(jumps[i], g.size[i]);
        } else {
          MathUtils.ModOfInRange(-jumps[i], g.size[i]);
        }
      }
    }
    if forall i :: 0 <= i < g.dim ==> jumps[i] == m[i] * g.size[i] {
      forall i | 0 <= i < g.dim
        ensures GetWinding(g, jumps)[i] == m[i]
      {
        MathUtils.DivExactTruncated(m[i], g.size[i]);
      }
    }
  }

  // ---------------------------------------------------------------------------
  // Neighbour lists
  // ---------------------------------------------------------------------------

  /** Whether neighbour slot j of coordinates ci is kept: always under closed
      boundaries, only when it falls on the grid under open ones. */
  predicate Kept(g: Grid, b: Bravais.Bravais, ci: seq<int>, j: nat)
    requires Compatible(g, b) && |ci| == g.dim && j < b.gamma
  {
    g.boundaries == Closed || g.OnGrid(b.GetNeighbor(ci, j))
  }

  /** The site that neighbour slot j of coordinates ci lands on, once wrapped. */
  function SlotSite(g: Grid, b: Bravais.Bravais, ci: seq<int>, j: nat): (s: int)
    requires Compatible(g, b) && |ci| == g.dim && j < b.gamma
    ensures 0 <= s < g.numSites
  {
    var w := WrapAll(b.GetNeighbor(ci, j), g.size);
    MathUtils.RowMajorBound(w, g.size);
    g.Index(w)
  }

  /** Whether each slot of ci is kept, in slot order. */
  function SlotKeeps(g: Grid, b: Bravais.Bravais, ci: seq<int>): (t: seq<bool>)
    requires Compatible(g, b) && |ci| == g.dim
    ensures |t| == b.gamma
  {
    seq(b.gamma, j requires 0 <= j < b.gamma => Kept(g, b, ci, j))
  }

  /** The site each slot of ci lands on, in slot order. */
  function SlotSites(g: Grid, b: Bravais.Bravais, ci: seq<int>): (t: seq<int>)
    requires Compatible(g, b) && |ci| == g.dim
    ensures |t| == b.gamma
  {
    seq(b.gamma, j requires 0 <= j < b.gamma => SlotSite(g, b, ci, j))
  }

  /** The sites of the kept slots among the first j, in order. */
  function KeptSites(keeps: seq<bool>, sites: seq<int>, j: nat): seq<int>
    requires |keeps| == |sites| && j <= |sites|
  {
    if j == 0 then []
    else
      var rest := KeptSites(keeps, sites, j - 1);
      if keeps[j - 1] then rest + [sites[j - 1]] else rest
  }

  /** The neighbour list built from the first j slots, in slot order. */
  function NeighborSlots(g: Grid, b: Bravais.Bravais, ci: seq<int>, j: nat): seq<int>
    requires Compatible(g, b) && |ci| == g.dim && j <= b.gamma
  {
    KeptSites(SlotKeeps(g, b, ci), SlotSites(g, b, ci), j)
  }

  /** The neighbour list of site i. */
  function NeighborList(g: Grid, b: Bravais.Bravais, i: nat): seq<int>
    requires Compatible(g, b)
  {
    NeighborSlots(g, b, g.Coords(i), b.gamma)
  }

  /** The neighbour lists of all sites. */
  function NeighborTable(g: Grid, b: Bravais.Bravais): (t: seq<seq<int>>)
    requires Compatible(g, b)
    ensures |t| == g.numSites
  {
    seq(g.numSites, i requires 0 <= i < g.numSites => NeighborList(g, b, i))
  }

  /** ComputeNeighbors: for every site and every slot, the neighbour
      coordinates are kept according to the boundaries, wrapped and indexed. */
  method ComputeNeighbors(g: Grid, b: Bravais.Bravais) returns (p: seq<seq<int>>)
    requires Compatible(g, b)
    ensures p == NeighborTable(g, b)
  {
    p := [];
    for i := 0 to g.numSites
      invariant |p| == i
      invariant forall k :: 0 <= k < i ==> p[k] == NeighborList(g, b, k)
    {
      var nn: seq<int> := [];
      var ci := g.GetCoordinates(i);
      for j := 0 to b.gamma
        invariant nn == NeighborSlots(g, b, ci, j)
      {
        var keep, idx := VisitSlot(g, b, ci, j);
        assert keep == SlotKeeps(g, b, ci)[j] && (keep ==> idx == SlotSites(g, b, ci)[j]);
        if keep {
          nn := nn + [idx];
        }
      }
      p := p + [nn];
    }
  }

  /** The body of the slot loop of ComputeNeighbors: whether slot j of ci is
      kept and, when it is, the site it lands on once wrapped. */
  method VisitSlot(g: Grid, b: Bravais.Bravais, ci: seq<int>, j: nat) returns (keep: bool, idx: int)
    requires Compatible(g, b) && |ci| == g.dim && j < b.gamma
    ensures keep == Kept(g, b, ci, j)
    ensures keep ==> idx == SlotSite(g, b, ci, j)
  {
    var cj := b.GetNeighbor(ci, j);
    keep := g.boundaries == Closed;
    if !keep {
      keep := g.IsOnGrid(cj);
    }
    idx := 0;
    if keep {
      var arr := new int[g.dim](k requires 0 <= k < g.dim => cj[k]);
      assert arr[..] == cj;
      EnforceBoundaries(g, arr);
      idx := g.GetIndex(arr[..]);
    }
  }

  /** Keeping some of the first j slots gives at most j entries, exactly j
      when every slot is kept, each the site of one of those slots. */
  lemma {:induction false} KeptSitesShape(keeps: seq<bool>, sites: seq<int>, j: nat)
    requires |keeps| == |sites| && j <= |sites|
    ensures |KeptSites(keeps, sites, j)| <= j
    ensures (forall k :: 0 <= k < j ==> keeps[k]) ==> |KeptSites(keeps, sites, j)| == j
    ensures forall k :: 0 <= k < |KeptSites(keeps, sites, j)| ==> KeptSites(keeps, sites, j)[k] in sites[..j]
  {
    if j > 0 {
      KeptSitesShape(keeps, sites, j - 1);
      assert sites[..j] == sites[..j - 1] + [sites[j - 1]];
    }
  }

  /** A kept slot contributes its site. */
  lemma {:induction false} KeptSiteListed(keeps: seq<bool>, sites: seq<int>, j: nat, slot: nat)
    requires |keeps| == |sites| && slot < j <= |sites| && keeps[slot]
    ensures sites[slot] in KeptSites(keeps, sites, j)
  {
    if slot < j - 1 {
      KeptSiteListed(keeps, sites, j - 1, slot);
    }
  }

  /** Every listed site is the site of a kept slot. */
  lemma {:induction false} ListedFromKeptSite(keeps: seq<bool>, sites: seq<int>, j: nat, x: int)
    returns (slot: nat)
    requires |keeps| == |sites| && j <= |sites| && x in KeptSites(keeps, sites, j)
    ensures slot < j && keeps[slot] && x == sites[slot]
  {
    var rest := KeptSites(keeps, sites, j - 1);
    if x in rest {
      slot := ListedFromKeptSite(keeps, sites, j - 1, x);
    } else {
      slot := j - 1;
    }
  }

  /** Each list holds at most one entry per slot, exactly one under closed
      boundaries, and every entry is a site of the grid. */
  lemma NeighborSlotsShape(g: Grid, b: Bravais.Bravais, ci: seq<int>, j: nat)
    requires Compatible(g, b) && |ci| == g.dim && j <= b.gamma
    ensures |NeighborSlots(g, b, ci, j)| <= j
    ensures g.boundaries == Closed ==> |NeighborSlots(g, b, ci, j)| == j
    ensures forall k :: 0 <= k < |NeighborSlots(g, b, ci, j)| ==> 0 <= NeighborSlots(g, b, ci, j)[k] < g.numSites
  {
    var keeps, sites := SlotKeeps(g, b, ci), SlotSites(g, b, ci);
    KeptSitesShape(keeps, sites, j);
    assert forall x :: x in sites[..j] ==> 0 <= x < g.numSites;
  }

  /** A kept slot contributes its site to the list. */
  lemma KeptSlotListed(g: Grid, b: Bravais.Bravais, ci: seq<int>, j: nat, slot: nat)
    requires Compatible(g, b) && |ci| == g.dim && slot < j <= b.gamma
    requires Kept(g, b, ci, slot)
    ensures SlotSite(g, b, ci, slot) in NeighborSlots(g, b, ci, j)
  {
    KeptSiteListed(SlotKeeps(g, b, ci), SlotSites(g, b, ci), j, slot);
  }

  /** Every listed site comes from a kept slot. */
  lemma ListedFromKeptSlot(g: Grid, b: Bravais.Bravais, ci: seq<int>, j: nat, x: int)
    returns (slot: nat)
    requires Compatible(g, b) && |ci| == g.dim && j <= b.gamma
    requires x in NeighborSlots(g, b, ci, j)
    ensures slot < j && Kept(g, b, ci, slot) && x == SlotSite(g, b, ci, slot)
  {
    slot := ListedFromKeptSite(SlotKeeps(g, b, ci), SlotSites(g, b, ci), j, x);
  }

  /** Slot j followed by its partner slot leads back to the start. */
  lemma PartnerUndoes(b: Bravais.Bravais, p: seq<int>, j: nat)
    requires b.Valid() && b.gamma % 2 == 0 && |p| >= b.dim && j < b.gamma
    ensures Bravais.Partner(j) < b.gamma
    ensures b.GetNeighbor(b.GetNeighbor(p, j), Bravais.Partner(j)) == p
  {
    b.NeighborInverse(p, j / 2);
    assert j == 2 * (j / 2) || j == 2 * (j / 2) + 1;
  }

  /** Wrapping before following a slot does not change where it lands once wrapped. */
  lemma WrapThenNeighbor(g: Grid, b: Bravais.Bravais, c: seq<int>, j: nat)
    requires Compatible(g, b) && |c| == g.dim && j < b.gamma
    ensures WrapAll(b.GetNeighbor(WrapAll(c, g.size), j), g.size) == WrapAll(b.GetNeighbor(c, j), g.size)
  {
    var w := WrapAll(c, g.size);
    forall k | 0 <= k < g.dim
      ensures WrapAll(b.GetNeighbor(w, j), g.size)[k] == WrapAll(b.GetNeighbor(c, j), g.size)[k]
    {
      var o := Bravais.Direction(j) * b.Offset(j / 2, k);
      assert b.GetNeighbor(w, j)[k] == c[k] % g.size[k] + o;
      assert b.GetNeighbor(c, j)[k] == c[k] + o;
      MathUtils.ModAddMod(c[k], o, g.size[k]);
    }
  }

  /** Following slot j from site a and then its partner slot from where it
      lands leads back to a, under either boundary condition. */
  lemma PartnerSlotReturns(g: Grid, b: Bravais.Bravais, a: nat, j: nat)
    requires Compatible(g, b) && a < g.numSites && j < b.gamma
    requires Kept(g, b, g.Coords(a), j)
    ensures Bravais.Partner(j) < b.gamma
    ensures SlotSite(g, b, g.Coords(a), j) < g.numSites
    ensures var x := SlotSite(g, b, g.Coords(a), j);
      Kept(g, b, g.Coords(x), Bravais.Partner(j)) && SlotSite(g, b, g.Coords(x), Bravais.Partner(j)) == a
  {
    var ca := g.Coords(a);
    g.IndexCoordinatesRoundTrip(a);
    var cj := b.GetNeighbor(ca, j);
    var w := WrapAll(cj, g.size);
    var x := SlotSite(g, b, ca, j);
    MathUtils.RowMajorRoundTrip(w, g.size);
    assert g.Coords(x) == w;
    var pj := Bravais.Partner(j);
    PartnerUndoes(b, ca, j);
    WrapThenNeighbor(g, b, cj, pj);
    WrapAllOnGrid(ca, g.size);
    assert WrapAll(b.GetNeighbor(w, pj), g.size) == ca;
    if g.boundaries == Open {
      WrapAllOnGrid(cj, g.size);
      assert b.GetNeighbor(w, pj) == ca;
    }
  }

  /** Neighbourhood in the built table is symmetric. */
  lemma NeighborsSymmetric(g: Grid, b: Bravais.Bravais, a: nat, x: nat)
    requires Compatible(g, b) && a < g.numSites
    requires x in NeighborList(g, b, a)
    ensures x < g.numSites && a in NeighborList(g, b, x)
  {
    var ca := g.Coords(a);
    var slot := ListedFromKeptSlot(g, b, ca, b.gamma, x);
    PartnerSlotReturns(g, b, a, slot);
    KeptSlotListed(g, b, g.Coords(x), b.gamma, Bravais.Partner(slot));
  }

  // ---------------------------------------------------------------------------
  // Positions
  // ---------------------------------------------------------------------------

  /** The real-space position of every site, measured from site 0. */
  function Positions(g: Grid, b: Bravais.Bravais): (t: seq<seq<real>>)
    requires Compatible(g, b)
    ensures |t| == g.numSites
  {
    seq(g.numSites, i requires 0 <= i < g.numSites => b.GetVector(g.Coords(0), g.Coords(i)))
  }

  /** ComputePositions: the vector from site 0 to each site, in site order. */
  method ComputePositions(g: Grid, b: Bravais.Bravais) returns (p: seq<seq<real>>)
    requires Compatible(g, b)
    ensures p == Positions(g, b)
  {
    p := [];
    var c0 := g.GetCoordinates(0);
    for i := 0 to g.numSites
      invariant |p| == i
      invariant forall k :: 0 <= k < i ==> p[k] == b.GetVector(c0, g.Coords(k))
    {
      var ci := g.GetCoordinates(i);
      p := p + [b.GetVector(c0, ci)];
    }
  }

  /** Site 0 sits at the origin, and the difference of two positions is the
      vector between the two sites. */
  lemma PositionsAreDisplacements(g: Grid, b: Bravais.Bravais, i: nat, k: nat)
    requires Compatible(g, b) && i < g.numSites && k < g.numSites
    ensures forall q :: 0 <= q < g.dim ==> Positions(g, b)[0][q] == 0.0
    ensures forall q :: 0 <= q < g.dim ==>
      Positions(g, b)[i][q] - Positions(g, b)[k][q] == b.GetVector(g.Coords(k), g.Coords(i))[q]
  {
    MathUtils.ProductPositive(g.size);
    var c0, ci, ck := g.Coords(0), g.Coords(i), g.Coords(k);
    b.VectorAntisymmetric(c0, c0);
    b.VectorIsPositionDifference(c0, ci);
    b.VectorIsPositionDifference(c0, ck);
    b.VectorIsPositionDifference(ck, ci);
  }

  // ---------------------------------------------------------------------------
  // Minimum-image vectors and distances
  // ---------------------------------------------------------------------------

  /** Squared Euclidean length. */
  function NormSq(v: seq<real>): (r: real)
    ensures r >= 0.0
  {
    if |v| == 0 then 0.0 else v[0] * v[0] + NormSq(v[1..])
  }

  /** The extents of the image grid: three images per dimension. */
  function Threes(dim: nat): (t: seq<nat>)
    ensures |t| == dim && MathUtils.Positive(t)
  {
    seq(dim, _ => 3)
  }

  /** The number of periodic images examined: 3^dim. */
  function NumImages(dim: nat): (n: nat)
    ensures n == MathUtils.Product(Threes(dim)) && n > 0
  {
    MathUtils.ProductPositive(Threes(dim));
    MathUtils.Product(Threes(dim))
  }

  /** Coordinates cs shifted by -1, 0 or +1 extents per dimension, as
      periodic image k of the 3^dim images selects. */
  function ImageCoords(g: Grid, cs: seq<int>, k: nat): (c: seq<int>)
    requires g.Valid() && |cs| == g.dim
    ensures |c| == g.dim
  {
    var img := MathUtils.Coordinates(k, Threes(g.dim));
    seq(g.dim, m requires 0 <= m < g.dim => cs[m] + (img[m] - 1) * g.size[m])
  }

  /** The vector from site 0 to the raw coordinates of `site`. */
  function RawVector(g: Grid, b: Bravais.Bravais, site: nat): seq<real>
    requires Compatible(g, b)
  {
    b.GetVector(g.Coords(0), g.Coords(site))
  }

  /** The vector from site 0 to periodic image k of `site`. */
  function ImageVector(g: Grid, b: Bravais.Bravais, site: nat, k: nat): seq<real>
    requires Compatible(g, b)
  {
    b.GetVector(g.Coords(0), ImageCoords(g, g.Coords(site), k))
  }

  /** All 3^dim periodic image vectors of `site`, in image order. */
  function ImageVectors(g: Grid, b: Bravais.Bravais, site: nat): (t: seq<seq<real>>)
    requires Compatible(g, b)
    ensures |t| == NumImages(g.dim)
  {
    seq(NumImages(g.dim), k requires 0 <= k < NumImages(g.dim) => ImageVector(g, b, site, k))
  }

  /** The running minimum after `raw` and the first k candidates: a candidate
      replaces the current choice only when strictly shorter. */
  function RunningMin(raw: seq<real>, cands: seq<seq<real>>, k: nat): seq<real>
    requires k <= |cands|
  {
    if k == 0 then raw
    else
      var prev := RunningMin(raw, cands, k - 1);
      if NormSq(cands[k - 1]) < NormSq(prev) then cands[k - 1] else prev
  }

  /** The stored vector of a site: the search over all 3^dim images under
      closed boundaries, the raw vector under open ones. */
  function BestVector(g: Grid, b: Bravais.Bravais, site: nat): seq<real>
    requires Compatible(g, b)
  {
    if g.boundaries == Closed then RunningMin(RawVector(g, b, site), ImageVectors(g, b, site), NumImages(g.dim))
    else RawVector(g, b, site)
  }

  function VectorTable(g: Grid, b: Bravais.Bravais): (t: seq<seq<real>>)
    requires Compatible(g, b)
    ensures |t| == g.numSites
  {
    seq(g.numSites, i requires 0 <= i < g.numSites => BestVector(g, b, i))
  }

  /** ComputeVectors: per site, the raw vector and, under closed boundaries,
      the shortest of the 3^dim periodic images, first one winning ties. */
  method ComputeVectors(g: Grid, b: Bravais.Bravais) returns (p: seq<seq<real>>)
    requires Compatible(g, b)
    ensures p == VectorTable(g, b)
  {
    p := seq(g.numSites, _ => seq(g.dim, _ => 0.0));
    var c0 := g.GetCoordinates(0);
    for site := 0 to g.numSites
      invariant |p| == g.numSites
      invariant forall k :: 0 <= k < site ==> p[k] == BestVector(g, b, k)
    {
      var cs := g.GetCoordinates(site);
      var minvec := b.GetVector(c0, cs);
      if g.boundaries == Closed {
        minvec := ShortestImage(g, b, site, c0, cs);
      }
      p := p[site := minvec];
    }
  }

  /** The image loop of ComputeVectors: the running minimum over all 3^dim
      images of site `site`, replaced only by a strictly shorter image. */
  method ShortestImage(g: Grid, b: Bravais.Bravais, site: nat, c0: seq<int>, cs: seq<int>)
    returns (minvec: seq<real>)
    requires Compatible(g, b) && c0 == g.Coords(0) && cs == g.Coords(site)
    ensures minvec == RunningMin(RawVector(g, b, site), ImageVectors(g, b, site), NumImages(g.dim))
  {
    var imgsize := Threes(g.dim);
    var nimg := NumImages(g.dim);
    ghost var cands := ImageVectors(g, b, site);
    minvec := b.GetVector(c0, cs);
    var mindist := NormSq(minvec);
    for k := 0 to nimg
      invariant minvec == RunningMin(RawVector(g, b, site), cands, k) && mindist == NormSq(minvec)
    {
      var img := MathUtils.IndexToArray(k, imgsize);
      var csm := ShiftToImage(g, cs, img);
      ShiftIsImage(g, cs, img, csm, k);
      var vec := b.GetVector(c0, csm);
      assert vec == cands[k];
      var dist := NormSq(vec);
      if dist < mindist {
        mindist := dist;
        minvec := vec;
      }
    }
  }

  lemma ShiftIsImage(g: Grid, cs: seq<int>, img: seq<int>, csm: seq<int>, k: nat)
    requires g.Valid() && |cs| == g.dim && img == MathUtils.Coordinates(k, Threes(g.dim))
    requires |csm| == g.dim
    requires forall q :: 0 <= q < g.dim ==> csm[q] == cs[q] + (img[q] - 1) * g.size[q]
    ensures csm == ImageCoords(g, cs, k)
  {
  }

  /** Shifts each coordinate by (img[m] - 1) extents. */
  method ShiftToImage(g: Grid, cs: seq<int>, img: seq<int>) returns (csm: seq<int>)
    requires g.Valid() && |cs| == g.dim && |img| == g.dim
    ensures |csm| == g.dim
    ensures forall q :: 0 <= q < g.dim ==> csm[q] == cs[q] + (img[q] - 1) * g.size[q]
  {
    csm := cs;
    for m := 0 to g.dim
      invariant |csm| == g.dim
      invariant forall q :: 0 <= q < m ==> csm[q] == cs[q] + (img[q] - 1) * g.size[q]
      invariant forall q :: m <= q < g.dim ==> csm[q] == cs[q]
    {
      csm := csm[m := csm[m] + (img[m] - 1) * g.size[m]];
    }
  }

  /** The running minimum is no longer than `raw` or any candidate examined,
      and it is the first of the shortest: `raw` unless some candidate is
      strictly shorter, otherwise a candidate strictly shorter than `raw` and
      than every candidate before it. */
  lemma {:induction false} RunningMinIsFirstMinimum(raw: seq<real>, cands: seq<seq<real>>, k: nat)
    returns (chosen: int)
    requires k <= |cands|
    ensures NormSq(RunningMin(raw, cands, k)) <= NormSq(raw)
    ensures forall q :: 0 <= q < k ==> NormSq(RunningMin(raw, cands, k)) <= NormSq(cands[q])
    ensures -1 <= chosen < k
    ensures chosen == -1 ==> RunningMin(raw, cands, k) == raw
    ensures chosen >= 0 ==> (RunningMin(raw, cands, k) == cands[chosen]
      && NormSq(cands[chosen]) < NormSq(raw)
      && forall q :: 0 <= q < chosen ==> NormSq(cands[chosen]) < NormSq(cands[q]))
  {
    if k == 0 {
      chosen := -1;
    } else {
      chosen := RunningMinIsFirstMinimum(raw, cands, k - 1);
      if NormSq(cands[k - 1]) < NormSq(RunningMin(raw, cands, k - 1)) {
        chosen := k - 1;
      }
    }
  }

  /** ComputeDistances: the length of every stored vector (kept squared). */
  function Distances(vectors: seq<seq<real>>): (d: seq<real>)
    ensures |d| == |vectors|
    ensures forall i :: 0 <= i < |d| ==> d[i] >= 0.0
  {
    seq(|vectors|, i requires 0 <= i < |vectors| => NormSq(vectors[i]))
  }

  // ---------------------------------------------------------------------------
  // Momenta and structure factor
  // ---------------------------------------------------------------------------

  /** The integer coordinates of site i centred on the grid: each component
      lowered by half its extent (integer division). */
  function Momentum(g: Grid, i: nat): (m: seq<int>)
    requires g.Valid()
    ensures |m| == g.dim
  {
    var ci := g.Coords(i);
    seq(g.dim, k requires 0 <= k < g.dim => ci[k] - g.size[k] / 2)
  }

  /** The momenta table: empty under open boundaries, one entry per site under closed ones. */
  function MomentaTable(g: Grid): seq<seq<int>>
    requires g.Valid()
  {
    if g.boundaries == Open then [] else seq(g.numSites, i requires 0 <= i < g.numSites => Momentum(g, i))
  }

  /** ComputeMomenta: nothing under open boundaries; otherwise the centred
      coordinates of every site, in site order. */
  method ComputeMomenta(g: Grid) returns (p: seq<seq<int>>)
    requires g.Valid()
    ensures p == MomentaTable(g)
  {
    p := [];
    if g.boundaries == Open {
      return;
    }
    for i := 0 to g.numSites
      invariant |p| == i
      invariant forall k :: 0 <= k < i ==> p[k] == Momentum(g, k)
    {
      var ci := g.GetCoordinates(i);
      for k := 0 to |ci|
        invariant |ci| == g.dim
        invariant forall q :: 0 <= q < k ==> ci[q] == g.Coords(i)[q] - g.size[q] / 2
        invariant forall q :: k <= q < g.dim ==> ci[q] == g.Coords(i)[q]
      {
        ci := ci[k := ci[k] - g.size[k] / 2];
      }
      p := p + [ci];
    }
  }

  /** Under closed boundaries there is one momentum per site, distinct sites
      have distinct momenta, and each component lies in the centred range
      [-(s/2), s - 1 - s/2]. */
  lemma MomentaShape(g: Grid, i: nat, j: nat)
    requires g.Valid() && g.boundaries == Closed && i < g.numSites && j < g.numSites
    ensures |MomentaTable(g)| == g.numSites
    ensures forall k :: 0 <= k < g.dim ==>
      -(g.size[k] / 2) <= Momentum(g, i)[k] <= g.size[k] - 1 - g.size[k] / 2
    ensures Momentum(g, i) == Momentum(g, j) ==> i == j
  {
    g.IndexCoordinatesRoundTrip(i);
    g.IndexCoordinatesRoundTrip(j);
    if Momentum(g, i) == Momentum(g, j) {
      forall k | 0 <= k < g.dim
        ensures g.Coords(i)[k] == g.Coords(j)[k]
      {
        assert Momentum(g, i)[k] == Momentum(g, j)[k];
      }
      assert g.Coords(i) == g.Coords(j);
    }
  }

  /** Sum over the first j sites of occupation times the sine (`sine`) or
      cosine (otherwise) of the phase of momentum i at site j. */
  function PhaseSum(occupations: seq<real>, trig: (nat, nat) -> (real, real), i: nat, j: nat, sine: bool): real
    requires j <= |occupations|
  {
    if j == 0 then 0.0
    else
      var t := trig(i, j - 1);
      PhaseSum(occupations, trig, i, j - 1, sine) + (if sine then t.0 else t.1) * occupations[j - 1]
  }

  /** The structure-factor contribution of momentum i: mult * (im^2 + re^2) / n^2. */
  function SkTerm(occupations: seq<real>, trig: (nat, nat) -> (real, real), i: nat, n: nat, mult: real): real
    requires 0 < n <= |occupations|
  {
    var im := PhaseSum(occupations, trig, i, n, true);
    var re := PhaseSum(occupations, trig, i, n, false);
    mult * (im * im + re * re) / ((n * n) as real)
  }

  /** A non-negative multiplier never makes the structure factor decrease. */
  lemma SkTermNonnegative(occupations: seq<real>, trig: (nat, nat) -> (real, real), i: nat, n: nat, mult: real)
    requires 0 < n <= |occupations| && mult >= 0.0
    ensures SkTerm(occupations, trig, i, n, mult) >= 0.0
  {
    var im := PhaseSum(occupations, trig, i, n, true);
    var re := PhaseSum(occupations, trig, i, n, false);
    var num := mult * (im * im + re * re);
    assert im * im + re * re >= 0.0;
    assert num >= 0.0;
    MathUtils.MulNonneg(n, n);
    assert (n * n) as real > 0.0;
  }

  /** The inner loop of AccumulateSk: both phase sums over the first n sites. */
  method PhaseSums(occupations: seq<real>, trig: (nat, nat) -> (real, real), i: nat, n: nat)
    returns (im: real, re: real)
    requires n <= |occupations|
    ensures im == PhaseSum(occupations, trig, i, n, true)
    ensures re == PhaseSum(occupations, trig, i, n, false)
  {
    im, re := 0.0, 0.0;
    for j := 0 to n
      invariant im == PhaseSum(occupations, trig, i, j, true)
      invariant re == PhaseSum(occupations, trig, i, j, false)
    {
      var t := trig(i, j);
      im := im + t.0 * occupations[j];
      re := re + t.1 * occupations[j];
    }
  }

  /** AccumulateSk: under closed boundaries adds each momentum's contribution
      to the first numSites entries of sk; the sine and cosine of the phase
      of momentum i at site j are given by `trig(i, j)`. */
  method AccumulateSk(g: Grid, occupations: seq<real>, sk: array<real>, mult: real, trig: (nat, nat) -> (real, real))
    requires g.Valid() && |occupations| >= g.numSites && sk.Length >= g.numSites
    modifies sk
    ensures g.boundaries == Open ==> sk[..] == old(sk[..])
    ensures g.boundaries == Closed ==> forall i :: 0 <= i < sk.Length ==>
      sk[i] == old(sk[i]) + (if i < g.numSites then SkTerm(occupations, trig, i, g.numSites, mult) else 0.0)
  {
    var n := g.numSites;
    if g.boundaries == Open {
      return;
    }
    MathUtils.ProductPositive(g.size);
    for i := 0 to n
      invariant forall k :: 0 <= k < i ==> sk[k] == old(sk[k]) + SkTerm(occupations, trig, k, n, mult)
      invariant forall k :: i <= k < sk.Length ==> sk[k] == old(sk[k])
    {
      var im, re := PhaseSums(occupations, trig, i, n);
      var term := mult * (im * im + re * re) / ((n * n) as real);
      assert term == SkTerm(occupations, trig, i, n, mult);
      sk[i] := sk[i] + term;
    }
  }

  /** ComputeSk: numSites zeros, to which AccumulateSk adds under closed boundaries. */
  method ComputeSk(g: Grid, occupations: seq<real>, mult: real, trig: (nat, nat) -> (real, real))
    returns (sk: seq<real>)
    requires g.Valid() && |occupations| >= g.numSites
    ensures |sk| == g.numSites
    ensures g.boundaries == Open ==> forall i :: 0 <= i < |sk| ==> sk[i] == 0.0
    ensures g.boundaries == Closed ==> forall i :: 0 <= i < |sk| ==> sk[i] == SkTerm(occupations, trig, i, g.numSites, mult)
  {
    var a := new real[g.numSites](_ => 0.0);
    if g.boundaries != Open {
      AccumulateSk(g, occupations, a, mult, trig);
    }
    sk := a[..];
  }

  // ---------------------------------------------------------------------------
  // The lattice and its lookups
  // ---------------------------------------------------------------------------

  datatype Lattice = Lattice(
    grid: Grid,
    bravais: Bravais.Bravais,
    positions: seq<seq<real>>,
    vectors: seq<seq<real>>,
    distSq: seq<real>,
    neighbors: seq<seq<int>>,
    momenta: seq<seq<int>>)
  {
    /** The tables the constructor builds. */
    predicate Built()
    {
      Compatible(grid, bravais)
      && positions == Positions(grid, bravais)
      && vectors == VectorTable(grid, bravais)
      && distSq == Distances(vectors)
      && neighbors == NeighborTable(grid, bravais)
      && momenta == MomentaTable(grid)
    }

    /** AreNeighbors: b occurs in the neighbour list of a; on a built lattice
        such a b is a site of the grid. */
    predicate AreNeighbors(a: nat, b: int): (r: bool)
      requires a < |neighbors|
      ensures r && Built() && a < grid.numSites ==> 0 <= b < grid.numSites
    {
      if Built() && a < grid.numSites then Coordination(a); b in neighbors[a]
      else b in neighbors[a]
    }

    /** GetCoordination(a): the length of the neighbour list of a, which is
        gamma under closed boundaries and at most gamma under open ones. */
    function GetCoordination(a: nat): (c: nat)
      requires a < |neighbors|
      ensures Built() && a < grid.numSites ==> c <= bravais.gamma
      ensures Built() && a < grid.numSites && grid.boundaries == Closed ==> c == bravais.gamma
    {
      if Built() && a < grid.numSites then
        NeighborSlotsShape(grid, bravais, grid.Coords(a), bravais.gamma); |neighbors[a]|
      else |neighbors[a]|
    }

    /** GetCoordination(): the length of the neighbour list of site 0, the
        coordination number gamma under closed boundaries. */
    function GetCoordinationOfFirst(): (c: nat)
      requires 0 < |neighbors|
      ensures Built() && grid.boundaries == Closed ==> c == bravais.gamma
    {
      GetCoordination(0)
    }

    /** GetPosition: the stored position of a site, which on a built lattice is
        the vector from site 0 to it. */
    function GetPosition(a: nat): (p: seq<real>)
      requires a < |positions|
      ensures Built() && a < grid.numSites ==> p == bravais.GetVector(grid.Coords(0), grid.Coords(a))
    {
      positions[a]
    }

    /** GetVector(a, b): the stored minimum-image vector of the site b maps to
        once a is translated to the origin. */
    function GetVector(a: nat, b: nat): (v: seq<real>)
      requires Built() && grid.boundaries == Closed
      ensures v == vectors[grid.MappedSite(a, b)]
    {
      vectors[grid.MappedSite(a, b)]
    }

    /** GetDistance(a, b), squared: the stored distance of the site b maps to
        once a is translated to the origin, which is the squared length of
        GetVector(a, b). */
    function GetDistanceSquared(a: nat, b: nat): (d: real)
      requires Built() && grid.boundaries == Closed
      ensures d == distSq[grid.MappedSite(a, b)]
      ensures d == NormSq(GetVector(a, b))
      ensures d >= 0.0
    {
      distSq[grid.MappedSite(a, b)]
    }

    /** Every entry of a neighbour list is a site of the grid. */
    lemma Coordination(a: nat)
      requires Built() && a < grid.numSites
      ensures forall k :: 0 <= k < |neighbors[a]| ==> 0 <= neighbors[a][k] < grid.numSites
    {
      NeighborSlotsShape(grid, bravais, grid.Coords(a), bravais.gamma);
    }

    /** AreNeighbors is symmetric. */
    lemma AreNeighborsSymmetric(a: nat, b: nat)
      requires Built() && a < grid.numSites && AreNeighbors(a, b)
      ensures b < |neighbors| && AreNeighbors(b, a)
    {
      NeighborsSymmetric(grid, bravais, a, b);
    }

    /** A site is at distance zero from itself, and the vector from site 0 to b
        is the stored vector of b. */
    lemma LookupFromSelfAndOrigin(a: nat, b: nat)
      requires Built() && grid.boundaries == Closed && a < grid.numSites && b < grid.numSites
      ensures GetDistanceSquared(a, a) == 0.0
      ensures GetVector(0, b) == vectors[b]
    {
      grid.MappedSelf(a);
      grid.MappedFromOrigin(b);
      MathUtils.ProductPositive(grid.size);
      var raw := RawVector(grid, bravais, 0);
      bravais.VectorAntisymmetric(grid.Coords(0), grid.Coords(0));
      ZeroNorm(raw);
      var _ := RunningMinIsFirstMinimum(raw, ImageVectors(grid, bravais, 0), NumImages(grid.dim));
    }

    /** The stored vector of every site is no longer than its raw vector or any
        of its periodic images. */
    lemma StoredVectorIsShortest(site: nat, k: nat)
      requires Built() && grid.boundaries == Closed && site < grid.numSites
      requires k < NumImages(grid.dim)
      ensures distSq[site] <= NormSq(RawVector(grid, bravais, site))
      ensures distSq[site] <= NormSq(ImageVector(grid, bravais, site, k))
    {
      var _ := RunningMinIsFirstMinimum(RawVector(grid, bravais, site), ImageVectors(grid, bravais, site), NumImages(grid.dim));
      assert ImageVectors(grid, bravais, site)[k] == ImageVector(grid, bravais, site, k);
    }
  }

  lemma {:induction false} ZeroNorm(v: seq<real>)
    requires forall i :: 0 <= i < |v| ==> v[i] == 0.0
    ensures NormSq(v) == 0.0
  {
    if |v| > 0 {
      ZeroNorm(v[1..]);
    }
  }

  /** The Lattice constructor: a grid of the given extents and boundaries and
      all of its tables. */
  method NewLattice(b: Bravais.Bravais, size: seq<nat>, boundaries: Boundaries) returns (l: Lattice)
    requires MathUtils.Positive(size) && b.Valid() && b.dim == |size| && b.gamma % 2 == 0
    ensures l.Built() && l.grid == NewGrid(size, boundaries) && l.bravais == b
  {
    var g := NewGrid(size, boundaries);
    var positions := ComputePositions(g, b);
    var vectors := ComputeVectors(g, b);
    var distances := Distances(vectors);
    var neighbors := ComputeNeighbors(g, b);
    var momenta := ComputeMomenta(g);
    l := Lattice(g, b, positions, vectors, distances, neighbors, momenta);
  }

  /** On the closed 3 x 3 square lattice, site 0 has neighbours 3, 6, 1, 2 in slot order. */
  lemma SquareNeighborsOfCorner()
    ensures var g := NewGrid([3, 3], Closed);
      Compatible(g, Bravais.SquareLattice) && NeighborList(g, Bravais.SquareLattice, 0) == [3, 6, 1, 2]
  {
    var g, b := NewGrid([3, 3], Closed), Bravais.SquareLattice;
    SquareCoords(0, 0, 0);
    FourClosedSlots(g, b, [0, 0]);
    SquareSlotSite(0, 0, 0, 1, 0);
    SquareSlotSite(0, 0, 1, 2, 0);
    SquareSlotSite(0, 0, 2, 0, 1);
    SquareSlotSite(0, 0, 3, 0, 2);
  }

  /** On the closed 3 x 3 square lattice, site 8 has neighbours 2, 5, 6, 7 in slot order. */
  lemma SquareNeighborsOfOppositeCorner()
    ensures var g := NewGrid([3, 3], Closed);
      Compatible(g, Bravais.SquareLattice) && NeighborList(g, Bravais.SquareLattice, 8) == [2, 5, 6, 7]
  {
    var g, b := NewGrid([3, 3], Closed), Bravais.SquareLattice;
    SquareCoords(8, 2, 2);
    FourClosedSlots(g, b, [2, 2]);
    SquareSlotSite(2, 2, 0, 0, 2);
    SquareSlotSite(2, 2, 1, 1, 2);
    SquareSlotSite(2, 2, 2, 2, 0);
    SquareSlotSite(2, 2, 3, 2, 1);
  }

  /** On the closed 3 x 3 square lattice, site 1 has neighbours 4, 7, 2, 0 and
      site 4 has neighbours 7, 1, 5, 3, in slot order. */
  lemma SquareNeighborsOfEdgeAndCentre()
    ensures var g := NewGrid([3, 3], Closed);
      Compatible(g, Bravais.SquareLattice)
      && NeighborList(g, Bravais.SquareLattice, 1) == [4, 7, 2, 0]
      && NeighborList(g, Bravais.SquareLattice, 4) == [7, 1, 5, 3]
  {
    var g, b := NewGrid([3, 3], Closed), Bravais.SquareLattice;
    SquareCoords(1, 0, 1);
    FourClosedSlots(g, b, [0, 1]);
    SquareSlotSite(0, 1, 0, 1, 1);
    SquareSlotSite(0, 1, 1, 2, 1);
    SquareSlotSite(0, 1, 2, 0, 2);
    SquareSlotSite(0, 1, 3, 0, 0);
    SquareCoords(4, 1, 1);
    FourClosedSlots(g, b, [1, 1]);
    SquareSlotSite(1, 1, 0, 2, 1);
    SquareSlotSite(1, 1, 1, 0, 1);
    SquareSlotSite(1, 1, 2, 1, 2);
    SquareSlotSite(1, 1, 3, 1, 0);
  }

  /** The constructed closed 3 x 3 square lattice finds sites 1 and 4
      neighbours both ways round. */
  lemma SquareCentreNeighbors(l: Lattice)
    requires l.Built() && l.grid == NewGrid([3, 3], Closed) && l.bravais == Bravais.SquareLattice
    ensures |l.neighbors| == 9 && l.AreNeighbors(4, 1) && l.AreNeighbors(1, 4)
  {
    SquareNeighborsOfEdgeAndCentre();
    assert l.neighbors[1] == [4, 7, 2, 0] && l.neighbors[4] == [7, 1, 5, 3];
  }

  /** Site 3x + y of the closed 3 x 3 square lattice sits at (x, y). */
  lemma SquareCoords(i: nat, x: nat, y: nat)
    requires x < 3 && y < 3 && i == 3 * x + y
    ensures var g := NewGrid([3, 3], Closed);
      Compatible(g, Bravais.SquareLattice) && g.Coords(i) == [x, y]
  {
    Bravais.ConstantsValid();
    TwoDimensional(i, [0, 0], 3, 3);
    MathUtils.DivModUnique(i, 3, x, y);
  }

  /** Slot j of (x, y) on the closed 3 x 3 square lattice lands on (nx, ny): one
      step along the slot's axis, wrapped across the edge when needed. */
  lemma SquareSlotSite(x: nat, y: nat, j: nat, nx: nat, ny: nat)
    requires x < 3 && y < 3 && j < 4 && nx < 3 && ny < 3
    requires var dx, dy := (if j == 0 then 1 else if j == 1 then -1 else 0), (if j == 2 then 1 else if j == 3 then -1 else 0);
      (nx == x + dx || nx == x + dx - 3 || nx == x + dx + 3) && (ny == y + dy || ny == y + dy - 3 || ny == y + dy + 3)
    ensures var g := NewGrid([3, 3], Closed);
      Compatible(g, Bravais.SquareLattice) && SlotSite(g, Bravais.SquareLattice, [x, y], j) == 3 * nx + ny
  {
    var b := Bravais.SquareLattice;
    Bravais.ConstantsValid();
    assert b.Offset(0, 0) == 1 && b.Offset(0, 1) == 0 && b.Offset(1, 0) == 0 && b.Offset(1, 1) == 1;
    var n := [x + (if j == 0 then 1 else if j == 1 then -1 else 0), y + (if j == 2 then 1 else if j == 3 then -1 else 0)];
    SquareNeighbor(b, [x, y], j, n);
    WrapComponent(n[0], nx);
    WrapComponent(n[1], ny);
    assert WrapAll(n, [3, 3]) == [nx, ny];
    TwoDimensional(0, [nx, ny], 3, 3);
  }

  lemma WrapComponent(c: int, w: nat)
    requires w < 3 && (w == c || w == c - 3 || w == c + 3)
    ensures c % 3 == w
  {
    MathUtils.ModOfInRange(w, 3);
    if w == c - 3 {
      MathUtils.ModShift(w, 1, 3);
    } else if w == c + 3 {
      MathUtils.ModShift(w, -1, 3);
    }
  }

  lemma SquareNeighbor(b: Bravais.Bravais, c: seq<int>, j: nat, n: seq<int>)
    requires b == Bravais.SquareLattice && b.Valid() && |c| == 2 && j < 4
    requires b.Offset(0, 0) == 1 && b.Offset(0, 1) == 0 && b.Offset(1, 0) == 0 && b.Offset(1, 1) == 1
    requires n == [c[0] + (if j == 0 then 1 else if j == 1 then -1 else 0), c[1] + (if j == 2 then 1 else if j == 3 then -1 else 0)]
    ensures b.GetNeighbor(c, j) == n
  {
  }

  /** On a closed grid, a lattice with four slots lists the four slot sites in order. */
  lemma FourClosedSlots(g: Grid, b: Bravais.Bravais, c: seq<int>)
    requires Compatible(g, b) && g.boundaries == Closed && b.gamma == 4 && |c| == g.dim
    ensures NeighborSlots(g, b, c, 4) == [SlotSite(g, b, c, 0), SlotSite(g, b, c, 1), SlotSite(g, b, c, 2), SlotSite(g, b, c, 3)]
  {
    var keeps, sites := SlotKeeps(g, b, c), SlotSites(g, b, c);
    assert keeps[0] && keeps[1] && keeps[2] && keeps[3];
    assert KeptSites(keeps, sites, 1) == [sites[0]];
    assert KeptSites(keeps, sites, 2) == [sites[0], sites[1]];
    assert KeptSites(keeps, sites, 3) == [sites[0], sites[1], sites[2]];
  }

}
