/**
 * Numbering of the nodes of arbitrary-order Lagrange quadrilaterals and
 * hexahedra in VTK's serialised order. A node is given by its lattice
 * coordinates (i, j) or (i, j, k), with 0 <= i <= n0 and so on; VTK lists the
 * corners first, then the nodes inside the edges, then (in 3d) those inside
 * the faces, and the interior last.
 *
 * The library computes the index in `unsigned int` arithmetic. Here it is
 * computed exactly on integers (`QuadNodeIndex`, `HexNodeIndex`) and reduced
 * modulo 2^32 at the end (`Wrap32`), which gives the same value.
 *
 * The inverse maps (`QuadLatticePoint`, `HexLatticePoint`) are not part of
 * the library; they are the reference against which the numbering is proved
 * to be a bijection.
 */
module VtkLagrangeNodes {
  import opened ReferenceCell
  import opened LatticeArithmetic

  /** The value of an exact integer result in `unsigned int` arithmetic. */
  function Wrap32(x: int): (r: uint32)
    ensures 0 <= x < 0x1_0000_0000 ==> r == x
  {
    x % 0x1_0000_0000
  }

  /** Coordinate `x` lies on one of the two boundaries of an axis with nodes 0..n. */
  predicate OnBoundary(x: int, n: int)
  {
    x == 0 || x == n
  }

  /** 1 for a coordinate on a boundary, 0 otherwise; summed over the coordinates
      this gives the stratum of a node (on every boundary at once: a corner; on all
      but one: an edge; and so on). */
  function BoundaryHits(onBoundary: bool): int
  {
    if onBoundary then 1 else 0
  }

  /** Number of the corner (i, j) of a square in VTK's counter-clockwise order:
      (0, 0), (n0, 0), (n0, n1), (0, n1). */
  function CornerNumber(i: int, j: int): int
  {
    if i != 0 then (if j != 0 then 2 else 1) else (if j != 0 then 3 else 0)
  }

  // ---------------------------------------------------------------- quadrilateral

  /** `vtk_lexicographic_to_node_index<2>` on exact integers. */
  function QuadNodeIndex(i: int, j: int, n0: int, n1: int): int
  {
    var ibdy := OnBoundary(i, n0);
    var jbdy := OnBoundary(j, n1);
    var nbdy := BoundaryHits(ibdy) + BoundaryHits(jbdy);
    if nbdy == 2 then
      CornerNumber(i, j)
    else if nbdy == 1 && !ibdy then
      // on an edge along the i axis
      (i - 1) + (if j != 0 then n0 - 1 + n1 - 1 else 0) + 4
    else if nbdy == 1 && !jbdy then
      // on an edge along the j axis
      (j - 1) + (if i != 0 then n0 - 1 else 2 * (n0 - 1) + n1 - 1) + 4
    else
      // inside the face
      4 + 2 * (n0 - 1 + n1 - 1) + (i - 1) + (n0 - 1) * (j - 1)
  }

  /** The point at corner number `m` of the square with nodes 0..n0 by 0..n1. */
  function CornerPoint(m: int, n0: int, n1: int): (int, int)
  {
    if m == 0 then (0, 0) else if m == 1 then (n0, 0) else if m == 2 then (n0, n1) else (0, n1)
  }

  /** The point at position `e` of the edge nodes of that square, taken edge by edge
      as VTK lists them: bottom, right, top, left. */
  function RingPoint(e: int, n0: int, n1: int): (int, int)
  {
    var a, b := n0 - 1, n1 - 1;
    if e < a then (e + 1, 0)
    else if e < a + b then (n0, e - a + 1)
    else if e < 2 * a + b then (e - a - b + 1, n1)
    else (0, e - 2 * a - b + 1)
  }

  /** Inverse of the quadrilateral numbering: the lattice point with node index `r`. */
  function QuadLatticePoint(r: int, n0: int, n1: int): (p: (int, int))
    requires 1 <= n0 && 1 <= n1 && 0 <= r < (n0 + 1) * (n1 + 1)
    ensures 0 <= p.0 <= n0 && 0 <= p.1 <= n1
  {
    var a, b := n0 - 1, n1 - 1;
    if r < 4 then CornerPoint(r, n0, n1)
    else if r < 4 + 2 * (a + b) then RingPoint(r - 4, n0, n1)
    else
      var s := r - 4 - 2 * (a + b);
      QuadCountSplit(a, b);
      assert a != 0;
      RowMajorSplit(s, a, b);
      (1 + s % a, 1 + s / a)
  }

  /** Corners take the numbers [0, 4), edge nodes the next 2(n0 - 1 + n1 - 1), and
      interior nodes the rest of [0, (n0 + 1)(n1 + 1)). */
  lemma QuadNodeIndexStrata(i: int, j: int, n0: int, n1: int)
    requires 1 <= n0 && 1 <= n1 && 0 <= i <= n0 && 0 <= j <= n1
    ensures var r := QuadNodeIndex(i, j, n0, n1);
      var nbdy := BoundaryHits(OnBoundary(i, n0)) + BoundaryHits(OnBoundary(j, n1));
      && (nbdy == 2 ==> 0 <= r < 4)
      && (nbdy == 1 ==> 4 <= r < 4 + 2 * (n0 - 1 + n1 - 1))
      && (nbdy == 0 ==> 4 + 2 * (n0 - 1 + n1 - 1) <= r < (n0 + 1) * (n1 + 1))
  {
    var a, b := n0 - 1, n1 - 1;
    QuadCountSplit(a, b);
    if !OnBoundary(i, n0) && !OnBoundary(j, n1) {
      RowMajorBound(i - 1, j - 1, a, b);
    }
  }

  /** Numbering a lattice point and inverting gives the point back. */
  lemma QuadLatticePointOfIndex(i: int, j: int, n0: int, n1: int)
    requires 1 <= n0 && 1 <= n1 && 0 <= i <= n0 && 0 <= j <= n1
    ensures 0 <= QuadNodeIndex(i, j, n0, n1) < (n0 + 1) * (n1 + 1)
    ensures QuadLatticePoint(QuadNodeIndex(i, j, n0, n1), n0, n1) == (i, j)
  {
    var a, b := n0 - 1, n1 - 1;
    QuadNodeIndexStrata(i, j, n0, n1);
    QuadCountSplit(a, b);
    MulMonotone(a, 0, b);
    var r := QuadNodeIndex(i, j, n0, n1);
    if OnBoundary(i, n0) && OnBoundary(j, n1) {
      assert r == CornerNumber(i, j) < 4;
    } else if OnBoundary(i, n0) || OnBoundary(j, n1) {
      assert 4 <= r < 4 + 2 * (a + b);
      assert QuadLatticePoint(r, n0, n1) == RingPoint(r - 4, n0, n1);
    } else {
      var s := (i - 1) + a * (j - 1);
      assert r == 4 + 2 * (a + b) + s;
      RowMajorUnique(i - 1, j - 1, a);
      assert QuadLatticePoint(r, n0, n1) == (1 + s % a, 1 + s / a);
    }
  }

  /** Inverting a node index and numbering the point gives the index back. */
  lemma QuadIndexOfLatticePoint(r: int, n0: int, n1: int)
    requires 1 <= n0 && 1 <= n1 && 0 <= r < (n0 + 1) * (n1 + 1)
    ensures var p := QuadLatticePoint(r, n0, n1); QuadNodeIndex(p.0, p.1, n0, n1) == r
  {
    var a, b := n0 - 1, n1 - 1;
    if 4 + 2 * (a + b) <= r {
      var s := r - 4 - 2 * (a + b);
      QuadCountSplit(a, b);
      RowMajorSplit(s, a, b);
      var p := (1 + s % a, 1 + s / a);
      assert QuadLatticePoint(r, n0, n1) == p;
      assert !OnBoundary(p.0, n0) && !OnBoundary(p.1, n1);
      assert QuadNodeIndex(p.0, p.1, n0, n1) == 4 + 2 * (a + b) + s % a + a * (s / a);
    }
  }

  // ---------------------------------------------------------------- hexahedron

  /** `vtk_lexicographic_to_node_index<3>` on exact integers. With `legacyFormat`
      the edges along the k axis at (0, n1) and (n0, n1) come in VTK's older order. */
  function HexNodeIndex(i: int, j: int, k: int, n0: int, n1: int, n2: int, legacyFormat: bool): int
  {
    var ibdy := OnBoundary(i, n0);
    var jbdy := OnBoundary(j, n1);
    var kbdy := OnBoundary(k, n2);
    var nbdy := BoundaryHits(ibdy) + BoundaryHits(jbdy) + BoundaryHits(kbdy);
    if nbdy == 3 then
      CornerNumber(i, j) + (if k != 0 then 4 else 0)
    else if nbdy == 2 then
      if !ibdy then
        // on an edge along the i axis
        (i - 1) + (if j != 0 then n0 - 1 + n1 - 1 else 0)
          + (if k != 0 then 2 * (n0 - 1 + n1 - 1) else 0) + 8
      else if !jbdy then
        // on an edge along the j axis
        (j - 1) + (if i != 0 then n0 - 1 else 2 * (n0 - 1) + n1 - 1)
          + (if k != 0 then 2 * (n0 - 1 + n1 - 1) else 0) + 8
      else
        // on an edge along the k axis
        var offset := 8 + 4 * (n0 - 1) + 4 * (n1 - 1);
        if legacyFormat then
          (k - 1) + (n2 - 1) * (if i != 0 then (if j != 0 then 3 else 1) else (if j != 0 then 2 else 0)) + offset
        else
          (k - 1) + (n2 - 1) * CornerNumber(i, j) + offset
    else
      var offset := 8 + 4 * (n0 - 1 + n1 - 1 + n2 - 1);
      if nbdy == 1 then
        if ibdy then
          // on a face normal to the i axis
          (j - 1) + (n1 - 1) * (k - 1) + (if i != 0 then (n1 - 1) * (n2 - 1) else 0) + offset
        else if jbdy then
          // on a face normal to the j axis
          (i - 1) + (n0 - 1) * (k - 1) + (if j != 0 then (n2 - 1) * (n0 - 1) else 0)
            + offset + 2 * (n1 - 1) * (n2 - 1)
        else
          // on a face normal to the k axis
          (i - 1) + (n0 - 1) * (j - 1) + (if k != 0 then (n0 - 1) * (n1 - 1) else 0)
            + offset + 2 * (n1 - 1) * (n2 - 1) + 2 * (n2 - 1) * (n0 - 1)
      else
        // inside the cell
        offset + 2 * ((n1 - 1) * (n2 - 1) + (n2 - 1) * (n0 - 1) + (n0 - 1) * (n1 - 1))
          + (i - 1) + (n0 - 1) * ((j - 1) + (n1 - 1) * (k - 1))
  }

  /** The (i, j) position of the edge along the k axis that comes `m`-th; the legacy
      order lists (0, n1) before (n0, n1). */
  function KEdgePoint(m: int, n0: int, n1: int, legacyFormat: bool): (int, int)
  {
    if legacyFormat && m == 2 then (0, n1)
    else if legacyFormat && m == 3 then (n0, n1)
    else CornerPoint(m, n0, n1)
  }

  /** Position `s` among the nodes inside a pair of opposite faces, each face a `w`
      by `h` block listed row by row: whether it is the far face of the pair, and
      the node's two coordinates within the face (counted from 1). */
  function FacePairPoint(s: int, w: int, h: int): (p: (bool, int, int))
    requires 0 <= w && 0 <= h && 0 <= s < 2 * (w * h)
    ensures 1 <= p.1 <= w && 1 <= p.2 <= h
  {
    var far := s >= w * h;
    var t := if far then s - w * h else s;
    MulMonotone(h, 0, w);
    assert w != 0;
    RowMajorSplit(t, w, h);
    (far, 1 + t % w, 1 + t / w)
  }

  /** `FacePairPoint` recovers the face and the coordinates a node is numbered from. */
  lemma FacePairPointOfIndex(far: bool, x: int, y: int, w: int, h: int)
    requires 1 <= x <= w && 1 <= y <= h
    ensures 0 <= (x - 1) + w * (y - 1) < w * h
    ensures FacePairPoint((if far then w * h else 0) + (x - 1) + w * (y - 1), w, h) == (far, x, y)
  {
    RowMajorBound(x - 1, y - 1, w, h);
    RowMajorUnique(x - 1, y - 1, w);
  }

  /** Numbering the face node `FacePairPoint` gives returns the position it came from. */
  lemma IndexOfFacePairPoint(s: int, w: int, h: int)
    requires 0 <= w && 0 <= h && 0 <= s < 2 * (w * h)
    ensures var p := FacePairPoint(s, w, h);
      s == (if p.0 then w * h else 0) + (p.1 - 1) + w * (p.2 - 1)
  {
    var far := s >= w * h;
    var t := if far then s - w * h else s;
    MulMonotone(h, 0, w);
    RowMajorSplit(t, w, h);
  }

  /** Position `s` among the interior nodes of an `a` by `b` by `c` block, listed
      with i fastest and k slowest: the node's coordinates (counted from 1). */
  function InteriorPoint(s: int, a: int, b: int, c: int): (p: (int, int, int))
    requires 0 <= a && 0 <= b && 0 <= c && 0 <= s < a * (b * c)
    ensures 1 <= p.0 <= a && 1 <= p.1 <= b && 1 <= p.2 <= c
  {
    MulMonotone(b, 0, c);
    MulMonotone(b * c, 0, a);
    assert a != 0;
    RowMajorSplit(s, a, b * c);
    var q := s / a;
    assert b != 0;
    RowMajorSplit(q, b, c);
    (1 + s % a, 1 + q % b, 1 + q / b)
  }

  /** `InteriorPoint` recovers the coordinates an interior node is numbered from. */
  lemma InteriorPointOfIndex(x: int, y: int, z: int, a: int, b: int, c: int)
    requires 1 <= x <= a && 1 <= y <= b && 1 <= z <= c
    ensures var q := (y - 1) + b * (z - 1);
      0 <= (x - 1) + a * q < a * (b * c) &&
      InteriorPoint((x - 1) + a * q, a, b, c) == (x, y, z)
  {
    var q := (y - 1) + b * (z - 1);
    RowMajorBound(y - 1, z - 1, b, c);
    RowMajorBound(x - 1, q, a, b * c);
    RowMajorUnique(x - 1, q, a);
    RowMajorUnique(y - 1, z - 1, b);
  }

  /** Numbering the interior node `InteriorPoint` gives returns the position it came from. */
  lemma IndexOfInteriorPoint(s: int, a: int, b: int, c: int)
    requires 0 <= a && 0 <= b && 0 <= c && 0 <= s < a * (b * c)
    ensures var p := InteriorPoint(s, a, b, c);
      s == (p.0 - 1) + a * ((p.1 - 1) + b * (p.2 - 1))
  {
    MulMonotone(b, 0, c);
    MulMonotone(b * c, 0, a);
    RowMajorSplit(s, a, b * c);
    RowMajorSplit(s / a, b, c);
  }

  /** Inverse of the hexahedron numbering: the lattice point with node index `r`. */
  function HexLatticePoint(r: int, n0: int, n1: int, n2: int, legacyFormat: bool): (p: (int, int, int))
    requires 1 <= n0 && 1 <= n1 && 1 <= n2 && 0 <= r < HexNodeCount(n0, n1, n2)
    ensures 0 <= p.0 <= n0 && 0 <= p.1 <= n1 && 0 <= p.2 <= n2
  {
    var a, b, c := n0 - 1, n1 - 1, n2 - 1;
    var faces := 8 + 4 * (a + b + c);
    MulMonotone(a, 0, b);
    MulMonotone(b, 0, c);
    MulMonotone(c, 0, a);
    if r < 8 then
      var ij := CornerPoint(if r < 4 then r else r - 4, n0, n1);
      (ij.0, ij.1, if r < 4 then 0 else n2)
    else if r < 8 + 4 * (a + b) then
      var e := r - 8;
      var top := e >= 2 * (a + b);
      var ij := RingPoint(if top then e - 2 * (a + b) else e, n0, n1);
      (ij.0, ij.1, if top then n2 else 0)
    else if r < faces then
      var e := r - 8 - 4 * (a + b);
      var m := if e < c then 0 else if e < 2 * c then 1 else if e < 3 * c then 2 else 3;
      var start := if e < c then 0 else if e < 2 * c then c else if e < 3 * c then 2 * c else 3 * c;
      var ij := KEdgePoint(m, n0, n1, legacyFormat);
      (ij.0, ij.1, e - start + 1)
    else if r < faces + 2 * (b * c) then
      var f := FacePairPoint(r - faces, b, c);
      (if f.0 then n0 else 0, f.1, f.2)
    else if r < faces + 2 * (b * c) + 2 * (c * a) then
      assert c * a == a * c;
      var f := FacePairPoint(r - faces - 2 * (b * c), a, c);
      (f.1, if f.0 then n1 else 0, f.2)
    else if r < faces + 2 * (b * c) + 2 * (c * a) + 2 * (a * b) then
      var f := FacePairPoint(r - faces - 2 * (b * c) - 2 * (c * a), a, b);
      (f.1, f.2, if f.0 then n2 else 0)
    else
      HexCountSplit(a, b, c);
      InteriorPoint(r - faces - 2 * (b * c + c * a + a * b), a, b, c)
  }

  /** First index of the face nodes of a hexahedron: after 8 corners and the edge nodes. */
  function HexFaceStart(n0: int, n1: int, n2: int): int
  {
    8 + 4 * (n0 - 1 + n1 - 1 + n2 - 1)
  }

  /** First index of the interior nodes of a hexahedron: after the face nodes. */
  function HexInteriorStart(n0: int, n1: int, n2: int): int
  {
    HexFaceStart(n0, n1, n2) + 2 * ((n1 - 1) * (n2 - 1) + (n2 - 1) * (n0 - 1) + (n0 - 1) * (n1 - 1))
  }

  /** Number of nodes of the hexahedral lattice. */
  function HexNodeCount(n0: int, n1: int, n2: int): int
  {
    (n0 + 1) * (n1 + 1) * (n2 + 1)
  }

  lemma HexEdgeIndexBounds(i: int, j: int, k: int, n0: int, n1: int, n2: int, legacyFormat: bool)
    requires 1 <= n0 && 1 <= n1 && 1 <= n2 && 0 <= i <= n0 && 0 <= j <= n1 && 0 <= k <= n2
    requires BoundaryHits(OnBoundary(i, n0)) + BoundaryHits(OnBoundary(j, n1)) + BoundaryHits(OnBoundary(k, n2)) == 2
    ensures 8 <= HexNodeIndex(i, j, k, n0, n1, n2, legacyFormat) < HexFaceStart(n0, n1, n2)
  {
    if OnBoundary(i, n0) && OnBoundary(j, n1) {
      var c := n2 - 1;
      var m := if legacyFormat then (if i != 0 then (if j != 0 then 3 else 1) else (if j != 0 then 2 else 0))
               else CornerNumber(i, j);
      MulMonotone(c, 0, m);
      MulMonotone(c, m, 3);
    }
  }

  lemma HexFaceIndexBoundsI(i: int, j: int, k: int, n0: int, n1: int, n2: int, legacyFormat: bool)
    requires 1 <= n0 && 1 <= n1 && 1 <= n2 && 0 <= i <= n0 && 0 <= j <= n1 && 0 <= k <= n2
    requires OnBoundary(i, n0) && !OnBoundary(j, n1) && !OnBoundary(k, n2)
    ensures var r := HexNodeIndex(i, j, k, n0, n1, n2, legacyFormat);
      HexFaceStart(n0, n1, n2) <= r < HexFaceStart(n0, n1, n2) + 2 * ((n1 - 1) * (n2 - 1))
  {
    var b, c := n1 - 1, n2 - 1;
    RowMajorBound(j - 1, k - 1, b, c);
  }

  lemma HexFaceIndexBoundsJ(i: int, j: int, k: int, n0: int, n1: int, n2: int, legacyFormat: bool)
    requires 1 <= n0 && 1 <= n1 && 1 <= n2 && 0 <= i <= n0 && 0 <= j <= n1 && 0 <= k <= n2
    requires !OnBoundary(i, n0) && OnBoundary(j, n1) && !OnBoundary(k, n2)
    ensures var r := HexNodeIndex(i, j, k, n0, n1, n2, legacyFormat);
      var start := HexFaceStart(n0, n1, n2) + 2 * ((n1 - 1) * (n2 - 1));
      start <= r < start + 2 * ((n2 - 1) * (n0 - 1))
  {
    var a, b, c := n0 - 1, n1 - 1, n2 - 1;
    RowMajorBound(i - 1, k - 1, a, c);
    assert a * c == c * a;
    DoubleProduct(b, c);
  }

  lemma HexFaceIndexBoundsK(i: int, j: int, k: int, n0: int, n1: int, n2: int, legacyFormat: bool)
    requires 1 <= n0 && 1 <= n1 && 1 <= n2 && 0 <= i <= n0 && 0 <= j <= n1 && 0 <= k <= n2
    requires !OnBoundary(i, n0) && !OnBoundary(j, n1) && OnBoundary(k, n2)
    ensures var r := HexNodeIndex(i, j, k, n0, n1, n2, legacyFormat);
      var start := HexFaceStart(n0, n1, n2) + 2 * ((n1 - 1) * (n2 - 1)) + 2 * ((n2 - 1) * (n0 - 1));
      start <= r < start + 2 * ((n0 - 1) * (n1 - 1))
  {
    var a, b, c := n0 - 1, n1 - 1, n2 - 1;
    RowMajorBound(i - 1, j - 1, a, b);
    DoubleProduct(b, c);
    DoubleProduct(c, a);
  }

  lemma HexInteriorIndexBounds(i: int, j: int, k: int, n0: int, n1: int, n2: int, legacyFormat: bool)
    requires 1 <= n0 && 1 <= n1 && 1 <= n2 && 0 <= i <= n0 && 0 <= j <= n1 && 0 <= k <= n2
    requires !OnBoundary(i, n0) && !OnBoundary(j, n1) && !OnBoundary(k, n2)
    ensures HexInteriorStart(n0, n1, n2) <= HexNodeIndex(i, j, k, n0, n1, n2, legacyFormat) < HexNodeCount(n0, n1, n2)
  {
    var a, b, c := n0 - 1, n1 - 1, n2 - 1;
    HexCountSplit(a, b, c);
    RowMajorBound(j - 1, k - 1, b, c);
    RowMajorBound(i - 1, (j - 1) + b * (k - 1), a, b * c);
  }

  /** Corners take the numbers [0, 8), edge nodes the next 4(n0 - 1 + n1 - 1 + n2 - 1),
      face nodes the next 2((n1 - 1)(n2 - 1) + (n2 - 1)(n0 - 1) + (n0 - 1)(n1 - 1)), and
      interior nodes the rest of [0, (n0 + 1)(n1 + 1)(n2 + 1)); in either format. */
  lemma HexNodeIndexStrata(i: int, j: int, k: int, n0: int, n1: int, n2: int, legacyFormat: bool)
    requires 1 <= n0 && 1 <= n1 && 1 <= n2 && 0 <= i <= n0 && 0 <= j <= n1 && 0 <= k <= n2
    ensures var r := HexNodeIndex(i, j, k, n0, n1, n2, legacyFormat);
      var nbdy := BoundaryHits(OnBoundary(i, n0)) + BoundaryHits(OnBoundary(j, n1)) + BoundaryHits(OnBoundary(k, n2));
      && (nbdy == 3 ==> 0 <= r < 8)
      && (nbdy == 2 ==> 8 <= r < HexFaceStart(n0, n1, n2))
      && (nbdy == 1 ==> HexFaceStart(n0, n1, n2) <= r < HexInteriorStart(n0, n1, n2))
      && (nbdy == 0 ==> HexInteriorStart(n0, n1, n2) <= r < HexNodeCount(n0, n1, n2))
  {
    var nbdy := BoundaryHits(OnBoundary(i, n0)) + BoundaryHits(OnBoundary(j, n1)) + BoundaryHits(OnBoundary(k, n2));
    if nbdy == 2 {
      HexEdgeIndexBounds(i, j, k, n0, n1, n2, legacyFormat);
    } else if nbdy == 1 {
      var a, b, c := n0 - 1, n1 - 1, n2 - 1;
      MulMonotone(a, 0, b);
      MulMonotone(b, 0, c);
      MulMonotone(c, 0, a);
      if OnBoundary(i, n0) {
        HexFaceIndexBoundsI(i, j, k, n0, n1, n2, legacyFormat);
      } else if OnBoundary(j, n1) {
        HexFaceIndexBoundsJ(i, j, k, n0, n1, n2, legacyFormat);
      } else {
        HexFaceIndexBoundsK(i, j, k, n0, n1, n2, legacyFormat);
      }
    } else if nbdy == 0 {
      HexInteriorIndexBounds(i, j, k, n0, n1, n2, legacyFormat);
    }
  }

  /** Facts about the sizes of the strata that every round-trip step needs. */
  lemma HexSizes(n0: int, n1: int, n2: int)
    requires 1 <= n0 && 1 <= n1 && 1 <= n2
    ensures var a, b, c := n0 - 1, n1 - 1, n2 - 1;
      && 0 <= a * b && 0 <= b * c && 0 <= c * a && 0 <= a * (b * c)
      && HexInteriorStart(n0, n1, n2) == HexFaceStart(n0, n1, n2) + 2 * (b * c) + 2 * (c * a) + 2 * (a * b)
      && HexNodeCount(n0, n1, n2) == HexInteriorStart(n0, n1, n2) + a * (b * c)
  {
    var a, b, c := n0 - 1, n1 - 1, n2 - 1;
    MulMonotone(a, 0, b);
    MulMonotone(b, 0, c);
    MulMonotone(c, 0, a);
    MulMonotone(a, 0, b * c);
    HexCountSplit(a, b, c);
  }

  lemma HexEdgeRoundTrip(i: int, j: int, k: int, n0: int, n1: int, n2: int, legacyFormat: bool)
    requires 1 <= n0 && 1 <= n1 && 1 <= n2 && 0 <= i <= n0 && 0 <= j <= n1 && 0 <= k <= n2
    requires BoundaryHits(OnBoundary(i, n0)) + BoundaryHits(OnBoundary(j, n1)) + BoundaryHits(OnBoundary(k, n2)) >= 2
    ensures 0 <= HexNodeIndex(i, j, k, n0, n1, n2, legacyFormat) < HexNodeCount(n0, n1, n2)
    ensures HexLatticePoint(HexNodeIndex(i, j, k, n0, n1, n2, legacyFormat), n0, n1, n2, legacyFormat) == (i, j, k)
  {
    HexSizes(n0, n1, n2);
    HexNodeIndexStrata(i, j, k, n0, n1, n2, legacyFormat);
    var r := HexNodeIndex(i, j, k, n0, n1, n2, legacyFormat);
    if OnBoundary(i, n0) && OnBoundary(j, n1) && !OnBoundary(k, n2) {
      var c := n2 - 1;
      var m := if legacyFormat then (if i != 0 then (if j != 0 then 3 else 1) else (if j != 0 then 2 else 0))
               else CornerNumber(i, j);
      assert r == (k - 1) + c * m + 8 + 4 * (n0 - 1) + 4 * (n1 - 1);
      assert c * m == if m == 0 then 0 else if m == 1 then c else if m == 2 then 2 * c else 3 * c;
    }
  }

  lemma HexFaceRoundTripI(i: int, j: int, k: int, n0: int, n1: int, n2: int, legacyFormat: bool)
    requires 1 <= n0 && 1 <= n1 && 1 <= n2 && 0 <= i <= n0 && 0 <= j <= n1 && 0 <= k <= n2
    requires OnBoundary(i, n0) && !OnBoundary(j, n1) && !OnBoundary(k, n2)
    ensures 0 <= HexNodeIndex(i, j, k, n0, n1, n2, legacyFormat) < HexNodeCount(n0, n1, n2)
    ensures HexLatticePoint(HexNodeIndex(i, j, k, n0, n1, n2, legacyFormat), n0, n1, n2, legacyFormat) == (i, j, k)
  {
    var a, b, c := n0 - 1, n1 - 1, n2 - 1;
    HexSizes(n0, n1, n2);
    HexFaceIndexBoundsI(i, j, k, n0, n1, n2, legacyFormat);
    var r := HexNodeIndex(i, j, k, n0, n1, n2, legacyFormat);
    var faces := HexFaceStart(n0, n1, n2);
    FacePairPointOfIndex(i != 0, j, k, b, c);
    assert r - faces == (if i != 0 then b * c else 0) + (j - 1) + b * (k - 1);
  }

  lemma HexFaceRoundTripJ(i: int, j: int, k: int, n0: int, n1: int, n2: int, legacyFormat: bool)
    requires 1 <= n0 && 1 <= n1 && 1 <= n2 && 0 <= i <= n0 && 0 <= j <= n1 && 0 <= k <= n2
    requires !OnBoundary(i, n0) && OnBoundary(j, n1) && !OnBoundary(k, n2)
    ensures 0 <= HexNodeIndex(i, j, k, n0, n1, n2, legacyFormat) < HexNodeCount(n0, n1, n2)
    ensures HexLatticePoint(HexNodeIndex(i, j, k, n0, n1, n2, legacyFormat), n0, n1, n2, legacyFormat) == (i, j, k)
  {
    var a, b, c := n0 - 1, n1 - 1, n2 - 1;
    HexSizes(n0, n1, n2);
    HexFaceIndexBoundsJ(i, j, k, n0, n1, n2, legacyFormat);
    var r := HexNodeIndex(i, j, k, n0, n1, n2, legacyFormat);
    var faces := HexFaceStart(n0, n1, n2);
    FacePairPointOfIndex(j != 0, i, k, a, c);
    assert a * c == c * a;
    DoubleProduct(b, c);
    assert r - faces - 2 * (b * c) == (if j != 0 then a * c else 0) + (i - 1) + a * (k - 1);
  }

  lemma HexFaceRoundTripK(i: int, j: int, k: int, n0: int, n1: int, n2: int, legacyFormat: bool)
    requires 1 <= n0 && 1 <= n1 && 1 <= n2 && 0 <= i <= n0 && 0 <= j <= n1 && 0 <= k <= n2
    requires !OnBoundary(i, n0) && !OnBoundary(j, n1) && OnBoundary(k, n2)
    ensures 0 <= HexNodeIndex(i, j, k, n0, n1, n2, legacyFormat) < HexNodeCount(n0, n1, n2)
    ensures HexLatticePoint(HexNodeIndex(i, j, k, n0, n1, n2, legacyFormat), n0, n1, n2, legacyFormat) == (i, j, k)
  {
    var a, b, c := n0 - 1, n1 - 1, n2 - 1;
    HexSizes(n0, n1, n2);
    HexFaceIndexBoundsK(i, j, k, n0, n1, n2, legacyFormat);
    var r := HexNodeIndex(i, j, k, n0, n1, n2, legacyFormat);
    var faces := HexFaceStart(n0, n1, n2);
    FacePairPointOfIndex(k != 0, i, j, a, b);
    DoubleProduct(b, c);
    DoubleProduct(c, a);
    var s := r - faces - 2 * (b * c) - 2 * (c * a);
    assert s == (if k != 0 then a * b else 0) + (i - 1) + a * (j - 1);
    assert 0 <= s < 2 * (a * b);
    assert HexLatticePoint(r, n0, n1, n2, legacyFormat)
        == var f := FacePairPoint(s, a, b); (f.1, f.2, if f.0 then n2 else 0);
  }

  lemma HexInteriorRoundTrip(i: int, j: int, k: int, n0: int, n1: int, n2: int, legacyFormat: bool)
    requires 1 <= n0 && 1 <= n1 && 1 <= n2 && 0 <= i <= n0 && 0 <= j <= n1 && 0 <= k <= n2
    requires !OnBoundary(i, n0) && !OnBoundary(j, n1) && !OnBoundary(k, n2)
    ensures 0 <= HexNodeIndex(i, j, k, n0, n1, n2, legacyFormat) < HexNodeCount(n0, n1, n2)
    ensures HexLatticePoint(HexNodeIndex(i, j, k, n0, n1, n2, legacyFormat), n0, n1, n2, legacyFormat) == (i, j, k)
  {
    var a, b, c := n0 - 1, n1 - 1, n2 - 1;
    HexSizes(n0, n1, n2);
    HexInteriorIndexBounds(i, j, k, n0, n1, n2, legacyFormat);
    var r := HexNodeIndex(i, j, k, n0, n1, n2, legacyFormat);
    InteriorPointOfIndex(i, j, k, a, b, c);
    var s := r - HexInteriorStart(n0, n1, n2);
    assert s == (i - 1) + a * ((j - 1) + b * (k - 1));
    assert InteriorPoint(s, a, b, c) == (i, j, k);
    assert HexLatticePoint(r, n0, n1, n2, legacyFormat) == InteriorPoint(s, a, b, c);
  }

  /** Numbering a lattice point and inverting gives the point back, in either format. */
  lemma HexLatticePointOfIndex(i: int, j: int, k: int, n0: int, n1: int, n2: int, legacyFormat: bool)
    requires 1 <= n0 && 1 <= n1 && 1 <= n2 && 0 <= i <= n0 && 0 <= j <= n1 && 0 <= k <= n2
    ensures 0 <= HexNodeIndex(i, j, k, n0, n1, n2, legacyFormat) < HexNodeCount(n0, n1, n2)
    ensures HexLatticePoint(HexNodeIndex(i, j, k, n0, n1, n2, legacyFormat), n0, n1, n2, legacyFormat) == (i, j, k)
  {
    HexNodeIndexStrata(i, j, k, n0, n1, n2, legacyFormat);
    HexSizes(n0, n1, n2);
    var nbdy := BoundaryHits(OnBoundary(i, n0)) + BoundaryHits(OnBoundary(j, n1)) + BoundaryHits(OnBoundary(k, n2));
    if nbdy >= 2 {
      HexEdgeRoundTrip(i, j, k, n0, n1, n2, legacyFormat);
    } else if nbdy == 1 && OnBoundary(i, n0) {
      HexFaceRoundTripI(i, j, k, n0, n1, n2, legacyFormat);
    } else if nbdy == 1 && OnBoundary(j, n1) {
      HexFaceRoundTripJ(i, j, k, n0, n1, n2, legacyFormat);
    } else if nbdy == 1 {
      HexFaceRoundTripK(i, j, k, n0, n1, n2, legacyFormat);
    } else {
      HexInteriorRoundTrip(i, j, k, n0, n1, n2, legacyFormat);
    }
  }

  lemma HexIndexOfEdgePoint(r: int, n0: int, n1: int, n2: int, legacyFormat: bool)
    requires 1 <= n0 && 1 <= n1 && 1 <= n2 && 0 <= r < HexNodeCount(n0, n1, n2)
    requires r < HexFaceStart(n0, n1, n2)
    ensures var p := HexLatticePoint(r, n0, n1, n2, legacyFormat); HexNodeIndex(p.0, p.1, p.2, n0, n1, n2, legacyFormat) == r
  {
    var a, b, c := n0 - 1, n1 - 1, n2 - 1;
    HexSizes(n0, n1, n2);
    if 8 + 4 * (a + b) <= r {
      var e := r - 8 - 4 * (a + b);
      var m := if e < c then 0 else if e < 2 * c then 1 else if e < 3 * c then 2 else 3;
      var start := if e < c then 0 else if e < 2 * c then c else if e < 3 * c then 2 * c else 3 * c;
      var ij := KEdgePoint(m, n0, n1, legacyFormat);
      assert HexLatticePoint(r, n0, n1, n2, legacyFormat) == (ij.0, ij.1, e - start + 1);
      var m' := if legacyFormat then (if ij.0 != 0 then (if ij.1 != 0 then 3 else 1) else (if ij.1 != 0 then 2 else 0))
                else CornerNumber(ij.0, ij.1);
      assert m' == m;
      assert c * m == start;
    }
  }

  lemma HexIndexOfFacePointI(r: int, n0: int, n1: int, n2: int, legacyFormat: bool)
    requires 1 <= n0 && 1 <= n1 && 1 <= n2 && 0 <= r < HexNodeCount(n0, n1, n2)
    requires HexFaceStart(n0, n1, n2) <= r < HexFaceStart(n0, n1, n2) + 2 * ((n1 - 1) * (n2 - 1))
    ensures var p := HexLatticePoint(r, n0, n1, n2, legacyFormat); HexNodeIndex(p.0, p.1, p.2, n0, n1, n2, legacyFormat) == r
  {
    var a, b, c := n0 - 1, n1 - 1, n2 - 1;
    HexSizes(n0, n1, n2);
    var s := r - HexFaceStart(n0, n1, n2);
    IndexOfFacePairPoint(s, b, c);
    var f := FacePairPoint(s, b, c);
    assert HexLatticePoint(r, n0, n1, n2, legacyFormat) == (if f.0 then n0 else 0, f.1, f.2);
  }

  lemma HexIndexOfFacePointJ(r: int, n0: int, n1: int, n2: int, legacyFormat: bool)
    requires 1 <= n0 && 1 <= n1 && 1 <= n2 && 0 <= r < HexNodeCount(n0, n1, n2)
    requires var start := HexFaceStart(n0, n1, n2) + 2 * ((n1 - 1) * (n2 - 1));
      start <= r < start + 2 * ((n2 - 1) * (n0 - 1))
    ensures var p := HexLatticePoint(r, n0, n1, n2, legacyFormat); HexNodeIndex(p.0, p.1, p.2, n0, n1, n2, legacyFormat) == r
  {
    var a, b, c := n0 - 1, n1 - 1, n2 - 1;
    HexSizes(n0, n1, n2);
    var s := r - HexFaceStart(n0, n1, n2) - 2 * (b * c);
    assert c * a == a * c;
    IndexOfFacePairPoint(s, a, c);
    var f := FacePairPoint(s, a, c);
    assert HexLatticePoint(r, n0, n1, n2, legacyFormat) == (f.1, if f.0 then n1 else 0, f.2);
    DoubleProduct(b, c);
  }

  lemma HexIndexOfFacePointK(r: int, n0: int, n1: int, n2: int, legacyFormat: bool)
    requires 1 <= n0 && 1 <= n1 && 1 <= n2 && 0 <= r < HexNodeCount(n0, n1, n2)
    requires var start := HexFaceStart(n0, n1, n2) + 2 * ((n1 - 1) * (n2 - 1)) + 2 * ((n2 - 1) * (n0 - 1));
      start <= r < start + 2 * ((n0 - 1) * (n1 - 1))
    ensures var p := HexLatticePoint(r, n0, n1, n2, legacyFormat); HexNodeIndex(p.0, p.1, p.2, n0, n1, n2, legacyFormat) == r
  {
    var a, b, c := n0 - 1, n1 - 1, n2 - 1;
    HexSizes(n0, n1, n2);
    var s := r - HexFaceStart(n0, n1, n2) - 2 * (b * c) - 2 * (c * a);
    IndexOfFacePairPoint(s, a, b);
    var f := FacePairPoint(s, a, b);
    assert HexLatticePoint(r, n0, n1, n2, legacyFormat) == (f.1, f.2, if f.0 then n2 else 0);
    DoubleProduct(b, c);
    DoubleProduct(c, a);
  }

  lemma HexIndexOfInteriorPoint(r: int, n0: int, n1: int, n2: int, legacyFormat: bool)
    requires 1 <= n0 && 1 <= n1 && 1 <= n2 && 0 <= r < HexNodeCount(n0, n1, n2)
    requires HexInteriorStart(n0, n1, n2) <= r
    ensures var p := HexLatticePoint(r, n0, n1, n2, legacyFormat); HexNodeIndex(p.0, p.1, p.2, n0, n1, n2, legacyFormat) == r
  {
    var a, b, c := n0 - 1, n1 - 1, n2 - 1;
    HexSizes(n0, n1, n2);
    var s := r - HexInteriorStart(n0, n1, n2);
    IndexOfInteriorPoint(s, a, b, c);
    assert HexLatticePoint(r, n0, n1, n2, legacyFormat) == InteriorPoint(s, a, b, c);
  }

  /** Inverting a node index and numbering the point gives the index back, in either format. */
  lemma HexIndexOfLatticePoint(r: int, n0: int, n1: int, n2: int, legacyFormat: bool)
    requires 1 <= n0 && 1 <= n1 && 1 <= n2 && 0 <= r < HexNodeCount(n0, n1, n2)
    ensures var p := HexLatticePoint(r, n0, n1, n2, legacyFormat); HexNodeIndex(p.0, p.1, p.2, n0, n1, n2, legacyFormat) == r
  {
    var a, b, c := n0 - 1, n1 - 1, n2 - 1;
    HexSizes(n0, n1, n2);
    var faces := HexFaceStart(n0, n1, n2);
    if r < faces {
      HexIndexOfEdgePoint(r, n0, n1, n2, legacyFormat);
    } else if r < faces + 2 * (b * c) {
      HexIndexOfFacePointI(r, n0, n1, n2, legacyFormat);
    } else if r < faces + 2 * (b * c) + 2 * (c * a) {
      HexIndexOfFacePointJ(r, n0, n1, n2, legacyFormat);
    } else if r < HexInteriorStart(n0, n1, n2) {
      HexIndexOfFacePointK(r, n0, n1, n2, legacyFormat);
    } else {
      HexIndexOfInteriorPoint(r, n0, n1, n2, legacyFormat);
    }
  }

  /** The two formats differ only on the nodes inside the two edges along the k axis
      on the side j = n1: there the legacy order gives the edge at (i, n1) the
      numbers the current order gives the edge at (n0 - i, n1). Everywhere else,
      and never on the same node, the two numberings agree. */
  lemma HexLegacyFormatSwapsKEdges(i: int, j: int, k: int, n0: int, n1: int, n2: int)
    requires 1 <= n0 && 1 <= n1 && 1 <= n2 && 0 <= i <= n0 && 0 <= j <= n1 && 0 <= k <= n2
    ensures OnBoundary(i, n0) && j == n1 && !OnBoundary(k, n2) ==>
      && HexNodeIndex(i, j, k, n0, n1, n2, true) == HexNodeIndex(n0 - i, j, k, n0, n1, n2, false)
      && HexNodeIndex(i, j, k, n0, n1, n2, true) != HexNodeIndex(i, j, k, n0, n1, n2, false)
    ensures !(OnBoundary(i, n0) && j == n1 && !OnBoundary(k, n2)) ==>
      HexNodeIndex(i, j, k, n0, n1, n2, true) == HexNodeIndex(i, j, k, n0, n1, n2, false)
  {
    if OnBoundary(i, n0) && j == n1 && !OnBoundary(k, n2) {
      var c := n2 - 1;
      assert 1 <= c;
      var legacy := if i != 0 then 3 else 2;
      var current := if i != 0 then 2 else 3;
      assert c * legacy != c * current by {
        if i != 0 { assert c * 3 == c * 2 + c; } else { assert c * 3 == c * 2 + c; }
      }
    }
  }

  // ---------------------------------------------------------------- the library's interface

  /** `vtk_lexicographic_to_node_index<dim>` for `dim` = 0, 1, 2, 3: the VTK node
      number of the lattice point `nodeIndices` of a Lagrange cell with
      `nodesPerDirection` subdivisions along each axis. Only the quadrilateral
      (in 2d) and the hexahedron (in 3d) are supported; the legacy flag matters
      only for the hexahedron. */
  function VtkLexicographicToNodeIndex(cell: Kind, nodeIndices: seq<uint32>, nodesPerDirection: seq<uint32>,
                                       legacyFormat: bool): (r: Result<uint32>)
    requires |nodeIndices| == |nodesPerDirection| <= 3
    ensures r.Ok? <==> (|nodeIndices| == 2 && cell == Quadrilateral) || (|nodeIndices| == 3 && cell == Hexahedron)
    ensures r.Err? ==> r.error == NotImplemented
  {
    if |nodeIndices| < 2 then Err(NotImplemented)
    else if |nodeIndices| == 2 then
      if cell != Quadrilateral then Err(NotImplemented)
      else Ok(Wrap32(QuadNodeIndex(nodeIndices[0], nodeIndices[1], nodesPerDirection[0], nodesPerDirection[1])))
    else
      if cell != Hexahedron then Err(NotImplemented)
      else Ok(Wrap32(HexNodeIndex(nodeIndices[0], nodeIndices[1], nodeIndices[2],
                                  nodesPerDirection[0], nodesPerDirection[1], nodesPerDirection[2], legacyFormat)))
  }

  /** The point lies in the lattice: 0 <= nodeIndices[d] <= nodesPerDirection[d] on every axis. */
  predicate InLattice(nodeIndices: seq<uint32>, nodesPerDirection: seq<uint32>)
    requires |nodeIndices| == |nodesPerDirection|
  {
    forall d :: 0 <= d < |nodeIndices| ==> nodeIndices[d] <= nodesPerDirection[d]
  }

  /** Number of nodes of the quadrilateral lattice. */
  function QuadNodeCount(n0: int, n1: int): int
  {
    (n0 + 1) * (n1 + 1)
  }

  /** A quadrilateral lattice with at least one subdivision per axis whose node count
      fits the unsigned range. */
  predicate QuadLattice(nodesPerDirection: seq<uint32>)
  {
    |nodesPerDirection| == 2 && 1 <= nodesPerDirection[0] && 1 <= nodesPerDirection[1]
    && QuadNodeCount(nodesPerDirection[0], nodesPerDirection[1]) <= 0x1_0000_0000
  }

  /** The same for a hexahedral lattice. */
  predicate HexLattice(nodesPerDirection: seq<uint32>)
  {
    |nodesPerDirection| == 3 && 1 <= nodesPerDirection[0] && 1 <= nodesPerDirection[1] && 1 <= nodesPerDirection[2]
    && HexNodeCount(nodesPerDirection[0], nodesPerDirection[1], nodesPerDirection[2]) <= 0x1_0000_0000
  }

  /** Every node of a quadrilateral lattice gets a number below the node count, in
      either format alike, and the inverse map recovers the node from it. */
  lemma QuadNumberingInvertible(nodeIndices: seq<uint32>, nodesPerDirection: seq<uint32>, legacyFormat: bool)
    requires QuadLattice(nodesPerDirection) && |nodeIndices| == 2 && InLattice(nodeIndices, nodesPerDirection)
    ensures var r := VtkLexicographicToNodeIndex(Quadrilateral, nodeIndices, nodesPerDirection, legacyFormat);
      var n0, n1 := nodesPerDirection[0], nodesPerDirection[1];
      && r.Ok? && r.value < QuadNodeCount(n0, n1)
      && QuadLatticePoint(r.value, n0, n1) == (nodeIndices[0], nodeIndices[1])
      && r == VtkLexicographicToNodeIndex(Quadrilateral, nodeIndices, nodesPerDirection, !legacyFormat)
  {
    assert nodeIndices[0] <= nodesPerDirection[0] && nodeIndices[1] <= nodesPerDirection[1];
    QuadLatticePointOfIndex(nodeIndices[0], nodeIndices[1], nodesPerDirection[0], nodesPerDirection[1]);
  }

  /** Every number below the node count of a quadrilateral lattice is the number of
      the node the inverse map gives. */
  lemma QuadNumberingOnto(t: int, nodesPerDirection: seq<uint32>, legacyFormat: bool)
    requires QuadLattice(nodesPerDirection) && 0 <= t < QuadNodeCount(nodesPerDirection[0], nodesPerDirection[1])
    ensures var p := QuadLatticePoint(t, nodesPerDirection[0], nodesPerDirection[1]);
      && 0 <= p.0 <= nodesPerDirection[0] && 0 <= p.1 <= nodesPerDirection[1]
      && VtkLexicographicToNodeIndex(Quadrilateral, [p.0, p.1], nodesPerDirection, legacyFormat) == Ok(t)
  {
    QuadIndexOfLatticePoint(t, nodesPerDirection[0], nodesPerDirection[1]);
  }

  /** Distinct nodes of a quadrilateral lattice get distinct numbers. */
  lemma QuadNumberingInjective(p: seq<uint32>, q: seq<uint32>, nodesPerDirection: seq<uint32>, legacyFormat: bool)
    requires QuadLattice(nodesPerDirection) && |p| == 2 && |q| == 2
    requires InLattice(p, nodesPerDirection) && InLattice(q, nodesPerDirection)
    ensures (VtkLexicographicToNodeIndex(Quadrilateral, p, nodesPerDirection, legacyFormat)
             == VtkLexicographicToNodeIndex(Quadrilateral, q, nodesPerDirection, legacyFormat)) ==> p == q
  {
    QuadNumberingInvertible(p, nodesPerDirection, legacyFormat);
    QuadNumberingInvertible(q, nodesPerDirection, legacyFormat);
    if VtkLexicographicToNodeIndex(Quadrilateral, p, nodesPerDirection, legacyFormat)
       == VtkLexicographicToNodeIndex(Quadrilateral, q, nodesPerDirection, legacyFormat) {
      assert p == [p[0], p[1]] && q == [q[0], q[1]];
    }
  }

  /** Every node of a hexahedral lattice gets a number below the node count, and the
      inverse map for the same format recovers the node from it. */
  lemma HexNumberingInvertible(nodeIndices: seq<uint32>, nodesPerDirection: seq<uint32>, legacyFormat: bool)
    requires HexLattice(nodesPerDirection) && |nodeIndices| == 3 && InLattice(nodeIndices, nodesPerDirection)
    ensures var r := VtkLexicographicToNodeIndex(Hexahedron, nodeIndices, nodesPerDirection, legacyFormat);
      var n0, n1, n2 := nodesPerDirection[0], nodesPerDirection[1], nodesPerDirection[2];
      && r.Ok? && r.value < HexNodeCount(n0, n1, n2)
      && HexLatticePoint(r.value, n0, n1, n2, legacyFormat) == (nodeIndices[0], nodeIndices[1], nodeIndices[2])
  {
    assert nodeIndices[0] <= nodesPerDirection[0] && nodeIndices[1] <= nodesPerDirection[1]
      && nodeIndices[2] <= nodesPerDirection[2];
    HexLatticePointOfIndex(nodeIndices[0], nodeIndices[1], nodeIndices[2],
                           nodesPerDirection[0], nodesPerDirection[1], nodesPerDirection[2], legacyFormat);
  }

  /** Every number below the node count of a hexahedral lattice is the number of the
      node the inverse map for the same format gives. */
  lemma HexNumberingOnto(t: int, nodesPerDirection: seq<uint32>, legacyFormat: bool)
    requires HexLattice(nodesPerDirection)
    requires 0 <= t < HexNodeCount(nodesPerDirection[0], nodesPerDirection[1], nodesPerDirection[2])
    ensures var p := HexLatticePoint(t, nodesPerDirection[0], nodesPerDirection[1], nodesPerDirection[2], legacyFormat);
      && 0 <= p.0 <= nodesPerDirection[0] && 0 <= p.1 <= nodesPerDirection[1] && 0 <= p.2 <= nodesPerDirection[2]
      && VtkLexicographicToNodeIndex(Hexahedron, [p.0, p.1, p.2], nodesPerDirection, legacyFormat) == Ok(t)
  {
    HexIndexOfLatticePoint(t, nodesPerDirection[0], nodesPerDirection[1], nodesPerDirection[2], legacyFormat);
  }

  /** Distinct nodes of a hexahedral lattice get distinct numbers. */
  lemma HexNumberingInjective(p: seq<uint32>, q: seq<uint32>, nodesPerDirection: seq<uint32>, legacyFormat: bool)
    requires HexLattice(nodesPerDirection) && |p| == 3 && |q| == 3
    requires InLattice(p, nodesPerDirection) && InLattice(q, nodesPerDirection)
    ensures (VtkLexicographicToNodeIndex(Hexahedron, p, nodesPerDirection, legacyFormat)
             == VtkLexicographicToNodeIndex(Hexahedron, q, nodesPerDirection, legacyFormat)) ==> p == q
  {
    HexNumberingInvertible(p, nodesPerDirection, legacyFormat);
    HexNumberingInvertible(q, nodesPerDirection, legacyFormat);
    if VtkLexicographicToNodeIndex(Hexahedron, p, nodesPerDirection, legacyFormat)
       == VtkLexicographicToNodeIndex(Hexahedron, q, nodesPerDirection, legacyFormat) {
      assert p == [p[0], p[1], p[2]] && q == [q[0], q[1], q[2]];
    }
  }
}
