/**
 * Translation between the library's vertex and face numbering of a reference
 * cell and the numbering of external mesh and visualisation formats (Exodus II,
 * UNV, VTK), and the cell-type codes those formats (VTK, Gmsh) give each shape.
 */
module MeshNumbering {
  import opened ReferenceCell

  /** `f` maps the numbers `[0, n)` one-to-one onto `[0, n)`, never failing there. */
  ghost predicate PermutesRange(f: uint32 -> Result<uint32>, n: nat)
    requires n <= 0x1_0000_0000
  {
    && (forall v: uint32 | v < n :: f(v).Ok? && f(v).value < n)
    && (forall v: uint32, w: uint32 | v < n && w < n && f(v) == f(w) :: v == w)
    && (forall t: uint32 | t < n :: Reaches(f, n, t))
  }

  /** Some number in `[0, n)` is mapped to `t`. */
  ghost predicate Reaches(f: uint32 -> Result<uint32>, n: nat, t: uint32)
  {
    exists v: uint32 | v < n :: f(v) == Ok(t)
  }

  /** The numbers `[0, n)` in order: the table of a numbering that agrees with the library's. */
  function Identity(n: nat): (t: seq<int>)
    ensures |t| == n && forall v | 0 <= v < n :: t[v] == v
  {
    seq(n, v => v)
  }

  /** A map of `[0, n)` into itself that a table `inverse` undoes on both sides is a
      permutation. */
  lemma PermutesRangeByInverse(f: uint32 -> Result<uint32>, inverse: seq<int>, n: nat)
    requires n == |inverse| <= 0x1_0000_0000
    requires forall v: uint32 | v < n :: f(v).Ok? && f(v).value < n && inverse[f(v).value] == v
    requires forall t | 0 <= t < n :: 0 <= inverse[t] < n && f(inverse[t]) == Ok(t)
    ensures PermutesRange(f, n)
  {
    forall v: uint32, w: uint32 | v < n && w < n && f(v) == f(w)
      ensures v == w
    {
      assert v == inverse[f(v).value] == inverse[f(w).value] == w;
    }
    forall t: uint32 | t < n
      ensures Reaches(f, n, t)
    {
      var v: uint32 := inverse[t];
      assert f(v) == Ok(t);
    }
  }

  // ---------------------------------------------------------------- Exodus II

  /** The shapes with an Exodus II vertex numbering. */
  const ExodusIIVertexKinds: set<Kind> :=
    {Line, Triangle, Quadrilateral, Tetrahedron, Hexahedron, Wedge, Pyramid}

  /** Library vertex number of Exodus II vertex `vertexN` of `cell`. */
  function ExodusIIVertexToDealVertex(cell: Kind, vertexN: uint32): (r: Result<uint32>)
    ensures r.Ok? <==> cell in ExodusIIVertexKinds && vertexN < NVertices(cell)
    ensures r.Ok? ==> r.value < NVertices(cell)
    ensures r.Err? ==> r.error == (if cell != Invalid && vertexN >= NVertices(cell) then IndexOutOfRange else NotImplemented)
  {
    if cell == Invalid then Err(NotImplemented)
    else if vertexN >= NVertices(cell) then Err(IndexOutOfRange)
    else match cell
      case Line | Triangle => Ok(vertexN)
      case Quadrilateral => Ok([0, 1, 3, 2][vertexN])
      case Tetrahedron => Ok(vertexN)
      case Hexahedron => Ok([0, 1, 3, 2, 4, 5, 7, 6][vertexN])
      case Wedge => Ok([2, 1, 0, 5, 4, 3][vertexN])
      case Pyramid => Ok([0, 1, 3, 2, 4][vertexN])
      case _ => Err(NotImplemented)
  }

  /** Every Exodus II vertex table is a permutation of the shape's vertices. */
  lemma ExodusIIVertexPermutation(cell: Kind)
    requires cell in ExodusIIVertexKinds
    ensures PermutesRange((v: uint32) => ExodusIIVertexToDealVertex(cell, v), NVertices(cell))
  {
    var inverse :=
      if cell == Quadrilateral then [0, 1, 3, 2]
      else if cell == Hexahedron then [0, 1, 3, 2, 4, 5, 7, 6]
      else if cell == Wedge then [2, 1, 0, 5, 4, 3]
      else if cell == Pyramid then [0, 1, 3, 2, 4]
      else Identity(NVertices(cell));
    PermutesRangeByInverse((v: uint32) => ExodusIIVertexToDealVertex(cell, v), inverse, NVertices(cell));
  }

  /** The shapes with an Exodus II face numbering. */
  const ExodusIIFaceKinds: set<Kind> :=
    {Line, Triangle, Quadrilateral, Tetrahedron, Hexahedron, Wedge, Pyramid}

  /** Face number zero, which the library gives for the (face-less) vertex. The
      branch that returns it is never reached; naming the value as a constant keeps
      that branch free of a range check the verifier would flag as unreachable. */
  const FirstFace: uint32 := 0

  /** Library face number of Exodus II face `faceN` of `cell`. The wedge table has
      room for six entries but lists five; the sixth (zero) lies beyond the
      wedge's five faces and is never reached. A vertex has no faces, so its
      branch is never reached either. */
  function ExodusIIFaceToDealFace(cell: Kind, faceN: uint32): (r: Result<uint32>)
    ensures r.Ok? <==> cell in ExodusIIFaceKinds && faceN < NFaces(cell)
    ensures r.Ok? ==> r.value < NFaces(cell)
    ensures r.Err? ==> r.error == (if cell != Invalid && faceN >= NFaces(cell) then IndexOutOfRange else NotImplemented)
  {
    if cell == Invalid then Err(NotImplemented)
    else if faceN >= NFaces(cell) then Err(IndexOutOfRange)
    else match cell
      case Vertex => Ok(FirstFace)
      case Line | Triangle => Ok(faceN)
      case Quadrilateral => Ok([2, 1, 3, 0][faceN])
      case Tetrahedron => Ok([1, 3, 2, 0][faceN])
      case Hexahedron => Ok([2, 1, 3, 0, 4, 5][faceN])
      case Wedge => Ok([3, 4, 2, 0, 1, 0][faceN])
      case Pyramid => Ok([3, 2, 4, 1, 0][faceN])
  }

  /** Every Exodus II face table is a permutation of the shape's faces. */
  lemma ExodusIIFacePermutation(cell: Kind)
    requires cell in ExodusIIFaceKinds
    ensures PermutesRange((f: uint32) => ExodusIIFaceToDealFace(cell, f), NFaces(cell))
  {
    var inverse :=
      if cell == Quadrilateral then [3, 1, 0, 2]
      else if cell == Tetrahedron then [3, 0, 2, 1]
      else if cell == Hexahedron then [3, 1, 0, 2, 4, 5]
      else if cell == Wedge then [3, 4, 2, 0, 1]
      else if cell == Pyramid then [4, 3, 1, 0, 2]
      else Identity(NFaces(cell));
    PermutesRangeByInverse((f: uint32) => ExodusIIFaceToDealFace(cell, f), inverse, NFaces(cell));
  }

  // ---------------------------------------------------------------- UNV

  /** The shapes with a UNV vertex numbering. */
  const UnvVertexKinds: set<Kind> := {Line, Quadrilateral, Hexahedron}

  /** Library vertex number of UNV vertex `vertexN` of `cell`. */
  function UnvVertexToDealVertex(cell: Kind, vertexN: uint32): (r: Result<uint32>)
    ensures r.Ok? <==> cell in UnvVertexKinds && vertexN < NVertices(cell)
    ensures r.Ok? ==> r.value < NVertices(cell)
    ensures r.Err? ==> r.error == (if cell != Invalid && vertexN >= NVertices(cell) then IndexOutOfRange else NotImplemented)
  {
    if cell == Invalid then Err(NotImplemented)
    else if vertexN >= NVertices(cell) then Err(IndexOutOfRange)
    else if cell == Line then Ok(vertexN)
    else if cell == Quadrilateral then Ok([1, 0, 2, 3][vertexN])
    else if cell == Hexahedron then Ok([6, 7, 5, 4, 2, 3, 1, 0][vertexN])
    else Err(NotImplemented)
  }

  /** Every UNV vertex table is a permutation of the shape's vertices. */
  lemma UnvVertexPermutation(cell: Kind)
    requires cell in UnvVertexKinds
    ensures PermutesRange((v: uint32) => UnvVertexToDealVertex(cell, v), NVertices(cell))
  {
    var inverse :=
      if cell == Quadrilateral then [1, 0, 2, 3]
      else if cell == Hexahedron then [7, 6, 4, 5, 3, 2, 0, 1]
      else Identity(NVertices(cell));
    PermutesRangeByInverse((v: uint32) => UnvVertexToDealVertex(cell, v), inverse, NVertices(cell));
  }

  // ---------------------------------------------------------------- VTK

  /** Library vertex number of VTK vertex `vertexIndex` of `cell`. */
  function VtkVertexToDealVertex(cell: Kind, vertexIndex: uint32): (r: Result<uint32>)
    ensures r.Ok? <==> cell != Invalid && vertexIndex < NVertices(cell)
    ensures r.Ok? ==> r.value < NVertices(cell)
    ensures r.Err? ==> r.error == (if cell == Invalid then NotImplemented else IndexOutOfRange)
  {
    if cell == Invalid then Err(NotImplemented)
    else if vertexIndex >= NVertices(cell) then Err(IndexOutOfRange)
    else match cell
      case Vertex | Line | Triangle => Ok(vertexIndex)
      case Quadrilateral => Ok([0, 1, 3, 2][vertexIndex])
      case Tetrahedron => Ok(vertexIndex)
      case Pyramid => Ok([0, 1, 3, 2, 4][vertexIndex])
      case Wedge => Ok(vertexIndex)
      case Hexahedron => Ok([0, 1, 3, 2, 4, 5, 7, 6][vertexIndex])
  }

  /** Every VTK vertex table is a permutation of the shape's vertices. */
  lemma VtkVertexPermutation(cell: Kind)
    requires cell != Invalid
    ensures PermutesRange((v: uint32) => VtkVertexToDealVertex(cell, v), NVertices(cell))
  {
    var inverse :=
      if cell == Quadrilateral then [0, 1, 3, 2]
      else if cell == Pyramid then [0, 1, 3, 2, 4]
      else if cell == Hexahedron then [0, 1, 3, 2, 4, 5, 7, 6]
      else Identity(NVertices(cell));
    PermutesRangeByInverse((v: uint32) => VtkVertexToDealVertex(cell, v), inverse, NVertices(cell));
  }

  /** The VTK numbering differs from the library's only by swapping vertices 2 and 3
      (and 6 and 7) of the quadrilateral, pyramid and hexahedron: translating twice
      gives back the vertex one started from. */
  lemma VtkVertexIsInvolution(cell: Kind, v: uint32)
    requires cell != Invalid && v < NVertices(cell)
    ensures var w := VtkVertexToDealVertex(cell, v).value;
      VtkVertexToDealVertex(cell, w) == Ok(v)
    ensures VtkVertexToDealVertex(cell, v) != Ok(v) <==>
      cell in {Quadrilateral, Pyramid, Hexahedron} && v in {2, 3, 6, 7}
  {
  }

  /** VTK_INVALID, the code for a cell type VTK does not have. */
  const VtkInvalid: uint32 := InvalidUnsignedInt

  /** VTK cell type of the linear (vertex-only) cell of each shape. */
  function VtkLinearType(cell: Kind): (code: uint32)
    ensures code == VtkInvalid <==> cell == Invalid
  {
    match cell
    case Vertex => 1         // VTK_VERTEX
    case Line => 3           // VTK_LINE
    case Triangle => 5       // VTK_TRIANGLE
    case Quadrilateral => 9  // VTK_QUAD
    case Tetrahedron => 10   // VTK_TETRA
    case Pyramid => 14       // VTK_PYRAMID
    case Wedge => 13         // VTK_WEDGE
    case Hexahedron => 12    // VTK_HEXAHEDRON
    case Invalid => VtkInvalid
  }

  /** VTK cell type of the quadratic cell of each shape; a vertex stays VTK_VERTEX. */
  function VtkQuadraticType(cell: Kind): (code: uint32)
    ensures code == VtkInvalid <==> cell == Invalid
  {
    match cell
    case Vertex => 1         // VTK_VERTEX
    case Line => 21          // VTK_QUADRATIC_EDGE
    case Triangle => 22      // VTK_QUADRATIC_TRIANGLE
    case Quadrilateral => 23 // VTK_QUADRATIC_QUAD
    case Tetrahedron => 24   // VTK_QUADRATIC_TETRA
    case Pyramid => 27       // VTK_QUADRATIC_PYRAMID
    case Wedge => 26         // VTK_QUADRATIC_WEDGE
    case Hexahedron => 25    // VTK_QUADRATIC_HEXAHEDRON
    case Invalid => VtkInvalid
  }

  /** VTK cell type of the arbitrary-order Lagrange cell of each shape; a vertex stays VTK_VERTEX. */
  function VtkLagrangeType(cell: Kind): (code: uint32)
    ensures code == VtkInvalid <==> cell == Invalid
  {
    match cell
    case Vertex => 1         // VTK_VERTEX
    case Line => 68          // VTK_LAGRANGE_CURVE
    case Triangle => 69      // VTK_LAGRANGE_TRIANGLE
    case Quadrilateral => 70 // VTK_LAGRANGE_QUADRILATERAL
    case Tetrahedron => 71   // VTK_LAGRANGE_TETRAHEDRON
    case Pyramid => 74       // VTK_LAGRANGE_PYRAMID
    case Wedge => 73         // VTK_LAGRANGE_WEDGE
    case Hexahedron => 72    // VTK_LAGRANGE_HEXAHEDRON
    case Invalid => VtkInvalid
  }

  /** Within each family the VTK code identifies the shape, and a code shared by two
      families can only be VTK_VERTEX: a VTK reader can tell both the shape and the
      family from the code of any cell other than a vertex. */
  lemma VtkTypesIdentifyShape(c1: Kind, c2: Kind)
    ensures VtkLinearType(c1) == VtkLinearType(c2) ==> c1 == c2
    ensures VtkQuadraticType(c1) == VtkQuadraticType(c2) ==> c1 == c2
    ensures VtkLagrangeType(c1) == VtkLagrangeType(c2) ==> c1 == c2
    ensures c1 != Invalid && VtkLinearType(c1) == VtkQuadraticType(c2) ==> c1 == c2 == Vertex
    ensures c1 != Invalid && VtkLinearType(c1) == VtkLagrangeType(c2) ==> c1 == c2 == Vertex
    ensures c1 != Invalid && VtkQuadraticType(c1) == VtkLagrangeType(c2) ==> c1 == c2 == Vertex
  {
  }

  // ---------------------------------------------------------------- Gmsh

  /** Gmsh (legacy format) element type of each shape. */
  function GmshElementType(cell: Kind): (r: Result<uint32>)
    ensures r.Ok? <==> cell != Invalid
    ensures r.Err? ==> r.error == NotImplemented
  {
    match cell
    case Vertex => Ok(15)
    case Line => Ok(1)
    case Triangle => Ok(2)
    case Quadrilateral => Ok(3)
    case Tetrahedron => Ok(4)
    case Pyramid => Ok(7)
    case Wedge => Ok(6)
    case Hexahedron => Ok(5)
    case Invalid => Err(NotImplemented)
  }

  /** Number of nodes of each Gmsh element type, as the Gmsh format documents them
      (types 1 to 7 and 15 are first-order, 8 to 14 second-order). */
  function GmshNodeCount(elementType: int): (count: nat)
  {
    match elementType
    case 1 => 2
    case 2 => 3
    case 3 => 4
    case 4 => 4
    case 5 => 8
    case 6 => 6
    case 7 => 5
    case 8 => 3
    case 9 => 6
    case 10 => 9
    case 11 => 10
    case 12 => 27
    case 13 => 18
    case 14 => 14
    case 15 => 1
    case _ => 0
  }

  /** Each shape gets its own Gmsh type, and that type is a first-order element
      with exactly the shape's vertices as nodes. */
  lemma GmshElementTypeMatchesShape(c1: Kind, c2: Kind)
    requires c1 != Invalid && c2 != Invalid
    ensures GmshElementType(c1) == GmshElementType(c2) ==> c1 == c2
    ensures GmshNodeCount(GmshElementType(c1).value) == NVertices(c1)
    ensures !(8 <= GmshElementType(c1).value <= 14)
  {
  }
}
