# Reference cells of deal.II: numbering translations and VTK Lagrange node order

This project models the core of `source/grid/reference_cell.cc` from deal.II.
The model covers how a `ReferenceCell` relates to external mesh and
visualisation formats:

- the short name of each cell kind (`to_string`);
- the tables that translate vertex and face numbers between the library and
  Exodus II, UNV and VTK;
- the VTK cell-type codes for the linear, quadratic and Lagrange families, and
  the Gmsh element type;
- the position of a node of an arbitrary-order Lagrange quadrilateral or
  hexahedron in VTK's node order (`vtk_lexicographic_to_node_index`), in both
  the current and the legacy hexahedron order;
- writing a cell kind to a stream as an integer and reading it back
  (`operator<<`, `operator>>`).

The source is written as `switch` statements and closed-form expressions, so
the model is made of datatypes, functions and lemmas.

A failed `Assert(..., ExcNotImplemented())` or `AssertIndexRange` aborts the
call in a debug build. In the model this is the `Err` half of a `Result`, with
`NotImplemented` or `IndexOutOfRange`. Asking an invalid cell for its vertex or
face count is itself not implemented. So every translation function reports
`NotImplemented` for `Invalid` before it checks the range of the number.

Modules:

- `ReferenceCell` (`reference_cell.dfy`):
  - the nine kinds, with their vertex and face counts;
  - `ToString`;
  - the 8-bit code each kind is stored as, and the stream operators.
- `MeshNumbering` (`mesh_numbering.dfy`):
  - the Exodus II, UNV and VTK translation tables;
  - the VTK and Gmsh type codes.
- `VtkLagrangeNodes` (`vtk_lagrange_nodes.dfy`):
  - the VTK node order of Lagrange quadrilaterals and hexahedra;
  - an inverse map for each, used as the reference to prove the order is a
    bijection.
- `LatticeArithmetic` (`lattice_arithmetic.dfy`): facts about row-major
  numbering that the node-order proofs use.

Unsigned arithmetic: the library computes a node index in `unsigned int`. The
model computes it exactly on integers and then reduces it modulo 2^32
(`Wrap32`). This agrees with unsigned arithmetic for every input. The bijection
theorems assume the node count fits in 32 bits; under that assumption the
reduction never takes effect.

## Model

| member | source | states |
|---|---|---|
| ReferenceCell.ToString | source/grid/reference_cell.cc:87-115 | The name is "Invalid" exactly for the invalid kind. |
| ReferenceCell.ToStringInjective | source/grid/reference_cell.cc:87-115 | Distinct kinds have distinct names, so a name identifies the kind. |
| ReferenceCell.KindOfCode | source/grid/reference_cell.cc:833-846 | The validity check after a read accepts a code exactly when some kind has that code, and then returns that kind. Any other code gives the invalid-kind error. |
| ReferenceCell.WriteKind | source/grid/reference_cell.cc:810-819 | A kind is written as its code, widened to unsigned; the value is always below 256. |
| ReferenceCell.ReadKindAsWritten | source/grid/reference_cell.cc:823-849 | `operator>>` as written. A value is accepted if and only if its low byte (the value modulo 256) is the code of some kind, and it is then read as that kind. Every value of 256 or more whose low byte is a code (259, 515, …) is accepted. Any other value gives the invalid-kind error. |
| ReferenceCell.ReadKind | source/grid/reference_cell.cc:823-849 | The corrected read. A value it accepts is exactly what that kind writes; any other value gives the invalid-kind error. |
| ReferenceCell.WriteReadRoundTrip | source/grid/reference_cell.cc:810-849 | Reading back a written kind returns that kind. A read succeeds if and only if some kind writes that value. |
| ReferenceCell.ReadKindAsWrittenAcceptsForeignCode | source/grid/reference_cell.cc:828-846 | No kind writes 259, yet the read as written accepts 259 as a quadrilateral. The corrected read rejects it. |
| ReferenceCell.ReadKindAgreesBelow256 | source/grid/reference_cell.cc:828-831 | On values below 256 the read as written and the corrected read agree. |
| MeshNumbering.ExodusIIVertexToDealVertex | source/grid/reference_cell.cc:252-291 | Succeeds exactly for the line, triangle, quadrilateral, tetrahedron, hexahedron, wedge and pyramid, with a vertex number below the vertex count; the result is then a vertex of the shape. On failure the error is the range error for a valid kind with too large a number, and not-implemented otherwise (vertex and invalid kinds). |
| MeshNumbering.ExodusIIVertexPermutation | source/grid/reference_cell.cc:252-291 | For every supported shape, the Exodus II vertex table is a permutation of the shape's vertices. |
| MeshNumbering.ExodusIIFaceToDealFace | source/grid/reference_cell.cc:295-338 | Succeeds exactly for the shapes with an Exodus II face table, with a face number below the face count; the result is then a face of the shape. On failure the error is the range error for a valid kind with too large a number, and not-implemented otherwise (the invalid kind). |
| MeshNumbering.ExodusIIFacePermutation | source/grid/reference_cell.cc:295-338 | For every supported shape, the Exodus II face table is a permutation of the shape's faces, the wedge's included. |
| MeshNumbering.UnvVertexToDealVertex | source/grid/reference_cell.cc:342-374 | Succeeds exactly for the line, quadrilateral and hexahedron, with a vertex number in range; the result is a vertex of the shape. On failure the error is the range error for a valid kind with too large a number, and not-implemented otherwise (the invalid kind and the five unsupported kinds). |
| MeshNumbering.UnvVertexPermutation | source/grid/reference_cell.cc:342-374 | For each of those three shapes, the UNV vertex table is a permutation of its vertices. |
| MeshNumbering.VtkVertexToDealVertex | source/grid/reference_cell.cc:671-722 | Succeeds exactly for a valid kind with a vertex number in range; the result is a vertex of the shape. On failure the error is not-implemented for the invalid kind and the range error for every valid kind. |
| MeshNumbering.VtkVertexPermutation | source/grid/reference_cell.cc:671-722 | For every valid shape, the VTK vertex table is a permutation of its vertices. |
| MeshNumbering.VtkVertexIsInvolution | source/grid/reference_cell.cc:684-712 | Translating twice returns the original vertex. The translation moves a vertex if and only if the shape is a quadrilateral, pyramid or hexahedron and the vertex is 2, 3, 6 or 7. |
| MeshNumbering.VtkLinearType | source/grid/reference_cell.cc:378-406 | The linear VTK code is VTK_INVALID exactly for the invalid kind. |
| MeshNumbering.VtkQuadraticType | source/grid/reference_cell.cc:410-438 | The quadratic VTK code is VTK_INVALID exactly for the invalid kind. |
| MeshNumbering.VtkLagrangeType | source/grid/reference_cell.cc:442-470 | The Lagrange VTK code is VTK_INVALID exactly for the invalid kind. |
| MeshNumbering.VtkTypesIdentifyShape | source/grid/reference_cell.cc:378-470 | Within each of the three families, distinct kinds get distinct codes. A code shared by two families belongs to the vertex in both. |
| MeshNumbering.GmshElementType | source/grid/reference_cell.cc:726-806 | A Gmsh type exists exactly for the valid kinds; for the invalid kind the call is not implemented. |
| MeshNumbering.GmshElementTypeMatchesShape | source/grid/reference_cell.cc:729-806 | Distinct shapes get distinct Gmsh types. Each type is a first-order element (never 8 to 14) whose documented node count equals the shape's vertex count. |
| VtkLagrangeNodes.QuadLatticePoint | source/grid/reference_cell.cc:504-551 | The inverse of the quadrilateral order maps each index below (n0+1)(n1+1) to a lattice point. |
| VtkLagrangeNodes.QuadNodeIndexStrata | source/grid/reference_cell.cc:504-551 | Corners take indices 0-3. Edge nodes take the next 2(n0-1+n1-1) indices. Interior nodes take the rest, up to (n0+1)(n1+1). |
| VtkLagrangeNodes.QuadLatticePointOfIndex | source/grid/reference_cell.cc:504-551 | Each lattice point gets an index in range, and the inverse map returns that point. |
| VtkLagrangeNodes.QuadIndexOfLatticePoint | source/grid/reference_cell.cc:504-551 | For each index in range, the point the inverse map gives is numbered with that index. |
| VtkLagrangeNodes.HexLatticePoint | source/grid/reference_cell.cc:565-667 | The inverse of the hexahedron order, in either format, maps each index below (n0+1)(n1+1)(n2+1) to a lattice point. |
| VtkLagrangeNodes.HexNodeIndexStrata | source/grid/reference_cell.cc:565-667 | Corners take indices 0-7. Edge nodes take the next 4(n0-1+n1-1+n2-1) indices. Face nodes take the next 2((n1-1)(n2-1)+(n2-1)(n0-1)+(n0-1)(n1-1)). Interior nodes take the rest. This holds in either format. |
| VtkLagrangeNodes.HexLatticePointOfIndex | source/grid/reference_cell.cc:565-667 | Each lattice point gets an index in range, and the inverse map for the same format returns that point. |
| VtkLagrangeNodes.HexIndexOfLatticePoint | source/grid/reference_cell.cc:565-667 | For each index in range, the point the inverse map gives is numbered with that index. |
| VtkLagrangeNodes.HexLegacyFormatSwapsKEdges | source/grid/reference_cell.cc:620-634 | The legacy and current orders differ only on the two k-axis edges on the side j = n1. There the two edges swap blocks of indices, and no node keeps its index. Every other node has the same index in both formats. |
| VtkLagrangeNodes.VtkLexicographicToNodeIndex | source/grid/reference_cell.cc:474-667 | Returns an index exactly for a quadrilateral in 2d and a hexahedron in 3d. Every other case, including 0d and 1d, is not implemented. The index is computed by `QuadNodeIndex` (lines 504-551) and `HexNodeIndex` (lines 565-667) on exact integers and reduced modulo 2^32. The lemmas below state what those two functions compute. |
| VtkLagrangeNodes.QuadNumberingInvertible | source/grid/reference_cell.cc:504-551 | Each lattice node of a quadrilateral gets an index below the node count, and the inverse recovers the node. The legacy flag makes no difference. |
| VtkLagrangeNodes.QuadNumberingOnto | source/grid/reference_cell.cc:504-551 | Each index below the node count is the index of some lattice node, namely the one the inverse gives. |
| VtkLagrangeNodes.QuadNumberingInjective | source/grid/reference_cell.cc:504-551 | Distinct lattice nodes of a quadrilateral get distinct indices. |
| VtkLagrangeNodes.HexNumberingInvertible | source/grid/reference_cell.cc:565-667 | Each lattice node of a hexahedron gets an index below the node count, and the inverse for the same format recovers the node. |
| VtkLagrangeNodes.HexNumberingOnto | source/grid/reference_cell.cc:565-667 | Each index below the node count is the index of some lattice node, namely the one the inverse gives. |
| VtkLagrangeNodes.HexNumberingInjective | source/grid/reference_cell.cc:565-667 | Distinct lattice nodes of a hexahedron get distinct indices, in either format. |

## Left out

- `get_default_mapping`, `get_default_linear_mapping`, `get_gauss_type_quadrature` and `get_nodal_type_quadrature` (source/grid/reference_cell.cc:119-248) are left out. They build mapping and quadrature objects from other parts of the library, which are not part of this model.
- The definitions of the static permutation tables at source/grid/reference_cell.cc:79-85 are left out. They only provide storage for constants declared in the header.
- `include/deal.II/grid/reference_cell.h` is not part of this model. The vertex and face counts and the 8-bit kind codes it declares are written out in `NVertices`, `NFaces` and `KindCode`.
- Stream state and text format are left out. The `AssertThrow(... fail() ...)` checks in both stream operators and the decimal formatting of the integer are stream I/O. The model works on the integer that is written or read.
- The model reads `Assert` as in a debug build: a failed assertion ends the call with an error. A release build skips the check and carries on, returning `numbers::invalid_unsigned_int` or indexing past a table. The model does not capture that behaviour.
- VtkLexicographicToNodeIndex: the library keeps one running offset in an `int`, adds unsigned values to it, and converts the unsigned sum back to `int`. The model reads all of this modulo 2^32. That reading is exact, except that an out-of-range conversion to `int` is implementation-defined before C++20. Such a conversion needs more than 2^31 nodes.
- The unreachable `default:` branches are not modelled. Every `switch` over the closed kind enumeration has one.
- The `Vertex` branch of `exodusii_face_to_deal_face` is never reached, because a vertex has no faces and the range check fails first. The sixth entry of the wedge face table is never read either.
- The test programs in `tests/` are context only and are not modelled.

## Findings

| source | as written | input that shows it | evidently intended | confidence | as-written member | corrected member |
|---|---|---|---|---|---|---|
| source/grid/reference_cell.cc:829-846 | `operator>>` casts the unsigned integer it read to the 8-bit kind type before the validity check, so only the low byte is checked | the stream holds `259`: the cast gives 3, which passes the check as a quadrilateral, although no kind is ever written as 259 | reject every value that is not the code of a kind | not executed; relies on the 8-bit kind type declared in the header | ReferenceCell.ReadKindAsWritten (shown by ReferenceCell.ReadKindAsWrittenAcceptsForeignCode) | ReferenceCell.ReadKind (proved by ReferenceCell.WriteReadRoundTrip) |
