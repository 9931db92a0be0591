/**
 * The reference-cell descriptor: a closed enumeration of the canonical cell
 * shapes, the vertex and face counts of each shape, its short name, and the
 * integer code a kind is written to a stream as and read back from it.
 *
 * The library's `Assert(..., ExcNotImplemented())` and `AssertIndexRange`
 * failures abort the call; here they are the error half of a `Result`.
 */
module ReferenceCell {

  /** Values of the library's `unsigned int`. */
  type uint32 = x: int | 0 <= x < 0x1_0000_0000

  /** `numbers::invalid_unsigned_int`, the largest unsigned value. */
  const InvalidUnsignedInt: uint32 := 0xFFFF_FFFF

  /** The nine kinds a reference cell can be. */
  datatype Kind =
    | Vertex | Line | Triangle | Quadrilateral | Tetrahedron
    | Pyramid | Wedge | Hexahedron | Invalid

  /** Why an operation aborted instead of returning. */
  datatype Error =
    | NotImplemented     // ExcNotImplemented: a (shape, operation) pair the library does not support
    | IndexOutOfRange    // AssertIndexRange: a vertex or face number beyond the shape's count
    | InvalidKindRead    // the stream held a code that is not one of the nine kinds

  datatype Result<T> = Ok(value: T) | Err(error: Error)

  /** Number of vertices of each shape; the library reports not-implemented for Invalid. */
  function NVertices(cell: Kind): nat
    requires cell != Invalid
  {
    match cell
    case Vertex => 1
    case Line => 2
    case Triangle => 3
    case Quadrilateral => 4
    case Tetrahedron => 4
    case Pyramid => 5
    case Wedge => 6
    case Hexahedron => 8
  }

  /** Number of faces of each shape; a vertex has none. */
  function NFaces(cell: Kind): nat
    requires cell != Invalid
  {
    match cell
    case Vertex => 0
    case Line => 2
    case Triangle => 3
    case Quadrilateral => 4
    case Tetrahedron => 4
    case Pyramid => 5
    case Wedge => 5
    case Hexahedron => 6
  }

  /** The short name of a shape; only Invalid is called "Invalid". */
  function ToString(cell: Kind): (name: string)
    ensures name == "Invalid" <==> cell == Invalid
  {
    match cell
    case Vertex => "Vertex"
    case Line => "Line"
    case Triangle => "Tri"
    case Quadrilateral => "Quad"
    case Tetrahedron => "Tet"
    case Pyramid => "Pyramid"
    case Wedge => "Wedge"
    case Hexahedron => "Hex"
    case Invalid => "Invalid"
  }

  /** Distinct shapes have distinct names, so a name identifies its shape. */
  lemma ToStringInjective(c1: Kind, c2: Kind)
    ensures ToString(c1) == ToString(c2) ==> c1 == c2
  {
  }

  /** The 8-bit code each kind is stored as: 0 to 7 in enumeration order, and the
      all-ones byte for Invalid. */
  function KindCode(cell: Kind): (code: nat)
    ensures code < 256
  {
    match cell
    case Vertex => 0
    case Line => 1
    case Triangle => 2
    case Quadrilateral => 3
    case Tetrahedron => 4
    case Pyramid => 5
    case Wedge => 6
    case Hexahedron => 7
    case Invalid => 255
  }

  /** The validity check after a read: a code is accepted exactly when it is the
      code of one of the nine kinds, and then it names that kind. */
  function KindOfCode(code: int): (r: Result<Kind>)
    ensures r.Ok? ==> KindCode(r.value) == code
    ensures r.Err? ==> r.error == InvalidKindRead && forall c: Kind :: KindCode(c) != code
  {
    if code == 0 then Ok(Vertex)
    else if code == 1 then Ok(Line)
    else if code == 2 then Ok(Triangle)
    else if code == 3 then Ok(Quadrilateral)
    else if code == 4 then Ok(Tetrahedron)
    else if code == 5 then Ok(Pyramid)
    else if code == 6 then Ok(Wedge)
    else if code == 7 then Ok(Hexahedron)
    else if code == 255 then Ok(Invalid)
    else Err(InvalidKindRead)
  }

  /** `operator<<`: the kind goes out as its code, widened to an unsigned integer. */
  function WriteKind(cell: Kind): (value: uint32)
    ensures value < 256
  {
    KindCode(cell)
  }

  /** `operator>>` as it is written: the unsigned integer read is narrowed to the
      8-bit kind type (keeping its low byte) before the validity check. */
  function ReadKindAsWritten(value: uint32): (r: Result<Kind>)
    ensures r.Ok? ==> KindCode(r.value) == value % 256
    ensures r.Ok? <==> exists c: Kind :: KindCode(c) == value % 256
    ensures r.Err? ==> r.error == InvalidKindRead
  {
    KindOfCode(value % 256)
  }

  /** `operator>>` with the validity check applied to the integer actually read. */
  function ReadKind(value: uint32): (r: Result<Kind>)
    ensures r.Ok? ==> WriteKind(r.value) == value
    ensures r.Err? ==> r.error == InvalidKindRead
  {
    KindOfCode(value)
  }

  /** Reading back what was written gives the same kind, and a read succeeds
      only on a value some kind writes. */
  lemma WriteReadRoundTrip(cell: Kind, value: uint32)
    ensures ReadKind(WriteKind(cell)) == Ok(cell)
    ensures ReadKind(value).Ok? <==> exists c: Kind :: WriteKind(c) == value
  {
    if ReadKind(value).Ok? {
      assert WriteKind(ReadKind(value).value) == value;
    }
  }

  /** The narrowing read accepts a value no kind is ever written as: 259 is read
      as a quadrilateral, although the validity check means to reject it. */
  lemma ReadKindAsWrittenAcceptsForeignCode()
    ensures forall c: Kind :: WriteKind(c) != 259
    ensures ReadKindAsWritten(259) == Ok(Quadrilateral)
    ensures ReadKind(259) == Err(InvalidKindRead)
  {
  }

  /** The narrowing read agrees with the checked read on every value below 256. */
  lemma ReadKindAgreesBelow256(value: uint32)
    requires value < 256
    ensures ReadKindAsWritten(value) == ReadKind(value)
  {
  }
}
