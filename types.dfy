/** Values shared by every part of the record sorter: bytes, decoded field
    values, field specifications, index entries and the failure wrappers. */
module Types {

  /** One byte of a file. */
  type Byte = b: int | 0 <= b < 256

  datatype Option<+T> = None | Some(value: T)

  datatype Result<+T, +E> = Success(value: T) | Failure(error: E)

  /** How a field's bytes are turned into a sort value: `C` (text) or `N` (integer). */
  datatype Kind = TextKind | IntKind

  /** The sort direction of a field: `A` (factor 1) or `D` (factor -1). */
  datatype Order = Ascending | Descending

  /** A decoded field value, and also one component of a sort key. */
  datatype Value = Int(i: int) | Text(s: string)

  /** One validated sort field: a 0-based offset from the record start,
      a byte count, how to decode it and its direction. */
  datatype FieldSpec = FieldSpec(position: nat, length: nat, kind: Kind, order: Order)

  /** An index entry: where a record starts in the input and its decoded fields. */
  datatype Record = Record(position: nat, fields: seq<Value>)

  /** Why a field's bytes could not be decoded. */
  datatype DecodeError = NotText | NotInteger

  /** The factor a direction stands for. */
  function Factor(o: Order): (f: int)
    ensures f == 1 || f == -1
    ensures f == 1 <==> o == Ascending
  {
    match o
    case Ascending => 1
    case Descending => -1
  }

  /** True when the value has the shape a field of kind `k` decodes to. */
  predicate HasKind(v: Value, k: Kind)
  {
    match k
    case TextKind => v.Text?
    case IntKind => v.Int?
  }
}
