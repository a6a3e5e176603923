/** Column values, their physical types and the order each type is compared in. */
module Values {
  import opened Words
  import opened Orders

  datatype Option<+T> = None | Some(value: T)

  datatype ErrorCode =
    | IO_ERROR | OUT_OF_RANGE | INVALID_ARGUMENT | SCHEMA_MISMATCH | CORRUPT_PAGE | CORRUPT_DATA | CORRUPT_FOOTER
    | INVALID_FILE | UNSUPPORTED_ENCODING | UNSUPPORTED_TYPE | INTERNAL_ERROR | LICENSE_ERROR | LICENSE_LIMIT_EXCEEDED
    | THRIFT_DECODE_ERROR | LENGTH_ERROR

  datatype Result<+T> = Ok(value: T) | Err(error: ErrorCode) {
    predicate IsFailure() { Err? }
    function PropagateFailure<U>(): Result<U>
      requires Err?
    {
      Err(error)
    }
    function Extract(): T
      requires Ok?
    {
      value
    }
  }

  datatype PhysicalType = BOOLEAN | INT32 | INT64 | INT96 | FLOAT | DOUBLE | BYTE_ARRAY | FIXED_LEN_BYTE_ARRAY

  /** A value as its bit pattern; byte arrays are byte strings. */
  datatype Value =
    | Bool(b: bool)
    | I32(w: bv32)
    | I64(d: bv64)
    | F32(w: bv32)
    | F64(d: bv64)
    | Bytes(s: seq<bv8>)

  predicate HasType(v: Value, t: PhysicalType) {
    match t
    case BOOLEAN => v.Bool?
    case INT32 => v.I32?
    case INT64 => v.I64?
    case FLOAT => v.F32?
    case DOUBLE => v.F64?
    case INT96 | BYTE_ARRAY | FIXED_LEN_BYTE_ARRAY => v.Bytes?
  }

  predicate AllOfType(vs: seq<Value>, t: PhysicalType) {
    forall i :: 0 <= i < |vs| ==> HasType(vs[i], t)
  }

  predicate IsNaN(v: Value) {
    match v
    case F32(w) => NaN(U32(w), BINARY32)
    case F64(d) => NaN(U64(d), BINARY64)
    case _ => false
  }

  /** The number a value stands for; floats in units of their least subnormal. */
  function Number(v: Value): int
    requires !v.Bytes?
  {
    match v
    case Bool(b) => if b then 1 else 0
    case I32(w) => S32(w)
    case I64(d) => S64(d)
    case F32(w) => FloatValue(U32(w), BINARY32)
    case F64(d) => FloatValue(U64(d), BINARY64)
  }

  /** The order of values of one type: numeric, or lexicographic for byte strings. NaN is less
      than nothing and nothing is less than NaN. */
  predicate Less(a: Value, b: Value) {
    if a.Bytes? && b.Bytes? then LexLess(a.s, b.s)
    else !a.Bytes? && !b.Bytes? && !IsNaN(a) && !IsNaN(b) && Number(a) < Number(b)
  }

  predicate Leq(a: Value, b: Value) { !Less(b, a) }

  /** Values of one type that are not NaN are totally preordered. */
  lemma LessIsOrder(a: Value, b: Value, c: Value, t: PhysicalType)
    requires HasType(a, t) && HasType(b, t) && HasType(c, t)
    requires !IsNaN(a) && !IsNaN(b) && !IsNaN(c)
    ensures !(Less(a, b) && Less(b, a))
    ensures Leq(a, b) && Leq(b, c) ==> Leq(a, c)
  {
    hide LexLess, LexLeq, S32, S64, U32, U64, FloatValue, NaN;
    if a.Bytes? {
      LexTrichotomy(a.s, b.s);
      if LexLeq(a.s, b.s) && LexLeq(b.s, c.s) {
        LexLeqTransitive(a.s, b.s, c.s);
      }
      LexLeqIs(a.s, b.s);
      LexLeqIs(b.s, c.s);
      LexLeqIs(a.s, c.s);
    }
  }

  lemma LexLeqIs(a: seq<bv8>, b: seq<bv8>)
    ensures LexLeq(a, b) <==> !LexLess(b, a)
  {
  }
}
