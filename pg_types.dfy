/** The PostgreSQL-side values the extension handles: fixed-width integers,
    float4 values, array arguments and the errors it reports. */
module PgTypes {
  import opened Wrappers

  newtype Int32 = x: int | -0x8000_0000 <= x < 0x8000_0000

  /** faiss::idx_t, the label type of faiss searches. */
  newtype Int64 = x: int | -0x8000_0000_0000_0000 <= x < 0x8000_0000_0000_0000

  /** A float4 value, kept as its 32-bit IEEE-754 pattern: the extension only
      moves these values from one buffer to another. */
  type Float4 = bv32

  /** Type OIDs, as fixed in PostgreSQL's catalog (pg_type). */
  type Oid = nat
  const INT4OID: Oid := 23
  const FLOAT4OID: Oid := 700

  /** An array argument after deconstruct_array: its number of dimensions,
      its element type and its elements in storage order, None for a NULL. */
  datatype ArrayArg = ArrayArg(ndim: int, elemType: Oid, elems: seq<Option<Float4>>)

  /** An int4[] result: its elements in order. */
  datatype Int4Array = Int4Array(values: seq<Int32>)

  /** A C++ cast to a 32-bit signed integer: two's-complement truncation. */
  function WrapInt32(x: int): (r: Int32)
    ensures (r as int - x) % 0x1_0000_0000 == 0
    ensures -0x8000_0000 <= x < 0x8000_0000 ==> r as int == x
  {
    ((x + 0x8000_0000) % 0x1_0000_0000 - 0x8000_0000) as Int32
  }

  /** SQLSTATE classes the extension reports (the errcode of each ereport). */
  datatype SqlState =
    | ArraySubscriptError
    | DatatypeMismatch
    | NullValueNotAllowed
    | InvalidParameterValue
    | InternalError

  /** The errors the extension raises, one per distinct ereport(ERROR, ...). */
  datatype Error =
    | NotOneDimensional                              // "expected 1-D real[] array"
    | NotFloat4Array                                 // "expected real[] (float4) array"
    | NullArrayElement                               // "array elements must not be NULL"
    | NonPositiveParameter                           // "n, d and k must be positive"
    | QueryLengthMismatch(found: int, d: int)        // "query vector length (%d) must equal d (%d)"
    | DataLengthMismatch(found: int, expected: int)  // "data length (%d) must equal n * d (%d)"
    | NonPositiveK                                   // "k must be positive"
    | EmptyQuery                                     // "query vector must not be empty"
    | SpiConnectFailed                               // "SPI_connect failed"
    | SpiExecuteFailed(code: int)                    // "SPI_execute failed with code %d"
    | NullId                                         // "id must not be NULL"
    | NullEmbedding                                  // "embedding must not be NULL"
    | EmbeddingDimensionMismatch(d: int, found: int) // "all embeddings must have dimension %d (found %d)"
    | InvalidLabel(idx: Int32)                       // "Faiss returned invalid index %d"

  /** The errcode each ereport carries. Internal errors are exactly the SPI
      failures and an out-of-range faiss label; the NULL class is exactly the
      NULL element, id and embedding; every other check on the caller's
      arguments reports an invalid parameter value, except the array shape
      and element type checks, which have classes of their own. */
  function Code(e: Error): (r: SqlState)
    ensures r == InternalError <==> e.SpiConnectFailed? || e.SpiExecuteFailed? || e.InvalidLabel?
    ensures r == NullValueNotAllowed <==> e.NullArrayElement? || e.NullId? || e.NullEmbedding?
    ensures r == ArraySubscriptError <==> e.NotOneDimensional?
    ensures r == DatatypeMismatch <==> e.NotFloat4Array?
    ensures r == InvalidParameterValue <==>
      e.NonPositiveParameter? || e.QueryLengthMismatch? || e.DataLengthMismatch? ||
      e.NonPositiveK? || e.EmptyQuery? || e.EmbeddingDimensionMismatch?
  {
    match e
    case NotOneDimensional => ArraySubscriptError
    case NotFloat4Array => DatatypeMismatch
    case NullArrayElement | NullId | NullEmbedding => NullValueNotAllowed
    case SpiConnectFailed | SpiExecuteFailed(_) | InvalidLabel(_) => InternalError
    case _ => InvalidParameterValue
  }
}
