/** Conversion between PostgreSQL arrays and the flat buffers handed to faiss:
    pg_array_to_float_vector and int_vector_to_pg_array. */
module ArrayCodec {
  import opened Wrappers
  import opened PgTypes

  /** What pg_array_to_float_vector makes of an array: its values in order,
      or the error it raises. The dimension is checked first, then the
      element type, then the elements for NULL. */
  function FloatVectorOf(a: ArrayArg): (r: Result<seq<Float4>, Error>)
    ensures r.Success? <==>
      a.ndim == 1 && a.elemType == FLOAT4OID && forall i | 0 <= i < |a.elems| :: a.elems[i].Some?
    ensures r.Success? ==>
      |r.value| == |a.elems| && forall i | 0 <= i < |a.elems| :: a.elems[i] == Some(r.value[i])
    ensures a.ndim != 1 ==> r == Failure(NotOneDimensional)
    ensures a.ndim == 1 && a.elemType != FLOAT4OID ==> r == Failure(NotFloat4Array)
    ensures a.ndim == 1 && a.elemType == FLOAT4OID && r.Failure? ==> r.error == NullArrayElement
  {
    if a.ndim != 1 then Failure(NotOneDimensional)
    else if a.elemType != FLOAT4OID then Failure(NotFloat4Array)
    else if exists i | 0 <= i < |a.elems| :: a.elems[i].None? then Failure(NullArrayElement)
    else Success(seq(|a.elems|, i requires 0 <= i < |a.elems| => a.elems[i].value))
  }

  /** pg_array_to_float_vector: checks the array, then copies its elements one
      by one into a growing vector, stopping at the first NULL. */
  method PgArrayToFloatVector(a: ArrayArg) returns (r: Result<seq<Float4>, Error>)
    ensures r == FloatVectorOf(a)
  {
    if a.ndim != 1 {
      return Failure(NotOneDimensional);
    }
    if a.elemType != FLOAT4OID {
      return Failure(NotFloat4Array);
    }
    var out: seq<Float4> := [];
    for i := 0 to |a.elems|
      invariant |out| == i
      invariant forall j | 0 <= j < i :: a.elems[j] == Some(out[j])
    {
      if a.elems[i].None? {
        return Failure(NullArrayElement);
      }
      out := out + [a.elems[i].value];
    }
    assert out == FloatVectorOf(a).value;
    return Success(out);
  }

  /** int_vector_to_pg_array: copies the values into a Datum buffer of the same
      size, in order, and builds an int4[] from it. */
  method IntVectorToPgArray(vals: seq<Int32>) returns (a: Int4Array)
    ensures |a.values| == |vals|
    ensures forall i | 0 <= i < |vals| :: a.values[i] == vals[i]
  {
    var elems := new Int32[|vals|];
    for i := 0 to |vals|
      invariant forall j | 0 <= j < i :: elems[j] == vals[j]
    {
      elems[i] := vals[i];
    }
    a := Int4Array(elems[..]);
  }
}
