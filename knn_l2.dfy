/** faiss_knn_l2: k nearest neighbours of one query among n caller-supplied
    vectors of dimension d, passed as one flat real[] array. */
module KnnFlat {
  import opened Wrappers
  import opened PgTypes
  import opened ArrayCodec
  import opened FaissSearch

  /** The data-length test as the C++ evaluates it: `n * d` is a product of two
      int32 values, which wraps around once it leaves the int32 range. */
  predicate DataLengthAcceptedAsWritten(len: int, n: Int32, d: Int32) {
    len == WrapInt32(n as int * d as int) as int
  }

  /** With n = d = 65537 the product is 2^32 + 131073, which wraps to 131073:
      a data array of 131073 floats passes the test although the last of the
      n rows that faiss then reads ends far beyond it. */
  lemma DataLengthCheckWraps()
    ensures DataLengthAcceptedAsWritten(131073, 65537, 65537)
    ensures !DataLengthMatches(131073, 65537, 65537)
    ensures var len, d, j := 131073, 65537, 65536; !(j * d + d <= len)
  {
  }

  /** The data-length test with the product computed exactly. */
  predicate DataLengthMatches(len: int, n: Int32, d: Int32) {
    len == n as int * d as int
  }

  /** When n * d fits in an int32, the test as written and the exact one agree. */
  lemma DataLengthChecksAgree(len: int, n: Int32, d: Int32)
    requires -0x8000_0000 <= n as int * d as int < 0x8000_0000
    ensures DataLengthAcceptedAsWritten(len, n, d) <==> DataLengthMatches(len, n, d)
  {
  }

  /** What the exact test guarantees: row j of the n rows of d floats that
      index.add(n, data) reads lies inside the data buffer. */
  lemma DataLengthMatchesCoversRow(len: int, n: Int32, d: Int32, j: nat)
    requires 0 < d && DataLengthMatches(len, n, d) && j < n as int
    ensures j * d as int + d as int <= len
  {
    RowEndWithin(j, n as int, d as int);
  }

  /** The error faiss_knn_l2 raises before building an index, if any: first
      n, d and k, then the conversion of the query and of the data array,
      then the query length and the data length. */
  function Rejection(queryArr: ArrayArg, dataArr: ArrayArg, n: Int32, d: Int32, k: Int32): (r: Option<Error>)
    ensures r.None? <==>
      0 < n && 0 < d && 0 < k &&
      FloatVectorOf(queryArr).Success? && FloatVectorOf(dataArr).Success? &&
      |FloatVectorOf(queryArr).value| == d as int &&
      |FloatVectorOf(dataArr).value| == n as int * d as int
    ensures n <= 0 || d <= 0 || k <= 0 ==> r == Some(NonPositiveParameter)
    ensures 0 < n && 0 < d && 0 < k && FloatVectorOf(queryArr).Failure? ==>
      r == Some(FloatVectorOf(queryArr).error)
    ensures 0 < n && 0 < d && 0 < k && FloatVectorOf(queryArr).Success? && FloatVectorOf(dataArr).Failure? ==>
      r == Some(FloatVectorOf(dataArr).error)
    ensures (0 < n && 0 < d && 0 < k && FloatVectorOf(queryArr).Success? && FloatVectorOf(dataArr).Success? &&
             |FloatVectorOf(queryArr).value| != d as int) ==>
      r == Some(QueryLengthMismatch(|FloatVectorOf(queryArr).value|, d as int))
    ensures (0 < n && 0 < d && 0 < k && FloatVectorOf(queryArr).Success? && FloatVectorOf(dataArr).Success? &&
             |FloatVectorOf(queryArr).value| == d as int && |FloatVectorOf(dataArr).value| != n as int * d as int) ==>
      r == Some(DataLengthMismatch(|FloatVectorOf(dataArr).value|, n as int * d as int))
  {
    if n <= 0 || d <= 0 || k <= 0 then Some(NonPositiveParameter)
    else
      match FloatVectorOf(queryArr)
      case Failure(e) => Some(e)
      case Success(query) =>
        match FloatVectorOf(dataArr)
        case Failure(e) => Some(e)
        case Success(data) =>
          if |query| != d as int then Some(QueryLengthMismatch(|query|, d as int))
          else if !DataLengthMatches(|data|, n, d) then Some(DataLengthMismatch(|data|, n as int * d as int))
          else None
  }

  /** faiss_knn_l2. The outcome of every check is independent of the search
      engine: no search happens when a check fails. Otherwise the int[] result
      has min(k, n) entries, entry i being the i-th label faiss returned, cast
      to int32 without a range check. None of its errors is an internal error. */
  method KnnL2(queryArr: ArrayArg, dataArr: ArrayArg, n: Int32, d: Int32, k: Int32, engine: SearchEngine)
    returns (r: Result<Int4Array, Error>)
    ensures r.Failure? <==> Rejection(queryArr, dataArr, n, d, k).Some?
    ensures r.Failure? ==> Rejection(queryArr, dataArr, n, d, k) == Some(r.error)
    ensures r.Failure? ==> Code(r.error) != InternalError
    ensures r.Success? ==>
      var kk := ClampedK(k, n as int);
      var labels := engine(FloatVectorOf(dataArr).value, n as int, d as int, FloatVectorOf(queryArr).value, kk as int);
      |r.value.values| == kk as int &&
      forall i | 0 <= i < |r.value.values| :: r.value.values[i] == WrapInt32(labels[i] as int)
    ensures r.Success? ==> 1 <= |r.value.values| && |r.value.values| <= n as int && |r.value.values| <= k as int
  {
    if n <= 0 || d <= 0 || k <= 0 {
      return Failure(NonPositiveParameter);
    }
    var q := PgArrayToFloatVector(queryArr);
    if q.Failure? {
      return Failure(q.error);
    }
    var data := PgArrayToFloatVector(dataArr);
    if data.Failure? {
      return Failure(data.error);
    }
    var query := q.value;
    if |query| != d as int {
      return Failure(QueryLengthMismatch(|query|, d as int));
    }
    if !DataLengthMatches(|data.value|, n, d) {
      return Failure(DataLengthMismatch(|data.value|, n as int * d as int));
    }
    var kk := k;
    if kk > n {
      kk := n;
    }
    assert kk == ClampedK(k, n as int);
    var labels := engine(data.value, n as int, d as int, query, kk as int);
    var resultIdx: seq<Int32> := [];
    for i := 0 to kk as int
      invariant |resultIdx| == i
      invariant forall j | 0 <= j < i :: resultIdx[j] == WrapInt32(labels[j] as int)
    {
      resultIdx := resultIdx + [WrapInt32(labels[i] as int)];
    }
    var resultArr := IntVectorToPgArray(resultIdx);
    return Success(resultArr);
  }
}
