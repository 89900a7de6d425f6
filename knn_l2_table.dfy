/** faiss_knn_l2_table: k nearest neighbours of one query among the rows of
    the faiss_items table, answered with the rows' ids. */
module KnnTable {
  import opened Wrappers
  import opened PgTypes
  import opened ArrayCodec
  import opened FaissSearch

  /** One row of `SELECT id, embedding FROM faiss_items`; None for NULL. */
  datatype Row = Row(id: Option<Int32>, embedding: Option<ArrayArg>)

  /** What SPI gives back: a failed SPI_connect, an SPI_execute that did not
      return SPI_OK_SELECT (with its code), or the selected rows in fetch order. */
  datatype SpiResult = ConnectFailed | ExecuteFailed(code: int) | Selected(rows: seq<Row>)

  /** The error faiss_knn_l2_table raises before reading any row, if any. */
  function Rejection(queryArr: ArrayArg, k: Int32, spi: SpiResult): (r: Option<Error>)
    ensures r.None? <==>
      0 < k && FloatVectorOf(queryArr).Success? && |FloatVectorOf(queryArr).value| > 0 && spi.Selected?
    ensures k <= 0 ==> r == Some(NonPositiveK)
    ensures 0 < k && FloatVectorOf(queryArr).Failure? ==> r == Some(FloatVectorOf(queryArr).error)
    ensures 0 < k && FloatVectorOf(queryArr).Success? && |FloatVectorOf(queryArr).value| == 0 ==>
      r == Some(EmptyQuery)
    ensures 0 < k && FloatVectorOf(queryArr).Success? && |FloatVectorOf(queryArr).value| > 0 ==>
      (spi.ConnectFailed? ==> r == Some(SpiConnectFailed)) &&
      (spi.ExecuteFailed? ==> r == Some(SpiExecuteFailed(spi.code)))
  {
    if k <= 0 then Some(NonPositiveK)
    else if FloatVectorOf(queryArr).Failure? then Some(FloatVectorOf(queryArr).error)
    else if |FloatVectorOf(queryArr).value| <= 0 then Some(EmptyQuery)
    else
      match spi
      case ConnectFailed => Some(SpiConnectFailed)
      case ExecuteFailed(code) => Some(SpiExecuteFailed(code))
      case Selected(_) => None
  }

  /** Why one row is refused, if it is: a NULL id, a NULL embedding, an
      embedding that is not a NULL-free 1-D real[], or one whose length is not d. */
  function RowFault(row: Row, d: int): (r: Option<Error>)
    ensures r.None? <==>
      row.id.Some? && row.embedding.Some? && FloatVectorOf(row.embedding.value).Success? &&
      |FloatVectorOf(row.embedding.value).value| == d
    ensures row.id.None? ==> r == Some(NullId)
    ensures row.id.Some? && row.embedding.None? ==> r == Some(NullEmbedding)
  {
    if row.id.None? then Some(NullId)
    else if row.embedding.None? then Some(NullEmbedding)
    else
      match FloatVectorOf(row.embedding.value)
      case Failure(e) => Some(e)
      case Success(emb) =>
        if |emb| != d then Some(EmbeddingDimensionMismatch(d, |emb|)) else None
  }

  /** The ids and the flat data buffer built from the rows, taken in fetch
      order, or the fault of the first row refused. */
  function Ingested(rows: seq<Row>, d: int): Result<(seq<Int32>, seq<Float4>), Error>
    decreases |rows|
  {
    if rows == [] then Success(([], []))
    else
      match Ingested(rows[..|rows| - 1], d)
      case Failure(e) => Failure(e)
      case Success((ids, data)) =>
        var row := rows[|rows| - 1];
        match RowFault(row, d)
        case Some(e) => Failure(e)
        case None => Success((ids + [row.id.value], data + FloatVectorOf(row.embedding.value).value))
  }

  /** After the rows are taken in there is one id and d floats per row. */
  lemma {:induction false} IngestedSizes(rows: seq<Row>, d: nat)
    requires Ingested(rows, d).Success?
    ensures |Ingested(rows, d).value.0| == |rows|
    ensures |Ingested(rows, d).value.1| == |rows| * d
  {
    if rows != [] {
      var m := |rows| - 1;
      IngestedSizes(rows[..m], d);
      assert |rows| * d == m * d + d;
    }
  }

  /** Row j's id sits at position j of ids, and its embedding at
      [j*d, j*d + d) of the flat data buffer. */
  lemma {:induction false} IngestedRowAt(rows: seq<Row>, d: nat, j: nat)
    requires Ingested(rows, d).Success? && j < |rows|
    ensures |Ingested(rows, d).value.0| == |rows| && |Ingested(rows, d).value.1| == |rows| * d
    ensures j * d + d <= |rows| * d
    ensures rows[j].id == Some(Ingested(rows, d).value.0[j])
    ensures rows[j].embedding.Some?
    ensures FloatVectorOf(rows[j].embedding.value) == Success(Ingested(rows, d).value.1[j * d .. j * d + d])
  {
    IngestedSizes(rows, d);
    var m := |rows| - 1;
    var prefix := rows[..m];
    IngestedSizes(prefix, d);
    var (ids, data) := Ingested(prefix, d).value;
    var emb := FloatVectorOf(rows[m].embedding.value).value;
    assert Ingested(rows, d).value == (ids + [rows[m].id.value], data + emb);
    if j < m {
      IngestedRowAt(prefix, d, j);
      RowEndWithin(j, m, d);
      AppendedSlice(data, emb, j * d);
    } else {
      AppendedSlice(data, emb, j * d);
    }
  }

  /** After the rows are taken in: one id per row and d floats per row,
      row j's id at position j and its embedding at [j*d, j*d + d), in
      fetch order. */
  lemma IngestedLayout(rows: seq<Row>, d: nat)
    requires Ingested(rows, d).Success?
    ensures |Ingested(rows, d).value.0| == |rows|
    ensures |Ingested(rows, d).value.1| == |rows| * d
    ensures forall j | 0 <= j < |rows| ::
      rows[j].id == Some(Ingested(rows, d).value.0[j]) &&
      rows[j].embedding.Some? &&
      FloatVectorOf(rows[j].embedding.value) == Success(Ingested(rows, d).value.1[j * d .. j * d + d])
  {
    IngestedSizes(rows, d);
    forall j | 0 <= j < |rows|
      ensures rows[j].id == Some(Ingested(rows, d).value.0[j]) && rows[j].embedding.Some?
      ensures FloatVectorOf(rows[j].embedding.value) == Success(Ingested(rows, d).value.1[j * d .. j * d + d])
    {
      IngestedRowAt(rows, d, j);
    }
  }

  /** Taking in stops at the first refused row: it fails iff some row is
      refused, and then with the fault of the first one. */
  lemma {:induction false} IngestedFirstFault(rows: seq<Row>, d: int)
    ensures Ingested(rows, d).Success? <==> forall j | 0 <= j < |rows| :: RowFault(rows[j], d).None?
    ensures Ingested(rows, d).Failure? ==>
      exists j | 0 <= j < |rows| ::
        RowFault(rows[j], d) == Some(Ingested(rows, d).error) &&
        forall i | 0 <= i < j :: RowFault(rows[i], d).None?
  {
    if rows != [] {
      var m := |rows| - 1;
      var prefix := rows[..m];
      IngestedFirstFault(prefix, d);
      assert forall j | 0 <= j < m :: prefix[j] == rows[j];
      if Ingested(prefix, d).Failure? {
        var j :| 0 <= j < m && RowFault(prefix[j], d) == Some(Ingested(prefix, d).error) &&
          forall i | 0 <= i < j :: RowFault(prefix[i], d).None?;
        assert RowFault(rows[j], d) == Some(Ingested(rows, d).error);
      } else if RowFault(rows[m], d).Some? {
        assert RowFault(rows[m], d) == Some(Ingested(rows, d).error);
      }
    }
  }

  /** Once a prefix of the rows is refused, so are all the rows, with the same error. */
  lemma {:induction false} IngestedFailureSticks(rows: seq<Row>, m: nat, d: int)
    requires m <= |rows|
    requires Ingested(rows[..m], d).Failure?
    ensures Ingested(rows, d) == Ingested(rows[..m], d)
    decreases |rows|
  {
    if m < |rows| {
      var last := |rows| - 1;
      assert rows[..last][..m] == rows[..m];
      IngestedFailureSticks(rows[..last], m, d);
    } else {
      assert rows[..m] == rows;
    }
  }

  /** The row-ingestion loop of faiss_knn_l2_table: appends each row's id to
      ids and its embedding to data, aborting on the first refused row. */
  method IngestRows(rows: seq<Row>, d: int) returns (r: Result<(seq<Int32>, seq<Float4>), Error>)
    ensures r == Ingested(rows, d)
  {
    var ids: seq<Int32> := [];
    var data: seq<Float4> := [];
    for i := 0 to |rows|
      invariant Ingested(rows[..i], d) == Success((ids, data))
    {
      var row := rows[i];
      assert rows[..i + 1][..i] == rows[..i];
      assert rows[..i + 1][i] == row;
      if row.id.None? {
        IngestedFailureSticks(rows, i + 1, d);
        return Failure(NullId);
      }
      var id := row.id.value;
      if row.embedding.None? {
        IngestedFailureSticks(rows, i + 1, d);
        return Failure(NullEmbedding);
      }
      var emb := PgArrayToFloatVector(row.embedding.value);
      if emb.Failure? {
        IngestedFailureSticks(rows, i + 1, d);
        return Failure(emb.error);
      }
      if |emb.value| != d {
        IngestedFailureSticks(rows, i + 1, d);
        return Failure(EmbeddingDimensionMismatch(d, |emb.value|));
      }
      ids := ids + [id];
      data := data + emb.value;
    }
    assert rows[..|rows|] == rows;
    return Success((ids, data));
  }

  /** Whether faiss label l, once cast to int, is a position among n rows. */
  predicate InRange(l: Int64, n: int) {
    0 <= WrapInt32(l as int) as int < n
  }

  /** The table ids of the returned labels, in order, or an error for the
      first label that is not a row position. */
  function Remapped(labels: seq<Int64>, ids: seq<Int32>): Result<seq<Int32>, Error>
    decreases |labels|
  {
    if labels == [] then Success([])
    else
      match Remapped(labels[..|labels| - 1], ids)
      case Failure(e) => Failure(e)
      case Success(prefix) =>
        var idx := WrapInt32(labels[|labels| - 1] as int);
        if idx < 0 || idx as int >= |ids| then Failure(InvalidLabel(idx))
        else Success(prefix + [ids[idx]])
  }

  /** Remapping succeeds iff every label is a row position; then entry i is
      the id of the row at label i. A label out of range is never clamped or
      skipped: the first one is reported. */
  lemma {:induction false} RemappedSpec(labels: seq<Int64>, ids: seq<Int32>)
    ensures Remapped(labels, ids).Success? <==> forall i | 0 <= i < |labels| :: InRange(labels[i], |ids|)
    ensures Remapped(labels, ids).Success? ==>
      |Remapped(labels, ids).value| == |labels| &&
      forall i | 0 <= i < |labels| :: Remapped(labels, ids).value[i] == ids[WrapInt32(labels[i] as int)]
    ensures Remapped(labels, ids).Failure? ==>
      exists j | 0 <= j < |labels| ::
        !InRange(labels[j], |ids|) &&
        Remapped(labels, ids).error == InvalidLabel(WrapInt32(labels[j] as int)) &&
        forall i | 0 <= i < j :: InRange(labels[i], |ids|)
  {
    if labels != [] {
      var m := |labels| - 1;
      var prefix := labels[..m];
      RemappedSpec(prefix, ids);
      assert forall j | 0 <= j < m :: prefix[j] == labels[j];
      if Remapped(prefix, ids).Failure? {
        var j :| 0 <= j < m && !InRange(prefix[j], |ids|) &&
          Remapped(prefix, ids).error == InvalidLabel(WrapInt32(prefix[j] as int)) &&
          forall i | 0 <= i < j :: InRange(prefix[i], |ids|);
        assert !InRange(labels[j], |ids|);
      }
    }
  }

  /** Once a prefix of the labels fails to remap, so do all of them, with the same error. */
  lemma {:induction false} RemappedFailureSticks(labels: seq<Int64>, m: nat, ids: seq<Int32>)
    requires m <= |labels|
    requires Remapped(labels[..m], ids).Failure?
    ensures Remapped(labels, ids) == Remapped(labels[..m], ids)
    decreases |labels|
  {
    if m < |labels| {
      var last := |labels| - 1;
      assert labels[..last][..m] == labels[..m];
      RemappedFailureSticks(labels[..last], m, ids);
    } else {
      assert labels[..m] == labels;
    }
  }

  /** The remap loop of faiss_knn_l2_table: turns each label into the id of
      the row at that position, with a hard range check. */
  method RemapLabels(labels: seq<Int64>, ids: seq<Int32>) returns (r: Result<seq<Int32>, Error>)
    ensures r == Remapped(labels, ids)
  {
    var resultIds: seq<Int32> := [];
    for i := 0 to |labels|
      invariant Remapped(labels[..i], ids) == Success(resultIds)
    {
      assert labels[..i + 1][..i] == labels[..i];
      var idx := WrapInt32(labels[i] as int);
      if idx < 0 || idx as int >= |ids| {
        RemappedFailureSticks(labels, i + 1, ids);
        return Failure(InvalidLabel(idx));
      }
      resultIds := resultIds + [ids[idx]];
    }
    assert labels[..|labels|] == labels;
    return Success(resultIds);
  }

  /** faiss_knn_l2_table. Checks k and the query, reads the table, takes the
      rows in, searches for the clamped k and remaps the labels to ids.
      A table without rows gives an empty result, not an error; every id
      returned is the id of some row read. */
  method KnnL2Table(queryArr: ArrayArg, k: Int32, spi: SpiResult, engine: SearchEngine)
    returns (r: Result<Int4Array, Error>)
    ensures Rejection(queryArr, k, spi).Some? ==> r == Failure(Rejection(queryArr, k, spi).value)
    ensures Rejection(queryArr, k, spi).None? && spi.rows == [] ==> r == Success(Int4Array([]))
    ensures Rejection(queryArr, k, spi).None? && spi.rows != [] ==>
      var query := FloatVectorOf(queryArr).value;
      var n := |spi.rows|;
      match Ingested(spi.rows, |query|)
      case Failure(e) => r == Failure(e)
      case Success((ids, data)) =>
        match Remapped(engine(data, n, |query|, query, ClampedK(k, n) as int), ids)
        case Failure(e) => r == Failure(e)
        case Success(resultIds) => r == Success(Int4Array(resultIds))
    ensures r.Success? ==>
      spi.Selected? && |r.value.values| <= k as int && |r.value.values| <= |spi.rows| &&
      (|r.value.values| == k as int || |r.value.values| == |spi.rows|)
    ensures r.Success? ==>
      forall i | 0 <= i < |r.value.values| ::
        exists j | 0 <= j < |spi.rows| :: spi.rows[j].id == Some(r.value.values[i])
  {
    if k <= 0 {
      return Failure(NonPositiveK);
    }
    var q := PgArrayToFloatVector(queryArr);
    if q.Failure? {
      return Failure(q.error);
    }
    var query := q.value;
    var d := |query|;
    if d <= 0 {
      return Failure(EmptyQuery);
    }
    if spi.ConnectFailed? {
      return Failure(SpiConnectFailed);
    }
    if spi.ExecuteFailed? {
      return Failure(SpiExecuteFailed(spi.code));
    }
    var rows := spi.rows;
    if |rows| == 0 {
      var empty := IntVectorToPgArray([]);
      return Success(empty);
    }
    var ingested := IngestRows(rows, d);
    if ingested.Failure? {
      return Failure(ingested.error);
    }
    var (ids, data) := ingested.value;
    IngestedLayout(rows, d);
    var n := |rows|;
    var kk := k;
    if kk as int > n {
      kk := n as Int32;
    }
    assert kk == ClampedK(k, n);
    var labels := engine(data, n, d, query, kk as int);
    var remapped := RemapLabels(labels, ids);
    if remapped.Failure? {
      return Failure(remapped.error);
    }
    var resultIds := remapped.value;
    RemappedSpec(labels, ids);
    forall i | 0 <= i < |resultIds|
      ensures exists j | 0 <= j < |rows| :: rows[j].id == Some(resultIds[i])
    {
      var j := WrapInt32(labels[i] as int) as int;
      assert rows[j].id == Some(ids[j]);
    }
    var resultArr := IntVectorToPgArray(resultIds);
    assert resultArr.values == resultIds;
    return Success(resultArr);
  }
}
