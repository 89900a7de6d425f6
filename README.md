# faiss_pg in Dafny

A model of the PostgreSQL extension `faiss_pg`, which exposes two SQL
functions doing exact k-nearest-neighbour search under L2 distance through
faiss's `IndexFlatL2`:

- `faiss_knn_l2(query real[], data real[], n int, d int, k int)` searches a
  flat caller-supplied dataset of `n` vectors of dimension `d` and returns the
  zero-based positions of the neighbours;
- `faiss_knn_l2_table(query real[], k int)` reads every `(id, embedding)` row
  of the table `faiss_items`, searches them and returns the rows' ids.

What the extension itself does around the single call into faiss is modelled:
converting `real[]` arguments into float buffers, checking `n`, `d`, `k` and
the lengths, clamping `k` to `n`, taking the table rows into a parallel id
list and a row-major data buffer, casting the returned labels, remapping them
to ids with a range check, and building the `int[]` result.

Modules, one per part of `faiss_pg.cpp`:

- `Wrappers` — `Option` (a NULL-able value) and `Result` (a value or the
  error of an `ereport(ERROR, ...)`).
- `PgTypes` — `Int32`, `Int64` (faiss's `idx_t`), `Float4` (a float4's bit
  pattern: the code never computes with floats), the type OIDs, the array
  argument after `deconstruct_array`, the `int[]` result, the two's-complement
  cast to `int32`, and one `Error` per distinct `ereport` with its SQLSTATE class.
- `ArrayCodec` — `pg_array_to_float_vector` and `int_vector_to_pg_array`.
- `FaissSearch` — the search engine (faiss's index built over the data and
  searched once), the clamping of `k`, and row-major layout facts.
- `KnnFlat` — `faiss_knn_l2`.
- `KnnTable` — `faiss_knn_l2_table`, with its row-ingestion and remap loops.

Each loop of the source is a method whose contract ties its result to a
specification function (`FloatVectorOf`, `Ingested`, `Remapped`); what the
source promises about that function is proved in lemmas.

Where the code and a plain reading of the design differ, the model follows the
code: `faiss_knn_l2` checks `n`, `d` and `k` before it converts either array;
a table row is checked for a NULL id, then a NULL embedding, then the
embedding's conversion, then its length; and `faiss_knn_l2` passes the labels
through without a range check, while `faiss_knn_l2_table` rejects any label
outside `[0, n)`.

## Model

| member | source | states |
|---|---|---|
| `PgTypes.WrapInt32` | faiss_pg.cpp:158-160 | the `(int32)` cast of a label: congruent to the label modulo 2^32, and equal to it whenever it fits in 32 bits |
| `PgTypes.Code` | faiss_pg.cpp:33-291 | the errcode of each ereport: internal error exactly for the SPI failures and an out-of-range faiss label, NULL-not-allowed exactly for a NULL element, id or embedding, array-subscript error for a non-1-D array, datatype mismatch for a non-float4 array, invalid parameter value for every other check |
| `ArrayCodec.FloatVectorOf` | faiss_pg.cpp:31-67 | conversion succeeds iff the array is 1-D, of element type float4 (OID 700) and has no NULL; then the output has one entry per element and entry i is element i; otherwise the error is the dimension error, else the type error, else the NULL error, in that order |
| `ArrayCodec.PgArrayToFloatVector` | faiss_pg.cpp:31-73 | the checking and copy loop returns exactly `FloatVectorOf` of its argument |
| `ArrayCodec.IntVectorToPgArray` | faiss_pg.cpp:76-100 | the `int[]` built has the input's length and its elements in the same order |
| `FaissSearch.ClampedK` | faiss_pg.cpp:136-137 | for positive k and n the clamped k is min(k, n): 1 <= k' <= n, k' <= k, and k' is k or n (the same clamp is at lines 265-266) |
| `FaissSearch.RowEndWithin` | faiss_pg.cpp:143 | in a buffer of m rows of d floats, row j < m ends within m * d |
| `KnnFlat.DataLengthCheckWraps` | faiss_pg.cpp:130-134 | as written, n = d = 65537 with a 131073-float data array passes the length test although the buffer does not hold n * d floats, and row 65536 ends beyond it |
| `KnnFlat.DataLengthChecksAgree` | faiss_pg.cpp:130 | when n * d fits in int32, the test as written and the exact test agree |
| `KnnFlat.DataLengthMatchesCoversRow` | faiss_pg.cpp:130-143 | with the exact test, every row that `index.add(n, data)` reads lies inside the data buffer |
| `KnnFlat.Rejection` | faiss_pg.cpp:115-134 | no error iff n, d, k are all positive, both arrays convert, the query has length d and the data length is exactly n * d; each failing check gives its own error, in the order n/d/k, query conversion, data conversion, query length (found, d), data length (found, n * d) |
| `KnnFlat.KnnL2` | faiss_pg.cpp:107-165 | fails iff `Rejection` reports an error, with that error, whatever the search engine does; none of its errors is an internal error; on success the `int[]` built by `int_vector_to_pg_array` has min(k, n) entries (at least 1, at most n and k) and entry i is label i of the search for the clamped k, cast to int32 |
| `KnnTable.Rejection` | faiss_pg.cpp:172-200 | no error before reading rows iff k > 0, the query converts, is non-empty and SPI connected and selected; k <= 0 is reported first, then a query conversion error, an empty query, a failed connect, a failed execute with its code |
| `KnnTable.RowFault` | faiss_pg.cpp:226-255 | a row is accepted iff its id and embedding are non-NULL and the embedding converts to exactly d floats; a NULL id is reported before a NULL embedding |
| `KnnTable.IngestedSizes` | faiss_pg.cpp:216-260 | after taking in the rows, ids has one entry per row and data d floats per row |
| `KnnTable.IngestedRowAt` | faiss_pg.cpp:257-259 | row j's id is ids[j] and row j's embedding is data[j*d .. j*d + d) |
| `KnnTable.IngestedLayout` | faiss_pg.cpp:222-260 | for all rows at once: \|ids\| = n, \|data\| = n * d, ids[j] is row j's id and data[j*d .. j*d + d) its embedding, in fetch order |
| `KnnTable.IngestedFirstFault` | faiss_pg.cpp:222-255 | ingestion fails iff some row is refused, and then with the fault of the first refused row |
| `KnnTable.IngestedFailureSticks` | faiss_pg.cpp:228-255 | once a prefix of the rows is refused, the whole ingestion fails with that same error |
| `KnnTable.IngestRows` | faiss_pg.cpp:216-260 | the ingestion loop returns exactly `Ingested` of the rows |
| `KnnTable.RemappedSpec` | faiss_pg.cpp:283-295 | remapping succeeds iff every label, cast to int, lies in [0, n); then the result has one entry per label and entry i is ids[label i]; otherwise the error names the first label out of range |
| `KnnTable.RemappedFailureSticks` | faiss_pg.cpp:286-292 | once a prefix of the labels fails to remap, the whole remap fails with that same error |
| `KnnTable.RemapLabels` | faiss_pg.cpp:283-295 | the remap loop returns exactly `Remapped` of the labels and ids |
| `KnnTable.KnnL2Table` | faiss_pg.cpp:167-299 | an error before the scan is returned as is; zero rows give an empty result, not an error; a refused row gives its fault; otherwise a label out of range gives its error and the result is the `int[]` of the remapped ids of the labels searched for min(k, n); every success has min(k, n) entries and each is the id of some row read |

## Findings

| source | as written | input that shows it | evidently intended | confidence | as-written member | corrected member |
|---|---|---|---|---|---|---|
| faiss_pg.cpp:130 | `(int)data.size() != n * d` multiplies two int32 values; the product overflows (undefined behaviour, in practice two's-complement wrap-around) | n = d = 65537, a query of 65537 floats and a data array of 131073 floats: 65537 * 65537 = 2^32 + 131073 wraps to 131073, the test passes and `index.add(n, data)` reads n * d floats from a 131073-float buffer | the data array holds exactly n * d floats, the product computed without overflow (e.g. in 64 bits) | medium, not executed; depends on the compiler wrapping signed overflow | `KnnFlat.DataLengthCheckWraps` | `KnnFlat.Rejection` |

The rest of the model uses the exact product (`KnnFlat.DataLengthMatches`).

## Left out

- PostgreSQL calling convention and memory: `PG_GETARG_*`, `PG_RETURN_*`, `palloc`/`pfree`, `deconstruct_array`, `construct_array`, `get_typlenbyvalalign`. An array argument is given already deconstructed (dimensions, element type, elements with NULLs); the `int[]` result is its list of elements, without the array header that `construct_array` writes.
- `ereport(ERROR, ...)` unwinding is a `Failure` result; the message text is carried only as the error's fields.
- SPI: `SPI_connect`, `SPI_execute` of `SELECT id, embedding FROM faiss_items`, `SPI_finish`. The outcome is an input (`SpiResult`): connect failed, execute failed with a code, or the rows in fetch order.
- faiss: constructing `IndexFlatL2(d)`, `add(n, data)` and `search(1, query, k, ...)` are one function parameter (`SearchEngine`) that only promises to fill k labels. Which labels, and their order by distance, are computed inside the library and are not stated; the distances buffer is not modelled.
- Floating point: float4 values are opaque bit patterns that are copied, never compared or computed with.
- KnnTable.KnnL2Table: the number of rows is taken as a mathematical integer; the `(int) nrows` truncation of a uint64 row count of 2^31 or more is not modelled.
- KnnFlat.KnnL2: the data length is compared with the exact product n * d, not with the wrapping int32 product the C++ computes (see Findings).
- PostgreSQL represents an empty array with zero dimensions, so an empty `real[]` query is refused by the 1-D check before the "query vector must not be empty" test; the model keeps both tests as the code has them and does not restrict which array arguments can arise.
