/** The one call into faiss: an exact L2 index built over the dataset and
    searched once. Its ranking is computed inside the library and is not
    modelled; what this code relies on is that it fills a label buffer of k
    entries. */
module FaissSearch {
  import opened PgTypes

  /** A search that, given the n rows of dimension d stored row-major, one
      query and k, fills exactly k labels. */
  ghost predicate FillsLabelBuffer(search: (seq<Float4>, int, int, seq<Float4>, int) -> seq<Int64>)
  {
    forall data, n, d, query, k :: 0 <= k ==> |search(data, n, d, query, k)| == k
  }

  /** faiss::IndexFlatL2 constructed with d, given the data with add(n, ...),
      then search(1, query, k, ...). */
  type SearchEngine = search: (seq<Float4>, int, int, seq<Float4>, int) -> seq<Int64>
    | FillsLabelBuffer(search)
    witness (data: seq<Float4>, n: int, d: int, query: seq<Float4>, k: int) =>
      seq(if k < 0 then 0 else k, _ => -1)

  /** The k actually searched for: `if (k > n) k = n;` leaves k at min(k, n). */
  function ClampedK(k: Int32, n: int): (r: Int32)
    requires 0 < k && 0 < n
    ensures 1 <= r && r as int <= n && r <= k
    ensures r == k || r as int == n
  {
    if k as int > n then n as Int32 else k
  }

  /** Row-major layout of the dataset: row j of m rows of d floats ends within m * d. */
  lemma {:induction false} RowEndWithin(j: nat, m: nat, d: nat)
    requires j < m
    ensures j * d + d <= m * d
    decreases m
  {
    if j + 1 < m {
      RowEndWithin(j, m - 1, d);
      assert m * d == (m - 1) * d + d;
    } else {
      assert m * d == j * d + d;
    }
  }

  /** Appending a block of floats to a buffer leaves every slice of its length
      that ends inside the buffer unchanged, and puts the block right at
      the buffer's old end. */
  lemma AppendedSlice(data: seq<Float4>, emb: seq<Float4>, lo: nat)
    requires lo + |emb| <= |data| || lo == |data|
    ensures (data + emb)[lo .. lo + |emb|] == if lo < |data| then data[lo .. lo + |emb|] else emb
  {
  }
}
