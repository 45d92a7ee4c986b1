/** The FAISS `IndexFlatL2` as the retriever sees it: a fixed dimension and an
    ordered list of rows. Search itself is an oracle whose answer is a list of
    (row, distance) hits; what FAISS promises about that answer is SearchShaped. */
module VectorIndex {

  type Vector = seq<real>

  /** `ntotal` is the number of rows. */
  datatype Index = Index(dimension: nat, rows: seq<Vector>)

  /** `faiss.IndexFlatL2(dimension)`. */
  function Fresh(dimension: nat): Index {
    Index(dimension, [])
  }

  /** One entry of a search answer: a row label (-1 pads a short answer) and
      its squared L2 distance. */
  datatype Hit = Hit(idx: int, score: real)

  /** `TOP_K_DOCS` in app/config.py. */
  const TopK: nat := 4

  /** No two hits with a real row label name the same row. */
  predicate DistinctRows(hits: seq<Hit>) {
    forall a, b :: 0 <= a < b < |hits| && hits[a].idx >= 0 ==> hits[a].idx != hits[b].idx
  }

  /** Distances never decrease along the answer. */
  predicate ScoresAscending(hits: seq<Hit>) {
    forall a, b :: 0 <= a < b < |hits| ==> hits[a].score <= hits[b].score
  }

  /** What an exact flat-index search for `k` neighbours of an index with
      `ntotal` rows returns: `k` entries, each a row label or -1, no row twice,
      closest first. */
  predicate SearchShaped(hits: seq<Hit>, k: nat, ntotal: nat) {
    && |hits| == k
    && (forall a :: 0 <= a < |hits| ==> hits[a].idx == -1 || 0 <= hits[a].idx < ntotal)
    && DistinctRows(hits)
    && ScoresAscending(hits)
  }
}
