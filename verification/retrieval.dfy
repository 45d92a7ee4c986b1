/** The `FAISSRetriever` of app/retrieval.py as a state machine over
    (dimension, index, doc_store) together with the two files on disk.
    The embedder is a function parameter; file existence, read failures and
    file contents are inputs (Disk); the PDF folder is an input (see Ingestion). */
module Retrieval {
  import opened Wrappers
  import opened Seqs
  import opened Documents
  import opened Ingestion
  import opened VectorIndex

  /** `embedding_model.get_embeddings(text)[0]`. */
  type Embedder = string -> Vector

  /** `self.dimension`, `self.index` (None before the first load) and `self.doc_store`. */
  datatype Retriever = Retriever(dimension: nat, index: Option<Index>, docStore: seq<Document>)

  /** The persisted index file: absent, present but failing `faiss.read_index`, or readable. */
  datatype IndexFile = NoIndexFile | UnreadableIndexFile | StoredIndex(index: Index)

  /** The JSON sidecar: absent, present but failing `json.load`, or parsed. */
  datatype SidecarFile = NoSidecar | UnparsableSidecar | StoredSidecar(json: Json)

  datatype Disk = Disk(indexFile: IndexFile, sidecar: SidecarFile)

  /** The `ValueError` raised when embeddings do not have the index's width. */
  datatype BuildError = EmbeddingDimensionMismatch

  /** The retriever and the disk after an operation, and the error it raised, if any. */
  datatype Outcome = Outcome(state: Retriever, disk: Disk, error: Option<BuildError>)

  /** Row `i` is the embedding of document `i`'s text. */
  predicate RowsEmbed(rows: seq<Vector>, docs: seq<Document>, embed: Embedder) {
    |rows| == |docs| && forall i :: 0 <= i < |docs| ==> rows[i] == embed(docs[i].content)
  }

  /** `create_new_index`. A fresh empty index replaces the old one first. With
      no documents it stops there. Otherwise `doc_store` is replaced, every
      document is embedded, and a width other than `dimension` raises before
      anything is added or written; on success the rows are added and both files
      are written. */
  function CreateNewIndex(st: Retriever, disk: Disk, folder: seq<PdfFile>, embed: Embedder): (o: Outcome)
    ensures o.state.dimension == st.dimension
    ensures var docs := LoadDocuments(folder);
      o.error.Some? <==> docs != [] && exists i :: 0 <= i < |docs| && |embed(docs[i].content)| != st.dimension
    ensures LoadDocuments(folder) == [] ==>
      o == Outcome(st.(index := Some(Fresh(st.dimension))), disk, None)
    ensures o.error.Some? ==>
      o.disk == disk && o.state == st.(index := Some(Fresh(st.dimension)), docStore := LoadDocuments(folder))
    ensures var docs := LoadDocuments(folder);
      o.error.None? && docs != [] ==>
        && o.state.docStore == docs
        && o.state.index.Some?
        && o.state.index.value.dimension == st.dimension
        && RowsEmbed(o.state.index.value.rows, docs, embed)
        && o.disk == Disk(StoredIndex(o.state.index.value), StoredSidecar(EncodeStore(docs)))
  {
    var empty := Fresh(st.dimension);
    var docs := LoadDocuments(folder);
    if docs == [] then
      Outcome(st.(index := Some(empty)), disk, None)
    else
      var vectors := seq(|docs|, i requires 0 <= i < |docs| => embed(docs[i].content));
      if exists i :: 0 <= i < |docs| && |embed(docs[i].content)| != st.dimension then
        Outcome(st.(index := Some(empty), docStore := docs), disk, Some(EmbeddingDimensionMismatch))
      else
        var built := Index(st.dimension, empty.rows + vectors);
        Outcome(st.(index := Some(built), docStore := docs),
                Disk(StoredIndex(built), StoredSidecar(EncodeStore(docs))), None)
  }

  /** Running `create_new_index` again after it raised repeats the failure
      exactly: the embedder and the folder are the same, so the second call
      reaches the same state and leaves the disk alone again. */
  lemma RetryRepeatsFailure(st: Retriever, disk: Disk, folder: seq<PdfFile>, embed: Embedder)
    requires CreateNewIndex(st, disk, folder, embed).error.Some?
    ensures var o := CreateNewIndex(st, disk, folder, embed);
      CreateNewIndex(o.state, o.disk, folder, embed) == o
  {
  }

  /** `doc_store` after the sidecar step of `load_index`: untouched when there
      is no sidecar, the decoded records when it reads, None when reading raises. */
  function Restored(st: Retriever, sidecar: SidecarFile): Option<seq<Document>> {
    match sidecar
    case NoSidecar => Some(st.docStore)
    case UnparsableSidecar => None
    case StoredSidecar(j) => DecodeStore(j)
  }

  /** What `load_index` decides: serve the loaded state, or rebuild from a given
      state. `retry` marks the rebuild inside the `try`, whose failure the
      `except` answers with a second rebuild. */
  datatype Plan = Serve(state: Retriever) | Rebuild(from: Retriever, retry: bool)

  /** The decision of `load_index`. It serves exactly when the index file reads,
      the sidecar (if any) reads, and neither the index nor the restored store
      is empty; the lengths of the two are not compared. */
  function LoadPlan(st: Retriever, disk: Disk): (p: Plan)
    ensures p.Serve? <==>
      && disk.indexFile.StoredIndex?
      && Restored(st, disk.sidecar).Some?
      && |disk.indexFile.index.rows| > 0
      && |Restored(st, disk.sidecar).value| > 0
    ensures p.Serve? ==>
      p.state == st.(index := Some(disk.indexFile.index), docStore := Restored(st, disk.sidecar).value)
    ensures p.Rebuild? ==> p.from.dimension == st.dimension
    ensures p.Rebuild? ==>
      p.from.docStore == (if disk.indexFile.StoredIndex? && Restored(st, disk.sidecar).Some?
                          then Restored(st, disk.sidecar).value else st.docStore)
    ensures p.Rebuild? ==> (p.retry <==> disk.indexFile.StoredIndex? && Restored(st, disk.sidecar).Some?)
  {
    match disk.indexFile
    case NoIndexFile => Rebuild(st, false)
    case UnreadableIndexFile => Rebuild(st, false)
    case StoredIndex(ix) =>
      var loaded := st.(index := Some(ix));
      match Restored(st, disk.sidecar)
      case None => Rebuild(loaded, false)
      case Some(docs) =>
        var restored := loaded.(docStore := docs);
        if |ix.rows| == 0 || |docs| == 0 then Rebuild(restored, true) else Serve(restored)
  }

  /** `load_index`: serving leaves the disk alone and raises nothing; a rebuild
      behaves as one `create_new_index`, and its failure propagates with a fresh
      empty index, the new documents in `doc_store` and the disk untouched. */
  function LoadIndex(st: Retriever, disk: Disk, folder: seq<PdfFile>, embed: Embedder): (o: Outcome)
    ensures o.state.dimension == st.dimension
    ensures LoadPlan(st, disk).Serve? ==> o == Outcome(LoadPlan(st, disk).state, disk, None)
    ensures LoadPlan(st, disk).Rebuild? ==> o == CreateNewIndex(LoadPlan(st, disk).from, disk, folder, embed)
    ensures o.error.Some? ==>
      && o.disk == disk
      && o.state.index == Some(Fresh(st.dimension))
      && o.state.docStore == LoadDocuments(folder)
  {
    match LoadPlan(st, disk)
    case Serve(s) => Outcome(s, disk, None)
    case Rebuild(from, retry) =>
      var o := CreateNewIndex(from, disk, folder, embed);
      if retry && o.error.Some? then
        RetryRepeatsFailure(from, disk, folder, embed);
        CreateNewIndex(o.state, o.disk, folder, embed)
      else o
  }

  /** `FAISSRetriever()`: an empty retriever of the embedder's dimension, then `load_index`. */
  function Start(dimension: nat, disk: Disk, folder: seq<PdfFile>, embed: Embedder): (o: Outcome)
    ensures o.state.dimension == dimension
    ensures o.error.None? ==> o.state.index.Some?
    ensures o.error.None? && |o.state.index.value.rows| > 0 ==> |o.state.docStore| > 0
  {
    LoadIndex(Retriever(dimension, None, []), disk, folder, embed)
  }

  /** When `Start` had to rebuild and succeeded, the index rows and `doc_store`
      are aligned one to one, unless the folder gave no documents, in which case
      the index is empty. */
  lemma StartRebuildAligns(dimension: nat, disk: Disk, folder: seq<PdfFile>, embed: Embedder)
    requires LoadPlan(Retriever(dimension, None, []), disk).Rebuild?
    requires Start(dimension, disk, folder, embed).error.None?
    ensures var o := Start(dimension, disk, folder, embed);
      if LoadDocuments(folder) == [] then o.state.index == Some(Fresh(dimension))
      else RowsEmbed(o.state.index.value.rows, o.state.docStore, embed)
           && o.state.docStore == LoadDocuments(folder)
  {
  }

  /** Rebuilding and then loading what was written serves exactly the rebuilt
      index and documents, whatever state the loading retriever was in. */
  lemma ReloadAfterRebuild(st: Retriever, disk: Disk, folder: seq<PdfFile>, embed: Embedder, other: Retriever)
    requires LoadDocuments(folder) != []
    requires CreateNewIndex(st, disk, folder, embed).error.None?
    ensures var o := CreateNewIndex(st, disk, folder, embed);
      LoadPlan(other, o.disk) == Serve(other.(index := o.state.index, docStore := o.state.docStore))
  {
    DecodeEncode(LoadDocuments(folder));
  }

  /** An empty index file beside a one-document sidecar and a folder that
      yields nothing ends with an empty index beside the sidecar's document:
      the store restored from the sidecar survives the empty rebuild. */
  lemma EmptyIndexKeepsRestoredStore(st: Retriever, d: Document, folder: seq<PdfFile>, embed: Embedder)
    requires LoadDocuments(folder) == []
    ensures var disk := Disk(StoredIndex(Fresh(st.dimension)), StoredSidecar(EncodeStore([d])));
      LoadIndex(st, disk, folder, embed) ==
        Outcome(st.(index := Some(Fresh(st.dimension)), docStore := [d]), disk, None)
  {
    DecodeEncode([d]);
  }

  /** An index of five rows beside a sidecar of four documents is served as it
      is: the loader does not compare the two lengths. */
  lemma MisalignedStateIsServed(st: Retriever, v: Vector, d: Document)
    ensures var ix := Index(st.dimension, [v, v, v, v, v]);
      var disk := Disk(StoredIndex(ix), StoredSidecar(EncodeStore([d, d, d, d])));
      LoadPlan(st, disk) == Serve(st.(index := Some(ix), docStore := [d, d, d, d]))
  {
    DecodeEncode([d, d, d, d]);
  }

  /** With no index file and a folder that yields no document (no PDFs, or
      only blank or unreadable ones), the retriever starts with an empty index
      and an empty store, and nothing is written. */
  lemma EmptyCorpusStart(dimension: nat, sidecar: SidecarFile, folder: seq<PdfFile>, embed: Embedder)
    requires LoadDocuments(folder) == []
    ensures var disk := Disk(NoIndexFile, sidecar);
      Start(dimension, disk, folder, embed) == Outcome(Retriever(dimension, Some(Fresh(dimension)), []), disk, None)
  {
  }

  /** Embeddings of the wrong width make the first load fail without touching
      either file, whatever the disk held. */
  lemma StartDimensionMismatch(dimension: nat, disk: Disk, folder: seq<PdfFile>, embed: Embedder)
    requires LoadPlan(Retriever(dimension, None, []), disk).Rebuild?
    requires LoadDocuments(folder) != []
    requires forall t :: |embed(t)| != dimension
    ensures var o := Start(dimension, disk, folder, embed);
      o.error == Some(EmbeddingDimensionMismatch) && o.disk == disk
      && o.state.index == Some(Fresh(dimension)) && o.state.docStore == LoadDocuments(folder)
  {
    var docs := LoadDocuments(folder);
    assert |embed(docs[0].content)| != dimension;
  }

  /** A sidecar holding an empty JSON object reads as an empty store, so a
      retriever that already held documents drops them and rebuilds inside
      the `try`. */
  lemma EmptyObjectSidecarEmptiesStore(st: Retriever, ix: Index)
    requires |ix.rows| > 0
    ensures LoadPlan(st, Disk(StoredIndex(ix), StoredSidecar(JObj(map[])))) ==
      Rebuild(st.(index := Some(ix), docStore := []), true)
  {
  }

  /** The `score < 15` cut-off of `get_relevant_documents`. */
  const Threshold: real := 15.0

  const ScoreKey := "similarity_score"

  /** A hit is kept when its row is in the store and it is close enough. */
  predicate Keeps(n: int, h: Hit) {
    0 <= h.idx < n && h.score < Threshold
  }

  function KeepFor(n: int): Hit -> bool {
    h => Keeps(n, h)
  }

  /** The kept hits of a search answer against a store of `n` documents, in answer order. */
  function KeptHits(hits: seq<Hit>, n: int): (kept: seq<Hit>)
    ensures |kept| <= |hits|
    ensures forall h :: h in kept ==> h in hits && Keeps(n, h)
  {
    Filter(KeepFor(n), hits)
  }

  /** The kept hits are exactly the in-range, close-enough hits. */
  lemma KeptHitsMembership(hits: seq<Hit>, n: int, h: Hit)
    ensures h in KeptHits(hits, n) <==> h in hits && 0 <= h.idx < n && h.score < Threshold
  {
    if h in hits && Keeps(n, h) {
      FilterComplete(KeepFor(n), hits, h);
    }
  }

  /** Keeping hits preserves answer order: the kept hits of a longer answer
      extend the kept hits of its prefix. */
  lemma KeptHitsAppend(a: seq<Hit>, b: seq<Hit>, n: int)
    ensures KeptHits(a + b, n) == KeptHits(a, n) + KeptHits(b, n)
  {
    FilterAppend(KeepFor(n), a, b);
  }

  /** The distance the store's document `i` carries after the kept hits were
      applied in order: the last kept hit for that row wins. */
  function LastScore(kept: seq<Hit>, i: int): (r: Option<real>)
    ensures r.None? <==> forall k :: 0 <= k < |kept| ==> kept[k].idx != i
    ensures r.Some? ==> exists k :: && 0 <= k < |kept| && kept[k].idx == i && kept[k].score == r.value
                                     && forall k' :: k < k' < |kept| ==> kept[k'].idx != i
    decreases |kept|
  {
    if |kept| == 0 then None
    else if kept[|kept| - 1].idx == i then Some(kept[|kept| - 1].score)
    else LastScore(kept[..|kept| - 1], i)
  }

  /** With no row named twice, each kept hit's row carries that hit's own distance. */
  lemma {:induction false} LastScoreOfDistinct(kept: seq<Hit>, j: nat)
    requires DistinctRows(kept) && j < |kept| && kept[j].idx >= 0
    ensures LastScore(kept, kept[j].idx) == Some(kept[j].score)
    decreases |kept|
  {
    if j < |kept| - 1 {
      var init := kept[..|kept| - 1];
      assert kept[|kept| - 1].idx != kept[j].idx;
      assert init[j] == kept[j];
      LastScoreOfDistinct(init, j);
    }
  }

  /** Sets the document's "similarity_score" metadata entry to the hit's distance. */
  function WithScore(d: Document, score: real): Document {
    d.(metadata := d.metadata[ScoreKey := JNum(score)])
  }

  function Tag(d: Document, score: Option<real>): Document {
    match score
    case None => d
    case Some(x) => WithScore(d, x)
  }

  /** The store after the query loop: scores are written into the stored
      documents themselves, not into copies. */
  function TaggedStore(store: seq<Document>, kept: seq<Hit>): (r: seq<Document>)
    ensures |r| == |store|
    ensures forall i :: 0 <= i < |store| ==> r[i].content == store[i].content
    ensures forall i :: 0 <= i < |store| && (forall k :: 0 <= k < |kept| ==> kept[k].idx != i) ==>
              r[i] == store[i]
    ensures forall i :: 0 <= i < |store| && LastScore(kept, i).Some? ==>
              r[i].metadata == store[i].metadata[ScoreKey := JNum(LastScore(kept, i).value)]
  {
    seq(|store|, i requires 0 <= i < |store| => Tag(store[i], LastScore(kept, i)))
  }

  /** Filtering never makes two hits name the same row. */
  lemma {:induction false} FilterKeepsDistinct(p: Hit -> bool, s: seq<Hit>)
    requires DistinctRows(s)
    ensures DistinctRows(Filter(p, s))
    decreases |s|
  {
    if |s| > 0 {
      var tail := s[1..];
      assert DistinctRows(tail) by {
        forall a, b | 0 <= a < b < |tail| && tail[a].idx >= 0 ensures tail[a].idx != tail[b].idx {
          assert tail[a] == s[a + 1] && tail[b] == s[b + 1];
        }
      }
      FilterKeepsDistinct(p, tail);
      var rest := Filter(p, tail);
      var r := Filter(p, s);
      if p(s[0]) {
        assert r == [s[0]] + rest;
        forall a, b | 0 <= a < b < |r| && r[a].idx >= 0 ensures r[a].idx != r[b].idx {
          if a == 0 {
            assert r[b] == rest[b - 1] && rest[b - 1] in rest;
            var c :| 0 <= c < |tail| && tail[c] == r[b];
            assert r[b] == s[c + 1];
          } else {
            assert r[a] == rest[a - 1] && r[b] == rest[b - 1];
          }
        }
      } else {
        assert r == rest;
      }
    }
  }

  /** Filtering keeps distances in ascending order. */
  lemma {:induction false} FilterKeepsAscending(p: Hit -> bool, s: seq<Hit>)
    requires ScoresAscending(s)
    ensures ScoresAscending(Filter(p, s))
    decreases |s|
  {
    if |s| > 0 {
      var tail := s[1..];
      assert ScoresAscending(tail) by {
        forall a, b | 0 <= a < b < |tail| ensures tail[a].score <= tail[b].score {
          assert tail[a] == s[a + 1] && tail[b] == s[b + 1];
        }
      }
      FilterKeepsAscending(p, tail);
      var rest := Filter(p, tail);
      var r := Filter(p, s);
      if p(s[0]) {
        assert r == [s[0]] + rest;
        forall a, b | 0 <= a < b < |r| ensures r[a].score <= r[b].score {
          if a == 0 {
            assert r[b] == rest[b - 1] && rest[b - 1] in rest;
            var c :| 0 <= c < |tail| && tail[c] == r[b];
            assert r[b] == s[c + 1];
          } else {
            assert r[a] == rest[a - 1] && r[b] == rest[b - 1];
          }
        }
      } else {
        assert r == rest;
      }
    }
  }

  /** On an answer shaped like a flat-index search for TOP_K_DOCS neighbours,
      at most TOP_K_DOCS documents are kept, closest first, and every kept row
      carries the distance of its own hit. */
  lemma ShapedAnswerIsRanked(store: seq<Document>, hits: seq<Hit>, ntotal: nat)
    requires SearchShaped(hits, TopK, ntotal)
    ensures var kept := KeptHits(hits, |store|);
      && |kept| <= TopK
      && DistinctRows(kept)
      && ScoresAscending(kept)
      && forall j :: 0 <= j < |kept| ==>
           0 <= kept[j].idx < |store|
           && TaggedStore(store, kept)[kept[j].idx] == WithScore(store[kept[j].idx], kept[j].score)
  {
    var kept := KeptHits(hits, |store|);
    FilterKeepsDistinct(KeepFor(|store|), hits);
    FilterKeepsAscending(KeepFor(|store|), hits);
    forall j | 0 <= j < |kept|
      ensures 0 <= kept[j].idx < |store|
      ensures TaggedStore(store, kept)[kept[j].idx] == WithScore(store[kept[j].idx], kept[j].score)
    {
      assert kept[j] in kept;
      LastScoreOfDistinct(kept, j);
    }
  }

  /** Scores go into the stored documents themselves: when an answer names a
      row twice, both returned entries are that one document, carrying the
      later distance. */
  lemma RepeatedRowCarriesLastScore(d: Document)
    ensures var kept := KeptHits([Hit(0, 1.0), Hit(0, 2.0)], 1);
      && kept == [Hit(0, 1.0), Hit(0, 2.0)]
      && TaggedStore([d], kept)[kept[0].idx] == WithScore(d, 2.0)
  {
    var hits := [Hit(0, 1.0), Hit(0, 2.0)];
    assert hits == [hits[0]] + [hits[1]];
    KeptHitsAppend([hits[0]], [hits[1]], 1);
    FilterSingle(KeepFor(1), hits[0]);
    FilterSingle(KeepFor(1), hits[1]);
    var kept := KeptHits(hits, 1);
    assert kept[..1] == [Hit(0, 1.0)];
  }

  /** A later kept hit for a row overrides what the row carried before. */
  lemma LastScoreExtend(kept: seq<Hit>, h: Hit, i: int)
    ensures LastScore(kept + [h], i) == if h.idx == i then Some(h.score) else LastScore(kept, i)
  {
    assert (kept + [h])[..|kept|] == kept;
  }

  /** One step of the query loop: tagging row `h.idx` with `h.score` keeps the
      store equal to the original tagged by the kept hits so far. */
  lemma TagStep(orig: seq<Document>, store: seq<Document>, kept: seq<Hit>, h: Hit)
    requires |store| == |orig| && 0 <= h.idx < |orig|
    requires forall i :: 0 <= i < |orig| ==> store[i] == Tag(orig[i], LastScore(kept, i))
    ensures var next := store[h.idx := WithScore(store[h.idx], h.score)];
      forall i :: 0 <= i < |orig| ==> next[i] == Tag(orig[i], LastScore(kept + [h], i))
  {
    var next := store[h.idx := WithScore(store[h.idx], h.score)];
    forall i | 0 <= i < |orig| ensures next[i] == Tag(orig[i], LastScore(kept + [h], i)) {
      LastScoreExtend(kept, h, i);
      if i == h.idx {
        assert store[i].metadata[ScoreKey := JNum(h.score)] == orig[i].metadata[ScoreKey := JNum(h.score)];
      }
    }
  }

  /** A store equal row by row to the tagged original is the tagged store. */
  lemma StoreIsTagged(orig: seq<Document>, store: seq<Document>, kept: seq<Hit>)
    requires |store| == |orig|
    requires forall i :: 0 <= i < |orig| ==> store[i] == Tag(orig[i], LastScore(kept, i))
    ensures store == TaggedStore(orig, kept)
  {
  }

  /** `self.index is None or self.index.ntotal == 0`. */
  predicate IndexIsEmpty(st: Retriever) {
    st.index.None? || |st.index.value.rows| == 0
  }

  /** `get_relevant_documents`, given the search answer `hits`. An empty or
      missing index gives no documents and changes nothing, whatever the search
      would have said. Otherwise exactly the kept hits come back, in answer
      order, each as the stored document of its row carrying a distance below
      the threshold; the same documents in the store now carry those scores. */
  method GetRelevantDocuments(st: Retriever, hits: seq<Hit>) returns (docs: seq<Document>, after: Retriever)
    ensures IndexIsEmpty(st) ==> docs == [] && after == st
    ensures !IndexIsEmpty(st) ==>
      var kept := KeptHits(hits, |st.docStore|);
      && after == st.(docStore := TaggedStore(st.docStore, kept))
      && |docs| == |kept|
      && forall j :: 0 <= j < |docs| ==>
           && 0 <= kept[j].idx < |st.docStore|
           && docs[j] == after.docStore[kept[j].idx]
           && docs[j].content == st.docStore[kept[j].idx].content
           && ScoreKey in docs[j].metadata
           && docs[j].metadata[ScoreKey].JNum?
           && docs[j].metadata[ScoreKey].x < Threshold
  {
    if IndexIsEmpty(st) {
      return [], st;
    }
    var n := |st.docStore|;
    var store := st.docStore;
    var kept: seq<Hit> := [];
    var k := 0;
    while k < |hits|
      invariant 0 <= k <= |hits|
      invariant kept == KeptHits(hits[..k], n)
      invariant |store| == n
      invariant forall i :: 0 <= i < n ==> store[i] == Tag(st.docStore[i], LastScore(kept, i))
    {
      var h := hits[k];
      assert hits[..k + 1] == hits[..k] + [h];
      KeptHitsAppend(hits[..k], [h], n);
      FilterSingle(KeepFor(n), h);
      if 0 <= h.idx < n && h.score < Threshold {
        TagStep(st.docStore, store, kept, h);
        store := store[h.idx := WithScore(store[h.idx], h.score)];
        kept := kept + [h];
      }
      k := k + 1;
    }
    assert hits[..k] == hits;
    after := st.(docStore := store);
    StoreIsTagged(st.docStore, store, kept);
    assert forall j :: 0 <= j < |kept| ==> 0 <= kept[j].idx < n by {
      forall j | 0 <= j < |kept| ensures 0 <= kept[j].idx < n {
        assert kept[j] in kept;
      }
    }
    docs := seq(|kept|, j requires 0 <= j < |kept| => store[kept[j].idx]);
    forall j | 0 <= j < |docs|
      ensures ScoreKey in docs[j].metadata && docs[j].metadata[ScoreKey].JNum?
      ensures docs[j].metadata[ScoreKey].x < Threshold
    {
      var s := LastScore(kept, kept[j].idx);
      assert s.Some?;
      var q :| 0 <= q < |kept| && kept[q].idx == kept[j].idx && kept[q].score == s.value;
      assert kept[q] in kept;
    }
  }
}
