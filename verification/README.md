# ragbot retrieval core, modelled in Dafny

This project models the retrieval core of the ragbot question-answering service. The core lives in `FAISSRetriever` (app/retrieval.py) and in the context-selection step of `generate_answer` (app/inference.py). It covers:

- the retriever's lifecycle as a state machine over the state `(dimension, index, doc_store)` and the two persisted files. `load_index` decides whether to serve the persisted state or rebuild it. `create_new_index` rebuilds from the PDF folder.
- the query path. `get_relevant_documents` filters the FAISS answer by row range and by the distance threshold 15. It writes each kept distance into the stored document's metadata.
- the ingestion text shaping: tables become `" | "`/`"\n"` text under a `TABLE DATA:` header, pages are concatenated, only `.pdf` names are read and blank texts are dropped.
- the context selection of `generate_answer`:
  - keyword routing on the lower-cased query (course keywords win);
  - case-sensitive marker filtering of documents;
  - 1000-character pieces joined by blank lines;
  - the two fixed replies.

External libraries are oracles:
- The embedder is a function parameter `string -> seq<real>`.
- A FAISS search answer is an arbitrary list of `(row, distance)` hits. `SearchShaped` states what an exact flat index promises about it.
- pdfplumber is replaced by its output: pages of optional text plus tables of optional cells.
- The disk is an input. The index file may be absent, unreadable or readable. The sidecar may be absent, unparsable or parsed JSON.

Modules:
- `Wrappers`: Option.
- `Seqs`: ordered filtering.
- `Text`: Python string operations (`strip` blankness, `join`, `split`, `in`, `lower`, slicing).
- `Documents`: documents and the JSON sidecar.
- `Ingestion`: PDF text shaping and `load_documents`.
- `VectorIndex`: the index and search hits.
- `Retrieval`: the retriever.
- `Inference`: context selection.

## Behaviour worth knowing

- `load_index` checks only for emptiness (app/retrieval.py:38). An index of N > 0 rows beside a sidecar of M > 0 documents is served as it is, even when N ≠ M. `MisalignedStateIsServed` shows this for 5 rows beside 4 documents. Queries on such a state never raise: hits outside the store are skipped. An in-range hit returns the sidecar's document at that position, which need not be the document that row was embedded from.
- Line 35 iterates over whatever the sidecar holds. An empty JSON object or empty string therefore reads as an empty store, which then triggers a rebuild (`EmptyObjectSidecarEmptiesStore`).
- `similarity_score` is written into the document held in `doc_store`, not into a copy (app/retrieval.py:158-159). The returned entries are those same documents. If an answer names a row twice, both entries carry the later distance (`RepeatedRowCarriesLastScore`). An exact flat-index answer never names a row twice.
- A dimension mismatch writes nothing to disk. But the in-memory index has already been replaced by a fresh empty one, and `doc_store` by the new documents (app/retrieval.py:96, 105). The prior in-memory state is not kept.
- A rebuild at line 40 that fails is caught by the `except` at line 41, which rebuilds once more (line 43). With a deterministic embedder the second attempt repeats the failure exactly (`RetryRepeatsFailure`), and the error leaves `load_index`.
- Ragged embeddings make `np.array` raise a `ValueError` at line 118, also before any add or write. The model folds this into the same mismatch error.

## Model

| member | source | states |
|---|---|---|
| Documents.DecodeDocument | app/retrieval.py:35 | a sidecar record reads back iff it is an object with a string `text` and an object `metadata`; the document takes exactly those two values |
| Documents.DecodeAll | app/retrieval.py:35 | a list of records reads back iff every record does; the result has one document per record, in order |
| Documents.DecodeStore | app/retrieval.py:32-35 | the sidecar reads iff it is a JSON list whose every record decodes, or an empty object or empty string (which iterate over nothing); a list gives one document per record in order, the empty cases an empty store |
| Documents.EncodeStore | app/retrieval.py:133-134 | the sidecar written after a rebuild is a list with one record per stored document |
| Documents.DecodeEncode | app/retrieval.py:133-134 | reading back (line 35) the sidecar written at line 134 restores every document's text and metadata in order |
| Ingestion.RenderTableLines | app/retrieval.py:60 | when no cell holds a line break, splitting a rendered table at line breaks gives back its rendered rows, in order: rows are joined by "\n" and never merged |
| Ingestion.RenderRowExample | app/retrieval.py:60 | cells are joined by " \| " and a None cell renders as "" |
| Ingestion.ExtractTextAppend | app/retrieval.py:50-62 | a PDF's text is its pages' contributions concatenated in page order |
| Ingestion.EmptyPageContributesNothing | app/retrieval.py:53-62 | a page with no or empty text and no tables adds nothing (no stray blank line) |
| Ingestion.TableMakesTextNonBlank | app/retrieval.py:57-64 | a PDF with a table on any page never has blank text, because each table adds a "TABLE DATA:" header |
| Ingestion.LoadDocuments | app/retrieval.py:69-92 | each document has non-blank text and metadata exactly {"source": a name ending in ".pdf", "type": "pdf"}; at most one document per entry |
| Ingestion.LoadDocumentsMembership | app/retrieval.py:72-83 | a document is produced iff some listed entry has a ".pdf" name, extracts without raising, and has non-blank text |
| Ingestion.LoadDocumentsAppend | app/retrieval.py:72-83 | documents follow listing order: a listing's documents are its first part's followed by the rest's |
| Ingestion.TablePdfYields | app/retrieval.py:57-83 | a readable ".pdf" file holding a table always yields a document |
| Retrieval.CreateNewIndex | app/retrieval.py:94-137 | the build fails iff there are documents and one embedding's width differs from the dimension; then nothing is written, the index is fresh and empty, and doc_store is the new documents; an empty corpus leaves doc_store and disk unchanged with an empty index; on success row i is the embedding of document i, doc_store is the documents, and both files hold them |
| Retrieval.RetryRepeatsFailure | app/retrieval.py:38-43 | rebuilding again after a failed rebuild reaches the same state, leaves the disk alone and fails the same way |
| Retrieval.LoadPlan | app/retrieval.py:24-46 | the persisted state is served iff the index file reads, the sidecar (if present) reads, the index has rows and the restored doc_store is non-empty; a missing sidecar keeps the current doc_store; row count and store length are never compared; a rebuild starts from the store line 35 restored, or the current one when there is no sidecar or a read failed; only the rebuild after a successful read (line 40) is retried by the `except` |
| Retrieval.LoadIndex | app/retrieval.py:24-46 | serving raises nothing and leaves the disk alone; any rebuild path ends as one create_new_index; a failure propagates with the disk untouched, a fresh empty index and the new documents in doc_store |
| Retrieval.Start | app/retrieval.py:14-22 | after a successful start the index exists, and a non-empty index comes with a non-empty doc_store |
| Retrieval.StartRebuildAligns | app/retrieval.py:104-126 | when start rebuilds successfully, index rows are the embeddings of doc_store's documents one to one (or the index is empty for an empty corpus) |
| Retrieval.ReloadAfterRebuild | app/retrieval.py:126-134 | loading (lines 26-38) the files a successful rebuild wrote decides to serve exactly the rebuilt index and doc_store, from any prior state; LoadIndex then raises nothing and writes nothing |
| Retrieval.EmptyObjectSidecarEmptiesStore | app/retrieval.py:32-40 | an empty-object sidecar beside a non-empty index empties doc_store and leads to the rebuild inside the `try`, whatever doc_store held before |
| Retrieval.EmptyIndexKeepsRestoredStore | app/retrieval.py:32-40 | a 0-row index beside a one-document sidecar, with a folder yielding nothing, ends with an empty index beside that document, not an empty store |
| Retrieval.MisalignedStateIsServed | app/retrieval.py:38 | a 5-row index beside a 4-document sidecar is served, not rebuilt |
| Retrieval.EmptyCorpusStart | app/retrieval.py:96-102 | no index file and a folder yielding no document (no PDFs, or only blank or unreadable ones): the retriever starts with an empty index and empty doc_store, and nothing is written |
| Retrieval.StartDimensionMismatch | app/retrieval.py:118-123 | embeddings of the wrong width make a rebuilding start fail with both files untouched |
| Retrieval.KeptHits | app/retrieval.py:156-157 | kept hits are hits of the answer that are in range and below 15 |
| Retrieval.KeptHitsMembership | app/retrieval.py:156-157 | a hit is kept iff 0 <= idx < len(doc_store) and score < 15; negative and too-large rows are skipped |
| Retrieval.KeptHitsAppend | app/retrieval.py:155-160 | kept hits keep answer order |
| Retrieval.LastScore | app/retrieval.py:156-159 | a stored row carries a score iff some kept hit names it, and that score is the distance of the last kept hit naming that row |
| Retrieval.LastScoreOfDistinct | app/retrieval.py:158-159 | when no row is named twice, each kept row carries its own hit's distance |
| Retrieval.TaggedStore | app/retrieval.py:158-159 | tagging keeps the store length and every text; rows no kept hit names are unchanged; a named row changes only its `similarity_score` key, set to its last kept distance |
| Retrieval.ShapedAnswerIsRanked | app/retrieval.py:153-160 | on a flat-index answer for TOP_K_DOCS = 4, at most 4 documents come back, closest first, with no row twice, each tagged with its own distance |
| Retrieval.RepeatedRowCarriesLastScore | app/retrieval.py:156-160 | a row named twice is tagged with the later distance, because the stored document itself is updated |
| Retrieval.GetRelevantDocuments | app/retrieval.py:139-168 | an empty or missing index returns [] and changes nothing; otherwise exactly the kept hits come back in order, each the stored document of its row with its text unchanged and a similarity_score below 15; the stored documents carry the same scores |
| Inference.Classify | app/inference.py:50-58 | a query is a course query iff its lower-cased form has a course keyword; an admission query iff it has no course keyword but has an admission keyword; otherwise general |
| Inference.ClassifyIgnoresCase | app/inference.py:50 | lower-casing the query first does not change its branch |
| Inference.CourseWinsOverAdmission | app/inference.py:52-58 | "COURSE ADMISSION" takes the course branch: course keywords take precedence and the query's case is ignored |
| Inference.Selected | app/inference.py:52-66 | the selected documents are retrieved documents relevant to the query's branch |
| Inference.SelectedAppend | app/inference.py:54-63 | the course and admission selections keep retrieval order and repeats: selecting from a list is selecting from its first part followed by its rest, and a single document is selected once iff it is relevant to the branch |
| Inference.SelectedMembership | app/inference.py:52-66 | course branch keeps exactly the documents containing "Semester" or "Course Name"; admission branch those containing "admission", "application" or "registration"; otherwise all documents in order |
| Inference.Pieces | app/inference.py:55 | each piece is the prefix of its document's text of exactly min(length, 1000) characters |
| Inference.ContextLength | app/inference.py:54-66 | the context is at most 1002 characters per retrieved document |
| Inference.ContextBlankIff | app/inference.py:54-69 | the context is blank iff every selected document's first 1000 characters are blank, including when nothing is selected |
| Inference.SelectAnswer | app/inference.py:46-88 | no documents give exactly the first fixed reply; otherwise a blank context gives exactly the second and no prompt; a prompt contains both the context and the query |
| Inference.NothingSelectedMeansNoContext | app/inference.py:68-69 | documents retrieved but none selected gives the second fixed reply |
| Inference.CourseQueryWithoutCourseDocs | app/inference.py:52-69 | a course query over documents without "Semester"/"Course Name" gives the second fixed reply |
| Inference.GenerateAnswer | app/inference.py:38-69 | an empty index, or a search with nothing kept, gives the first fixed reply and an empty index changes nothing; otherwise the store is tagged in place, the answer is the selection over the kept rows' stored documents in order, and it is never the first fixed reply without asking the model |

## Left out

- FAISS internals are not modelled: L2 distance computation, ordering of the search and the binary index format. A search answer is an input; `SearchShaped` describes it.
- The float32 rounding of `astype("float32")` is not modelled. Rows are the embedder's values as reals.
- The embedding model is a function parameter, and its dimension is the `dimension` input of `Start`.
- The loader never compares a loaded index's own dimension with the embedder's. A later search with mismatched widths would fail inside FAISS, which is not modelled.
- pdfplumber parsing, `os.listdir`, `os.makedirs`, file opening and JSON text encoding are I/O. Their results are inputs, and JSON object key order is not kept.
- Failures while writing either file are not modelled. Writing is assumed to succeed, so a rebuild cannot end with only one file rewritten.
- Exceptions inside `create_new_index` other than the dimension mismatch are not modelled (for example, the embedder raising).
- Coercions that the `Document` class may apply to sidecar values (for example, a number given as text) are not modelled. Such records are treated as failing to read.
- `print` logging is not modelled.
- `LLMInference` and `llm.generate` are model loading and sampling. An answer that needs the model is its prompt (`AskModel`).
- app/main.py, frontend/app.py and app/config.py paths are HTTP, UI and configuration. `TOP_K_DOCS` = 4 is the constant `TopK`.
- The module-level singletons and any concurrency are not modelled. Nothing in the code runs concurrently.
- Inference.Classify: only ASCII letters are lower-cased. For the ASCII keywords used here this picks the same branch as Python's full `str.lower`: the only non-ASCII characters that lower-case into ASCII letters are the Kelvin sign (to "k") and "İ" (to "i" followed by U+0307), and neither can complete a keyword.
