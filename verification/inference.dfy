/** The context selection of `generate_answer` in app/inference.py: which
    retrieved documents go into the prompt, how they are cut and joined, and
    the two fixed replies. The language model is not modelled; an answer that
    needs it is the prompt it would be given. */
module Inference {
  import opened Seqs
  import opened Text
  import opened Documents
  import opened VectorIndex
  import opened Retrieval

  const NoDocumentsReply := "I don't have enough information to answer that question."
  const NoContextReply := "I don't have enough information in the retrieved documents."

  /** Looked for in the lower-cased query. */
  const CourseKeywords := ["subject", "course", "semester", "credit"]
  const AdmissionKeywords := ["admission", "apply", "procedure", "steps", "registration"]

  /** Looked for, case-sensitively, in a document's text. */
  const CourseMarkers := ["Semester", "Course Name"]
  const AdmissionMarkers := ["admission", "application", "registration"]

  const MaxPieceLength: nat := 1000
  const ContextSeparator := "\n\n"

  const PromptHead := "You are an AI assistant for M.Tech in Applied AI at VNIT.\nYou **must answer using only the provided context**. Do not generate information outside the context.\n\n**Context:**\n"
  const PromptMiddle := "\n\n**Question:** "
  const PromptTail := "\n\n**Instructions:**\n- If the query is about **subjects/courses**, list them in an ordered format.\n- If the query is about **admission/application steps**, list the steps clearly.\n- If the answer is not in the context, say: \"I don't have enough information.\"\n- Keep the response **clear and to the point**.\n\n**Answer:**"

  /** Python's `any(w in s for w in words)`. */
  predicate ContainsAny(s: string, words: seq<string>) {
    exists k :: 0 <= k < |words| && Contains(s, words[k])
  }

  /** Which branch of the context selection a query takes. */
  datatype Topic = Courses | Admission | General

  /** Course keywords win over admission keywords; the query's case does not matter. */
  function Classify(query: string): (t: Topic)
    ensures t == Courses <==> ContainsAny(Lower(query), CourseKeywords)
    ensures t == Admission <==>
      !ContainsAny(Lower(query), CourseKeywords) && ContainsAny(Lower(query), AdmissionKeywords)
    ensures t == General <==>
      !ContainsAny(Lower(query), CourseKeywords) && !ContainsAny(Lower(query), AdmissionKeywords)
  {
    var q := Lower(query);
    if ContainsAny(q, CourseKeywords) then Courses
    else if ContainsAny(q, AdmissionKeywords) then Admission
    else General
  }

  /** Lower-casing the query first changes nothing. */
  lemma ClassifyIgnoresCase(query: string)
    ensures Classify(Lower(query)) == Classify(query)
  {
    LowerIdempotent(query);
  }

  /** A query naming both a course and admission is a course query. */
  lemma CourseWinsOverAdmission()
    ensures Classify("COURSE ADMISSION") == Courses
  {
    var q := Lower("COURSE ADMISSION");
    assert q == "course" + " admission";
    ContainsMiddle("", "course", " admission");
    assert "" + "course" + " admission" == q;
    assert Contains(q, CourseKeywords[1]);
  }

  predicate Relevant(t: Topic, d: Document) {
    match t
    case Courses => ContainsAny(d.content, CourseMarkers)
    case Admission => ContainsAny(d.content, AdmissionMarkers)
    case General => true
  }

  function RelevantFor(t: Topic): Document -> bool {
    d => Relevant(t, d)
  }

  /** The retrieved documents the query's branch keeps, in retrieval order. */
  function Selected(query: string, docs: seq<Document>): (r: seq<Document>)
    ensures |r| <= |docs|
    ensures forall d :: d in r ==> d in docs && Relevant(Classify(query), d)
  {
    Filter(RelevantFor(Classify(query)), docs)
  }

  /** Selection keeps retrieval order and repeats: the selection of a longer
      list extends the selection of its prefix, and one document is selected
      once exactly when it is relevant to the query's branch. */
  lemma SelectedAppend(query: string, a: seq<Document>, b: seq<Document>, d: Document)
    ensures Selected(query, a + b) == Selected(query, a) + Selected(query, b)
    ensures Selected(query, [d]) == if Relevant(Classify(query), d) then [d] else []
  {
    FilterAppend(RelevantFor(Classify(query)), a, b);
    FilterSingle(RelevantFor(Classify(query)), d);
  }

  /** Course queries keep exactly the documents mentioning "Semester" or
      "Course Name"; admission queries those mentioning "admission",
      "application" or "registration"; other queries keep every document in order. */
  lemma SelectedMembership(query: string, docs: seq<Document>, d: Document)
    ensures Classify(query) == Courses ==>
      (d in Selected(query, docs) <==>
         d in docs && (Contains(d.content, "Semester") || Contains(d.content, "Course Name")))
    ensures Classify(query) == Admission ==>
      (d in Selected(query, docs) <==>
         d in docs && (Contains(d.content, "admission") || Contains(d.content, "application")
                       || Contains(d.content, "registration")))
    ensures Classify(query) == General ==> Selected(query, docs) == docs
  {
    var t := Classify(query);
    if d in docs && Relevant(t, d) {
      FilterComplete(RelevantFor(t), docs, d);
    }
    if t == Courses {
      if Contains(d.content, "Semester") { assert Contains(d.content, CourseMarkers[0]); }
      if Contains(d.content, "Course Name") { assert Contains(d.content, CourseMarkers[1]); }
    }
    if t == Admission {
      if Contains(d.content, "admission") { assert Contains(d.content, AdmissionMarkers[0]); }
      if Contains(d.content, "application") { assert Contains(d.content, AdmissionMarkers[1]); }
      if Contains(d.content, "registration") { assert Contains(d.content, AdmissionMarkers[2]); }
    }
    if t == General {
      FilterKeepsAll(RelevantFor(t), docs);
    }
  }

  /** `doc.page_content[:1000]`. */
  function Piece(d: Document): string {
    Prefix(d.content, MaxPieceLength)
  }

  function Pieces(docs: seq<Document>): (ps: seq<string>)
    ensures |ps| == |docs|
    ensures forall i :: 0 <= i < |docs| ==> |ps[i]| <= MaxPieceLength && ps[i] <= docs[i].content
    ensures forall i :: 0 <= i < |docs| ==>
              |ps[i]| == if |docs[i].content| <= MaxPieceLength then |docs[i].content| else MaxPieceLength
  {
    seq(|docs|, i requires 0 <= i < |docs| => Piece(docs[i]))
  }

  /** The context handed to the model: the selected documents' first 1000
      characters, separated by blank lines. */
  function Context(query: string, docs: seq<Document>): string {
    Join(ContextSeparator, Pieces(Selected(query, docs)))
  }

  /** The context is at most 1002 characters per retrieved document. */
  lemma ContextLength(query: string, docs: seq<Document>)
    ensures |Context(query, docs)| <= |docs| * (MaxPieceLength + 2)
  {
    var sel := Selected(query, docs);
    JoinLengthBound(ContextSeparator, Pieces(sel), MaxPieceLength);
    assert |sel| * (MaxPieceLength + 2) <= |docs| * (MaxPieceLength + 2);
  }

  /** The context is blank exactly when every selected document starts with
      1000 blank characters (or is shorter and blank), including when nothing was selected. */
  lemma ContextBlankIff(query: string, docs: seq<Document>)
    ensures IsBlank(Context(query, docs)) <==>
      forall d :: d in Selected(query, docs) ==> IsBlank(Piece(d))
  {
    var sel := Selected(query, docs);
    assert IsBlank(ContextSeparator) by {
      assert ContextSeparator[0] == '\n' && ContextSeparator[1] == '\n';
    }
    JoinBlank(ContextSeparator, Pieces(sel));
    assert forall d :: d in sel ==> exists i :: 0 <= i < |sel| && sel[i] == d;
  }

  function Prompt(context: string, query: string): string {
    PromptHead + context + PromptMiddle + query + PromptTail
  }

  /** What `generate_answer` does once the documents are retrieved: a fixed
      reply, or a prompt for the model. */
  datatype Answer = Reply(message: string) | AskModel(prompt: string)

  /** No documents give the first fixed reply; a blank context gives the
      second and no prompt; otherwise the prompt carries the context and the query. */
  function SelectAnswer(query: string, docs: seq<Document>): (a: Answer)
    ensures docs == [] <==> a == Reply(NoDocumentsReply)
    ensures docs != [] ==> (a == Reply(NoContextReply) <==> IsBlank(Context(query, docs)))
    ensures a.Reply? ==> a.message == NoDocumentsReply || a.message == NoContextReply
    ensures a.AskModel? ==> Contains(a.prompt, Context(query, docs)) && Contains(a.prompt, query)
  {
    if docs == [] then Reply(NoDocumentsReply)
    else
      var context := Context(query, docs);
      if IsBlank(context) then Reply(NoContextReply)
      else
        ContainsMiddle(PromptHead, context, PromptMiddle + query + PromptTail);
        assert PromptHead + context + (PromptMiddle + query + PromptTail) == Prompt(context, query);
        ContainsMiddle(PromptHead + context + PromptMiddle, query, PromptTail);
        AskModel(Prompt(context, query))
  }

  /** Documents retrieved but none relevant to the query's branch: the second fixed reply. */
  lemma NothingSelectedMeansNoContext(query: string, docs: seq<Document>)
    requires docs != [] && Selected(query, docs) == []
    ensures SelectAnswer(query, docs) == Reply(NoContextReply)
  {
  }

  /** A course query over documents that never mention "Semester" or
      "Course Name" gets the second fixed reply, whatever else they say. */
  lemma CourseQueryWithoutCourseDocs(query: string, docs: seq<Document>)
    requires docs != [] && Classify(query) == Courses
    requires forall i :: 0 <= i < |docs| ==>
      !Contains(docs[i].content, "Semester") && !Contains(docs[i].content, "Course Name")
    ensures SelectAnswer(query, docs) == Reply(NoContextReply)
  {
    forall i | 0 <= i < |docs| ensures !Relevant(Courses, docs[i]) {
      assert CourseMarkers == ["Semester", "Course Name"];
    }
    FilterDropsAll(RelevantFor(Courses), docs);
  }

  /** `generate_answer` up to the model call: retrieve with the search answer
      `hits`, then select. An empty index, or a search with nothing kept, gives
      the first fixed reply. */
  method GenerateAnswer(query: string, st: Retriever, hits: seq<Hit>) returns (a: Answer, after: Retriever)
    ensures IndexIsEmpty(st) ==> a == Reply(NoDocumentsReply) && after == st
    ensures !IndexIsEmpty(st) && KeptHits(hits, |st.docStore|) == [] ==> a == Reply(NoDocumentsReply)
    ensures !IndexIsEmpty(st) && KeptHits(hits, |st.docStore|) != [] ==> a != Reply(NoDocumentsReply)
    ensures !IndexIsEmpty(st) ==>
      var kept := KeptHits(hits, |st.docStore|);
      && (forall j :: 0 <= j < |kept| ==> 0 <= kept[j].idx < |st.docStore|)
      && after == st.(docStore := TaggedStore(st.docStore, kept))
      && a == SelectAnswer(query, seq(|kept|, j requires 0 <= j < |kept| && 0 <= kept[j].idx < |after.docStore| => after.docStore[kept[j].idx]))
  {
    var docs;
    docs, after := GetRelevantDocuments(st, hits);
    a := SelectAnswer(query, docs);
    if !IndexIsEmpty(st) {
      var kept := KeptHits(hits, |st.docStore|);
      var expected := seq(|kept|, j requires 0 <= j < |kept| && 0 <= kept[j].idx < |after.docStore| => after.docStore[kept[j].idx]);
      assert |docs| == |expected|;
      forall j | 0 <= j < |docs| ensures docs[j] == expected[j] {
      }
      assert docs == expected;
    }
  }
}
