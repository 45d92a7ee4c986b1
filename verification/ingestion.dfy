/** Turning a folder of PDFs into documents (`extract_text_from_pdf` and
    `load_documents` in app/retrieval.py). pdfplumber is abstracted to what it
    returns: per page an optional text and a list of tables of optional cells. */
module Ingestion {
  import opened Wrappers
  import opened Seqs
  import opened Text
  import opened Documents

  type Row = seq<Option<string>>
  type Table = seq<Row>

  /** What `page.extract_text()` and `page.extract_tables()` give for one page. */
  datatype Page = Page(text: Option<string>, tables: seq<Table>)

  /** One directory entry. `pages` is None when opening or parsing the file raises. */
  datatype PdfFile = PdfFile(name: string, pages: Option<seq<Page>>)

  const CellSeparator := " | "
  const RowSeparator := "\n"
  const TableHeader := "\nTABLE DATA:\n"
  const PageBreak := "\n\n"
  const PdfSuffix := ".pdf"
  const SourceKey := "source"
  const TypeKey := "type"
  const PdfType := "pdf"

  /** A missing cell renders as the empty string. */
  function CellText(cell: Option<string>): string {
    cell.GetOr("")
  }

  function RenderRow(row: Row): string {
    Join(CellSeparator, seq(|row|, i requires 0 <= i < |row| => CellText(row[i])))
  }

  function RenderTable(t: Table): string {
    Join(RowSeparator, seq(|t|, i requires 0 <= i < |t| => RenderRow(t[i])))
  }

  /** The block appended to the document text for each table. */
  function TableBlock(t: Table): string {
    TableHeader + RenderTable(t) + "\n"
  }

  /** One page's contribution: its text plus a blank line when the text is
      non-empty, then one block per table. */
  function PageText(p: Page): string {
    (if p.text.Some? && p.text.value != "" then p.text.value + PageBreak else "")
    + Concat(seq(|p.tables|, i requires 0 <= i < |p.tables| => TableBlock(p.tables[i])))
  }

  /** The text of a whole PDF: the pages' contributions in page order. */
  function ExtractText(pages: seq<Page>): string {
    Concat(seq(|pages|, i requires 0 <= i < |pages| => PageText(pages[i])))
  }

  /** Rows are rendered in order and never merged: when no cell holds a line
      break, splitting a rendered table at line breaks gives back its rows. */
  lemma RenderTableLines(t: Table)
    requires |t| >= 1
    requires forall r, c :: 0 <= r < |t| && 0 <= c < |t[r]| ==> '\n' !in CellText(t[r][c])
    ensures SplitOn('\n', RenderTable(t)) == seq(|t|, i requires 0 <= i < |t| => RenderRow(t[i]))
  {
    var rows := seq(|t|, i requires 0 <= i < |t| => RenderRow(t[i]));
    forall r | 0 <= r < |t| ensures '\n' !in rows[r] {
      var cells := seq(|t[r]|, i requires 0 <= i < |t[r]| => CellText(t[r][i]));
      JoinAvoids('\n', CellSeparator, cells);
    }
    assert RowSeparator == ['\n'];
    SplitJoin('\n', rows);
  }

  /** A row of cells renders with " | " between cells and None as "". */
  lemma RenderRowExample()
    ensures RenderRow([Some("Semester"), None, Some("4")]) == "Semester |  | 4"
  {
    var cells := seq(3, i requires 0 <= i < 3 => CellText([Some("Semester"), None, Some("4")][i]));
    assert cells == ["Semester", "", "4"];
    assert cells[1..] == ["", "4"];
    assert cells[1..][1..] == ["4"];
    assert Join(CellSeparator, ["4"]) == "4";
    assert Join(CellSeparator, ["", "4"]) == "" + " | " + "4";
    assert Join(CellSeparator, cells) == "Semester" + " | " + (" | " + "4");
  }

  /** The text of a PDF is the text of its first pages followed by the text of the rest. */
  lemma ExtractTextAppend(a: seq<Page>, b: seq<Page>)
    ensures ExtractText(a + b) == ExtractText(a) + ExtractText(b)
  {
    var pa := seq(|a|, i requires 0 <= i < |a| => PageText(a[i]));
    var pb := seq(|b|, i requires 0 <= i < |b| => PageText(b[i]));
    var ab := a + b;
    assert seq(|ab|, i requires 0 <= i < |ab| => PageText(ab[i])) == pa + pb;
    ConcatAppend(pa, pb);
  }

  /** A page with neither text nor tables contributes nothing. */
  lemma EmptyPageContributesNothing(p: Page)
    requires (p.text.None? || p.text.value == "") && p.tables == []
    ensures PageText(p) == ""
  {
  }

  /** A PDF with at least one table on some page is never treated as blank:
      the table header itself is visible text. */
  lemma TableMakesTextNonBlank(pages: seq<Page>, k: nat)
    requires k < |pages| && |pages[k].tables| > 0
    ensures !IsBlank(ExtractText(pages))
  {
    var ps := seq(|pages|, i requires 0 <= i < |pages| => PageText(pages[i]));
    var p := pages[k];
    var blocks := seq(|p.tables|, i requires 0 <= i < |p.tables| => TableBlock(p.tables[i]));
    var lead := if p.text.Some? && p.text.value != "" then p.text.value + PageBreak else "";
    assert TableBlock(p.tables[0])[1] == 'T';
    assert !IsBlank(blocks[0]);
    ConcatBlank(blocks);
    BlankAppend(lead, Concat(blocks));
    assert !IsBlank(ps[k]);
    ConcatBlank(ps);
  }

  /** A directory entry yields a document: a `.pdf` name, extraction did not
      raise, and the extracted text is not blank. */
  predicate Yields(f: PdfFile) {
    EndsWith(f.name, PdfSuffix) && f.pages.Some? && !IsBlank(ExtractText(f.pages.value))
  }

  function PdfMetadata(name: string): Metadata {
    map[SourceKey := JStr(name), TypeKey := JStr(PdfType)]
  }

  function MakeDocument(f: PdfFile): Document
    requires f.pages.Some?
  {
    Document(ExtractText(f.pages.value), PdfMetadata(f.name))
  }

  /** `load_documents`: one document per yielding entry, in listing order.
      Every document has non-blank text and metadata exactly
      {"source": its file name, "type": "pdf"}, the name ending in ".pdf". */
  function LoadDocuments(folder: seq<PdfFile>): (docs: seq<Document>)
    ensures |docs| <= |folder|
    ensures forall i :: 0 <= i < |docs| ==>
              && !IsBlank(docs[i].content)
              && docs[i].metadata.Keys == {SourceKey, TypeKey}
              && docs[i].metadata[TypeKey] == JStr(PdfType)
              && docs[i].metadata[SourceKey].JStr?
              && EndsWith(docs[i].metadata[SourceKey].s, PdfSuffix)
  {
    var picked := Filter(Yields, folder);
    assert forall i :: 0 <= i < |picked| ==> Yields(picked[i]) by {
      forall i | 0 <= i < |picked| ensures Yields(picked[i]) {
        assert picked[i] in picked;
      }
    }
    seq(|picked|, i requires 0 <= i < |picked| => MakeDocument(picked[i]))
  }

  /** A document comes out exactly when some yielding entry produced it. */
  lemma LoadDocumentsMembership(folder: seq<PdfFile>, d: Document)
    ensures d in LoadDocuments(folder) <==> exists f :: f in folder && Yields(f) && d == MakeDocument(f)
  {
    var picked := Filter(Yields, folder);
    var docs := LoadDocuments(folder);
    if d in docs {
      var i :| 0 <= i < |docs| && docs[i] == d;
      assert picked[i] in picked;
      assert d == MakeDocument(picked[i]);
    }
    if exists f :: f in folder && Yields(f) && d == MakeDocument(f) {
      var f :| f in folder && Yields(f) && d == MakeDocument(f);
      FilterComplete(Yields, folder, f);
      var i :| 0 <= i < |picked| && picked[i] == f;
      assert docs[i] == d;
    }
  }

  /** Listing order is kept: the documents of a listing are those of its first
      entries followed by those of the rest. */
  lemma LoadDocumentsAppend(a: seq<PdfFile>, b: seq<PdfFile>)
    ensures LoadDocuments(a + b) == LoadDocuments(a) + LoadDocuments(b)
  {
    FilterAppend(Yields, a, b);
  }

  /** A PDF that holds a table always yields a document. */
  lemma TablePdfYields(f: PdfFile, k: nat)
    requires EndsWith(f.name, PdfSuffix) && f.pages.Some?
    requires k < |f.pages.value| && |f.pages.value[k].tables| > 0
    ensures MakeDocument(f) in LoadDocuments([f])
  {
    TableMakesTextNonBlank(f.pages.value, k);
    LoadDocumentsMembership([f], MakeDocument(f));
  }
}
