/** Documents as the retriever stores them, and their JSON sidecar form
    `[{"text": ..., "metadata": {...}}, ...]`. */
module Documents {
  import opened Wrappers

  /** A JSON value as `json.load` returns it. Object key order is not kept. */
  datatype Json =
    | JNull
    | JBool(b: bool)
    | JNum(x: real)
    | JStr(s: string)
    | JArr(items: seq<Json>)
    | JObj(fields: map<string, Json>)

  type Metadata = map<string, Json>

  /** A langchain `Document`: its text and its metadata dictionary. */
  datatype Document = Document(content: string, metadata: Metadata)

  const TextKey := "text"
  const MetadataKey := "metadata"

  /** One sidecar record, as written after a rebuild. */
  function EncodeDocument(d: Document): Json {
    JObj(map[TextKey := JStr(d.content), MetadataKey := JObj(d.metadata)])
  }

  /** The whole sidecar: one record per stored document, in store order. */
  function EncodeStore(docs: seq<Document>): (j: Json)
    ensures j.JArr? && |j.items| == |docs|
  {
    JArr(seq(|docs|, i requires 0 <= i < |docs| => EncodeDocument(docs[i])))
  }

  /** Reading one record back: its "text" value becomes the document's text and
      its "metadata" value the document's metadata.
      A record that is not an object, lacks a key, or whose text is not a string
      or metadata not an object raises in the source; that is None here. */
  function DecodeDocument(j: Json): (r: Option<Document>)
    ensures r.Some? <==> j.JObj? && TextKey in j.fields && MetadataKey in j.fields
                         && j.fields[TextKey].JStr? && j.fields[MetadataKey].JObj?
    ensures r.Some? ==> r.value.content == j.fields[TextKey].s
                        && r.value.metadata == j.fields[MetadataKey].fields
  {
    match j
    case JObj(f) =>
      if TextKey in f && MetadataKey in f && f[TextKey].JStr? && f[MetadataKey].JObj?
      then Some(Document(f[TextKey].s, f[MetadataKey].fields))
      else None
    case _ => None
  }

  /** Decodes a list of records; one bad record fails the whole list. */
  function DecodeAll(items: seq<Json>): (r: Option<seq<Document>>)
    ensures r.Some? <==> forall i :: 0 <= i < |items| ==> DecodeDocument(items[i]).Some?
    ensures r.Some? ==> |r.value| == |items|
                        && forall i :: 0 <= i < |items| ==> DecodeDocument(items[i]) == Some(r.value[i])
    decreases |items|
  {
    if |items| == 0 then Some([])
    else
      match DecodeDocument(items[0])
      case None => None
      case Some(d) =>
        match DecodeAll(items[1..])
        case None => None
        case Some(ds) => Some([d] + ds)
  }

  /** The sidecar as `load_index` in app/retrieval.py reads it, iterating over the parsed JSON:
      a list whose every record decodes gives those documents in order; an
      empty object or empty string iterates over nothing and gives an empty
      store; anything else raises while iterating or indexing. */
  function DecodeStore(j: Json): (r: Option<seq<Document>>)
    ensures r.Some? <==>
      || (j.JArr? && forall i :: 0 <= i < |j.items| ==> DecodeDocument(j.items[i]).Some?)
      || j == JObj(map[])
      || j == JStr("")
    ensures r.Some? && j.JArr? ==>
      && |r.value| == |j.items|
      && forall i :: 0 <= i < |j.items| ==> DecodeDocument(j.items[i]) == Some(r.value[i])
    ensures j == JObj(map[]) || j == JStr("") ==> r == Some([])
  {
    match j
    case JArr(items) => DecodeAll(items)
    case JObj(f) => if f == map[] then Some([]) else None
    case JStr(s) => if s == "" then Some([]) else None
    case _ => None
  }

  /** Writing the sidecar and reading it back restores every document, text
      and metadata, in the same order. */
  lemma DecodeEncode(docs: seq<Document>)
    ensures DecodeStore(EncodeStore(docs)) == Some(docs)
  {
    var j := EncodeStore(docs);
    forall i | 0 <= i < |docs|
      ensures DecodeDocument(j.items[i]) == Some(docs[i])
    {
      assert j.items[i] == EncodeDocument(docs[i]);
    }
    var r := DecodeStore(j);
    assert r.Some?;
    assert r.value == docs;
  }
}
