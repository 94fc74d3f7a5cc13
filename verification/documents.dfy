/** LangChain's `Document` as the assistant uses it: the text of a chunk and
    a string-keyed metadata dictionary. The code reads and writes only the
    string-valued keys `source` and `id`; values it never inspects (the PDF
    loader's integer `page`, say) are kept here as strings. */
module Documents {

  datatype Document = Document(pageContent: string, metadata: map<string, string>)

  /** `doc.metadata.get(key, '')`. */
  function MetaOrEmpty(d: Document, key: string): (v: string)
    ensures key in d.metadata ==> v == d.metadata[key]
    ensures key !in d.metadata ==> v == ""
  {
    if key in d.metadata then d.metadata[key] else ""
  }

  /** The page contents of a list of documents, in order. */
  function Contents(docs: seq<Document>): (cs: seq<string>)
    ensures |cs| == |docs|
    ensures forall i :: 0 <= i < |docs| ==> cs[i] == docs[i].pageContent
  {
    seq(|docs|, i requires 0 <= i < |docs| => docs[i].pageContent)
  }
}
