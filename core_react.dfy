/** The text `retrieve_context_info` of backend/core-react.py hands to the
    agent: one line per retrieved document, numbered from 0 in retrieval
    order. Building the vector stores from the environment is not part of
    this model; the combined retriever is a parameter. */
module CoreReact {
  import opened Strings
  import opened Retrieval

  /** The line the three `+=` of one iteration append for document `i`,
      without its newline. */
  function DocumentLine(i: nat, d: Document): string {
    "Document " + NatToString(i) + " page_content:" + d.pageContent
  }

  /** The lines for a whole result, in order. */
  function DocumentLines(docs: seq<Document>): seq<string> {
    seq(|docs|, i requires 0 <= i < |docs| => DocumentLine(i, docs[i]))
  }

  /** The text for a whole result: every document's line, each ended by a
      newline. */
  function ContextText(docs: seq<Document>): string {
    Terminated(DocumentLines(docs))
  }

  /** No documents, no text. */
  lemma ContextTextEmpty()
    ensures ContextText([]) == ""
  {
    assert DocumentLines([]) == [];
  }

  /** Read back at newlines, the text of documents whose content is one
      line gives the numbered lines in document order, then the empty piece
      after the last newline. */
  lemma ContextTextLines(docs: seq<Document>)
    requires forall i :: 0 <= i < |docs| ==> '\n' !in docs[i].pageContent
    ensures Split(ContextText(docs), '\n') == DocumentLines(docs) + [""]
  {
    var lines := DocumentLines(docs);
    forall i | 0 <= i < |lines|
      ensures '\n' !in lines[i]
    {
      var n := NatToString(i);
      assert forall k :: 0 <= k < |n| ==> '0' <= n[k] <= '9';
      assert lines[i] == "Document " + n + " page_content:" + docs[i].pageContent;
    }
    TerminatedReadsBack(lines);
  }

  /** The three appends of one iteration add the document's line and its
      newline. */
  lemma DocumentLineAppended(f: string, i: nat, d: Document)
    ensures f + ("Document " + NatToString(i) + " page_content:") + d.pageContent + "\n"
            == f + DocumentLine(i, d) + "\n"
  {
  }

  /** The loop of `retrieve_context_info` over the combined result of
      `retriever` for `query`. */
  method RetrieveContextInfo(retriever: CombinedRetriever, query: string) returns (rdocs: string)
    ensures rdocs == ContextText(Combined(retriever.retrievers, query))
  {
    var docs := retriever.Invoke(query);
    rdocs := "";
    ghost var lines: seq<string> := [];
    var i := 0;
    while i < |docs|
      invariant 0 <= i <= |docs| && |lines| == i
      invariant forall j :: 0 <= j < i ==> lines[j] == DocumentLine(j, docs[j])
      invariant rdocs == Terminated(lines)
    {
      var document := docs[i];
      DocumentLineAppended(rdocs, i, document);
      TerminatedAppend(lines, DocumentLine(i, document));
      rdocs := rdocs + ("Document " + NatToString(i) + " page_content:");
      rdocs := rdocs + document.pageContent;
      rdocs := rdocs + "\n";
      lines := lines + [DocumentLine(i, document)];
      i := i + 1;
    }
    assert lines == DocumentLines(docs);
  }
}
