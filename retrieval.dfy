/** The `CombinedRetriever` of backend/core.py (repeated in
    backend/core-react.py, apart from one commented-out line): a retriever that asks each of its retrievers in
    turn and returns all of their documents, in order. A retriever is
    modelled as the function from a query to the documents its `invoke`
    returns; the vector stores behind them are not part of this model. */
module Retrieval {
  import opened Common

  /** A LangChain document: its text and its metadata. */
  datatype Document = Document(pageContent: string, metadata: map<string, string>)

  /** What `retriever.invoke(query)` returns, for each query. */
  type Retriever = string -> seq<Document>

  /** The documents of all retrievers for `query`, retriever after
      retriever, each retriever's documents in its own order. */
  function Combined(retrievers: seq<Retriever>, query: string): seq<Document>
    decreases |retrievers|
  {
    if retrievers == [] then []
    else Combined(retrievers[..|retrievers| - 1], query) + retrievers[|retrievers| - 1](query)
  }

  /** How many documents the retrievers return for `query` together. */
  function TotalCount(retrievers: seq<Retriever>, query: string): nat
    decreases |retrievers|
  {
    if retrievers == [] then 0
    else TotalCount(retrievers[..|retrievers| - 1], query) + |retrievers[|retrievers| - 1](query)|
  }

  /** Combining two groups of retrievers concatenates their results. */
  lemma {:induction false} CombinedAppend(a: seq<Retriever>, b: seq<Retriever>, query: string)
    ensures Combined(a + b, query) == Combined(a, query) + Combined(b, query)
    decreases |b|
  {
    if b == [] {
      assert a + b == a;
    } else {
      var init := b[..|b| - 1];
      assert (a + b)[..|a + b| - 1] == a + init;
      assert (a + b)[|a + b| - 1] == b[|b| - 1];
      CombinedAppend(a, init, query);
    }
  }

  /** Nothing is dropped or merged: the combined result has exactly as many
      documents as the retrievers return, duplicates included. */
  lemma {:induction false} CombinedCount(retrievers: seq<Retriever>, query: string)
    ensures |Combined(retrievers, query)| == TotalCount(retrievers, query)
    decreases |retrievers|
  {
    if retrievers != [] {
      CombinedCount(retrievers[..|retrievers| - 1], query);
    }
  }

  /** The `j`-th document of retriever `k` sits in the combined result right
      after the documents of the retrievers before `k`. */
  lemma CombinedAt(retrievers: seq<Retriever>, query: string, k: nat, j: nat)
    requires k < |retrievers| && j < |retrievers[k](query)|
    ensures TotalCount(retrievers[..k], query) + j < |Combined(retrievers, query)|
    ensures Combined(retrievers, query)[TotalCount(retrievers[..k], query) + j] == retrievers[k](query)[j]
  {
    var before := retrievers[..k];
    var rest := retrievers[k + 1..];
    assert retrievers == before + [retrievers[k]] + rest;
    CombinedAppend(before + [retrievers[k]], rest, query);
    CombinedAppend(before, [retrievers[k]], query);
    assert Combined([retrievers[k]], query) == retrievers[k](query) by {
      assert [retrievers[k]][..0] == [];
    }
    CombinedCount(before, query);
  }

  /** A document is in the combined result exactly when some retriever
      returns it. */
  lemma {:induction false} CombinedHolds(retrievers: seq<Retriever>, query: string, d: Document)
    ensures d in Combined(retrievers, query) <==>
              exists k :: 0 <= k < |retrievers| && d in retrievers[k](query)
    decreases |retrievers|
  {
    if retrievers != [] {
      var init := retrievers[..|retrievers| - 1];
      CombinedHolds(init, query, d);
      assert forall k :: 0 <= k < |init| ==> init[k] == retrievers[k];
    }
  }

  /** `CombinedRetriever(retrievers)`. */
  class CombinedRetriever {
    const retrievers: seq<Retriever>

    constructor (retrievers: seq<Retriever>)
      ensures this.retrievers == retrievers
    {
      this.retrievers := retrievers;
    }

    /** `get_relevant_documents`: extends the result by each retriever's
        documents in turn. */
    method GetRelevantDocuments(query: string) returns (results: seq<Document>)
      ensures results == Combined(retrievers, query)
    {
      results := [];
      var i := 0;
      while i < |retrievers|
        invariant 0 <= i <= |retrievers|
        invariant results == Combined(retrievers[..i], query)
      {
        assert retrievers[..i + 1][..i] == retrievers[..i];
        results := results + retrievers[i](query);
        i := i + 1;
      }
      assert retrievers[..i] == retrievers;
    }

    /** `invoke`: the same documents as `get_relevant_documents`; the
        optional run configuration is ignored. */
    method Invoke(input: string) returns (docs: seq<Document>)
      ensures docs == Combined(retrievers, input)
    {
      docs := GetRelevantDocuments(input);
    }

    /** `retrieve`: the documents for the query under the key "input", or a
        `KeyError` when the dictionary has no such key. */
    method Retrieve(input: map<string, string>) returns (docs: Lookup<seq<Document>>)
      ensures "input" in input ==> docs == Found(Combined(retrievers, input["input"]))
      ensures "input" !in input ==> docs == KeyError("input")
    {
      if "input" !in input {
        return KeyError("input");
      }
      var query := input["input"];
      var results := GetRelevantDocuments(query);
      docs := Found(results);
    }

    /** `as_retriever`: the object itself. */
    method AsRetriever() returns (r: CombinedRetriever)
      ensures r == this
    {
      r := this;
    }

    /** `with_config`: the object itself, whatever the configuration. */
    method WithConfig<Config>(config: Config) returns (r: CombinedRetriever)
      ensures r == this
    {
      r := this;
    }
  }
}
