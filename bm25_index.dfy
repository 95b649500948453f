/** The in-memory ranking index.  It keeps two parallel lists, the tokenized
    content of every stored chunk ("documents") and the chunk's row
    ("metadata"), plus the BM25 scorer built over the documents.  A build
    replaces both lists from the store; a search builds first when no
    scorer exists yet, scores every document against the query and
    assembles the results. */
module Bm25Index {
  import opened Records
  import opened Tokenizer
  import opened Ranking
  import ChunkStore

  /** The BM25 scoring function: given the corpus the scorer was built over
      and the query tokens, one score per document.  Its arithmetic is not
      modelled; a search receives it as a parameter. */
  type Scorer = (seq<seq<string>>, seq<string>) -> seq<real>

  /** A BM25 scorer object: what it holds is the corpus it was built over. */
  datatype Okapi = Okapi(corpus: seq<seq<string>>)

  class BM25Index {
    var documents: seq<seq<string>>
    var metadata: seq<Row>
    var bm25: Option<Okapi>

    /** The lists are parallel; a scorer is never built over an empty corpus;
        while there are documents, the scorer is the one built over them. */
    ghost predicate Valid()
      reads this
    {
      && |documents| == |metadata|
      && (bm25.Some? ==> bm25.value.corpus != [])
      && (documents != [] ==> bm25 == Some(Okapi(documents)))
    }

    /** The index as a chunk snapshot leaves it: document i is the tokens of
        chunk i's content and metadata i is chunk i's row. */
    ghost predicate BuiltFrom(chunks: seq<Row>)
      reads this
    {
      && |documents| == |chunks|
      && (forall i :: 0 <= i < |documents| ==> documents[i] == Tokenize(chunks[i].content))
      && metadata == chunks
    }

    constructor ()
      ensures Valid() && documents == [] && metadata == [] && bm25 == None
    {
      documents := [];
      metadata := [];
      bm25 := None;
    }

    /** Replaces both lists from the store's current rows; builds a new
        scorer when there is at least one document and otherwise keeps the
        scorer it had. */
    method BuildIndex(store: ChunkStore.ChunkTable)
      requires Valid()
      modifies this
      ensures Valid()
      ensures BuiltFrom(store.rows)
      ensures bm25 == if documents != [] then Some(Okapi(documents)) else old(bm25)
    {
      var chunks := store.GetAllChunks();
      documents := [];
      metadata := [];
      for i := 0 to |chunks|
        invariant BuiltFrom(chunks[..i])
        invariant bm25 == old(bm25)
      {
        var tokens := Tokenize(chunks[i].content);
        documents := documents + [tokens];
        metadata := metadata + [chunks[i]];
        assert chunks[..i + 1] == chunks[..i] + [chunks[i]];
      }
      assert chunks[..|chunks|] == chunks;
      if documents != [] {
        bm25 := Some(Okapi(documents));
      }
    }

    /** The search: build first if there is no scorer, then rank every
        document against the query's tokens and assemble the results. */
    method Search(store: ChunkStore.ChunkTable, scorer: Scorer, query: string, topK: int := 50)
      returns (results: seq<SearchResult>)
      requires Valid()
      modifies this
      ensures Valid()
      ensures old(bm25).Some? ==> documents == old(documents) && metadata == old(metadata) && bm25 == old(bm25)
      ensures old(bm25).None? ==> BuiltFrom(store.rows)
      ensures old(bm25).None? ==> bm25 == if documents != [] then Some(Okapi(documents)) else None
      ensures bm25.None? ==> results == []
      ensures bm25.Some? ==> results == Assemble(scorer(bm25.value.corpus, Tokenize(query)), metadata, topK)
      ensures metadata == [] ==> results == []
    {
      if bm25.None? {
        BuildIndex(store);
      }
      if bm25.None? {
        return [];
      }
      var queryTokens := Tokenize(query);
      var scores := scorer(bm25.value.corpus, queryTokens);
      // scored_docs.sort(key=score, reverse=True): a stable sort, modelled by its result
      var scoredDocs := SortDescending(Candidates(scores, metadata));
      results := CollectResults(scoredDocs, topK);
      AssembleBound(scores, metadata, topK);
    }
  }

  /** The result loop of a search: walk the ranked candidates, skip the
      non-positive scores and the keys already seen, and stop once the
      number of results reaches top_k (checked after each addition). */
  method CollectResults(scoredDocs: seq<Candidate>, topK: int) returns (results: seq<SearchResult>)
    ensures results == TopResults(scoredDocs, topK)
  {
    results := [];
    var seen: set<ResultKey> := {};
    for i := 0 to |scoredDocs|
      invariant results == ResultsOf(Kept(scoredDocs[..i]))
      invariant seen == KeysOf(Kept(scoredDocs[..i]))
      invariant |results| < Limit(topK)
    {
      var c := scoredDocs[i];
      assert scoredDocs[..i + 1][..i] == scoredDocs[..i];
      assert scoredDocs[..i + 1][i] == c;
      if c.score > 0.0 {
        var uniqueKey := KeyOf(c.meta);
        if uniqueKey in seen {
          continue;
        }
        seen := seen + {uniqueKey};
        results := results + [ToResult(c)];
        if |results| >= topK {
          KeptPrefix(scoredDocs, i + 1);
          break;
        }
      }
    }
    assert scoredDocs[..|scoredDocs|] == scoredDocs;
  }

  /** A scenario of two calls, not an operation of the index: build, note
      the state, build again over the same store.  The second build leaves
      exactly the state the first one left. */
  method RebuildIsIdempotent(index: BM25Index, store: ChunkStore.ChunkTable)
    returns (ghost documents: seq<seq<string>>, ghost metadata: seq<Row>, ghost bm25: Option<Okapi>)
    requires index.Valid()
    modifies index
    ensures index.Valid() && index.BuiltFrom(store.rows)
    ensures |documents| == |store.rows| && metadata == store.rows
    ensures forall i :: 0 <= i < |documents| ==> documents[i] == Tokenize(store.rows[i].content)
    ensures bm25 == if documents != [] then Some(Okapi(documents)) else old(index.bm25)
    ensures index.documents == documents && index.metadata == metadata && index.bm25 == bm25
  {
    index.BuildIndex(store);
    documents, metadata, bm25 := index.documents, index.metadata, index.bm25;
    index.BuildIndex(store);
  }
}
