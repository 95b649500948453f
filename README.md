# ChunkSearch ranking index and chunk store, modelled in Dafny

ChunkSearch stores labelled text fragments ("chunks") and answers keyword
searches over their content with BM25 ranking. This project models two parts.

- **The ranking index** (`BM25Index` in `backend/llama_indexer.py`):
  - the tokenizer, which lowercases text and keeps maximal runs of word characters;
  - the build, which replaces the parallel `documents` and `metadata` lists from a
    snapshot of the stored chunks and builds a scorer when there is at least one document;
  - the search, which builds lazily, pairs scores with metadata, sorts by score
    (stable, highest first), keeps positive scores, deduplicates on
    (content, file source, label), stops at `top_k` and strips `content` from
    each result's metadata.
- **The chunk store** (`backend/db.py`), with the database replaced by a
  sequence of rows and an auto-increment counter. Insertion does nothing when a
  row with the same (file source, label, content) exists. Otherwise it appends a
  row with a fresh id and the tags flattened to a comma-joined string.

Files:
- `records.dfy` (module `Records`): the chunk, row and result shapes.
- `tokenizer.dfy` (`Tokenizer`): the tokenizer, pure functions and lemmas.
- `chunk_store.dfy` (`ChunkStore`): class `ChunkTable` and the insert specification.
- `ranking.dfy` (`Ranking`): result assembly as functions, with its lemmas.
- `bm25_index.dfy` (`Bm25Index`): class `BM25Index`, with imperative `BuildIndex`,
  `Search` and the result loop `CollectResults`.

The BM25 formula is not modelled. `Search` receives the scoring function as a
parameter `scorer(corpus, queryTokens)`. The `bm25` field records the corpus the
scorer was built over. When a build finds no chunks, the old scorer is kept, as
in the source. A search then still returns `[]`, because `zip` stops at the
empty metadata list. The model keeps `zip`'s truncation, so nothing is assumed
about the length of the scorer's output.

Three behaviours of the code are easy to miss, and the model keeps them:
- A `top_k` of zero or less returns up to one result, not none. The bound is
  checked only after a result is appended (`Ranking.AssembleTopKZero`).
- A tag list holding only the empty string is stored as the empty string, not
  as an absent value (`ChunkStore.FlattenTagsSingleEmptyTag`).
- Search takes no metadata filter.

## Model

| member | source | states |
|---|---|---|
| `Tokenizer.Tokenize` | backend/llama_indexer.py:12-14 | every token is non-empty, made only of word characters, and has no upper-case letter |
| `Tokenizer.Lower` | backend/llama_indexer.py:14 | `text.lower()` on ASCII: same length, no upper-case letter left, word characters stay word characters and every other character is unchanged |
| `Tokenizer.Runs` | backend/llama_indexer.py:14 | the runs extracted from a string are non-empty words; when the string has no upper-case letter, neither do they |
| `Tokenizer.WordRun` | backend/llama_indexer.py:14 | the run at the front is maximal: all word characters, followed by a non-word character or the end |
| `Tokenizer.TokenizeEmpty` | backend/llama_indexer.py:12-14 | text gives no tokens if and only if it holds no word character (empty or punctuation-only input) |
| `Tokenizer.RunsCoverWordChars` | backend/llama_indexer.py:14 | only separators are dropped: the tokens, concatenated, are exactly the input's word characters in order |
| `Tokenizer.RunsOfJoinSpace` | backend/llama_indexer.py:14 | splitting space-joined words gives the same words back |
| `Tokenizer.TokenizeIdempotent` | backend/llama_indexer.py:14 | tokenizing the space-joined tokens of a text gives the same token list |
| `Tokenizer.TokenizeHelloWorld` | backend/llama_indexer.py:14 | "Hello, World!" tokenizes to ["hello", "world"] |
| `Tokenizer.TokenizeWordRun` | backend/llama_indexer.py:14 | "a1_b" is one token; the empty string gives none |
| `Records.StripContent` | backend/llama_indexer.py:69 | the result metadata is the row minus `content`; putting the content back gives the row |
| `Ranking.ToResult` | backend/llama_indexer.py:67-71 | a result's content and metadata together are exactly the candidate's metadata row |
| `Ranking.Candidates` | backend/llama_indexer.py:54 | `zip(scores, metadata)`: one pair per index, as many as the shorter list, each tagged with its index |
| `Ranking.SortDescending` | backend/llama_indexer.py:56-57 | the sorted list holds exactly the candidates it was given (same multiset); its order is stated by `Ranking.SortDescendingSorts` |
| `Ranking.SortDescendingSorts` | backend/llama_indexer.py:56-57 | the sort is a permutation that puts higher scores first and keeps equal scores in index order (a stable reverse sort) |
| `Ranking.SortedPermutationUnique` | backend/llama_indexer.py:56-57 | only one ordering of the candidates is descending with ties in index order, so the sort's result is determined |
| `Ranking.Kept` | backend/llama_indexer.py:59-66 | the candidates kept by the skip-and-seen filter are never more than those read; their properties are the lemmas below |
| `Ranking.KeptFromInput` | backend/llama_indexer.py:61-62 | every kept candidate has a positive score and comes from the ranked list |
| `Ranking.KeptDistinct` | backend/llama_indexer.py:59-66 | no two kept candidates share (content, file source, label) |
| `Ranking.KeptFirst` | backend/llama_indexer.py:59-66 | every positively scored candidate's key is kept, by a candidate at or before it in the ranked list |
| `Ranking.KeptSorted` | backend/llama_indexer.py:61-71 | skipping candidates keeps the ranked order |
| `Ranking.KeptPrefix` | backend/llama_indexer.py:61-73 | what is kept after reading a prefix is a prefix of what is kept after the whole list, so stopping early yields a prefix |
| `Ranking.Limit` | backend/llama_indexer.py:72-73 | the most results returned is `top_k`, and never less than one |
| `Ranking.TopResults` | backend/llama_indexer.py:58-73 | at most the limit of results; when fewer than the limit come back, they are all the kept candidates, as results |
| `Ranking.Assemble` | backend/llama_indexer.py:54-73 | a search's results number at most the limit, and none when there are no scores or no metadata |
| `Ranking.RankedSpec` | backend/llama_indexer.py:54-57 | the ranked list is sorted and holds exactly the zipped pairs |
| `Ranking.AssembleOrderedDistinct` | backend/llama_indexer.py:54-71 | every result has score > 0, scores never increase along the results, and no two results share (content, file source, label) |
| `Ranking.AssembleBound` | backend/llama_indexer.py:58-73 | at most `top_k` results for `top_k >= 1`, at most one for `top_k <= 0`, none when the index is empty |
| `Ranking.AssembleFromIndex` | backend/llama_indexer.py:54-71 | each result is one indexed document: same score, and content plus metadata equal that document's row |
| `Ranking.AssembleKeepsFirst` | backend/llama_indexer.py:56-66 | of the positively scored documents sharing a result's key, none scores higher than the result kept |
| `Ranking.KeptBeatsSameKey` | backend/llama_indexer.py:56-66 | the kept candidate for a key scores at least as high as any positively scored document with that key |
| `Ranking.AssembleComplete` | backend/llama_indexer.py:61-73 | when fewer results than the limit come back, every positively scored document's key is among them |
| `Ranking.AssembleKeepsBest` | backend/llama_indexer.py:56-73 | when `top_k` cuts the list, a positively scored document whose key is not among the results scores no higher than any result |
| `Ranking.AssembleTopKZero` | backend/llama_indexer.py:72-73 | with `top_k = 0` one relevant document still yields one result |
| `Bm25Index.CollectResults` | backend/llama_indexer.py:58-73 | the result loop (seen-set, skip, append, break) returns exactly the kept candidates up to the limit, as results |
| `Bm25Index.BM25Index.constructor` | backend/llama_indexer.py:7-10 | a new index has no documents, no metadata and no scorer |
| `Bm25Index.BM25Index.BuildIndex` | backend/llama_indexer.py:16-38 | both lists are replaced: document i is the tokens of row i's content, metadata i is row i with every column, lengths equal the row count; the scorer is rebuilt over the documents only when there are some |
| `Bm25Index.BM25Index.Search` | backend/llama_indexer.py:40-75 | builds first only when there is no scorer, and then leaves the scorer over the new documents, or none when the store is empty (so the next search builds again); returns `[]` when there is still no scorer or the index is empty; otherwise returns the assembled results of the scorer's scores for the query's tokens |
| `Bm25Index.RebuildIsIdempotent` | backend/llama_indexer.py:16-38 | a two-call scenario: the state after the first build is the one a single build gives (document i the tokens of row i, metadata the rows, the scorer rebuilt only over a non-empty corpus, otherwise the old one), and the second build over the unchanged store leaves exactly that state |
| `ChunkStore.FindExisting` | backend/db.py:29-36 | the duplicate lookup finds a row if and only if one has the same (file source, label, content), and returns that row's id |
| `ChunkStore.ChunkTable.constructor` | backend/db.py:12-22 | a new table is empty and its first id will be 1 |
| `ChunkStore.ChunkTable.InsertChunk` | backend/db.py:26-52 | with a duplicate triple nothing changes; otherwise exactly one row is appended, its columns are copied from the chunk, its id differs from every existing id, and no existing row changes; the no-duplicate-triple and id invariants are kept |
| `ChunkStore.InsertKeepsTriplesUnique` | backend/db.py:26-52 | insertion keeps (file source, label, content) unique, keeps every existing row, and adds at most one row |
| `ChunkStore.InsertStoresTriple` | backend/db.py:29-52 | after an insertion the chunk's triple is stored |
| `ChunkStore.InsertTwiceIsInsertOnce` | backend/db.py:29-37 | inserting the same chunk again leaves the table unchanged |
| `ChunkStore.AfterInsert` | backend/db.py:29-51 | the table after an insert keeps every old row as a prefix, and is one row longer exactly when no row had the chunk's (file source, label, content) |
| `ChunkStore.NewRow` | backend/db.py:39-51 | the new row carries the given id and the chunk's (file source, label, content) |
| `ChunkStore.JoinComma` | backend/db.py:50 | `','.join(tags)`: the joined string begins with the first tag |
| `ChunkStore.FlattenTags` | backend/db.py:50 | the tags column is absent exactly when the tag list is absent or empty |
| `ChunkStore.FlattenTagsRoundTrip` | backend/db.py:50 | tags without commas can be read back by splitting the stored string on commas |
| `ChunkStore.FlattenTagsLossy` | backend/db.py:50 | the tag lists ["a,b"] and ["a", "b"] are stored as the same string |
| `ChunkStore.FlattenTagsSingleEmptyTag` | backend/db.py:50 | the tag list [""] is stored as the empty string, not as an absent value |
| `ChunkStore.ChunkTable.GetAllChunks` | backend/db.py:54-58 | returns every stored row with every column, tags still as the stored string |

## Left out

- The BM25 arithmetic of the `rank_bm25` library (term frequencies, IDF with a logarithm, length normalisation). It is floating-point code in a foreign library. Scores come from a `scorer` parameter, and the model proves nothing about their values. So the ranking claims that depend on the formula are not proved: a document sharing no token with the query scores 0, and more occurrences score higher.
- `Bm25Index.BM25Index.BuildIndex`: building the scorer over a non-empty corpus is assumed to succeed. The `rank_bm25` library divides by the number of distinct words when it computes the average IDF, so a corpus whose documents hold no token at all (for example one chunk with content `"!!!"`) makes the construction raise. The source then leaves `documents` and `metadata` filled and the scorer unchanged, and every later search rebuilds and raises again. The model instead sets a scorer over that corpus, and `Valid()` states that a non-empty corpus always has one. The library is not part of this model.
- Floating point: scores are modelled as `real`. NaN and infinities are not modelled.
- `Bm25Index.BM25Index.Search`: the in-place `list.sort` is modelled by its result (`Ranking.SortDescending`, a stable insertion sort on values). The in-place update of the list is not modelled.
- SQLite: the connection, the table creation and transactions are I/O. The table is an in-memory sequence of rows. `SELECT *` without `ORDER BY` is read in insertion order.
- SQL `=` on NULL never matching: file source, label and content are required strings here, so they cannot be NULL.
- Unicode behaviour of `\w` and `str.lower()`: the model uses ASCII letters, digits and underscore, and ASCII lowercasing.
- `backend/main.py`: HTTP routing, upload parsing, startup wiring and the `metadata_filter` keyword it passes to a search that does not accept it. No filtering is modelled.
- `backend/models.py` validation and `frontend/src/App.js` are not part of this model. The models file is used only for field shapes.
- The module-level index instance, and any concurrency between a rebuild and a query.
