/** Record shapes shared by the chunk store and the ranking index.

    A chunk as submitted for ingestion has three required text fields
    (file source, label, content) and optional page number, timestamp,
    author, category and tag list.  A stored row adds the id assigned by
    the store and keeps the tags flattened to one string.  A search result
    carries the content, the row's other columns and the score. */
module Records {

  datatype Option<T> = None | Some(value: T)

  /** A chunk as received for insertion. */
  datatype Chunk = Chunk(
    fileSource: string,
    chunkLabel: string,
    content: string,
    pageNumber: Option<int>,
    createdAt: Option<string>,
    author: Option<string>,
    category: Option<string>,
    tags: Option<seq<string>>)

  /** A row of the chunks table: every column, tags as the stored string. */
  datatype Row = Row(
    id: int,
    fileSource: string,
    chunkLabel: string,
    content: string,
    pageNumber: Option<int>,
    createdAt: Option<string>,
    author: Option<string>,
    category: Option<string>,
    tags: Option<string>)

  /** The metadata of a search result: every column of the row except content. */
  datatype ResultMeta = ResultMeta(
    id: int,
    fileSource: string,
    chunkLabel: string,
    pageNumber: Option<int>,
    createdAt: Option<string>,
    author: Option<string>,
    category: Option<string>,
    tags: Option<string>)

  datatype SearchResult = SearchResult(content: string, metadata: ResultMeta, score: real)

  /** The identity of a chunk for deduplication in search results:
      (content, file source, label), in that order. */
  type ResultKey = (string, string, string)

  function KeyOf(row: Row): ResultKey
  {
    (row.content, row.fileSource, row.chunkLabel)
  }

  /** The row's metadata with the `content` entry dropped. */
  function StripContent(row: Row): (m: ResultMeta)
    ensures WithContent(m, row.content) == row
  {
    ResultMeta(row.id, row.fileSource, row.chunkLabel, row.pageNumber,
               row.createdAt, row.author, row.category, row.tags)
  }

  /** Puts the content back beside the metadata: the inverse of StripContent. */
  function WithContent(m: ResultMeta, content: string): (row: Row)
  {
    Row(m.id, m.fileSource, m.chunkLabel, content, m.pageNumber,
        m.createdAt, m.author, m.category, m.tags)
  }
}
