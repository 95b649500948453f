/** The chunk store, without its database: one table of rows, each with an
    id taken from an auto-increment counter.  Inserting a chunk is an append
    that does nothing when a row with the same file source, label and
    content is already stored; reading returns every row as stored. */
module ChunkStore {
  import opened Records

  /** The store's identity of a chunk: (file source, label, content). */
  type Triple = (string, string, string)

  function TripleOfRow(r: Row): Triple
  {
    (r.fileSource, r.chunkLabel, r.content)
  }

  function TripleOfChunk(c: Chunk): Triple
  {
    (c.fileSource, c.chunkLabel, c.content)
  }

  predicate HasTriple(rows: seq<Row>, key: Triple)
  {
    exists i :: 0 <= i < |rows| && TripleOfRow(rows[i]) == key
  }

  /** No two rows share file source, label and content. */
  predicate NoDuplicateTriples(rows: seq<Row>)
  {
    forall i, j :: 0 <= i < j < |rows| ==> TripleOfRow(rows[i]) != TripleOfRow(rows[j])
  }

  /** Ids grow with the position of the row and stay below the next id. */
  predicate IdsBelow(rows: seq<Row>, nextId: int)
  {
    && nextId >= 1
    && (forall i, j :: 0 <= i < j < |rows| ==> rows[i].id < rows[j].id)
    && (forall i :: 0 <= i < |rows| ==> 1 <= rows[i].id < nextId)
  }

  // ---------------------------------------------------------------------
  // Tags

  /** The tags joined by commas (Python's ','.join). */
  function JoinComma(tags: seq<string>): (s: string)
    ensures tags != [] ==> tags[0] <= s
  {
    if |tags| == 0 then []
    else if |tags| == 1 then tags[0]
    else tags[0] + "," + JoinComma(tags[1..])
  }

  /** Splitting on every comma (Python's str.split(',')), the reading that
      would give the list back; the store itself never splits. */
  function SplitComma(s: string): (parts: seq<string>)
    ensures |parts| >= 1
    ensures forall p :: p in parts ==> ',' !in p
    decreases |s|
  {
    if ',' !in s then [s]
    else
      var i := FirstComma(s);
      [s[..i]] + SplitComma(s[i + 1..])
  }

  function FirstComma(s: string): (i: nat)
    requires ',' in s
    ensures i < |s| && s[i] == ',' && ',' !in s[..i]
  {
    if s[0] == ',' then 0
    else
      assert ',' in s[1..] by {
        var k :| 0 <= k < |s| && s[k] == ',';
        assert s[1..][k - 1] == ',';
      }
      var j := FirstComma(s[1..]);
      assert s[..j + 1] == [s[0]] + s[1..][..j];
      j + 1
  }

  /** The stored form of the tags column: the comma-joined list when a
      non-empty list is given, nothing otherwise. */
  function FlattenTags(tags: Option<seq<string>>): (stored: Option<string>)
    ensures stored.None? <==> (tags.None? || tags.value == [])
  {
    if tags.Some? && tags.value != [] then Some(JoinComma(tags.value)) else None
  }

  /** Tags that hold no comma can be read back from the stored column by
      splitting it on commas. */
  lemma FlattenTagsRoundTrip(tags: seq<string>)
    requires tags != [] && forall t :: t in tags ==> ',' !in t
    ensures FlattenTags(Some(tags)).Some? && SplitComma(FlattenTags(Some(tags)).value) == tags
  {
    JoinSplitRoundTrip(tags);
  }

  lemma {:induction false} JoinSplitRoundTrip(tags: seq<string>)
    requires tags != [] && forall t :: t in tags ==> ',' !in t
    ensures SplitComma(JoinComma(tags)) == tags
  {
    if |tags| == 1 {
      assert tags[0] in tags;
    } else {
      var head, rest := tags[0], JoinComma(tags[1..]);
      assert head in tags;
      assert forall t :: t in tags[1..] ==> t in tags;
      JoinSplitRoundTrip(tags[1..]);
      var s := head + "," + rest;
      assert s[|head|] == ',';
      assert ',' in s;
      var i := FirstComma(s);
      assert i == |head|;
      assert s[..i] == head;
      assert s[i + 1..] == rest;
    }
  }

  /** A list holding only the empty tag is stored as the empty string, not
      as an absent value: only an absent or empty list is stored as absent. */
  lemma FlattenTagsSingleEmptyTag()
    ensures FlattenTags(Some([""])) == Some("")
  {
  }

  /** A tag that holds a comma cannot be told apart from two tags: the
      flattened column does not determine the list it came from. */
  lemma FlattenTagsLossy()
    ensures FlattenTags(Some(["a,b"])) == FlattenTags(Some(["a", "b"]))
  {
    assert JoinComma(["a,b"]) == "a,b";
    assert JoinComma(["a", "b"]) == "a" + "," + JoinComma(["b"]);
    assert JoinComma(["b"]) == "b";
    assert "a" + "," + "b" == "a,b";
  }

  // ---------------------------------------------------------------------
  // Rows

  /** The row stored for a chunk under a given id. */
  function NewRow(id: int, c: Chunk): (r: Row)
    ensures TripleOfRow(r) == TripleOfChunk(c) && r.id == id
  {
    Row(id, c.fileSource, c.chunkLabel, c.content, c.pageNumber,
        c.createdAt, c.author, c.category, FlattenTags(c.tags))
  }

  /** The table after inserting c with the given fresh id. */
  function AfterInsert(rows: seq<Row>, id: int, c: Chunk): (after: seq<Row>)
    ensures |rows| <= |after| <= |rows| + 1 && after[..|rows|] == rows
    ensures |after| == |rows| <==> HasTriple(rows, TripleOfChunk(c))
  {
    if HasTriple(rows, TripleOfChunk(c)) then rows else rows + [NewRow(id, c)]
  }

  /** Insertion keeps the triples unique, keeps every existing row and adds
      at most one row. */
  lemma InsertKeepsTriplesUnique(rows: seq<Row>, id: int, c: Chunk)
    requires NoDuplicateTriples(rows)
    ensures NoDuplicateTriples(AfterInsert(rows, id, c))
    ensures AfterInsert(rows, id, c)[..|rows|] == rows
    ensures |rows| <= |AfterInsert(rows, id, c)| <= |rows| + 1
  {
  }

  /** Inserting the same chunk twice stores it once. */
  lemma InsertTwiceIsInsertOnce(rows: seq<Row>, id: int, id': int, c: Chunk)
    ensures AfterInsert(AfterInsert(rows, id, c), id', c) == AfterInsert(rows, id, c)
  {
    InsertStoresTriple(rows, id, c);
  }

  /** After an insertion the chunk's triple is stored. */
  lemma InsertStoresTriple(rows: seq<Row>, id: int, c: Chunk)
    ensures HasTriple(AfterInsert(rows, id, c), TripleOfChunk(c))
  {
    var after := AfterInsert(rows, id, c);
    if !HasTriple(rows, TripleOfChunk(c)) {
      assert TripleOfRow(after[|rows|]) == TripleOfChunk(c);
    }
  }

  /** Looks for a stored row with the given triple (the SELECT before the
      insert) and returns the id of the first one found. */
  method FindExisting(rows: seq<Row>, key: Triple) returns (found: Option<int>)
    ensures found.None? <==> !HasTriple(rows, key)
    ensures found.Some? ==> exists i :: 0 <= i < |rows| && rows[i].id == found.value && TripleOfRow(rows[i]) == key
  {
    found := None;
    var i := 0;
    while i < |rows|
      invariant 0 <= i <= |rows|
      invariant forall k :: 0 <= k < i ==> TripleOfRow(rows[k]) != key
    {
      if TripleOfRow(rows[i]) == key {
        found := Some(rows[i].id);
        return;
      }
      i := i + 1;
    }
  }

  /** The chunks table and its auto-increment counter. */
  class ChunkTable {
    var rows: seq<Row>
    var nextId: int

    ghost predicate Valid()
      reads this
    {
      NoDuplicateTriples(rows) && IdsBelow(rows, nextId)
    }

    /** An empty table; ids start at 1. */
    constructor ()
      ensures Valid() && rows == [] && nextId == 1
    {
      rows := [];
      nextId := 1;
    }

    /** Stores the chunk unless a row with the same triple exists. */
    method InsertChunk(chunk: Chunk)
      requires Valid()
      modifies this
      ensures Valid()
      ensures rows == AfterInsert(old(rows), old(nextId), chunk)
      ensures HasTriple(old(rows), TripleOfChunk(chunk)) ==> nextId == old(nextId)
      ensures !HasTriple(old(rows), TripleOfChunk(chunk)) ==>
        && rows == old(rows) + [NewRow(old(nextId), chunk)]
        && nextId == old(nextId) + 1
        && forall i :: 0 <= i < |old(rows)| ==> old(rows)[i].id != rows[|rows| - 1].id
    {
      var existing := FindExisting(rows, TripleOfChunk(chunk));
      if existing.Some? {
        return;  // duplicate found, nothing inserted
      }
      InsertKeepsTriplesUnique(rows, nextId, chunk);
      rows := rows + [NewRow(nextId, chunk)];
      nextId := nextId + 1;
    }

    /** Every stored row, every column, tags as the stored string. */
    method GetAllChunks() returns (chunks: seq<Row>)
      ensures chunks == rows
    {
      chunks := rows;
    }
  }
}
