/** Result assembly of a search, as functions of the scores and the index's
    metadata: pair each score with its metadata, sort by score (highest
    first, ties in index order, as a stable sort in reverse does), keep
    the positive scores, keep the first of each (content, file source,
    label), and stop after top_k results (at least one is always allowed,
    because the bound is checked only after a result is added). */
module Ranking {
  import opened Records

  /** A scored document: its score, its metadata row and its index in the
      index's parallel lists. */
  datatype Candidate = Candidate(score: real, meta: Row, pos: nat)

  function Min(a: int, b: int): int
  {
    if a <= b then a else b
  }

  /** zip(scores, metadata): one candidate per index, as many as the
      shorter of the two lists. */
  function Candidates(scores: seq<real>, metadata: seq<Row>): (cs: seq<Candidate>)
    ensures |cs| == Min(|scores|, |metadata|)
    ensures forall i :: 0 <= i < |cs| ==> cs[i].score == scores[i] && cs[i].meta == metadata[i] && cs[i].pos == i
  {
    seq(Min(|scores|, |metadata|), i requires 0 <= i < Min(|scores|, |metadata|) =>
      Candidate(scores[i], metadata[i], i))
  }

  // ---------------------------------------------------------------------
  // Sorting by score, descending, stable

  /** a comes before b in the sorted list: a higher score, or the same
      score and an earlier index. */
  predicate Precedes(a: Candidate, b: Candidate)
  {
    a.score > b.score || (a.score == b.score && a.pos < b.pos)
  }

  predicate Sorted(cs: seq<Candidate>)
  {
    forall i, j :: 0 <= i < j < |cs| ==> Precedes(cs[i], cs[j])
  }

  predicate DistinctPos(cs: seq<Candidate>)
  {
    forall i, j :: 0 <= i < j < |cs| ==> cs[i].pos != cs[j].pos
  }

  function Insert(x: Candidate, cs: seq<Candidate>): (r: seq<Candidate>)
    ensures multiset(r) == multiset(cs) + multiset{x}
  {
    if cs == [] || Precedes(x, cs[0]) then [x] + cs
    else
      assert cs == [cs[0]] + cs[1..];
      [cs[0]] + Insert(x, cs[1..])
  }

  /** The list sorted by score, highest first, ties in index order. */
  function SortDescending(cs: seq<Candidate>): (sorted: seq<Candidate>)
    ensures multiset(sorted) == multiset(cs)
  {
    if cs == [] then []
    else
      assert cs == [cs[0]] + cs[1..];
      Insert(cs[0], SortDescending(cs[1..]))
  }

  lemma {:induction false} InsertSorted(x: Candidate, cs: seq<Candidate>)
    requires Sorted(cs)
    requires forall i :: 0 <= i < |cs| ==> cs[i].pos != x.pos
    ensures Sorted(Insert(x, cs))
  {
    if cs != [] && !Precedes(x, cs[0]) {
      var rest := Insert(x, cs[1..]);
      InsertSorted(x, cs[1..]);
      forall j | 0 <= j < |rest|
        ensures Precedes(cs[0], rest[j])
      {
        assert rest[j] in multiset(rest);
        if rest[j] != x {
          assert rest[j] in cs[1..];
        }
      }
    }
  }

  /** The sort yields the same candidates, in score order with ties in
      index order. */
  lemma {:induction false} SortDescendingSorts(cs: seq<Candidate>)
    requires DistinctPos(cs)
    ensures Sorted(SortDescending(cs))
    ensures multiset(SortDescending(cs)) == multiset(cs)
  {
    if cs != [] {
      var rest := SortDescending(cs[1..]);
      SortDescendingSorts(cs[1..]);
      forall i | 0 <= i < |rest|
        ensures rest[i].pos != cs[0].pos
      {
        assert rest[i] in multiset(cs[1..]);
        var k :| 0 <= k < |cs[1..]| && cs[1..][k] == rest[i];
        assert cs[k + 1] == rest[i];
      }
      InsertSorted(cs[0], rest);
      assert cs == [cs[0]] + cs[1..];
    }
  }

  /** Only one order satisfies both: any list with the same candidates that is
      sorted by score with ties in index order equals SortDescending's. */
  lemma {:induction false} SortedPermutationUnique(a: seq<Candidate>, b: seq<Candidate>)
    requires Sorted(a) && Sorted(b) && multiset(a) == multiset(b)
    ensures a == b
  {
    if a != [] {
      assert a[0] in multiset(b);
      assert b != [];
      assert b[0] in multiset(a);
      assert a[0] == b[0];
      assert a == [a[0]] + a[1..];
      assert b == [b[0]] + b[1..];
      assert multiset(a) == multiset{a[0]} + multiset(a[1..]);
      assert multiset(b) == multiset{b[0]} + multiset(b[1..]);
      assert multiset(a[1..]) == multiset(a) - multiset{a[0]};
      assert multiset(b[1..]) == multiset(b) - multiset{b[0]};
      SortedPermutationUnique(a[1..], b[1..]);
    }
  }

  // ---------------------------------------------------------------------
  // Filtering and deduplication

  function KeyOfCandidate(c: Candidate): ResultKey
  {
    KeyOf(c.meta)
  }

  function KeysOf(cs: seq<Candidate>): set<ResultKey>
  {
    set c | c in cs :: KeyOfCandidate(c)
  }

  /** The candidates the result loop has kept after reading s in order:
      each one with a positive score whose key has not been kept before. */
  function Kept(s: seq<Candidate>): (kept: seq<Candidate>)
    ensures |kept| <= |s|
  {
    if s == [] then []
    else
      var prev := Kept(s[..|s| - 1]);
      var c := s[|s| - 1];
      if c.score > 0.0 && KeyOfCandidate(c) !in KeysOf(prev) then prev + [c] else prev
  }

  /** Every kept candidate has a positive score and comes from s. */
  lemma {:induction false} KeptFromInput(s: seq<Candidate>)
    ensures forall k :: 0 <= k < |Kept(s)| ==> Kept(s)[k].score > 0.0 && Kept(s)[k] in s
    decreases |s|
  {
    if s != [] {
      var prev := s[..|s| - 1];
      KeptFromInput(prev);
      forall k | 0 <= k < |Kept(prev)|
        ensures Kept(prev)[k] in s
      {
        var m :| 0 <= m < |prev| && prev[m] == Kept(prev)[k];
        assert s[m] == prev[m];
      }
    }
  }

  /** No two kept candidates share (content, file source, label). */
  lemma {:induction false} KeptDistinct(s: seq<Candidate>)
    ensures forall i, j :: 0 <= i < j < |Kept(s)| ==> KeyOfCandidate(Kept(s)[i]) != KeyOfCandidate(Kept(s)[j])
    decreases |s|
  {
    if s != [] {
      var prev := Kept(s[..|s| - 1]);
      KeptDistinct(s[..|s| - 1]);
      var c := s[|s| - 1];
      if c.score > 0.0 && KeyOfCandidate(c) !in KeysOf(prev) {
        forall i | 0 <= i < |prev|
          ensures KeyOfCandidate(prev[i]) != KeyOfCandidate(c)
        {
          assert prev[i] in prev;
        }
      }
    }
  }

  /** What the loop has kept after a prefix is a prefix of what it keeps
      after the whole list. */
  lemma {:induction false} KeptPrefix(s: seq<Candidate>, n: nat)
    requires n <= |s|
    ensures |Kept(s[..n])| <= |Kept(s)|
    ensures Kept(s)[..|Kept(s[..n])|] == Kept(s[..n])
    decreases |s| - n
  {
    if n < |s| {
      var prev := s[..|s| - 1];
      KeptPrefix(prev, n);
      assert prev[..n] == s[..n];
    } else {
      assert s[..n] == s;
    }
  }

  /** Keeping preserves the sorted order. */
  lemma {:induction false} KeptSorted(s: seq<Candidate>)
    requires Sorted(s)
    ensures Sorted(Kept(s))
    decreases |s|
  {
    if s != [] {
      var prefix := s[..|s| - 1];
      var prev := Kept(prefix);
      var c := s[|s| - 1];
      assert Sorted(prefix);
      KeptSorted(prefix);
      KeptFromInput(prefix);
      forall i | 0 <= i < |prev|
        ensures Precedes(prev[i], c)
      {
        var m :| 0 <= m < |prefix| && prefix[m] == prev[i];
        assert s[m] == prev[i];
      }
    }
  }

  /** Every candidate with a positive score has its key kept, and the one
      kept for that key comes no later in s: the first of its key wins. */
  lemma KeptFirst(s: seq<Candidate>)
    ensures forall j :: 0 <= j < |s| && s[j].score > 0.0 ==> KeptNoLater(s, j)
  {
    forall j | 0 <= j < |s| && s[j].score > 0.0
      ensures KeptNoLater(s, j)
    {
      var k, m := KeptFirstAt(s, j);
    }
  }

  /** Some kept candidate shares the key of s[j] and stands at or before j in s. */
  predicate KeptNoLater(s: seq<Candidate>, j: nat)
    requires j < |s|
  {
    exists k, m :: 0 <= k < |Kept(s)| && 0 <= m <= j && Kept(s)[k] == s[m] && KeyOfCandidate(s[m]) == KeyOfCandidate(s[j])
  }

  /** The kept candidate for the key of s[j], and its index m <= j in s. */
  lemma {:induction false} KeptFirstAt(s: seq<Candidate>, j: nat) returns (k: nat, m: nat)
    requires j < |s| && s[j].score > 0.0
    ensures k < |Kept(s)| && m <= j
    ensures Kept(s)[k] == s[m]
    ensures KeyOfCandidate(s[m]) == KeyOfCandidate(s[j])
    decreases |s|
  {
    var prefix := s[..|s| - 1];
    var prev := Kept(prefix);
    var c := s[|s| - 1];
    assert Kept(s) == if c.score > 0.0 && KeyOfCandidate(c) !in KeysOf(prev) then prev + [c] else prev;
    if j < |s| - 1 {
      assert prefix[j] == s[j];
      k, m := KeptFirstAt(prefix, j);
      assert prefix[m] == s[m];
      assert Kept(s)[..|prev|] == prev;
    } else if KeyOfCandidate(c) !in KeysOf(prev) {
      k, m := |prev|, j;
    } else {
      KeptFromInput(prefix);
      var p :| p in prev && KeyOfCandidate(p) == KeyOfCandidate(c);
      k :| 0 <= k < |prev| && prev[k] == p;
      m :| 0 <= m < |prefix| && prefix[m] == p;
      assert s[m] == p;
    }
  }

  // ---------------------------------------------------------------------
  // Results

  /** A result: the content, the metadata without content, the score. */
  function ToResult(c: Candidate): (r: SearchResult)
    ensures WithContent(r.metadata, r.content) == c.meta
  {
    SearchResult(c.meta.content, StripContent(c.meta), c.score)
  }

  function ResultsOf(cs: seq<Candidate>): (rs: seq<SearchResult>)
    ensures |rs| == |cs|
    ensures forall k :: 0 <= k < |cs| ==> rs[k] == ToResult(cs[k])
  {
    seq(|cs|, k requires 0 <= k < |cs| => ToResult(cs[k]))
  }

  function ResultKeyOf(r: SearchResult): ResultKey
  {
    (r.content, r.metadata.fileSource, r.metadata.chunkLabel)
  }

  /** The most results a search returns: top_k, but never less than one. */
  function Limit(topK: int): (n: nat)
    ensures n >= 1 && (topK >= 1 ==> n == topK)
  {
    if topK >= 1 then topK else 1
  }

  /** The ranked candidates the result loop reads. */
  function Ranked(scores: seq<real>, metadata: seq<Row>): seq<Candidate>
  {
    SortDescending(Candidates(scores, metadata))
  }

  /** The results the loop collects from a ranked list: the kept
      candidates, up to the limit. */
  function TopResults(ranked: seq<Candidate>, topK: int): (results: seq<SearchResult>)
    ensures |results| <= Limit(topK)
    ensures |results| < Limit(topK) ==> results == ResultsOf(Kept(ranked))
  {
    var all := ResultsOf(Kept(ranked));
    all[..Min(Limit(topK), |all|)]
  }

  /** The results of a search whose scores are `scores`. */
  function Assemble(scores: seq<real>, metadata: seq<Row>, topK: int): (results: seq<SearchResult>)
    ensures |results| <= Limit(topK)
    ensures scores == [] || metadata == [] ==> results == []
  {
    TopResults(Ranked(scores, metadata), topK)
  }

  lemma RankedSpec(scores: seq<real>, metadata: seq<Row>)
    ensures Sorted(Ranked(scores, metadata))
    ensures multiset(Ranked(scores, metadata)) == multiset(Candidates(scores, metadata))
  {
    SortDescendingSorts(Candidates(scores, metadata));
  }

  /** Every result has a positive score, results come highest score first,
      and no two results share (content, file source, label). */
  lemma AssembleOrderedDistinct(scores: seq<real>, metadata: seq<Row>, topK: int)
    ensures forall k :: 0 <= k < |Assemble(scores, metadata, topK)| ==> Assemble(scores, metadata, topK)[k].score > 0.0
    ensures forall i, j :: 0 <= i < j < |Assemble(scores, metadata, topK)| ==>
      Assemble(scores, metadata, topK)[i].score >= Assemble(scores, metadata, topK)[j].score
    ensures forall i, j :: 0 <= i < j < |Assemble(scores, metadata, topK)| ==>
      ResultKeyOf(Assemble(scores, metadata, topK)[i]) != ResultKeyOf(Assemble(scores, metadata, topK)[j])
  {
    var ranked := Ranked(scores, metadata);
    RankedSpec(scores, metadata);
    KeptFromInput(ranked);
    KeptSorted(ranked);
    KeptDistinct(ranked);
  }

  /** At most top_k results when top_k is at least one, at most one otherwise;
      an empty index gives none. */
  lemma AssembleBound(scores: seq<real>, metadata: seq<Row>, topK: int)
    ensures topK >= 1 ==> |Assemble(scores, metadata, topK)| <= topK
    ensures topK <= 0 ==> |Assemble(scores, metadata, topK)| <= 1
    ensures metadata == [] ==> Assemble(scores, metadata, topK) == []
  {
  }

  /** Each result is one indexed document: its score is that document's
      score, and its content and metadata together are that document's row. */
  lemma AssembleFromIndex(scores: seq<real>, metadata: seq<Row>, topK: int)
    ensures forall k :: 0 <= k < |Assemble(scores, metadata, topK)| ==>
      exists i :: (0 <= i < |scores| && i < |metadata| && scores[i] == Assemble(scores, metadata, topK)[k].score &&
                   metadata[i] == WithContent(Assemble(scores, metadata, topK)[k].metadata, Assemble(scores, metadata, topK)[k].content))
  {
    var ranked := Ranked(scores, metadata);
    var cs := Candidates(scores, metadata);
    RankedSpec(scores, metadata);
    KeptFromInput(ranked);
    var r := Assemble(scores, metadata, topK);
    var kept := Kept(ranked);
    forall k | 0 <= k < |r|
      ensures exists i :: (0 <= i < |scores| && i < |metadata| && scores[i] == r[k].score
                           && metadata[i] == WithContent(r[k].metadata, r[k].content))
    {
      assert r[k] == ToResult(kept[k]);
      assert kept[k] in multiset(cs);
      var i :| 0 <= i < |cs| && cs[i] == kept[k];
      assert scores[i] == r[k].score;
    }
  }

  /** Of the documents sharing a result's (content, file source, label),
      the result carries the best score: the first in sorted order is kept. */
  lemma AssembleKeepsFirst(scores: seq<real>, metadata: seq<Row>, topK: int)
    ensures forall k, i ::
      (0 <= k < |Assemble(scores, metadata, topK)| && 0 <= i < |scores| && i < |metadata| &&
       scores[i] > 0.0 && KeyOf(metadata[i]) == ResultKeyOf(Assemble(scores, metadata, topK)[k])) ==>
      Assemble(scores, metadata, topK)[k].score >= scores[i]
  {
    var r := Assemble(scores, metadata, topK);
    forall k, i | 0 <= k < |r| && 0 <= i < |scores| && i < |metadata|
      && scores[i] > 0.0 && KeyOf(metadata[i]) == ResultKeyOf(r[k])
      ensures r[k].score >= scores[i]
    {
      KeptBeatsSameKey(scores, metadata, k, i);
    }
  }

  lemma KeptBeatsSameKey(scores: seq<real>, metadata: seq<Row>, k: nat, i: nat)
    requires k < |Kept(Ranked(scores, metadata))|
    requires i < |scores| && i < |metadata| && scores[i] > 0.0
    requires KeyOf(metadata[i]) == KeyOfCandidate(Kept(Ranked(scores, metadata))[k])
    ensures Kept(Ranked(scores, metadata))[k].score >= scores[i]
  {
    var ranked := Ranked(scores, metadata);
    var cs := Candidates(scores, metadata);
    RankedSpec(scores, metadata);
    assert cs[i] in multiset(ranked);
    var j :| 0 <= j < |ranked| && ranked[j] == cs[i];
    var k', m := KeptFirstAt(ranked, j);
    KeptDistinct(ranked);
    assert k' == k;
    if m < j {
      assert Precedes(ranked[m], ranked[j]);
    }
  }

  /** When fewer than the limit come back, nothing relevant was cut: every
      document with a positive score has its key among the results. */
  lemma AssembleComplete(scores: seq<real>, metadata: seq<Row>, topK: int)
    ensures |Assemble(scores, metadata, topK)| < Limit(topK) ==>
      forall i :: 0 <= i < |scores| && i < |metadata| && scores[i] > 0.0 ==>
        exists k :: 0 <= k < |Assemble(scores, metadata, topK)| && ResultKeyOf(Assemble(scores, metadata, topK)[k]) == KeyOf(metadata[i])
  {
    var r := Assemble(scores, metadata, topK);
    var ranked := Ranked(scores, metadata);
    var cs := Candidates(scores, metadata);
    var kept := Kept(ranked);
    if |r| < Limit(topK) {
      RankedSpec(scores, metadata);
      forall i | 0 <= i < |scores| && i < |metadata| && scores[i] > 0.0
        ensures exists k :: 0 <= k < |r| && ResultKeyOf(r[k]) == KeyOf(metadata[i])
      {
        assert cs[i] in multiset(ranked);
        var j :| 0 <= j < |ranked| && ranked[j] == cs[i];
        var k, m := KeptFirstAt(ranked, j);
        assert r[k] == ToResult(kept[k]);
      }
    }
  }

  /** When top_k cuts the list, what is cut scores no higher than what is
      kept: a positively scored document whose key is not among the results
      scores no higher than any result. */
  lemma AssembleKeepsBest(scores: seq<real>, metadata: seq<Row>, topK: int, i: nat)
    requires i < |scores| && i < |metadata| && scores[i] > 0.0
    requires forall k :: 0 <= k < |Assemble(scores, metadata, topK)| ==>
      ResultKeyOf(Assemble(scores, metadata, topK)[k]) != KeyOf(metadata[i])
    ensures forall k :: 0 <= k < |Assemble(scores, metadata, topK)| ==>
      Assemble(scores, metadata, topK)[k].score >= scores[i]
  {
    var r := Assemble(scores, metadata, topK);
    var ranked := Ranked(scores, metadata);
    var cs := Candidates(scores, metadata);
    var kept := Kept(ranked);
    RankedSpec(scores, metadata);
    KeptSorted(ranked);
    assert cs[i] in multiset(ranked);
    var j :| 0 <= j < |ranked| && ranked[j] == cs[i];
    var kj, m := KeptFirstAt(ranked, j);
    assert forall k :: 0 <= k < |r| ==> r[k] == ToResult(kept[k]);
    assert ResultKeyOf(ToResult(kept[kj])) == KeyOf(metadata[i]);
    assert kj >= |r|;
    if m < j {
      assert Precedes(ranked[m], ranked[j]);
    }
    forall k | 0 <= k < |r|
      ensures r[k].score >= scores[i]
    {
      assert r[k] == ToResult(kept[k]);
      assert Precedes(kept[k], kept[kj]);
    }
  }

  /** The bound is checked only after a result is added, so a top_k of zero
      or less still lets the first relevant result through. */
  lemma AssembleTopKZero(row: Row)
    ensures |Assemble([1.0], [row], 0)| == 1
  {
    var cs := Candidates([1.0], [row]);
    assert cs == [Candidate(1.0, row, 0)];
    assert SortDescending(cs) == cs;
    assert cs[..0] == [];
    assert Kept(cs) == [Candidate(1.0, row, 0)];
  }
}
