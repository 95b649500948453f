/** The tokenizer of the ranking index: lowercase the text, then keep every
    maximal run of word characters (letters, digits, underscore) and drop
    everything else.  The same function tokenizes stored content and
    queries.  Characters are treated as ASCII. */
module Tokenizer {

  predicate IsWordChar(c: char)
  {
    ('a' <= c <= 'z') || ('A' <= c <= 'Z') || ('0' <= c <= '9') || c == '_'
  }

  predicate IsUpper(c: char)
  {
    'A' <= c <= 'Z'
  }

  function ToLower(c: char): (r: char)
    ensures !IsUpper(r)
    ensures IsWordChar(r) <==> IsWordChar(c)
    ensures !IsUpper(c) ==> r == c
  {
    if IsUpper(c) then (c as int + 32) as char else c
  }

  function Lower(s: string): (r: string)
    ensures |r| == |s|
    ensures forall i :: 0 <= i < |r| ==> !IsUpper(r[i]) && (IsWordChar(r[i]) <==> IsWordChar(s[i]))
    ensures forall i :: 0 <= i < |r| && !IsUpper(s[i]) ==> r[i] == s[i]
  {
    seq(|s|, i requires 0 <= i < |s| => ToLower(s[i]))
  }

  predicate NoUpper(s: string)
  {
    forall i :: 0 <= i < |s| ==> !IsUpper(s[i])
  }

  /** A word: non-empty and made of word characters only. */
  predicate IsWord(t: string)
  {
    |t| > 0 && forall i :: 0 <= i < |t| ==> IsWordChar(t[i])
  }

  /** A token: a word with no upper-case letter. */
  predicate IsToken(t: string)
  {
    IsWord(t) && NoUpper(t)
  }

  /** The length of the run of word characters at the front of s. */
  function WordRun(s: string): (n: nat)
    ensures n <= |s|
    ensures forall i :: 0 <= i < n ==> IsWordChar(s[i])
    ensures n < |s| ==> !IsWordChar(s[n])
  {
    if s == [] || !IsWordChar(s[0]) then 0 else 1 + WordRun(s[1..])
  }

  /** The maximal runs of word characters of s, left to right. */
  function Runs(s: string): (ts: seq<string>)
    ensures forall t :: t in ts ==> |t| > 0
    ensures forall t, i :: t in ts && 0 <= i < |t| ==> IsWordChar(t[i])
    ensures NoUpper(s) ==> forall t :: t in ts ==> NoUpper(t)
    decreases |s|
  {
    if s == [] then []
    else if !IsWordChar(s[0]) then Runs(s[1..])
    else
      var n := WordRun(s);
      [s[..n]] + Runs(s[n..])
  }

  /** Tokenize(text): the maximal word-character runs of the lowercased text. */
  function Tokenize(text: string): (tokens: seq<string>)
    ensures forall t :: t in tokens ==> IsToken(t)
  {
    Runs(Lower(text))
  }

  /** The word characters of s, in order: what the tokens consist of. */
  function WordChars(s: string): (w: string)
  {
    if s == [] then []
    else if IsWordChar(s[0]) then [s[0]] + WordChars(s[1..])
    else WordChars(s[1..])
  }

  function Concat(ts: seq<string>): string
  {
    if ts == [] then [] else ts[0] + Concat(ts[1..])
  }

  /** The tokens joined by single spaces (Python's ' '.join). */
  function JoinSpace(ts: seq<string>): string
  {
    if |ts| == 0 then []
    else if |ts| == 1 then ts[0]
    else ts[0] + " " + JoinSpace(ts[1..])
  }

  /** Nothing is lost but separators: the tokens, concatenated, are exactly
      the word characters of the input, in order. */
  lemma {:induction false} RunsCoverWordChars(s: string)
    ensures Concat(Runs(s)) == WordChars(s)
    decreases |s|
  {
    if s == [] {
    } else if !IsWordChar(s[0]) {
      RunsCoverWordChars(s[1..]);
    } else {
      var n := WordRun(s);
      RunsCoverWordChars(s[n..]);
      WordCharsOfRun(s, n);
      assert Runs(s) == [s[..n]] + Runs(s[n..]);
    }
  }

  /** WordChars distributes over a split of s after a leading run of word characters. */
  lemma {:induction false} WordCharsOfRun(s: string, n: nat)
    requires n <= |s|
    requires forall i :: 0 <= i < n ==> IsWordChar(s[i])
    ensures WordChars(s) == s[..n] + WordChars(s[n..])
    decreases n
  {
    if n > 0 {
      WordCharsOfRun(s[1..], n - 1);
      assert s[1..][..n - 1] == s[1..n];
      assert s[1..][n - 1..] == s[n..];
      assert s[..n] == [s[0]] + s[1..n];
    }
  }

  lemma RunsEmpty(s: string)
    ensures Runs(s) == [] <==> WordChars(s) == []
  {
  }

  /** Empty or punctuation-only text, and only such text, gives no tokens. */
  lemma TokenizeEmpty(text: string)
    ensures Tokenize(text) == [] <==> forall i :: 0 <= i < |text| ==> !IsWordChar(text[i])
  {
    RunsEmpty(Lower(text));
    WordCharsEmpty(Lower(text));
  }

  lemma {:induction false} WordCharsEmpty(s: string)
    ensures WordChars(s) == [] <==> forall i :: 0 <= i < |s| ==> !IsWordChar(s[i])
    decreases |s|
  {
    if s != [] {
      WordCharsEmpty(s[1..]);
      if IsWordChar(s[0]) {
        assert WordChars(s)[0] == s[0];
      } else {
        assert forall i :: 1 <= i < |s| ==> s[i] == s[1..][i - 1];
      }
    }
  }

  /** Lowercasing text that has no upper-case letter changes nothing. */
  lemma LowerOfLower(s: string)
    requires NoUpper(s)
    ensures Lower(s) == s
  {
  }

  /** A word followed by nothing or by a non-word character is a run of its own. */
  lemma RunsAfterWord(t: string, rest: string)
    requires IsWord(t)
    requires rest == [] || !IsWordChar(rest[0])
    ensures Runs(t + rest) == [t] + Runs(rest)
  {
    var s := t + rest;
    assert WordRun(s) == |t|;
    assert s[..|t|] == t;
    assert s[|t|..] == rest;
  }

  /** Re-tokenizing the space-joined tokens gives back the same tokens. */
  lemma {:induction false} RunsOfJoinSpace(ts: seq<string>)
    requires forall t :: t in ts ==> IsWord(t)
    ensures Runs(JoinSpace(ts)) == ts
  {
    if |ts| == 1 {
      assert ts[0] in ts;
      RunsAfterWord(ts[0], []);
      assert ts[0] + [] == ts[0];
    } else if |ts| > 1 {
      var t, rest := ts[0], JoinSpace(ts[1..]);
      assert t in ts;
      assert forall u :: u in ts[1..] ==> u in ts;
      RunsOfJoinSpace(ts[1..]);
      assert JoinSpace(ts) == t + (" " + rest);
      RunsAfterWord(t, " " + rest);
      assert (" " + rest)[1..] == rest;
    }
  }

  /** Tokenization is idempotent on its own output: tokenizing the
      space-joined tokens of a text gives the same tokens. */
  lemma TokenizeIdempotent(text: string)
    ensures Tokenize(JoinSpace(Tokenize(text))) == Tokenize(text)
  {
    var ts := Tokenize(text);
    JoinSpaceNoUpper(ts);
    LowerOfLower(JoinSpace(ts));
    RunsOfJoinSpace(ts);
  }

  lemma {:induction false} JoinSpaceNoUpper(ts: seq<string>)
    requires forall t :: t in ts ==> IsToken(t)
    ensures NoUpper(JoinSpace(ts))
  {
    if |ts| == 1 {
      assert ts[0] in ts;
    } else if |ts| > 1 {
      assert ts[0] in ts;
      assert forall u :: u in ts[1..] ==> u in ts;
      JoinSpaceNoUpper(ts[1..]);
      var rest := JoinSpace(ts[1..]);
      assert JoinSpace(ts) == ts[0] + " " + rest;
      forall i | 0 <= i < |JoinSpace(ts)|
        ensures !IsUpper(JoinSpace(ts)[i])
      {
        if i < |ts[0]| {
        } else if i == |ts[0]| {
        } else {
          assert JoinSpace(ts)[i] == rest[i - |ts[0]| - 1];
        }
      }
    }
  }

  /** A leading non-word character is dropped. */
  lemma RunsSkip(c: char, rest: string)
    requires !IsWordChar(c)
    ensures Runs([c] + rest) == Runs(rest)
  {
  }

  lemma LowerHelloWorld()
    ensures Lower("Hello, World!") == "hello" + ([','] + ([' '] + ("world" + ['!'])))
  {
  }

  /** "Hello, World!" gives the two lowercase words, punctuation dropped. */
  lemma TokenizeHelloWorld()
    ensures Tokenize("Hello, World!") == ["hello", "world"]
  {
    var w := "world";
    var tail := [','] + ([' '] + (w + ['!']));
    assert Runs(w + ['!']) == [w] by {
      RunsSkip('!', []);
      RunsAfterWord(w, ['!']);
    }
    assert Runs(tail) == [w] by {
      RunsSkip(' ', w + ['!']);
      RunsSkip(',', [' '] + (w + ['!']));
    }
    assert Runs("hello" + tail) == ["hello", w] by {
      RunsAfterWord("hello", tail);
    }
    LowerHelloWorld();
  }

  /** "a1_b" is one token (digits and underscore are word characters);
      the empty string gives none. */
  lemma TokenizeWordRun()
    ensures Tokenize("a1_b") == ["a1_b"]
    ensures Tokenize("") == []
  {
    assert Lower("a1_b") == "a1_b" + [];
    RunsAfterWord("a1_b", []);
  }
}
