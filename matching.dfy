/** Locating a query in the lowercased corpus: the suffix-array lookup of
    every occurrence (substring mode) and the scan for the pattern `\b<q>\b`
    (whole-word mode). */
module Matching {
  import opened GoStrings

  // ---------------------------------------------------------------------------
  // Case-insensitive matching

  /** `q` matches the text at offset `i` when both are folded to lower case. */
  predicate MatchesIgnoringCase(s: string, q: string, i: int) {
    0 <= i && i + |q| <= |s| && forall k :: 0 <= k < |q| ==> LowerChar(s[i + k]) == LowerChar(q[k])
  }

  /** Looking the lowercased query up in the lowercased corpus finds exactly
      the offsets where the query matches the original corpus up to case, and
      those offsets are offsets of the original corpus. */
  lemma LowerOccursAt(s: string, q: string, i: int)
    ensures OccursAt(ToLower(s), ToLower(q), i) <==> MatchesIgnoringCase(s, q, i)
    ensures OccursAt(ToLower(s), ToLower(q), i) ==> i + |q| <= |s|
  {
    var ls, lq := ToLower(s), ToLower(q);
    if OccursAt(ls, lq, i) {
      forall k | 0 <= k < |q| ensures LowerChar(s[i + k]) == LowerChar(q[k]) {
        assert ls[i..i + |lq|][k] == ls[i + k];
      }
    }
    if MatchesIgnoringCase(s, q, i) {
      assert ls[i..i + |lq|] == lq;
    }
  }

  // ---------------------------------------------------------------------------
  // Substring mode: the suffix-array lookup

  /** The offsets from `from` on at which `q` occurs in `s`, in ascending
      order, overlapping occurrences included. */
  function OccurrencesFrom(s: string, q: string, from: nat): (r: seq<int>)
    requires |q| > 0
    ensures forall k :: 0 <= k < |r| ==> from <= r[k] && OccursAt(s, q, r[k])
    ensures forall i :: from <= i && OccursAt(s, q, i) ==> i in r
    ensures forall k, m :: 0 <= k < m < |r| ==> r[k] < r[m]
    decreases |s| - from
  {
    if from + |q| > |s| then []
    else if OccursAt(s, q, from) then [from] + OccurrencesFrom(s, q, from + 1)
    else OccurrencesFrom(s, q, from + 1)
  }

  /** `Lookup(q, -1)` of the suffix array over `s`: every offset at which `q`
      occurs, each once, and nothing for an empty query. The index reports
      them in an order it does not specify; this model lists them in
      ascending order, one of the orders it may use. */
  function Lookup(s: string, q: string): (r: seq<int>)
    ensures forall i :: i in r <==> |q| > 0 && OccursAt(s, q, i)
    ensures forall k, m :: 0 <= k < m < |r| ==> r[k] != r[m]
  {
    if |q| == 0 then [] else OccurrencesFrom(s, q, 0)
  }

  // ---------------------------------------------------------------------------
  // Whole-word mode: the pattern `\b<q>\b`

  /** The queries the whole-word mode handles: non-empty runs of `\w`
      characters, which the pattern matches literally. */
  predicate WordQuery(q: string) {
    |q| > 0 && forall k :: 0 <= k < |q| ==> IsWordChar(q[k])
  }

  /** `q` occurs at `i` with a word boundary `\b` on each side: for a word
      query, the characters just outside the occurrence are absent or are not
      `\w` characters. */
  predicate WordBoundedAt(s: string, q: string, i: int) {
    && OccursAt(s, q, i)
    && (i == 0 || !IsWordChar(s[i - 1]))
    && (i + |q| == |s| || !IsWordChar(s[i + |q|]))
  }

  /** `FindAllIndex` of `\b<q>\b` from offset `from`: the leftmost match, each
      as its start and end offsets, the next search resuming where the
      previous match ended. */
  function FindAllFrom(s: string, q: string, from: nat): (r: seq<(int, int)>)
    requires WordQuery(q)
    ensures forall k :: 0 <= k < |r| ==> from <= r[k].0 && r[k].1 == r[k].0 + |q| && WordBoundedAt(s, q, r[k].0)
    ensures forall k, m :: 0 <= k < m < |r| ==> r[k].1 <= r[m].0
    decreases |s| - from
  {
    if from + |q| > |s| then []
    else if WordBoundedAt(s, q, from) then [(from, from + |q|)] + FindAllFrom(s, q, from + |q|)
    else FindAllFrom(s, q, from + 1)
  }

  /** `FindAllIndex(\b<q>\b, -1)` over the whole text. */
  function FindAll(s: string, q: string): (r: seq<(int, int)>)
    requires WordQuery(q)
    ensures forall k, m :: 0 <= k < m < |r| ==> r[k].0 < r[m].0
  {
    FindAllFrom(s, q, 0)
  }

  /** The start offsets of a list of matches. */
  function Starts(matches: seq<(int, int)>): (r: seq<int>)
    ensures |r| == |matches|
    ensures forall k :: 0 <= k < |r| ==> r[k] == matches[k].0
  {
    seq(|matches|, k requires 0 <= k < |matches| => matches[k].0)
  }

  /** Two bounded occurrences of a word query never overlap: inside an
      occurrence every character is a `\w` character, so no boundary can open
      there. */
  lemma NoOverlap(s: string, q: string, i: int, j: int)
    requires WordQuery(q)
    requires WordBoundedAt(s, q, i) && WordBoundedAt(s, q, j) && i < j
    ensures i + |q| < j
  {
  }

  /** The scan misses no bounded occurrence: because bounded occurrences do
      not overlap, resuming after a match skips none of them. */
  lemma {:induction false} FindAllFromComplete(s: string, q: string, from: nat, i: int)
    requires WordQuery(q)
    requires from <= i && WordBoundedAt(s, q, i)
    ensures HasMatchAt(FindAllFrom(s, q, from), i)
    decreases |s| - from
  {
    var r := FindAllFrom(s, q, from);
    assert from + |q| <= |s|;
    if WordBoundedAt(s, q, from) {
      var rest := FindAllFrom(s, q, from + |q|);
      assert r == [(from, from + |q|)] + rest;
      if i != from {
        NoOverlap(s, q, from, i);
        FindAllFromComplete(s, q, from + |q|, i);
        var k :| 0 <= k < |rest| && rest[k].0 == i;
        assert r[k + 1] == rest[k];
      } else {
        assert r[0].0 == from;
      }
    } else {
      assert r == FindAllFrom(s, q, from + 1);
      FindAllFromComplete(s, q, from + 1, i);
    }
  }

  /** Some match of `r` starts at `i`. */
  predicate HasMatchAt(r: seq<(int, int)>, i: int) {
    exists k :: 0 <= k < |r| && r[k].0 == i
  }

  /** For a word query, the matches of `\b<q>\b` start exactly at the bounded
      occurrences, in ascending order. */
  lemma FindAllStarts(s: string, q: string)
    requires WordQuery(q)
    ensures forall i :: i in Starts(FindAll(s, q)) <==> WordBoundedAt(s, q, i)
    ensures forall k, m :: 0 <= k < m < |FindAll(s, q)| ==> Starts(FindAll(s, q))[k] < Starts(FindAll(s, q))[m]
  {
    var r := FindAll(s, q);
    forall i | WordBoundedAt(s, q, i) ensures i in Starts(r) {
      FindAllFromComplete(s, q, 0, i);
      var k :| 0 <= k < |r| && r[k].0 == i;
      assert Starts(r)[k] == i;
    }
  }

  /** A word fragment is not found: an occurrence followed by a `\w`
      character is not among the matches. */
  lemma FragmentExcluded(s: string, q: string, i: int)
    requires WordQuery(q)
    requires OccursAt(s, q, i) && i + |q| < |s| && IsWordChar(s[i + |q|])
    ensures i !in Starts(FindAll(s, q))
  {
    FindAllStarts(s, q);
  }

  /** Lowercasing keeps a query a word query. */
  lemma LowerWordQuery(q: string)
    requires WordQuery(q)
    ensures WordQuery(ToLower(q))
  {
  }

  // ---------------------------------------------------------------------------
  // The located offsets

  /** Every offset is an offset of the text. */
  predicate InText(s: string, idxs: seq<int>) {
    forall k :: 0 <= k < |idxs| ==> 0 <= idxs[k] < |s|
  }

  /** The offsets at which a search for `query` finds it in the text `s`,
      both folded to lower case: the lookup in substring mode, the starts of
      the matches of `\b<q>\b` in whole-word mode. */
  function Located(s: string, query: string, useMatchWholeWord: bool): (idxs: seq<int>)
    requires useMatchWholeWord ==> WordQuery(query)
    ensures InText(s, idxs)
  {
    if !useMatchWholeWord then
      LookupInText(s, query);
      Lookup(ToLower(s), ToLower(query))
    else
      LowerWordQuery(query);
      Starts(FindAll(ToLower(s), ToLower(query)))
  }

  lemma LookupInText(s: string, query: string)
    ensures InText(s, Lookup(ToLower(s), ToLower(query)))
  {
    var r := Lookup(ToLower(s), ToLower(query));
    forall k | 0 <= k < |r| ensures 0 <= r[k] < |s| {
      LowerOccursAt(s, query, r[k]);
    }
  }

  /** In substring mode the search finds, each once, the offsets where the
      query matches the text up to case; in whole-word mode, in ascending
      order, the offsets where the folded query occurs with a word boundary
      on each side. */
  lemma LocatedSpec(s: string, query: string, useMatchWholeWord: bool)
    requires useMatchWholeWord ==> WordQuery(query)
    ensures var idxs := Located(s, query, useMatchWholeWord);
      !useMatchWholeWord ==>
        (forall i :: i in idxs <==> |query| > 0 && MatchesIgnoringCase(s, query, i))
        && forall k, m :: 0 <= k < m < |idxs| ==> idxs[k] != idxs[m]
    ensures var idxs := Located(s, query, useMatchWholeWord);
      useMatchWholeWord ==>
        (forall i :: i in idxs <==> WordBoundedAt(ToLower(s), ToLower(query), i))
        && forall k, m :: 0 <= k < m < |idxs| ==> idxs[k] < idxs[m]
  {
    if useMatchWholeWord {
      LowerWordQuery(query);
      FindAllStarts(ToLower(s), ToLower(query));
    } else {
      forall i ensures i in Located(s, query, false) <==> |query| > 0 && MatchesIgnoringCase(s, query, i) {
        LowerOccursAt(s, query, i);
      }
    }
  }
}
