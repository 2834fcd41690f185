/** Sentence trimming of a snippet window: cut away the incomplete sentence at
    each end of the window, keeping what lies between the first and the last
    separator. */
module Sentences {
  import opened GoStrings

  /** The characters that end a sentence. */
  const SentenceSeparators: string := ".,?!"

  /** The separators in force: a space is one too when cutting at white space. */
  function Separators(cutAtWhitespaces: bool): (seps: string)
    ensures forall c :: c in seps <==> c in SentenceSeparators || (cutAtWhitespaces && c == ' ')
  {
    if cutAtWhitespaces then SentenceSeparators + " " else SentenceSeparators
  }

  /** `s` holds separators at two different offsets. */
  predicate TwoSeparators(s: string, seps: string) {
    exists i, j :: 0 <= i < j < |s| && s[i] in seps && s[j] in seps
  }

  /** `i` and `j` are the first and the last separator offsets of `s`. */
  predicate OuterSeparators(s: string, seps: string, i: int, j: int) {
    && 0 <= i <= j < |s|
    && s[i] in seps && s[j] in seps
    && (forall k :: 0 <= k < i ==> s[k] !in seps)
    && (forall k :: j < k < |s| ==> s[k] !in seps)
  }

  /** Removes the incomplete sentences at the beginning and at the end of the
      text. */
  function TrimSentences(fullSentences: string, cutAtWhitespaces: bool): (r: string)
    ensures r != "" ==> !IsSpace(r[0]) && !IsSpace(r[|r| - 1])
    ensures r != "" ==> TwoSeparators(fullSentences, Separators(cutAtWhitespaces))
  {
    TrimBetweenSeparators(fullSentences, Separators(cutAtWhitespaces))
  }

  /** The text between the first separator (exclusive) and the last one
      (inclusive) of any of `seps`, trimmed; nothing unless they are at
      different offsets. */
  function TrimBetweenSeparators(s: string, seps: string): (r: string)
    ensures r != "" ==> !IsSpace(r[0]) && !IsSpace(r[|r| - 1])
    ensures r != "" ==> TwoSeparators(s, seps)
  {
    var first := IndexAny(s, seps);
    var last := LastIndexAny(s, seps);
    if first < 0 || last < 0 || first == last then ""
    else
      assert first < last;
      TrimSpaceSpec(s[first + 1..last + 1]);
      TrimSpace(s[first + 1..last + 1])
  }

  /** With separators at two different offsets, the result is the text from
      just after the first separator through the last separator, trimmed of
      white space; it is empty only when that stretch is all white space. */
  lemma TrimSentencesBetween(s: string, cutAtWhitespaces: bool, i: int, j: int)
    requires i < j
    requires OuterSeparators(s, Separators(cutAtWhitespaces), i, j)
    ensures TrimSentences(s, cutAtWhitespaces) == TrimSpace(s[i + 1..j + 1])
    ensures TrimSentences(s, cutAtWhitespaces) == "" <==> forall k :: i < k <= j ==> IsSpace(s[k])
  {
    TrimBetween(s, Separators(cutAtWhitespaces), i, j);
  }

  lemma TrimBetween(s: string, seps: string, i: int, j: int)
    requires i < j
    requires OuterSeparators(s, seps, i, j)
    ensures TrimBetweenSeparators(s, seps) == TrimSpace(s[i + 1..j + 1])
    ensures TrimBetweenSeparators(s, seps) == "" <==> forall k :: i < k <= j ==> IsSpace(s[k])
  {
    TrimBetweenValue(s, seps, i, j);
    TrimSpaceEmpty(s[i + 1..j + 1]);
    AllSpaceSlice(s, i + 1, j + 1);
  }

  lemma TrimBetweenValue(s: string, seps: string, i: int, j: int)
    requires i < j
    requires OuterSeparators(s, seps, i, j)
    ensures TrimBetweenSeparators(s, seps) == TrimSpace(s[i + 1..j + 1])
  {
    IndexAnyAt(s, seps, i);
    LastIndexAnyAt(s, seps, j);
  }

  /** Trimming keeps a text's freedom from a pattern: the result is a
      stretch of the text. */
  lemma TrimSentencesFree(s: string, cutAtWhitespaces: bool, sep: string)
    requires !Contains(s, sep)
    ensures !Contains(TrimSentences(s, cutAtWhitespaces), sep)
  {
    var seps := Separators(cutAtWhitespaces);
    var first := IndexAny(s, seps);
    var last := LastIndexAny(s, seps);
    if first < 0 || last < 0 || first == last {
      SliceFree(s, sep, 0, 0);
      assert s[0..0] == "";
    } else {
      SliceFree(s, sep, first + 1, last + 1);
      TrimSpaceFree(s[first + 1..last + 1], sep);
    }
  }

  /** Fewer than two separator offsets leave nothing. */
  lemma TrimSentencesNoPair(s: string, cutAtWhitespaces: bool)
    requires !TwoSeparators(s, Separators(cutAtWhitespaces))
    ensures TrimSentences(s, cutAtWhitespaces) == ""
  {
  }

  /** Without white-space cutting the result is empty exactly when the text
      does not hold two separators, and a non-empty result ends with one. */
  lemma TrimSentencesSentenceMode(s: string)
    ensures TrimSentences(s, false) == "" <==> !TwoSeparators(s, SentenceSeparators)
    ensures TrimSentences(s, false) != "" ==>
      TrimSentences(s, false)[|TrimSentences(s, false)| - 1] in SentenceSeparators
  {
    assert Separators(false) == SentenceSeparators;
    TrimBetweenNoSpaceSeparators(s, SentenceSeparators);
  }

  /** When no separator is white space, the last separator survives the trim. */
  lemma TrimBetweenNoSpaceSeparators(s: string, seps: string)
    requires forall c :: c in seps ==> !IsSpace(c)
    ensures TrimBetweenSeparators(s, seps) == "" <==> !TwoSeparators(s, seps)
    ensures TrimBetweenSeparators(s, seps) != "" ==>
      TrimBetweenSeparators(s, seps)[|TrimBetweenSeparators(s, seps)| - 1] in seps
  {
    if TwoSeparators(s, seps) {
      var i, j := IndexAny(s, seps), LastIndexAny(s, seps);
      var a, b :| 0 <= a < b < |s| && s[a] in seps && s[b] in seps;
      assert i <= a < b <= j;
      TrimBetweenValue(s, seps, i, j);
      var mid := s[i + 1..j + 1];
      assert mid[|mid| - 1] == s[j];
      TrimSpaceKeepsLast(mid);
    }
  }

  /** With white-space cutting, two separators may still give nothing: the
      separators found are two adjacent spaces. */
  lemma TrimSentencesSpacesOnly()
    ensures TwoSeparators("a  b", Separators(true))
    ensures TrimSentences("a  b", true) == ""
  {
    var s := "a  b";
    assert s[1] == ' ' && s[2] == ' ';
    TrimSentencesBetween(s, true, 1, 2);
  }

  /** A slice is all white space exactly when its offsets in the text are. */
  lemma AllSpaceSlice(s: string, lo: int, hi: int)
    requires 0 <= lo <= hi <= |s|
    ensures (forall k :: 0 <= k < hi - lo ==> IsSpace(s[lo..hi][k])) <==>
            (forall k :: lo <= k < hi ==> IsSpace(s[k]))
  {
    if forall k :: 0 <= k < hi - lo ==> IsSpace(s[lo..hi][k]) {
      forall k | lo <= k < hi ensures IsSpace(s[k]) {
        assert s[k] == s[lo..hi][k - lo];
      }
    }
  }

  /** A window made of a fragment, a separator, a space, complete sentences
      ending in a separator, a space and another fragment trims to the
      complete sentences, whichever the flag. */
  lemma TrimSentencesAround(head: string, e: string, tail: string, cutAtWhitespaces: bool)
    requires forall k :: 0 <= k < |head| ==> head[k] !in Separators(true)
    requires forall k :: 0 <= k < |tail| ==> tail[k] !in Separators(true)
    requires e != [] && !IsSpace(e[0]) && e[|e| - 1] == '.'
    ensures TrimSentences(head + ". " + e + " " + tail, cutAtWhitespaces) == e
  {
    var q := if cutAtWhitespaces then " " else "";
    var last := |head| + 1 + |e| + |q|;
    AroundSeparators(head, e, tail, cutAtWhitespaces, last);
    AroundSlice(head, e, tail, q);
    TrimSpaceOf(" ", e, q);
    TrimSentencesBetween(head + ". " + e + " " + tail, cutAtWhitespaces, |head|, last);
  }

  lemma AroundSlice(head: string, e: string, tail: string, q: string)
    requires q == " " || q == ""
    ensures var s := head + ". " + e + " " + tail;
      s[|head| + 1..|head| + 1 + |e| + |q| + 1] == " " + e + q
  {
    var s := head + ". " + e + " " + tail;
    var lo := |head| + 1;
    var t := s[lo..lo + |e| + |q| + 1];
    assert |t| == |" " + e + q|;
    forall k | 0 <= k < |t| ensures t[k] == (" " + e + q)[k] {
      assert t[k] == s[lo + k];
    }
  }

  /** In such a window the first separator ends the leading fragment and the
      last one ends the sentences, or is the space after them. */
  lemma AroundSeparators(head: string, e: string, tail: string, cutAtWhitespaces: bool, last: int)
    requires forall k :: 0 <= k < |head| ==> head[k] !in Separators(true)
    requires forall k :: 0 <= k < |tail| ==> tail[k] !in Separators(true)
    requires e != [] && e[|e| - 1] == '.'
    requires last == |head| + 1 + |e| + (if cutAtWhitespaces then 1 else 0)
    ensures OuterSeparators(head + ". " + e + " " + tail, Separators(cutAtWhitespaces), |head|, last)
  {
    var s := head + ". " + e + " " + tail;
    var seps := Separators(cutAtWhitespaces);
    var j := |head| + 1 + |e|;
    forall k | 0 <= k < |head| ensures s[k] !in seps {
      assert s[k] == head[k];
    }
    forall k | last < k < |s| ensures s[k] !in seps {
      if k == j + 1 { assert s[k] == ' '; } else { assert s[k] == tail[k - j - 2]; }
    }
    assert s[|head|] == '.' && s[j] == '.' && s[j + 1] == ' ';
  }

  /** The test's second complete sentence. */
  const SecondSentence: string := "This is the second complete sentence."
  /** The test's third complete sentence, with the space before it. */
  const ThirdSentence: string := " This is the third complete sentence."

  /** The window of the unit test, a fragment of a sentence, two complete
      sentences and the start of another: both settings of the flag give the
      two complete sentences. */
  lemma TrimSentencesExample(cutAtWhitespaces: bool)
    ensures TrimSentences("entence. " + SecondSentence + ThirdSentence + " Thi", cutAtWhitespaces)
         == SecondSentence + ThirdSentence
  {
    var e := SecondSentence + ThirdSentence;
    assert SecondSentence[0] == 'T';
    assert ThirdSentence[|ThirdSentence| - 1] == '.';
    assert "entence. " + SecondSentence + ThirdSentence + " Thi" == "entence" + ". " + e + " " + "Thi";
    TrimSentencesAround("entence", e, "Thi", cutAtWhitespaces);
  }
}
