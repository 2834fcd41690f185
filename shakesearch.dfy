/** The searcher: it holds the complete works and their lowercase copy, locates
    a query in the lowercase copy, and turns every match into a result made of
    the surrounding complete sentences and the play the match belongs to. */
module Shakesearch {
  import opened GoStrings
  import opened Sentences
  import opened Matching
  import opened Provenance

  /** Query sizes below this value also cut snippets at spaces. */
  const CutAtWhitespacesValue: int := 500

  /** One search hit: the snippet shown and the play it comes from. */
  datatype SearchResult = SearchResult(text: string, play: string)

  // ---------------------------------------------------------------------------
  // The specification of one result

  /** The play label: the work title, followed by " - " and the act when the
      act is known. */
  function Play(title: string, act: string): (play: string)
    ensures HasPrefix(play, title)
    ensures play == title <==> act == ""
    ensures act != "" ==> play[|title|..] == " - " + act
  {
    if act != "" then title + " - " + act else title
  }

  /** The bounds of the snippet around a match at `idx` in a text of length
      `len`: half the query size on either side, clamped so that the slice
      stays inside the text without its last character. */
  function Window(idx: int, querySize: int, len: int): (bounds: (int, int))
    requires 0 <= idx < len && querySize >= 0
    ensures 0 <= bounds.0 <= bounds.1 <= len - 1
    ensures idx - querySize / 2 <= bounds.0 <= idx
    ensures bounds.1 <= idx + querySize / 2
  {
    var half := querySize / 2;
    (if idx - half < 0 then 0 else idx - half, if idx + half > len - 1 then len - 1 else idx + half)
  }

  /** An offset lies in the window exactly when it is less than half the
      query size before the match, or before the point that far after it,
      and is not the text's last offset. */
  lemma InWindow(idx: int, querySize: int, len: int, p: int)
    requires 0 <= idx < len && querySize >= 0
    ensures Window(idx, querySize, len).0 <= p < Window(idx, querySize, len).1
        <==> idx - querySize / 2 <= p < idx + querySize / 2 && 0 <= p < len - 1
  {
  }

  /** A match far from both ends of the text gets a full window; near an end
      the window is shorter. */
  lemma WindowLength(idx: int, querySize: int, len: int)
    requires 0 <= idx < len && querySize >= 0
    ensures var (start, end) := Window(idx, querySize, len);
      end - start <= 2 * (querySize / 2)
      && (end - start == 2 * (querySize / 2) <==> querySize / 2 <= idx && idx + querySize / 2 <= len - 1)
  {
  }

  /** The snippet around a match, with line-breaks turned into HTML breaks. */
  function Snippet(completeWorks: string, idx: int, querySize: int): (snippet: string)
    requires 0 <= idx < |completeWorks| && querySize >= 0
    ensures !Contains(snippet, CRLF)
  {
    var (start, end) := Window(idx, querySize, |completeWorks|);
    ReplaceLinesRemovesCRLF(completeWorks[start..end]);
    Replace(completeWorks[start..end], CRLF, "<br>")
  }

  /** The result for a match at `idx`: its trimmed snippet and play, or
      nothing when trimming leaves no complete sentence. A result's text
      holds no raw line break, since the snippet holds none and trimming
      keeps a stretch of it. */
  function ResultAt(completeWorks: string, idx: int, querySize: int): (r: seq<SearchResult>)
    requires 0 <= idx < |completeWorks| && querySize >= 0
    ensures |r| <= 1
    ensures r != [] ==> GoodText(r[0].text)
  {
    var lines := Split(completeWorks[..idx], CRLF);
    var snippet := Snippet(completeWorks, idx, querySize);
    var text := TrimSentences(snippet, querySize < CutAtWhitespacesValue);
    TrimSentencesFree(snippet, querySize < CutAtWhitespacesValue, CRLF);
    if text == "" then [] else [SearchResult(text, Play(WorkTitle(lines), ActOf(lines)))]
  }

  /** `ResultAt` as a total function of the offset, nothing outside the text. */
  function ResultOf(completeWorks: string, querySize: int): int -> seq<SearchResult> {
    idx => if 0 <= idx < |completeWorks| && querySize >= 0 then ResultAt(completeWorks, idx, querySize) else []
  }

  /** `f` applied to each offset, in order. */
  function MapOffsets<T>(f: int -> T, idxs: seq<int>): (r: seq<T>)
    ensures |r| == |idxs|
    ensures forall k :: 0 <= k < |idxs| ==> r[k] == f(idxs[k])
  {
    seq(|idxs|, k requires 0 <= k < |idxs| => f(idxs[k]))
  }

  /** The results of several offsets, one after the other. */
  function Flatten(parts: seq<seq<SearchResult>>): seq<SearchResult>
    decreases |parts|
  {
    if |parts| == 0 then [] else Flatten(parts[..|parts| - 1]) + parts[|parts| - 1]
  }

  /** The results for the located offsets, in their order. */
  function Assemble(completeWorks: string, idxs: seq<int>, querySize: int): seq<SearchResult>
    requires InText(completeWorks, idxs) && querySize >= 0
  {
    Flatten(MapOffsets(ResultOf(completeWorks, querySize), idxs))
  }

  lemma MapAppend<T>(f: int -> T, xs: seq<int>, ys: seq<int>)
    ensures MapOffsets(f, xs + ys) == MapOffsets(f, xs) + MapOffsets(f, ys)
  {
    var l, r := MapOffsets(f, xs + ys), MapOffsets(f, xs) + MapOffsets(f, ys);
    forall k | 0 <= k < |l| ensures l[k] == r[k] {
      if k < |xs| { assert (xs + ys)[k] == xs[k]; } else { assert (xs + ys)[k] == ys[k - |xs|]; }
    }
  }

  lemma MapPrefix<T>(f: int -> T, xs: seq<int>, n: int)
    requires 0 <= n <= |xs|
    ensures MapOffsets(f, xs)[..n] == MapOffsets(f, xs[..n])
  {
  }

  lemma {:induction false} FlattenAppend(xs: seq<seq<SearchResult>>, ys: seq<seq<SearchResult>>)
    ensures Flatten(xs + ys) == Flatten(xs) + Flatten(ys)
    decreases |ys|
  {
    if |ys| > 0 {
      var init := ys[..|ys| - 1];
      FlattenAppend(xs, init);
      assert (xs + ys)[..|xs + ys| - 1] == xs + init;
    } else {
      assert xs + ys == xs;
    }
  }

  /** Parts of at most one result each, each with a text as shown
      (`GoodText`), flatten to no more results than parts, all of that kind. */
  lemma {:induction false} FlattenTexts(parts: seq<seq<SearchResult>>)
    requires forall k :: 0 <= k < |parts| ==> |parts[k]| <= 1
    requires forall k :: 0 <= k < |parts| ==> parts[k] != [] ==> GoodText(parts[k][0].text)
    ensures |Flatten(parts)| <= |parts|
    ensures forall k :: 0 <= k < |Flatten(parts)| ==> GoodText(Flatten(parts)[k].text)
    decreases |parts|
  {
    if |parts| > 0 {
      var init, last := parts[..|parts| - 1], parts[|parts| - 1];
      FlattenTexts(init);
      var a, all := Flatten(init), Flatten(parts);
      forall k | 0 <= k < |all| ensures GoodText(all[k].text) {
        if k < |a| { assert all[k] == a[k]; } else { assert all[k] == last[k - |a|]; }
      }
    }
  }

  /** A snippet as shown: non-empty, without white space at either end, and
      without a raw line break. */
  predicate GoodText(text: string) {
    text != "" && !IsSpace(text[0]) && !IsSpace(text[|text| - 1]) && !Contains(text, CRLF)
  }

  /** Assembling is done offset by offset: the results for two lists of
      offsets one after the other are the results of each, in that order. */
  lemma AssembleAppend(completeWorks: string, xs: seq<int>, ys: seq<int>, querySize: int)
    requires InText(completeWorks, xs) && InText(completeWorks, ys) && querySize >= 0
    ensures InText(completeWorks, xs + ys)
    ensures Assemble(completeWorks, xs + ys, querySize)
         == Assemble(completeWorks, xs, querySize) + Assemble(completeWorks, ys, querySize)
  {
    assert InText(completeWorks, xs + ys) by {
      forall k | 0 <= k < |xs + ys| ensures 0 <= (xs + ys)[k] < |completeWorks| {
        if k >= |xs| { assert (xs + ys)[k] == ys[k - |xs|]; }
      }
    }
    var f := ResultOf(completeWorks, querySize);
    MapAppend(f, xs, ys);
    FlattenAppend(MapOffsets(f, xs), MapOffsets(f, ys));
  }

  /** Assembling one more of the located offsets appends its result. */
  lemma AssembleNext(completeWorks: string, idxs: seq<int>, n: int, querySize: int)
    requires InText(completeWorks, idxs) && querySize >= 0
    requires 0 <= n < |idxs|
    ensures InText(completeWorks, idxs[..n]) && InText(completeWorks, idxs[..n + 1])
    ensures Assemble(completeWorks, idxs[..n + 1], querySize)
         == Assemble(completeWorks, idxs[..n], querySize) + ResultAt(completeWorks, idxs[n], querySize)
  {
    var f := ResultOf(completeWorks, querySize);
    var parts := MapOffsets(f, idxs[..n + 1]);
    MapPrefix(f, idxs[..n + 1], n);
    assert idxs[..n + 1][..n] == idxs[..n];
    assert parts[n] == f(idxs[n]);
  }

  /** An offset whose snippet trims to nothing is dropped; any other gives
      one result, in place. */
  lemma AssembleOne(completeWorks: string, xs: seq<int>, idx: int, ys: seq<int>, querySize: int)
    requires InText(completeWorks, xs) && InText(completeWorks, ys) && querySize >= 0
    requires 0 <= idx < |completeWorks|
    ensures InText(completeWorks, xs + [idx] + ys)
    ensures Assemble(completeWorks, xs + [idx] + ys, querySize)
         == Assemble(completeWorks, xs, querySize) + ResultAt(completeWorks, idx, querySize)
            + Assemble(completeWorks, ys, querySize)
  {
    var all := xs + [idx] + ys;
    assert InText(completeWorks, all) by {
      forall k | 0 <= k < |all| ensures 0 <= all[k] < |completeWorks| {
        if k < |xs| { assert all[k] == xs[k]; }
        else if k > |xs| { assert all[k] == ys[k - |xs| - 1]; }
      }
    }
    var f := ResultOf(completeWorks, querySize);
    MapAppend(f, xs, [idx]);
    MapAppend(f, xs + [idx], ys);
    assert MapOffsets(f, [idx]) == [f(idx)];
    FlattenOne(MapOffsets(f, xs), f(idx), MapOffsets(f, ys));
  }

  lemma FlattenOne(xs: seq<seq<SearchResult>>, p: seq<SearchResult>, ys: seq<seq<SearchResult>>)
    ensures Flatten(xs + [p] + ys) == Flatten(xs) + p + Flatten(ys)
  {
    FlattenAppend(xs, [p]);
    FlattenAppend(xs + [p], ys);
    assert [p][..0] == [];
  }

  /** There are at most as many results as located offsets, and every
      result holds a non-empty snippet without white space at either end
      and without a raw line break. */
  lemma AssembleTexts(completeWorks: string, idxs: seq<int>, querySize: int)
    requires InText(completeWorks, idxs) && querySize >= 0
    ensures |Assemble(completeWorks, idxs, querySize)| <= |idxs|
    ensures forall k :: 0 <= k < |Assemble(completeWorks, idxs, querySize)| ==>
      GoodText(Assemble(completeWorks, idxs, querySize)[k].text)
  {
    FlattenTexts(MapOffsets(ResultOf(completeWorks, querySize), idxs));
  }

  // ---------------------------------------------------------------------------
  // The searcher

  class Searcher {
    /** The corpus. */
    const completeWorks: string
    /** The corpus folded to lower case: the text the suffix array indexes. */
    const completeWorksLowercase: string

    /** The lowercase copy is the fold of the corpus. */
    ghost predicate Valid() {
      completeWorksLowercase == ToLower(completeWorks)
    }

    /** Loads a corpus, already read from its file. */
    constructor Load(text: string)
      ensures completeWorks == text
      ensures Valid()
    {
      completeWorks := text;
      completeWorksLowercase := ToLower(text);
    }

    /** The title of the work holding offset `idx`: the last non-empty line
        above the last "Contents" line before `idx`, or "?". */
    method RecoverWorkTitle(idx: int) returns (title: string)
      requires 0 <= idx <= |completeWorks|
      ensures title == WorkTitle(Split(completeWorks[..idx], CRLF))
    {
      var linesList := Split(completeWorks[..idx], CRLF);
      var contentsLineFound := false;
      var i := |linesList| - 1;
      assert linesList[..i + 1] == linesList;
      while i >= 0
        invariant -1 <= i < |linesList|
        invariant TitleScan(linesList[..i + 1], contentsLineFound) == WorkTitle(linesList)
      {
        assert linesList[..i + 1][..i] == linesList[..i];
        if contentsLineFound && linesList[i] != "" {
          return linesList[i];
        }
        if linesList[i] == ContentsLine {
          contentsLineFound := true;
        }
        i := i - 1;
      }
      return "?";
    }

    /** The act holding offset `idx`: the last act heading before `idx`, up to
        its first '.', or "". */
    method RecoverMatchAct(idx: int) returns (act: string)
      requires 0 <= idx <= |completeWorks|
      ensures act == ActOf(Split(completeWorks[..idx], CRLF))
    {
      var linesList := Split(completeWorks[..idx], CRLF);
      var i := |linesList| - 1;
      assert linesList[..i + 1] == linesList;
      while i >= 0
        invariant -1 <= i < |linesList|
        invariant ActOf(linesList[..i + 1]) == ActOf(linesList)
      {
        assert linesList[..i + 1][..i] == linesList[..i];
        if HasPrefix(linesList[i], ActPrefix) {
          var actLine := linesList[i];
          var actLineSubString := Split(actLine, ".")[0];
          return actLineSubString;
        }
        i := i - 1;
      }
      return "";
    }

    /** Searches the corpus for `query`, ignoring case, and gives one result
        per located offset whose snippet keeps a complete sentence, in the
        order the offsets are located. */
    method Search(query: string, querySize: int, useMatchWholeWord: bool) returns (results: seq<SearchResult>)
      requires Valid()
      requires querySize >= 0
      requires useMatchWholeWord ==> WordQuery(query)
      ensures results == Assemble(completeWorks, Located(completeWorks, query, useMatchWholeWord), querySize)
    {
      var cutAtWhitespaces := querySize < CutAtWhitespacesValue;
      var idxs := LocateMatches(query, useMatchWholeWord);

      results := [];
      var n := 0;
      while n < |idxs|
        invariant 0 <= n <= |idxs|
        invariant results == Assemble(completeWorks, idxs[..n], querySize)
      {
        var part := ResultFor(idxs[n], querySize, cutAtWhitespaces);
        AssembleNext(completeWorks, idxs, n, querySize);
        results := results + part;
        n := n + 1;
      }
      assert idxs[..n] == idxs;
    }

    /** The offsets of the query in the lowercase corpus: the suffix-array
        lookup in substring mode, the starts of the matches of `\b<q>\b` in
        whole-word mode. */
    method LocateMatches(query: string, useMatchWholeWord: bool) returns (idxs: seq<int>)
      requires Valid()
      requires useMatchWholeWord ==> WordQuery(query)
      ensures idxs == Located(completeWorks, query, useMatchWholeWord)
    {
      var lowercaseQuery := ToLower(query);
      idxs := [];
      if !useMatchWholeWord {
        idxs := Lookup(completeWorksLowercase, lowercaseQuery);
      } else {
        LowerWordQuery(query);
        var findAllResult := FindAll(completeWorksLowercase, lowercaseQuery);
        if |findAllResult| > 0 {
          var i := 0;
          while i < |findAllResult|
            invariant 0 <= i <= |findAllResult|
            invariant |idxs| == i
            invariant forall k :: 0 <= k < i ==> idxs[k] == findAllResult[k].0
          {
            idxs := idxs + [findAllResult[i].0];
            i := i + 1;
          }
        }
        assert idxs == Starts(findAllResult);
      }
    }

    /** The result for the match at `idx`, with its snippet trimmed to
        complete sentences and labelled with its play; nothing when no
        complete sentence is left. */
    method ResultFor(idx: int, querySize: int, cutAtWhitespaces: bool) returns (part: seq<SearchResult>)
      requires 0 <= idx < |completeWorks| && querySize >= 0
      requires cutAtWhitespaces == (querySize < CutAtWhitespacesValue)
      ensures part == ResultAt(completeWorks, idx, querySize)
    {
      var workTitle := RecoverWorkTitle(idx);
      var workAct := RecoverMatchAct(idx);
      var halfQuerySize := querySize / 2;

      var startIndex := idx - halfQuerySize;
      var endIndex := idx + halfQuerySize;
      if startIndex < 0 {
        startIndex := 0;
      }
      if endIndex > |completeWorks| - 1 {
        endIndex := |completeWorks| - 1;
      }
      assert (startIndex, endIndex) == Window(idx, querySize, |completeWorks|);
      var textFound := completeWorks[startIndex..endIndex];
      var textFoundHtml := Replace(textFound, CRLF, "<br>");
      assert textFoundHtml == Snippet(completeWorks, idx, querySize);
      var trimmedSentence := TrimSentences(textFoundHtml, cutAtWhitespaces);
      part := [];
      if trimmedSentence != "" {
        var play := workTitle;
        if workAct != "" {
          play := play + " - " + workAct;
        }
        part := [SearchResult(trimmedSentence, play)];
      }
    }
  }
}
