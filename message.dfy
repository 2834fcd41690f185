/** The summary message of a search response: which query was searched for
    and how many results it returned, with the count in decimal and the noun
    in the singular for exactly one result. */
module Message {
  import opened GoStrings

  // ---------------------------------------------------------------------------
  // Decimal numerals

  function DigitChar(d: int): (c: char)
    requires 0 <= d < 10
    ensures '0' <= c <= '9'
  {
    "0123456789"[d]
  }

  function DigitValue(c: char): int {
    c as int - '0' as int
  }

  lemma DigitRoundTrip(d: int)
    requires 0 <= d < 10
    ensures DigitValue(DigitChar(d)) == d
  {
    assert "0123456789"[d] as int == '0' as int + d;
  }

  predicate IsDigits(s: string) {
    forall k :: 0 <= k < |s| ==> '0' <= s[k] <= '9'
  }

  /** `strconv.Itoa` on a count: its decimal numeral, without leading zeros. */
  function Itoa(n: nat): (s: string)
    ensures |s| >= 1 && IsDigits(s)
    ensures s[0] == '0' <==> n == 0
    decreases n
  {
    if n < 10 then [DigitChar(n)] else Itoa(n / 10) + [DigitChar(n % 10)]
  }

  /** The value of a decimal numeral. */
  function Atoi(s: string): int
    decreases |s|
  {
    if |s| == 0 then 0 else Atoi(s[..|s| - 1]) * 10 + DigitValue(s[|s| - 1])
  }

  /** Reading back the numeral of a count gives the count. */
  lemma {:induction false} AtoiItoa(n: nat)
    ensures Atoi(Itoa(n)) == n
    decreases n
  {
    var s := Itoa(n);
    if n < 10 {
      assert s[..0] == [];
      DigitRoundTrip(n);
    } else {
      AtoiItoa(n / 10);
      assert s[..|s| - 1] == Itoa(n / 10);
      DigitRoundTrip(n % 10);
    }
  }

  /** Counts with the same numeral are the same count. */
  lemma ItoaInjective(a: nat, b: nat)
    requires Itoa(a) == Itoa(b)
    ensures a == b
  {
    AtoiItoa(a);
    AtoiItoa(b);
  }

  // ---------------------------------------------------------------------------
  // The message

  const TotalOf: string := "a total of "
  const NoResultsStart: string := "no results."
  const NoResults: string := NoResultsStart + " Please try with another sentence or word"
  const Quote: string := "\""
  const Corrected: string := "Your search was corrected to " + Quote
  const CorrectedBy: string := Quote + " by the OpenAI API. The search returned "
  const Searched: string := "You searched for " + Quote
  const SearchedThen: string := Quote + ". The search returned "

  /** The count phrase: "no results ..." for none, otherwise the total in
      decimal followed by "result", with an "s" unless it is exactly one. */
  function ResultsPhrase(resultCount: nat): string {
    if resultCount > 1 then TotalOf + Itoa(resultCount) + " results"
    else if resultCount == 1 then TotalOf + Itoa(resultCount) + " result"
    else NoResults
  }

  /** The query reported: the corrected query when there is one. */
  function FinalQuery(originalQuery: string, correctedQuery: string): (q: string)
    ensures q == originalQuery || q == correctedQuery
    ensures q == correctedQuery <==> correctedQuery != "" || originalQuery == ""
  {
    if correctedQuery != "" then correctedQuery else originalQuery
  }

  /** The message of a response with `resultCount` results. */
  function Message(originalQuery: string, correctedQuery: string, resultCount: nat): string {
    var resultsString := ResultsPhrase(resultCount);
    if correctedQuery != "" then Corrected + correctedQuery + CorrectedBy + resultsString + "."
    else Searched + originalQuery + SearchedThen + resultsString + "."
  }

  /** The phrase says "no results" exactly when there are none; otherwise it
      holds the decimal numeral of the count, without leading zeros, which
      reads back as the count, and the noun is singular exactly for one
      result. */
  lemma ResultsPhraseSpec(resultCount: nat)
    ensures ResultsPhrase(resultCount) == NoResults <==> resultCount == 0
    ensures resultCount > 0 ==> exists numeral, noun ::
      && ResultsPhrase(resultCount) == TotalOf + numeral + noun
      && numeral == Itoa(resultCount)
      && IsDigits(numeral) && numeral[0] != '0' && Atoi(numeral) == resultCount
      && (noun == " result" <==> resultCount == 1)
      && (noun == " results" <==> resultCount > 1)
  {
    if resultCount > 0 {
      AtoiItoa(resultCount);
      var noun := if resultCount == 1 then " result" else " results";
      assert ResultsPhrase(resultCount) == TotalOf + Itoa(resultCount) + noun;
      assert ResultsPhrase(resultCount)[0] == TotalOf[0] != NoResultsStart[0] == NoResults[0];
    }
  }

  /** The message quotes the corrected query when the search was corrected,
      the original query otherwise, and ends with the count phrase. */
  lemma MessageSpec(originalQuery: string, correctedQuery: string, resultCount: nat)
    ensures var m := Message(originalQuery, correctedQuery, resultCount);
      var opening := if correctedQuery != "" then Corrected else Searched;
      var phrase := ResultsPhrase(resultCount) + ".";
      && HasPrefix(m, opening + FinalQuery(originalQuery, correctedQuery) + Quote)
      && |m| >= |phrase| && m[|m| - |phrase|..] == phrase
  {
    var phrase := ResultsPhrase(resultCount) + ".";
    var m := Message(originalQuery, correctedQuery, resultCount);
    if correctedQuery != "" {
      var middle := CorrectedBy[1..];
      assert m == Corrected + correctedQuery + (Quote + middle) + phrase by {
        assert CorrectedBy == Quote + middle;
      }
      QuotedFrame(Corrected, correctedQuery, middle, phrase);
    } else {
      var middle := SearchedThen[1..];
      assert m == Searched + originalQuery + (Quote + middle) + phrase by {
        assert SearchedThen == Quote + middle;
      }
      QuotedFrame(Searched, originalQuery, middle, phrase);
    }
  }

  lemma QuotedFrame(opening: string, q: string, middle: string, phrase: string)
    ensures var m := opening + q + (Quote + middle) + phrase;
      HasPrefix(m, opening + q + Quote) && |m| >= |phrase| && m[|m| - |phrase|..] == phrase
  {
    var m := opening + q + (Quote + middle) + phrase;
    assert m == (opening + q + Quote) + (middle + phrase);
  }
}
