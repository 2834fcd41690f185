/** The searcher on the fixtures of its unit tests: the Sonnets opening for the
    work title, the Hamlet opening for the act, and the opening line of
    Hamlet's soliloquy for a substring search. Each fixture is given by the
    part the test's offsets reach; the rest of the text is arbitrary. */
module Fixtures {
  import opened GoStrings
  import opened Sentences
  import opened Matching
  import opened Provenance
  import opened Shakesearch

  /** `line` holds no carriage return, so no line-break. */
  predicate SingleLine(line: string) {
    forall k :: 0 <= k < |line| ==> line[k] != '\r'
  }

  lemma SingleLineAppend(a: string, b: string)
    requires SingleLine(a) && SingleLine(b)
    ensures SingleLine(a + b)
  {
    forall k | 0 <= k < |a + b| ensures (a + b)[k] != '\r' {
      if k >= |a| { assert (a + b)[k] == b[k - |a|]; }
    }
  }

  /** A line without a line-break is split into itself. */
  lemma SplitLine(line: string)
    requires SingleLine(line)
    ensures Split(line, CRLF) == [line]
  {
    forall i | 0 <= i <= |line| - 2 ensures !OccursAt(line, CRLF, i) {
      assert line[i..i + 2][0] == line[i];
    }
    SplitWithout(line, CRLF);
  }

  /** Text without a line-break is left as it is by the `<br>` replacement. */
  lemma ReplaceLine(line: string)
    requires SingleLine(line)
    ensures Replace(line, CRLF, "<br>") == line
  {
    SplitLine(line);
    ReplaceIsJoinSplit(line, CRLF, "<br>");
  }

  // ---------------------------------------------------------------------------
  // The work title

  const SonnetsTitle: string := "THE SONNETS"

  /** The first 28 characters of the Sonnets: the title, the contents line and
      the first character of "by William Shakespeare". */
  function SonnetsOpening(): string {
    SonnetsTitle + CRLF + (CRLF + (ContentsLine + CRLF + (CRLF + "b")))
  }

  /** A line-break at the start of a text splits off an empty line. */
  lemma SplitBlank(rest: string)
    ensures Split(CRLF + rest, CRLF) == [""] + Split(rest, CRLF)
  {
    SplitLine("");
    SplitLinesAppend("", rest);
    assert "" + CRLF + rest == CRLF + rest;
  }

  /** A line without a line-break, a line-break and more text are split into
      the line and the lines of the rest. */
  lemma SplitFirst(line: string, rest: string)
    requires SingleLine(line)
    ensures Split(line + CRLF + rest, CRLF) == [line] + Split(rest, CRLF)
  {
    SplitLine(line);
    SplitLinesAppend(line, rest);
  }

  lemma SonnetsLines()
    ensures Split(SonnetsOpening(), CRLF) == [SonnetsTitle, "", ContentsLine, "", "b"]
  {
    var blankThenB := CRLF + "b";
    assert Split(blankThenB, CRLF) == ["", "b"] by {
      SplitBlank("b");
      SplitLine("b");
    }
    var fromContents := ContentsLine + CRLF + blankThenB;
    assert Split(fromContents, CRLF) == [ContentsLine, "", "b"] by {
      SplitFirst(ContentsLine, blankThenB);
    }
    var afterTitle := CRLF + fromContents;
    assert Split(afterTitle, CRLF) == ["", ContentsLine, "", "b"] by {
      SplitBlank(fromContents);
    }
    SplitFirst(SonnetsTitle, afterTitle);
  }

  /** The title recovered for offset 28 of the Sonnets is "THE SONNETS". */
  lemma SonnetsWorkTitle(rest: string)
    ensures |SonnetsOpening() + rest| >= 28
    ensures WorkTitle(Split((SonnetsOpening() + rest)[..28], CRLF)) == SonnetsTitle
  {
    var p := SonnetsOpening();
    assert |p| == 28;
    assert (p + rest)[..28] == p;
    SonnetsLines();
    SonnetsTitleOf(Split(p, CRLF));
  }

  lemma SonnetsTitleOf(lines: seq<string>)
    requires lines == [SonnetsTitle, "", ContentsLine, "", "b"]
    ensures WorkTitle(lines) == SonnetsTitle
  {
    assert TitleLine(lines, 2, 0);
    WorkTitleIsTitleLine(lines, 2, 0);
  }

  // ---------------------------------------------------------------------------
  // The act

  const ActOne: string := "ACT I"
  const SceneOne: string := "SCENE I."
  const Elsinore: string := " Elsinore."
  const APlatfor: string := " A platfor"
  /** The first 28 characters of the line after "ACT I". */
  const SceneOneStart: string := SceneOne + Elsinore + APlatfor

  lemma HamletLines()
    ensures Split(ActOne + CRLF + SceneOneStart, CRLF) == [ActOne, SceneOneStart]
  {
    assert SingleLine(SceneOneStart) by {
      assert SingleLine(SceneOne) && SingleLine(Elsinore) && SingleLine(APlatfor);
      SingleLineAppend(SceneOne, Elsinore);
      SingleLineAppend(SceneOne + Elsinore, APlatfor);
    }
    SplitLine(SceneOneStart);
    SplitFirst(ActOne, SceneOneStart);
  }

  /** The act recovered for offset 35 of Hamlet is "ACT I". */
  lemma HamletAct(rest: string)
    ensures |ActOne + CRLF + SceneOneStart + rest| >= 35
    ensures ActOf(Split((ActOne + CRLF + SceneOneStart + rest)[..35], CRLF)) == ActOne
  {
    var p := ActOne + CRLF + SceneOneStart;
    assert (p + rest)[..35] == p;
    var lines := [ActOne, SceneOneStart];
    HamletLines();
    assert !HasPrefix(SceneOneStart, ActPrefix) by {
      assert SceneOneStart[0] != ActPrefix[0];
    }
    ActOfAt(lines, 0);
    ActOneHeading();
  }

  /** "ACT I" holds no '.', so it is its own act. */
  lemma ActOneHeading()
    ensures Split(ActOne, ".")[0] == ActOne
  {
    forall i | 0 <= i <= |ActOne| - 1 ensures !OccursAt(ActOne, ".", i) {
      assert ActOne[i..i + 1][0] == ActOne[i];
    }
    SplitWithout(ActOne, ".");
  }

  // ---------------------------------------------------------------------------
  // A substring search for "be" with query size 10

  /** A snippet cut at white space keeps what lies between its first and its
      last space when no other separator lies outside them. */
  lemma TrimBetweenSpaces(head: string, e: string, tail: string)
    requires forall k :: 0 <= k < |head| ==> head[k] !in Separators(true)
    requires forall k :: 0 <= k < |tail| ==> tail[k] !in Separators(true)
    requires e != [] && !IsSpace(e[0]) && !IsSpace(e[|e| - 1])
    ensures TrimSentences(head + " " + e + " " + tail, true) == e
  {
    var s := head + " " + e + " " + tail;
    var i, j := |head|, |head| + 1 + |e|;
    SpacesOuter(head, e, tail);
    TrimSentencesBetween(s, true, i, j);
    SpacesMiddle(head, e, tail);
    TrimSpaceOf("", e, " ");
  }

  lemma SpacesOuter(head: string, e: string, tail: string)
    requires forall k :: 0 <= k < |head| ==> head[k] !in Separators(true)
    requires forall k :: 0 <= k < |tail| ==> tail[k] !in Separators(true)
    ensures OuterSeparators(head + " " + e + " " + tail, Separators(true), |head|, |head| + 1 + |e|)
  {
    var s := head + " " + e + " " + tail;
    var i, j := |head|, |head| + 1 + |e|;
    assert s[i] == ' ' && s[j] == ' ';
    forall k | 0 <= k < i ensures s[k] !in Separators(true) {
      assert s[k] == head[k];
    }
    forall k | j < k < |s| ensures s[k] !in Separators(true) {
      assert s[k] == tail[k - j - 1];
    }
  }

  lemma SpacesMiddle(head: string, e: string, tail: string)
    ensures var s := head + " " + e + " " + tail;
      s[|head| + 1..|head| + |e| + 2] == "" + e + " "
  {
    var s := head + " " + e + " " + tail;
    var mid := s[|head| + 1..|head| + |e| + 2];
    forall k | 0 <= k < |mid| ensures mid[k] == (e + " ")[k] {
      assert mid[k] == s[|head| + 1 + k];
    }
  }

  const To: string := "To"
  const Be: string := "be"
  const Or: string := "or"
  const SpaceNo: string := " no"
  const T: string := "t"
  const ToBeComma: string := "to be,"
  const Hat: string := "hat"

  /** The window of query size 10 around offset 3, clamped at the start: "To be or". */
  function FirstWindow(): string { To + " " + Be + " " + Or }

  /** The window of 10 characters around offset 16: "t to be, t". */
  function SecondWindow(): string { T + " " + ToBeComma + " " + T }

  /** The first 24 characters of the soliloquy, "To be or not to be, that". */
  function SoliloquyOpening(): string {
    FirstWindow() + SpaceNo + SecondWindow() + Hat
  }

  /** The opening is one line starting with 'T'. */
  lemma OpeningLine(completeWorks: string, rest: string, n: int)
    requires completeWorks == SoliloquyOpening() + rest
    requires 1 <= n <= 24
    ensures |completeWorks| >= 24
    ensures SingleLine(completeWorks[..n])
    ensures completeWorks[0] == 'T'
  {
    var o := SoliloquyOpening();
    assert SingleLine(o) by {
      assert SingleLine(To) && SingleLine(" ") && SingleLine(Be) && SingleLine(Or);
      assert SingleLine(SpaceNo) && SingleLine(T) && SingleLine(ToBeComma) && SingleLine(Hat);
      SingleLineAppend(To, " ");
      SingleLineAppend(To + " ", Be);
      SingleLineAppend(To + " " + Be, " ");
      SingleLineAppend(To + " " + Be + " ", Or);
      SingleLineAppend(T, " ");
      SingleLineAppend(T + " ", ToBeComma);
      SingleLineAppend(T + " " + ToBeComma, " ");
      SingleLineAppend(T + " " + ToBeComma + " ", T);
      SingleLineAppend(FirstWindow(), SpaceNo);
      SingleLineAppend(FirstWindow() + SpaceNo, SecondWindow());
      SingleLineAppend(FirstWindow() + SpaceNo + SecondWindow(), Hat);
    }
    forall k | 0 <= k < n ensures completeWorks[..n][k] != '\r' {
      assert completeWorks[..n][k] == o[k];
    }
    assert completeWorks[0] == o[0] == To[0];
  }

  /** The two windows sit at offsets 0 and 11 of the opening. */
  lemma OpeningWindows(completeWorks: string, rest: string)
    requires completeWorks == SoliloquyOpening() + rest
    ensures |completeWorks| >= 24
    ensures completeWorks[0..8] == FirstWindow()
    ensures completeWorks[11..21] == SecondWindow()
  {
    assert completeWorks == FirstWindow() + SpaceNo + SecondWindow() + (Hat + rest);
  }

  /** A line of one piece without "Contents" or an act heading has the
      unknown title and no act, so its play is "?". */
  lemma UnknownPlay(line: string)
    requires SingleLine(line) && line != ContentsLine && !HasPrefix(line, ActPrefix)
    ensures Play(WorkTitle(Split(line, CRLF)), ActOf(Split(line, CRLF))) == "?"
  {
    SplitLine(line);
    ScanNoContents([line]);
    ActOfNone([line]);
  }

  /** A match whose text before it is such a line, and whose window is one
      line that trims to `text`, gives `text` of the unknown play. */
  lemma UnknownPlayResult(completeWorks: string, idx: int, querySize: int, text: string)
    requires 0 <= idx < |completeWorks| && 0 <= querySize < CutAtWhitespacesValue
    requires var before := completeWorks[..idx];
      SingleLine(before) && before != ContentsLine && !HasPrefix(before, ActPrefix)
    requires var (start, end) := Window(idx, querySize, |completeWorks|);
      SingleLine(completeWorks[start..end]) && TrimSentences(completeWorks[start..end], true) == text
    requires text != ""
    ensures ResultAt(completeWorks, idx, querySize) == [SearchResult(text, "?")]
  {
    var (start, end) := Window(idx, querySize, |completeWorks|);
    ReplaceLine(completeWorks[start..end]);
    UnknownPlay(completeWorks[..idx]);
  }

  /** The match at offset 3 gives the snippet "be" of the unknown play. */
  lemma FirstResult(completeWorks: string, rest: string)
    requires completeWorks == SoliloquyOpening() + rest
    ensures |completeWorks| > 3
    ensures ResultAt(completeWorks, 3, 10) == [SearchResult("be", "?")]
  {
    OpeningWindows(completeWorks, rest);
    OpeningLine(completeWorks, rest, 8);
    OpeningLine(completeWorks, rest, 3);
    assert Window(3, 10, |completeWorks|) == (0, 8);
    assert completeWorks[0..8] == completeWorks[..8];
    assert TrimSentences(completeWorks[0..8], true) == Be by {
      TrimBetweenSpaces(To, Be, Or);
    }
    UnknownPlayResult(completeWorks, 3, 10, Be);
  }

  /** The match at offset 16 gives the snippet "to be," of the unknown play. */
  lemma SecondResult(completeWorks: string, rest: string)
    requires completeWorks == SoliloquyOpening() + rest
    ensures |completeWorks| > 16
    ensures ResultAt(completeWorks, 16, 10) == [SearchResult("to be,", "?")]
  {
    OpeningWindows(completeWorks, rest);
    OpeningLine(completeWorks, rest, 16);
    OpeningLine(completeWorks, rest, 21);
    assert Window(16, 10, |completeWorks|) == (11, 21);
    assert SingleLine(completeWorks[11..21]) by {
      forall k | 0 <= k < 10 ensures completeWorks[11..21][k] != '\r' {
        assert completeWorks[11..21][k] == completeWorks[..21][11 + k];
      }
    }
    assert TrimSentences(completeWorks[11..21], true) == ToBeComma by {
      assert ToBeComma[0] == 't' && ToBeComma[5] == ',';
      TrimBetweenSpaces(T, ToBeComma, T);
    }
    var before := completeWorks[..16];
    assert before != ContentsLine by {
      assert |before| != |ContentsLine|;
    }
    assert !HasPrefix(before, ActPrefix) by {
      assert before[..4][0] == 'T' != ActPrefix[0];
    }
    UnknownPlayResult(completeWorks, 16, 10, ToBeComma);
  }

  /** The matches of "be" at offsets 3 and 16, located in the lowercase text
      in this order, give the results "be" and "to be,", both of the unknown
      play. */
  lemma SearchBeResults(completeWorks: string, rest: string)
    requires completeWorks == SoliloquyOpening() + rest
    ensures InText(completeWorks, [3, 16])
    ensures Assemble(completeWorks, [3, 16], 10) == [SearchResult("be", "?"), SearchResult("to be,", "?")]
  {
    FirstResult(completeWorks, rest);
    SecondResult(completeWorks, rest);
    AssembleTwo(completeWorks, 3, 16, 10);
  }

  /** "be" matches the opening at offsets 3 and 16 and nowhere else, so a
      substring search over an opening followed by text without "be"
      locates exactly these two offsets, in this order. */
  lemma BeLocated(completeWorks: string, rest: string)
    requires completeWorks == SoliloquyOpening() + rest
    requires !Contains(ToLower(rest), Be)
    ensures Located(completeWorks, Be, false) == [3, 16]
  {
    BeMatches(completeWorks, rest);
    LocatedSpec(completeWorks, Be, false);
    var idxs := Located(completeWorks, Be, false);
    assert idxs == OccurrencesFrom(ToLower(completeWorks), ToLower(Be), 0);
    AscendingPair(idxs, 3, 16);
  }

  /** The offsets where "be" matches the opening up to case. */
  lemma BeMatches(completeWorks: string, rest: string)
    requires completeWorks == SoliloquyOpening() + rest
    requires !Contains(ToLower(rest), Be)
    ensures forall i :: MatchesIgnoringCase(completeWorks, Be, i) <==> i == 3 || i == 16
  {
    var o := SoliloquyOpening();
    assert ToLower(Be) == Be by {
      assert ToLower(Be)[0] == Be[0] && ToLower(Be)[1] == Be[1];
    }
    forall i | MatchesIgnoringCase(completeWorks, Be, i) ensures i == 3 || i == 16 {
      if i >= |o| {
        NotInRest(o, rest, Be, i);
      } else {
        assert LowerChar(completeWorks[i]) == LowerChar(Be[0]) == 'b';
        assert completeWorks[i] == o[i];
        OpeningFoldsToB(i);
      }
    }
    OpeningPieces();
    assert MatchesIgnoringCase(completeWorks, Be, 3) by {
      assert completeWorks[3] == o[3] == 'b' && completeWorks[4] == o[4] == 'e';
    }
    assert MatchesIgnoringCase(completeWorks, Be, 16) by {
      assert completeWorks[16] == o[16] == 'b' && completeWorks[17] == o[17] == 'e';
    }
  }

  /** The opening around its two occurrences of "be". */
  const BeforeBe: string := To + " "
  const BetweenBe: string := " " + Or + SpaceNo + T + " " + "to "
  const AfterBe: string := "," + " " + T + Hat

  lemma OpeningPieces()
    ensures SoliloquyOpening() == BeforeBe + Be + BetweenBe + Be + AfterBe
    ensures |BeforeBe| == 3 && |BetweenBe| == 11 && |AfterBe| == 6
  {
    assert ToBeComma == "to " + Be + ",";
  }

  /** Only offsets 3 and 16 of the opening hold a 'b' or a 'B'. */
  lemma OpeningFoldsToB(i: int)
    requires 0 <= i < |SoliloquyOpening()| && LowerChar(SoliloquyOpening()[i]) == 'b'
    ensures i == 3 || i == 16
  {
    OpeningPieces();
  }

  /** A text whose folded form does not contain the folded query has no
      case-insensitive match of it after a prefix. */
  lemma NotInRest(prefix: string, rest: string, q: string, i: int)
    requires !Contains(ToLower(rest), ToLower(q))
    requires i >= |prefix|
    ensures !MatchesIgnoringCase(prefix + rest, q, i)
  {
    var s := prefix + rest;
    if MatchesIgnoringCase(s, q, i) {
      var j := i - |prefix|;
      assert MatchesIgnoringCase(rest, q, j) by {
        forall k | 0 <= k < |q| ensures LowerChar(rest[j + k]) == LowerChar(q[k]) {
          assert s[i + k] == rest[j + k];
        }
      }
      LowerOccursAt(rest, q, j);
      assert false;
    }
  }

  /** A non-empty list holds its first element. */
  lemma FirstIn(r: seq<int>)
    ensures |r| > 0 ==> r[0] in r
  {
  }

  /** An ascending list holding exactly the values `a < b` is `[a, b]`. */
  lemma AscendingPair(r: seq<int>, a: int, b: int)
    requires a < b
    requires forall k, m :: 0 <= k < m < |r| ==> r[k] < r[m]
    requires forall i :: i in r <==> i == a || i == b
    ensures r == [a, b]
  {
    assert a in r && b in r;
    var ka :| 0 <= ka < |r| && r[ka] == a;
    var kb :| 0 <= kb < |r| && r[kb] == b;
    assert r[0] in r && r[|r| - 1] in r;
    assert r[0] == a && r[|r| - 1] == b;
    assert r[1] in r;
  }

  /** The search for "be" of the substring-mode unit test: the two results
      "be" and "to be,", in this order, both of the unknown play. */
  lemma SearchBeOutcome(completeWorks: string, rest: string)
    requires completeWorks == SoliloquyOpening() + rest
    requires !Contains(ToLower(rest), Be)
    ensures Assemble(completeWorks, Located(completeWorks, Be, false), 10)
         == [SearchResult("be", "?"), SearchResult("to be,", "?")]
  {
    BeLocated(completeWorks, rest);
    SearchBeResults(completeWorks, rest);
  }

  /** The unit test run on a searcher loaded with such a text. */
  method SearchBe(rest: string) returns (results: seq<SearchResult>)
    requires !Contains(ToLower(rest), Be)
    ensures results == [SearchResult("be", "?"), SearchResult("to be,", "?")]
  {
    var searcher := new Searcher.Load(SoliloquyOpening() + rest);
    results := searcher.Search(Be, 10, false);
    SearchBeOutcome(SoliloquyOpening() + rest, rest);
  }

  // ---------------------------------------------------------------------------
  // A whole-word search for "questio"

  const IsThe: string := " is the "
  const Questio: string := "questio"

  /** "questio" is a word query. */
  lemma QuestioWord()
    ensures WordQuery(Questio)
  {
    forall k | 0 <= k < |Questio| ensures IsWordChar(Questio[k]) {
      assert 'a' <= Questio[k] <= 'z';
    }
  }

  /** In "To be or not to be, that is the question", "questio" occurs at
      offset 32 as the start of "question": a substring search locates it
      there, a whole-word search does not. */
  lemma QuestioFragment(completeWorks: string, rest: string)
    requires completeWorks == SoliloquyOpening() + IsThe + Questio + "n" + rest
    ensures WordQuery(Questio)
    ensures 32 in Located(completeWorks, Questio, false)
    ensures 32 !in Located(completeWorks, Questio, true)
  {
    QuestioWord();
    QuestioAt(completeWorks, rest);
    LocatedSpec(completeWorks, Questio, false);
    QuestioCut(completeWorks, rest);
  }

  /** "questio" matches the text at offset 32. */
  lemma QuestioAt(completeWorks: string, rest: string)
    requires completeWorks == SoliloquyOpening() + IsThe + Questio + "n" + rest
    ensures MatchesIgnoringCase(completeWorks, Questio, 32)
  {
    assert |SoliloquyOpening() + IsThe| == 32;
    forall k | 0 <= k < |Questio| ensures completeWorks[32 + k] == Questio[k] {
    }
  }

  /** The match at offset 32 runs on into a word character, so it is no
      whole-word match. */
  lemma QuestioCut(completeWorks: string, rest: string)
    requires completeWorks == SoliloquyOpening() + IsThe + Questio + "n" + rest
    requires WordQuery(Questio) && MatchesIgnoringCase(completeWorks, Questio, 32)
    ensures 32 !in Located(completeWorks, Questio, true)
  {
    var lower := ToLower(completeWorks);
    LowerOccursAt(completeWorks, Questio, 32);
    assert |SoliloquyOpening() + IsThe + Questio| == 39;
    assert completeWorks[39] == 'n';
    assert IsWordChar(lower[32 + |ToLower(Questio)|]);
    FragmentExcluded(lower, ToLower(Questio), 32);
  }

  /** Up to case, "questio" matches an opening followed by text without it
      only at offset 32. */
  lemma QuestioMatches(completeWorks: string, rest: string, i: int)
    requires completeWorks == SoliloquyOpening() + IsThe + Questio + "n" + rest
    requires !Contains(ToLower(rest), Questio)
    requires MatchesIgnoringCase(completeWorks, Questio, i)
    ensures i == 32
  {
    assert LowerChar(completeWorks[i]) == 'q' by {
      assert LowerChar(completeWorks[i]) == LowerChar(Questio[0]);
    }
    if i >= 40 {
      QuestioLower();
      assert completeWorks == SoliloquyOpening() + IsThe + Questio + "n" + rest;
      NotInRest(SoliloquyOpening() + IsThe + Questio + "n", rest, Questio, i);
    } else if i != 32 {
      QuestioOnlyQ(completeWorks, rest, i);
    }
  }

  /** "questio" is already folded. */
  lemma QuestioLower()
    ensures ToLower(Questio) == Questio
  {
    forall k | 0 <= k < |Questio| ensures ToLower(Questio)[k] == Questio[k] {
      assert 'a' <= Questio[k] <= 'z';
    }
  }

  /** Offset 32 is the only offset of "To be or not to be, that is the
      question" holding a 'q' or a 'Q'. */
  lemma QuestioOnlyQ(completeWorks: string, rest: string, i: int)
    requires completeWorks == SoliloquyOpening() + IsThe + Questio + "n" + rest
    requires 0 <= i < 40 && i != 32
    ensures LowerChar(completeWorks[i]) != 'q'
  {
    var o := SoliloquyOpening();
    assert |o| == 24 && |IsThe| == 8;
    if i < 24 {
      OpeningAvoidsQ();
      assert completeWorks[i] == o[i] && o[i] in o;
    } else if i < 32 {
      assert completeWorks[i] == IsThe[i - 24] && IsThe[i - 24] in IsThe;
    } else if i < 39 {
      assert Questio[1..] == "uestio";
      assert completeWorks[i] == Questio[1..][i - 33] && Questio[1..][i - 33] in "uestio";
    } else {
      assert completeWorks[i] == 'n';
    }
  }

  lemma OpeningAvoidsQ()
    ensures 'q' !in SoliloquyOpening() && 'Q' !in SoliloquyOpening()
  {
    assert 'q' !in FirstWindow() && 'Q' !in FirstWindow();
    assert 'q' !in SecondWindow() && 'Q' !in SecondWindow();
  }

  /** A whole-word search for "questio" over the opening line followed by
      text without it locates nothing: its one occurrence is the start of
      "question". */
  lemma QuestioLocated(completeWorks: string, rest: string)
    requires completeWorks == SoliloquyOpening() + IsThe + Questio + "n" + rest
    requires !Contains(ToLower(rest), Questio)
    ensures WordQuery(Questio)
    ensures Located(completeWorks, Questio, true) == []
  {
    QuestioFragment(completeWorks, rest);
    LocatedSpec(completeWorks, Questio, true);
    var idxs := Located(completeWorks, Questio, true);
    forall i | i in idxs ensures i == 32 {
      LowerOccursAt(completeWorks, Questio, i);
      QuestioMatches(completeWorks, rest, i);
    }
    FirstIn(idxs);
  }

  /** The search of the whole-word unit test: no result. */
  lemma SearchQuestioOutcome(completeWorks: string, rest: string)
    requires completeWorks == SoliloquyOpening() + IsThe + Questio + "n" + rest
    requires !Contains(ToLower(rest), Questio)
    ensures WordQuery(Questio)
    ensures Assemble(completeWorks, Located(completeWorks, Questio, true), 10) == []
  {
    QuestioLocated(completeWorks, rest);
  }

  /** The unit test run on a searcher loaded with such a text. */
  method SearchQuestio(rest: string) returns (results: seq<SearchResult>)
    requires !Contains(ToLower(rest), Questio)
    ensures results == []
  {
    var completeWorks := SoliloquyOpening() + IsThe + Questio + "n" + rest;
    SearchQuestioOutcome(completeWorks, rest);
    var searcher := new Searcher.Load(completeWorks);
    results := searcher.Search(Questio, 10, true);
  }

  /** The results of two offsets are those of the first, then the second. */
  lemma AssembleTwo(completeWorks: string, i: int, j: int, querySize: int)
    requires 0 <= i < |completeWorks| && 0 <= j < |completeWorks| && querySize >= 0
    ensures InText(completeWorks, [i, j])
    ensures Assemble(completeWorks, [i, j], querySize)
         == ResultAt(completeWorks, i, querySize) + ResultAt(completeWorks, j, querySize)
  {
    var f := ResultOf(completeWorks, querySize);
    MapTwo(f, i, j);
    FlattenTwo(f(i), f(j));
  }

  lemma MapTwo<X>(f: int -> X, i: int, j: int)
    ensures MapOffsets(f, [i, j]) == [f(i), f(j)]
  {
  }

  lemma FlattenTwo(a: seq<SearchResult>, b: seq<SearchResult>)
    ensures Flatten([a, b]) == a + b
  {
    assert [a][..0] == [];
    assert Flatten([a]) == a;
    assert [a, b][..1] == [a];
    assert Flatten([a, b]) == Flatten([a]) + b;
  }
}
