/** Where a match comes from: the work title and the act, recovered from the
    lines of the corpus that precede the match. These are the specifications
    the searcher's backward loops are proved against. */
module Provenance {
  import opened GoStrings

  /** The line that, by the corpus's layout, comes right after a work's title. */
  const ContentsLine: string := "Contents"
  /** The start of an act heading. */
  const ActPrefix: string := "ACT "

  // ---------------------------------------------------------------------------
  // Work title

  /** The backward title scan over `lines`, last line first: once the
      contents line has been passed (`found`), the next non-empty line is the
      title; "?" when the lines run out. */
  function TitleScan(lines: seq<string>, found: bool): string
    decreases |lines|
  {
    if |lines| == 0 then "?"
    else
      var line := lines[|lines| - 1];
      if found && line != "" then line
      else TitleScan(lines[..|lines| - 1], found || line == ContentsLine)
  }

  /** The title of the work that the lines belong to. */
  function WorkTitle(lines: seq<string>): string {
    TitleScan(lines, false)
  }

  /** `c` is the last contents line. */
  predicate LastContents(lines: seq<string>, c: int) {
    && 0 <= c < |lines|
    && lines[c] == ContentsLine
    && forall m :: c < m < |lines| ==> lines[m] != ContentsLine
  }

  /** `k` is the last non-empty line before the last contents line `c`. */
  predicate TitleLine(lines: seq<string>, c: int, k: int) {
    && LastContents(lines, c)
    && 0 <= k < c
    && lines[k] != ""
    && forall m :: k < m < c ==> lines[m] == ""
  }

  /** After the contents line, the scan returns the last non-empty line. */
  lemma {:induction false} ScanFound(lines: seq<string>, k: int)
    requires 0 <= k < |lines| && lines[k] != ""
    requires forall m :: k < m < |lines| ==> lines[m] == ""
    ensures TitleScan(lines, true) == lines[k]
    decreases |lines|
  {
    if k < |lines| - 1 {
      ScanFound(lines[..|lines| - 1], k);
    }
  }

  /** After the contents line, lines that are all empty give "?". */
  lemma {:induction false} ScanFoundNone(lines: seq<string>)
    requires forall m :: 0 <= m < |lines| ==> lines[m] == ""
    ensures TitleScan(lines, true) == "?"
    decreases |lines|
  {
    if |lines| > 0 {
      ScanFoundNone(lines[..|lines| - 1]);
    }
  }

  /** Before the contents line is met, the scan skips to it and carries on
      below it. */
  lemma {:induction false} ScanToContents(lines: seq<string>, c: int)
    requires LastContents(lines, c)
    ensures TitleScan(lines, false) == TitleScan(lines[..c], true)
    decreases |lines|
  {
    var init := lines[..|lines| - 1];
    if c < |lines| - 1 {
      assert LastContents(init, c);
      ScanToContents(init, c);
      assert init[..c] == lines[..c];
    } else {
      assert init == lines[..c];
    }
  }

  /** Without a contents line the scan gives "?". */
  lemma {:induction false} ScanNoContents(lines: seq<string>)
    requires forall m :: 0 <= m < |lines| ==> lines[m] != ContentsLine
    ensures TitleScan(lines, false) == "?"
    decreases |lines|
  {
    if |lines| > 0 {
      ScanNoContents(lines[..|lines| - 1]);
    }
  }

  /** The title is the last non-empty line before the last contents line. */
  lemma WorkTitleIsTitleLine(lines: seq<string>, c: int, k: int)
    requires TitleLine(lines, c, k)
    ensures WorkTitle(lines) == lines[k]
  {
    ScanToContents(lines, c);
    ScanFound(lines[..c], k);
  }

  /** Without such a line the title is unknown, "?". */
  lemma WorkTitleUnknown(lines: seq<string>)
    requires forall c, k :: !TitleLine(lines, c, k)
    ensures WorkTitle(lines) == "?"
  {
    if c :| LastContents(lines, c) {
      ScanToContents(lines, c);
      var before := lines[..c];
      forall m | 0 <= m < |before| ensures before[m] == "" {
        if before[m] != "" {
          var k := LastNonEmpty(before, m);
          assert TitleLine(lines, c, k);
        }
      }
      ScanFoundNone(before);
    } else {
      forall m | 0 <= m < |lines| ensures lines[m] != ContentsLine {
        if lines[m] == ContentsLine {
          var c := LastOf(lines, m);
          assert false;
        }
      }
      ScanNoContents(lines);
    }
  }

  /** The last non-empty line, given that line `m` is non-empty. */
  lemma LastNonEmpty(lines: seq<string>, m: int) returns (k: int)
    requires 0 <= m < |lines| && lines[m] != ""
    ensures m <= k < |lines| && lines[k] != ""
    ensures forall j :: k < j < |lines| ==> lines[j] == ""
    decreases |lines| - m
  {
    if exists j :: m < j < |lines| && lines[j] != "" {
      var j :| m < j < |lines| && lines[j] != "";
      k := LastNonEmpty(lines, j);
    } else {
      k := m;
    }
  }

  /** The last contents line, given that line `m` is one. */
  lemma LastOf(lines: seq<string>, m: int) returns (c: int)
    requires 0 <= m < |lines| && lines[m] == ContentsLine
    ensures m <= c && LastContents(lines, c)
    decreases |lines| - m
  {
    if exists j :: m < j < |lines| && lines[j] == ContentsLine {
      var j :| m < j < |lines| && lines[j] == ContentsLine;
      c := LastOf(lines, j);
    } else {
      c := m;
    }
  }

  // ---------------------------------------------------------------------------
  // Act

  /** The act of the last act heading among `lines`: its text before the
      first '.', which would start the scene; "" when there is no heading. */
  function ActOf(lines: seq<string>): string
    decreases |lines|
  {
    if |lines| == 0 then ""
    else
      var line := lines[|lines| - 1];
      if HasPrefix(line, ActPrefix) then Split(line, ".")[0]
      else ActOf(lines[..|lines| - 1])
  }

  /** The text of an act heading before its first '.' still starts with
      "ACT " and holds no '.'. */
  lemma ActHeading(line: string)
    requires HasPrefix(line, ActPrefix)
    ensures HasPrefix(Split(line, ".")[0], ActPrefix)
    ensures '.' !in Split(line, ".")[0]
  {
    var p := Split(line, ".")[0];
    SplitFirstPiece(line, ".");
    forall k | 0 <= k < 4 ensures OccursAt(line, ".", k) == false {
      assert line[k..k + 1] == [line[k]];
      assert line[k] == ActPrefix[k];
    }
    assert |p| >= 4;
    assert p[..4] == line[..4];
    forall k | 0 <= k < |p| ensures p[k] != '.' {
      assert !OccursAt(line, ".", k);
      assert line[k..k + 1] == [p[k]];
    }
  }

  /** The act of the lines is taken from the last act heading. */
  lemma {:induction false} ActOfAt(lines: seq<string>, k: int)
    requires 0 <= k < |lines| && HasPrefix(lines[k], ActPrefix)
    requires forall m :: k < m < |lines| ==> !HasPrefix(lines[m], ActPrefix)
    ensures ActOf(lines) == Split(lines[k], ".")[0]
    decreases |lines|
  {
    if k < |lines| - 1 {
      ActOfAt(lines[..|lines| - 1], k);
    }
  }

  /** Lines without an act heading have no act. */
  lemma {:induction false} ActOfNone(lines: seq<string>)
    requires forall m :: 0 <= m < |lines| ==> !HasPrefix(lines[m], ActPrefix)
    ensures ActOf(lines) == ""
    decreases |lines|
  {
    if |lines| > 0 {
      ActOfNone(lines[..|lines| - 1]);
    }
  }

  /** The last act heading, given that line `m` is one. */
  lemma LastAct(lines: seq<string>, m: int) returns (k: int)
    requires 0 <= m < |lines| && HasPrefix(lines[m], ActPrefix)
    ensures m <= k < |lines| && HasPrefix(lines[k], ActPrefix)
    ensures forall j :: k < j < |lines| ==> !HasPrefix(lines[j], ActPrefix)
    decreases |lines| - m
  {
    if exists j :: m < j < |lines| && HasPrefix(lines[j], ActPrefix) {
      var j :| m < j < |lines| && HasPrefix(lines[j], ActPrefix);
      k := LastAct(lines, j);
    } else {
      k := m;
    }
  }

  /** The act is "" exactly when no line is an act heading; otherwise it is
      the part before the first '.' of the last heading, so it starts with
      "ACT " and holds no '.'. */
  lemma ActOfSpec(lines: seq<string>)
    ensures ActOf(lines) == "" <==> forall m :: 0 <= m < |lines| ==> !HasPrefix(lines[m], ActPrefix)
    ensures ActOf(lines) != "" ==> HasPrefix(ActOf(lines), ActPrefix) && '.' !in ActOf(lines)
    ensures ActOf(lines) != "" ==>
      exists k :: 0 <= k < |lines| && HasPrefix(lines[k], ActPrefix) && ActOf(lines) == Split(lines[k], ".")[0]
        && forall m :: k < m < |lines| ==> !HasPrefix(lines[m], ActPrefix)
  {
    if m :| 0 <= m < |lines| && HasPrefix(lines[m], ActPrefix) {
      var k := LastAct(lines, m);
      ActOfAt(lines, k);
      ActHeading(lines[k]);
    } else {
      ActOfNone(lines);
    }
  }
}
