/** A model, on ASCII text, of the functions of Go's `strings` package that the
    search pipeline calls: ToLower, Split, Replace, TrimSpace, IndexAny,
    LastIndexAny and HasPrefix; and Join, used to state what Split and Replace
    keep. */
module GoStrings {

  /** The corpus's line-break convention. */
  const CRLF: string := "\r\n"

  // ---------------------------------------------------------------------------
  // Characters

  predicate IsUpper(c: char) { 'A' <= c <= 'Z' }

  /** `\w` of Go's regexp syntax: `[0-9A-Za-z_]`. */
  predicate IsWordChar(c: char) {
    ('0' <= c <= '9') || ('A' <= c <= 'Z') || ('a' <= c <= 'z') || c == '_'
  }

  /** The ASCII characters `unicode.IsSpace` accepts. */
  predicate IsSpace(c: char) {
    c == ' ' || c == '\t' || c == '\n' || c == '\r' || c == 11 as char || c == 12 as char
  }

  /** ASCII case fold of one character. */
  function LowerChar(c: char): (r: char)
    ensures !IsUpper(r)
    ensures IsWordChar(r) <==> IsWordChar(c)
    ensures !IsUpper(c) ==> r == c
  {
    if IsUpper(c) then (c as int + 32) as char else c
  }

  /** `strings.ToLower` restricted to ASCII: a length-preserving fold, so every
      offset of the lowercase text is an offset of the original. */
  function ToLower(s: string): (r: string)
    ensures |r| == |s|
    ensures forall i :: 0 <= i < |s| ==> r[i] == LowerChar(s[i])
  {
    seq(|s|, i requires 0 <= i < |s| => LowerChar(s[i]))
  }

  // ---------------------------------------------------------------------------
  // Occurrences of a separator

  /** `sep` occurs in `s` starting at offset `i`. */
  predicate OccursAt(s: string, sep: string, i: int) {
    0 <= i && i + |sep| <= |s| && s[i..i + |sep|] == sep
  }

  predicate Contains(s: string, sep: string) {
    exists i :: 0 <= i <= |s| - |sep| && OccursAt(s, sep, i)
  }

  predicate HasPrefix(s: string, prefix: string) {
    |prefix| <= |s| && s[..|prefix|] == prefix
  }

  // ---------------------------------------------------------------------------
  // Split, Join, Replace

  /** `strings.Split(s, sep)` for a non-empty separator: the pieces between the
      leftmost non-overlapping occurrences of `sep`. */
  function Split(s: string, sep: string): (pieces: seq<string>)
    requires |sep| > 0
    ensures |pieces| >= 1
    decreases |s|
  {
    if HasPrefix(s, sep) then [""] + Split(s[|sep|..], sep)
    else if |s| == 0 then [""]
    else
      var rest := Split(s[1..], sep);
      [[s[0]] + rest[0]] + rest[1..]
  }

  /** `strings.Join(pieces, sep)`. */
  function Join(pieces: seq<string>, sep: string): string
  {
    if |pieces| == 0 then ""
    else if |pieces| == 1 then pieces[0]
    else pieces[0] + sep + Join(pieces[1..], sep)
  }

  /** `strings.Replace(s, target, repl, -1)` for a non-empty `target`. */
  function Replace(s: string, target: string, repl: string): string
    requires |target| > 0
    decreases |s|
  {
    if HasPrefix(s, target) then repl + Replace(s[|target|..], target, repl)
    else if |s| == 0 then ""
    else [s[0]] + Replace(s[1..], target, repl)
  }

  /** Joining the pieces of a split with the separator gives the text back. */
  lemma {:induction false} JoinSplit(s: string, sep: string)
    requires |sep| > 0
    ensures Join(Split(s, sep), sep) == s
    decreases |s|, 1
  {
    if HasPrefix(s, sep) {
      JoinSplitAtSeparator(s, sep);
    } else if |s| > 0 {
      JoinSplitAtChar(s, sep);
    }
  }

  lemma {:induction false} JoinSplitAtSeparator(s: string, sep: string)
    requires |sep| > 0 && HasPrefix(s, sep)
    ensures Join(Split(s, sep), sep) == s
    decreases |s|, 0
  {
    var tail := s[|sep|..];
    SplitAtSeparator(s, sep);
    JoinSplit(tail, sep);
    JoinEmptyFirst(Split(tail, sep), sep);
  }

  /** An empty first piece leaves the separator at the front of the join. */
  lemma JoinEmptyFirst(rest: seq<string>, sep: string)
    requires |rest| >= 1
    ensures Join([""] + rest, sep) == sep + Join(rest, sep)
  {
    JoinCons("", rest, sep);
    assert "" + sep == sep;
  }

  lemma SplitAtSeparator(s: string, sep: string)
    requires |sep| > 0 && HasPrefix(s, sep)
    ensures Split(s, sep) == [""] + Split(s[|sep|..], sep)
    ensures s == sep + s[|sep|..]
  {
    assert s == s[..|sep|] + s[|sep|..];
  }

  lemma {:induction false} JoinSplitAtChar(s: string, sep: string)
    requires |sep| > 0 && !HasPrefix(s, sep) && |s| > 0
    ensures Join(Split(s, sep), sep) == s
    decreases |s|, 0
  {
    var rest := Split(s[1..], sep);
    JoinSplit(s[1..], sep);
    JoinGrowFirst([s[0]], rest, sep);
    assert s == [s[0]] + s[1..];
  }

  /** Joining a piece in front of a non-empty list of pieces. */
  lemma JoinCons(p: string, rest: seq<string>, sep: string)
    requires |rest| >= 1
    ensures Join([p] + rest, sep) == p + sep + Join(rest, sep)
  {
    assert ([p] + rest)[1..] == rest;
  }

  /** Extending the first piece extends the join at its front. */
  lemma JoinGrowFirst(c: string, rest: seq<string>, sep: string)
    requires |rest| >= 1
    ensures Join([c + rest[0]] + rest[1..], sep) == c + Join(rest, sep)
  {
    if |rest| > 1 {
      JoinCons(c + rest[0], rest[1..], sep);
      JoinCons(rest[0], rest[1..], sep);
      assert rest == [rest[0]] + rest[1..];
    }
  }

  /** Replacing every occurrence is joining the pieces of the split with the
      replacement: all the text between occurrences is kept, in order. */
  lemma {:induction false} ReplaceIsJoinSplit(s: string, target: string, repl: string)
    requires |target| > 0
    ensures Replace(s, target, repl) == Join(Split(s, target), repl)
    decreases |s|
  {
    if HasPrefix(s, target) {
      ReplaceIsJoinSplit(s[|target|..], target, repl);
      SplitAtSeparator(s, target);
      JoinEmptyFirst(Split(s[|target|..], target), repl);
    } else if |s| > 0 {
      ReplaceIsJoinSplit(s[1..], target, repl);
      var rest := Split(s[1..], target);
      assert Split(s, target) == [[s[0]] + rest[0]] + rest[1..];
      JoinGrowFirst([s[0]], rest, repl);
    }
  }

  /** An occurrence at offset `i > 0` is an occurrence in the tail at `i - 1`. */
  lemma OccursAtTail(s: string, sep: string, i: int)
    requires 1 <= i && |s| > 0
    ensures OccursAt(s, sep, i) <==> OccursAt(s[1..], sep, i - 1)
  {
    if i + |sep| <= |s| {
      assert s[i..i + |sep|] == s[1..][i - 1..i - 1 + |sep|];
    }
  }

  /** The first piece of a split is what precedes the first occurrence of the
      separator, or the whole text when it does not occur. */
  lemma {:induction false} SplitFirstPiece(s: string, sep: string)
    requires |sep| > 0
    ensures HasPrefix(s, Split(s, sep)[0])
    ensures forall i :: 0 <= i <= |Split(s, sep)[0]| - |sep| ==> !OccursAt(s, sep, i)
    ensures |Split(s, sep)[0]| < |s| ==> OccursAt(s, sep, |Split(s, sep)[0]|)
    decreases |s|, 1
  {
    if !HasPrefix(s, sep) && |s| > 0 {
      SplitFirstPieceAtChar(s, sep);
    }
  }

  lemma {:induction false} SplitFirstPieceAtChar(s: string, sep: string)
    requires |sep| > 0 && !HasPrefix(s, sep) && |s| > 0
    ensures HasPrefix(s, Split(s, sep)[0])
    ensures forall i :: 0 <= i <= |Split(s, sep)[0]| - |sep| ==> !OccursAt(s, sep, i)
    ensures |Split(s, sep)[0]| < |s| ==> OccursAt(s, sep, |Split(s, sep)[0]|)
    decreases |s|, 0
  {
    SplitFirstPiece(s[1..], sep);
    var p := Split(s[1..], sep)[0];
    var r := Split(s, sep)[0];
    assert r == [s[0]] + p;
    assert HasPrefix(s, r) by {
      assert s[..|r|] == [s[0]] + s[1..][..|p|];
    }
    assert forall i :: 0 <= i <= |r| - |sep| ==> !OccursAt(s, sep, i) by {
      forall i | 0 <= i <= |r| - |sep| ensures !OccursAt(s, sep, i) {
        if i > 0 {
          OccursAtTail(s, sep, i);
        }
      }
    }
    assert |r| < |s| ==> OccursAt(s, sep, |r|) by {
      if |r| < |s| {
        OccursAtTail(s, sep, |r|);
      }
    }
  }

  /** The first piece of a split holds no separator. */
  lemma FirstPieceFree(s: string, sep: string)
    requires |sep| > 0
    ensures !Contains(Split(s, sep)[0], sep)
  {
    var r := Split(s, sep)[0];
    SplitFirstPiece(s, sep);
    if i :| 0 <= i <= |r| - |sep| && OccursAt(r, sep, i) {
      assert r == s[..|r|];
      assert r[i..i + |sep|] == s[i..i + |sep|];
      assert OccursAt(s, sep, i);
      assert false;
    }
  }

  /** No piece of a split holds the separator: the pieces are the text
      between its occurrences. */
  lemma {:induction false} SplitPiecesFree(s: string, sep: string)
    requires |sep| > 0
    ensures forall k :: 0 <= k < |Split(s, sep)| ==> !Contains(Split(s, sep)[k], sep)
    decreases |s|
  {
    var pieces := Split(s, sep);
    FirstPieceFree(s, sep);
    if HasPrefix(s, sep) {
      var tail := Split(s[|sep|..], sep);
      SplitPiecesFree(s[|sep|..], sep);
      assert forall k :: 1 <= k < |pieces| ==> pieces[k] == tail[k - 1];
    } else if |s| > 0 {
      var rest := Split(s[1..], sep);
      SplitPiecesFree(s[1..], sep);
      assert forall k :: 1 <= k < |pieces| ==> pieces[k] == rest[k];
    }
  }

  /** A slice of a text without the separator is without it too. */
  lemma SliceFree(s: string, sep: string, lo: int, hi: int)
    requires !Contains(s, sep) && 0 <= lo <= hi <= |s|
    ensures !Contains(s[lo..hi], sep)
  {
    var t := s[lo..hi];
    forall i | 0 <= i <= |t| - |sep| ensures OccursAt(t, sep, i) == OccursAt(s, sep, lo + i) {
      var u, v := t[i..i + |sep|], s[lo + i..lo + i + |sep|];
      assert u == v by {
        forall k | 0 <= k < |sep| ensures u[k] == v[k] {
          assert t[i + k] == s[lo + i + k];
        }
      }
    }
  }

  /** A join of two or more pieces holds the first piece and a separator. */
  lemma JoinLength(pieces: seq<string>, sep: string)
    ensures |pieces| > 1 ==> |Join(pieces, sep)| >= |pieces[0]| + |sep|
  {
  }

  /** Splitting text that does not contain the separator gives it back whole. */
  lemma SplitWithout(s: string, sep: string)
    requires |sep| > 0
    requires !Contains(s, sep)
    ensures Split(s, sep) == [s]
  {
    JoinSplit(s, sep);
    SplitFirstPiece(s, sep);
    var pieces := Split(s, sep);
    JoinLength(pieces, sep);
    assert pieces[0] == s;
    assert pieces == [pieces[0]];
  }

  // ---------------------------------------------------------------------------
  // Split and Replace on the line-break "\r\n"

  /** Text before a "\r\n" followed by more text splits into the lines of each
      part: no occurrence of "\r\n" can straddle the inserted line-break. */
  lemma {:induction false} SplitLinesAppend(a: string, b: string)
    ensures Split(a + CRLF + b, CRLF) == Split(a, CRLF) + Split(b, CRLF)
    decreases |a|, 1
  {
    var s := a + CRLF + b;
    if HasPrefix(a, CRLF) {
      SplitLinesAppendAtBreak(a, b);
    } else if |a| == 0 {
      assert s[2..] == b;
      SplitAtSeparator(s, CRLF);
    } else {
      SplitLinesAppendAtChar(a, b);
    }
  }

  lemma {:induction false} SplitLinesAppendAtBreak(a: string, b: string)
    requires HasPrefix(a, CRLF)
    ensures Split(a + CRLF + b, CRLF) == Split(a, CRLF) + Split(b, CRLF)
    decreases |a|, 0
  {
    var s := a + CRLF + b;
    assert HasPrefix(s, CRLF) by { assert s[..2] == a[..2]; }
    assert s[2..] == a[2..] + CRLF + b;
    SplitAtSeparator(s, CRLF);
    SplitAtSeparator(a, CRLF);
    SplitLinesAppend(a[2..], b);
  }

  lemma {:induction false} SplitLinesAppendAtChar(a: string, b: string)
    requires !HasPrefix(a, CRLF) && |a| > 0
    ensures Split(a + CRLF + b, CRLF) == Split(a, CRLF) + Split(b, CRLF)
    decreases |a|, 0
  {
    var s := a + CRLF + b;
    assert !HasPrefix(s, CRLF) by {
      if |a| == 1 { assert s[1] == '\r'; } else { assert s[..2] == a[..2]; }
    }
    assert s[1..] == a[1..] + CRLF + b;
    SplitLinesAppend(a[1..], b);
    GrowFirstAppend(a[0], Split(a[1..], CRLF), Split(b, CRLF));
  }

  lemma GrowFirstAppend(c: char, xs: seq<string>, ys: seq<string>)
    requires |xs| >= 1
    ensures [[c] + (xs + ys)[0]] + (xs + ys)[1..] == ([[c] + xs[0]] + xs[1..]) + ys
  {
    assert (xs + ys)[0] == xs[0];
    assert (xs + ys)[1..] == xs[1..] + ys;
  }

  /** After replacing "\r\n" with "<br>" no raw line-break sequence is left. */
  lemma {:induction false} ReplaceLinesRemovesCRLF(s: string)
    ensures !Contains(Replace(s, CRLF, "<br>"), CRLF)
    decreases |s|
  {
    if HasPrefix(s, CRLF) {
      ReplaceLinesRemovesCRLF(s[2..]);
      NoLineBreakAfterBreak(Replace(s[2..], CRLF, "<br>"));
    } else if |s| > 0 {
      ReplaceLinesRemovesCRLF(s[1..]);
      var rest := Replace(s[1..], CRLF, "<br>");
      ReplaceHead(s[1..]);
      assert s[0] == '\r' && |rest| > 0 ==> rest[0] != '\n' by {
        if s[0] == '\r' && |s| >= 2 && !HasPrefix(s[1..], CRLF) {
          assert s[..2] != CRLF;
          assert s[..2] == [s[0], s[1]];
        }
      }
      NoLineBreakAfterChar(s[0], rest);
    }
  }

  lemma NoLineBreakAfterBreak(rest: string)
    requires !Contains(rest, CRLF)
    ensures !Contains("<br>" + rest, CRLF)
  {
    var r := "<br>" + rest;
    forall i | 0 <= i <= |r| - 2 ensures !OccursAt(r, CRLF, i) {
      if i >= 4 {
        assert r[i..i + 2] == rest[i - 4..i - 2];
        assert !OccursAt(rest, CRLF, i - 4);
      } else {
        assert r[i] == "<br>"[i];
      }
    }
  }

  lemma NoLineBreakAfterChar(c: char, rest: string)
    requires !Contains(rest, CRLF)
    requires c == '\r' && |rest| > 0 ==> rest[0] != '\n'
    ensures !Contains([c] + rest, CRLF)
  {
    var r := [c] + rest;
    forall i | 0 <= i <= |r| - 2 ensures !OccursAt(r, CRLF, i) {
      if i >= 1 {
        assert r[i..i + 2] == rest[i - 1..i + 1];
        assert !OccursAt(rest, CRLF, i - 1);
      } else {
        assert r[0] == c && r[1] == rest[0];
      }
    }
  }

  /** The replaced text starts with "<" or with its input's first character. */
  lemma ReplaceHead(s: string)
    ensures |Replace(s, CRLF, "<br>")| > 0 ==> |s| > 0
    ensures |Replace(s, CRLF, "<br>")| > 0 ==>
      Replace(s, CRLF, "<br>")[0] == (if HasPrefix(s, CRLF) then '<' else s[0])
  {
  }

  // ---------------------------------------------------------------------------
  // TrimSpace

  /** `strings.TrimLeft` of white space. */
  function TrimLeft(s: string): string
    decreases |s|
  {
    if |s| > 0 && IsSpace(s[0]) then TrimLeft(s[1..]) else s
  }

  /** `strings.TrimRight` of white space. */
  function TrimRight(s: string): string
    decreases |s|
  {
    if |s| > 0 && IsSpace(s[|s| - 1]) then TrimRight(s[..|s| - 1]) else s
  }

  /** `strings.TrimSpace`: drop leading and trailing white space. */
  function TrimSpace(s: string): string
  {
    TrimRight(TrimLeft(s))
  }

  lemma {:induction false} TrimLeftSpec(s: string)
    ensures |TrimLeft(s)| <= |s| && TrimLeft(s) == s[|s| - |TrimLeft(s)|..]
    ensures forall k :: 0 <= k < |s| - |TrimLeft(s)| ==> IsSpace(s[k])
    ensures TrimLeft(s) != [] ==> !IsSpace(TrimLeft(s)[0])
    decreases |s|
  {
    if |s| > 0 && IsSpace(s[0]) {
      TrimLeftSpec(s[1..]);
    }
  }

  lemma {:induction false} TrimRightSpec(s: string)
    ensures |TrimRight(s)| <= |s| && TrimRight(s) == s[..|TrimRight(s)|]
    ensures forall k :: |TrimRight(s)| <= k < |s| ==> IsSpace(s[k])
    ensures TrimRight(s) != [] ==> !IsSpace(TrimRight(s)[|TrimRight(s)| - 1])
    decreases |s|
  {
    if |s| > 0 && IsSpace(s[|s| - 1]) {
      TrimRightSpec(s[..|s| - 1]);
    }
  }

  /** `r` is `s` with the white space before offset `a` and after `a + |r|` removed. */
  predicate TrimmedAt(s: string, r: string, a: int) {
    && 0 <= a <= |s| - |r|
    && r == s[a..a + |r|]
    && (forall k :: 0 <= k < a ==> IsSpace(s[k]))
    && (forall k :: a + |r| <= k < |s| ==> IsSpace(s[k]))
  }

  /** TrimSpace removes white space, and only white space, from both ends,
      and leaves no white space at either end. */
  lemma TrimSpaceSpec(s: string)
    ensures exists a :: TrimmedAt(s, TrimSpace(s), a)
    ensures TrimSpace(s) != [] ==> !IsSpace(TrimSpace(s)[0]) && !IsSpace(TrimSpace(s)[|TrimSpace(s)| - 1])
  {
    var l := TrimLeft(s);
    var r := TrimRight(l);
    TrimLeftSpec(s);
    TrimRightSpec(l);
    var a := |s| - |l|;
    assert r == s[a..a + |r|];
    forall k | a + |r| <= k < |s| ensures IsSpace(s[k]) {
      assert s[k] == l[k - a];
    }
    assert r == TrimSpace(s);
    assert TrimmedAt(s, TrimSpace(s), a);
  }

  /** Text that ends in a non-space character keeps that character last. */
  lemma TrimSpaceKeepsLast(s: string)
    requires s != [] && !IsSpace(s[|s| - 1])
    ensures TrimSpace(s) != [] && TrimSpace(s)[|TrimSpace(s)| - 1] == s[|s| - 1]
  {
    TrimSpaceSpec(s);
    var r := TrimSpace(s);
    var a :| TrimmedAt(s, r, a);
    assert a + |r| == |s|;
  }

  /** Trimming a text without a pattern leaves a text without it. */
  lemma TrimSpaceFree(s: string, sep: string)
    requires !Contains(s, sep)
    ensures !Contains(TrimSpace(s), sep)
  {
    TrimSpaceSpec(s);
    var a :| TrimmedAt(s, TrimSpace(s), a);
    SliceFree(s, sep, a, a + |TrimSpace(s)|);
  }

  /** TrimSpace is determined by its contract: a text made of white space, a
      core that neither starts nor ends with white space, and white space,
      trims to the core. */
  lemma TrimSpaceOf(p: string, m: string, q: string)
    requires forall k :: 0 <= k < |p| ==> IsSpace(p[k])
    requires forall k :: 0 <= k < |q| ==> IsSpace(q[k])
    requires m != [] && !IsSpace(m[0]) && !IsSpace(m[|m| - 1])
    ensures TrimSpace(p + m + q) == m
  {
    var s := p + m + q;
    var r := TrimSpace(s);
    TrimSpaceSpec(s);
    var a :| TrimmedAt(s, r, a);
    assert s[|p|] == m[0];
    assert s[|p| + |m| - 1] == m[|m| - 1];
    assert a == |p|;
    assert a + |r| == |p| + |m|;
    assert s[|p|..|p| + |m|] == m;
  }

  /** TrimSpace gives the empty text exactly when the input is all white space. */
  lemma TrimSpaceEmpty(s: string)
    ensures TrimSpace(s) == [] <==> forall k :: 0 <= k < |s| ==> IsSpace(s[k])
  {
    var r := TrimSpace(s);
    TrimSpaceSpec(s);
    var a :| TrimmedAt(s, r, a);
    assert r != [] ==> r[0] == s[a];
  }

  // ---------------------------------------------------------------------------
  // IndexAny and LastIndexAny

  /** `strings.IndexAny(s, chars)`: the first offset holding one of `chars`, or -1. */
  function IndexAny(s: string, chars: string): (r: int)
    ensures -1 <= r < |s|
    ensures r == -1 <==> forall k :: 0 <= k < |s| ==> s[k] !in chars
    ensures r >= 0 ==> s[r] in chars && forall k :: 0 <= k < r ==> s[k] !in chars
    decreases |s|
  {
    if |s| == 0 then -1
    else if s[0] in chars then 0
    else
      var k := IndexAny(s[1..], chars);
      if k < 0 then -1 else k + 1
  }

  /** `strings.LastIndexAny(s, chars)`: the last offset holding one of `chars`, or -1. */
  function LastIndexAny(s: string, chars: string): (r: int)
    ensures -1 <= r < |s|
    ensures r == -1 <==> forall k :: 0 <= k < |s| ==> s[k] !in chars
    ensures r >= 0 ==> s[r] in chars && forall k :: r < k < |s| ==> s[k] !in chars
    decreases |s|
  {
    if |s| == 0 then -1
    else if s[|s| - 1] in chars then |s| - 1
    else LastIndexAny(s[..|s| - 1], chars)
  }

  /** IndexAny is determined by its contract: the offset of a character of
      `chars` with none before it. */
  lemma IndexAnyAt(s: string, chars: string, i: int)
    requires 0 <= i < |s| && s[i] in chars
    requires forall k :: 0 <= k < i ==> s[k] !in chars
    ensures IndexAny(s, chars) == i
  {
  }

  /** LastIndexAny is determined by its contract: the offset of a character of
      `chars` with none after it. */
  lemma LastIndexAnyAt(s: string, chars: string, j: int)
    requires 0 <= j < |s| && s[j] in chars
    requires forall k :: j < k < |s| ==> s[k] !in chars
    ensures LastIndexAny(s, chars) == j
  {
  }
}
