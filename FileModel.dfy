/** The line-based model of a code file (src/LyniconANC/Commands/FileModel.cs):
    a raw buffer, a parallel masked buffer in which comments and string
    literals are blanked, and a cursor shared by both. */
module FileModels {
  import opened Text
  import opened Linq
  import opened LineSearch
  import opened Editing
  import opened BracketScan
  import opened Outcomes

  /** The bracket scan can start: the cursor is on a line whose masked text
      contains the match text, and no line the scan wraps onto is empty. */
  ghost predicate ScanDefined(searchLines: seq<string>, cursor: int, matchText: string, open: char, close: char) {
    && 0 <= cursor < |searchLines|
    && Contains(searchLines[cursor], matchText)
    && NoEmptyLineReached(searchLines, cursor, IndexOf(searchLines[cursor], matchText) + |matchText|, open, close)
  }

  /** The effect of `InsertTextAfterMatchingBracket` on buffers `lines`,
      `searchLines` and cursor `cursor`, giving `lines'`, `searchLines'`,
      `cursor'` and result `r`; `idx` is the insertion offset. */
  ghost predicate BracketEffect(lines: seq<string>, searchLines: seq<string>, cursor: int,
                                matchText: string, text: string, open: char, close: char,
                                lines': seq<string>, searchLines': seq<string>, cursor': int,
                                r: Outcome<bool>, idx: int)
    requires |lines| == |searchLines|
    requires EndsWith(matchText, [open]) ==> ScanDefined(searchLines, cursor, matchText, open, close)
  {
    if !EndsWith(matchText, [open]) then
      // the usage error is signalled before anything is read
      r == Threw(ArgumentException) && lines' == lines && searchLines' == searchLines && cursor' == cursor
    else
      var idx0 := IndexOf(searchLines[cursor], matchText) + |matchText|;
      && ScanEnds(searchLines, cursor, idx0, cursor', idx, open, close)
      && if cursor' == |searchLines| then
           // the buffer ran out with the bracket still open
           r == Returned(false) && lines' == lines && searchLines' == searchLines
         else if |lines[cursor']| < idx then
           // the raw line is shorter than the masked offset: `Substring` throws
           r == Threw(ArgumentOutOfRangeException) && lines' == lines && searchLines' == searchLines
         else if lines[cursor'][..idx] != searchLines[cursor'][..idx] then
           // the raw and masked lines differ before the offset: nothing is inserted
           r == Returned(false) && lines' == lines && searchLines' == searchLines
         else
           && r == Returned(true)
           && lines' == lines[cursor' := Splice(lines[cursor'], idx, text)]
           && searchLines' == searchLines[cursor' := Splice(searchLines[cursor'], idx, text)]
  }

  /** The scan loop of `InsertTextAfterMatchingBracket`: starting at depth 1
      at offset `idx0` of line `line0`, reads the masked text character by
      character, wrapping to the next line at each line end, until the depth
      reaches 0. Returns the line and the offset just past the closing bracket,
      or the line count when the text runs out first. */
  method ScanToClosingBracket(sl: seq<string>, line0: int, idx0: int, open: char, close: char)
    returns (line: int, i: int)
    requires 0 <= line0 < |sl| && 0 <= idx0 <= |sl[line0]|
    requires NoEmptyLineReached(sl, line0, idx0, open, close)
    ensures ScanEnds(sl, line0, idx0, line, i, open, close)
  {
    line, i := line0, idx0;
    var lvl := 1;
    while lvl > 0
      invariant ScanState(sl, line0, idx0, line, i, lvl, open, close) && 0 <= lvl
      invariant lvl == 0 ==> (line == line0 ==> idx0 < i) && (line != line0 ==> 0 < i)
      decreases |sl| - line, |sl[line]| - i
    {
      if i >= |sl[line]| {
        i := 0;
        line := line + 1;
        if line >= |sl| {
          return;
        }
        ScanWrap(sl, line0, idx0, line - 1, lvl, open, close);
      }
      ScanStep(sl, line0, idx0, line, i, lvl, open, close);
      if sl[line][i] == open {
        lvl := lvl + 1;
      } else if sl[line][i] == close {
        lvl := lvl - 1;
      }
      i := i + 1;
    }
    ScanClosed(sl, line0, idx0, line, i, open, close);
  }

  class FileModel {
    var lines: seq<string>
    var searchLines: seq<string>
    var LineNum: int

    /** The two buffers have the same number of lines. */
    ghost predicate Valid()
      reads this
    {
      |lines| == |searchLines|
    }

    /** Every masked line is as long as its raw line, as the stripper makes them. */
    ghost predicate LinesAligned()
      reads this
    {
      Aligned(lines, searchLines)
    }

    /** `new FileModel(lines)`: `stripped` is what the stripper makes of `raw`. */
    constructor (raw: seq<string>, stripped: seq<string>)
      requires Aligned(raw, stripped)
      ensures Valid() && LinesAligned()
      ensures lines == raw && searchLines == stripped && LineNum == 0
    {
      lines := raw;
      searchLines := stripped;
      LineNum := 0;
    }

    method ToTop()
      modifies this`LineNum
      ensures LineNum == 0
    {
      LineNum := 0;
    }

    /** Moves the cursor by `offset`, clamped to the buffer. On an empty buffer
        a target at or past the end leaves the cursor at -1. */
    method Jump(offset: int) returns (ok: bool)
      modifies this`LineNum
      ensures old(LineNum) + offset >= |lines| ==> LineNum == |lines| - 1 && !ok
      ensures old(LineNum) + offset < 0 ==> LineNum == 0 && !ok
      ensures 0 <= old(LineNum) + offset < |lines| ==> LineNum == old(LineNum) + offset && ok
      ensures |lines| > 0 ==> 0 <= LineNum < |lines|
      ensures LineNum == JumpTarget(|lines|, old(LineNum) + offset)
    {
      LineNum := LineNum + offset;
      if LineNum >= |lines| {
        LineNum := |lines| - 1;
        return false;
      }
      if LineNum < 0 {
        LineNum := 0;
        return false;
      }
      return true;
    }

    /** Moves the cursor to the first masked line at or after it that contains
        `contains`, or to the line count. */
    method FindLineContains(contains: string) returns (found: bool)
      requires Valid()
      requires 0 <= LineNum || searchLines == []
      modifies this`LineNum
      ensures LineNum == ForwardTarget(searchLines, old(LineNum), HasText(contains))
      ensures found <==> LineNum < |lines|
    {
      var currLineNum := LineNum;
      LineNum := IndexOfPredicate(Skip(searchLines, LineNum), Matcher(HasText(contains))) + LineNum;
      if LineNum < currLineNum {
        LineNum := |lines|;
      }
      return LineNum < |lines|;
    }

    /** Moves the cursor to the last masked line at or before it that contains
        `contains`, or to -1. */
    method FindPrevLineContains(contains: string) returns (found: bool)
      requires Valid()
      requires LineNum < |searchLines|
      modifies this`LineNum
      ensures LineNum == BackwardTarget(searchLines, old(LineNum), HasText(contains))
      ensures found <==> LineNum > -1
    {
      var currLineNum := LineNum;
      var j := IndexOfPredicate(Skip(Reverse(searchLines), |lines| - LineNum - 1), Matcher(HasText(contains)));
      BackwardTargetIs(searchLines, LineNum, HasText(contains), j);
      LineNum := LineNum - j;
      if LineNum > currLineNum {
        LineNum := -1;
      }
      return LineNum > -1;
    }

    /** Moves the cursor to the first masked line at or after it that, trimmed,
        is `lineIs`, or to the line count. */
    method FindLineIs(lineIs: string) returns (found: bool)
      requires Valid()
      requires 0 <= LineNum || searchLines == []
      modifies this`LineNum
      ensures LineNum == ForwardTarget(searchLines, old(LineNum), IsText(lineIs))
      ensures found <==> LineNum < |lines|
    {
      var currLineNum := LineNum;
      LineNum := IndexOfPredicate(Skip(searchLines, LineNum), Matcher(IsText(lineIs))) + LineNum;
      if LineNum < currLineNum {
        LineNum := |lines|;
      }
      return LineNum < |lines|;
    }

    /** Moves the cursor to the last masked line at or before it that, trimmed,
        is `lineIs`, or to -1. */
    method FindPrevLineIs(lineIs: string) returns (found: bool)
      requires Valid()
      requires LineNum < |searchLines|
      modifies this`LineNum
      ensures LineNum == BackwardTarget(searchLines, old(LineNum), IsText(lineIs))
      ensures found <==> LineNum > -1
    {
      var currLineNum := LineNum;
      var j := IndexOfPredicate(Skip(Reverse(searchLines), |searchLines| - LineNum - 1), Matcher(IsText(lineIs)));
      BackwardTargetIs(searchLines, LineNum, IsText(lineIs), j);
      LineNum := LineNum - j;
      if LineNum > currLineNum {
        LineNum := -1;
      }
      return LineNum > -1;
    }

    /** The masked line at the cursor. */
    function CurrentLine(): (r: string)
      reads this
      requires 0 <= LineNum < |searchLines|
      ensures r == searchLines[LineNum]
    {
      searchLines[LineNum]
    }

    /** Whether the masked line at the cursor contains `contains`. */
    function LineContains(contains: string): (r: bool)
      reads this
      requires 0 <= LineNum < |searchLines|
      ensures r <==> IndexOf(CurrentLine(), contains) >= 0
    {
      Contains(searchLines[LineNum], contains)
    }

    /** Moves the cursor as the forward search for a line containing any of
        `containsAny` does, and returns the first candidate, in list order, that
        the line found contains; None (null) when there is no such line. */
    method FindLineContainsAny(containsAny: seq<string>) returns (r: Option<string>)
      requires Valid()
      requires 0 <= LineNum || searchLines == []
      modifies this`LineNum
      ensures LineNum == ForwardTarget(searchLines, old(LineNum), HasAnyOf(containsAny))
      ensures r == None <==> LineNum == |lines|
      ensures r != None ==> r == Some(containsAny[FirstCandidate(containsAny, searchLines[LineNum])])
    {
      var currLineNum := LineNum;
      LineNum := IndexOfPredicate(Skip(searchLines, LineNum), Matcher(HasAnyOf(containsAny))) + LineNum;
      if LineNum < currLineNum {
        LineNum := |lines|;
      }
      if LineNum == |lines| {
        return None;
      }
      return Some(containsAny[FirstCandidate(containsAny, searchLines[LineNum])]);
    }

    /** The heuristic search for the end of the current method: the next line
        holding a visibility keyword, then the lone `}` before it; or, without
        such a line, the third lone `}` counting back from the end of the file.
        On success `closing` is the line of the `}` found and the cursor is just
        above it (on it, when it is line 0). */
    method FindEndOfMethod() returns (ok: bool, ghost closing: int)
      requires Valid()
      modifies this`LineNum
      ensures closing == EndOfMethodClosing(searchLines, old(LineNum))
      ensures ok <==> 0 <= closing
      ensures ok ==> 0 <= closing < |searchLines| && Matches(searchLines[closing], IsText("}"))
      ensures ok ==> LineNum == Max(closing - 1, 0)
      ensures !ok ==> LineNum == -1
    {
      var _ := Jump(1);
      var foundKeyword := FindLineContainsAny(Visibility);
      var foundPrev: bool;
      if foundKeyword != None {
        foundPrev := FindPrevLineIs("}");
        closing := LineNum;
        if foundPrev {
          assert 0 <= closing < |lines|;
          var _ := Jump(-1);
          return true, closing;
        } else {
          return false, closing;
        }
      } else {
        assert LineNum == |searchLines|;
        ok, closing := FindClosingFromEnd();
      }
    }

    /** The fallback of `FindEndOfMethod` when no keyword line follows: from
        the last line, the lone `}` of the namespace, then of the class, then
        of the method. It starts with the cursor past the last line, where the
        keyword search left it. On success `closing` is the method's `}` and
        the cursor is just above it (on it, when it is line 0). */
    method FindClosingFromEnd() returns (ok: bool, ghost closing: int)
      requires Valid() && LineNum == |searchLines|
      modifies this`LineNum
      ensures closing == ThirdFromEnd(MatchMask(searchLines, IsText("}")))
      ensures ok <==> 0 <= closing
      ensures ok ==> 0 <= closing < |searchLines| && Matches(searchLines[closing], IsText("}"))
      ensures ok ==> LineNum == Max(closing - 1, 0)
      ensures !ok ==> LineNum == -1
    {
      ghost var m := MatchMask(searchLines, IsText("}"));
      closing := -1;
      var _ := Jump(9999);
      BackwardTargetIsLastTrue(searchLines, LineNum, IsText("}"));
      var foundPrev := FindPrevLineIs("}"); // namespace
      ghost var a := LineNum;
      assert a == LastTrue(m, JumpTarget(|m|, |m| + 9999));
      if !foundPrev {
        ThirdFromEndSteps(m, a, -1, -1);
        return false, closing;
      }
      foundPrev := StepToPrevCloser(); // class
      ghost var b := LineNum;
      assert b == LastTrue(m, JumpTarget(|m|, a - 1));
      if !foundPrev {
        ThirdFromEndSteps(m, a, b, -1);
        return false, closing;
      }
      foundPrev := StepToPrevCloser(); // method
      assert LineNum == LastTrue(m, JumpTarget(|m|, b - 1));
      ThirdFromEndSteps(m, a, b, LineNum);
      if !foundPrev {
        return false, closing;
      }
      closing := LineNum;
      assert 0 <= closing < |lines|;
      var _ := Jump(-1);
      return true, closing;
    }

    /** One step of that fallback: up a line, then back to the nearest lone
        `}` at or above it. */
    method StepToPrevCloser() returns (found: bool)
      requires Valid() && 0 <= LineNum < |searchLines|
      modifies this`LineNum
      ensures LineNum == LastTrue(MatchMask(searchLines, IsText("}")), JumpTarget(|searchLines|, old(LineNum) - 1))
      ensures found <==> LineNum > -1
    {
      var _ := Jump(-1);
      BackwardTargetIsLastTrue(searchLines, LineNum, IsText("}"));
      found := FindPrevLineIs("}");
    }

    /** Inserts `line`, indented like a neighbouring raw line, after the cursor
        (at the end when the cursor is at or past it) in both buffers, and moves
        the cursor onto it. */
    method InsertLineWithIndent(line: string, useIndentAfter: bool, backIndent: int)
      requires Valid()
      requires CanInsert(lines, LineNum, useIndentAfter, backIndent)
      modifies this
      ensures Valid()
      ensures var pos := InsertPosition(old(LineNum), |old(lines)|);
              var x := Indent(old(lines), old(LineNum), useIndentAfter, backIndent) + line;
              && LineNum == pos
              && lines == InsertAt(old(lines), pos, x)
              && searchLines == InsertAt(old(searchLines), pos, x)
      ensures old(LinesAligned()) ==> LinesAligned()
    {
      var indent := Indent(lines, LineNum, useIndentAfter, backIndent);
      LineNum := LineNum + 1;
      if LineNum > |lines| {
        LineNum := |lines|;
      }
      if Aligned(lines, searchLines) {
        InsertKeepsAligned(lines, searchLines, LineNum, indent + line);
      }
      lines := lines[..LineNum] + [indent + line] + lines[LineNum..];
      searchLines := searchLines[..LineNum] + [indent + line] + searchLines[LineNum..];
    }

    /** Inserts like `InsertLineWithIndent` unless some raw line already
        contains `line`, in which case nothing changes. */
    method InsertUniqueLineWithIndent(line: string, useIndentAfter: bool, backIndent: int) returns (ok: bool)
      requires Valid()
      requires AnyLineContains(lines, line) || CanInsert(lines, LineNum, useIndentAfter, backIndent)
      modifies this
      ensures Valid()
      ensures ok <==> !AnyLineContains(old(lines), line)
      ensures !ok ==> lines == old(lines) && searchLines == old(searchLines) && LineNum == old(LineNum)
      ensures ok ==> var pos := InsertPosition(old(LineNum), |old(lines)|);
                     var x := Indent(old(lines), old(LineNum), useIndentAfter, backIndent) + line;
                     && LineNum == pos
                     && lines == InsertAt(old(lines), pos, x)
                     && searchLines == InsertAt(old(searchLines), pos, x)
      ensures AnyLineContains(lines, line)
    {
      if exists i :: 0 <= i < |lines| && Contains(lines[i], line) {
        return false;
      }
      ghost var pos := InsertPosition(LineNum, |lines|);
      ghost var indent := Indent(lines, LineNum, useIndentAfter, backIndent);
      ghost var before := lines;
      InsertLineWithIndent(line, useIndentAfter, backIndent);
      InsertedLineIsFound(before, pos, indent, line);
      return true;
    }

    /** Scans the masked text after the first occurrence of `matchText` on the
        cursor line, across line ends, for the bracket that closes the one
        `matchText` ends with, and splices `text` into both buffers right after it. */
    method InsertTextAfterMatchingBracket(matchText: string, text: string, open: char, close: char)
      returns (r: Outcome<bool>, ghost idx: int)
      requires Valid()
      requires EndsWith(matchText, [open]) ==> ScanDefined(searchLines, LineNum, matchText, open, close)
      modifies this
      ensures Valid()
      ensures BracketEffect(old(lines), old(searchLines), old(LineNum), matchText, text, open, close,
                            lines, searchLines, LineNum, r, idx)
      ensures old(LinesAligned()) ==> LinesAligned() && r != Threw(ArgumentOutOfRangeException)
    {
      idx := 0;
      if !EndsWith(matchText, [open]) {
        return Threw(ArgumentException), idx;
      }
      var idx0 := IndexOf(searchLines[LineNum], matchText) + |matchText|;
      var line, i := ScanToClosingBracket(searchLines, LineNum, idx0, open, close);
      if line == |searchLines| {
        LineNum := line;
        return Returned(false), idx;
      }
      LineNum := line;
      idx := i;
      if |lines[LineNum]| < i {
        return Threw(ArgumentOutOfRangeException), idx;
      }
      if lines[LineNum][..i] != searchLines[LineNum][..i] {
        return Returned(false), idx;
      }
      if LinesAligned() {
        SpliceKeepsAligned(lines, searchLines, LineNum, i, text);
      }
      lines := lines[LineNum := Splice(lines[LineNum], i, text)];
      searchLines := searchLines[LineNum := Splice(searchLines[LineNum], i, text)];
      return Returned(true), idx;
    }

    /** The two-argument form: the bracket pair is `(` and `)`. */
    method InsertTextAfterMatchingParenthesis(matchText: string, text: string)
      returns (r: Outcome<bool>, ghost idx: int)
      requires Valid()
      requires EndsWith(matchText, "(") ==> ScanDefined(searchLines, LineNum, matchText, '(', ')')
      modifies this
      ensures Valid()
      ensures BracketEffect(old(lines), old(searchLines), old(LineNum), matchText, text, '(', ')',
                            lines, searchLines, LineNum, r, idx)
    {
      r, idx := InsertTextAfterMatchingBracket(matchText, text, '(', ')');
    }

    /** On the cursor line, when the masked line contains `text`, replaces every
        occurrence of `text` by `replacement` in both buffers. */
    method ReplaceText(text: string, replacement: string) returns (ok: bool)
      requires Valid()
      requires 0 <= LineNum < |lines| ==> text != []
      modifies this`lines, this`searchLines
      ensures Valid()
      ensures ok <==> 0 <= LineNum < |old(searchLines)| && Contains(old(searchLines)[LineNum], text)
      ensures !ok ==> lines == old(lines) && searchLines == old(searchLines)
      ensures ok ==> && lines == old(lines)[LineNum := ReplaceAll(old(lines)[LineNum], text, replacement)]
                     && searchLines == old(searchLines)[LineNum := ReplaceAll(old(searchLines)[LineNum], text, replacement)]
      ensures old(LinesAligned()) && |replacement| == |text| ==> LinesAligned()
      ensures ok && !Contains(old(lines)[LineNum], text) ==> lines == old(lines)
      ensures replacement == text ==> lines == old(lines) && searchLines == old(searchLines)
    {
      if LineNum < 0 || LineNum >= |lines| {
        return false;
      }
      if Contains(searchLines[LineNum], text) {
        if |replacement| == |text| {
          ReplaceKeepsLength(lines[LineNum], text, replacement);
          ReplaceKeepsLength(searchLines[LineNum], text, replacement);
        }
        if !Contains(lines[LineNum], text) {
          ReplaceAbsent(lines[LineNum], text, replacement);
        }
        if replacement == text {
          ReplaceByItself(lines[LineNum], text);
          ReplaceByItself(searchLines[LineNum], text);
        }
        lines := lines[LineNum := ReplaceAll(lines[LineNum], text, replacement)];
        searchLines := searchLines[LineNum := ReplaceAll(searchLines[LineNum], text, replacement)];
        return true;
      } else {
        return false;
      }
    }

    /** Appends `text` to the cursor line of both buffers. */
    method AppendText(text: string) returns (ok: bool)
      requires Valid()
      modifies this`lines, this`searchLines
      ensures Valid()
      ensures ok <==> 0 <= LineNum < |old(lines)| == |old(searchLines)|
      ensures !ok ==> lines == old(lines) && searchLines == old(searchLines)
      ensures ok ==> && lines == old(lines)[LineNum := old(lines)[LineNum] + text]
                     && searchLines == old(searchLines)[LineNum := old(searchLines)[LineNum] + text]
      ensures old(LinesAligned()) ==> LinesAligned()
    {
      if LineNum < 0 || LineNum >= |lines| {
        return false;
      }
      lines := lines[LineNum := lines[LineNum] + text];
      searchLines := searchLines[LineNum := searchLines[LineNum] + text];
      return true;
    }

    /** A snapshot of the raw buffer; a sequence is a value, so the caller
        cannot reach the model's state through it. */
    function GetLines(): (r: seq<string>)
      reads this
      ensures |r| == |lines| && forall i :: 0 <= i < |r| ==> r[i] == lines[i]
    {
      lines
    }
  }

  /** Two unique insertions of the same line into a fresh model: the first
      inserts exactly when no raw line contains it yet, the second never does. */
  method InsertUniqueTwice(raw: seq<string>, stripped: seq<string>, line: string)
    returns (first: bool, second: bool)
    requires Aligned(raw, stripped)
    ensures first <==> !AnyLineContains(raw, line)
    ensures !second
  {
    var model := new FileModel(raw, stripped);
    first := model.InsertUniqueLineWithIndent(line, false, 0);
    second := model.InsertUniqueLineWithIndent(line, false, 0);
  }
}
