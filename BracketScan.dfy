/** The bracket-depth scan of `InsertTextAfterMatchingBracket`
    (src/LyniconANC/Commands/FileModel.cs:244-262), stated on the text it reads:
    the masked characters from the scan's start up to a position, across line
    ends, and the nesting depth after them. */
module BracketScan {

  /** How one character moves the depth: the open check comes first. */
  function Delta(c: char, open: char, close: char): int {
    if c == open then 1 else if c == close then -1 else 0
  }

  /** The depth after scanning `s`, starting at depth 1 (just past the
      opening bracket of the match text). */
  function Depth(s: string, open: char, close: char): int {
    if s == [] then 1 else Depth(s[..|s| - 1], open, close) + Delta(s[|s| - 1], open, close)
  }

  /** Every proper prefix of `s` leaves the depth positive. */
  ghost predicate OpenThroughout(s: string, open: char, close: char) {
    forall p :: 0 <= p < |s| ==> Depth(s[..p], open, close) > 0
  }

  /** After `s` the bracket is still open, and it was never closed on the way. */
  ghost predicate StaysOpen(s: string, open: char, close: char) {
    OpenThroughout(s, open, close) && Depth(s, open, close) > 0
  }

  /** `s` closes the bracket with its last character, and not before. */
  ghost predicate ClosesAtEnd(s: string, open: char, close: char) {
    OpenThroughout(s, open, close) && Depth(s, open, close) == 0
  }

  /** A position of the scan: line `line`, offset `idx`, at or after the start
      (`line0`, `idx0`). */
  predicate ScanPosition(lines: seq<string>, line0: int, idx0: int, line: int, idx: int) {
    && 0 <= line0 <= line < |lines|
    && 0 <= idx0 <= |lines[line0]|
    && 0 <= idx <= |lines[line]|
    && (line == line0 ==> idx0 <= idx)
  }

  /** The characters the scan has read from (`line0`, `idx0`) to (`line`, `idx`):
      the rest of the first line, the lines in between, and the start of the last. */
  function Scanned(lines: seq<string>, line0: int, idx0: int, line: int, idx: int): string
    requires ScanPosition(lines, line0, idx0, line, idx)
    decreases line - line0
  {
    if line == line0 then lines[line0][idx0..idx]
    else Scanned(lines, line0, idx0, line - 1, |lines[line - 1]|) + lines[line][..idx]
  }

  /** Where a scan from (`line0`, `idx0`) stops: at line `line` just before
      offset `idx`, right after the character that closed the bracket; or at
      the line count, when the text ran out with the bracket still open. */
  ghost predicate ScanEnds(lines: seq<string>, line0: int, idx0: int, line: int, idx: int, open: char, close: char)
    requires 0 <= line0 < |lines| && 0 <= idx0 <= |lines[line0]|
  {
    && line0 <= line <= |lines|
    && (line == |lines| ==> StaysOpen(Scanned(lines, line0, idx0, |lines| - 1, |lines[|lines| - 1]|), open, close))
    && (line < |lines| ==>
          && ScanPosition(lines, line0, idx0, line, idx)
          && (line == line0 ==> idx0 < idx) && (line != line0 ==> 0 < idx)
          && ClosesAtEnd(Scanned(lines, line0, idx0, line, idx), open, close))
  }

  /** Every line the scan wraps onto is non-empty. The scan moves to line `k`
      only when the bracket is still open at the end of line `k - 1`, and then
      reads `k`'s first character without checking that there is one. */
  ghost predicate NoEmptyLineReached(lines: seq<string>, line0: int, idx0: int, open: char, close: char)
    requires 0 <= line0 < |lines| && 0 <= idx0 <= |lines[line0]|
  {
    forall k {:trigger Scanned(lines, line0, idx0, k, 0)} :: line0 < k < |lines| && StaysOpen(Scanned(lines, line0, idx0, k, 0), open, close) ==> lines[k] != []
  }

  /** Reading one more character of the current line appends it. */
  lemma ScannedStep(lines: seq<string>, line0: int, idx0: int, line: int, idx: int)
    requires ScanPosition(lines, line0, idx0, line, idx) && idx < |lines[line]|
    ensures Scanned(lines, line0, idx0, line, idx + 1) == Scanned(lines, line0, idx0, line, idx) + [lines[line][idx]]
  {
    if line != line0 {
      assert lines[line][..idx + 1] == lines[line][..idx] + [lines[line][idx]];
    }
  }

  lemma DepthStep(s: string, c: char, open: char, close: char)
    ensures Depth(s + [c], open, close) == Depth(s, open, close) + Delta(c, open, close)
  {
    assert (s + [c])[..|s|] == s;
  }

  /** Reading a character while the bracket is open keeps every proper prefix open. */
  lemma OpenStep(s: string, c: char, open: char, close: char)
    requires StaysOpen(s, open, close)
    ensures OpenThroughout(s + [c], open, close)
  {
    forall p | 0 <= p < |s + [c]| ensures Depth((s + [c])[..p], open, close) > 0 {
      assert (s + [c])[..p] == s[..p];
    }
  }

  /** The scan has read up to (`line`, `idx`), is at depth `lvl`, and the
      bracket was open at every earlier position. */
  ghost predicate ScanState(lines: seq<string>, line0: int, idx0: int, line: int, idx: int,
                            lvl: int, open: char, close: char) {
    && ScanPosition(lines, line0, idx0, line, idx)
    && lvl == Depth(Scanned(lines, line0, idx0, line, idx), open, close)
    && OpenThroughout(Scanned(lines, line0, idx0, line, idx), open, close)
  }

  /** One step of the scan inside a line: reading `lines[line][idx]` while the
      bracket is open moves the depth by that character's `Delta`. */
  lemma ScanStep(lines: seq<string>, line0: int, idx0: int, line: int, idx: int, lvl: int, open: char, close: char)
    requires ScanState(lines, line0, idx0, line, idx, lvl, open, close) && idx < |lines[line]| && lvl > 0
    ensures ScanState(lines, line0, idx0, line, idx + 1, lvl + Delta(lines[line][idx], open, close), open, close)
  {
    ScannedStep(lines, line0, idx0, line, idx);
    DepthStep(Scanned(lines, line0, idx0, line, idx), lines[line][idx], open, close);
    OpenStep(Scanned(lines, line0, idx0, line, idx), lines[line][idx], open, close);
  }

  /** Moving from the end of a line to the start of the next reads nothing,
      and, while the bracket is open, lands on a non-empty line. */
  lemma ScanWrap(lines: seq<string>, line0: int, idx0: int, line: int, lvl: int, open: char, close: char)
    requires 0 <= line < |lines| - 1 && ScanState(lines, line0, idx0, line, |lines[line]|, lvl, open, close) && lvl > 0
    requires NoEmptyLineReached(lines, line0, idx0, open, close)
    ensures ScanState(lines, line0, idx0, line + 1, 0, lvl, open, close)
    ensures lines[line + 1] != []
  {
    assert Scanned(lines, line0, idx0, line + 1, 0) == Scanned(lines, line0, idx0, line, |lines[line]|);
    assert line0 < line + 1;
  }

  /** A scan whose depth has just reached 0 ends where it stands. */
  lemma ScanClosed(lines: seq<string>, line0: int, idx0: int, line: int, idx: int, open: char, close: char)
    requires ScanState(lines, line0, idx0, line, idx, 0, open, close)
    requires (line == line0 ==> idx0 < idx) && (line != line0 ==> 0 < idx)
    ensures ScanEnds(lines, line0, idx0, line, idx, open, close)
  {
  }

  /** The character that brings the depth to 0 is a close bracket that is not
      also the open bracket. */
  lemma ClosedByClose(s: string, open: char, close: char)
    requires ClosesAtEnd(s, open, close)
    ensures |s| > 0 && s[|s| - 1] == close && s[|s| - 1] != open
  {
    assert |s| > 0;
    assert Depth(s[..|s| - 1], open, close) > 0;
  }

  /** The scan closes at no more than one position: once the depth has reached
      0 no longer stretch of text can close it again. */
  lemma ClosesOnce(s: string, t: string, open: char, close: char)
    requires ClosesAtEnd(s + t, open, close) && ClosesAtEnd(s, open, close)
    ensures t == []
  {
    assert (s + t)[..|s|] == s;
  }

  /** One step of the scan over a prefix of `s`: reading `s[k]` while the
      bracket is open keeps it open throughout and moves the depth by its `Delta`. */
  lemma PrefixStep(s: string, k: int, open: char, close: char)
    requires 0 <= k < |s| && StaysOpen(s[..k], open, close)
    ensures OpenThroughout(s[..k + 1], open, close)
    ensures Depth(s[..k + 1], open, close) == Depth(s[..k], open, close) + Delta(s[k], open, close)
  {
    assert s[..k + 1] == s[..k] + [s[k]];
    DepthStep(s[..k], s[k], open, close);
    OpenStep(s[..k], s[k], open, close);
  }

  /** The text the scan of the line `foo(bar(1,2), baz())` reads
      after the match text `foo(`. */
  const NestedArgs: string := "bar(1,2), baz())"

  lemma NestedArgsPrefix4()
    ensures StaysOpen(NestedArgs[..4], '(', ')') && Depth(NestedArgs[..4], '(', ')') == 2
  {
    assert NestedArgs[..0] == [];
    PrefixStep(NestedArgs, 0, '(', ')');
    assert Depth(NestedArgs[..1], '(', ')') == 1;
    PrefixStep(NestedArgs, 1, '(', ')');
    assert Depth(NestedArgs[..2], '(', ')') == 1;
    PrefixStep(NestedArgs, 2, '(', ')');
    assert Depth(NestedArgs[..3], '(', ')') == 1;
    PrefixStep(NestedArgs, 3, '(', ')');
    assert Depth(NestedArgs[..4], '(', ')') == 2;
  }

  lemma NestedArgsPrefix8()
    requires StaysOpen(NestedArgs[..4], '(', ')') && Depth(NestedArgs[..4], '(', ')') == 2
    ensures StaysOpen(NestedArgs[..8], '(', ')') && Depth(NestedArgs[..8], '(', ')') == 1
  {
    PrefixStep(NestedArgs, 4, '(', ')');
    assert Depth(NestedArgs[..5], '(', ')') == 2;
    PrefixStep(NestedArgs, 5, '(', ')');
    assert Depth(NestedArgs[..6], '(', ')') == 2;
    PrefixStep(NestedArgs, 6, '(', ')');
    assert Depth(NestedArgs[..7], '(', ')') == 2;
    PrefixStep(NestedArgs, 7, '(', ')');
    assert Depth(NestedArgs[..8], '(', ')') == 1;
  }

  lemma NestedArgsPrefix12()
    requires StaysOpen(NestedArgs[..8], '(', ')') && Depth(NestedArgs[..8], '(', ')') == 1
    ensures StaysOpen(NestedArgs[..12], '(', ')') && Depth(NestedArgs[..12], '(', ')') == 1
  {
    PrefixStep(NestedArgs, 8, '(', ')');
    assert Depth(NestedArgs[..9], '(', ')') == 1;
    PrefixStep(NestedArgs, 9, '(', ')');
    assert Depth(NestedArgs[..10], '(', ')') == 1;
    PrefixStep(NestedArgs, 10, '(', ')');
    assert Depth(NestedArgs[..11], '(', ')') == 1;
    PrefixStep(NestedArgs, 11, '(', ')');
    assert Depth(NestedArgs[..12], '(', ')') == 1;
  }

  lemma NestedArgsPrefix15()
    requires StaysOpen(NestedArgs[..12], '(', ')') && Depth(NestedArgs[..12], '(', ')') == 1
    ensures StaysOpen(NestedArgs[..15], '(', ')') && Depth(NestedArgs[..15], '(', ')') == 1
  {
    PrefixStep(NestedArgs, 12, '(', ')');
    assert Depth(NestedArgs[..13], '(', ')') == 1;
    PrefixStep(NestedArgs, 13, '(', ')');
    assert Depth(NestedArgs[..14], '(', ')') == 2;
    PrefixStep(NestedArgs, 14, '(', ')');
    assert Depth(NestedArgs[..15], '(', ')') == 1;
  }

  /** The scan of the line `foo(bar(1,2), baz())` with match `foo(`:
      the first `)` only closes `bar(`'s pair; the depth goes 1, 2, 1, 2, 1, 0
      and reaches 0 at the final `)`. */
  lemma NestedExample()
    ensures Depth("bar(1,2)", '(', ')') == 1
    ensures ClosesAtEnd("bar(1,2), baz())", '(', ')')
  {
    NestedArgsPrefix4();
    NestedArgsPrefix8();
    NestedArgsPrefix12();
    NestedArgsPrefix15();
    PrefixStep(NestedArgs, 15, '(', ')');
    assert NestedArgs == "bar(1,2)" + ", baz())";
    assert NestedArgs[..8] == "bar(1,2)" && NestedArgs[..16] == NestedArgs;
  }
}
