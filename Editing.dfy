/** The line and buffer edits the file model performs, as functions on values:
    inserting a line, the indentation copied from a neighbouring line, and
    splicing text into a line (src/LyniconANC/Commands/FileModel.cs:222-236, 265-270). */
module Editing {
  import opened Text
  import opened Outcomes

  /** The raw and masked buffers agree on the number of lines and on the
      length of every line, which is what the stripper guarantees. */
  ghost predicate Aligned(raw: seq<string>, masked: seq<string>) {
    |raw| == |masked| && forall i :: 0 <= i < |raw| ==> |raw[i]| == |masked[i]|
  }

  function Max(a: int, b: int): int { if a >= b then a else b }

  /** `List.Insert(i, x)`. */
  function InsertAt(s: seq<string>, i: int, x: string): (r: seq<string>)
    requires 0 <= i <= |s|
    ensures |r| == |s| + 1 && r[i] == x
    ensures forall k :: 0 <= k < i ==> r[k] == s[k]
    ensures forall k :: i < k < |r| ==> r[k] == s[k - 1]
  {
    s[..i] + [x] + s[i..]
  }

  /** Where a new line goes: one past the cursor, but no further than the end. */
  function InsertPosition(cursor: int, count: int): (p: int)
    ensures p <= count && p <= cursor + 1
    ensures p == count || p == cursor + 1
  {
    if cursor + 1 > count then count else cursor + 1
  }

  /** What an insertion demands of its caller: a non-negative `backIndent`
      (a negative one makes `Substring` throw), a cursor no lower than -1 (so
      that the insertion index is not negative), and, in default mode past the
      first line, a cursor on a line (whose indentation is read). */
  predicate CanInsert(lines: seq<string>, cursor: int, useIndentAfter: bool, backIndent: int) {
    0 <= backIndent && -1 <= cursor && (useIndentAfter || cursor <= 0 || cursor < |lines|)
  }

  /** The raw line whose indentation a new line copies: the cursor line in
      default mode, but only when the cursor is past line 0; the line after the
      cursor with `useIndentAfter`, when there is one. */
  function IndentSource(lines: seq<string>, cursor: int, useIndentAfter: bool): (r: Option<string>)
    requires CanInsert(lines, cursor, useIndentAfter, 0)
    ensures r.Some? <==> (!useIndentAfter && 0 < cursor) || (useIndentAfter && cursor < |lines| - 1)
    ensures r.Some? && !useIndentAfter ==> r.value == lines[cursor]
    ensures r.Some? && useIndentAfter ==> 0 <= cursor + 1 < |lines| && r.value == lines[cursor + 1]
  {
    if !useIndentAfter && cursor > 0 then Some(lines[cursor])
    else if useIndentAfter && cursor < |lines| - 1 then Some(lines[cursor + 1])
    else None
  }

  /** The indentation of a new line: the leading whitespace of its source line
      (none without one), shortened by `backIndent` characters, floored at the
      empty string. */
  function Indent(lines: seq<string>, cursor: int, useIndentAfter: bool, backIndent: int): (r: string)
    requires CanInsert(lines, cursor, useIndentAfter, backIndent)
    ensures AllWhiteSpace(r)
    ensures IndentSource(lines, cursor, useIndentAfter).None? ==> r == []
    ensures IndentSource(lines, cursor, useIndentAfter).Some? ==>
              var w := LeadingWhiteSpace(IndentSource(lines, cursor, useIndentAfter).value);
              r <= w && |r| == Max(|w| - backIndent, 0)
  {
    var w := match IndentSource(lines, cursor, useIndentAfter)
             case Some(l) => LeadingWhiteSpace(l)
             case None => [];
    if backIndent != 0 then w[..Max(|w| - backIndent, 0)] else w
  }

  /** `line.Substring(0, idx) + text + (idx >= line.Length ? "" : line.Substring(idx))`. */
  function Splice(line: string, idx: int, text: string): (r: string)
    requires 0 <= idx <= |line|
    ensures |r| == |line| + |text|
    ensures r[..idx] == line[..idx] && r[idx..idx + |text|] == text && r[idx + |text|..] == line[idx..]
  {
    line[..idx] + text + (if idx >= |line| then [] else line[idx..])
  }

  /** Some raw line contains `t`: `lines.Any(l => l.Contains(t))`. */
  predicate AnyLineContains(lines: seq<string>, t: string) {
    exists i :: 0 <= i < |lines| && Contains(lines[i], t)
  }

  /** A line inserted with any indentation contains the text it was built from,
      so a second unique insertion of the same text finds it. */
  lemma InsertedLineIsFound(lines: seq<string>, pos: int, indent: string, line: string)
    requires 0 <= pos <= |lines|
    ensures AnyLineContains(InsertAt(lines, pos, indent + line), line)
  {
    var r := InsertAt(lines, pos, indent + line);
    assert OccursAt(r[pos], line, |indent|);
  }

  /** Inserting the same line into both buffers keeps them aligned. */
  lemma InsertKeepsAligned(raw: seq<string>, masked: seq<string>, pos: int, x: string)
    requires Aligned(raw, masked) && 0 <= pos <= |raw|
    ensures Aligned(InsertAt(raw, pos, x), InsertAt(masked, pos, x))
  {
  }

  /** Splicing the same text at the same offset of two lines of equal length
      gives lines of equal length. */
  lemma SpliceKeepsAligned(raw: seq<string>, masked: seq<string>, i: int, idx: int, text: string)
    requires Aligned(raw, masked) && 0 <= i < |raw| && 0 <= idx <= |raw[i]|
    ensures Aligned(raw[i := Splice(raw[i], idx, text)], masked[i := Splice(masked[i], idx, text)])
  {
  }

  /** Inserting into the block `  if (x) {` / `    return 1;` / `  }`: at line 0
      the default mode copies no indentation (the cursor is not past line 0),
      `useIndentAfter` copies line 1's four spaces (two of them with
      `backIndent` 2), and at line 2 the default mode copies its two spaces. */
  lemma IndentExample()
    ensures Indent(["  if (x) {", "    return 1;", "  }"], 0, false, 0) == ""
    ensures Indent(["  if (x) {", "    return 1;", "  }"], 0, true, 0) == "    "
    ensures Indent(["  if (x) {", "    return 1;", "  }"], 2, false, 0) == "  "
    ensures Indent(["  if (x) {", "    return 1;", "  }"], 0, true, 2) == "  "
  {
    LeadingWhiteSpaceOf("    ", "return 1;");
    assert "    return 1;" == "    " + "return 1;";
    LeadingWhiteSpaceOf("  ", "}");
    assert "  }" == "  " + "}";
  }
}
