# FileModel: a line-based editing model of a code file

Lynicon's code-editing commands work on a `FileModel`, defined in
`src/LyniconANC/Commands/FileModel.cs`. The model has three fields:

- a raw buffer `lines`, one string per line of the file;
- a masked buffer `searchLines`, where comments and string literals are blanked out so that searches only see code;
- a cursor `LineNum` that both buffers share.

The model offers these operations:

- **Cursor moves:** `ToTop` and a clamped `Jump`.
- **Forward and backward line searches:** these run on the masked buffer. A search leaves the cursor on the match, or on the line count or -1 when there is no match.
- **`FindEndOfMethod`:** a heuristic search composed of the other searches.
- **Edits that touch both buffers together:**
  - insert a line indented like its neighbour, optionally only when no line already holds it;
  - splice text in just after the bracket that closes a given opening bracket;
  - replace text on the cursor line;
  - append text to the cursor line.
- **Reads:** `CurrentLine`, `LineContains`, `GetLines`.

The Dafny project builds this model as the class `FileModels.FileModel`. It has the same three fields and a method per operation, and each method is proved against pure specification functions:
- `LineSearch.ForwardTarget` and `LineSearch.BackwardTarget` give where a search lands.
- `Editing.InsertAt`, `Editing.Indent` and `Editing.Splice` give what an edit builds.
- `BracketScan.Depth` and `BracketScan.Scanned` give what the bracket scan reads.

The .NET string and LINQ operations the class relies on live in the modules `Text` and `Linq`: `IndexOf`, `Contains`, `EndsWith`, `Trim`, `Replace`, `TakeWhile(char.IsWhiteSpace)`, `Skip`, `Reverse` and `IndexOfPredicate`. All string comparisons are ordinal.

The searches use their own idioms, and the model keeps them:
- A forward search computes `Skip(LineNum).IndexOfPredicate(p) + LineNum`.
- A backward search computes `LineNum - Reverse().Skip(Count - LineNum - 1).IndexOfPredicate(p)`.

The model states each result as the first or last matching line. The cursor ranges where those idioms land on the wrong line become preconditions.

Three cases behave differently from what a reader of the doc comments or the code's own comments might expect, and the model follows the code:
- The doc comments at src/LyniconANC/Commands/FileModel.cs:206 and 220 say that default mode matches the previous line's indentation, that is, the cursor line that the new line follows. With the cursor on line 0, though, the `LineNum > 0` test (line 225) copies no indentation at all. `Editing.IndentExample` states the code's behaviour.
- On an empty buffer, a `Jump` whose target is 0 or more leaves the cursor at -1 (`Count - 1`). A negative target leaves it at 0.
- The fallback of `FindEndOfMethod` (lines 185-198) looks, from the end, for the lone `}` of the namespace, then of the class, then of the method. Each search after the first starts with `Jump(-1)`, which stays on line 0. So a lone `}` on line 0 is found again by every later search, and the fallback succeeds there even when the file has fewer than three such lines. `LineSearch.ThirdFromEndCounts` states exactly when the fallback succeeds and where it lands.

## Model

| member | source | states |
|---|---|---|
| FileModels.FileModel.constructor | src/LyniconANC/Commands/FileModel.cs:60-66 | The model holds the given raw lines and their masked form, and the cursor is on line 0. The two buffers have equal line counts and line lengths. |
| FileModels.FileModel.ToTop | src/LyniconANC/Commands/FileModel.cs:83-86 | The cursor moves to line 0. |
| FileModels.FileModel.Jump | src/LyniconANC/Commands/FileModel.cs:88-102 | There are three outcomes. A target inside the buffer returns true and moves the cursor there. A target at or past the end returns false with the cursor on the last line, which is -1 for an empty buffer. A target below 0 returns false with the cursor on line 0. The cursor ends at `JumpTarget` of the line count and the target. |
| FileModels.FileModel.FindLineContains | src/LyniconANC/Commands/FileModel.cs:109-116 | The cursor lands on `ForwardTarget` for "contains": the first masked line at or after the old cursor that contains the text, or the line count. The result is true exactly when a line was found. |
| FileModels.FileModel.FindPrevLineContains | src/LyniconANC/Commands/FileModel.cs:117-124 | The cursor lands on `BackwardTarget` for "contains": the last masked line at or before the old cursor that contains the text, or -1. The result is true exactly when a line was found. |
| FileModels.FileModel.FindLineIs | src/LyniconANC/Commands/FileModel.cs:131-138 | The cursor lands on `ForwardTarget` for "trimmed line equals the text". The result is true exactly when a line was found. |
| FileModels.FileModel.FindPrevLineIs | src/LyniconANC/Commands/FileModel.cs:139-146 | The cursor lands on `BackwardTarget` for "trimmed line equals the text". The result is true exactly when a line was found. |
| FileModels.FileModel.CurrentLine | src/LyniconANC/Commands/FileModel.cs:148-151 | Returns the masked line at the cursor. |
| FileModels.FileModel.LineContains | src/LyniconANC/Commands/FileModel.cs:153-156 | True exactly when `IndexOf` finds the text in the masked cursor line. |
| FileModels.FileModel.FindLineContainsAny | src/LyniconANC/Commands/FileModel.cs:158-165 | The cursor moves as the forward search for "contains some candidate" does. The result is null exactly when the cursor ends at the line count. Otherwise it is the first candidate, in list order, that the found masked line contains. |
| FileModels.FileModel.FindEndOfMethod | src/LyniconANC/Commands/FileModel.cs:167-200 | The `}` line it ends on is `EndOfMethodClosing` of the masked buffer and the old cursor. The result is true exactly when that line exists. On success the masked line trims to `}`, and the cursor ends just above it, or on it when it is line 0. On failure the cursor is -1. |
| FileModels.FileModel.FindClosingFromEnd | src/LyniconANC/Commands/FileModel.cs:183-198 | The fallback branch, started with the cursor past the last line. The line it ends on is `ThirdFromEnd` of which masked lines trim to `}`, and the result is true exactly when that line exists. On success the cursor ends just above it, or on it when it is line 0. On failure the cursor is -1. |
| FileModels.FileModel.StepToPrevCloser | src/LyniconANC/Commands/FileModel.cs:189-190 | One `Jump(-1)` followed by `FindPrevLineIs("}")`: the cursor lands on the last lone `}` at or above the line above it (line 0 when it was on line 0), or on -1. The result is true exactly when such a line was found. |
| FileModels.FileModel.InsertLineWithIndent | src/LyniconANC/Commands/FileModel.cs:222-236 | Both buffers get the same line `Indent(...) + line`, inserted just after the cursor or at the end. The cursor moves onto it. Nothing else moves except by the shift of one position. Buffers that were aligned stay aligned. |
| FileModels.FileModel.InsertUniqueLineWithIndent | src/LyniconANC/Commands/FileModel.cs:208-214 | If some raw line already contains the text, it returns false and changes nothing. Otherwise it inserts exactly as `InsertLineWithIndent` does and returns true. Either way, afterwards some raw line contains the text. |
| FileModels.InsertUniqueTwice | src/LyniconANC/Commands/FileModel.cs:208-214 | Two unique insertions of the same line into a fresh model: the first inserts exactly when no raw line holds the line, and the second never inserts. |
| FileModels.FileModel.InsertTextAfterMatchingBracket | src/LyniconANC/Commands/FileModel.cs:240-272 | It throws `ArgumentException` when the match text does not end with the open bracket. Otherwise the scan runs from just after the first occurrence of the match text. If that text runs out with the bracket open, it returns false with the cursor at the line count. If the raw line is shorter than the offset, it throws `ArgumentOutOfRangeException`. If the raw and masked prefixes differ, it returns false. Otherwise it splices the text, at the offset just after the closing bracket, into that line of both buffers and returns true; no other line changes. Aligned buffers never throw and stay aligned. |
| FileModels.FileModel.InsertTextAfterMatchingParenthesis | src/LyniconANC/Commands/FileModel.cs:238-239 | The two-argument overload: the same effect with `(` and `)`. |
| FileModels.ScanToClosingBracket | src/LyniconANC/Commands/FileModel.cs:245-262 | The scan loop, which starts at depth 1. It either stops right after the character that brings the depth to 0, with the depth positive at every earlier position, or reports the line count when the text ends with the bracket still open. |
| FileModels.FileModel.ReplaceText | src/LyniconANC/Commands/FileModel.cs:274-287 | With the cursor off the buffer, or the text absent from the masked cursor line, it returns false and changes nothing. Otherwise every occurrence is replaced in the cursor line of both buffers and it returns true; no other line and not the cursor changes. The test is made on the masked line, so a raw line without the text is left as it is. Replacing the text by itself changes nothing. A replacement of the same length keeps the buffers aligned. |
| FileModels.FileModel.AppendText | src/LyniconANC/Commands/FileModel.cs:289-297 | With the cursor off the buffer it returns false and changes nothing. Otherwise the text is appended to the cursor line of both buffers and it returns true. Buffers that were aligned stay aligned. |
| FileModels.FileModel.GetLines | src/LyniconANC/Commands/FileModel.cs:299-302 | Returns a copy with the raw buffer's lines, in order. |
| LineSearch.ForwardTarget | src/LyniconANC/Commands/FileModel.cs:112-114 | The forward-search index lies between 0 and the line count. A result below the count is a matching line at or after the start. |
| LineSearch.ForwardTargetIsFirst | src/LyniconANC/Commands/FileModel.cs:112-114 | No line from the start up to the forward target matches, so the target is the first match or the line count. |
| LineSearch.BackwardTarget | src/LyniconANC/Commands/FileModel.cs:120-122 | The backward-search index is at least -1. A result of 0 or more is a matching line at or before the start. |
| LineSearch.BackwardTargetIsLast | src/LyniconANC/Commands/FileModel.cs:120-122 | No line after the backward target, up to the start, matches, so the target is the last match or -1. |
| LineSearch.ForwardSearchStays | src/LyniconANC/Commands/FileModel.cs:109-116 | Repeating a successful forward search from where it landed finds the same line. |
| LineSearch.SearchesAgree | src/LyniconANC/Commands/FileModel.cs:109-124 | A backward search started on the line a forward search found finds that same line. |
| LineSearch.FirstCandidate | src/LyniconANC/Commands/FileModel.cs:164 | The index of the first candidate, in list order, that the line contains. |
| LineSearch.JumpTarget | src/LyniconANC/Commands/FileModel.cs:88-102 | Where `Jump` aims the cursor: the target itself when it is inside the buffer, the last line when it is at or past the end, and a line of the buffer whenever the buffer is non-empty. |
| LineSearch.BackwardTargetIsLastTrue | src/LyniconANC/Commands/FileModel.cs:120-122 | The backward search lands on the last line at or before the start whose entry in the match mask is true, or on -1. |
| LineSearch.ThirdFromEnd | src/LyniconANC/Commands/FileModel.cs:185-198 | The line the fallback's three backward searches end on: a line that trims to `}`, or -1. |
| LineSearch.ThirdFromEndCounts | src/LyniconANC/Commands/FileModel.cs:185-198 | The fallback fails exactly when fewer than three lines are a lone `}` and line 0 is not one. Past a result above line 0 there are exactly two more lone `}` lines, so it is the third counting back from the end. Past a result on line 0 there are at most two. |
| LineSearch.EndOfMethodClosing | src/LyniconANC/Commands/FileModel.cs:167-200 | The `}` line `FindEndOfMethod` ends on. Searching forward from the line after the cursor, it takes the last lone `}` at or before the first line that holds a visibility keyword. Without such a line it takes `ThirdFromEnd`. The result is a line that trims to `}`, or -1. |
| Linq.SkipIsSuffix | src/LyniconANC/Commands/FileModel.cs:112-120 | `Skip(n)` leaves the suffix of the sequence of its own length: everything for `n` of 0 or less, `Count - n` elements for `n` inside the sequence, and nothing past it. |
| Linq.SkipSkip | src/LyniconANC/Commands/FileModel.cs:112-120 | Skipping `m` and then `n` elements, both non-negative, is skipping `m + n`. |
| Linq.ReverseReverse | src/LyniconANC/Commands/FileModel.cs:120 | Reversing twice gives the sequence back. |
| Linq.IndexOfPredicate | src/LyniconANC/Commands/FileModel.cs:112 | Returns the index of the first element satisfying the predicate, with no earlier element satisfying it, or -1 when none does. |
| Linq.BackwardWindow | src/LyniconANC/Commands/FileModel.cs:120 | `Reverse().Skip(Count - start - 1)` lists lines `start` down to 0, and is empty for a negative start. |
| Text.IndexOf | src/LyniconANC/Commands/FileModel.cs:244 | The first offset at which the text occurs, or -1 exactly when it does not occur. |
| Text.LeadingWhiteSpace | src/LyniconANC/Commands/FileModel.cs:226 | The longest all-whitespace prefix of the line. |
| Text.LeadingWhiteSpaceOf | src/LyniconANC/Commands/FileModel.cs:226 | The leading whitespace of a whitespace run followed by non-whitespace is that run. |
| Text.TrailingWhiteSpaceLength | src/LyniconANC/Commands/FileModel.cs:134 | The length of the longest all-whitespace suffix. |
| Text.Trim | src/LyniconANC/Commands/FileModel.cs:134 | The result occurs in the line between a whitespace prefix and a whitespace suffix, and neither starts nor ends with whitespace. |
| Text.ReplaceAll | src/LyniconANC/Commands/FileModel.cs:281-282 | `string.Replace`: every non-overlapping occurrence of the text is replaced, scanning left to right. A line that contains the text gives a result that contains the replacement. `ReplaceAtFirst` states the left-to-right split, and `ReplaceKeepsLength`, `ReplaceAbsent` and `ReplaceByItself` state its length and fixed points. |
| Text.ReplaceAtFirst | src/LyniconANC/Commands/FileModel.cs:281-282 | At the first occurrence of the text, the result is the line before it, then the replacement, then the rest of the line after that occurrence, itself replaced. |
| Text.ReplaceAbsent | src/LyniconANC/Commands/FileModel.cs:281-282 | Replacing text that does not occur leaves the line unchanged. |
| Text.ReplaceByItself | src/LyniconANC/Commands/FileModel.cs:281-282 | Replacing text by itself leaves the line unchanged. |
| Text.ReplaceKeepsLength | src/LyniconANC/Commands/FileModel.cs:281-282 | A same-length replacement keeps the line's length. |
| Editing.InsertAt | src/LyniconANC/Commands/FileModel.cs:234-235 | `List.Insert`: one more element; the new one at the index, earlier ones in place, later ones shifted by one. |
| Editing.InsertPosition | src/LyniconANC/Commands/FileModel.cs:231-233 | The insertion index is the smaller of the line after the cursor and the line count. |
| Editing.IndentSource | src/LyniconANC/Commands/FileModel.cs:225-228 | A source line exists exactly in default mode with the cursor past line 0, or with `useIndentAfter` and the cursor above the last line. It is the cursor line in default mode and the next line with `useIndentAfter`. |
| Editing.Indent | src/LyniconANC/Commands/FileModel.cs:224-230 | The new line's indentation is whitespace. It is a prefix of the source line's leading whitespace, that run shortened by `backIndent` characters and floored at 0. It is empty when there is no source line: default mode at cursor 0, or `useIndentAfter` on the last line. |
| Editing.IndentExample | src/LyniconANC/Commands/FileModel.cs:224-230 | On a three-line block, default mode at line 0 copies nothing. `useIndentAfter` copies the next line's four spaces, or two of them when `backIndent` is 2. Default mode at line 2 copies its two spaces. |
| Editing.Splice | src/LyniconANC/Commands/FileModel.cs:265-270 | The line with the text inserted at the offset: the prefix, the text, then the rest, which is empty at or past the end. |
| Editing.InsertedLineIsFound | src/LyniconANC/Commands/FileModel.cs:210-213 | After an insertion of `indent + line`, some line contains `line`. |
| Editing.InsertKeepsAligned | src/LyniconANC/Commands/FileModel.cs:234-235 | Inserting the same line into two aligned buffers keeps them aligned. |
| Editing.SpliceKeepsAligned | src/LyniconANC/Commands/FileModel.cs:265-270 | Splicing the same text at the same offset of two aligned buffers keeps them aligned. |
| BracketScan.ScanStep | src/LyniconANC/Commands/FileModel.cs:257-261 | Reading one character while the bracket is open moves the depth by that character's effect: `+1` for the open bracket, which is checked first, `-1` for the close bracket, 0 otherwise. |
| BracketScan.ScanWrap | src/LyniconANC/Commands/FileModel.cs:248-255 | Wrapping to the next line reads nothing. While the bracket is open, the line wrapped onto is non-empty. |
| BracketScan.ScanClosed | src/LyniconANC/Commands/FileModel.cs:246 | A scan whose depth is 0 past its start ends where it stands. |
| BracketScan.ClosedByClose | src/LyniconANC/Commands/FileModel.cs:257-260 | The character that brings the depth to 0 is the close bracket, and it is not also the open bracket. |
| BracketScan.ClosesOnce | src/LyniconANC/Commands/FileModel.cs:246 | Text that closes the bracket with its last character closes it at no other length. |
| BracketScan.PrefixStep | src/LyniconANC/Commands/FileModel.cs:257-261 | One scan step over a prefix of a text. |
| BracketScan.NestedExample | src/LyniconANC/Commands/FileModel.cs:244-262 | For `foo(bar(1,2), baz())` with match text `foo(`, the inner `)` leaves the depth at 1, and the scan closes exactly at the final `)`. |

## Left out

- File I/O: the path constructors (src/LyniconANC/Commands/FileModel.cs:25-57) and `Write` (71-78). The model starts from the lines already read.
- `FileModelStripper` is not part of this model. The constructor takes its output as a parameter, and the only property assumed of it is that it keeps the line count and every line's length.
- The `IndexOfPredicate` extension of `Lynicon.Utility` is not part of this model. It is taken to return the index of the first matching element, or -1.
- List aliasing: the list constructor keeps the caller's `List<string>`, and `GetLines` returns a copy. Here both buffers are values, so later changes made through the caller's list are not modelled.
- Culture-sensitive comparison: `IndexOf`, `Contains`, `EndsWith` and `Replace` are modelled ordinally. `char.IsWhiteSpace` is the fixed list of Unicode whitespace characters.
- Null arguments and `NullReferenceException`: every string and list argument is a value.
- 32-bit overflow of the cursor and of the bracket depth is not modelled: integers are unbounded.
- FileModels.FileModel.FindLineContains: it requires a non-negative cursor or an empty buffer. From a negative cursor `Skip` skips nothing, and the sum lands that many lines before the real match.
- FileModels.FileModel.FindLineIs: it requires a non-negative cursor or an empty buffer. From a negative cursor `Skip` skips nothing, and the sum lands that many lines before the real match.
- FileModels.FileModel.FindLineContainsAny: it requires a non-negative cursor or an empty buffer. From a negative cursor `Skip` skips nothing, and the sum lands that many lines before the real match.
- FileModels.FileModel.FindPrevLineContains: it requires a cursor below the line count. From the line count or beyond, `Skip` skips nothing, and the result lands after the real match.
- FileModels.FileModel.FindPrevLineIs: it requires a cursor below the line count. From the line count or beyond, `Skip` skips nothing, and the result lands after the real match.
- FileModels.FileModel.InsertTextAfterMatchingBracket: it requires, when the match text ends with the open bracket, three things:
  - the cursor is on a line;
  - the masked line contains the match text (otherwise `IndexOf` returns -1 and the scan starts at the wrong offset);
  - no line the scan wraps onto with the bracket still open is empty (the code reads its first character without a check).
- FileModels.FileModel.InsertLineWithIndent: it requires a non-negative `backIndent` (a negative one makes `Substring` throw), a cursor of at least -1, and, in default mode past line 0, a cursor on a line. The code throws in those cases, and the model does not describe the exceptions.
- FileModels.FileModel.ReplaceText: it requires non-empty search text whenever the cursor is on a line, because .NET's `Replace` throws on an empty old value.
- FileModels.FileModel.FindEndOfMethod: it states which lone `}` the searches find. It does not state that this `}` closes a method: the heuristic depends on code style.
- FileModels.FileModel.FindClosingFromEnd: it is the `else` branch of `FindEndOfMethod`, written as a method of its own, and `StepToPrevCloser` is one step of it. The split keeps each proof small. The searches and cursor moves are the code's, in the code's order.
- FileModels.FileModel.CurrentLine: it requires the cursor to be on a line. The code indexes `searchLines[LineNum]` (line 150), which throws `ArgumentOutOfRangeException` for any other cursor, and the model does not describe that exception.
- FileModels.FileModel.LineContains: it requires the cursor to be on a line. The code indexes `searchLines[LineNum]` (line 155), which throws `ArgumentOutOfRangeException` for any other cursor, and the model does not describe that exception.
- FileModels.ScanToClosingBracket: the bracket scan loop is a method of its own that keeps the line in a local. `InsertTextAfterMatchingBracket` stores that line in the cursor afterwards, so the end state is the same as the code's, which moves the cursor as the scan goes.
