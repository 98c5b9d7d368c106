/** Where the file model's line searches leave the cursor, computed on the
    masked buffer exactly as the searches compute it (src/LyniconANC/Commands/FileModel.cs:109-165). */
module LineSearch {
  import opened Text
  import opened Linq

  /** What a search asks of a masked line. */
  datatype Query =
    | HasText(text: string)                 // `l.Contains(text)`
    | IsText(text: string)                  // `l.Trim() == text`
    | HasAnyOf(candidates: seq<string>)     // `candidates.Any(c => l.Contains(c))`

  predicate Matches(line: string, q: Query) {
    match q
    case HasText(t) => Contains(line, t)
    case IsText(t) => Trim(line) == t
    case HasAnyOf(cs) => exists i :: 0 <= i < |cs| && Contains(line, cs[i])
  }

  /** The predicate handed to `IndexOfPredicate`. */
  function Matcher(q: Query): string -> bool {
    l => Matches(l, q)
  }

  /** The cursor after a forward search from `start`:
      `Skip(start).IndexOfPredicate(...) + start`, replaced by the line count when
      it lands before `start`. It is the first matching line at or after
      `start`, or the line count when there is none. A negative `start` on a
      non-empty buffer is excluded: there the sum lands `-start` lines before the
      actual match. */
  function ForwardTarget(sl: seq<string>, start: int, q: Query): (r: int)
    requires 0 <= start || sl == []
    ensures 0 <= r <= |sl|
    ensures r < |sl| ==> start <= r && Matches(sl[r], q)
  {
    var rest := Skip(sl, start);
    var j := IndexOfPredicate(rest, Matcher(q));
    assert forall k :: 0 <= k < |rest| ==> rest[k] == sl[start + k];
    var found := j + start;
    if found < start then |sl| else found
  }

  /** No line between `start` and the forward search's target matches: the
      target is the first match. */
  lemma ForwardTargetIsFirst(sl: seq<string>, start: int, q: Query)
    requires 0 <= start || sl == []
    ensures forall k :: 0 <= k && start <= k < ForwardTarget(sl, start, q) ==> !Matches(sl[k], q)
  {
    var rest := Skip(sl, start);
    assert forall k :: 0 <= k < |rest| ==> rest[k] == sl[start + k];
  }

  /** The cursor after a backward search from `start`:
      `start - Reverse().Skip(Count - start - 1).IndexOfPredicate(...)`, replaced
      by -1 when it lands after `start`. It is the last matching line at or
      before `start`, or -1 when there is none. A cursor at or past the end is
      excluded: there `Skip` skips nothing and the result lands one or more
      lines after the actual match. */
  function BackwardTarget(sl: seq<string>, start: int, q: Query): (r: int)
    requires start < |sl|
    ensures -1 <= r
    ensures 0 <= r ==> r <= start && Matches(sl[r], q)
  {
    var rest := Skip(Reverse(sl), |sl| - start - 1);
    BackwardWindow(sl, start);
    var j := IndexOfPredicate(rest, Matcher(q));
    var found := start - j;
    if found > start then -1 else found
  }

  /** No line between the backward search's target and `start` matches: the
      target is the last match. */
  lemma BackwardTargetIsLast(sl: seq<string>, start: int, q: Query)
    requires start < |sl|
    ensures forall k :: BackwardTarget(sl, start, q) < k <= start ==> !Matches(sl[k], q)
  {
    var rest := Skip(Reverse(sl), |sl| - start - 1);
    BackwardWindow(sl, start);
    var found := BackwardTarget(sl, start, q);
    assert forall k :: found < k <= start ==> rest[start - k] == sl[k];
  }

  /** The backward search's own expression yields `BackwardTarget`. */
  lemma BackwardTargetIs(sl: seq<string>, start: int, q: Query, j: int)
    requires start < |sl| && j == IndexOfPredicate(Skip(Reverse(sl), |sl| - start - 1), Matcher(q))
    ensures BackwardTarget(sl, start, q) == if start - j > start then -1 else start - j
  {
  }

  /** `candidates.First(c => line.Contains(c))`, as an index: the first
      candidate, in list order, that the line contains. */
  function FirstCandidate(candidates: seq<string>, line: string): (i: int)
    requires Matches(line, HasAnyOf(candidates))
    ensures 0 <= i < |candidates| && Contains(line, candidates[i])
    ensures forall k :: 0 <= k < i ==> !Contains(line, candidates[k])
  {
    IndexOfPredicate(candidates, c => Contains(line, c))
  }

  /** A forward search that found a line finds the same line when repeated
      from there: the cursor sits on a match. */
  lemma ForwardSearchStays(sl: seq<string>, start: int, q: Query)
    requires 0 <= start || sl == []
    requires ForwardTarget(sl, start, q) < |sl|
    ensures ForwardTarget(sl, ForwardTarget(sl, start, q), q) == ForwardTarget(sl, start, q)
  {
  }

  /** A successful search ends on a line that the opposite search, started
      there, finds again. */
  lemma SearchesAgree(sl: seq<string>, start: int, q: Query)
    requires 0 <= start || sl == []
    requires ForwardTarget(sl, start, q) < |sl|
    ensures BackwardTarget(sl, ForwardTarget(sl, start, q), q) == ForwardTarget(sl, start, q)
  {
    var f := ForwardTarget(sl, start, q);
    BackwardWindow(sl, f);
    assert Skip(Reverse(sl), |sl| - f - 1)[0] == sl[f];
  }

  /** Where `Jump` puts a cursor aimed at `target` in a buffer of `count`
      lines: the last line when the target is at or past the end (-1 on an
      empty buffer), line 0 when it is before the start. */
  function JumpTarget(count: int, target: int): (r: int)
    ensures count <= target ==> r == count - 1
    ensures 0 < count ==> 0 <= r < count
    ensures 0 <= target < count ==> r == target
  {
    if target >= count then count - 1 else if target < 0 then 0 else target
  }

  /** The visibility keywords that mark the start of the next member. */
  const Visibility: seq<string> := ["public", "internal", "protected", "private"]

  /** Which lines match `q`. */
  function MatchMask(sl: seq<string>, q: Query): (m: seq<bool>)
    ensures |m| == |sl|
    ensures forall k :: 0 <= k < |sl| ==> m[k] == Matches(sl[k], q)
  {
    seq(|sl|, k requires 0 <= k < |sl| => Matches(sl[k], q))
  }

  /** The backward search is `LastTrue` on the lines' matches. */
  lemma BackwardTargetIsLastTrue(sl: seq<string>, start: int, q: Query)
    requires start < |sl|
    ensures BackwardTarget(sl, start, q) == LastTrue(MatchMask(sl, q), start)
  {
    var x := BackwardTarget(sl, start, q);
    var m := MatchMask(sl, q);
    var y := LastTrue(m, start);
    BackwardTargetIsLast(sl, start, q);
    assert 0 <= x ==> m[x];
    assert 0 <= y ==> Matches(sl[y], q);
  }

  /** The line the fallback of `FindEndOfMethod` ends on, given which lines
      are a lone `}`: three backward searches from the last line, each but the
      first started one line above the previous find (line 0 when that find
      was line 0); -1 when one of them fails. */
  function ThirdFromEnd(m: seq<bool>): (r: int)
    ensures -1 <= r < |m|
    ensures 0 <= r ==> m[r]
  {
    var a := LastTrue(m, JumpTarget(|m|, |m| + 9999));
    if a < 0 then -1
    else
      var b := LastTrue(m, JumpTarget(|m|, a - 1));
      if b < 0 then -1
      else LastTrue(m, JumpTarget(|m|, b - 1))
  }

  /** `ThirdFromEnd` from the results `a`, `b`, `c` of its three searches,
      each one given only when the one before it found a line. */
  lemma ThirdFromEndSteps(m: seq<bool>, a: int, b: int, c: int)
    requires a == LastTrue(m, JumpTarget(|m|, |m| + 9999))
    requires 0 <= a ==> b == LastTrue(m, JumpTarget(|m|, a - 1))
    requires 0 <= a && 0 <= b ==> c == LastTrue(m, JumpTarget(|m|, b - 1))
    ensures a < 0 ==> ThirdFromEnd(m) == -1
    ensures 0 <= a && b < 0 ==> ThirdFromEnd(m) == -1
    ensures 0 <= a && 0 <= b ==> ThirdFromEnd(m) == c
  {
  }

  /** The fallback finds the third lone `}` counting back from the end: past
      a line `r > 0` there are exactly two more. Because the restart above a
      find on line 0 is line 0 again, a lone `}` on line 0 is also found,
      however few of them there are; it fails exactly when there are fewer
      than three and line 0 is not one. */
  lemma {:induction false} ThirdFromEndCounts(m: seq<bool>)
    ensures var r := ThirdFromEnd(m);
            && (r < 0 <==> CountFrom(m, 0) < 3 && (m == [] || !m[0]))
            && (0 <= r ==> CountFrom(m, r + 1) <= 2)
            && (0 < r ==> CountFrom(m, r + 1) == 2)
  {
    if m == [] {
      return;
    }
    var n := |m|;
    assert CountFrom(m, n) == 0;
    assert JumpTarget(n, n + 9999) == n - 1;
    LastTrueCount(m, n);
    var a := LastTrue(m, n - 1);
    if a < 0 {
      ThirdFromEndSteps(m, a, -1, -1);
      return;
    }
    if a == 0 {
      assert JumpTarget(n, a - 1) == 0 && LastTrue(m, 0) == 0;
      ThirdFromEndSteps(m, a, 0, 0);
      return;
    }
    assert JumpTarget(n, a - 1) == a - 1;
    LastTrueCount(m, a);
    var b := LastTrue(m, a - 1);
    if b < 0 {
      ThirdFromEndSteps(m, a, b, -1);
      return;
    }
    if b == 0 {
      assert JumpTarget(n, b - 1) == 0 && LastTrue(m, 0) == 0;
      ThirdFromEndSteps(m, a, b, 0);
      CountShrinks(m, 1, a);
      return;
    }
    assert JumpTarget(n, b - 1) == b - 1;
    LastTrueCount(m, b);
    var c := LastTrue(m, b - 1);
    ThirdFromEndSteps(m, a, b, c);
    if 0 <= c {
      CountShrinks(m, 0, c);
    }
  }

  /** The line of the lone `}` that `FindEndOfMethod` ends on, from cursor
      `cursor`: the last one at or before the first visibility-keyword line
      searched forward from the line after the cursor, or, without a keyword
      line, `ThirdFromEnd` of the lone-`}` lines; -1 when there is none. */
  function EndOfMethodClosing(sl: seq<string>, cursor: int): (r: int)
    ensures -1 <= r < |sl|
    ensures 0 <= r ==> Matches(sl[r], IsText("}"))
  {
    var k := ForwardTarget(sl, JumpTarget(|sl|, cursor + 1), HasAnyOf(Visibility));
    if k < |sl| then BackwardTarget(sl, k, IsText("}")) else ThirdFromEnd(MatchMask(sl, IsText("}")))
  }
}
