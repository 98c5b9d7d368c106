/** The .NET string operations the file model relies on, stated as functions on
    `string` (a sequence of `char`). All comparisons are ordinal. */
module Text {

  /** The characters for which .NET's `char.IsWhiteSpace` holds: the Unicode
      space, line and paragraph separators, the controls U+0009..U+000D and U+0085. */
  predicate IsWhiteSpace(c: char) {
    || c == ' ' || ('\t' <= c <= '\r') || c == '\U{85}' || c == '\U{A0}' || c == '\U{1680}'
    || ('\U{2000}' <= c <= '\U{200A}') || c == '\U{2028}' || c == '\U{2029}'
    || c == '\U{202F}' || c == '\U{205F}' || c == '\U{3000}'
  }

  predicate AllWhiteSpace(s: string) {
    forall i :: 0 <= i < |s| ==> IsWhiteSpace(s[i])
  }

  /** `t` occurs in `s` starting at offset `k`. */
  predicate OccursAt(s: string, t: string, k: int) {
    0 <= k && k + |t| <= |s| && s[k..k + |t|] == t
  }

  /** `s.Contains(t)`: some offset of `s` holds `t` (the empty string occurs everywhere). */
  predicate Contains(s: string, t: string) {
    exists k :: 0 <= k <= |s| - |t| && OccursAt(s, t, k)
  }

  /** `s.EndsWith(t)`. */
  predicate EndsWith(s: string, t: string) {
    |t| <= |s| && s[|s| - |t|..] == t
  }

  /** Offsets of `s[1..]` are the offsets of `s` shifted down by one. */
  lemma OccursAtShift(s: string, t: string)
    requires |s| > 0
    ensures forall k :: 1 <= k ==> (OccursAt(s, t, k) <==> OccursAt(s[1..], t, k - 1))
  {
    forall k | 1 <= k ensures OccursAt(s, t, k) <==> OccursAt(s[1..], t, k - 1) {
      if k + |t| <= |s| {
        assert s[1..][k - 1..k - 1 + |t|] == s[k..k + |t|];
      }
    }
  }

  /** `s.IndexOf(t)`: the first offset at which `t` occurs in `s`, or -1. */
  function IndexOf(s: string, t: string): (r: int)
    ensures -1 <= r
    ensures r < 0 <==> !Contains(s, t)
    ensures 0 <= r ==> OccursAt(s, t, r)
    ensures forall k :: 0 <= k < r ==> !OccursAt(s, t, k)
    decreases |s|
  {
    if |s| < |t| then -1
    else if s[..|t|] == t then assert OccursAt(s, t, 0); 0
    else
      var j := IndexOf(s[1..], t);
      OccursAtShift(s, t);
      if j < 0 then -1 else assert OccursAt(s, t, j + 1); j + 1
  }

  /** The leading-whitespace run of `s`, as `s.TakeWhile(char.IsWhiteSpace)`. */
  function LeadingWhiteSpace(s: string): (r: string)
    ensures r <= s
    ensures AllWhiteSpace(r)
    ensures |r| < |s| ==> !IsWhiteSpace(s[|r|])
  {
    if s != [] && IsWhiteSpace(s[0]) then [s[0]] + LeadingWhiteSpace(s[1..]) else []
  }

  /** A whitespace run followed by a non-whitespace character (or by nothing)
      is exactly the leading whitespace. */
  lemma {:induction false} LeadingWhiteSpaceOf(w: string, s: string)
    requires AllWhiteSpace(w) && (s == [] || !IsWhiteSpace(s[0]))
    ensures LeadingWhiteSpace(w + s) == w
    decreases |w|
  {
    if w != [] {
      assert (w + s)[1..] == w[1..] + s;
      LeadingWhiteSpaceOf(w[1..], s);
    }
  }

  /** The length of the trailing-whitespace run of `s`. */
  function TrailingWhiteSpaceLength(s: string): (n: nat)
    ensures n <= |s|
    ensures AllWhiteSpace(s[|s| - n..])
    ensures n < |s| ==> !IsWhiteSpace(s[|s| - n - 1])
  {
    if s != [] && IsWhiteSpace(s[|s| - 1]) then
      var m := TrailingWhiteSpaceLength(s[..|s| - 1]);
      TrailingRunGrows(s, m);
      m + 1
    else 0
  }

  /** A whitespace run ending just before a final whitespace character grows by it. */
  lemma TrailingRunGrows(s: string, m: nat)
    requires s != [] && IsWhiteSpace(s[|s| - 1]) && m <= |s| - 1
    requires AllWhiteSpace(s[..|s| - 1][|s| - 1 - m..])
    ensures AllWhiteSpace(s[|s| - 1 - m..])
  {
    var p := s[..|s| - 1][|s| - 1 - m..];
    assert s[|s| - 1 - m..] == p + [s[|s| - 1]];
  }

  /** The leading whitespace run of `s` is the prefix of that length. */
  lemma LeadingRun(s: string)
    ensures |LeadingWhiteSpace(s)| <= |s| && s[..|LeadingWhiteSpace(s)|] == LeadingWhiteSpace(s)
  {
  }

  /** What is left between a whitespace run ending at `a` and one starting at
      `b` begins and ends with non-whitespace and sits between the two runs. */
  lemma BetweenRuns(s: string, a: int, b: int)
    requires 0 <= a <= |s| && 0 <= b <= |s|
    requires AllWhiteSpace(s[..a]) && AllWhiteSpace(s[b..])
    requires a < |s| ==> !IsWhiteSpace(s[a])
    requires 0 < b ==> !IsWhiteSpace(s[b - 1])
    ensures var r := if a >= b then [] else s[a..b];
            && OccursAt(s, r, a) && AllWhiteSpace(s[..a]) && AllWhiteSpace(s[a + |r|..])
            && (r == [] || (!IsWhiteSpace(r[0]) && !IsWhiteSpace(r[|r| - 1])))
  {
    if a >= b {
      assert s[a..] == s[b..][a - b..];
    } else {
      assert s[a + (b - a)..] == s[b..];
    }
  }

  /** `s.Trim()`: `s` without its leading and trailing whitespace. */
  function Trim(s: string): (r: string)
    ensures exists i :: OccursAt(s, r, i) && AllWhiteSpace(s[..i]) && AllWhiteSpace(s[i + |r|..])
    ensures r == [] || (!IsWhiteSpace(r[0]) && !IsWhiteSpace(r[|r| - 1]))
  {
    var a := |LeadingWhiteSpace(s)|;
    var b := |s| - TrailingWhiteSpaceLength(s);
    LeadingRun(s);
    BetweenRuns(s, a, b);
    if a >= b then [] else s[a..b]
  }

  /** `s.Replace(t, u)`: every non-overlapping occurrence of `t`, found left to
      right, replaced by `u`. .NET refuses an empty `t`. */
  function ReplaceAll(s: string, t: string, u: string): (r: string)
    requires t != []
    ensures Contains(s, t) ==> Contains(r, u)
    decreases |s|
  {
    if |s| < |t| then s
    else if s[..|t|] == t then
      var rest := ReplaceAll(s[|t|..], t, u);
      assert OccursAt(u + rest, u, 0);
      u + rest
    else
      var rest := ReplaceAll(s[1..], t, u);
      ContainsTail(s, t);
      ContainsCons(s[0], rest, u);
      [s[0]] + rest
  }

  /** An occurrence that is not at offset 0 is an occurrence in the tail. */
  lemma ContainsTail(s: string, t: string)
    requires |t| <= |s| && s[..|t|] != t
    ensures Contains(s, t) ==> Contains(s[1..], t)
  {
    if Contains(s, t) {
      var k :| 0 <= k <= |s| - |t| && OccursAt(s, t, k);
      OccursAtShift(s, t);
      assert OccursAt(s[1..], t, k - 1);
    }
  }

  /** Putting a character in front keeps every occurrence. */
  lemma ContainsCons(c: char, s: string, t: string)
    ensures Contains(s, t) ==> Contains([c] + s, t)
  {
    if Contains(s, t) {
      var m :| 0 <= m <= |s| - |t| && OccursAt(s, t, m);
      assert ([c] + s)[m + 1..m + 1 + |t|] == s[m..m + |t|];
      assert OccursAt([c] + s, t, m + 1);
    }
  }

  /** A line that does not start with `t` keeps its first character. */
  lemma ReplaceSkips(s: string, t: string, u: string)
    requires t != [] && |t| <= |s| && s[..|t|] != t
    ensures ReplaceAll(s, t, u) == [s[0]] + ReplaceAll(s[1..], t, u)
  {
  }

  /** `Replace` works left to right: for the first occurrence of `t`, at
      offset `k`, the result is the line up to `k`, then `u`, then the rest of
      the line after that occurrence, itself replaced. */
  lemma ReplaceAtFirst(s: string, t: string, u: string, k: int)
    requires t != [] && OccursAt(s, t, k)
    requires forall i :: 0 <= i < k ==> !OccursAt(s, t, i)
    ensures ReplaceAll(s, t, u) == s[..k] + u + ReplaceAll(s[k + |t|..], t, u)
  {
    ReplaceFrom(s, t, u, 0, k);
    assert s[0..] == s && s[0..k] == s[..k];
  }

  /** `ReplaceAtFirst` for the suffix from `j` on, when no occurrence starts
      between `j` and `k`. */
  lemma {:induction false} ReplaceFrom(s: string, t: string, u: string, j: int, k: int)
    requires t != [] && 0 <= j <= k && OccursAt(s, t, k)
    requires forall i :: j <= i < k ==> !OccursAt(s, t, i)
    ensures ReplaceAll(s[j..], t, u) == s[j..k] + u + ReplaceAll(s[k + |t|..], t, u)
    decreases k - j
  {
    if j == k {
      assert s[k..][..|t|] == s[k..k + |t|];
      assert s[k..][|t|..] == s[k + |t|..];
      assert s[k..k] + u == u;
    } else {
      ReplaceFrom(s, t, u, j + 1, k);
      ReplaceSkipsAt(s, t, u, j);
      Regroup(s, j, k, u, ReplaceAll(s[k + |t|..], t, u));
    }
  }

  /** A suffix that does not start with `t` keeps its first character. */
  lemma ReplaceSkipsAt(s: string, t: string, u: string, j: int)
    requires t != [] && 0 <= j && j + |t| <= |s| && !OccursAt(s, t, j)
    ensures ReplaceAll(s[j..], t, u) == [s[j]] + ReplaceAll(s[j + 1..], t, u)
  {
    assert s[j..][..|t|] == s[j..j + |t|];
    ReplaceSkips(s[j..], t, u);
    assert s[j..][1..] == s[j + 1..];
  }

  /** The character at `j` in front of the piece from `j + 1` to `k` is the
      piece from `j` to `k`. */
  lemma Regroup(s: string, j: int, k: int, u: string, rest: string)
    requires 0 <= j < k <= |s|
    ensures [s[j]] + (s[j + 1..k] + u + rest) == s[j..k] + u + rest
  {
    assert [s[j]] + s[j + 1..k] == s[j..k];
  }

  /** A string that does not contain `t` comes back from `Replace` unchanged. */
  lemma {:induction false} ReplaceAbsent(s: string, t: string, u: string)
    requires t != [] && !Contains(s, t)
    ensures ReplaceAll(s, t, u) == s
    decreases |s|
  {
    if |s| >= |t| {
      assert !OccursAt(s, t, 0);
      assert s[..|t|] != t;
      OccursAtShift(s, t);
      forall k | 0 <= k ensures !OccursAt(s[1..], t, k) {
        assert OccursAt(s[1..], t, k) ==> OccursAt(s, t, k + 1);
      }
      ReplaceAbsent(s[1..], t, u);
    }
  }

  /** Replacing `t` by itself changes nothing. */
  lemma {:induction false} ReplaceByItself(s: string, t: string)
    requires t != []
    ensures ReplaceAll(s, t, t) == s
    decreases |s|
  {
    if |s| >= |t| {
      if s[..|t|] == t {
        ReplaceByItself(s[|t|..], t);
        assert s == s[..|t|] + s[|t|..];
      } else {
        ReplaceByItself(s[1..], t);
        assert s == [s[0]] + s[1..];
      }
    }
  }

  /** A replacement of the same length keeps the string's length, hence its
      alignment with the other buffer's copy of the line. */
  lemma {:induction false} ReplaceKeepsLength(s: string, t: string, u: string)
    requires t != [] && |u| == |t|
    ensures |ReplaceAll(s, t, u)| == |s|
    decreases |s|
  {
    if |s| >= |t| {
      if s[..|t|] == t {
        ReplaceKeepsLength(s[|t|..], t, u);
      } else {
        ReplaceKeepsLength(s[1..], t, u);
      }
    }
  }
}
