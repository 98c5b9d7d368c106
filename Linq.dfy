/** The sequence operations the searches are written with: LINQ's `Skip` and
    `Reverse`, and the first-match helper `IndexOfPredicate`. */
module Linq {

  /** `s.Skip(n)`: a count of zero or less skips nothing, one past the end skips everything. */
  function Skip<T>(s: seq<T>, n: int): (r: seq<T>)
  {
    if n <= 0 then s else if n >= |s| then [] else s[n..]
  }

  /** What `Skip` leaves is the suffix of `s` of its own length: all of `s`
      for a count of zero or less, `|s| - n` elements for a count `n` within
      the sequence, and nothing past it. */
  lemma SkipIsSuffix<T>(s: seq<T>, n: int)
    ensures |Skip(s, n)| <= |s| && Skip(s, n) == s[|s| - |Skip(s, n)|..]
    ensures n <= 0 ==> |Skip(s, n)| == |s|
    ensures 0 <= n <= |s| ==> |Skip(s, n)| == |s| - n
    ensures |s| <= n ==> Skip(s, n) == []
  {
  }

  /** Skipping `m` and then `n` non-negative counts skips `m + n`. */
  lemma SkipSkip<T>(s: seq<T>, m: int, n: int)
    requires 0 <= m && 0 <= n
    ensures Skip(Skip(s, m), n) == Skip(s, m + n)
  {
    if m < |s| && 0 < n && m + n < |s| {
      assert s[m..][n..] == s[m + n..];
    }
  }

  /** `s.Reverse()`. */
  function Reverse<T>(s: seq<T>): (r: seq<T>)
  {
    seq(|s|, k requires 0 <= k < |s| => s[|s| - 1 - k])
  }

  /** Reversing twice gives the sequence back. */
  lemma ReverseReverse<T>(s: seq<T>)
    ensures Reverse(Reverse(s)) == s
  {
    var r := Reverse(s);
    assert forall k :: 0 <= k < |s| ==> Reverse(r)[k] == r[|s| - 1 - k] == s[k];
  }

  /** `s.IndexOfPredicate(p)`: the index of the first element satisfying `p`, or -1. */
  function IndexOfPredicate<T>(s: seq<T>, p: T -> bool): (r: int)
    ensures -1 <= r < |s|
    ensures 0 <= r ==> p(s[r])
    ensures forall k :: 0 <= k < r ==> !p(s[k])
    ensures r < 0 ==> forall k :: 0 <= k < |s| ==> !p(s[k])
  {
    if s == [] then -1
    else if p(s[0]) then 0
    else
      var j := IndexOfPredicate(s[1..], p);
      if j < 0 then -1 else j + 1
  }

  /** The window a backward search scans: `s.Reverse().Skip(|s| - start - 1)`
      lists `s[start], s[start - 1], ..., s[0]`, and nothing for a negative `start`. */
  lemma BackwardWindow<T>(s: seq<T>, start: int)
    requires start < |s|
    ensures start < 0 ==> Skip(Reverse(s), |s| - start - 1) == []
    ensures 0 <= start ==> |Skip(Reverse(s), |s| - start - 1)| == start + 1
    ensures 0 <= start ==> forall k :: 0 <= k <= start ==> Skip(Reverse(s), |s| - start - 1)[start - k] == s[k]
  {
  }

  /** The last index at or before `start` where `m` is `true`, or -1. */
  function LastTrue(m: seq<bool>, start: int): (r: int)
    requires start < |m|
    ensures -1 <= r
    ensures 0 <= r ==> r <= start && m[r]
    ensures forall k :: r < k <= start && 0 <= k ==> !m[k]
    decreases start
  {
    if start < 0 then -1 else if m[start] then start else LastTrue(m, start - 1)
  }

  /** The number of `true` entries of `m` from index `lo` on. */
  function CountFrom(m: seq<bool>, lo: nat): nat
    decreases |m| - lo
  {
    if lo >= |m| then 0 else (if m[lo] then 1 else 0) + CountFrom(m, lo + 1)
  }

  /** `false` entries add nothing to the count. */
  lemma {:induction false} CountSkips(m: seq<bool>, lo: nat, hi: nat)
    requires lo <= hi <= |m|
    requires forall k :: lo <= k < hi ==> !m[k]
    ensures CountFrom(m, lo) == CountFrom(m, hi)
    decreases hi - lo
  {
    if lo < hi {
      CountSkips(m, lo + 1, hi);
    }
  }

  /** Counting from further on never counts more. */
  lemma {:induction false} CountShrinks(m: seq<bool>, lo: nat, hi: nat)
    requires lo <= hi
    ensures CountFrom(m, hi) <= CountFrom(m, lo)
    decreases hi - lo
  {
    if lo < hi {
      CountShrinks(m, lo + 1, hi);
    }
  }

  /** How `LastTrue` from `end - 1` splits the count: a find `r` is one
      `true` entry more than `end` on, with none between them; a miss leaves
      the count from 0 as it is from `end`. */
  lemma LastTrueCount(m: seq<bool>, end: int)
    requires 0 < end <= |m|
    ensures var r := LastTrue(m, end - 1);
            && (r < 0 ==> CountFrom(m, 0) == CountFrom(m, end) && !m[0])
            && (0 <= r ==> CountFrom(m, r) == CountFrom(m, end) + 1)
            && (0 <= r ==> CountFrom(m, r + 1) == CountFrom(m, end))
  {
    var r := LastTrue(m, end - 1);
    if r < 0 {
      CountSkips(m, 0, end);
    } else {
      CountSkips(m, r + 1, end);
      assert CountFrom(m, r) == 1 + CountFrom(m, r + 1);
    }
  }
}
