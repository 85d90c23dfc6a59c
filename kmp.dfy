/** `StringKMP(text, pattern)`: the 0-based offset of the first occurrence
    of `pattern` in `text`, or -1 when there is none. An empty pattern
    occurs at offset 0. */
module StringSearch {

  /** `pattern` occurs in `text` starting at offset `s`. */
  predicate MatchAt(text: string, pattern: string, s: int)
  {
    0 <= s && s + |pattern| <= |text| && text[s..s + |pattern|] == pattern
  }

  /** The first occurrence at or after `from`, by trying each offset. */
  function FirstMatchFrom(text: string, pattern: string, from: nat): (r: int)
    ensures r == -1 || (from <= r && MatchAt(text, pattern, r))
    ensures r == -1 ==> forall k :: from <= k ==> !MatchAt(text, pattern, k)
    ensures r != -1 ==> forall k :: from <= k < r ==> !MatchAt(text, pattern, k)
    decreases |text| - from
  {
    if from + |pattern| > |text| then -1
    else if text[from..from + |pattern|] == pattern then from
    else FirstMatchFrom(text, pattern, from + 1)
  }

  /** A search consistent with the tests: the first offset where the
      pattern occurs, -1 exactly when it occurs nowhere. The tests only
      check two texts where the pattern occurs once; the first-offset rule
      and the -1 answer are this model's choices. */
  function StringKMP(text: string, pattern: string): (r: int)
    ensures r == -1 <==> forall k :: !MatchAt(text, pattern, k)
    ensures r != -1 ==> MatchAt(text, pattern, r) &&
                        forall k :: 0 <= k < r ==> !MatchAt(text, pattern, k)
  {
    FirstMatchFrom(text, pattern, 0)
  }

  /** The two cases the tests assert: both answer 5, the text at offset 5
      spells the pattern, and that is the only occurrence. In the second
      text "cde" at offset 2 starts like "cdef" and then fails, and the
      search still reaches offset 5. */
  lemma KmpTestCases()
    ensures StringKMP("abcdecdfg", "cdfg") == 5
    ensures StringKMP("abcdecdeffg", "cdef") == 5
    ensures "abcdecdfg"[5..9] == "cdfg" && "abcdecdeffg"[5..9] == "cdef"
    ensures forall k :: MatchAt("abcdecdfg", "cdfg", k) ==> k == 5
    ensures forall k :: MatchAt("abcdecdeffg", "cdef", k) ==> k == 5
    ensures "abcdecdeffg"[2..5] == "cde"[..3] == "cdef"[..3] && !MatchAt("abcdecdeffg", "cdef", 2)
  {
    var t1, p1 := "abcdecdfg", "cdfg";
    var t2, p2 := "abcdecdeffg", "cdef";
    forall k | MatchAt(t1, p1, k)
      ensures k == 5
    {
      assert t1[k] == 'c' && t1[k + 1] == 'd' && t1[k + 2] == 'f';
    }
    forall k | MatchAt(t2, p2, k)
      ensures k == 5
    {
      assert t2[k] == 'c' && t2[k + 1] == 'd' && t2[k + 2] == 'e' && t2[k + 3] == 'f';
    }
    assert t1[5..9] == p1 && t2[5..9] == p2;
    assert MatchAt(t1, p1, 5) && MatchAt(t2, p2, 5);
    var r1, r2 := StringKMP(t1, p1), StringKMP(t2, p2);
    assert r1 != -1 && MatchAt(t1, p1, r1);
    assert r2 != -1 && MatchAt(t2, p2, r2);
    assert t2[2..5] == "cde" && t2[5] != p2[3];
  }

  // ---------------------------------------------------------------------
  // Knuth-Morris-Pratt: a prefix table, then one pass over the text.

  /** The first `k` units of `pattern` are the last `k` units of `s`. */
  predicate SuffixPrefix(pattern: string, s: string, k: int)
  {
    0 <= k <= |pattern| && k <= |s| && pattern[..k] == s[|s| - k..]
  }

  /** `j` is the longest `k < bound` with `SuffixPrefix(pattern, s, k)`. */
  predicate Longest(pattern: string, s: string, j: int, bound: int)
  {
    SuffixPrefix(pattern, s, j) && j < bound &&
    forall k :: j < k < bound ==> !SuffixPrefix(pattern, s, k)
  }

  /** The first `n` entries of `f` are right: `f[i]` is the length of the
      longest proper border of `pattern[..i+1]` (a prefix of it that is also
      a suffix of it, shorter than the whole). */
  predicate TableUpTo(pattern: string, f: array<int>, n: int)
    reads f
  {
    f.Length == |pattern| && n <= |pattern| &&
    forall i :: 0 <= i < n ==> Longest(pattern, pattern[..i + 1], f[i], i + 1)
  }

  /** Of two prefixes that both end `s`, the shorter one ends the longer. */
  lemma SuffixOfLonger(pattern: string, s: string, j: int, k: int)
    requires SuffixPrefix(pattern, s, j) && SuffixPrefix(pattern, s, k) && k <= j
    ensures SuffixPrefix(pattern, pattern[..j], k)
  {
    assert pattern[..j][j - k..] == s[|s| - j..][j - k..] == s[|s| - k..];
  }

  /** A prefix that ends a prefix that ends `s` ends `s`. */
  lemma SuffixOfSuffix(pattern: string, s: string, j: int, k: int)
    requires SuffixPrefix(pattern, s, j) && SuffixPrefix(pattern, pattern[..j], k)
    ensures SuffixPrefix(pattern, s, k)
  {
    assert s[|s| - k..] == s[|s| - j..][j - k..] == pattern[..j][j - k..];
  }

  /** A prefix of length `k + 1` ends `s + [c]` exactly when the prefix of
      length `k` ends `s` and is followed by `c` in the pattern. */
  lemma ExtendByOne(pattern: string, s: string, c: char, k: nat)
    ensures SuffixPrefix(pattern, s + [c], k + 1) <==>
            SuffixPrefix(pattern, s, k) && k < |pattern| && pattern[k] == c
  {
    var t := s + [c];
    if k <= |s| {
      var u, v := t[|t| - (k + 1)..], s[|s| - k..] + [c];
      assert |u| == |v|;
      forall x | 0 <= x < |u|
        ensures u[x] == v[x]
      {
        if x < k {
          assert u[x] == s[|s| - k + x];
        }
      }
      assert u == v;
    }
    if SuffixPrefix(pattern, t, k + 1) {
      var w := pattern[..k + 1];
      assert w == s[|s| - k..] + [c];
      assert pattern[..k] == w[..k];
      assert pattern[k] == w[k];
    }
    if SuffixPrefix(pattern, s, k) && k < |pattern| && pattern[k] == c {
      assert pattern[..k + 1] == pattern[..k] + [pattern[k]];
    }
  }

  /** One fallback `j := f[j-1]` after the prefix of length `j` failed to
      extend by `c`: no length between the new and the old `j` ends `s`,
      so no candidate that could extend by `c` is skipped. */
  lemma FallBack(pattern: string, s: string, c: char, j: int, bound: int, b: int)
    requires 0 < j < bound <= |pattern|
    requires SuffixPrefix(pattern, s, j) && pattern[j] != c
    requires forall k :: j < k < bound && SuffixPrefix(pattern, s, k) ==> pattern[k] != c
    requires Longest(pattern, pattern[..j], b, j)
    ensures 0 <= b < j && SuffixPrefix(pattern, s, b)
    ensures forall k :: b < k < bound && SuffixPrefix(pattern, s, k) ==> pattern[k] != c
  {
    SuffixOfSuffix(pattern, s, j, b);
    forall k | b < k < bound && SuffixPrefix(pattern, s, k)
      ensures pattern[k] != c
    {
      if k < j {
        SuffixOfLonger(pattern, s, j, k);
        assert false;
      }
    }
  }

  /** After the fallbacks stop, the prefix either extends by `c` or the
      match restarts from nothing; either way the result is the longest
      prefix (below `bound + 1`) that ends `s + [c]`. */
  lemma Advance(pattern: string, s: string, c: char, j: int, bound: int)
    requires 0 <= j < bound <= |pattern|
    requires SuffixPrefix(pattern, s, j) && (j == 0 || pattern[j] == c)
    requires forall k :: j < k < bound && SuffixPrefix(pattern, s, k) ==> pattern[k] != c
    ensures Longest(pattern, s + [c], if pattern[j] == c then j + 1 else 0, bound + 1)
  {
    var next := if pattern[j] == c then j + 1 else 0;
    if pattern[j] == c {
      ExtendByOne(pattern, s, c, j);
    }
    forall k | next < k < bound + 1
      ensures !SuffixPrefix(pattern, s + [c], k)
    {
      ExtendByOne(pattern, s, c, k - 1);
    }
  }

  /** One step of the matcher: given the longest pattern prefix below
      `bound` that ends `s`, fall back through the table while that prefix
      cannot be extended by `c`, then extend it if possible. The result is
      the longest prefix below `bound + 1` that ends `s + [c]`. */
  method Step(pattern: string, f: array<int>, s: string, c: char, j: int, bound: int)
    returns (next: int)
    requires TableUpTo(pattern, f, bound)
    requires Longest(pattern, s, j, bound)
    ensures Longest(pattern, s + [c], next, bound + 1)
  {
    next := j;
    while next > 0 && pattern[next] != c
      invariant 0 <= next < bound
      invariant SuffixPrefix(pattern, s, next)
      invariant forall k :: next < k < bound && SuffixPrefix(pattern, s, k) ==> pattern[k] != c
    {
      assert Longest(pattern, pattern[..(next - 1) + 1], f[next - 1], (next - 1) + 1);
      FallBack(pattern, s, c, next, bound, f[next - 1]);
      next := f[next - 1];
    }
    Advance(pattern, s, c, next, bound);
    if pattern[next] == c {
      next := next + 1;
    }
  }

  /** The prefix table, each entry computed from the previous one by the
      same step the search uses, run over the pattern itself. */
  method PrefixTable(pattern: string) returns (f: array<int>)
    ensures TableUpTo(pattern, f, |pattern|)
    ensures |pattern| > 0 ==> f[0] == 0
    ensures forall i :: 0 <= i < f.Length ==> 0 <= f[i] <= i
  {
    f := new int[|pattern|];
    if |pattern| == 0 {
      return;
    }
    f[0] := 0;
    var j := 0;
    var i := 1;
    while i < |pattern|
      invariant 1 <= i <= |pattern|
      invariant TableUpTo(pattern, f, i)
      invariant j == f[i - 1]
    {
      j := Step(pattern, f, pattern[..i], pattern[i], j, i);
      assert pattern[..i] + [pattern[i]] == pattern[..i + 1];
      f[i] := j;
      i := i + 1;
    }
  }

  /** An occurrence at `s` is the whole pattern ending the text's first
      `s + |pattern|` units. */
  lemma MatchIsSuffix(text: string, pattern: string, s: int)
    requires 0 <= s && s + |pattern| <= |text|
    ensures MatchAt(text, pattern, s) <==> SuffixPrefix(pattern, text[..s + |pattern|], |pattern|)
  {
    assert text[..s + |pattern|][s..] == text[s..s + |pattern|];
  }

  /** KMP search: reads each text unit once, keeping `j`, the longest
      pattern prefix that ends the text read so far; falls back through
      the prefix table on a mismatch and stops at the first full match. */
  method KmpSearch(text: string, pattern: string) returns (r: int)
    ensures r == StringKMP(text, pattern)
  {
    var m := |pattern|;
    if m == 0 {
      assert MatchAt(text, pattern, 0);
      return 0;
    }
    var f := PrefixTable(pattern);
    var j := 0;
    var i := 0;
    while i < |text|
      invariant 0 <= i <= |text|
      invariant Longest(pattern, text[..i], j, m)
      invariant forall e :: m <= e <= i ==> !SuffixPrefix(pattern, text[..e], m)
      invariant TableUpTo(pattern, f, m)
    {
      var read := text[..i + 1];
      assert text[..i] + [text[i]] == read;
      j := Step(pattern, f, text[..i], text[i], j, m);
      if j == m {
        FirstAt(text, pattern, i + 1 - m);
        return i + 1 - m;
      }
      KeepScanning(text, pattern, i, j);
      i := i + 1;
    }
    NowhereInText(text, pattern);
    return -1;
  }

  /** After reading unit `i`, the longest prefix ending the text read is
      shorter than the whole pattern: no full match ends at `i + 1` either,
      and scanning goes on with the same bound. */
  lemma KeepScanning(text: string, pattern: string, i: int, j: int)
    requires 0 <= i < |text|
    requires Longest(pattern, text[..i + 1], j, |pattern| + 1) && j != |pattern|
    requires forall e :: |pattern| <= e <= i ==> !SuffixPrefix(pattern, text[..e], |pattern|)
    ensures Longest(pattern, text[..i + 1], j, |pattern|)
    ensures forall e :: |pattern| <= e <= i + 1 ==> !SuffixPrefix(pattern, text[..e], |pattern|)
  {
  }

  /** A match at `s` with none completed earlier is the first one. */
  lemma FirstAt(text: string, pattern: string, s: int)
    requires 0 <= s && s + |pattern| <= |text|
    requires SuffixPrefix(pattern, text[..s + |pattern|], |pattern|)
    requires forall e :: |pattern| <= e < s + |pattern| ==> !SuffixPrefix(pattern, text[..e], |pattern|)
    ensures StringKMP(text, pattern) == s
  {
    MatchIsSuffix(text, pattern, s);
    forall k | 0 <= k < s
      ensures !MatchAt(text, pattern, k)
    {
      MatchIsSuffix(text, pattern, k);
    }
  }

  /** No full match ends anywhere in the text: the search answers -1. */
  lemma NowhereInText(text: string, pattern: string)
    requires forall e :: |pattern| <= e <= |text| ==> !SuffixPrefix(pattern, text[..e], |pattern|)
    ensures StringKMP(text, pattern) == -1
  {
    forall k
      ensures !MatchAt(text, pattern, k)
    {
      if 0 <= k && k + |pattern| <= |text| {
        MatchIsSuffix(text, pattern, k);
      }
    }
  }
}
