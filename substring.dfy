/** Substring search of Lab4/main.py: a naive scan, Boyer-Moore-Horspool with
    a bad-character skip table, and the search for the longest run "CATCAT..."
    that occurs in a genome. */
module Substring {

  /** The pattern occurs in text starting at index i. */
  predicate MatchAt(text: string, pattern: string, i: int)
  {
    0 <= i && i + |pattern| <= |text| && text[i..i + |pattern|] == pattern
  }

  /** The match starts below hi, in ascending order (reference definition). */
  function MatchesBelow(text: string, pattern: string, hi: int): seq<int>
    decreases if hi < 0 then 0 else hi
  {
    if hi <= 0 then []
    else MatchesBelow(text, pattern, hi - 1) + (if MatchAt(text, pattern, hi - 1) then [hi - 1] else [])
  }

  /** MatchesBelow lists every match start below hi, once, ascending. */
  lemma {:induction false} MatchesBelowExact(text: string, pattern: string, hi: int)
    ensures forall i :: i in MatchesBelow(text, pattern, hi) <==> 0 <= i < hi && MatchAt(text, pattern, i)
    ensures forall k, l :: 0 <= k < l < |MatchesBelow(text, pattern, hi)| ==>
              MatchesBelow(text, pattern, hi)[k] < MatchesBelow(text, pattern, hi)[l]
    decreases if hi < 0 then 0 else hi
  {
    if hi > 0 {
      MatchesBelowExact(text, pattern, hi - 1);
      var prev := MatchesBelow(text, pattern, hi - 1);
      forall k | 0 <= k < |prev| ensures prev[k] < hi - 1 {
        assert prev[k] in prev;
      }
    }
  }

  /** All match starts of pattern in text: exactly the indices i in 0..n-m
      where the pattern occurs, each once and in ascending order. */
  function Occurrences(text: string, pattern: string): (occ: seq<int>)
    ensures forall i :: i in occ <==> MatchAt(text, pattern, i)
    ensures forall k, l :: 0 <= k < l < |occ| ==> occ[k] < occ[l]
  {
    MatchesBelowExact(text, pattern, |text| - |pattern| + 1);
    MatchesBelow(text, pattern, |text| - |pattern| + 1)
  }

  lemma MatchesBelowNext(text: string, pattern: string, x: int)
    requires x >= 0
    ensures MatchesBelow(text, pattern, x + 1) ==
      MatchesBelow(text, pattern, x) + (if MatchAt(text, pattern, x) then [x] else [])
  {
  }

  /** Alignments past n - m cannot match, so they add nothing. */
  lemma {:induction false} NoMatchesPastEnd(text: string, pattern: string, hi: int)
    requires hi >= |text| - |pattern| + 1
    ensures MatchesBelow(text, pattern, hi) == MatchesBelow(text, pattern, |text| - |pattern| + 1)
    decreases hi - (|text| - |pattern| + 1)
  {
    if hi > |text| - |pattern| + 1 {
      NoMatchesPastEnd(text, pattern, hi - 1);
      if hi - 1 >= 0 {
        MatchesBelowNext(text, pattern, hi - 1);
      }
    }
  }

  /** Lines 10-17: every alignment i in range(n - m + 1) is compared. */
  method NaiveSearch(text: string, pattern: string) returns (occurrences: seq<int>)
    ensures occurrences == Occurrences(text, pattern)
  {
    occurrences := [];
    var n, m := |text|, |pattern|;
    var i := 0;
    while i < n - m + 1
      invariant 0 <= i <= if n - m + 1 < 0 then 0 else n - m + 1
      invariant occurrences == MatchesBelow(text, pattern, i)
    {
      MatchesBelowNext(text, pattern, i);
      if text[i..i + m] == pattern {
        occurrences := occurrences + [i];
      }
      i := i + 1;
    }
  }

  /** Last index of ch in s, if any. */
  function LastIndex(s: string, ch: char): (r: int)
    ensures -1 <= r < |s|
    ensures r >= 0 ==> s[r] == ch
    ensures forall k :: r < k < |s| ==> s[k] != ch
  {
    if s == [] then -1
    else if s[|s| - 1] == ch then |s| - 1
    else LastIndex(s[..|s| - 1], ch)
  }

  /** One more character seen: it is the last occurrence of itself. */
  lemma LastIndexNext(s: string, i: int)
    requires 0 <= i < |s|
    ensures forall ch :: LastIndex(s[..i + 1], ch) == if s[i] == ch then i else LastIndex(s[..i], ch)
  {
    var t := s[..i + 1];
    assert t[..|t| - 1] == s[..i] && t[|t| - 1] == s[i];
    forall ch ensures LastIndex(t, ch) == if s[i] == ch then i else LastIndex(s[..i], ch) {
      assert t != [];
    }
  }

  /** The shift for text character ch: m - 1 - (last index of ch among the
      first m - 1 pattern characters), and m when ch is not among them. */
  function Shift(pattern: string, ch: char): (s: int)
    requires |pattern| >= 1
    ensures 1 <= s <= |pattern|
  {
    |pattern| - 1 - LastIndex(pattern[..|pattern| - 1], ch)
  }

  /** The skip table of lines 27-29 holds the shift of every character of the
      text and of the first m - 1 pattern characters. */
  predicate SkipTable(skip: map<char, int>, text: string, pattern: string)
    requires |pattern| >= 1
  {
    (forall k :: 0 <= k < |text| ==> text[k] in skip) &&
    (forall ch :: ch in skip ==> skip[ch] == Shift(pattern, ch))
  }

  /** `skip.get(ch, default)` */
  function Get(skip: map<char, int>, ch: char, default: int): int
  {
    if ch in skip then skip[ch] else default
  }

  /** Every lookup of a text character in the skip table yields its shift. */
  lemma SkipLookup(skip: map<char, int>, text: string, pattern: string, i: int)
    requires |pattern| >= 1 && SkipTable(skip, text, pattern) && 0 <= i < |text|
    ensures Get(skip, text[i], |pattern|) == Shift(pattern, text[i])
  {
  }

  /** Lines 27-29: every text character starts at m; then, left to right,
      each of the first m - 1 pattern characters gets m - i - 1. */
  method BuildSkip(text: string, pattern: string) returns (skip: map<char, int>)
    requires |pattern| >= 1
    ensures SkipTable(skip, text, pattern)
  {
    var m := |pattern|;
    skip := map ch | ch in text :: m;
    assert forall ch :: ch in skip ==> LastIndex(pattern[..0], ch) == -1;
    for i := 0 to m - 1
      invariant forall k :: 0 <= k < |text| ==> text[k] in skip
      invariant forall ch :: ch in skip ==> skip[ch] == m - 1 - LastIndex(pattern[..i], ch)
    {
      LastIndexNext(pattern, i);
      skip := skip[pattern[i] := m - i - 1];
    }
  }

  /** Between alignment end i and i + Shift, no alignment can match: the
      pattern character that would sit over text[i] differs from it. */
  lemma SkipIsSafe(text: string, pattern: string, i: int, j: int)
    requires |pattern| >= 1 && |pattern| - 1 <= i < |text|
    requires i - |pattern| + 1 < j < i - |pattern| + 1 + Shift(pattern, text[i])
    ensures !MatchAt(text, pattern, j)
  {
    var m := |pattern|;
    if 0 <= j && j + m <= |text| {
      var d := j - (i - m + 1);
      // the pattern character over text[i] is pattern[m - 1 - d]
      assert text[j..j + m][m - 1 - d] == text[i];
      assert pattern[..m - 1][m - 1 - d] == pattern[m - 1 - d];
    }
  }

  /** The skipped alignments add nothing to the match list. */
  lemma {:induction false} SkippedAlignments(text: string, pattern: string, i: int, lo: int, hi: int)
    requires |pattern| >= 1 && |pattern| - 1 <= i < |text|
    requires lo == i - |pattern| + 2
    requires lo <= hi <= lo - 1 + Shift(pattern, text[i])
    ensures MatchesBelow(text, pattern, hi) == MatchesBelow(text, pattern, lo)
    decreases hi
  {
    if hi > lo {
      SkippedAlignments(text, pattern, i, lo, hi - 1);
      SkipIsSafe(text, pattern, i, hi - 1);
      MatchesBelowNext(text, pattern, hi - 1);
    }
  }

  /** One pass of the outer loop: the matches below the next alignment are
      those below this one plus this alignment if it matches. */
  lemma ShiftStep(text: string, pattern: string, i: int, start: int, next: int)
    requires |pattern| >= 1 && |pattern| - 1 <= i < |text|
    requires start == i - |pattern| + 1 && next == start + Shift(pattern, text[i])
    ensures MatchesBelow(text, pattern, next) ==
      MatchesBelow(text, pattern, start) + (if MatchAt(text, pattern, start) then [start] else [])
  {
    SkippedAlignments(text, pattern, i, start + 1, next);
    MatchesBelowNext(text, pattern, start);
  }

  /** One pass of the outer loop on the match list: the alignment is recorded
      when it matches, and the skipped alignments add nothing. */
  lemma RecordStep(text: string, pattern: string, i: int, start: int, k: int, s: int, occ: seq<int>)
    requires |pattern| >= 1 && |pattern| - 1 <= i < |text| && start == i - |pattern| + 1
    requires occ == MatchesBelow(text, pattern, start)
    requires k == |pattern| <==> MatchAt(text, pattern, start)
    requires s == Shift(pattern, text[i])
    ensures (if k == |pattern| then occ + [start] else occ) == MatchesBelow(text, pattern, start + s)
  {
    ShiftStep(text, pattern, i, start, start + s);
  }

  /** One alignment of lines 34-38: the count k of characters matched from
      the pattern's end reaches m exactly when the pattern occurs at i - m + 1. */
  method MatchFromEnd(text: string, pattern: string, i: int) returns (k: int)
    requires |pattern| - 1 <= i < |text|
    ensures 0 <= k <= |pattern|
    ensures k == |pattern| <==> MatchAt(text, pattern, i - |pattern| + 1)
  {
    var m := |pattern|;
    k := 0;
    while k < m && pattern[m - 1 - k] == text[i - k]
      invariant 0 <= k <= m
      invariant pattern[m - k..] == text[i - k + 1..i + 1]
    {
      assert pattern[m - (k + 1)..] == [pattern[m - 1 - k]] + pattern[m - k..];
      assert text[i - k..i + 1] == [text[i - k]] + text[i - k + 1..i + 1];
      k := k + 1;
    }
    if k < m {
      var start := i - m + 1;
      assert text[start..start + m][m - 1 - k] == text[i - k];
    }
  }

  /** Lines 31-41: the alignment loop over a ready skip table. */
  method ScanAlignments(text: string, pattern: string, skip: map<char, int>) returns (occurrences: seq<int>)
    requires 1 <= |pattern| <= |text| && SkipTable(skip, text, pattern)
    ensures occurrences == MatchesBelow(text, pattern, |text| - |pattern| + 1)
  {
    occurrences := [];
    var n, m := |text|, |pattern|;
    var i := m - 1;
    ghost var start := 0;
    while i < n
      invariant m - 1 <= i < n + m && start == i - m + 1
      invariant occurrences == MatchesBelow(text, pattern, start)
      decreases n - i
    {
      var k := MatchFromEnd(text, pattern, i);
      var s := Get(skip, text[i], m);
      SkipLookup(skip, text, pattern, i);
      RecordStep(text, pattern, i, start, k, s, occurrences);
      if k == m {
        occurrences := occurrences + [i - m + 1];
      }
      i, start := i + s, start + s;
    }
    NoMatchesPastEnd(text, pattern, start);
  }

  /** Lines 19-41: Boyer-Moore-Horspool. Matches are recorded at i - m + 1 and
      i advances by the skip of text[i], falling back to m. */
  method BmhSearch(text: string, pattern: string) returns (occurrences: seq<int>)
    requires |pattern| >= 1
    ensures occurrences == Occurrences(text, pattern)
  {
    if |pattern| > |text| {
      return [];
    }
    var skip := BuildSkip(text, pattern);
    occurrences := ScanAlignments(text, pattern, skip);
  }

  /** "CAT" repeated k times. */
  function CatRun(k: nat): (r: string)
    ensures |r| == 3 * k
  {
    if k == 0 then "" else CatRun(k - 1) + "CAT"
  }

  ghost predicate Occurs(text: string, pattern: string)
  {
    exists i :: MatchAt(text, pattern, i)
  }

  /** A longer run contains the shorter one as a prefix: wherever "CAT"*(k+1)
      occurs, "CAT"*k occurs too. */
  lemma CatRunPrefix(text: string, k: nat)
    requires k >= 1
    ensures forall i :: MatchAt(text, CatRun(k), i) ==> MatchAt(text, CatRun(k - 1), i)
  {
    forall i | MatchAt(text, CatRun(k), i)
      ensures MatchAt(text, CatRun(k - 1), i)
    {
      assert CatRun(k)[..3 * (k - 1)] == CatRun(k - 1);
      assert text[i..i + 3 * (k - 1)] == text[i..i + 3 * k][..3 * (k - 1)];
    }
  }

  /** Once "CAT"*(k+1) is absent, every longer run is absent too. */
  lemma {:induction false} CatRunAbsentAbove(text: string, k: nat, j: nat)
    requires !Occurs(text, CatRun(k + 1))
    requires j > k
    ensures !Occurs(text, CatRun(j))
    decreases j
  {
    if j > k + 1 {
      CatRunAbsentAbove(text, k, j - 1);
      CatRunPrefix(text, j);
    }
  }

  lemma NonEmptyOccurrences(text: string, pattern: string)
    ensures Occurrences(text, pattern) != [] <==> Occurs(text, pattern)
  {
    var occ := Occurrences(text, pattern);
    if occ != [] {
      assert occ[0] in occ;
      assert MatchAt(text, pattern, occ[0]);
    }
    if Occurs(text, pattern) {
      var i :| MatchAt(text, pattern, i);
      assert i in occ;
    }
  }

  /** Lines 43-55: try "CAT"*i for i = 1, 2, ... up to len/3 and stop at the
      first one that does not occur. The result is the longest run of "CAT"s
      that occurs (or "" when "CAT" does not occur) with its match list. */
  method FindLongestCatSequence(genome: string) returns (longest: string, positions: seq<int>, ghost k: nat)
    ensures longest == CatRun(k) && 3 * k <= |genome|
    ensures k > 0 ==> Occurs(genome, longest)
    ensures forall j :: j > k ==> !Occurs(genome, CatRun(j))
    ensures positions == if k == 0 then [] else Occurrences(genome, longest)
  {
    longest, positions, k := "", [], 0;
    var i := 1;
    while i <= |genome| / 3
      invariant 1 <= i && k == i - 1 && 3 * k <= |genome|
      invariant longest == CatRun(k)
      invariant k > 0 ==> Occurs(genome, longest)
      invariant positions == if k == 0 then [] else Occurrences(genome, longest)
    {
      var pattern := CatRun(i);
      var occurrences := BmhSearch(genome, pattern);
      NonEmptyOccurrences(genome, pattern);
      if occurrences != [] {
        longest, positions, k := pattern, occurrences, i;
      } else {
        break;
      }
      i := i + 1;
    }
    if i <= |genome| / 3 {
      // the loop stopped at the first run that does not occur
    } else {
      assert |CatRun(k + 1)| > |genome|;
    }
    assert !Occurs(genome, CatRun(k + 1));
    forall j | j > k ensures !Occurs(genome, CatRun(j)) {
      CatRunAbsentAbove(genome, k, j);
    }
  }
}
