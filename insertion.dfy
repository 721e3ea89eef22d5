/** The insertion sorts of Lab3/insert.py. Both classes sort their `lines`
    list in place; the tracked variant also appends a copy of the list after
    every outer iteration to `steps`. The passes are specified once, by
    functions on the list, and both classes are proved against them. */
module Insertion {
  import opened SortSpec
  import Sorters

  /** The first i places are in non-decreasing order. */
  predicate SortedPrefix(s: seq<int>, i: int)
    requires 0 <= i <= |s|
  {
    forall a, b :: 0 <= a < b < i ==> s[a] <= s[b]
  }

  /** Where the inner `while` stops, scanning left from j: the first index
      (from the right) whose element is not greater than key, or -1. */
  function ScanDown(s: seq<int>, key: int, j: int): (r: int)
    requires -1 <= j < |s|
    ensures -1 <= r <= j
    ensures forall t :: r < t <= j ==> s[t] > key
    ensures r >= 0 ==> s[r] <= key
    decreases j + 1
  {
    if j >= 0 && s[j] > key then ScanDown(s, key, j - 1) else j
  }

  /** Outer iteration i: the key s[i] is moved to just after the last
      element of s[..i] that is not greater than it; the elements it passes
      move one place right. */
  function InsertStep(s: seq<int>, i: int): (r: seq<int>)
    requires 0 < i < |s|
    ensures |r| == |s|
  {
    var p := ScanDown(s, s[i], i - 1) + 1;
    s[..p] + [s[i]] + s[p..i] + s[i + 1..]
  }

  /** The list after the outer iterations 1 .. i-1 (reference definition). */
  function After(s: seq<int>, i: int): (r: seq<int>)
    requires 1 <= i <= |s|
    ensures |r| == |s|
  {
    if i == 1 then s else InsertStep(After(s, i - 1), i - 1)
  }

  /** The snapshots appended by the iterations 1 .. n-1: a copy of the list
      after each of them. */
  function Snapshots(s: seq<int>, n: int): seq<seq<int>>
    requires 1 <= n <= |s|
  {
    if n == 1 then [] else Snapshots(s, n - 1) + [After(s, n)]
  }

  /** All the snapshots `sort` appends to `steps`. */
  function AllSnapshots(s: seq<int>): seq<seq<int>>
  {
    if |s| == 0 then [] else Snapshots(s, |s|)
  }

  /** The list at the end of `sort`: lists of fewer than two lines are left
      alone. */
  function Final(s: seq<int>): seq<int>
  {
    if |s| == 0 then s else After(s, |s|)
  }

  /** Where InsertStep puts each element. */
  lemma InsertStepPlaces(s: seq<int>, i: int, p: int)
    requires 0 < i < |s| && p == ScanDown(s, s[i], i - 1) + 1
    ensures forall a :: 0 <= a < p ==> InsertStep(s, i)[a] == s[a]
    ensures InsertStep(s, i)[p] == s[i]
    ensures forall a :: p < a <= i ==> InsertStep(s, i)[a] == s[a - 1]
    ensures forall a :: i < a < |s| ==> InsertStep(s, i)[a] == s[a]
  {
    var r := InsertStep(s, i);
    var a0, b0, c0 := s[..p], s[p..i], s[i + 1..];
    assert r == a0 + [s[i]] + b0 + c0;
    forall a | 0 <= a < p ensures r[a] == s[a] {
      assert r[a] == a0[a];
    }
    forall a | p < a <= i ensures r[a] == s[a - 1] {
      assert r[a] == b0[a - p - 1];
    }
    forall a | i < a < |s| ensures r[a] == s[a] {
      assert r[a] == c0[a - i - 1];
    }
  }

  /** The list split around the key. */
  lemma Split(s: seq<int>, i: int, p: int)
    requires 0 <= p <= i < |s|
    ensures s == s[..p] + s[p..i] + [s[i]] + s[i + 1..]
  {
    assert s[..i] == s[..p] + s[p..i];
    assert s == s[..i] + [s[i]] + s[i + 1..];
  }

  /** One outer iteration permutes the list. */
  lemma InsertStepPermutes(s: seq<int>, i: int)
    requires 0 < i < |s|
    ensures multiset(InsertStep(s, i)) == multiset(s)
  {
    var p := ScanDown(s, s[i], i - 1) + 1;
    var a0, b0, k, c0 := s[..p], s[p..i], [s[i]], s[i + 1..];
    Split(s, i, p);
    assert multiset(a0 + b0 + k + c0) == multiset(a0) + multiset(b0) + multiset(k) + multiset(c0);
    assert multiset(a0 + k + b0 + c0) == multiset(a0) + multiset(k) + multiset(b0) + multiset(c0);
  }

  /** One outer iteration extends the sorted prefix by one, permutes the
      list and leaves the places after i alone. */
  lemma InsertStepKeeps(s: seq<int>, i: int)
    requires 0 < i < |s| && SortedPrefix(s, i)
    ensures SortedPrefix(InsertStep(s, i), i + 1)
    ensures multiset(InsertStep(s, i)) == multiset(s)
    ensures forall a :: i < a < |s| ==> InsertStep(s, i)[a] == s[a]
  {
    var p := ScanDown(s, s[i], i - 1) + 1;
    var r := InsertStep(s, i);
    InsertStepPlaces(s, i, p);
    forall a, b | 0 <= a < b < i + 1 ensures r[a] <= r[b] {
      if b < p {
      } else if a < p && b == p {
        assert s[a] <= s[p - 1];
      } else if a < p && b > p {
        assert s[a] <= s[b - 1];
      } else if a == p {
        assert s[b - 1] > s[i];
      } else {
        assert s[a - 1] <= s[b - 1];
      }
    }
    InsertStepPermutes(s, i);
  }

  /** After i iterations the first i places are sorted and the list is a
      permutation of the input. */
  lemma {:induction false} AfterFacts(s: seq<int>, i: int)
    requires 1 <= i <= |s|
    ensures SortedPrefix(After(s, i), i)
    ensures multiset(After(s, i)) == multiset(s)
  {
    if i > 1 {
      AfterFacts(s, i - 1);
      InsertStepKeeps(After(s, i - 1), i - 1);
    }
  }

  /** `sort` leaves a sorted permutation of its input; since a sorted
      permutation is unique, it is exactly what the merge sorter returns. */
  lemma FinalSorted(s: seq<int>)
    ensures Sorted(Final(s))
    ensures multiset(Final(s)) == multiset(s)
    ensures Final(s) == Sorters.MergeSort(s)
  {
    if |s| > 0 {
      AfterFacts(s, |s|);
    }
    Sorters.MergeSortCorrect(s);
    SortedPermutationUnique(Final(s), Sorters.MergeSort(s));
  }

  /** The tracked sort records one snapshot per outer iteration, that is
      max(n - 1, 0) of them; snapshot k is the list after iteration k + 1,
      and the last one is the sorted list. */
  lemma {:induction false} SnapshotsFacts(s: seq<int>, n: int)
    requires 1 <= n <= |s|
    ensures |Snapshots(s, n)| == n - 1
    ensures forall k :: 0 <= k < n - 1 ==> Snapshots(s, n)[k] == After(s, k + 2)
  {
    if n > 1 {
      SnapshotsFacts(s, n - 1);
    }
  }

  lemma AllSnapshotsFacts(s: seq<int>)
    ensures |AllSnapshots(s)| == if |s| == 0 then 0 else |s| - 1
    ensures forall k :: 0 <= k < |s| - 1 ==> AllSnapshots(s)[k] == After(s, k + 2)
    ensures |s| > 1 ==> AllSnapshots(s)[|s| - 2] == Final(s)
  {
    if |s| > 0 {
      SnapshotsFacts(s, |s|);
    }
  }

  /** The state of the plain sort before outer iteration i: the list is
      After(s, i), or the untouched empty list. */
  predicate Progress(s: seq<int>, i: int, lines: seq<int>)
  {
    |lines| == |s| && 1 <= i &&
    if |s| == 0 then lines == s else i <= |s| && lines == After(s, i)
  }

  /** One outer iteration keeps the state. */
  lemma ProgressStep(s: seq<int>, i: int, lines: seq<int>)
    requires Progress(s, i, lines) && i < |lines|
    ensures Progress(s, i + 1, InsertStep(lines, i))
  {
  }

  /** When the outer loop ends the list is the final one. */
  lemma ProgressDone(s: seq<int>, i: int, lines: seq<int>)
    requires Progress(s, i, lines) && i >= |lines|
    ensures lines == Final(s)
  {
  }

  /** The state of the tracked sort before outer iteration i: the list is
      After(s, i) and `steps` holds the snapshots of the iterations so far
      after the `prior` ones. */
  predicate TrackedProgress(s: seq<int>, prior: seq<seq<int>>, i: int, lines: seq<int>, steps: seq<seq<int>>)
  {
    |lines| == |s| && 1 <= i &&
    if |s| == 0 then lines == s && steps == prior
    else i <= |s| && lines == After(s, i) && steps == prior + Snapshots(s, i)
  }

  /** One outer iteration with its snapshot keeps the tracked state. */
  lemma TrackedStep(s: seq<int>, prior: seq<seq<int>>, i: int, lines: seq<int>, steps: seq<seq<int>>)
    requires TrackedProgress(s, prior, i, lines, steps) && i < |lines|
    ensures TrackedProgress(s, prior, i + 1, InsertStep(lines, i), steps + [InsertStep(lines, i)])
  {
  }

  /** When the outer loop ends the list is sorted and every snapshot is
      recorded. */
  lemma TrackedDone(s: seq<int>, prior: seq<seq<int>>, i: int, lines: seq<int>, steps: seq<seq<int>>)
    requires TrackedProgress(s, prior, i, lines, steps) && i >= |lines|
    ensures lines == Final(s) && steps == prior + AllSnapshots(s)
  {
  }

  /** The list inside the inner loop of iteration i once the scan has
      reached j: the elements s[j+1 .. i-1] have each been copied one place
      right, so s[j + 1] is held twice and the key is not held at all. */
  ghost function Shifting(s: seq<int>, i: int, j: int): seq<int>
    requires 0 < i < |s| && -1 <= j <= i - 1
  {
    s[..j + 2] + s[j + 1..i] + s[i + 1..]
  }

  lemma ShiftingAt(s: seq<int>, i: int, j: int)
    requires 0 < i < |s| && -1 <= j <= i - 1
    ensures |Shifting(s, i, j)| == |s|
    ensures forall t :: 0 <= t <= j + 1 ==> Shifting(s, i, j)[t] == s[t]
    ensures forall t :: j + 2 <= t <= i ==> Shifting(s, i, j)[t] == s[t - 1]
    ensures forall t :: i < t < |s| ==> Shifting(s, i, j)[t] == s[t]
  {
    var a, b, c := s[..j + 2], s[j + 1..i], s[i + 1..];
    var r := Shifting(s, i, j);
    assert r == a + b + c;
    forall t | j + 2 <= t <= i ensures r[t] == s[t - 1] {
      assert r[t] == b[t - j - 2];
    }
    forall t | i < t < |s| ensures r[t] == s[t] {
      assert r[t] == c[t - i - 1];
    }
  }

  /** Before the loop nothing has moved. */
  lemma ShiftingStart(s: seq<int>, i: int)
    requires 0 < i < |s|
    ensures Shifting(s, i, i - 1) == s
  {
    ShiftingAt(s, i, i - 1);
  }

  /** One inner pass copies s[j] one place right. */
  lemma ShiftingStep(s: seq<int>, i: int, j: int)
    requires 0 < i < |s| && 0 <= j <= i - 1
    ensures |Shifting(s, i, j)| == |s| && Shifting(s, i, j)[j] == s[j]
    ensures Shifting(s, i, j)[j + 1 := s[j]] == Shifting(s, i, j - 1)
  {
    ShiftingAt(s, i, j);
    ShiftingAt(s, i, j - 1);
    var a, b := Shifting(s, i, j)[j + 1 := s[j]], Shifting(s, i, j - 1);
    assert forall t :: 0 <= t < |s| ==> a[t] == b[t];
  }

  /** Writing the key into the gap where the scan stopped completes the
      outer iteration. */
  lemma ShiftingDone(s: seq<int>, i: int, j: int)
    requires 0 < i < |s| && j == ScanDown(s, s[i], i - 1)
    ensures |Shifting(s, i, j)| == |s|
    ensures Shifting(s, i, j)[j + 1 := s[i]] == InsertStep(s, i)
  {
    ShiftingAt(s, i, j);
    InsertStepPlaces(s, i, j + 1);
    var a, b := Shifting(s, i, j)[j + 1 := s[i]], InsertStep(s, i);
    forall t | 0 <= t < |s| ensures a[t] == b[t] {
      if t <= j {
        assert a[t] == s[t] == b[t];
      } else if t == j + 1 {
        assert a[t] == s[i] == b[t];
      } else if t <= i {
        assert a[t] == s[t - 1] == b[t];
      } else {
        assert a[t] == s[t] == b[t];
      }
    }
    assert |a| == |b|;
  }

  /** Lines 12-17: one outer iteration on the list, shifting with
      element assignments and writing the key into the gap. */
  method InsertPass(lines0: seq<int>, i: int) returns (lines: seq<int>)
    requires 0 < i < |lines0|
    ensures lines == InsertStep(lines0, i)
  {
    lines := lines0;
    var key := lines[i];
    var j := i - 1;
    ShiftingStart(lines0, i);
    while j >= 0 && lines[j] > key
      invariant -1 <= j <= i - 1
      invariant ScanDown(lines0, key, j) == ScanDown(lines0, key, i - 1)
      invariant lines == Shifting(lines0, i, j)
      decreases j
    {
      ShiftingStep(lines0, i, j);
      lines := lines[j + 1 := lines[j]];
      j := j - 1;
    }
    ShiftingDone(lines0, i, j);
    lines := lines[j + 1 := key];
  }

  class InsertionSort {
    var lines: seq<int>

    constructor (initial: seq<int>)
      ensures lines == initial
    {
      lines := initial;
    }

    /** Lines 10-17. */
    method Sort()
      modifies this
      ensures lines == Final(old(lines))
    {
      ghost var orig := lines;
      var i := 1;
      while i < |lines|
        invariant Progress(orig, i, lines)
        decreases |lines| - i
      {
        ProgressStep(orig, i, lines);
        lines := InsertPass(lines, i);
        i := i + 1;
      }
      ProgressDone(orig, i, lines);
    }
  }

  class TrackedInsertionSort {
    var lines: seq<int>
    var steps: seq<seq<int>>

    constructor (initial: seq<int>)
      ensures lines == initial && steps == []
    {
      lines := initial;
      steps := [];
    }

    /** Lines 28-36: the same passes, each followed by a copy into `steps`. */
    method Sort()
      modifies this
      ensures lines == Final(old(lines))
      ensures steps == old(steps) + AllSnapshots(old(lines))
    {
      ghost var orig, prior := lines, steps;
      var i := 1;
      while i < |lines|
        invariant TrackedProgress(orig, prior, i, lines, steps)
        decreases |lines| - i
      {
        TrackedStep(orig, prior, i, lines, steps);
        lines := InsertPass(lines, i);
        steps := steps + [lines];
        i := i + 1;
      }
      TrackedDone(orig, prior, i, lines, steps);
    }
  }
}
