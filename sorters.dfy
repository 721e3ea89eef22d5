/** The sorters of Lab3/main.py: selection sort in place, merge sort over
    slices, both recording snapshots in `intermediate_states`, and the loop of
    FileSorter.sort_file that merges sorted chunks into one sorted output. */
module Sorters {
  import opened SortSpec

  // ---------------------------------------------------------------------
  // Selection sort

  /** Index of the leftmost minimum of s[i..j], as the inner loop finds it
      (it moves only on a strictly smaller element). */
  function MinIndex(s: seq<int>, i: int, j: int): (k: int)
    requires 0 <= i < j <= |s|
    ensures i <= k < j
    decreases j
  {
    if j == i + 1 then i
    else
      var m := MinIndex(s, i, j - 1);
      if s[j - 1] < s[m] then j - 1 else m
  }

  /** MinIndex finds a minimum of s[i..j], and the leftmost one. */
  lemma {:induction false} MinIndexFacts(s: seq<int>, i: int, j: int)
    requires 0 <= i < j <= |s|
    ensures forall t :: i <= t < j ==> s[MinIndex(s, i, j)] <= s[t]
    ensures forall t :: i <= t < MinIndex(s, i, j) ==> s[t] > s[MinIndex(s, i, j)]
    decreases j
  {
    if j > i + 1 {
      MinIndexFacts(s, i, j - 1);
    }
  }

  /** The tuple assignment `c[i], c[k] = c[k], c[i]`. */
  function Swap(s: seq<int>, i: int, k: int): (r: seq<int>)
    requires 0 <= i < |s| && 0 <= k < |s|
    ensures |r| == |s|
  {
    seq(|s|, t requires 0 <= t < |s| => if t == i then s[k] else if t == k then s[i] else s[t])
  }

  /** Outer iteration i: swap the leftmost minimum of s[i..] into place i. */
  function SelectStep(s: seq<int>, i: int): seq<int>
    requires 0 <= i < |s|
  {
    Swap(s, i, MinIndex(s, i, |s|))
  }

  /** The first i places hold the i smallest elements, in order. */
  predicate Partitioned(s: seq<int>, i: int)
    requires 0 <= i <= |s|
  {
    (forall a, b :: 0 <= a < b < i ==> s[a] <= s[b]) &&
    (forall a, b :: 0 <= a < i <= b < |s| ==> s[a] <= s[b])
  }

  /** With every place partitioned the list is sorted. */
  lemma PartitionedAll(s: seq<int>)
    requires Partitioned(s, |s|)
    ensures Sorted(s)
  {
  }

  /** The comprehension above is the tuple assignment's two updates. */
  lemma SwapIsUpdates(s: seq<int>, i: int, k: int)
    requires 0 <= i < |s| && 0 <= k < |s|
    ensures Swap(s, i, k) == s[i := s[k]][k := s[i]]
  {
  }

  lemma UpdatesPermute(s: seq<int>, i: int, k: int)
    requires 0 <= i <= k < |s|
    ensures multiset(s[i := s[k]][k := s[i]]) == multiset(s)
  {
    var t1 := s[i := s[k]];
    assert multiset(t1) == multiset(s) - multiset{s[i]} + multiset{s[k]};
    if k != i {
      assert t1[k] == s[k];
      assert multiset(t1[k := s[i]]) == multiset(t1) - multiset{s[k]} + multiset{s[i]};
    }
  }

  /** A swap permutes the list. */
  lemma SwapPermutes(s: seq<int>, i: int, k: int)
    requires 0 <= i <= k < |s|
    ensures multiset(Swap(s, i, k)) == multiset(s)
  {
    SwapIsUpdates(s, i, k);
    UpdatesPermute(s, i, k);
  }

  /** One outer iteration extends the sorted, smallest prefix by one. */
  lemma SelectStepKeeps(s: seq<int>, i: int)
    requires 0 <= i < |s| && Partitioned(s, i)
    ensures |SelectStep(s, i)| == |s|
    ensures Partitioned(SelectStep(s, i), i + 1)
  {
    var k := MinIndex(s, i, |s|);
    MinIndexFacts(s, i, |s|);
    var t := SelectStep(s, i);
    assert t[i] == s[k];
    forall a, b | 0 <= a < i + 1 <= b < |t| ensures t[a] <= t[b] {
      assert t[b] == s[b] || t[b] == s[i];
    }
    forall a, b | 0 <= a < b < i + 1 ensures t[a] <= t[b] {
    }
  }

  /** One outer iteration permutes the list. */
  lemma SelectStepPermutes(s: seq<int>, i: int)
    requires 0 <= i < |s|
    ensures multiset(SelectStep(s, i)) == multiset(s)
  {
    SwapPermutes(s, i, MinIndex(s, i, |s|));
  }

  /** The list after the first i outer iterations (reference definition). */
  function SelectAfter(s: seq<int>, i: int): (r: seq<int>)
    requires 0 <= i <= |s|
    ensures |r| == |s|
  {
    if i == 0 then s else SelectStep(SelectAfter(s, i - 1), i - 1)
  }

  /** After i iterations the first i places hold the i smallest elements in
      order, and the list is a permutation of the input. */
  lemma SelectAfterFacts(s: seq<int>, i: int)
    requires 0 <= i <= |s|
    ensures Partitioned(SelectAfter(s, i), i)
    ensures multiset(SelectAfter(s, i)) == multiset(s)
  {
    SelectAfterPartitioned(s, i);
    SelectAfterPermutes(s, i);
  }

  lemma {:induction false} SelectAfterPartitioned(s: seq<int>, i: int)
    requires 0 <= i <= |s|
    ensures Partitioned(SelectAfter(s, i), i)
  {
    if i > 0 {
      SelectAfterPartitioned(s, i - 1);
      SelectStepKeeps(SelectAfter(s, i - 1), i - 1);
    }
  }

  lemma {:induction false} SelectAfterPermutes(s: seq<int>, i: int)
    requires 0 <= i <= |s|
    ensures multiset(SelectAfter(s, i)) == multiset(s)
  {
    if i > 0 {
      var prev := SelectAfter(s, i - 1);
      SelectAfterPermutes(s, i - 1);
      SelectStepPermutes(prev, i - 1);
      SamePermutation(SelectAfter(s, i), SelectStep(prev, i - 1), prev, s);
    }
  }

  /** Equal lists, then two permutations, chain into one permutation. */
  lemma SamePermutation(a: seq<int>, b: seq<int>, c: seq<int>, d: seq<int>)
    requires a == b && multiset(b) == multiset(c) && multiset(c) == multiset(d)
    ensures multiset(a) == multiset(d)
  {
  }

  /** The snapshots appended by the first n outer iterations: a copy of
      the list after each of them. */
  function SelectionSnapshots(s: seq<int>, n: int): seq<seq<int>>
    requires 0 <= n <= |s|
  {
    if n == 0 then [] else SelectionSnapshots(s, n - 1) + [SelectAfter(s, n)]
  }

  /** One snapshot per outer iteration; snapshot k is the list after
      iteration k. */
  lemma {:induction false} SelectionSnapshotsShape(s: seq<int>, n: int)
    requires 0 <= n <= |s|
    ensures |SelectionSnapshots(s, n)| == n
    ensures forall k :: 0 <= k < n ==> SelectionSnapshots(s, n)[k] == SelectAfter(s, k + 1)
  {
    if n > 0 {
      SelectionSnapshotsShape(s, n - 1);
    }
  }

  /** Snapshot k has its first k + 1 places sorted and smallest and is a
      permutation of the input; the last one is sorted. */
  lemma SelectionSnapshotsFacts(s: seq<int>)
    ensures |SelectionSnapshots(s, |s|)| == |s|
    ensures forall k :: 0 <= k < |s| ==> |SelectionSnapshots(s, |s|)[k]| == |s|
    ensures forall k :: 0 <= k < |s| ==>
      Partitioned(SelectionSnapshots(s, |s|)[k], k + 1) &&
      multiset(SelectionSnapshots(s, |s|)[k]) == multiset(s)
    ensures |s| > 0 ==> Sorted(SelectionSnapshots(s, |s|)[|s| - 1])
  {
    var snaps := SelectionSnapshots(s, |s|);
    SelectionSnapshotsShape(s, |s|);
    forall k | 0 <= k < |s|
      ensures Partitioned(snaps[k], k + 1) && multiset(snaps[k]) == multiset(s)
    {
      assert snaps[k] == SelectAfter(s, k + 1);
      SelectAfterFacts(s, k + 1);
    }
    if |s| > 0 {
      PartitionedAll(snaps[|s| - 1]);
    }
  }

  /** Recording the list after iteration i extends the snapshots by exactly
      that iteration. */
  lemma SelectionSnapshotStep(s: seq<int>, i: int, prior: seq<seq<int>>, states: seq<seq<int>>, after: seq<int>)
    requires 0 <= i < |s|
    requires states == prior + SelectionSnapshots(s, i)
    requires after == SelectStep(SelectAfter(s, i), i)
    ensures after == SelectAfter(s, i + 1)
    ensures states + [after] == prior + SelectionSnapshots(s, i + 1)
  {
  }

  class SelectionSorter {
    var intermediateStates: seq<seq<int>>

    constructor ()
      ensures intermediateStates == []
    {
      intermediateStates := [];
    }

    /** Lines 18-21: the inner scan for the leftmost minimum of c[i..]. */
    method FindMin(c: array<int>, i: int) returns (minIdx: int)
      requires 0 <= i < c.Length
      ensures minIdx == MinIndex(c[..], i, c.Length)
    {
      minIdx := i;
      for j := i + 1 to c.Length
        invariant minIdx == MinIndex(c[..], i, j)
      {
        if c[j] < c[minIdx] {
          minIdx := j;
        }
      }
    }

    /** Lines 16-24: sorts collection in place, returns it, and appends one
        snapshot per outer iteration. */
    method Sort(collection: array<int>) returns (r: array<int>)
      modifies this, collection
      ensures r == collection
      ensures Sorted(collection[..])
      ensures multiset(collection[..]) == multiset(old(collection[..]))
      ensures intermediateStates == old(intermediateStates) + SelectionSnapshots(old(collection[..]), collection.Length)
    {
      var n := collection.Length;
      ghost var orig := collection[..];
      for i := 0 to n
        invariant collection[..] == SelectAfter(orig, i)
        invariant intermediateStates == old(intermediateStates) + SelectionSnapshots(orig, i)
      {
        ghost var before := collection[..];
        var minIdx := FindMin(collection, i);
        collection[i], collection[minIdx] := collection[minIdx], collection[i];
        var after := collection[..];
        assert after == SelectStep(before, i) by {
          assert after == before[i := before[minIdx]][minIdx := before[i]];
        }
        SelectionSnapshotStep(orig, i, old(intermediateStates), intermediateStates, after);
        intermediateStates := intermediateStates + [after];
      }
      SelectAfterFacts(orig, n);
      PartitionedAll(collection[..]);
      r := collection;
    }
  }

  // ---------------------------------------------------------------------
  // Merge sort

  /** The merge of lines 37-50: the smaller head goes first; on equal heads
      the right element goes first, because the test is the strict `<`. */
  function Merged(left: seq<int>, right: seq<int>): seq<int>
    decreases |left| + |right|
  {
    if left == [] then right
    else if right == [] then left
    else if left[0] < right[0] then [left[0]] + Merged(left[1..], right)
    else [right[0]] + Merged(left, right[1..])
  }

  /** The merge keeps every element of both inputs. */
  lemma {:induction false} MergedPermutation(left: seq<int>, right: seq<int>)
    ensures multiset(Merged(left, right)) == multiset(left) + multiset(right)
    decreases |left| + |right|
  {
    if left != [] && right != [] {
      if left[0] < right[0] {
        MergedPermutation(left[1..], right);
        assert left == [left[0]] + left[1..];
      } else {
        MergedPermutation(left, right[1..]);
        assert right == [right[0]] + right[1..];
      }
    }
  }

  /** The merge keeps the total length and starts with one of the heads. */
  lemma {:induction false} MergedHead(left: seq<int>, right: seq<int>)
    ensures |Merged(left, right)| == |left| + |right|
    ensures Merged(left, right) != [] ==>
      (left != [] && Merged(left, right)[0] == left[0]) || (right != [] && Merged(left, right)[0] == right[0])
    decreases |left| + |right|
  {
    if left != [] && right != [] {
      if left[0] < right[0] {
        MergedHead(left[1..], right);
      } else {
        MergedHead(left, right[1..]);
      }
    }
  }

  lemma SortedCons(x: int, rest: seq<int>)
    requires Sorted(rest) && (rest != [] ==> x <= rest[0])
    ensures Sorted([x] + rest)
  {
    var t := [x] + rest;
    forall a, b | 0 <= a < b < |t| ensures t[a] <= t[b] {
      if a == 0 && b > 1 {
        assert rest[0] <= rest[b - 1];
      }
    }
  }

  /** Merging two sorted lists gives a sorted list. */
  lemma {:induction false} MergedSorted(left: seq<int>, right: seq<int>)
    requires Sorted(left) && Sorted(right)
    ensures Sorted(Merged(left, right))
    decreases |left| + |right|
  {
    if left != [] && right != [] {
      if left[0] < right[0] {
        SortedTail(left);
        MergedSorted(left[1..], right);
        MergedHead(left[1..], right);
        if |left| > 1 {
          assert left[0] <= left[1];
        }
        SortedCons(left[0], Merged(left[1..], right));
      } else {
        SortedTail(right);
        MergedSorted(left, right[1..]);
        MergedHead(left, right[1..]);
        if |right| > 1 {
          assert right[0] <= right[1];
        }
        SortedCons(right[0], Merged(left, right[1..]));
      }
    }
  }

  /** Lines 27-35 as a reference definition: lists of length <= 1 come back
      unchanged, longer ones are split at len // 2. */
  function MergeSort(s: seq<int>): seq<int>
    decreases |s|
  {
    if |s| <= 1 then s
    else Merged(MergeSort(s[..|s| / 2]), MergeSort(s[|s| / 2..]))
  }

  /** The snapshots one call appends: those of the left half, those of the
      right half, then the merged list. */
  function MergeTrace(s: seq<int>): seq<seq<int>>
    decreases |s|
  {
    if |s| <= 1 then []
    else MergeTrace(s[..|s| / 2]) + MergeTrace(s[|s| / 2..]) + [MergeSort(s)]
  }

  /** One level of the recursion. */
  lemma MergeSortUnfold(s: seq<int>)
    requires |s| > 1
    ensures MergeSort(s) == Merged(MergeSort(s[..|s| / 2]), MergeSort(s[|s| / 2..]))
    ensures MergeTrace(s) == MergeTrace(s[..|s| / 2]) + MergeTrace(s[|s| / 2..]) + [MergeSort(s)]
  {
  }

  /** Merge sort returns a sorted permutation of its input. */
  lemma {:induction false} MergeSortCorrect(s: seq<int>)
    ensures Sorted(MergeSort(s))
    ensures multiset(MergeSort(s)) == multiset(s)
    decreases |s|
  {
    if |s| > 1 {
      var l, r := s[..|s| / 2], s[|s| / 2..];
      assert s == l + r;
      assert multiset(s) == multiset(l) + multiset(r);
      var ml, mr := MergeSort(l), MergeSort(r);
      assert MergeSort(s) == Merged(ml, mr);
      MergeSortCorrect(l);
      MergeSortCorrect(r);
      MergedSorted(ml, mr);
      MergedPermutation(ml, mr);
    }
  }

  /** One `_merge` call per internal split: a list of n >= 1 elements
      produces n - 1 snapshots, and the last one is the sorted result. */
  lemma {:induction false} MergeTraceLength(s: seq<int>)
    ensures |MergeTrace(s)| == if |s| == 0 then 0 else |s| - 1
    ensures |s| > 1 ==> MergeTrace(s)[|MergeTrace(s)| - 1] == MergeSort(s)
    decreases |s|
  {
    if |s| > 1 {
      MergeTraceLength(s[..|s| / 2]);
      MergeTraceLength(s[|s| / 2..]);
    }
  }

  /** One pass of the index-advancing loop moves the smaller head (the
      right one on a tie) from the rest of the merge to the output. */
  lemma MergedStep(left: seq<int>, right: seq<int>, i: int, j: int, out: seq<int>)
    requires 0 <= i < |left| && 0 <= j < |right|
    ensures left[i] < right[j] ==>
      out + Merged(left[i..], right[j..]) == (out + [left[i]]) + Merged(left[i + 1..], right[j..])
    ensures !(left[i] < right[j]) ==>
      out + Merged(left[i..], right[j..]) == (out + [right[j]]) + Merged(left[i..], right[j + 1..])
  {
    var l, r := left[i..], right[j..];
    assert l[1..] == left[i + 1..] && r[1..] == right[j + 1..];
    assert Merged(l, r) == if l[0] < r[0] then [l[0]] + Merged(l[1..], r) else [r[0]] + Merged(l, r[1..]);
  }

  /** Once one side is exhausted the merge is the other side. */
  lemma MergedTail(l: seq<int>, r: seq<int>)
    requires l == [] || r == []
    ensures Merged(l, r) == l + r
  {
  }

  class MergeSorter {
    var intermediateStates: seq<seq<int>>

    constructor ()
      ensures intermediateStates == []
    {
      intermediateStates := [];
    }

    /** Lines 27-35. */
    method Sort(collection: seq<int>) returns (r: seq<int>)
      modifies this
      ensures r == MergeSort(collection)
      ensures intermediateStates == old(intermediateStates) + MergeTrace(collection)
      decreases |collection|
    {
      if |collection| <= 1 {
        return collection;
      }
      var mid := |collection| / 2;
      ghost var before := intermediateStates;
      var left := Sort(collection[..mid]);
      var right := Sort(collection[mid..]);
      r := Merge(left, right);
      MergeSortUnfold(collection);
      ghost var a, b := MergeTrace(collection[..mid]), MergeTrace(collection[mid..]);
      assert intermediateStates == ((before + a) + b) + [r];
      assert ((before + a) + b) + [r] == before + (a + b + [r]);
    }

    /** Lines 37-50: the index-advancing merge, then the remaining tails;
        exactly one snapshot is appended. */
    method Merge(left: seq<int>, right: seq<int>) returns (result: seq<int>)
      modifies this
      ensures result == Merged(left, right)
      ensures intermediateStates == old(intermediateStates) + [result]
    {
      result := [];
      var i, j := 0, 0;
      while i < |left| && j < |right|
        invariant 0 <= i <= |left| && 0 <= j <= |right|
        invariant result + Merged(left[i..], right[j..]) == Merged(left, right)
        invariant intermediateStates == old(intermediateStates)
        decreases |left| - i + |right| - j
      {
        MergedStep(left, right, i, j, result);
        if left[i] < right[j] {
          result := result + [left[i]];
          i := i + 1;
        } else {
          result := result + [right[j]];
          j := j + 1;
        }
      }
      MergedTail(left[i..], right[j..]);
      ghost var done := result;
      result := result + left[i..];
      result := result + right[j..];
      assert result == done + (left[i..] + right[j..]);
      intermediateStates := intermediateStates + [result];
    }
  }

  // ---------------------------------------------------------------------
  // Merging the sorted chunks (FileSorter.sort_file, lines 69-76)

  /** All elements of all chunks, with multiplicity. */
  function Elements(chunks: seq<seq<int>>): multiset<int>
  {
    if chunks == [] then multiset{}
    else Elements(chunks[..|chunks| - 1]) + multiset(chunks[|chunks| - 1])
  }

  /** The total number of elements left in the chunks. */
  function TotalLength(chunks: seq<seq<int>>): nat
  {
    if chunks == [] then 0 else TotalLength(chunks[..|chunks| - 1]) + |chunks[|chunks| - 1]|
  }

  /** The chunks written one after another. */
  function Flatten(chunks: seq<seq<int>>): seq<int>
  {
    if chunks == [] then [] else Flatten(chunks[..|chunks| - 1]) + chunks[|chunks| - 1]
  }

  /** The concatenated chunks hold exactly the elements of the chunks. */
  lemma {:induction false} FlattenElements(chunks: seq<seq<int>>)
    ensures multiset(Flatten(chunks)) == Elements(chunks)
    decreases |chunks|
  {
    if chunks != [] {
      FlattenElements(chunks[..|chunks| - 1]);
    }
  }

  lemma {:induction false} ElementsConcat(a: seq<seq<int>>, b: seq<seq<int>>)
    ensures Elements(a + b) == Elements(a) + Elements(b)
    ensures TotalLength(a + b) == TotalLength(a) + TotalLength(b)
    decreases |b|
  {
    if b == [] {
      assert a + b == a;
    } else {
      var b' := b[..|b| - 1];
      assert (a + b)[..|a + b| - 1] == a + b';
      ElementsConcat(a, b');
    }
  }

  /** Popping the head of chunk k removes exactly that element. */
  lemma PopHead(chunks: seq<seq<int>>, k: int)
    requires 0 <= k < |chunks| && chunks[k] != []
    ensures Elements(chunks[k := chunks[k][1..]]) + multiset{chunks[k][0]} == Elements(chunks)
    ensures TotalLength(chunks[k := chunks[k][1..]]) + 1 == TotalLength(chunks)
  {
    var c := chunks[k];
    var a, b := chunks[..k], chunks[k + 1..];
    assert chunks == a + [c] + b;
    assert chunks[k := c[1..]] == a + [c[1..]] + b;
    ElementsConcat(a + [c], b);
    ElementsConcat(a, [c]);
    ElementsConcat(a + [c[1..]], b);
    ElementsConcat(a, [c[1..]]);
    assert [c][..0] == [] && [c[1..]][..0] == [];
    assert c == [c[0]] + c[1..];
  }

  /** Dropping an empty chunk changes nothing. */
  lemma DropEmpty(chunks: seq<seq<int>>, k: int)
    requires 0 <= k < |chunks| && chunks[k] == []
    ensures Elements(chunks[..k] + chunks[k + 1..]) == Elements(chunks)
    ensures TotalLength(chunks[..k] + chunks[k + 1..]) == TotalLength(chunks)
  {
    var a, b := chunks[..k], chunks[k + 1..];
    var e: seq<seq<int>> := [[]];
    assert chunks == a + e + b;
    ElementsConcat(a + e, b);
    ElementsConcat(a, e);
    ElementsConcat(a, b);
    assert e[..0] == [];
  }

  /** `[min(chunk) for chunk in chunks if chunk]` */
  function MinsOfNonEmpty(chunks: seq<seq<int>>): seq<int>
  {
    if chunks == [] then []
    else if chunks[0] == [] then MinsOfNonEmpty(chunks[1..])
    else [Min(chunks[0])] + MinsOfNonEmpty(chunks[1..])
  }

  /** When no chunk is empty the filter keeps every chunk. */
  lemma {:induction false} MinsOfFullChunks(chunks: seq<seq<int>>)
    requires forall k :: 0 <= k < |chunks| ==> chunks[k] != []
    ensures |MinsOfNonEmpty(chunks)| == |chunks|
    ensures forall k :: 0 <= k < |chunks| ==> MinsOfNonEmpty(chunks)[k] == Min(chunks[k])
  {
    if chunks != [] {
      MinsOfFullChunks(chunks[1..]);
    }
  }

  /** Every chunk is sorted and none is empty. */
  predicate ChunksReady(chunks: seq<seq<int>>)
  {
    forall k :: 0 <= k < |chunks| ==> chunks[k] != [] && Sorted(chunks[k])
  }

  /** The chunk list after popping the head of chunk idx and dropping that
      chunk if it is now empty. */
  function Popped(chunks: seq<seq<int>>, idx: int): seq<seq<int>>
    requires 0 <= idx < |chunks| && chunks[idx] != []
  {
    var c := chunks[idx := chunks[idx][1..]];
    if c[idx] == [] then c[..idx] + c[idx + 1..] else c
  }

  /** Popping a smallest head keeps the chunks ready, removes exactly that
      element, and leaves every head at least as large. */
  lemma PopSmallest(chunks: seq<seq<int>>, idx: int)
    requires ChunksReady(chunks) && 0 <= idx < |chunks|
    requires forall k :: 0 <= k < |chunks| ==> chunks[idx][0] <= chunks[k][0]
    ensures ChunksReady(Popped(chunks, idx))
    ensures Elements(Popped(chunks, idx)) + multiset{chunks[idx][0]} == Elements(chunks)
    ensures TotalLength(Popped(chunks, idx)) < TotalLength(chunks)
    ensures forall k :: 0 <= k < |Popped(chunks, idx)| ==> chunks[idx][0] <= Popped(chunks, idx)[k][0]
  {
    var c := chunks[idx := chunks[idx][1..]];
    PopHead(chunks, idx);
    if c[idx] == [] {
      DropEmpty(c, idx);
      DroppedHeads(chunks, idx);
    } else {
      PoppedHeads(chunks, idx);
    }
  }

  lemma DroppedHeads(chunks: seq<seq<int>>, idx: int)
    requires ChunksReady(chunks) && 0 <= idx < |chunks| && |chunks[idx]| == 1
    requires forall k :: 0 <= k < |chunks| ==> chunks[idx][0] <= chunks[k][0]
    ensures var c := chunks[idx := chunks[idx][1..]];
      var next := c[..idx] + c[idx + 1..];
      ChunksReady(next) && forall k :: 0 <= k < |next| ==> chunks[idx][0] <= next[k][0]
  {
    var c := chunks[idx := chunks[idx][1..]];
    var next := c[..idx] + c[idx + 1..];
    assert next == chunks[..idx] + chunks[idx + 1..];
    forall k | 0 <= k < |next| ensures next[k] == chunks[if k < idx then k else k + 1] {
    }
  }

  lemma PoppedHeads(chunks: seq<seq<int>>, idx: int)
    requires ChunksReady(chunks) && 0 <= idx < |chunks| && |chunks[idx]| > 1
    requires forall k :: 0 <= k < |chunks| ==> chunks[idx][0] <= chunks[k][0]
    ensures var c := chunks[idx := chunks[idx][1..]];
      ChunksReady(c) && forall k :: 0 <= k < |c| ==> chunks[idx][0] <= c[k][0]
  {
    var c := chunks[idx := chunks[idx][1..]];
    assert c[idx][0] == chunks[idx][1];
    assert Sorted(c[idx]) by {
      SortedTail(chunks[idx]);
    }
  }

  /** The loop invariant of the chunk merge: the chunks are ready, nothing
      is lost or duplicated, the output is sorted and no remaining head is
      below its last element. */
  predicate MergeInvariant(chunks0: seq<seq<int>>, chunks: seq<seq<int>>, out: seq<int>)
  {
    ChunksReady(chunks) &&
    multiset(out) + Elements(chunks) == Elements(chunks0) &&
    Sorted(out) &&
    (out != [] ==> forall k :: 0 <= k < |chunks| ==> out[|out| - 1] <= chunks[k][0])
  }

  /** The element one pass writes is the first head that is smallest. */
  lemma SmallestHead(chunks: seq<seq<int>>)
    requires ChunksReady(chunks) && chunks != []
    ensures |MinsOfNonEmpty(chunks)| == |chunks|
    ensures var mins := MinsOfNonEmpty(chunks);
      chunks[IndexOf(mins, Min(mins))][0] == Min(mins) &&
      forall k :: 0 <= k < |chunks| ==> Min(mins) <= chunks[k][0]
  {
    var mins := MinsOfNonEmpty(chunks);
    MinsOfFullChunks(chunks);
    forall k | 0 <= k < |chunks| ensures mins[k] == chunks[k][0] {
      SortedMin(chunks[k]);
    }
  }

  /** One pass of the loop keeps the invariant and shrinks the chunks. */
  lemma MergeStep(chunks0: seq<seq<int>>, chunks: seq<seq<int>>, out: seq<int>, idx: int)
    requires MergeInvariant(chunks0, chunks, out)
    requires 0 <= idx < |chunks|
    requires forall k :: 0 <= k < |chunks| ==> chunks[idx][0] <= chunks[k][0]
    ensures MergeInvariant(chunks0, Popped(chunks, idx), out + [chunks[idx][0]])
    ensures TotalLength(Popped(chunks, idx)) < TotalLength(chunks)
  {
    var smallest := chunks[idx][0];
    var next := Popped(chunks, idx);
    PopSmallest(chunks, idx);
    var out' := out + [smallest];
    assert multiset(out') == multiset(out) + multiset{smallest};
    var E0, E, E' := Elements(chunks0), Elements(chunks), Elements(next);
    assert E' + multiset{smallest} == E;
    assert multiset(out) + E == E0;
    assert multiset(out') + E' == E0;
    SortedAppend(out, smallest);
    assert out'[|out'| - 1] == smallest;
  }

  lemma SortedAppend(s: seq<int>, x: int)
    requires Sorted(s) && (s != [] ==> s[|s| - 1] <= x)
    ensures Sorted(s + [x])
  {
    var t := s + [x];
    forall a, b | 0 <= a < b < |t| ensures t[a] <= t[b] {
      if b == |s| && a < |s| {
        assert s[a] <= s[|s| - 1];
      }
    }
  }

  /** Lines 69-76 with the output file replaced by the list `out`: each pass
      writes the smallest chunk minimum, pops the head of the first chunk
      holding it, and drops that chunk once it is empty. For sorted chunks
      the output is every element exactly once, in non-decreasing order, so
      it is the merge sort of the concatenated chunks. */
  method MergeChunks(chunks0: seq<seq<int>>) returns (out: seq<int>)
    requires ChunksReady(chunks0)
    ensures multiset(out) == Elements(chunks0)
    ensures Sorted(out)
    ensures out == MergeSort(Flatten(chunks0))
  {
    var chunks := chunks0;
    out := [];
    while chunks != []
      invariant MergeInvariant(chunks0, chunks, out)
      decreases TotalLength(chunks)
    {
      var smallestChunks := MinsOfNonEmpty(chunks);
      var smallest := Min(smallestChunks);
      var chunkIndex := IndexOf(smallestChunks, smallest);
      SmallestHead(chunks);
      MergeStep(chunks0, chunks, out, chunkIndex);
      ghost var next := Popped(chunks, chunkIndex);
      out := out + [smallest];
      chunks := chunks[chunkIndex := chunks[chunkIndex][1..]];
      if chunks[chunkIndex] == [] {
        chunks := chunks[..chunkIndex] + chunks[chunkIndex + 1..];
      }
      assert chunks == next;
    }
    assert Elements(chunks) == multiset{};
    FlattenElements(chunks0);
    MergeSortCorrect(Flatten(chunks0));
    SortedPermutationUnique(out, MergeSort(Flatten(chunks0)));
  }
}
