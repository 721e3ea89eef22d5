/** The frequency table and the Huffman tree of Lab5/main.py (lines 5-35).
    The frequency dict is kept as its key order (Python dicts iterate in
    insertion order) together with the map of counts. The heap is a sequence
    from which the leftmost node of least frequency is taken; which of several
    equal-frequency nodes `heapq` would take is not modelled. */
module HuffmanTree {
  import opened Options

  /** Node (lines 5-13): a leaf holds a character, an internal node (whose
      char is None) holds its two children; both hold a frequency, the only
      thing `__lt__` compares. Children are set once, right after creation,
      so nodes are values here. */
  datatype Node = Leaf(ch: char, freq: nat) | Internal(freq: nat, left: Node, right: Node)

  /** The characters at the leaves, with multiplicity. */
  function Leaves(t: Node): multiset<char>
  {
    match t
    case Leaf(c, _) => multiset{c}
    case Internal(_, l, r) => Leaves(l) + Leaves(r)
  }

  /** Every internal node weighs the sum of its children. */
  predicate WellWeighted(t: Node)
  {
    match t
    case Leaf(_, _) => true
    case Internal(f, l, r) => f == l.freq + r.freq && WellWeighted(l) && WellWeighted(r)
  }

  /** No character occurs twice. */
  predicate Distinct(s: string)
  {
    forall i, j :: 0 <= i < j < |s| ==> s[i] != s[j]
  }

  // ---------------------------------------------------------------------
  // build_frequency_dict (lines 15-19)

  /** The distinct characters of s in order of first occurrence: the key
      order of the frequency dict. */
  function Dedup(s: string): (d: string)
    ensures forall c :: c in d <==> c in s
    ensures Distinct(d)
  {
    if s == [] then []
    else
      var d := Dedup(s[..|s| - 1]);
      var c := s[|s| - 1];
      assert s == s[..|s| - 1] + [c];
      if c in d then d else d + [c]
  }

  /** Each character of s mapped to its number of occurrences. */
  function Counts(s: string): (m: map<char, nat>)
    ensures forall c :: c in m <==> c in s
    ensures forall c :: c in m ==> m[c] == multiset(s)[c] && m[c] > 0
  {
    map c | c in s :: multiset(s)[c]
  }

  lemma CountsAppend(s: string, c: char)
    ensures Counts(s + [c]) == Counts(s)[c := if c in s then Counts(s)[c] + 1 else 1]
  {
    assert multiset(s + [c]) == multiset(s) + multiset{c};
    var m, m' := Counts(s + [c]), Counts(s)[c := if c in s then Counts(s)[c] + 1 else 1];
    forall x ensures x in m <==> x in m' {
    }
  }

  /** One more character of the text: its count goes up by one, or it is
      a new key at the end of the order with count one. */
  lemma FrequencyStep(text: string, i: int)
    requires 0 <= i < |text|
    ensures var c, s := text[i], text[..i];
      if c in Counts(s) then
        Dedup(text[..i + 1]) == Dedup(s) && Counts(text[..i + 1]) == Counts(s)[c := Counts(s)[c] + 1]
      else
        Dedup(text[..i + 1]) == Dedup(s) + [c] && Counts(text[..i + 1]) == Counts(s)[c := 1]
  {
    var c, s := text[i], text[..i];
    assert text[..i + 1] == s + [c];
    assert (s + [c])[..|s|] == s;
    CountsAppend(s, c);
  }

  /** Lines 15-19: one increment per character of the text. */
  method BuildFrequencyDict(text: string) returns (order: string, frequency: map<char, nat>)
    ensures order == Dedup(text)
    ensures frequency == Counts(text)
  {
    order, frequency := [], map[];
    for i := 0 to |text|
      invariant order == Dedup(text[..i])
      invariant frequency == Counts(text[..i])
    {
      var c := text[i];
      FrequencyStep(text, i);
      if c in frequency {
        frequency := frequency[c := frequency[c] + 1];
      } else {
        frequency := frequency[c := 1];
        order := order + [c];
      }
    }
    assert text[..|text|] == text;
  }

  /** The sum of the counts of the given keys. */
  function Sum(order: string, frequency: map<char, nat>): nat
    requires forall c :: c in order ==> c in frequency
  {
    if order == [] then 0
    else Sum(order[..|order| - 1], frequency) + frequency[order[|order| - 1]]
  }

  /** Changing the count of a key that is not listed changes no sum. */
  lemma {:induction false} SumOther(order: string, f: map<char, nat>, c: char, v: nat)
    requires forall x :: x in order ==> x in f
    requires c !in order
    ensures Sum(order, f[c := v]) == Sum(order, f)
  {
    if order != [] {
      SumOther(order[..|order| - 1], f, c, v);
    }
  }

  /** Incrementing a key listed once increments the sum. */
  lemma {:induction false} SumIncrement(order: string, f: map<char, nat>, c: char)
    requires forall x :: x in order ==> x in f
    requires Distinct(order) && c in order
    ensures Sum(order, f[c := f[c] + 1]) == Sum(order, f) + 1
  {
    var n := |order| - 1;
    var init := order[..n];
    assert order == init + [order[n]];
    if order[n] == c {
      forall k | 0 <= k < |init| ensures init[k] != c {
        assert init[k] == order[k];
      }
      SumOther(init, f, c, f[c] + 1);
    } else {
      assert c in init;
      SumIncrement(init, f, c);
    }
  }

  /** The counts sum to the length of the text. */
  lemma {:induction false} CountsSum(text: string)
    ensures Sum(Dedup(text), Counts(text)) == |text|
  {
    if text != [] {
      var s, c := text[..|text| - 1], text[|text| - 1];
      assert text == s + [c];
      CountsSum(s);
      CountsAppend(s, c);
      var d := Dedup(s);
      if c in s {
        SumIncrement(d, Counts(s), c);
      } else {
        SumOther(d, Counts(s), c, 1);
        assert (d + [c])[..|d|] == d;
      }
    }
  }

  // ---------------------------------------------------------------------
  // build_huffman_tree (lines 21-35)

  /** Line 22: one leaf per dict entry, in dict order. */
  function HeapOf(order: string, frequency: map<char, nat>): (h: seq<Node>)
    requires forall c :: c in order ==> c in frequency
    ensures |h| == |order|
    ensures forall k :: 0 <= k < |order| ==> h[k] == Leaf(order[k], frequency[order[k]])
  {
    if order == [] then []
    else HeapOf(order[..|order| - 1], frequency) + [Leaf(order[|order| - 1], frequency[order[|order| - 1]])]
  }

  /** The total frequency of a forest. */
  function ForestWeight(h: seq<Node>): nat
  {
    if h == [] then 0 else h[0].freq + ForestWeight(h[1..])
  }

  /** The leaf characters of a forest. */
  function ForestLeaves(h: seq<Node>): multiset<char>
  {
    if h == [] then multiset{} else Leaves(h[0]) + ForestLeaves(h[1..])
  }

  /** Every node of a forest is well weighted. */
  predicate ForestWellWeighted(h: seq<Node>)
  {
    forall k :: 0 <= k < |h| ==> WellWeighted(h[k])
  }

  lemma {:induction false} WeightConcat(a: seq<Node>, b: seq<Node>)
    ensures ForestWeight(a + b) == ForestWeight(a) + ForestWeight(b)
  {
    if a == [] {
      assert a + b == b;
    } else {
      assert (a + b)[1..] == a[1..] + b;
      WeightConcat(a[1..], b);
    }
  }

  lemma {:induction false} LeavesConcat(a: seq<Node>, b: seq<Node>)
    ensures ForestLeaves(a + b) == ForestLeaves(a) + ForestLeaves(b)
  {
    if a == [] {
      assert a + b == b;
    } else {
      assert (a + b)[1..] == a[1..] + b;
      LeavesConcat(a[1..], b);
    }
  }

  lemma ForestConcat(a: seq<Node>, b: seq<Node>)
    ensures ForestWeight(a + b) == ForestWeight(a) + ForestWeight(b)
    ensures ForestLeaves(a + b) == ForestLeaves(a) + ForestLeaves(b)
  {
    WeightConcat(a, b);
    LeavesConcat(a, b);
  }

  /** `heappop`: the index of the leftmost node of least frequency. */
  function MinPos(h: seq<Node>): (k: int)
    requires |h| > 0
    ensures 0 <= k < |h|
    ensures forall j :: 0 <= j < |h| ==> h[k].freq <= h[j].freq
  {
    if |h| == 1 then 0
    else
      var k := MinPos(h[..|h| - 1]);
      if h[|h| - 1].freq < h[k].freq then |h| - 1 else k
  }

  function RemoveAt(h: seq<Node>, k: int): (r: seq<Node>)
    requires 0 <= k < |h|
    ensures |r| == |h| - 1
  {
    h[..k] + h[k + 1..]
  }

  lemma Singleton(x: Node)
    ensures ForestWeight([x]) == x.freq && ForestLeaves([x]) == Leaves(x)
  {
    assert [x][1..] == [];
  }

  /** Removing a node takes exactly its weight and its leaves out of the
      forest. */
  lemma RemoveAtFacts(h: seq<Node>, k: int)
    requires 0 <= k < |h|
    ensures ForestWeight(h) == h[k].freq + ForestWeight(RemoveAt(h, k))
    ensures ForestLeaves(h) == Leaves(h[k]) + ForestLeaves(RemoveAt(h, k))
  {
    var a, b := h[..k], h[k + 1..];
    var xb := [h[k]] + b;
    assert h == a + xb;
    assert RemoveAt(h, k) == a + b;
    RemoveWeight(a, xb, b);
    RemoveLeaves(a, xb, b);
  }

  lemma RemoveWeight(a: seq<Node>, xb: seq<Node>, b: seq<Node>)
    requires xb != [] && xb[1..] == b
    ensures ForestWeight(a + xb) == xb[0].freq + ForestWeight(a + b)
  {
    WeightConcat(a, xb);
    WeightConcat(a, b);
  }

  lemma RemoveLeaves(a: seq<Node>, xb: seq<Node>, b: seq<Node>)
    requires xb != [] && xb[1..] == b
    ensures ForestLeaves(a + xb) == Leaves(xb[0]) + ForestLeaves(a + b)
  {
    LeavesConcat(a, xb);
    LeavesConcat(a, b);
  }

  lemma RemoveAtWellWeighted(h: seq<Node>, k: int)
    requires 0 <= k < |h| && ForestWellWeighted(h)
    ensures ForestWellWeighted(RemoveAt(h, k))
  {
    var r := RemoveAt(h, k);
    forall j | 0 <= j < |r| ensures WellWeighted(r[j]) {
      if j < k {
        assert r[j] == h[j];
      } else {
        assert r[j] == h[j + 1];
      }
    }
  }

  /** One pass of the loop (lines 26-33): pop two least nodes, push their
      parent. */
  function MergeStep(h: seq<Node>): (r: seq<Node>)
    requires |h| >= 2
    ensures |r| == |h| - 1
  {
    var i := MinPos(h);
    var left := h[i];
    var h1 := RemoveAt(h, i);
    var j := MinPos(h1);
    var right := h1[j];
    RemoveAt(h1, j) + [Internal(left.freq + right.freq, left, right)]
  }

  /** MergeStep spelled out in its parts. */
  lemma MergeStepParts(h: seq<Node>, i: int, h1: seq<Node>, j: int, h2: seq<Node>, m: Node)
    requires |h| >= 2
    requires i == MinPos(h) && h1 == RemoveAt(h, i)
    requires j == MinPos(h1) && h2 == RemoveAt(h1, j)
    requires m == Internal(h[i].freq + h1[j].freq, h[i], h1[j])
    ensures MergeStep(h) == h2 + [m]
  {
  }

  /** Popping two nodes and pushing their parent keeps the weight and the
      leaves of the forest. */
  lemma MergeKeepsForest(h: seq<Node>, i: int, h1: seq<Node>, j: int, h2: seq<Node>, m: Node)
    requires 0 <= i < |h| && h1 == RemoveAt(h, i)
    requires 0 <= j < |h1| && h2 == RemoveAt(h1, j)
    requires m == Internal(h[i].freq + h1[j].freq, h[i], h1[j])
    ensures ForestWeight(h2 + [m]) == ForestWeight(h)
    ensures ForestLeaves(h2 + [m]) == ForestLeaves(h)
    ensures ForestWellWeighted(h) ==> ForestWellWeighted(h2 + [m])
  {
    RemoveAtFacts(h, i);
    RemoveAtFacts(h1, j);
    ForestConcat(h2, [m]);
    Singleton(m);
    if ForestWellWeighted(h) {
      RemoveAtWellWeighted(h, i);
      RemoveAtWellWeighted(h1, j);
      var r := h2 + [m];
      forall k | 0 <= k < |r| ensures WellWeighted(r[k]) {
        if k < |h2| {
          assert r[k] == h2[k];
        }
      }
    }
  }

  /** A pass takes two nodes out and puts one in whose frequency is their
      sum, so the total weight and the leaves are kept; the new node's left
      child is a least frequent node. */
  lemma MergeStepFacts(h: seq<Node>)
    requires |h| >= 2
    ensures ForestWeight(MergeStep(h)) == ForestWeight(h)
    ensures ForestLeaves(MergeStep(h)) == ForestLeaves(h)
    ensures ForestWellWeighted(h) ==> ForestWellWeighted(MergeStep(h))
    ensures MergeStep(h)[|h| - 2].Internal?
    ensures MergeStep(h)[|h| - 2].freq == MergeStep(h)[|h| - 2].left.freq + MergeStep(h)[|h| - 2].right.freq
    ensures forall k :: 0 <= k < |h| ==> MergeStep(h)[|h| - 2].left.freq <= h[k].freq
  {
    var i := MinPos(h);
    var h1 := RemoveAt(h, i);
    var j := MinPos(h1);
    var h2 := RemoveAt(h1, j);
    var m := Internal(h[i].freq + h1[j].freq, h[i], h1[j]);
    MergeStepParts(h, i, h1, j, h2, m);
    MergeKeepsForest(h, i, h1, j, h2, m);
    assert MergeStep(h)[|h| - 2] == m;
  }

  /** The tree the loop leaves as `heap[0]` (reference definition). */
  function BuildTree(h: seq<Node>): Node
    requires |h| >= 1
    decreases |h|
  {
    if |h| == 1 then h[0] else BuildTree(MergeStep(h))
  }

  /** A pass of the loop does not change the tree it ends with. */
  lemma BuildTreeStep(h: seq<Node>)
    requires |h| >= 2
    ensures BuildTree(h) == BuildTree(MergeStep(h))
  {
  }

  /** The root weighs as much as the whole heap and carries all its
      leaves; with two or more nodes the root is internal. */
  lemma {:induction false} BuildTreeFacts(h: seq<Node>)
    requires |h| >= 1
    ensures BuildTree(h).freq == ForestWeight(h)
    ensures Leaves(BuildTree(h)) == ForestLeaves(h)
    ensures ForestWellWeighted(h) ==> WellWeighted(BuildTree(h))
    ensures |h| >= 2 ==> BuildTree(h).Internal?
    decreases |h|
  {
    if |h| == 1 {
      assert h[1..] == [];
    } else {
      MergeStepFacts(h);
      BuildTreeFacts(MergeStep(h));
    }
  }

  lemma {:induction false} HeapOfLeaves(order: string, frequency: map<char, nat>)
    requires forall c :: c in order ==> c in frequency
    ensures ForestLeaves(HeapOf(order, frequency)) == multiset(order)
  {
    if order != [] {
      var n := |order| - 1;
      var h := HeapOf(order[..n], frequency);
      var leaf := Leaf(order[n], frequency[order[n]]);
      assert HeapOf(order, frequency) == h + [leaf];
      HeapOfLeaves(order[..n], frequency);
      LeavesConcat(h, [leaf]);
      Singleton(leaf);
      assert order == order[..n] + [order[n]];
      assert multiset(order) == multiset(order[..n]) + multiset{order[n]};
    }
  }

  lemma {:induction false} HeapOfWeight(order: string, frequency: map<char, nat>)
    requires forall c :: c in order ==> c in frequency
    ensures ForestWeight(HeapOf(order, frequency)) == Sum(order, frequency)
  {
    if order != [] {
      var n := |order| - 1;
      var h := HeapOf(order[..n], frequency);
      var leaf := Leaf(order[n], frequency[order[n]]);
      assert HeapOf(order, frequency) == h + [leaf];
      HeapOfWeight(order[..n], frequency);
      WeightConcat(h, [leaf]);
      Singleton(leaf);
    }
  }

  /** The leaves of a heap built from a dict are its keys, its weight is the
      sum of the counts, and every node of it is a leaf. */
  lemma HeapOfFacts(order: string, frequency: map<char, nat>)
    requires forall c :: c in order ==> c in frequency
    ensures ForestLeaves(HeapOf(order, frequency)) == multiset(order)
    ensures ForestWeight(HeapOf(order, frequency)) == Sum(order, frequency)
    ensures ForestWellWeighted(HeapOf(order, frequency))
  {
    HeapOfLeaves(order, frequency);
    HeapOfWeight(order, frequency);
    var h := HeapOf(order, frequency);
    forall k | 0 <= k < |h| ensures WellWeighted(h[k]) {
      assert h[k].Leaf?;
    }
  }

  /** Lines 25-35 from a non-empty heap: pop the two least nodes, push their
      parent, until one node is left. */
  method MergeAll(heap0: seq<Node>) returns (root: Node)
    requires |heap0| >= 1
    ensures root == BuildTree(heap0)
  {
    var heap := heap0;
    while |heap| > 1
      invariant |heap| >= 1 && BuildTree(heap) == BuildTree(heap0)
      decreases |heap|
    {
      ghost var before := heap;
      var i := MinPos(heap);
      var left := heap[i];
      heap := RemoveAt(heap, i);
      ghost var popped := heap;
      var j := MinPos(heap);
      var right := heap[j];
      heap := RemoveAt(heap, j);
      var merged := Internal(left.freq + right.freq, left, right);
      MergeStepParts(before, i, popped, j, heap, merged);
      BuildTreeStep(before);
      heap := heap + [merged];
    }
    root := heap[0];
  }

  /** Lines 21-35. The loop runs while more than one node is left; an empty
      dict makes `heap[0]` raise, which is `None` here. */
  method BuildHuffmanTree(order: string, frequency: map<char, nat>) returns (root: Option<Node>)
    requires forall c :: c in order ==> c in frequency
    ensures order == [] <==> root == None
    ensures order != [] ==> root == Some(BuildTree(HeapOf(order, frequency)))
  {
    var heap := HeapOf(order, frequency);
    if |heap| == 0 {
      return None;
    }
    var t := MergeAll(heap);
    root := Some(t);
  }

  /** The tree of a non-empty text: its root weighs |text|, its leaves are
      exactly the distinct characters, each once, and with two or more
      distinct characters the root is internal. */
  lemma TreeOfText(text: string)
    requires text != []
    ensures var t := BuildTree(HeapOf(Dedup(text), Counts(text)));
      t.freq == |text| && WellWeighted(t) &&
      Leaves(t) == multiset(Dedup(text)) &&
      (forall c :: c in Leaves(t) <==> c in text) &&
      (forall c :: Leaves(t)[c] <= 1) &&
      (|Dedup(text)| >= 2 ==> t.Internal?)
  {
    var d := Dedup(text);
    assert text[0] in d;
    var h := HeapOf(d, Counts(text));
    HeapOfFacts(d, Counts(text));
    BuildTreeFacts(h);
    CountsSum(text);
    DistinctMultiplicity(d);
  }

  /** A sequence without repeats has every multiplicity at most one. */
  lemma {:induction false} DistinctMultiplicity(s: string)
    requires Distinct(s)
    ensures forall c :: multiset(s)[c] <= 1
  {
    if s != [] {
      var n := |s| - 1;
      assert s == s[..n] + [s[n]];
      DistinctMultiplicity(s[..n]);
      assert s[n] !in s[..n];
    }
  }
}
