# Algorithms labs — a verified Dafny model

This project models the algorithmic core of a set of five Python lab programs and proves what each promises:

- **Connect Four engine** (`Lab1/main.py`). It covers:
  - the 6 × 7 board, dropping a piece, and legal columns and open rows;
  - detecting four in a row;
  - the window heuristic `score_position`;
  - depth-limited minimax with alpha–beta pruning;
  - the one-ply `pick_best_move`.
- **L-system** (`Lab2/lsysem.py`). Three rewriting passes of `F -> F-F+F+FF-F-F+F` from the axiom `F`, then the translation of every symbol into a turtle command.
- **Sorters** (`Lab3/main.py`, `Lab3/insert.py`):
  - selection sort, which records a snapshot per pass;
  - merge sort, which records a snapshot per merge;
  - the k-way merge loop of `FileSorter.sort_file`;
  - insertion sort, in both a plain and a tracked version.
- **Substring search** (`Lab4/main.py`):
  - the naive search;
  - Boyer–Moore–Horspool search;
  - the search for the longest `CATCAT…CAT` run.
- **Huffman coding** (`Lab5/main.py`):
  - the frequency table;
  - the tree built by repeatedly merging the two lightest nodes;
  - the recursive code table;
  - `compress`, which encodes, pads, prepends a header byte and packs bytes;
  - `decompress`, which unpacks, strips the padding and decodes greedily.

## How the model is built

**Classes and methods.** Code that updates objects in place is modelled as classes whose methods carry `modifies` clauses:
- `ConnectFour`, with its `board` field;
- `SelectionSorter` and `MergeSorter`, with their `intermediateStates`;
- `InsertionSort` and `TrackedInsertionSort`, with `lines` and `steps`;
- `CodeBook`, the `huffman_codes` dict that the recursive code builder shares.

Loops remain `while`/`for` loops with their invariants. Most methods are proved equal to a reference function, and the properties are proved about those functions as lemmas. A few methods are instead specified directly by the properties they establish:
- `SelectionSorter.Sort` (sorted and a permutation, plus the snapshots);
- `MergeChunks` (sorted, a permutation, and equal to the merge sort of the concatenated chunks);
- `BuildSkip`, `MatchFromEnd` and `FindLongestCatSequence`;
- `LSystem.Run`.

**What the proofs establish:**
- **Sorting.** The sorters produce a sorted permutation. Their snapshot lists have the length and contents the source records. Insertion sort and merge sort agree.
- **Search.** Horspool's skip never jumps over a match, so `BmhSearch` returns exactly the naive result.
- **Connect Four.** Alpha–beta is fail-soft with respect to plain minimax. With the (−∞, +∞) window it returns the minimax value and a column that achieves it. `pick_best_move` returns the leftmost column of maximal score.
- **Huffman.** The tables built from trees are prefix-free. `decompress(compress(t)) == t` whenever `t` has at least two distinct characters.
- **L-system.** The generated string has 950 symbols, 512 of them `F`.

**Two limits of the source are stated rather than hidden:**
- A text with a single distinct character gets the empty code. Decompressing its compression yields the empty string (`Huffman.SingleSymbol`).
- An empty pattern makes `bmh_search` loop forever or raise, so `BmhSearch` requires a non-empty pattern.

**Values at the edges of the model:**
- Python's `math.inf` is modelled as the `Bound` datatype (`NegInf`, `Fin`, `PosInf`).
- `random.choice` is replaced by a fixed starting column. The class methods `MaxSearch`, `MinSearch` and `PickBestMove` start from the first playable column. The reference functions `GameTrees.MaxLoop`, `GameTrees.MinLoop` and `Search.PickFrom` take the starting column as a parameter. `GameTrees.InitialColumnIrrelevant` and `Search.PickInitialIrrelevant` prove that no starting column can change the result.
- The numpy board becomes a `seq<seq<int>>`.
- Bytes are modelled as a `Byte` newtype.
- Bit strings are `string`s over `'0'`/`'1'`.

## Model

| member | source | states |
|---|---|---|
| SortSpec.Min | Lab3/main.py:70-71 | Python `min`: the result is an element and no element is smaller |
| SortSpec.IndexOf | Lab3/main.py:73 | `list.index`: the first position holding the value |
| SortSpec.SortedMin | Lab3/main.py:70 | the minimum of a sorted non-empty list is its head |
| SortSpec.SortedPermutationUnique | Lab3/insert.py:10-17 | two sorted permutations of the same list are equal, so every correct sort of integers gives the same result |
| Sorters.MinIndex | Lab3/main.py:18-21 | the inner scan returns an index inside the scanned range |
| Sorters.MinIndexFacts | Lab3/main.py:18-21 | the index found holds a minimum of `collection[i:]`, and it is the leftmost one, because the scan moves only on a strictly smaller element |
| Sorters.SwapPermutes | Lab3/main.py:22 | the tuple swap permutes the list |
| Sorters.SelectStepKeeps | Lab3/main.py:17-22 | one outer pass grows by one the sorted prefix of the smallest elements |
| Sorters.SelectStepPermutes | Lab3/main.py:17-22 | one outer pass permutes the list |
| Sorters.SelectAfterPartitioned | Lab3/main.py:17-22 | after i passes the first i positions hold the i smallest elements in order |
| Sorters.SelectAfterPermutes | Lab3/main.py:17-22 | after i passes the list is a permutation of the input |
| Sorters.SelectAfterFacts | Lab3/main.py:17-22 | both facts above together |
| Sorters.PartitionedAll | Lab3/main.py:17-24 | a list partitioned at its full length is sorted |
| Sorters.SelectionSnapshotsShape | Lab3/main.py:23 | one snapshot per pass; snapshot k is the list after pass k+1 |
| Sorters.SelectionSnapshotsFacts | Lab3/main.py:17-23 | len(collection) snapshots; each is a permutation with its first k+1 places final; the last is sorted |
| Sorters.SelectionSnapshotStep | Lab3/main.py:22-23 | recording the list after pass i extends the snapshot list by exactly that state |
| Sorters.SelectionSorter.constructor | Lab3/main.py:6-7 | starts with no intermediate states |
| Sorters.SelectionSorter.FindMin | Lab3/main.py:18-21 | the inner loop over the array returns the leftmost minimum index |
| Sorters.SelectionSorter.Sort | Lab3/main.py:16-24 | it sorts in place and returns the same array, which is sorted and a permutation of the input; it appends one snapshot per pass |
| Sorters.MergedPermutation | Lab3/main.py:37-50 | the merge is a permutation of left + right |
| Sorters.MergedHead | Lab3/main.py:40-48 | the merge has length \|left\|+\|right\| and starts with the head of one of the inputs |
| Sorters.MergedSorted | Lab3/main.py:37-48 | merging two sorted lists gives a sorted list |
| Sorters.MergedStep | Lab3/main.py:40-46 | one loop iteration takes left's head only if it is strictly smaller, and otherwise right's |
| Sorters.MergedTail | Lab3/main.py:47-48 | once one side is exhausted the rest of the other is appended |
| Sorters.MergeSortUnfold | Lab3/main.py:28-35 | one level of the recursion: split at len//2, sort both halves, merge; snapshots of the left half, then the right half, then the merge |
| Sorters.MergeSortCorrect | Lab3/main.py:27-35 | merge sort returns a sorted permutation of its input |
| Sorters.MergeTraceLength | Lab3/main.py:27-49 | an n-element list records n−1 merge snapshots (none when empty), and for n ≥ 2 the last one is the sorted result |
| Sorters.MergeSorter.constructor | Lab3/main.py:6-7 | starts with no intermediate states |
| Sorters.MergeSorter.Merge | Lab3/main.py:37-50 | the loop computes the merge and appends exactly one snapshot of it |
| Sorters.MergeSorter.Sort | Lab3/main.py:27-35 | the recursion returns the merge sort of the input and appends its whole merge trace |
| Sorters.ElementsConcat | Lab3/main.py:69-76 | the elements and total length of a chunk list split over concatenation |
| Sorters.MinsOfFullChunks | Lab3/main.py:70 | with no empty chunk the filter `if chunk` keeps every chunk: the k-th listed minimum is `min(chunks[k])` |
| Sorters.PopHead | Lab3/main.py:74 | popping a head removes exactly that element from the pool |
| Sorters.DropEmpty | Lab3/main.py:75-76 | dropping an emptied chunk loses no element |
| Sorters.PopSmallest | Lab3/main.py:70-76 | popping the smallest head keeps the chunks sorted and non-empty, removes exactly that element, and leaves every head at least as large |
| Sorters.DroppedHeads | Lab3/main.py:75-76 | the heads left after dropping a chunk are heads from before |
| Sorters.PoppedHeads | Lab3/main.py:74-76 | every head after a pop is at least the popped element |
| Sorters.SmallestHead | Lab3/main.py:70-73 | the element one pass writes is a smallest head, and the index is that of the first chunk holding it |
| Sorters.MergeStep | Lab3/main.py:69-76 | one pass keeps the merge invariant: nothing lost or duplicated, output sorted, no head below the last output |
| Sorters.SortedAppend | Lab3/main.py:72 | appending an element no smaller than the last keeps the output sorted |
| Sorters.MergeChunks | Lab3/main.py:69-76 | the chunk merge writes every element exactly once, in non-decreasing order, so the output equals the merge sort of the concatenated chunks |
| Insertion.ScanDown | Lab3/insert.py:13-16 | the inner loop stops at the first j from the right with `lines[j] <= key`, or at −1; every element it passes is greater than the key |
| Insertion.InsertStepPlaces | Lab3/insert.py:12-17 | one pass puts the key at j+1, shifts the passed elements right by one, and leaves everything else unchanged |
| Insertion.InsertStepPermutes | Lab3/insert.py:12-17 | one pass permutes the list |
| Insertion.InsertStepKeeps | Lab3/insert.py:11-17 | a pass grows the sorted prefix by one, permutes, and does not touch later elements |
| Insertion.AfterFacts | Lab3/insert.py:11-17 | after the passes for 1..i−1 the first i elements are sorted and the list is a permutation |
| Insertion.FinalSorted | Lab3/insert.py:10-17 | insertion sort gives a sorted permutation, equal to what merge sort gives |
| Insertion.SnapshotsFacts | Lab3/insert.py:29-36 | after n−1 passes there are n−1 snapshots; snapshot k is the list after the pass for i = k+1 |
| Insertion.AllSnapshotsFacts | Lab3/insert.py:28-36 | the tracked sort records max(n−1, 0) snapshots, and the last is the sorted list |
| Insertion.ProgressStep | Lab3/insert.py:11-17 | the outer loop invariant is preserved by a pass |
| Insertion.ProgressDone | Lab3/insert.py:11-17 | at loop exit the lines are the sorted result |
| Insertion.TrackedStep | Lab3/insert.py:29-36 | the tracked loop invariant, including the steps list, is preserved by a pass |
| Insertion.TrackedDone | Lab3/insert.py:29-36 | at loop exit the lines are sorted and the steps are the prior steps followed by every snapshot |
| Insertion.ShiftingAt | Lab3/insert.py:13-16 | the list during the shift loop: positions up to j+1 as before, j+2..i shifted, the tail untouched |
| Insertion.ShiftingStart | Lab3/insert.py:13 | before the shift loop the list is unchanged |
| Insertion.ShiftingStep | Lab3/insert.py:15-16 | `lines[j+1] = lines[j]` moves the shift state from j to j−1 |
| Insertion.ShiftingDone | Lab3/insert.py:17 | writing the key at j+1 after the shift completes the pass |
| Insertion.InsertPass | Lab3/insert.py:12-17 | the inner while loop performs exactly one insertion pass |
| Insertion.InsertionSort.constructor | Lab3/insert.py:2-8 | the object holds the lines it was given (the file contents) |
| Insertion.InsertionSort.Sort | Lab3/insert.py:10-17 | the lines become their insertion-sorted version (sorted permutation, see FinalSorted) |
| Insertion.TrackedInsertionSort.constructor | Lab3/insert.py:24-26 | the lines are given and the steps list is empty |
| Insertion.TrackedInsertionSort.Sort | Lab3/insert.py:28-36 | the lines are sorted and one snapshot per pass is appended to steps |
| Substring.MatchesBelowExact | Lab4/main.py:14-16 | the matches scanned below hi are exactly the match positions below hi, increasing |
| Substring.Occurrences | Lab4/main.py:10-17 | the occurrence list holds exactly the match positions, in increasing order |
| Substring.MatchesBelowNext | Lab4/main.py:14-16 | one more alignment adds that position if it matches |
| Substring.NoMatchesPastEnd | Lab4/main.py:14 | no alignment past n−m matches, so the range `n - m + 1` loses nothing |
| Substring.NaiveSearch | Lab4/main.py:10-17 | the naive loop returns every match position in increasing order, for every pattern including the empty one |
| Substring.LastIndex | Lab4/main.py:28-29 | the last position of a character in the pattern, or −1 |
| Substring.LastIndexNext | Lab4/main.py:28-29 | the last-index table after one more pattern character |
| Substring.Shift | Lab4/main.py:27-29 | every skip value is between 1 and m |
| Substring.BuildSkip | Lab4/main.py:27-29 | the skip dict maps each character to m−1−(its last index in pattern[:m−1]), or m |
| Substring.SkipLookup | Lab4/main.py:39 | `skip.get(text[i], m)` is that shift for each text character |
| Substring.SkipIsSafe | Lab4/main.py:39 | no alignment skipped over by the shift can match, which is Horspool's correctness argument |
| Substring.SkippedAlignments | Lab4/main.py:32-39 | skipping adds no matches between the current alignment and the next |
| Substring.ShiftStep | Lab4/main.py:37-39 | after one alignment and its shift, the matches found so far are exactly the matches below the new alignment |
| Substring.RecordStep | Lab4/main.py:37-39 | appending on `k == m` keeps the found list equal to all matches below the next alignment |
| Substring.MatchFromEnd | Lab4/main.py:34-36 | the right-to-left comparison reaches m exactly when the pattern matches at i−m+1 |
| Substring.ScanAlignments | Lab4/main.py:32-41 | the search loop finds exactly the matches of the pattern |
| Substring.BmhSearch | Lab4/main.py:19-41 | for a non-empty pattern Horspool returns the same list as the naive search, including [] when m > n |
| Substring.CatRun | Lab4/main.py:48 | `"CAT" * i` has length 3i |
| Substring.CatRunPrefix | Lab4/main.py:47-54 | a match of CAT×k is also a match of CAT×(k−1) |
| Substring.CatRunAbsentAbove | Lab4/main.py:50-54 | if CAT×(k+1) does not occur, no longer run occurs, so the early `break` loses nothing |
| Substring.NonEmptyOccurrences | Lab4/main.py:50 | the occurrence list is non-empty exactly when the pattern occurs |
| Substring.FindLongestCatSequence | Lab4/main.py:43-55 | returns CAT×k for the largest k that occurs (k = 0 and "" when none does), with 3k ≤ len(genome), and all its positions |
| LSystem.Rule | Lab2/lsysem.py:8-12 | `F` rewrites to the production; every other symbol is copied |
| LSystem.Generate | Lab2/lsysem.py:8-13 | the nested loops compute `iterations` parallel rewriting steps from the axiom |
| LSystem.ProductionFacts | Lab2/lsysem.py:8 | the production has 14 symbols, 8 of them `F`, over {F, +, -} |
| LSystem.RuleFacts | Lab2/lsysem.py:12 | each symbol's image has length 1 or 14, and 8 F or none |
| LSystem.StepSnoc | Lab2/lsysem.py:11-12 | rewriting `s + [c]` appends the image of c |
| LSystem.StepCountF | Lab2/lsysem.py:10-13 | one step multiplies the F count by 8 |
| LSystem.StepLength | Lab2/lsysem.py:10-13 | one step adds 13 symbols per F |
| LSystem.StepAlphabet | Lab2/lsysem.py:10-13 | a step keeps the string over {F, +, -} |
| LSystem.StepCounts | Lab2/lsysem.py:10-13 | the three facts above together |
| LSystem.IterateAppend | Lab2/lsysem.py:10-13 | k+1 steps are one step of the string after k steps |
| LSystem.IterateCounts | Lab2/lsysem.py:10-13 | every further step multiplies the F count by 8 and adds 13 symbols per F, and a string over {F, +, -} stays so |
| LSystem.GeneratedSizes | Lab2/lsysem.py:8-13 | from `F` the strings after 1, 2 and 3 steps have 14, 118 and 950 symbols and 8, 64 and 512 F |
| LSystem.CommandFor | Lab2/lsysem.py:16-21 | `+` is left 90, `-` is right 90, anything else is forward 5 |
| LSystem.Interpret | Lab2/lsysem.py:15-21 | one turtle command per symbol, in order |
| LSystem.ForwardsAreFs | Lab2/lsysem.py:15-21 | over {F, +, -} the number of forward moves is the number of F |
| LSystem.Run | Lab2/lsysem.py:8-21 | the script draws 950 commands, 512 of them forward moves |
| BitStrings.ValueOfBound | Lab5/main.py:66 | `int(s, 2)` of an n-bit string is below 2^n |
| BitStrings.BitsOfIsBits | Lab5/main.py:60 | `format(v, '08b')` yields only 0/1 characters |
| BitStrings.ValueOfBitsOf | Lab5/main.py:77 | `int(format(v, '08b'), 2) == v` for v < 256 |
| BitStrings.BitsOfValueOf | Lab5/main.py:66 | formatting the value of a bit string gives the same string back |
| BitStrings.Unpack | Lab5/main.py:73-74 | unpacking gives 8 bits per byte |
| BitStrings.PackLength | Lab5/main.py:63-66 | packing a multiple-of-8 bit string gives one byte per 8 bits |
| BitStrings.PackFront | Lab5/main.py:64-66 | packing starts with the byte of the first 8 bits |
| BitStrings.UnpackPack | Lab5/main.py:63-74 | unpack(pack(bits)) == bits for 0/1 strings of length divisible by 8 |
| BitStrings.PackUnpack | Lab5/main.py:63-74 | pack(unpack(data)) == data |
| HuffmanTree.Dedup | Lab5/main.py:15-19 | the dict key order lists each character of the text exactly once |
| HuffmanTree.Counts | Lab5/main.py:15-19 | the frequency dict has exactly the text's characters, each mapped to its positive number of occurrences |
| HuffmanTree.CountsAppend | Lab5/main.py:17-18 | one more character increments its count or inserts it with 1 |
| HuffmanTree.FrequencyStep | Lab5/main.py:17-18 | the loop step preserves key order and counts, and appends a new key at the end |
| HuffmanTree.BuildFrequencyDict | Lab5/main.py:15-19 | the loop builds the first-occurrence key order and the occurrence counts |
| HuffmanTree.CountsSum | Lab5/main.py:15-19 | the frequencies add up to len(text) |
| HuffmanTree.HeapOf | Lab5/main.py:22 | one leaf per dict entry, in key order, with that frequency |
| HuffmanTree.MinPos | Lab5/main.py:26-27 | `heappop` takes a node of minimum frequency |
| HuffmanTree.RemoveAtFacts | Lab5/main.py:26-27 | popping a node moves exactly its weight and leaves out of the heap |
| HuffmanTree.RemoveAtWellWeighted | Lab5/main.py:26-27 | popping keeps every remaining node's weight equal to its subtree's leaf sum |
| HuffmanTree.MergeStepParts | Lab5/main.py:26-33 | one loop iteration pops two lightest nodes and pushes their parent |
| HuffmanTree.MergeKeepsForest | Lab5/main.py:26-33 | popping two nodes and pushing their parent keeps total weight, leaves and well-weightedness |
| HuffmanTree.MergeStepFacts | Lab5/main.py:25-33 | an iteration shrinks the heap by one and keeps weight and leaves; the new node weighs the sum of its children, and its left child is lightest |
| HuffmanTree.BuildTreeStep | Lab5/main.py:25-33 | the tree after all iterations equals the tree after one more |
| HuffmanTree.BuildTreeFacts | Lab5/main.py:25-35 | the root weighs the heap's total, has all its leaves, is well weighted, and is internal when the heap had ≥ 2 nodes |
| HuffmanTree.HeapOfFacts | Lab5/main.py:22 | the initial heap has the dict's keys as leaves and the frequency sum as weight |
| HuffmanTree.MergeAll | Lab5/main.py:25-35 | the while loop returns the merged tree |
| HuffmanTree.BuildHuffmanTree | Lab5/main.py:21-35 | None, modelling the `heap[0]` IndexError, exactly for an empty dict; otherwise the merged tree |
| HuffmanTree.TreeOfText | Lab5/main.py:15-35 | the tree of a non-empty text weighs len(text); its leaves are the distinct characters, each once; it is internal if ≥ 2 distinct characters |
| HuffmanCodes.CodeTableKeys | Lab5/main.py:37-46 | the table has an entry for exactly the leaf characters |
| HuffmanCodes.CodeTableShape | Lab5/main.py:41-46 | each code is the current code followed by a 0/1 path, non-empty below an internal node |
| HuffmanCodes.SplitTable | Lab5/main.py:45-46 | with distinct leaves the two recursive calls write disjoint keys |
| HuffmanCodes.CodeTablePrefixFree | Lab5/main.py:37-46 | with distinct leaves no code is a prefix of another |
| HuffmanCodes.PrefixFreeInjective | Lab5/main.py:82 | a prefix-free table is injective, so reversing the dict loses nothing |
| HuffmanCodes.WalkTurn | Lab5/main.py:45-46 | a code bit selects the child the recursion went into |
| HuffmanCodes.CodeTableWalk | Lab5/main.py:37-46 | following a character's code from the root reaches that character's leaf |
| HuffmanCodes.RootCodes | Lab5/main.py:37-46 | from an internal root every code is non-empty and over 0/1, and the table is prefix-free and injective |
| HuffmanCodes.CodeBook.constructor | Lab5/main.py:52 | the shared dict starts empty |
| HuffmanCodes.CodeBook.Build | Lab5/main.py:37-46 | the recursion adds the code table of the node to the shared dict, right over left |
| Huffman.Padding | Lab5/main.py:57 | the padding is 1..8 and makes the bit count a multiple of 8 |
| Huffman.Zeros | Lab5/main.py:58 | `"0" * padding` has that length and is over 0/1 |
| Huffman.Frame | Lab5/main.py:57-61 | the framed string has the 8-bit header, the code bits and the padding, a multiple of 8 bits |
| Huffman.CodesFor | Lab5/main.py:49-53 | the code table covers every character of the text |
| Huffman.CompressF | Lab5/main.py:48-68 | compress fails (the IndexError) exactly on empty text |
| Huffman.DropLast | Lab5/main.py:80 | `s[:-k]` is a prefix of s that is k shorter when 1 ≤ k ≤ len(s) |
| Huffman.Reverse | Lab5/main.py:82 | for an injective table the reversed dict is its exact inverse |
| Huffman.Greedy | Lab5/main.py:84-92 | the greedy decoder emits no more characters than bits |
| Huffman.DecompressF | Lab5/main.py:70-94 | decompress fails (the `int('', 2)` ValueError) exactly on empty data |
| Huffman.GreedyEmits | Lab5/main.py:87-92 | every decoded character is a value of the reversed dict |
| Huffman.DecompressChars | Lab5/main.py:70-94 | every decompressed character is a key of the code table |
| Huffman.EncodeBits | Lab5/main.py:55 | the encoding of 0/1 codes is a 0/1 string |
| Huffman.DecodeCode | Lab5/main.py:87-92 | after a codeword whose proper prefixes are not codes, the decoder emits its character and restarts |
| Huffman.ShorterNotCode | Lab5/main.py:82-92 | in a prefix-free table no proper prefix of a code is a key of the reversed dict |
| Huffman.DecodeEncode | Lab5/main.py:55-92 | greedy decoding undoes the encoding for prefix-free non-empty codes |
| Huffman.DecompressPacked | Lab5/main.py:73-80 | decompressing packed bits drops the header byte and the padding it announces, then decodes |
| Huffman.FrameShape | Lab5/main.py:57-66 | the packed frame's first byte is the padding, and its size is header + code bits + padding |
| Huffman.CompressShape | Lab5/main.py:48-68 | the compressed bytes start with the padding (1..8) and hold 8 + len(encoded) + padding bits |
| Huffman.CodesForFacts | Lab5/main.py:49-53 | for ≥ 2 distinct characters the table is decodable and has exactly the text's characters |
| Huffman.DecompressFrame | Lab5/main.py:70-94 | decompressing a framed 0/1 string decodes exactly that string |
| Huffman.FrameRoundTrip | Lab5/main.py:48-94 | with a decodable covering table, decompress(frame(encode(text))) == text |
| Huffman.RoundTrip | Lab5/main.py:48-94 | for a text with ≥ 2 distinct characters, decompress(compress(text)) == text |
| Huffman.EmptyCodes | Lab5/main.py:53-94 | if all codes are empty the encoding is empty and decompression gives "" |
| Huffman.EmptyEncode | Lab5/main.py:55 | empty codes encode any text to "" |
| Huffman.SingleSymbol | Lab5/main.py:37-94 | for a text with one distinct character, compress succeeds and decompress returns "", so the round trip loses the text |
| Huffman.PackBits | Lab5/main.py:63-66 | the byte loop packs the bit string 8 bits at a time |
| Huffman.FrameParts | Lab5/main.py:57-61 | the three string updates build the frame |
| Huffman.CodesOfTree | Lab5/main.py:52-53 | the shared dict after the recursion is the text's code table |
| Huffman.CodesForTable | Lab5/main.py:49-53 | the text's code table is the table of its tree |
| Huffman.Compress | Lab5/main.py:48-68 | the imperative compress computes the functional one |
| Huffman.GreedyStep | Lab5/main.py:87-92 | one decode loop iteration either emits and resets or extends the current code |
| Huffman.ReadBits | Lab5/main.py:71-74 | the byte loop builds the unpacked bit string |
| Huffman.DecodeBits | Lab5/main.py:84-92 | the decode loop computes the greedy decoding |
| Huffman.Decompress | Lab5/main.py:70-94 | the imperative decompress computes the functional one |
| Board.EmptyBoard | Lab1/main.py:21-22 | a 6 × 7 grid of zeros |
| Board.Drop | Lab1/main.py:24-25 | dropping keeps a 6 × 7 grid |
| Board.DropFrame | Lab1/main.py:24-25 | `board[row][col] = piece` changes that cell and nothing else |
| Board.FirstOpenFacts | Lab1/main.py:30-33 | the row scan finds the lowest empty cell from r, or reports that none exists |
| Board.OpenRowFacts | Lab1/main.py:30-33 | `get_next_open_row` is the lowest empty row, and None means the column is full |
| Board.ValidHasOpenRow | Lab1/main.py:27-33 | a legal column has an open row |
| Board.ValidIffOpen | Lab1/main.py:27-33 | on a board where pieces rest on pieces, a column is legal exactly when it has an open row |
| Board.EmptyAbove | Lab1/main.py:30-33 | on such a board every cell above an empty cell is empty |
| Board.DropKeepsStacked | Lab1/main.py:139-141 | dropping a piece in the open row keeps every piece resting on a piece |
| Board.ValidBelowFacts | Lab1/main.py:169-174 | the scan over columns 0..n−1 lists exactly the legal ones, in increasing order |
| Board.ValidLocationsFacts | Lab1/main.py:169-174 | `get_valid_locations` lists exactly the legal columns, in increasing order |
| Board.PlayableAt | Lab1/main.py:169-174 | every listed column is in range and legal |
| Board.Child | Lab1/main.py:139-141 | the board after a drop into a legal column |
| Board.EmptyHasNoFour | Lab1/main.py:38-65 | an empty board has no four in a row |
| Board.Count | Lab1/main.py:70-78 | `window.count` is at most the window length |
| Board.EvaluateWindowFacts | Lab1/main.py:67-81 | gives 100 for four own pieces, 5 for three own and one empty, and 2 for two own and two empty; −4 for three of the opponent and one empty; 0 for a mixed window; no other value |
| Board.EvaluateWindowLow | Lab1/main.py:67-81 | a window scores at least −4 |
| Board.WindowOf | Lab1/main.py:92-115 | every window slice has 4 cells |
| Board.CenterColumn | Lab1/main.py:86-88 | the centre column has 6 cells |
| Board.EmptyWindow | Lab1/main.py:67-81 | an empty window scores 0 |
| Board.EmptyInnerSum | Lab1/main.py:92-115 | on an empty board a row of windows sums to 0 |
| Board.EmptyOuterSum | Lab1/main.py:92-115 | sums of zero rows are 0 |
| Board.EmptyRows | Lab1/main.py:92-115 | on an empty board every row of windows sums to 0 |
| Board.EmptyBoardScore | Lab1/main.py:83-117 | `score_position` of an empty board is 0 |
| Board.InnerSumLow | Lab1/main.py:92-115 | n windows sum to at least −4n |
| Board.OuterSumLow | Lab1/main.py:92-115 | m rows of windows sum to at least −4 × windows per row × m |
| Board.ScoreLow | Lab1/main.py:83-117 | every position scores at least −276, above `pick_best_move`'s −10000 start |
| Bounds.Max | Lab1/main.py:147 | `max` over the extended integers is an upper bound and one of its arguments |
| Bounds.Min | Lab1/main.py:164 | `min` over the extended integers is a lower bound and one of its arguments |
| Bounds.MaxCutoff | Lab1/main.py:144-149 | a `break` on alpha ≥ beta leaves a fail-soft value |
| Bounds.MaxContinue | Lab1/main.py:144-149 | the maximiser's loop facts carry over one iteration |
| Bounds.MinCutoff | Lab1/main.py:161-166 | a `break` on alpha ≥ beta leaves a fail-soft value for the minimiser |
| Bounds.MinContinue | Lab1/main.py:161-166 | the minimiser's loop facts carry over one iteration |
| Bounds.FullWindowExact | Lab1/main.py:122-167 | a fail-soft value within (−∞, +∞) is the exact value |
| GameTrees.MaxOfShift | Lab1/main.py:138-150 | the running maximum from any start is max of the start and the maximum from −∞ |
| GameTrees.MinOfShift | Lab1/main.py:155-167 | the same for the running minimum |
| GameTrees.AlphaBetaWindow | Lab1/main.py:122-167 | alpha–beta returns the minimax value when it lies inside (alpha, beta); otherwise a bound on the same side of the window |
| GameTrees.MaxLoopWindow | Lab1/main.py:138-150 | the maximiser's child loop is fail-soft with respect to the maximum of its children |
| GameTrees.MinLoopWindow | Lab1/main.py:155-167 | the minimiser's child loop is fail-soft with respect to the minimum of its children |
| GameTrees.FullWindow | Lab1/main.py:122-167 | with the window (−∞, +∞) alpha–beta returns exactly the minimax value |
| GameTrees.AlphaBetaFinite | Lab1/main.py:122-167 | the returned value is always a finite integer |
| GameTrees.MaxLoopFinite | Lab1/main.py:138-150 | the maximiser's loop returns a finite value |
| GameTrees.MinLoopFinite | Lab1/main.py:155-167 | the minimiser's loop returns a finite value |
| GameTrees.InitialColumnIrrelevant | Lab1/main.py:135-167 | the `random.choice` starting column never reaches the result, because the first child always beats ∓∞ |
| GameTrees.ColumnIsMove | Lab1/main.py:122-167 | there is no column exactly at a leaf; otherwise the column is one of the node's moves |
| GameTrees.MaxLoopColumn | Lab1/main.py:138-150 | the maximiser's column is its start column or a move it examined |
| GameTrees.MinLoopColumn | Lab1/main.py:155-167 | the minimiser's column is its start column or a move it examined |
| GameTrees.BestMoveOptimal | Lab1/main.py:135-150 | at the root the returned column is a move whose minimax value equals the root's |
| GameTrees.MaxLoopChoice | Lab1/main.py:138-150 | with beta = +∞ the column returned achieves the returned value |
| Search.Static | Lab1/main.py:125-134 | the static evaluation applies exactly at depth 0 or at a terminal board (win 10^14, loss −10^13, draw 0, else the heuristic) |
| Search.Next | Lab1/main.py:139-141 | the child board is a 6 × 7 grid |
| Search.GameTreePlayable | Lab1/main.py:122-167 | the game tree of a board has no empty branch |
| Search.ExpandsColumn | Lab1/main.py:137-141 | the i-th move of the tree is the i-th valid column |
| Search.GameTreeExpands | Lab1/main.py:135-167 | off the static cases the game tree expands the valid columns in order |
| Search.MinimaxColumn | Lab1/main.py:122-167 | `minimax` returns None exactly at depth 0 or a terminal board, otherwise a legal column; the value is finite |
| Search.BestColumnOptimal | Lab1/main.py:122-167 | from the full window at the root, the value is the minimax value and playing the column achieves it |
| Search.ChildrenBelow | Lab1/main.py:180-183 | one child board per valid column |
| Search.ChildrenBelowAt | Lab1/main.py:180-183 | child j is the drop into valid column j |
| Search.ScoresOf | Lab1/main.py:183 | one score per board |
| Search.ScoresOfAt | Lab1/main.py:183 | score j is the score of board j |
| Search.Scores | Lab1/main.py:180-185 | one score per valid column |
| Search.ScoresAt | Lab1/main.py:180-185 | score j is the score after dropping into valid column j |
| Search.ScoresLow | Lab1/main.py:180-185 | every candidate scores at least −276 |
| Search.PickInitialIrrelevant | Lab1/main.py:176-190 | the `random.choice` starting column never reaches the result |
| Search.PickIndex | Lab1/main.py:184-186 | the running best index stays in range |
| Search.PickFromIndex | Lab1/main.py:180-190 | the running best column is the column at the running best index |
| Search.PickIndexFacts | Lab1/main.py:184-186 | the strict `>` keeps the leftmost maximum: the index is a maximum, and every earlier scanned score is smaller |
| Search.PickFromBest | Lab1/main.py:176-190 | from −10000 the loop returns a listed column of maximum score, the leftmost such |
| Search.PickBestMoveFacts | Lab1/main.py:176-190 | `pick_best_move` returns None, modelling the IndexError `random.choice([])` raises, exactly when no column is legal, and otherwise the leftmost legal column of maximum one-ply score |
| ConnectFourGame.LoopWindow | Lab1/main.py:92-115 | the slice each scoring loop builds is the direction's window |
| ConnectFourGame.HorizontalWindow | Lab1/main.py:93-96 | `row_array[c:c+4]` is the horizontal window |
| ConnectFourGame.VerticalWindow | Lab1/main.py:99-102 | `col_array[r:r+4]` is the vertical window |
| ConnectFourGame.RisingWindow | Lab1/main.py:105-108 | `board[r+i][c+i]` is the rising diagonal window |
| ConnectFourGame.FallingWindow | Lab1/main.py:111-114 | `board[r+3-i][c+i]` is the falling diagonal window |
| ConnectFourGame.InnerSumNext | Lab1/main.py:92-115 | an inner loop iteration adds one window's score |
| ConnectFourGame.OuterSumNext | Lab1/main.py:92-115 | an outer loop iteration adds one row of windows |
| ConnectFourGame.ConnectFour.constructor | Lab1/main.py:14-19 | an empty board, the game not over, turn 0 |
| ConnectFourGame.ConnectFour.DropPiece | Lab1/main.py:24-25 | the board gets the piece at (row, col); nothing else changes |
| ConnectFourGame.ConnectFour.IsValidLocation | Lab1/main.py:27-28 | legal exactly when the top cell of the column is empty |
| ConnectFourGame.ConnectFour.GetNextOpenRow | Lab1/main.py:30-33 | the lowest empty row of the column, or None for a full column |
| ConnectFourGame.ConnectFour.FindRun | Lab1/main.py:38-65 | one direction's scan finds a run exactly when four of the piece lie in a row in that direction |
| ConnectFourGame.ConnectFour.WinningMove | Lab1/main.py:38-65 | true exactly when the piece has four in a row in some direction |
| ConnectFourGame.ConnectFour.SumWindows | Lab1/main.py:91-115 | one direction's double loop sums that direction's window scores |
| ConnectFourGame.ConnectFour.ScorePosition | Lab1/main.py:83-117 | the heuristic: 3 × centre pieces plus all window scores |
| ConnectFourGame.ConnectFour.GetValidLocations | Lab1/main.py:169-174 | the list of legal columns |
| ConnectFourGame.ConnectFour.IsTerminalNode | Lab1/main.py:119-120 | a win for either player or no legal column |
| ConnectFourGame.ConnectFour.Minimax | Lab1/main.py:122-167 | the search restores the board and returns the alpha–beta result on the game tree (see FullWindow, BestColumnOptimal) |
| ConnectFourGame.ConnectFour.MaxSearch | Lab1/main.py:135-150 | the maximiser's branch computes the alpha–beta loop over the tree's moves and restores the board |
| ConnectFourGame.ConnectFour.MinSearch | Lab1/main.py:152-167 | the minimiser's branch computes the alpha–beta loop over the tree's moves and restores the board |
| ConnectFourGame.ConnectFour.ChildScore | Lab1/main.py:139-143 | copying the board, dropping, recursing and restoring gives the child's value and leaves the board as it was |
| ConnectFourGame.ConnectFour.ScoreDrop | Lab1/main.py:181-183 | scoring a trial drop on a copy leaves the board as it was |
| ConnectFourGame.ConnectFour.PickBestMove | Lab1/main.py:176-190 | the method computes `pick_best_move` and leaves the board as it was (see PickBestMoveFacts) |
| Board.IsValidLocation | Lab1/main.py:27-28 | a column is playable exactly when its top cell is empty |
| Board.FirstOpen | Lab1/main.py:30-33 | the first empty row of the column at or above r, or None; a returned row lies between r and the top |
| Board.OpenRow | Lab1/main.py:30-33 | `get_next_open_row`: the lowest empty row, or None for a full column (where the Python falls through and returns None); a returned row is on the grid |
| Board.ValidLocations | Lab1/main.py:169-174 | the playable columns in ascending order, as the loop appends them |
| Board.Opponent | Lab1/main.py:69 | the other piece: 1 for piece 2 and 2 otherwise |
| Board.EvaluateWindow | Lab1/main.py:67-81 | 100 for four own pieces, 5 for three and an empty cell, 2 for two and two empty cells, minus 4 when the opponent has three and an empty cell |
| Board.HasFour | Lab1/main.py:38-65 | some horizontal, vertical, rising or falling run of four, starting where the source's loops look, holds the piece |
| Board.DirectionScore | Lab1/main.py:92-115 | the sum of the window scores of one direction, in the nested loops' order |
| Board.ScoreOf | Lab1/main.py:83-117 | three points per own piece in the centre column, plus the window scores of all four directions |
| Search.IsTerminal | Lab1/main.py:119-120 | a node is terminal when either player has four in a row or no column is playable |
| Search.PieceOf | Lab1/main.py:141 | the maximiser drops piece 2 and the minimiser piece 1 |
| Search.GameTree | Lab1/main.py:122-167 | the tree `minimax` explores: a leaf with the static score of lines 125-134, or one move per playable column, ascending, with alternating players |
| Search.MinimaxResult | Lab1/main.py:122-167 | the column and value `minimax` returns: alpha–beta over the game tree of the grid |
| Search.MinimaxValue | Lab1/main.py:122-167 | the unpruned minimax value of the grid's game tree, the reference the alpha–beta results are compared with |
| Search.ScoreAfter | Lab1/main.py:181-185 | the static score of the grid after the piece drops into the column |
| Search.PickFrom | Lab1/main.py:179-188 | from the i-th column on, the best column replaces the current one only on a strictly greater score |
| Search.PickBestMove | Lab1/main.py:176-190 | None when no column is playable (the `random.choice([])` error), otherwise the scan of every playable column from score -10000 |
| GameTrees.AlphaBeta | Lab1/main.py:122-167 | the column and value of the pruned search: a leaf's score with no column, or the maximising or minimising loop |
| GameTrees.MaxLoop | Lab1/main.py:137-150 | a child's value replaces the best only when strictly greater, alpha follows the best, and the loop stops once alpha reaches beta |
| GameTrees.MinLoop | Lab1/main.py:154-167 | a child's value replaces the best only when strictly smaller, beta follows the best, and the loop stops once alpha reaches beta |
| GameTrees.Minimax | Lab1/main.py:122-167 | the unpruned minimax value of a tree: a leaf's score, or the maximum or minimum of the children's values |
| GameTrees.MaxOf | Lab1/main.py:137-150 | the largest of a start value and the minimax values of the children from i on |
| GameTrees.MinOf | Lab1/main.py:154-167 | the smallest of a start value and the minimax values of the children from i on |
| LSystem.Step | Lab2/lsysem.py:10-13 | one rewriting pass: each `F` becomes the rule's right-hand side and every other symbol stays |
| LSystem.Iterate | Lab2/lsysem.py:10-13 | a string after k rewriting passes; the script uses the axiom and three passes |
| Sorters.Swap | Lab3/main.py:22 | the tuple swap exchanges places i and k and leaves every other place alone |
| Sorters.SelectStep | Lab3/main.py:17-22 | outer iteration i swaps the leftmost minimum of the unsorted suffix into place i |
| Sorters.SelectAfter | Lab3/main.py:16-24 | the list after the first n outer iterations |
| Sorters.SelectionSnapshots | Lab3/main.py:23 | one copy of the list after each outer iteration, in order |
| Sorters.Merged | Lab3/main.py:37-50 | the merge takes the smaller head first and, on equal heads, the right one, because of the strict `<` |
| Sorters.MergeSort | Lab3/main.py:27-35 | lists of length at most 1 are returned as they are; longer ones are split at len // 2, sorted and merged |
| Sorters.MergeTrace | Lab3/main.py:27-50 | the snapshots one call appends: the left half's, the right half's, then the merged list |
| Sorters.MinsOfNonEmpty | Lab3/main.py:70 | the minimum of every non-empty chunk, in chunk order |
| Sorters.Popped | Lab3/main.py:74-76 | the chunks after the head of chunk idx is taken, with that chunk removed once it is empty |
| Sorters.Flatten | Lab3/main.py:69-76 | the chunks written one after another, the input the chunk merge sorts |
| Sorters.FlattenElements | Lab3/main.py:69-76 | the concatenated chunks hold exactly the elements of all the chunks |
| Insertion.InsertStep | Lab3/insert.py:10-17 | outer iteration i moves the key to just after the last earlier element that is not greater, and the elements it passes move one place right |
| Insertion.After | Lab3/insert.py:10-17 | the list after outer iterations 1 to i−1 |
| Insertion.Final | Lab3/insert.py:10-17 | the list at the end of `sort`; an empty list is left alone |
| Insertion.Snapshots | Lab3/insert.py:28-36 | one copy of the list after each outer iteration, in order |
| Insertion.AllSnapshots | Lab3/insert.py:28-36 | every snapshot the tracked `sort` appends to `steps` |
| Substring.MatchAt | Lab4/main.py:14-16 | the pattern occurs in the text starting at i |
| Substring.MatchesBelow | Lab4/main.py:10-17 | the match starts below hi, in ascending order, the list the naive search builds |
| Substring.Get | Lab4/main.py:39 | `dict.get`: the stored shift, or the default when the character is absent |
| HuffmanTree.RemoveAt | Lab5/main.py:26-27 | the heap with the node at position k removed |
| HuffmanTree.MergeStep | Lab5/main.py:26-33 | one loop pass pops two least-frequency nodes and pushes their parent, whose frequency is their sum |
| HuffmanTree.BuildTree | Lab5/main.py:25-35 | the node left as `heap[0]` once merges have reduced the heap to one node |
| HuffmanTree.Leaves | Lab5/main.py:21-35 | the characters at the leaves of a tree, with multiplicity |
| HuffmanCodes.CodeTable | Lab5/main.py:37-46 | every leaf's character mapped to the path to it, `0` for left and `1` for right, after the given prefix |
| Huffman.Encode | Lab5/main.py:55 | the codes of the text's characters, one after another |
| Huffman.TreeFor | Lab5/main.py:50-53 | the tree `compress` builds from the text's character counts |
| BitStrings.ValueOf | Lab5/main.py:66 | `int(s, 2)`, most significant digit first |
| BitStrings.BitsOf | Lab5/main.py:60 | the n low binary digits of v, zero-filled on the left, as `"{0:08b}".format` writes them |
| BitStrings.ByteOf | Lab5/main.py:63-66 | the value of at most eight binary digits, which is a byte |
| BitStrings.Pack | Lab5/main.py:63-66 | one byte for every run of eight characters, and one more for a shorter run at the end |

## Left out

- `Lab1/main.py` `GameGUI`, `choose_game_mode`, `print_board` and all pygame drawing and input: these are I/O with no algorithmic content.
- `Lab1/main.py` `random.choice`: the class methods start from the first playable column rather than a random one. The reference functions take the starting column as a parameter, and `GameTrees.InitialColumnIrrelevant` and `Search.PickInitialIrrelevant` prove that any starting column gives the same result.
- `Lab1/main.py` numpy: the board is modelled as integers in a `seq<seq<int>>` rather than a float array. Copy-then-drop is modelled as a drop followed by a restore of the field.
- `Lab1/main.py` `math.inf`: modelled by the `Bound` datatype, so infinities compare as in Python.
- ConnectFourGame.ConnectFour.WinningMove: `winning_move` returns `True` or falls off the end with `None`. The model returns `false` for `None`, which is falsy in every use.
- ConnectFourGame.ConnectFour.DropPiece: requires an in-range cell. Python would also accept negative indices, but no caller passes one.
- ConnectFourGame.ConnectFour.IsValidLocation: requires 0 ≤ col < 7. Every caller iterates over `range(COLUMN_COUNT)` or a valid location.
- `Lab1/main.py` turn and game-over handling in `run_game`: this is game flow driven by the GUI; the fields are modelled and kept unchanged by the search.
- `Lab2/lsysem.py` turtle calls: they are collected as a list of `Command` values instead of being drawn, and the screen and tracer setup is left out.
- `Lab2/alg.py` is not part of this model.
- `Lab3/main.py` `sort_file` chunk reading and `out.write`: file I/O. The written lines become the returned list, and the chunks are a parameter.
- Sorters.MergeChunks: requires every chunk to be sorted and non-empty, which is what `sort_file` passes, since `readlines` chunks are non-empty and each is sorted.
- `Lab3/main.py` and `Lab3/insert.py` element type: lines are strings in the source and integers here. Only their total order is used.
- `Lab3/insert.py` stability: with integer elements, equal elements cannot be told apart. The stable placement itself is stated by `Insertion.ScanDown` and `Insertion.InsertStepPlaces`: the key goes after every element ≤ it.
- `Lab3/insert.py` `read_file`, `write_sorted_file` and `VisualizedInsertionSort`: file I/O and printing. The constructors take the lines directly.
- `Lab3/main.py` timing and the benchmark driver: clocks and I/O.
- `Lab4/main.py` `read_fasta`, `main` and timing: file I/O and clocks. The genome is a parameter.
- Substring.BmhSearch: requires a non-empty pattern. With an empty pattern the source loops forever on non-empty text and raises IndexError on empty text. `find_longest_cat_sequence` only passes non-empty patterns.
- `Lab5/main.py` `compress_file`, `decompress_file` and `calculate_compression_ratio`: file I/O and a floating-point ratio. Bytes are modelled as a sequence of `Byte`.
- `Lab5/main.py` `heapq` order: the heap is modelled as a list from which a leftmost minimum-frequency node is popped. `heapq` may break frequency ties differently, which can give a different tree of the same kind. This affects only results about the tree `compress` builds. `HuffmanCodes.CodeTablePrefixFree` holds for every tree with distinct leaves, and `Huffman.FrameRoundTrip` for every decodable table that covers the text, whatever the tie rule. Only `Huffman.RoundTrip`, which goes through `Huffman.TreeFor`, depends on the modelled tie rule.
- Huffman.Decompress: requires an injective table. The source's reversed dict would keep the last character for a duplicated code; every table `compress` produces is injective (`HuffmanCodes.RootCodes`).
- Huffman.DecompressF: requires an injective table, for the same reason as Huffman.Decompress.
- `Lab5/main.py` `build_huffman_codes` on `None`: the model's tree type has no null child. The `node is None` guard, line 38, is only hit for a missing tree, which `compress` never passes.
