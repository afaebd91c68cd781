# StableSort algorithms in Dafny

This project models the algorithm classes of the StableSort collection and proves
what they compute. The collection holds Java code and one JavaScript file. It covers:

- three Fenwick (binary indexed) trees and the light-bulb toggling built on the XOR one;
- a generic segment tree and a max segment tree;
- a disjoint-set forest with path compression and union by size;
- Knuth-Morris-Pratt search;
- 0/1 knapsack, in Java and in JavaScript;
- matrix-chain multiplication, both recursive and bottom-up;
- patience-sort longest increasing subsequence;
- two versions of the longest run of consecutive values;
- the k-sorted-lists minimum range;
- the two-way and k-way partition searches;
- the pots-of-gold game with its two strategies;
- a k-d tree with nearest-neighbour search;
- the duration text of `TimeUtils`;
- `ComparablePair`.

Each Java class becomes a Dafny module in its own file. Java objects become immutable values. A method that mutates an array
returns the new array with its result. Recursion with a memo threads the map through
the calls. `null` becomes `Option`. An exception becomes the `Err` of a `Result` or a `None`, or the input that throws is excluded by a `requires` listed under Left out.

| module | file | models |
|---|---|---|
| `ReversibleOperator` | operator.dfy | `ReversableOperator`: apply/undo and the laws the trees need |
| `Bits`, `FenwickSpec` | lowbit.dfy, fenwick_spec.dfy | lowest set bit; what a Fenwick slot holds |
| `FenwickTree` | fenwick_tree.dfy | the generic `FenwickTree` |
| `FenwickTreeSum`, `FenwickTreeXor` | fenwick_sum.dfy, fenwick_xor.dfy | the int and boolean trees |
| `RangeToggle` | toggle.dfy | `ToggleLightBulbs` and `DistrictChallenge` |
| `SegmentSpec`, `SegmentTree`, `SegmentTreeMax` | segment_spec.dfy, segment_tree.dfy, segment_tree_max.dfy | the segment trees |
| `DisjointSet` | disjoint_set.dfy | `DisjointSet` |
| `KnuthMorrisPratt` | kmp.dfy | `KnuthMorrisPratt` |
| `Knapsack` | knapsack.dfy | `Knapsack01` and `01knapsack.js` |
| `MatrixCost`, `Text` | mx_cost.dfy, text.dfy | `MxCost`, and the decimal text of `printSeq` |
| `MatrixChainRecursive`, `MatrixChainDP` | matrix_chain_recursive.dfy, matrix_chain_dp.dfy | both matrix-chain solvers |
| `LongestIncreasingSubsequence` | lis.dfy | patience sorting |
| `LongestRun` | longest_run.dfy | `LongestSubsequenceLength` |
| `MinRange` | min_range.dfy | `KSortedListsMinRange` |
| `Sums`, `PartitionProblem`, `PartitionToK`, `PartitionMemo` | sums.dfy, partition.dfy, partition_k.dfy, partition_memo.dfy | the partition searches |
| `PotsOfGold`, `PotsRecursive`, `PotsOddEven` | pots_of_gold.dfy, pots_recursive.dfy, pots_odd_even.dfy | the game and its strategies |
| `KdTree` | kdtree.dfy | `KDTree`, `KDNode`, `KDPoint` |
| `TimeUtils` | time_utils.dfy | the duration strings |
| `ComparablePair` | comparable_pair.dfy | `ComparablePair` |

Each operation gets an independent partner, and a lemma proves the two agree for all inputs:

- The Fenwick trees are compared with plain folds over the array.
- Both segment trees are compared with left-to-right folds.
- The disjoint set is compared with the root each element reaches.
- The search algorithms are compared with exhaustive definitions of "best":
  - every 0/1 choice (knapsack);
  - every bracketing (matrix chain);
  - every increasing subsequence (LIS);
  - every covering range (min range);
  - every subset (partition);
  - every stored point (k-d tree);
  - the game value (pots of gold).

Where the source goes wrong, the model keeps the code as written next to a corrected version. Both are listed under Findings.

Two behaviours of `KnuthMorrisPratt` are proved as they are, not reported as defects:

- `calcPrefixLen` resets to 0 on a mismatch instead of falling back to a shorter border. Its entries are borders, but not always the longest ones (`NotLongestBorder`).
- As a consequence, `search` reports only real occurrences in increasing order, but it can miss occurrences. The missed one may overlap a reported one (`SearchMissesOverlap`), or it may be the only one (`SearchMissesOccurrence`).

## Model

| member | source | states |
|---|---|---|
| ReversibleOperator.AdditionLawful | src/com/stablesort/function/ReversableOperator.java:3-25 | addition with subtraction as undo meets the reversal law, undo restores every value, and apply is associative and commutative |
| ReversibleOperator.ExclusiveLawful | src/com/stablesort/function/ReversableOperator.java:3-25 | XOR with itself as undo meets the same laws |
| ReversibleOperator.MaxHasNoUndo | src/com/stablesort/function/ReversableOperator.java:3-5 | no undo of any kind makes max reversible |
| ReversibleOperator.MinHasNoUndo | src/com/stablesort/function/ReversableOperator.java:3-5 | no undo of any kind makes min reversible |
| ReversibleOperator.UndoOrderMatters | src/com/stablesort/function/ReversableOperator.java:17-25 | undo takes the combined value first; with the operands swapped, addition's undo gives -a instead of a |
| Bits.LowBit | src/com/stablesort/fenwick/FenwickTree.java:32 | the lowest set bit of a positive i lies between 1 and i |
| Bits.ParentExp | src/com/stablesort/fenwick/FenwickTree.java:88-94 | the parent i + lowbit(i) has strictly more trailing zeros, so the update walk climbs to ever larger blocks |
| Bits.ClearExp | src/com/stablesort/fenwick/FenwickTree.java:45-53 | clearing the lowest set bit leaves strictly more trailing zeros, so the query walk drops a bit each step |
| FenwickSpec.PartialIsBlock | src/com/stablesort/fenwick/FenwickTree.java:31-36 | once the build sweep has passed slot p, the slot holds the fold of exactly the positions of its block |
| FenwickSpec.TreeUnique | src/com/stablesort/fenwick/FenwickTree.java:25-37 | an array and slot 0 determine the tree; no two different trees describe one array |
| FenwickTree.Build | src/com/stablesort/fenwick/FenwickTree.java:25-37 | the constructor's sweep yields the Fenwick tree of the array, with slot 0 copied |
| FenwickTree.QueryIsPrefix | src/com/stablesort/fenwick/FenwickTree.java:39-55 | query(i) is the fold of ar[1..i], and null for i == 0 |
| FenwickTree.QueryStepsBound | src/com/stablesort/fenwick/FenwickTree.java:43-55 | for i below 2^n the query loop ends within n iterations |
| FenwickTree.QueryRange | src/com/stablesort/fenwick/FenwickTree.java:57-69 | query(i, j) fails exactly when i > 1 and j == 0, where undo is handed the null query(0); for i <= 1 it is query(j) |
| FenwickTree.QueryRangeFold | src/com/stablesort/fenwick/FenwickTree.java:57-69 | on a non-empty range query(i, j) is the fold of ar[i..j] |
| FenwickTree.ValueAtAsWritten | src/com/stablesort/fenwick/FenwickTree.java:71-81 | valueAt as written fails exactly for i <= 1 |
| FenwickTree.ValueAtIsElement | src/com/stablesort/fenwick/FenwickTree.java:71-81 | the corrected valueAt(i) is element i; from i = 2 on the written one agrees |
| FenwickTree.ValueAtOneFails | src/com/stablesort/fenwick/FenwickTree.java:76-81 | valueAt(1) as written fails on every tree, though query(1) has a value |
| FenwickTree.Propagate | src/com/stablesort/fenwick/FenwickTree.java:83-94 | the private apply walk leaves every slot below i alone and does nothing from outside the tree |
| FenwickTree.PropagateKeepsTree | src/com/stablesort/fenwick/FenwickTree.java:83-94 | apply(i, k) leaves the tree of the array with k combined into position i |
| FenwickTree.UpdateAsWritten | src/com/stablesort/fenwick/FenwickTree.java:96-104 | update as written fails exactly for i <= 1 |
| FenwickTree.UpdateSetsElement | src/com/stablesort/fenwick/FenwickTree.java:96-104 | update(i, v) yields the tree of the array with position i set to v; from i = 2 on the written one agrees |
| FenwickTree.UpdateQueries | src/com/stablesort/fenwick/FenwickTree.java:96-104 | after update(i, v): valueAt(i) is v, queries below i are unchanged, and every later query absorbs undo(v, old) |
| FenwickTree.Demo | src/com/stablesort/fenwick/FenwickTree.java:106-130 | the demonstration's values 9 and 16, and 34 after update(2, 20) |
| FenwickTreeSum.Make | src/com/stablesort/fenwick/FenwickTreeSum.java:26-37 | make builds the tree of the array, and every sum(i) is then the prefix total |
| FenwickTreeSum.SumIsTotal | src/com/stablesort/fenwick/FenwickTreeSum.java:40-51 | sum(i) is ar[1] + ... + ar[i], and 0 for i == 0 |
| FenwickTreeSum.RangeAndValue | src/com/stablesort/fenwick/FenwickTreeSum.java:53-70 | sum(i, j) is the total of ar[i..j]; valueAt(i) is ar[i] |
| FenwickTreeSum.AddShiftsSums | src/com/stablesort/fenwick/FenwickTreeSum.java:72-82 | add(i, k) raises sum(j) by k exactly for j >= i, and keeps the tree of the changed array |
| FenwickTreeSum.UpdateSetsValue | src/com/stablesort/fenwick/FenwickTreeSum.java:84-92 | after update(i, v) valueAt(i) is v and every other valueAt is unchanged |
| FenwickTreeSum.Demo | src/com/stablesort/fenwick/FenwickTreeSum.java:94-103 | the demonstration's valueAt(3) == 9 and sum(1, 3) == 16 |
| FenwickTreeXor.Make | src/com/stablesort/fenwick/FenwickTreeXor.java:17-33 | make builds the tree of the array, and every xor(i) is then the prefix parity |
| FenwickTreeXor.XorIsParity | src/com/stablesort/fenwick/FenwickTreeXor.java:35-46 | xor(i) is ar[1] ^ ... ^ ar[i], false for i == 0 |
| FenwickTreeXor.RangeAndValue | src/com/stablesort/fenwick/FenwickTreeXor.java:48-65 | xor(i, j) equals a separate left-to-right scan of ar[i..j]; valueAt(i) is ar[i] |
| FenwickTreeXor.UpdateFlips | src/com/stablesort/fenwick/FenwickTreeXor.java:67-77 | update(i, k) XORs k into element i: every xor(j) with j >= i flips when k is true |
| FenwickTreeXor.UpdateFalse | src/com/stablesort/fenwick/FenwickTreeXor.java:67-77 | update(i, false) changes no slot |
| FenwickTreeXor.UpdateTwice | src/com/stablesort/fenwick/FenwickTreeXor.java:67-77 | the same update applied twice restores every slot |
| RangeToggle.UpdateTrue | src/com/stablesort/fenwick/FenwickTreeXor.java:67-77 | update(i, true) flips the change-point array at i and flips xor(k) exactly for k >= i |
| RangeToggle.ToggleFlipsRange | src/com/stablesort/challenge/ToggleLightBulbs.java:33-40 | toggle(i, j) flips isOn(k) exactly for i <= k <= j and leaves every other bulb alone |
| RangeToggle.ToggleToEnd | src/com/stablesort/challenge/ToggleLightBulbs.java:37-40 | a range ending at the last bulb flips from i on; the second update falls outside the tree |
| RangeToggle.ToggleTwice | src/com/stablesort/challenge/DistrictChallenge.java:41-44 | toggling the same range twice restores the tree |
| RangeToggle.StartsOff | src/com/stablesort/challenge/DistrictChallenge.java:33-39 | built from an all-false array every district is off |
| SegmentSpec.NodeCovers | src/com/stablesort/segtree/SegmentTree.java:44-46 | every node holds f folded over the consecutive run of elements below it |
| SegmentSpec.SegTreeUnique | src/com/stablesort/segtree/SegmentTree.java:29-47 | an array and slot 0 determine the segment tree completely |
| SegmentTree.Build | src/com/stablesort/segtree/SegmentTree.java:29-47 | the constructor yields the segment tree of the array: leaves copied, each inner node f of its children |
| SegmentTree.Update | src/com/stablesort/segtree/SegmentTree.java:49-68 | update with its early exit yields the tree of the changed array and touches only the leaf and its ancestors |
| SegmentTree.UpdateStop | src/com/stablesort/segtree/SegmentTree.java:62-66 | stopping at the first unchanged ancestor already leaves every node correct |
| SegmentTree.ClimbFolds | src/com/stablesort/segtree/SegmentTree.java:88-100 | the query loop's invariant: the running result is the fold of what lies outside the current window, and the climb finishes the whole range |
| SegmentTree.QueryFolds | src/com/stablesort/segtree/SegmentTree.java:70-103 | for an associative, commutative f, query(from, to) is the fold of ar[from..to-1], null when empty |
| SegmentTree.QueryInOrderFolds | src/com/stablesort/segtree/SegmentTree.java:70-103 | with the two ends kept apart, associativity alone makes the query the in-order fold |
| SegmentTree.QueryMixesOrder | src/com/stablesort/segtree/SegmentTree.java:83-103 | under sequence concatenation the written query over [1],[2],[3],[4] gives [3, 1, 2] for (0, 3); the in-order query gives [1, 2, 3] |
| SegmentTreeMax.Build | src/com/stablesort/segtree/SegmentTreeMax.java:16-26 | the int constructor yields the max segment tree of the array |
| SegmentTreeMax.Update | src/com/stablesort/segtree/SegmentTreeMax.java:28-47 | update yields the tree of the changed array, touching only the leaf and its ancestors |
| SegmentTreeMax.MaxClimbIsClimb | src/com/stablesort/segtree/SegmentTreeMax.java:62-82 | the int loop computes what the generic loop computes under max, with Integer.MIN_VALUE for null |
| SegmentTreeMax.QueryIsMaximum | src/com/stablesort/segtree/SegmentTreeMax.java:49-82 | max(from, to) is at least every element of the range and equal to one of them; Integer.MIN_VALUE when empty |
| SegmentTreeMax.Demo | src/com/stablesort/segtree/SegmentTreeMax.java:84-91 | the main method's tree and its maximum 7 of elements 1..3 |
| DisjointSet.New | src/com/stablesort/djset/DisjointSet.java:19-22 | a fresh structure: each element alone in a set of size 1 |
| DisjointSet.Singletons | src/com/stablesort/djset/DisjointSet.java:19-22 | every element of a fresh structure is its own root and sole member |
| DisjointSet.Compress | src/com/stablesort/djset/DisjointSet.java:29-43 | find's walk reaches i's root, and compression only redirects non-roots on the way to that root |
| DisjointSet.RedirectKeepsSets | src/com/stablesort/djset/DisjointSet.java:37-40 | path compression keeps every element's root, every size and the largest set |
| DisjointSet.Find | src/com/stablesort/djset/DisjointSet.java:24-43 | find(i) returns i's root and a state with the same sets |
| DisjointSet.Link | src/com/stablesort/djset/DisjointSet.java:56-77 | linking root l under w moves exactly l's set to w and keeps the structure's invariant |
| DisjointSet.Union | src/com/stablesort/djset/DisjointSet.java:50-78 | union moves i's and k's sets to the winner root and leaves every other set where it was |
| DisjointSet.UnionJoins | src/com/stablesort/djset/DisjointSet.java:50-78 | after union(i, k) two elements are together iff they were, or each was with i or with k |
| DisjointSet.UnionBySize | src/com/stablesort/djset/DisjointSet.java:56-77 | the strictly smaller set joins the larger one's root (i's set joins on a tie), and the sizes add |
| DisjointSet.UnionMembers | src/com/stablesort/djset/DisjointSet.java:50-78 | the new set of i is the disjoint union of the two old sets |
| DisjointSet.MaxSetSize | src/com/stablesort/djset/DisjointSet.java:80-82 | maxSetSize is the size of some set and no set is larger |
| DisjointSet.MinLoop | src/com/stablesort/djset/DisjointSet.java:85-91 | the loop finds the largest entry below -1, or keeps its start |
| DisjointSet.MinSetSizeIsSmallest | src/com/stablesort/djset/DisjointSet.java:84-94 | minSetSize is the smallest size among sets of at least two, and Integer.MIN_VALUE when there is none |
| DisjointSet.SelectFrom | src/com/stablesort/djset/DisjointSet.java:114-118 | the selection loop collects exactly the elements from i on whose root is the given one, and keeps the sets |
| DisjointSet.SelectSet | src/com/stablesort/djset/DisjointSet.java:105-121 | selectSet(k) returns exactly the elements of k's set |
| DisjointSet.SelectMaxSet | src/com/stablesort/djset/DisjointSet.java:101-103 | selectMaxSet returns one whole set, and no set is larger |
| DisjointSet.FindAsWritten | src/com/stablesort/djset/DisjointSet.java:29-43 | find as written, following parents only while ar[i] > 0, stays inside the array |
| DisjointSet.RootTestMisreadsZero | src/com/stablesort/djset/DisjointSet.java:32-35 | after union(1, 0) on two singletons the written find(1) stops at 1 and reports a different set from find(0); the corrected find reaches 0 |
| DisjointSet.Demo | src/com/stablesort/djset/DisjointSet.java:123-137 | the main method's five unions end with largest set {1, 2, 6, 7} of size 4 and smallest size 2 |
| KnuthMorrisPratt.PrefixFromBorders | src/com/stablesort/stringmatch/KnuthMorrisPratt.java:25-33 | each entry calcPrefixLen's loop writes is a border of its prefix |
| KnuthMorrisPratt.PrefixTable | src/com/stablesort/stringmatch/KnuthMorrisPratt.java:13-36 | the table starts -1, 0, and every later entry j is a border length of pattern[..j] shorter than j |
| KnuthMorrisPratt.TableExample | src/com/stablesort/stringmatch/KnuthMorrisPratt.java:13-17 | the documented table of the comment's example |
| KnuthMorrisPratt.NotLongestBorder | src/com/stablesort/stringmatch/KnuthMorrisPratt.java:25-33 | for "abaab" the last two entries are 0, though longer borders exist |
| KnuthMorrisPratt.Found | src/com/stablesort/stringmatch/KnuthMorrisPratt.java:59-63 | a full match is an occurrence, and the table sends the search to a prefix still matched |
| KnuthMorrisPratt.Missed | src/com/stablesort/stringmatch/KnuthMorrisPratt.java:64-70 | on a mismatch the table sends the search to -1 or a shorter prefix still matched |
| KnuthMorrisPratt.SearchFrom | src/com/stablesort/stringmatch/KnuthMorrisPratt.java:54-71 | every index the loop reports is an occurrence, in strictly increasing order, past the current partial match |
| KnuthMorrisPratt.Search | src/com/stablesort/stringmatch/KnuthMorrisPratt.java:38-74 | search reports only start indices of occurrences, strictly increasing |
| KnuthMorrisPratt.SearchMissesOverlap | src/com/stablesort/stringmatch/KnuthMorrisPratt.java:44-74 | "abaab" occurs in "abaabaab" at 0 and 3, and search reports only 0 |
| KnuthMorrisPratt.SearchMissesOccurrence | src/com/stablesort/stringmatch/KnuthMorrisPratt.java:44-74 | "abaac" occurs in "abaabaac" only at 3, and search reports nothing |
| KnuthMorrisPratt.Demo | src/com/stablesort/stringmatch/KnuthMorrisPratt.java:76-83 | the main method's pattern does not occur in its text, and its table |
| Knapsack.Cell | src/com/stablesort/challenge/Knapsack01.java:34-53 | row 0 is empty, and an item that does not fit is never kept |
| Knapsack.CellStep | src/com/stablesort/challenge/Knapsack01.java:39-51 | an item is kept iff it fits and strictly improves on the row above; the entry never drops below that row |
| Knapsack.Retrieve | src/com/stablesort/challenge/Knapsack01.java:55-65 | the retrieval yields a 0/1 choice within the capacity worth exactly the table entry |
| Knapsack.Run | src/com/stablesort/challenge/Knapsack01.java:19-69 | run returns a 0/1 vector of the items within the capacity |
| Knapsack.CellIsOptimal | src/com/stablesort/challenge/Knapsack01.java:30-53 | no choice of the first i items within capacity w beats T[i][w] |
| Knapsack.RunIsOptimal | src/com/stablesort/challenge/Knapsack01.java:19-69 | run's items are worth the table's answer, and no packing within the capacity is worth more |
| Knapsack.Demo | src/com/stablesort/challenge/Knapsack01.java:71-78 | the example keeps items 1 and 3, worth 100 |
| Knapsack.JsKnapsack | js/01knapsack/01knapsack.js:7-52 | knapsack answers undefined exactly when wMax < 0 leaves the table without columns |
| Knapsack.JsCellIsCell | js/01knapsack/01knapsack.js:23-37 | on the Java code's inputs, the JavaScript table, with its NaN comparisons, agrees with the Java table entry by entry |
| Knapsack.JsSkipsUnweighed | js/01knapsack/01knapsack.js:25-35 | items past the end of W, whose weight is undefined, are never kept |
| Knapsack.JsKnapsackIsOptimal | js/01knapsack/01knapsack.js:7-53 | knapsack returns the Java answer, the best value of any packing |
| Knapsack.JsNegativeWeight | js/01knapsack/01knapsack.js:26-35 | a negative weight passes the fit test, so the item can be kept where the column it reads exists |
| LongestIncreasingSubsequence.BinarySearchHostPileIdx | src/com/stablesort/challenge/LongestIncreasingSubsequence.java:44-77 | the binary search returns a pile whose top is at least v, or -1; on increasing tops it is the first such pile |
| LongestIncreasingSubsequence.DealCard | src/com/stablesort/challenge/LongestIncreasingSubsequence.java:107-125 | the loop body puts v on its host pile or a new one, linked to the top of the pile to its left |
| LongestIncreasingSubsequence.Deal | src/com/stablesort/challenge/LongestIncreasingSubsequence.java:106-126 | dealing keeps every pile non-empty and adds a pile exactly when v has no host |
| LongestIncreasingSubsequence.RetrieveSeq | src/com/stablesort/challenge/LongestIncreasingSubsequence.java:79-97 | retrieveSeq fills the array from the right with the chain from the rightmost pile's bottom card, zeros before it |
| LongestIncreasingSubsequence.Run | src/com/stablesort/challenge/LongestIncreasingSubsequence.java:99-129 | run returns a strictly increasing subsequence of ar, and no strictly increasing subsequence is longer |
| LongestIncreasingSubsequence.DealKeepsOrder | src/com/stablesort/challenge/LongestIncreasingSubsequence.java:106-126 | dealing keeps the tops increasing left to right and every pile descending |
| LongestIncreasingSubsequence.NewCardOk | src/com/stablesort/challenge/LongestIncreasingSubsequence.java:118-125 | the new card on pile h ends an increasing subsequence of length h + 1 |
| LongestIncreasingSubsequence.PatienceIsIncreasing | src/com/stablesort/challenge/LongestIncreasingSubsequence.java:18-20 | the answer is a strictly increasing subsequence with one value per pile |
| LongestIncreasingSubsequence.PatienceIsLongest | src/com/stablesort/challenge/LongestIncreasingSubsequence.java:7-20 | no strictly increasing subsequence is longer than there are piles |
| LongestIncreasingSubsequence.Demo | src/com/stablesort/challenge/LongestIncreasingSubsequence.java:131-135 | the main method's array yields 5, 8, 9, 12 |
| LongestRun.Sort | src/com/stablesort/challenge/interview/LongestSubsequenceLength.java:33 | Arrays.sort: ascending, the same values as often each |
| LongestRun.MaxSeqLenV1AsWritten | src/com/stablesort/challenge/interview/LongestSubsequenceLength.java:29-33 | the written maxSeqLenV1 hands the caller's array back sorted in place: ascending, with the same values as often each |
| LongestRun.MaxSeqLenV1 | src/com/stablesort/challenge/interview/LongestSubsequenceLength.java:29-33 | the corrected maxSeqLenV1 leaves the caller's array sorted in the same way |
| LongestRun.ScanAsWrittenSound | src/com/stablesort/challenge/interview/LongestSubsequenceLength.java:35-47 | the written scan's current run is present in the set, and its maximum is 0 or a real run of at least two |
| LongestRun.MaxSeqLenV1AsWrittenBelow | src/com/stablesort/challenge/interview/LongestSubsequenceLength.java:29-50 | the written maxSeqLenV1 never exceeds the longest run and is never 1 |
| LongestRun.MaxSeqLenV1AsWrittenDistinct | src/com/stablesort/challenge/interview/LongestSubsequenceLength.java:29-50 | without repeated values the written maxSeqLenV1 is the longest run, but 0 when that run has one value |
| LongestRun.DuplicateResets | src/com/stablesort/challenge/interview/LongestSubsequenceLength.java:38-46 | on 1, 2, 2, 3 the written version gives 2, though the run 1..3 is there |
| LongestRun.SingleValueMissed | src/com/stablesort/challenge/interview/LongestSubsequenceLength.java:35-49 | a single value gives 0 as written, though it is a run of 1 |
| LongestRun.MaxSeqLenV1IsLongest | src/com/stablesort/challenge/interview/LongestSubsequenceLength.java:21-50 | the corrected maxSeqLenV1 is the length of the longest run of consecutive values |
| LongestRun.ScansAgree | src/com/stablesort/challenge/interview/LongestSubsequenceLength.java:38-47 | without equal neighbours both scans keep the same run, and the written maximum misses only runs of 1 |
| LongestRun.MaxSeqLenV2AsWritten | src/com/stablesort/challenge/interview/LongestSubsequenceLength.java:57-88 | the written maxSeqLenV2 reports 0 or a run of at least three that no run of three or more exceeds |
| LongestRun.ReportsLongRunsMeans | src/com/stablesort/challenge/interview/LongestSubsequenceLength.java:57-88 | so as written it returns the longest run when that is at least 3, and 0 otherwise |
| LongestRun.PairMissed | src/com/stablesort/challenge/interview/LongestSubsequenceLength.java:70-85 | on 99, 100 the written maxSeqLenV2 returns 0 |
| LongestRun.RunStart | src/com/stablesort/challenge/interview/LongestSubsequenceLength.java:72-75 | walking down from any value reaches the start of its run |
| LongestRun.MaxSeqLenV2 | src/com/stablesort/challenge/interview/LongestSubsequenceLength.java:52-88 | the corrected maxSeqLenV2 returns the longest run |
| LongestRun.DocumentedExample | src/com/stablesort/challenge/interview/LongestSubsequenceLength.java:12-14 | the documented list's longest run has six values, and both versions of maxSeqLenV1 say so |
| MatrixCost.MultiplyBuilds | src/com/stablesort/matrixchain/MxCost.java:57-75 | multiply concatenates the factors' base matrices, and its product is compatible iff both factors are and the inner dimensions match |
| MatrixCost.Make | src/com/stablesort/matrixchain/MxCost.java:82-95 | make turns n + 1 dimensions into n base matrices, matrix i being dims[i] x dims[i + 1] |
| MatrixCost.MakeRoundTrip | src/com/stablesort/matrixchain/MxCost.java:82-95 | the dimensions can be read back from make's chain, and its neighbours are compatible |
| MatrixCost.PrintSeqCounts | src/com/stablesort/matrixchain/MxCost.java:97-114 | printSeq has one "*" and one pair of parentheses per multiplication |
| MatrixCost.PrintSeqExample | src/com/stablesort/matrixchain/MxCost.java:97-101 | the documented rendering "((1x3*3x5)*5x7)" |
| MatrixCost.Demo | src/com/stablesort/matrixchain/MxCost.java:116-123 | the main method's products cost 250 and 90 |
| MatrixChainRecursive.Cost | src/com/stablesort/matrixchain/MatrixChainMultiplicationRecursive.java:52-77 | the result has the first matrix's rows and the last one's columns |
| MatrixChainRecursive.Scan | src/com/stablesort/matrixchain/MatrixChainMultiplicationRecursive.java:65-74 | the split loop yields a product exactly when it has a split point, of the chain's shape |
| MatrixChainRecursive.ScanIsFirstMinimum | src/com/stablesort/matrixchain/MatrixChainMultiplicationRecursive.java:65-74 | the loop keeps the first split of least cost |
| MatrixChainRecursive.CostIsOptimal | src/com/stablesort/matrixchain/MatrixChainMultiplicationRecursive.java:52-77 | cost is a bracketing of the chain and no bracketing costs less |
| MatrixChainRecursive.MemoCost | src/com/stablesort/matrixchain/MatrixChainMultiplicationRecursive.java:79-112 | the memoised recursion returns what the plain one does and leaves a memo of solved sub-chains only |
| MatrixChainRecursive.MemoScan | src/com/stablesort/matrixchain/MatrixChainMultiplicationRecursive.java:99-108 | the memoised loop agrees with the plain loop |
| MatrixChainRecursive.PCostIsCost | src/com/stablesort/matrixchain/MatrixChainMultiplicationRecursive.java:27-50 | the int-array version computes the MxCost cost, capped at Integer.MAX_VALUE |
| MatrixChainRecursive.SmallExamples | src/com/stablesort/matrixchain/MatrixChainMultiplicationRecursive.java:116-117 | the documented costs 15 and 50 |
| MatrixChainRecursive.Example26000 | src/com/stablesort/matrixchain/MatrixChainMultiplicationRecursive.java:118 | the documented cost 26000 |
| MatrixChainRecursive.Example30000 | src/com/stablesort/matrixchain/MatrixChainMultiplicationRecursive.java:119 | the documented cost 30000 |
| MatrixChainRecursive.Example287 | src/com/stablesort/matrixchain/MatrixChainMultiplicationRecursive.java:120 | the documented cost 287 |
| MatrixChainRecursive.Example221 | src/com/stablesort/matrixchain/MatrixChainMultiplicationDP.java:76 | the documented cost 221 |
| MatrixChainDP.CostDP | src/com/stablesort/matrixchain/MatrixChainMultiplicationDP.java:28-49 | the bottom-up table returns what the plain and the memoised recursion return; an empty chain, on which Java throws, gives None |
| MatrixChainDP.Fill | src/com/stablesort/matrixchain/MatrixChainMultiplicationDP.java:37-46 | writing one finished sub-chain moves the table on to the next sub-chain of that length |
| MatrixChainDP.Advance | src/com/stablesort/matrixchain/MatrixChainMultiplicationDP.java:36-46 | a completed length starts the next one |
| MatrixChainDP.SmallCosts | src/com/stablesort/matrixchain/MatrixChainMultiplicationDP.java:71-72 | the documented costs 15 and 50 |
| MatrixChainDP.Cost26000 | src/com/stablesort/matrixchain/MatrixChainMultiplicationDP.java:73 | the documented cost 26000 |
| MatrixChainDP.Cost30000 | src/com/stablesort/matrixchain/MatrixChainMultiplicationDP.java:74 | the documented cost 30000 |
| MatrixChainDP.Cost287 | src/com/stablesort/matrixchain/MatrixChainMultiplicationDP.java:75 | the documented cost 287 |
| MatrixChainDP.Cost221 | src/com/stablesort/matrixchain/MatrixChainMultiplicationDP.java:76 | the documented cost 221 |
| MinRange.Poll | src/com/stablesort/challenge/KSortedListsMinRange.java:73-76 | poll returns a list whose queued value is smallest |
| MinRange.Loop | src/com/stablesort/challenge/KSortedListsMinRange.java:73-96 | the loop only ever replaces the range by a strictly narrower one |
| MinRange.LoopStep | src/com/stablesort/challenge/KSortedListsMinRange.java:73-96 | one iteration keeps the running maximum above every queued value and the range covering |
| MinRange.HeadBounds | src/com/stablesort/challenge/KSortedListsMinRange.java:57-71 | the start range runs from a smallest to a largest head |
| MinRange.StartInv | src/com/stablesort/challenge/KSortedListsMinRange.java:57-71 | the starting state meets the loop's invariant |
| MinRange.GetMinRangeCovers | src/com/stablesort/challenge/KSortedListsMinRange.java:39-99 | getMinRange returns lo <= hi holding a value of every list |
| MinRange.LoopNarrowest | src/com/stablesort/challenge/KSortedListsMinRange.java:73-96 | the loop ends no wider than any covering range it has not yet passed |
| MinRange.GetMinRangeNarrowest | src/com/stablesort/challenge/KSortedListsMinRange.java:39-99 | for sorted lists no covering range is narrower than the answer |
| MinRange.DocumentedExample | src/com/stablesort/challenge/KSortedListsMinRange.java:16-21 | the class comment's lists give [20, 24] |
| MinRange.MainExample | src/com/stablesort/challenge/KSortedListsMinRange.java:101-108 | main's lists give [7, 10] |
| PartitionProblem.AbsDiff | src/com/stablesort/challenge/partition/PartitionProblem.java:67-75 | absDiff is a - b or b - a, never negative, and 0 iff a == b |
| PartitionProblem.SelectIsChoice | src/com/stablesort/challenge/partition/PartitionProblem.java:32-54 | select returns the values at some choice of positions of ar[i..] |
| PartitionProblem.SelectWithin | src/com/stablesort/challenge/partition/PartitionProblem.java:32-54 | the result uses each position of ar[i..] at most once |
| PartitionProblem.SelectIsClosest | src/com/stablesort/challenge/partition/PartitionProblem.java:23-54 | no choice of positions comes closer to the target than select's |
| PartitionProblem.RestAsClose | src/com/stablesort/challenge/partition/PartitionProblem.java:23-25 | with half the total as target, the values left behind are just as close |
| PartitionProblem.SelectLast | src/com/stablesort/challenge/partition/PartitionProblem.java:34-53 | the last value is taken only when strictly closer than nothing |
| PartitionProblem.DocumentedExample | src/com/stablesort/challenge/partition/PartitionProblem.java:88-100 | the example selects 10 and 1, hitting 11 exactly |
| PartitionProblem.TieSkips | src/com/stablesort/challenge/partition/PartitionProblem.java:48-53 | on a tie the value is left out |
| PartitionToK.Partition | src/com/stablesort/challenge/partition/PartitionToKEqualSum.java:32-52 | success iff every target is used up; a failure restores targets and groups; values only move from targets to groups |
| PartitionToK.Place | src/com/stablesort/challenge/partition/PartitionToKEqualSum.java:37-49 | the same for the loop over targets |
| PartitionToK.PartitionComplete | src/com/stablesort/challenge/partition/PartitionToKEqualSum.java:21-52 | for non-negative values, whenever ar[i..] splits into the targets, the search succeeds |
| PartitionToK.PartitionSound | src/com/stablesort/challenge/partition/PartitionToKEqualSum.java:21-52 | for positive values a success records exactly ar[i..] in the groups |
| PartitionToK.Run1Correct | src/com/stablesort/challenge/partition/PartitionToKEqualSum.java:125-152 | for positive values run1 answers iff the array splits into k equal totals, and its groups are such a split |
| PartitionToK.Run1Splits | src/com/stablesort/challenge/partition/PartitionToKEqualSum.java:125-152 | a true answer comes with groups totalling sum / k each |
| PartitionToK.PartitionAsWritten | src/com/stablesort/challenge/partition/PartitionToKEqualSum.java:32-52 | the written partition throws out of range or agrees with the corrected one |
| PartitionToK.Run1AsWrittenThrows | src/com/stablesort/challenge/partition/PartitionToKEqualSum.java:131-152 | as written run1 throws on every positive array that does split |
| PartitionToK.OnesThrow | src/com/stablesort/challenge/partition/PartitionToKEqualSum.java:32-33 | on {1, 1} with k = 2 the split exists and the written run1 throws |
| PartitionToK.EmptyThrows | src/com/stablesort/challenge/partition/PartitionToKEqualSum.java:32-33 | the empty array splits into k empty groups, but the written run1 reads ar[0] |
| PartitionToK.DocumentedSplit | src/com/stablesort/challenge/partition/PartitionToKEqualSum.java:186 | the documented array splits into four groups of 5 |
| PartitionMemo.Search | src/com/stablesort/challenge/partition/PartitionToKEqualSum.java:54-110 | a success places every value and uses up every target; a failure restores targets and groups and permutes the list |
| PartitionMemo.Targets | src/com/stablesort/challenge/partition/PartitionToKEqualSum.java:75-109 | the target loop keeps that promise, and succeeds when nothing is left to do |
| PartitionMemo.Scan | src/com/stablesort/challenge/partition/PartitionToKEqualSum.java:79-99 | the value loop keeps the same promise |
| PartitionMemo.Take | src/com/stablesort/challenge/partition/PartitionToKEqualSum.java:85-87 | remove takes one copy of the value out of the list and out of target k |
| PartitionMemo.PutBack | src/com/stablesort/challenge/partition/PartitionToKEqualSum.java:94-96 | add puts the value at the end of the list and back into target k |
| PartitionMemo.SearchMoves | src/com/stablesort/challenge/partition/PartitionToKEqualSum.java:54-110 | every call only moves values from the list into the groups |
| PartitionMemo.Run2 | src/com/stablesort/challenge/partition/PartitionToKEqualSum.java:154-182 | a false answer leaves no groups or still empty ones |
| PartitionMemo.Run2Splits | src/com/stablesort/challenge/partition/PartitionToKEqualSum.java:154-182 | a true answer comes with groups splitting the array into k totals of sum / k |
| PartitionMemo.Run2ThenRun1 | src/com/stablesort/challenge/partition/PartitionToKEqualSum.java:219-227 | for positive values, when run2 finds a split, run1 answers true as well |
| PotsOfGold.TurnsTotal | src/com/stablesort/challenge/potsofgold/PotsOfGoldGame.java:31-64 | whatever the players choose, the two totals add up to every coin |
| PotsOfGold.PlayTotal | src/com/stablesort/challenge/potsofgold/PotsOfGoldGame.java:31-64 | a whole game hands out exactly the coins of the row |
| PotsOfGold.TakenIsRange | src/com/stablesort/challenge/potsofgold/PotsOfGoldGame.java:36-60 | the turns take every pot exactly once |
| PotsOfGold.TurnsShares | src/com/stablesort/challenge/potsofgold/PotsOfGoldGame.java:36-60 | each total is the coins of the pots taken on that player's own, alternating turns |
| PotsOfGold.PlayShares | src/com/stablesort/challenge/potsofgold/PotsOfGoldGame.java:31-64 | A takes ceil(n / 2) pots and B floor(n / 2), each collecting the coins of its own pots |
| PotsRecursive.ValuesReply | src/com/stablesort/challenge/potsofgold/PotsOfGoldRecursiveStrategy.java:67-72 | the minimum in each end's value is the other player's reply to what is left |
| PotsRecursive.Complement | src/com/stablesort/challenge/potsofgold/PotsOfGoldRecursiveStrategy.java:52-78 | the mover's best and the other player's reply share out all of l..r |
| PotsRecursive.ProfitIsBest | src/com/stablesort/challenge/potsofgold/PotsOfGoldRecursiveStrategy.java:44-78 | maxProfit is the value of the game when both players play their best |
| PotsRecursive.SmallRows | src/com/stablesort/challenge/potsofgold/PotsOfGoldRecursiveStrategy.java:52-78 | no pot gives 0, one pot its coins, two pots the larger |
| PotsRecursive.ProfitBounds | src/com/stablesort/challenge/potsofgold/PotsOfGoldRecursiveStrategy.java:52-78 | without negative pots the profit lies between 0 and every coin of the row |
| PotsRecursive.MemoProfit | src/com/stablesort/challenge/potsofgold/PotsOfGoldRecursiveStrategy.java:52-78 | from a memo of true answers, maxProfit returns the true answer and leaves a memo of true answers |
| PotsRecursive.MemoValues | src/com/stablesort/challenge/potsofgold/PotsOfGoldRecursiveStrategy.java:38-42 | takeLeft's two values are the take-left and take-right values of the game |
| PotsRecursive.NoMem | src/com/stablesort/challenge/potsofgold/PotsOfGoldRecursiveStrategy.java:80-92 | on l <= r maxProfitNoMem agrees with maxProfit |
| PotsRecursive.NoMemCrossed | src/com/stablesort/challenge/potsofgold/PotsOfGoldRecursiveStrategy.java:80-92 | for l > r maxProfitNoMem does not return 0: on {3, 5} with l = 1, r = 0 it returns 5 |
| PotsRecursive.StaleMemo | src/com/stablesort/challenge/potsofgold/PotsOfGoldRecursiveStrategy.java:58-62 | the memo is keyed by the ends alone, so one instance asked about a second row answers from the first |
| PotsRecursive.TakeLeft | src/com/stablesort/challenge/potsofgold/PotsOfGoldRecursiveStrategy.java:38-42 | from a memo for this row, takeLeft goes left exactly when that is worth strictly more |
| PotsRecursive.Chooses | src/com/stablesort/challenge/potsofgold/PotsOfGoldRecursiveStrategy.java:38-42 | the chosen end is worth maxProfit, and neither end is worth more |
| PotsRecursive.Guarantee | src/com/stablesort/challenge/potsofgold/PotsOfGoldRecursiveStrategy.java:8-17 | against any opponent the recursive player collects at least maxProfit when it moves first on a row |
| PotsRecursive.PlayGuarantee | src/com/stablesort/challenge/potsofgold/PotsOfGoldRecursiveStrategy.java:8-17 | moving first in play, it collects at least maxProfit of the whole row |
| PotsRecursive.BothBest | src/com/stablesort/challenge/potsofgold/PotsOfGoldRecursiveStrategy.java:100-111 | between two recursive players the mover collects exactly maxProfit and the other exactly its reply |
| PotsRecursive.PlayBothBest | src/com/stablesort/challenge/potsofgold/PotsOfGoldRecursiveStrategy.java:100-111 | the main method's game: A gets the game value and B the rest of the coins |
| PotsOddEven.ClassesSplit | src/com/stablesort/challenge/potsofgold/PotsOfGoldOddEvenStrategy.java:30-45 | the even-position and odd-position totals together are every coin |
| PotsOddEven.UseEvenStrategy | src/com/stablesort/challenge/potsofgold/PotsOfGoldOddEvenStrategy.java:30-45 | the loop's totals are the sums at even and at odd offsets, and evens are used iff their total is strictly larger |
| PotsOddEven.Construct | src/com/stablesort/challenge/potsofgold/PotsOfGoldOddEvenStrategy.java:17-20 | the constructor chooses the richer class of the whole row, odd on a tie |
| PotsOddEven.OwnTurn | src/com/stablesort/challenge/potsofgold/PotsOfGoldOddEvenStrategy.java:55-74 | on an even row the player takes the end of its class and leaves both ends out of it |
| PotsOddEven.OtherTurn | src/com/stablesort/challenge/potsofgold/PotsOfGoldOddEvenStrategy.java:55-74 | whichever end the opponent takes, it is outside the class and an end of the class comes free |
| PotsOddEven.KeepsClass | src/com/stablesort/challenge/potsofgold/PotsOfGoldOddEvenStrategy.java:55-74 | from such a row the player collects exactly the coins of its class, against any opponent |
| PotsOddEven.EvenRowWins | src/com/stablesort/challenge/potsofgold/PotsOfGoldOddEvenStrategy.java:5-11 | with an even number of pots, moving first, the player collects its class and at least as much as the opponent |
| PotsOddEven.Documented | src/com/stablesort/challenge/potsofgold/PotsOfGoldOddEvenStrategy.java:81-89 | on {1, 1, 9, 2} the evens hold 10 and the odds 3, and the game ends 10 to 3 |
| KdTree.GetCycles | src/com/stablesort/kdtree/KDTree.java:69-76 | get(depth) reads coordinate depth mod size, cycling through the coordinates |
| KdTree.Insert | src/com/stablesort/kdtree/KDTree.java:36-54 | add puts the point in as a leaf: one more point, and every node already there stays in place |
| KdTree.InsertKeepsOrder | src/com/stablesort/kdtree/KDTree.java:40-54 | adding a point keeps the k-d ordering at every level |
| KdTree.InsertKeepsDims | src/com/stablesort/kdtree/KDTree.java:100-103 | a tree of k-dimensional points stays one when a k-dimensional point is added |
| KdTree.Build | src/com/stablesort/kdtree/KDTree.java:100-113 | the list constructor builds an ordered tree holding exactly the list's points; an empty list, on which Java throws, gives None |
| KdTree.DistSquared | src/com/stablesort/kdtree/KDTree.java:222-238 | the loop computes the sum of squared coordinate differences |
| KdTree.DistSqMeasures | src/com/stablesort/kdtree/KDTree.java:222-238 | that sum is non-negative, symmetric, at least each term, and 0 exactly for equal points |
| KdTree.Closest | src/com/stablesort/kdtree/KDTree.java:191-211 | closest returns one of its arguments, and null only when both are null |
| KdTree.ClosestIsCloser | src/com/stablesort/kdtree/KDTree.java:199-211 | closest keeps the point no farther from the target, and n1 on a tie |
| KdTree.Nearest | src/com/stablesort/kdtree/KDTree.java:147-189 | the search returns a stored point, and nothing only for an empty subtree |
| KdTree.NearestIsNearest | src/com/stablesort/kdtree/KDTree.java:154-189 | no stored point is closer to the target than the one the search returns |
| KdTree.PruneSound | src/com/stablesort/kdtree/KDTree.java:176-186 | skipping the far side only when the best is strictly closer than the splitting line loses nothing |
| KdTree.SearchMatchesScan | src/com/stablesort/kdtree/test/KDTreeTest.java:21-71 | on a tree built from a list, the search agrees with a linear scan: no listed point is closer |
| KdTree.MainExample | src/com/stablesort/kdtree/KDTree.java:266-287 | the main method's nearest point to (40, 40) is (48, 38) |
| TimeUtils.DurationForms | src/com/stablesort/util/TimeUtils.java:67-143 | the two largest non-zero units from the first non-zero one, the smaller dropped when zero, singular exactly for 1, except always plural below a second |
| TimeUtils.NegativeDuration | src/com/stablesort/util/TimeUtils.java:134-142 | a negative duration reads as a negative number of milliseconds |
| TimeUtils.ZeroDuration | src/com/stablesort/util/TimeUtils.java:134-142 | no time reads "0 milliseconds" |
| TimeUtils.OneMillisecondPlural | src/com/stablesort/util/TimeUtils.java:136-141 | a single millisecond reads "1 milliseconds"; the corrected text reads "1 millisecond" |
| TimeUtils.IntendedForms | src/com/stablesort/util/TimeUtils.java:134-142 | the corrected text counts the milliseconds like every other unit and agrees from one second on |
| TimeUtils.IntendedDiffersOnlyAtOne | src/com/stablesort/util/TimeUtils.java:134-142 | the written and corrected texts differ for exactly one duration, 1 ms |
| TimeUtils.ApproxCut | src/com/stablesort/util/TimeUtils.java:48-57 | the approximation cuts the duration to whole seconds, or to whole minutes beyond two minutes |
| TimeUtils.ApproxForms | src/com/stablesort/util/TimeUtils.java:43-60 | the approximate text is the exact text of that cut duration: never milliseconds, and from three minutes on no seconds |
| TimeUtils.ApproxShort | src/com/stablesort/util/TimeUtils.java:43-60 | up to two minutes it shows minutes and seconds |
| TimeUtils.MainExample | src/com/stablesort/util/TimeUtils.java:247-249 | the main method's duration reads "1 minute and 3 seconds" |
| TimeUtils.BetweenUnknown | src/com/stablesort/util/TimeUtils.java:151-158 | the date overload answers "unknown" exactly when a date is missing, and otherwise the written duration text of their difference |
| TimeUtils.BetweenOneMillisecond | src/com/stablesort/util/TimeUtils.java:151-158 | dates 1 ms apart read "1 milliseconds", since the overload calls the written duration text |
| ComparablePair.Equals | src/com/stablesort/util/ComparablePair.java:38-54 | equals holds iff the argument is a pair with the same components, null matching only null |
| ComparablePair.EqualsIsEquivalence | src/com/stablesort/util/ComparablePair.java:38-54 | equals is reflexive, symmetric and transitive |
| ComparablePair.CompareTo | src/com/stablesort/util/ComparablePair.java:64-70 | compareTo throws iff either first component is null, and is otherwise the comparison of the first components |
| ComparablePair.CompareIgnoresSecond | src/com/stablesort/util/ComparablePair.java:64-70 | the second components never affect the comparison |
| ComparablePair.LevelButNotEqual | src/com/stablesort/util/ComparablePair.java:38-70 | pairs can compare as 0 without being equal: the order is not consistent with equals |
| ComparablePair.ToString | src/com/stablesort/util/ComparablePair.java:27-36 | toString is parenthesised and four characters longer than its components |
| ComparablePair.ToStringSplits | src/com/stablesort/util/ComparablePair.java:27-36 | a comma-free first component and the second can be read back out of toString |
| ComparablePair.IntPairsRenderDistinctly | src/com/stablesort/util/ComparablePair.java:27-36 | int pairs, or nulls, that render alike are equal |

## Left out

- Printing is not modelled. That covers `System.out` output, the trees' `toString`, `getName`, `hashCode`, `StopWatch` and `Rand`. The random arrays of the `main` drivers and the test drivers are left out too.
- Java `int` and `long` overflow is not modelled: values are unbounded integers. This affects Fenwick sums, knapsack values, the memoised matrix costs, range widths, partition totals and duration arithmetic. The int matrix-chain version keeps its `Integer.MAX_VALUE` start. `minSetSize` keeps its `Integer.MIN_VALUE` wrap-around.
- Floating point is not modelled. `KDTree.dist` (`Math.sqrt`) is left out. `Math.pow(…, 2)` in `distSquared` is modelled as an exact integer square. In Java it is a `double` added to a `long`, and it is exact only while each squared difference and the running total stay below 2^53. The `SegmentTree` main on doubles is left out.
- `ComparablePair`'s getters are the fields of the datatype.
- The Java constructors copy their input arrays. Dafny sequences are values, so the caller's array stays unchanged without a separate statement.
- `KDNode.add` of a node that already has children is left out.
- `PotsOfGoldOrderN`, the opponent in `PotsOfGoldGame.main`, is not part of this model.
- `PartitionProblem.use01KnapsackSolution` only prints the result of `Knapsack.Run` on the same array, so it is covered by that member.
- `TimeUtils` is modelled only for its duration strings and the null case of the `Date` overload. The pause, calendar, date-conversion and `getMonth` helpers depend on the clock or the locale.
- Hash-map memo keys: the Java memo keys are strings (`l + "|" + r`, `i + "." + j`, the list's `toString`). They are modelled as tuples and sequences with the same equality.
- FenwickTree.Propagate requires i >= 1. The Java walk never ends for i == 0.
- FenwickTreeSum.Add requires i >= 1, for the same reason.
- FenwickTreeXor.Update requires i >= 1, for the same reason.
- RangeToggle.Toggle requires i >= 1, for the same reason.
- KnuthMorrisPratt.Search requires a non-empty pattern. For an empty pattern, Java returns no matches on empty text and throws on `charAt(0)` otherwise.
- KnuthMorrisPratt.PrefixTable and KnuthMorrisPratt.Search index Dafny `char`s, which are Unicode scalar values. Java's `charAt` indexes UTF-16 code units. The indices match only for text without supplementary characters (code points above U+FFFF), each of which Java counts as two units.
- MatrixChainRecursive.Cost, MatrixChainRecursive.MemoCost and MatrixChainRecursive.PCost require i <= j, and PCost also 1 <= i. The Java code runs on other inputs too:
  - For i > j, the two `MxCost` versions return null (MatrixChainMultiplicationRecursive.java:60-77, :88-111).
  - For i > j, the `int[]` version returns `Integer.MAX_VALUE` (:36-49).
  - `main` reaches the null on an empty chain: it calls `cost(l, 0, -1, …)` and then reads `mx.cost` (:128-129).
  - For i == 0 < j, the `int[]` version throws on `p[i-1]`.
  - The whole-chain entry `MatrixChainDP.CostDP` gives None for the empty chain.
- Knapsack.Run requires a weight for every item, no negative weight, and wMax >= 0, and Java throws on each. This line covers every member that takes `Items`: Knapsack.Cell, Knapsack.Retrieve, Knapsack.CellIsOptimal and Knapsack.RunIsOptimal.
  - wMax < -1 throws `NegativeArraySizeException` when the rows are allocated (Knapsack01.java:26).
  - wMax == -1 throws on the read of `keep[i][-1]` (:60), or of `T[0][-1]` (:67) when there are no items.
  - A missing weight throws on `weights[i - 1]` (:37).
  - A negative weight makes the table index past `wMax` and throw.
- Knapsack.JsCellIsCell and Knapsack.JsKnapsackIsOptimal relate the JavaScript answer to the Java one only on the Java code's inputs: a weight for every item, none negative, and wMax >= 0. The JavaScript table itself is modelled for every input.
- DisjointSet.MaxSetSize requires a non-empty structure. Java reads `ar[maxSetIdx]`, which throws on an empty array.
- DisjointSet.SelectMaxSet requires a non-empty structure, for the same reason.
- KdTree.Point is a non-empty sequence, so the model has no 0-dimensional points. For one, `get` computes `depth % 0` and throws.
- LongestIncreasingSubsequence.Run requires a non-empty array. `retrieveSeq` fails on no piles.
- MinRange.GetMinRange requires every list to be non-empty. `list.get(0)` throws on an empty one.
- MinRange.GetMinRangeCovers and MinRange.GetMinRangeNarrowest assume values that fit an `int`. The start range is seeded with `Integer.MAX_VALUE` and `Integer.MIN_VALUE`.
- PartitionToK.Run1Correct is proved for positive values only. With zeros or negative values the search still answers soundly only in the direction that `PartitionComplete` states.
- PartitionMemo.Run2 requires k > 0, as do `PartitionToK.Run1` and the lemmas about it. Java's `% 0` throws.
- PartitionMemo.Run2ThenRun1 is stated in one direction only. Completeness of run2 (run1 succeeds, so run2 does) is not proved: a failed branch permutes the list, so later scans do not run in sorted order.
- SegmentTreeMax.QueryIsMaximum assumes elements of at least `Integer.MIN_VALUE`. That is the value an empty range reports.
- DisjointSet.Find is modelled with the corrected root test; the written one is `FindAsWritten`.

## Findings

| source | as written | input that shows it | evidently intended | confidence | as-written member | corrected member |
|---|---|---|---|---|---|---|
| src/com/stablesort/fenwick/FenwickTree.java:76-81 | valueAt(i) passes query(i - 1) to undo, and that is null for i == 1 | valueAt(1), and so update(1, v), on any tree of two or more slots | position 1 is an element like any other and should be read and written | not executed | FenwickTree.ValueAtOneFails | FenwickTree.ValueAtIsElement |
| src/com/stablesort/segtree/SegmentTree.java:88-100 | nodes from the right end are combined into the same running result as those from the left, so they end up in front | the concatenation tree over [1], [2], [3], [4]: query(0, 3) gives [3, 1, 2] | the fold of the range in order, which an associative f needs | not executed | SegmentTree.QueryMixesOrder | SegmentTree.QueryInOrderFolds |
| src/com/stablesort/djset/DisjointSet.java:32-35 | find follows parents only while ar[i] > 0, so a parent index 0 reads as a root | union(1, 0) on two singletons, then find(1) | only negative entries mark roots | not executed | DisjointSet.RootTestMisreadsZero | DisjointSet.UnionJoins |
| src/com/stablesort/challenge/interview/LongestSubsequenceLength.java:38-46 | an equal neighbour resets the current run to 1 | {1, 2, 2, 3} gives 2 | duplicates leave the run alone, giving 3 | not executed | LongestRun.DuplicateResets | LongestRun.MaxSeqLenV1IsLongest |
| src/com/stablesort/challenge/interview/LongestSubsequenceLength.java:35-49 | the maximum starts at 0 and is raised only when a run is extended | {7} gives 0 | a single value is a run of 1 | not executed | LongestRun.SingleValueMissed | LongestRun.MaxSeqLenV1IsLongest |
| src/com/stablesort/challenge/interview/LongestSubsequenceLength.java:70-85 | the run-start test is inverted, and the maximum is raised only inside the walk | {99, 100} gives 0 | walk up from every start of a run and count every run | not executed | LongestRun.PairMissed | LongestRun.MaxSeqLenV2 |
| src/com/stablesort/challenge/partition/PartitionToKEqualSum.java:32-33 | ar[i] is read before the test i == ar.length | {1, 1} into k = 2 groups throws | the end of the array ends the search with the answer sum(target) == 0 | not executed | PartitionToK.OnesThrow | PartitionToK.Run1Correct |
| src/com/stablesort/util/TimeUtils.java:136-141 | the plural test of the last branch reads `milliseconds`, which is still 0 | 1 ms reads "1 milliseconds" | "1 millisecond" | not executed | TimeUtils.OneMillisecondPlural | TimeUtils.IntendedForms |
