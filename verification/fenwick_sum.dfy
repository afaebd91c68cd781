/**
  FenwickTreeSum.java: the Fenwick tree hard-wired to integer addition.
  The int array becomes a seq<int>; make copies its input, and add and
  update return the new tree.
 */
module FenwickTreeSum {
  import opened Bits
  import opened ReversibleOperator
  import opened FenwickSpec
  import FenwickTree

  /** The reference: ar[1] + ... + ar[i], and 0 for i <= 0. */
  function Total(ar: seq<int>, i: int): int
    requires i < |ar|
    decreases i
  {
    if i <= 0 then 0 else Total(ar, i - 1) + ar[i]
  }

  lemma {:induction false} FoldIsTotal(ar: seq<int>, lo: nat, hi: nat)
    requires lo < hi < |ar|
    ensures Fold(Addition, ar, lo, hi) == Total(ar, hi) - Total(ar, lo)
    decreases hi - lo
  {
    if hi > lo + 1 {
      FoldIsTotal(ar, lo, hi - 1);
    }
  }

  /** sum(i): the loop adding tree[i], tree[i - LowBit(i)], ... while the index is positive. */
  function Sum(tree: seq<int>, i: int): int
    requires i < |tree|
    decreases i
  {
    if i <= 0 then 0 else tree[i] + Sum(tree, i - LowBit(i))
  }

  /** On a well-formed tree, sum(i) is the prefix total. */
  lemma {:induction false} SumIsTotal(ar: seq<int>, tree: seq<int>, i: int)
    requires IsTree(Addition, ar, tree) && i < |tree|
    ensures Sum(tree, i) == Total(ar, i)
    decreases i
  {
    if i > 0 {
      FoldIsTotal(ar, i - LowBit(i), i);
      SumIsTotal(ar, tree, i - LowBit(i));
    }
  }

  /** make: copy the array and run the build sweep with +. */
  method Make(ar: seq<int>) returns (tree: seq<int>)
    ensures IsTree(Addition, ar, tree)
    ensures |ar| > 0 ==> tree[0] == ar[0]
    ensures forall i :: i < |tree| ==> Sum(tree, i) == Total(ar, i)
  {
    AdditionLawful();
    tree := FenwickTree.Build(Addition, ar);
    forall i | i < |tree|
      ensures Sum(tree, i) == Total(ar, i)
    {
      SumIsTotal(ar, tree, i);
    }
  }

  /** sum(i, j) = sum(j) - sum(i - 1). */
  function SumRange(tree: seq<int>, i: int, j: int): int
    requires i <= |tree| && j < |tree|
  {
    Sum(tree, j) - Sum(tree, i - 1)
  }

  /** valueAt(i) = sum(i) - sum(i - 1). */
  function ValueAt(tree: seq<int>, i: int): int
    requires i < |tree|
  {
    Sum(tree, i) - Sum(tree, i - 1)
  }

  /** sum(i, j) is the total of ar[i..j]; valueAt(i) is ar[i] (0 at or below index 0). */
  lemma RangeAndValue(ar: seq<int>, tree: seq<int>, i: int, j: int)
    requires IsTree(Addition, ar, tree)
    requires i <= |tree| && j < |tree|
    ensures SumRange(tree, i, j) == Total(ar, j) - Total(ar, i - 1)
    ensures i < |tree| ==> ValueAt(tree, i) == if i >= 1 then ar[i] else 0
  {
    SumIsTotal(ar, tree, j);
    SumIsTotal(ar, tree, i - 1);
    if i < |tree| {
      SumIsTotal(ar, tree, i);
    }
  }

  /** add(i, k): the private walk adding k along the parent chain. */
  function Add(tree: seq<int>, i: nat, k: int): (r: seq<int>)
    requires i >= 1
    ensures |r| == |tree|
  {
    FenwickTree.Propagate(Addition, tree, i, k)
  }

  /** add(i, k) raises every sum(j) with j >= i by k and leaves the others alone. */
  lemma AddShiftsSums(ar: seq<int>, tree: seq<int>, i: nat, k: int, j: int)
    requires IsTree(Addition, ar, tree)
    requires 1 <= i < |tree| && j < |tree|
    ensures IsTree(Addition, ar[i := ar[i] + k], Add(tree, i, k))
    ensures Sum(Add(tree, i, k), j) == Sum(tree, j) + if j >= i then k else 0
  {
    AdditionLawful();
    FenwickTree.PropagateKeepsTree(Addition, ar, tree, i, k);
    SumIsTotal(ar, tree, j);
    SumIsTotal(ar[i := ar[i] + k], Add(tree, i, k), j);
    TotalPoint(ar, i, k, j);
  }

  lemma {:induction false} TotalPoint(ar: seq<int>, i: nat, k: int, j: int)
    requires 1 <= i < |ar| && j < |ar|
    ensures Total(ar[i := ar[i] + k], j) == Total(ar, j) + if j >= i then k else 0
    decreases j
  {
    if j > 0 {
      TotalPoint(ar, i, k, j - 1);
    }
  }

  /** update(i, v): add the difference between v and the current value. */
  function Update(tree: seq<int>, i: nat, v: int): (r: seq<int>)
    requires 1 <= i < |tree|
    ensures |r| == |tree|
  {
    Add(tree, i, v - ValueAt(tree, i))
  }

  /** After update(i, v), valueAt(i) is v and every other valueAt is unchanged. */
  lemma UpdateSetsValue(ar: seq<int>, tree: seq<int>, i: nat, v: int, j: int)
    requires IsTree(Addition, ar, tree)
    requires 1 <= i < |tree| && j < |tree|
    ensures IsTree(Addition, ar[i := v], Update(tree, i, v))
    ensures ValueAt(Update(tree, i, v), j) == if j == i then v else ValueAt(tree, j)
  {
    RangeAndValue(ar, tree, i, i);
    AddShiftsSums(ar, tree, i, v - ar[i], 0);
    assert ar[i := ar[i] + (v - ar[i])] == ar[i := v];
    RangeAndValue(ar, tree, j, j);
    RangeAndValue(ar[i := v], Update(tree, i, v), j, j);
  }

  /** The source's demonstration on the array of FenwickTree.DemoArray. */
  lemma Demo(tree: seq<int>)
    requires IsTree(Addition, FenwickTree.DemoArray, tree)
    ensures ValueAt(tree, 3) == 9
    ensures SumRange(tree, 1, 3) == 16
  {
    RangeAndValue(FenwickTree.DemoArray, tree, 1, 3);
    RangeAndValue(FenwickTree.DemoArray, tree, 3, 3);
  }
}
