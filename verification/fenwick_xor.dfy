/**
  FenwickTreeXor.java: the Fenwick tree hard-wired to boolean exclusive-or.
  Its public update(i, k) is the walk itself: it XORs k into element i
  rather than overwriting it.
 */
module FenwickTreeXor {
  import opened Bits
  import opened ReversibleOperator
  import opened FenwickSpec
  import FenwickTree

  /** The reference: ar[1] ^ ... ^ ar[i], and false for i <= 0. */
  function Parity(ar: seq<bool>, i: int): bool
    requires i < |ar|
    decreases i
  {
    if i <= 0 then false else Parity(ar, i - 1) != ar[i]
  }

  lemma {:induction false} FoldIsParity(ar: seq<bool>, lo: nat, hi: nat)
    requires lo < hi < |ar|
    ensures Fold(Exclusive, ar, lo, hi) == (Parity(ar, hi) != Parity(ar, lo))
    decreases hi - lo
  {
    if hi > lo + 1 {
      FoldIsParity(ar, lo, hi - 1);
    }
  }

  /** xor(i): the loop combining tree[i], tree[i - LowBit(i)], ... while the index is positive. */
  function Xor(tree: seq<bool>, i: int): bool
    requires i < |tree|
    decreases i
  {
    if i <= 0 then false else Xor(tree, i - LowBit(i)) != tree[i]
  }

  lemma {:induction false} XorIsParity(ar: seq<bool>, tree: seq<bool>, i: int)
    requires IsTree(Exclusive, ar, tree) && i < |tree|
    ensures Xor(tree, i) == Parity(ar, i)
    decreases i
  {
    if i > 0 {
      FoldIsParity(ar, i - LowBit(i), i);
      XorIsParity(ar, tree, i - LowBit(i));
    }
  }

  /** make: copy the array and run the build sweep with ^. */
  method Make(ar: seq<bool>) returns (tree: seq<bool>)
    ensures IsTree(Exclusive, ar, tree)
    ensures |ar| > 0 ==> tree[0] == ar[0]
    ensures forall i :: i < |tree| ==> Xor(tree, i) == Parity(ar, i)
  {
    ExclusiveLawful();
    tree := FenwickTree.Build(Exclusive, ar);
    forall i | i < |tree|
      ensures Xor(tree, i) == Parity(ar, i)
    {
      XorIsParity(ar, tree, i);
    }
  }

  /** xor(i, j) = xor(j) ^ xor(i - 1). */
  function XorRange(tree: seq<bool>, i: int, j: int): bool
    requires i <= |tree| && j < |tree|
  {
    Xor(tree, j) != Xor(tree, i - 1)
  }

  /** valueAt(i) = xor(i) ^ xor(i - 1). */
  function ValueAt(tree: seq<bool>, i: int): bool
    requires i < |tree|
  {
    Xor(tree, i) != Xor(tree, i - 1)
  }

  /** The exclusive-or of ar[i..j], by an independent left-to-right scan. */
  function RangeParity(ar: seq<bool>, i: int, j: int): bool
    requires j < |ar|
    decreases j - i
  {
    if j < i || j <= 0 then false
    else if i <= 1 then Parity(ar, j)
    else RangeParity(ar, i, j - 1) != ar[j]
  }

  /** xor(i, j) is the exclusive-or of ar[i..j]; valueAt(i) is ar[i] (false at or below 0). */
  lemma RangeAndValue(ar: seq<bool>, tree: seq<bool>, i: int, j: int)
    requires IsTree(Exclusive, ar, tree)
    requires i <= j + 1 && j < |tree|
    ensures XorRange(tree, i, j) == RangeParity(ar, i, j)
    ensures i <= j ==> ValueAt(tree, i) == if i >= 1 then ar[i] else false
  {
    XorIsParity(ar, tree, j);
    XorIsParity(ar, tree, i - 1);
    RangeParityIsDifference(ar, i, j);
    if i <= j {
      XorIsParity(ar, tree, i);
    }
  }

  lemma {:induction false} RangeParityIsDifference(ar: seq<bool>, i: int, j: int)
    requires i <= j + 1 && j < |ar|
    ensures RangeParity(ar, i, j) == (Parity(ar, j) != Parity(ar, i - 1))
    decreases j - i
  {
    if j >= i && j > 0 && i > 1 {
      RangeParityIsDifference(ar, i, j - 1);
    }
  }

  /** update(i, k): XOR k into slot i and along its parent chain. */
  function Update(tree: seq<bool>, i: nat, k: bool): (r: seq<bool>)
    requires i >= 1
    ensures |r| == |tree|
    ensures i >= |tree| ==> r == tree
  {
    FenwickTree.Propagate(Exclusive, tree, i, k)
  }

  lemma {:induction false} ParityFlip(ar: seq<bool>, i: nat, k: bool, j: int)
    requires 1 <= i < |ar| && j < |ar|
    ensures Parity(ar[i := ar[i] != k], j) == (Parity(ar, j) != (k && j >= i))
    decreases j
  {
    if j > 0 {
      ParityFlip(ar, i, k, j - 1);
    }
  }

  /**
    update(i, k) XORs k into element i: xor(j) flips for every j >= i when
    k is true, and nothing changes when k is false.
   */
  lemma UpdateFlips(ar: seq<bool>, tree: seq<bool>, i: nat, k: bool, j: int)
    requires IsTree(Exclusive, ar, tree)
    requires 1 <= i < |tree| && j < |tree|
    ensures IsTree(Exclusive, ar[i := ar[i] != k], Update(tree, i, k))
    ensures Xor(Update(tree, i, k), j) == (Xor(tree, j) != (k && j >= i))
  {
    ExclusiveLawful();
    FenwickTree.PropagateKeepsTree(Exclusive, ar, tree, i, k);
    XorIsParity(ar, tree, j);
    XorIsParity(ar[i := ar[i] != k], Update(tree, i, k), j);
    ParityFlip(ar, i, k, j);
  }

  /** update(i, false) leaves every slot as it was, on any array. */
  lemma {:induction false} UpdateFalse(tree: seq<bool>, i: nat)
    requires i >= 1
    ensures Update(tree, i, false) == tree
    decreases |tree| - i
  {
    if i < |tree| {
      assert tree[i := tree[i] != false] == tree;
      UpdateFalse(tree, i + LowBit(i));
    }
  }

  /** Applying update(i, k) twice restores every slot, on any array. */
  lemma {:induction false} UpdateTwice(tree: seq<bool>, i: nat, k: bool)
    requires i >= 1
    ensures Update(Update(tree, i, k), i, k) == tree
    decreases |tree| - i
  {
    if i < |tree| {
      var i' := i + LowBit(i);
      var t1 := tree[i := tree[i] != k];
      var u := Update(tree, i, k);
      assert u == Update(t1, i', k);
      assert u[i] == t1[i];
      assert Update(u, i, k) == Update(u[i := tree[i]], i', k);
      FenwickTree.PropagateWriteBelow(Exclusive, t1, i', k, i, tree[i]);
      assert t1[i := tree[i]] == tree;
      UpdateTwice(tree, i', k);
    }
  }
}
