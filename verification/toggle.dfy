/**
  ToggleLightBulbs.java and DistrictChallenge.java: the same design twice.
  A row of switches is kept as a XOR Fenwick tree of "change points";
  isOn(i) is the cumulative XOR up to i, and toggle(i, j) marks a change at
  i and another just past j.
 */
module RangeToggle {
  import opened Bits
  import opened ReversibleOperator
  import opened FenwickSpec
  import opened FenwickTreeXor

  /** isOn(i): the cumulative XOR of positions 1 .. i. */
  function IsOn(tree: seq<bool>, i: int): bool
    requires i < |tree|
  {
    Xor(tree, i)
  }

  /** toggle(i, j): update(i, true) then update(j + 1, true). */
  function Toggle(tree: seq<bool>, i: nat, j: nat): (r: seq<bool>)
    requires i >= 1
    ensures |r| == |tree|
  {
    Update(Update(tree, i, true), j + 1, true)
  }

  /** The change-point array after one update(i, true). */
  function Flip(ar: seq<bool>, i: nat): (r: seq<bool>)
    ensures |r| == |ar|
  {
    if 1 <= i < |ar| then ar[i := !ar[i]] else ar
  }

  lemma UpdateTrue(ar: seq<bool>, tree: seq<bool>, i: nat, k: int)
    requires IsTree(Exclusive, ar, tree) && i >= 1 && k < |tree|
    ensures IsTree(Exclusive, Flip(ar, i), Update(tree, i, true))
    ensures Xor(Update(tree, i, true), k) == (Xor(tree, k) != (k >= i))
  {
    if i < |tree| {
      UpdateFlips(ar, tree, i, true, k);
      assert ar[i := ar[i] != true] == Flip(ar, i);
    }
  }

  /**
    toggle(i, j) flips isOn(k) exactly for i <= k <= j (for i > j + 1 it
    flips j < k < i instead) and leaves every other position alone.
   */
  lemma ToggleFlipsRange(ar: seq<bool>, tree: seq<bool>, i: nat, j: nat, k: int)
    requires IsTree(Exclusive, ar, tree) && i >= 1 && k < |tree|
    ensures IsTree(Exclusive, Flip(Flip(ar, i), j + 1), Toggle(tree, i, j))
    ensures IsOn(Toggle(tree, i, j), k) == (IsOn(tree, k) != ((i <= k) != (j < k)))
    ensures i <= j + 1 ==> IsOn(Toggle(tree, i, j), k) == (IsOn(tree, k) != (i <= k <= j))
  {
    UpdateTrue(ar, tree, i, k);
    UpdateTrue(Flip(ar, i), Update(tree, i, true), j + 1, k);
  }

  /** Toggling a range that ends at the last position only flips from i on. */
  lemma ToggleToEnd(tree: seq<bool>, i: nat)
    requires 1 <= i && |tree| >= 1
    ensures Toggle(tree, i, |tree| - 1) == Update(tree, i, true)
  {
  }

  /** Toggling the same range twice restores the tree. */
  lemma ToggleTwice(ar: seq<bool>, tree: seq<bool>, i: nat, j: nat)
    requires IsTree(Exclusive, ar, tree) && i >= 1
    ensures Toggle(Toggle(tree, i, j), i, j) == tree
  {
    var t1 := Toggle(tree, i, j);
    var a1 := Flip(Flip(ar, i), j + 1);
    ToggleFlipsRange(ar, tree, i, j, -1);
    ToggleFlipsRange(a1, t1, i, j, -1);
    assert Flip(Flip(a1, i), j + 1) == ar;
    TreeUnique(Exclusive, ar, Toggle(t1, i, j), tree);
  }

  /** From an all-false array every position starts off. */
  lemma StartsOff(ar: seq<bool>, tree: seq<bool>, k: int)
    requires IsTree(Exclusive, ar, tree) && k < |tree|
    requires forall p :: 0 <= p < |ar| ==> !ar[p]
    ensures !IsOn(tree, k)
  {
    XorIsParity(ar, tree, k);
    AllFalseParity(ar, k);
  }

  lemma {:induction false} AllFalseParity(ar: seq<bool>, k: int)
    requires k < |ar|
    requires forall p :: 0 <= p < |ar| ==> !ar[p]
    ensures !Parity(ar, k)
    decreases k
  {
    if k > 0 {
      AllFalseParity(ar, k - 1);
    }
  }
}
