/**
  What a Fenwick tree means, independent of any one variant.

  Data live at positions 1 .. |s| - 1 (position 0 is ignored). Slot p of a
  well-formed tree holds the operator folded over the LowBit(p) positions
  ending at p, that is over (p - LowBit(p), p].
 */
module FenwickSpec {
  import opened Bits
  import opened ReversibleOperator

  /** apply folded left to right over the positions (lo, hi] of s. */
  function Fold<T>(op: Op<T>, s: seq<T>, lo: nat, hi: nat): T
    requires lo < hi < |s|
    decreases hi - lo
  {
    if hi == lo + 1 then s[hi] else op.apply(Fold(op, s, lo, hi - 1), s[hi])
  }

  /** The positions slot p is responsible for. */
  function Block<T>(op: Op<T>, s: seq<T>, p: nat): T
    requires 1 <= p < |s|
  {
    Fold(op, s, p - LowBit(p), p)
  }

  /** tree is the Fenwick tree of the logical array ar. */
  ghost predicate IsTree<T>(op: Op<T>, ar: seq<T>, tree: seq<T>)
  {
    |tree| == |ar| &&
    forall p :: 1 <= p < |tree| ==> tree[p] == Block(op, ar, p)
  }

  /** Splitting a fold at an inner position, by associativity. */
  lemma {:induction false} FoldSplit<T(!new)>(op: Op<T>, s: seq<T>, lo: nat, m: nat, hi: nat)
    requires Associative(op.apply)
    requires lo < m < hi < |s|
    ensures Fold(op, s, lo, hi) == op.apply(Fold(op, s, lo, m), Fold(op, s, m, hi))
    decreases hi - m
  {
    if hi > m + 1 {
      FoldSplit(op, s, lo, m, hi - 1);
      assert Associates(op.apply, Fold(op, s, lo, m), Fold(op, s, m, hi - 1), s[hi]);
    }
  }

  /** Writing a position outside (lo, hi] does not change the fold. */
  lemma {:induction false} FoldOutside<T>(op: Op<T>, s: seq<T>, lo: nat, hi: nat, i: nat, x: T)
    requires lo < hi < |s| && i < |s|
    requires i <= lo || hi < i
    ensures Fold(op, s[i := x], lo, hi) == Fold(op, s, lo, hi)
    decreases hi - lo
  {
    if hi > lo + 1 {
      FoldOutside(op, s, lo, hi - 1, i, x);
    }
  }

  /** Combining d into one position inside (lo, hi] combines d into the fold. */
  lemma {:induction false} FoldPoint<T(!new)>(op: Op<T>, s: seq<T>, lo: nat, hi: nat, i: nat, d: T)
    requires Associative(op.apply) && Commutative(op.apply)
    requires lo < i <= hi < |s|
    ensures Fold(op, s[i := op.apply(s[i], d)], lo, hi) == op.apply(Fold(op, s, lo, hi), d)
    decreases hi - lo
  {
    var s' := s[i := op.apply(s[i], d)];
    if hi == lo + 1 {
    } else if hi == i {
      FoldOutside(op, s, lo, hi - 1, i, op.apply(s[i], d));
      assert Associates(op.apply, Fold(op, s, lo, hi - 1), s[i], d);
    } else {
      FoldPoint(op, s, lo, hi - 1, i, d);
      assert Fold(op, s', lo, hi) == op.apply(op.apply(Fold(op, s, lo, hi - 1), d), s[hi]);
      Swap(op, Fold(op, s, lo, hi - 1), d, s[hi]);
    }
  }

  /**
    Slot p part way through the build sweep: ar[p] combined with the blocks
    of its children p - 2^j' for every level j' >= j whose child index lies
    below k, children with the larger j' (further left) first.
   */
  function Partial<T>(op: Op<T>, ar: seq<T>, p: nat, j: nat, k: nat): T
    requires 1 <= p < |ar| && j <= LowExp(p)
    decreases LowExp(p) - j
  {
    if j == LowExp(p) then ar[p]
    else
      ChildExp(p, j);
      var c := p - Pow2(j);
      if c < k then op.apply(Partial(op, ar, p, j + 1, k), Block(op, ar, c))
      else Partial(op, ar, p, j + 1, k)
  }

  /** Levels j .. m - 1 all have their child at or beyond k, so they add nothing. */
  lemma {:induction false} PartialBelow<T>(op: Op<T>, ar: seq<T>, p: nat, j: nat, m: nat, k: nat)
    requires 1 <= p < |ar| && j <= m <= LowExp(p)
    requires m > j ==> k + Pow2(m - 1) <= p
    ensures Partial(op, ar, p, j, k) == Partial(op, ar, p, m, k)
    decreases m - j
  {
    if j < m {
      Pow2Le(j, m - 1);
      PartialBelow(op, ar, p, j + 1, m, k);
    }
  }

  /** Before the sweep, every slot holds its own array element. */
  lemma PartialStart<T>(op: Op<T>, ar: seq<T>, p: nat)
    requires 1 <= p < |ar|
    ensures Partial(op, ar, p, 0, 1) == ar[p]
  {
    if LowExp(p) > 0 {
      ChildExp(p, LowExp(p) - 1);
    }
    PartialBelow(op, ar, p, 0, LowExp(p), 1);
  }

  /** Raising the bound from k to k + 1 matters only at the one level whose child is k. */
  lemma {:induction false} PartialUnaffected<T>(op: Op<T>, ar: seq<T>, p: nat, j: nat, k: nat)
    requires 1 <= p < |ar| && j <= LowExp(p) && k >= 1
    requires p != k + LowBit(k) || LowExp(k) < j
    ensures Partial(op, ar, p, j, k + 1) == Partial(op, ar, p, j, k)
    decreases LowExp(p) - j
  {
    if j < LowExp(p) {
      ChildExp(p, j);
      PartialUnaffected(op, ar, p, j + 1, k);
    }
  }

  /**
    One step of the build sweep: slot p gains Block(k) exactly when p is
    the parent k + LowBit(k) of k.
   */
  lemma SweepStep<T>(op: Op<T>, ar: seq<T>, p: nat, k: nat)
    requires 1 <= p < |ar| && k >= 1
    ensures p == k + LowBit(k) ==>
      k < p && Partial(op, ar, p, 0, k + 1) == op.apply(Partial(op, ar, p, 0, k), Block(op, ar, k))
    ensures p != k + LowBit(k) ==> Partial(op, ar, p, 0, k + 1) == Partial(op, ar, p, 0, k)
  {
    if p == k + LowBit(k) {
      SweepChild(op, ar, p, k);
    } else {
      PartialUnaffected(op, ar, p, 0, k);
    }
  }

  /** The step over a child k of p adds the child's block. */
  lemma SweepChild<T>(op: Op<T>, ar: seq<T>, p: nat, k: nat)
    requires 1 <= p < |ar| && k >= 1 && p == k + LowBit(k)
    ensures k < p && Partial(op, ar, p, 0, k + 1) == op.apply(Partial(op, ar, p, 0, k), Block(op, ar, k))
  {
    var e := LowExp(k);
    ParentExp(k);
    if e > 0 {
      assert Pow2(e) == 2 * Pow2(e - 1);
    }
    PartialBelow(op, ar, p, 0, e, k + 1);
    PartialUnaffected(op, ar, p, e + 1, k);
    PartialBelow(op, ar, p, 0, e + 1, k);
  }

  /** In a commutative, associative operator the last two operands may trade places. */
  lemma Swap<T(!new)>(op: Op<T>, a: T, x: T, b: T)
    requires Associative(op.apply) && Commutative(op.apply)
    ensures op.apply(op.apply(a, x), b) == op.apply(op.apply(a, b), x)
  {
    assert Associates(op.apply, a, x, b) && Commutes(op.apply, x, b) && Associates(op.apply, a, b, x);
  }

  /**
    Once every child is below k, levels j and up cover the positions
    (p - LowBit(p), p - 2^j] followed by ar[p].
   */
  lemma {:induction false} PartialFull<T(!new)>(op: Op<T>, ar: seq<T>, p: nat, j: nat, k: nat)
    requires Associative(op.apply) && Commutative(op.apply)
    requires 1 <= p < |ar| && j < LowExp(p) && k >= p
    ensures Pow2(j) < LowBit(p)
    ensures Partial(op, ar, p, j, k)
         == op.apply(Fold(op, ar, p - LowBit(p), p - Pow2(j)), ar[p])
    decreases LowExp(p) - j
  {
    ChildExp(p, j);
    var c := p - Pow2(j);
    var lo := p - LowBit(p);
    assert LowBit(c) == Pow2(j);
    assert Partial(op, ar, p, j, k) == op.apply(Partial(op, ar, p, j + 1, k), Block(op, ar, c));
    if j + 1 == LowExp(p) {
      assert LowBit(p) == 2 * Pow2(j);
      assert Block(op, ar, c) == Fold(op, ar, lo, c);
      assert Commutes(op.apply, ar[p], Fold(op, ar, lo, c));
    } else {
      var mid := p - Pow2(j + 1);
      PartialFull(op, ar, p, j + 1, k);
      assert Pow2(j + 1) == 2 * Pow2(j);
      assert mid == c - LowBit(c);
      assert Block(op, ar, c) == Fold(op, ar, mid, c);
      Swap(op, Fold(op, ar, lo, mid), ar[p], Fold(op, ar, mid, c));
      FoldSplit(op, ar, lo, mid, c);
      assert Partial(op, ar, p, j, k) == op.apply(Fold(op, ar, lo, c), ar[p]);
    }
  }

  /** After the sweep has passed p, slot p holds its block. */
  lemma PartialIsBlock<T(!new)>(op: Op<T>, ar: seq<T>, p: nat, k: nat)
    requires Associative(op.apply) && Commutative(op.apply)
    requires 1 <= p < |ar| && k >= p
    ensures Partial(op, ar, p, 0, k) == Block(op, ar, p)
  {
    if LowExp(p) > 0 {
      PartialFull(op, ar, p, 0, k);
    }
  }

  /** A logical array and slot 0 determine the tree completely. */
  lemma TreeUnique<T>(op: Op<T>, ar: seq<T>, t1: seq<T>, t2: seq<T>)
    requires IsTree(op, ar, t1) && IsTree(op, ar, t2)
    requires |t1| > 0 ==> t1[0] == t2[0]
    ensures t1 == t2
  {
    assert forall p :: 0 <= p < |t1| ==> t1[p] == t2[p];
  }
}
