/**
  What the bottom-up segment trees (SegmentTree.java, SegmentTreeMax.java)
  mean. For an input of length n the tree has 2n slots: leaf n + k holds
  element k, internal node v (1 <= v < n) has children 2v and 2v + 1, and
  slot 0 is never read.

  n need not be a power of two, so not every node stands for a run of
  consecutive elements. The query loop only reads a node v at level d (d
  halvings above the leaves) whose leaf-level slots v * 2^d .. (v + 1) * 2^d - 1
  all lie in the leaf half n .. 2n - 1, and such a node does stand for the
  consecutive elements below those slots.
 */
module SegmentSpec {
  import opened Bits
  import opened Nullable
  import opened ReversibleOperator

  /** f folded left to right over ar[lo .. hi - 1]: the reference for a query. */
  function SeqFold<T>(f: (T, T) -> T, ar: seq<T>, lo: nat, hi: nat): T
    requires lo < hi <= |ar|
    decreases hi - lo
  {
    if hi == lo + 1 then ar[lo] else f(SeqFold(f, ar, lo, hi - 1), ar[hi - 1])
  }

  /** The fold of ar[lo .. hi - 1], or None for an empty run. */
  function RunFold<T>(f: (T, T) -> T, ar: seq<T>, lo: nat, hi: nat): (r: Option<T>)
    requires lo <= hi <= |ar|
    ensures r.None? <==> lo == hi
  {
    if lo == hi then None else Some(SeqFold(f, ar, lo, hi))
  }

  /** Combining two partial results, either of which may be missing. */
  function Join<T>(f: (T, T) -> T, x: Option<T>, y: Option<T>): (r: Option<T>)
    ensures r.None? <==> x.None? && y.None?
  {
    match (x, y)
    case (None, _) => y
    case (_, None) => x
    case (Some(a), Some(b)) => Some(f(a, b))
  }

  /** Splitting a fold at an inner position, by associativity. */
  lemma {:induction false} FoldSplit<T(!new)>(f: (T, T) -> T, ar: seq<T>, lo: nat, m: nat, hi: nat)
    requires Associative(f)
    requires lo < m < hi <= |ar|
    ensures SeqFold(f, ar, lo, hi) == f(SeqFold(f, ar, lo, m), SeqFold(f, ar, m, hi))
    decreases hi - m
  {
    if hi > m + 1 {
      FoldSplit(f, ar, lo, m, hi - 1);
      assert Associates(f, SeqFold(f, ar, lo, m), SeqFold(f, ar, m, hi - 1), ar[hi - 1]);
    }
  }

  /** Joining adjacent runs gives the run over both. */
  lemma RunJoin<T(!new)>(f: (T, T) -> T, ar: seq<T>, lo: nat, m: nat, hi: nat)
    requires Associative(f)
    requires lo <= m <= hi <= |ar|
    ensures Join(f, RunFold(f, ar, lo, m), RunFold(f, ar, m, hi)) == RunFold(f, ar, lo, hi)
  {
    if lo < m < hi {
      FoldSplit(f, ar, lo, m, hi);
    }
  }

  /** Writing outside ar[lo .. hi - 1] does not change its fold. */
  lemma {:induction false} FoldOutside<T>(f: (T, T) -> T, ar: seq<T>, lo: nat, hi: nat, i: nat, x: T)
    requires lo < hi <= |ar| && i < |ar|
    requires i < lo || hi <= i
    ensures SeqFold(f, ar[i := x], lo, hi) == SeqFold(f, ar, lo, hi)
    decreases hi - lo
  {
    if hi > lo + 1 {
      FoldOutside(f, ar, lo, hi - 1, i, x);
    }
  }

  /** Internal node v holds f of its two children. */
  ghost predicate NodeOk<T>(f: (T, T) -> T, tree: seq<T>, v: nat)
  {
    2 * v + 1 < |tree| && tree[v] == f(tree[2 * v], tree[2 * v + 1])
  }

  /**
    tree is the segment tree of ar under f: 2n slots, leaves at n .. 2n - 1,
    and every internal node equal to f of its two children.
   */
  ghost predicate IsSegTree<T>(f: (T, T) -> T, ar: seq<T>, tree: seq<T>)
  {
    |tree| == 2 * |ar| &&
    (forall k :: 0 <= k < |ar| ==> tree[|ar| + k] == ar[k]) &&
    (forall v :: 1 <= v < |ar| ==> NodeOk(f, tree, v))
  }

  /** The leaf-level slot below node v, d levels up: v * 2^d. */
  function Slot(v: nat, d: nat): nat
    decreases d
  {
    if d == 0 then v else Slot(2 * v, d - 1)
  }

  /** The next node on the same level starts 2^d slots further on. */
  lemma {:induction false} SlotNext(v: nat, d: nat)
    ensures Slot(v + 1, d) == Slot(v, d) + Pow2(d)
    decreases d
  {
    if d > 0 {
      SlotNext(2 * v + 1, d - 1);
      SlotNext(2 * v, d - 1);
    }
  }

  lemma {:induction false} SlotMonotone(a: nat, b: nat, d: nat)
    requires a <= b
    ensures Slot(a, d) <= Slot(b, d)
    decreases d
  {
    if d > 0 {
      SlotMonotone(2 * a, 2 * b, d - 1);
    }
  }

  lemma {:induction false} SlotAtLeast(v: nat, d: nat)
    ensures Slot(v, d) >= v
    ensures d > 0 ==> Slot(v, d) >= 2 * v
    ensures v == 0 ==> Slot(v, d) == 0
    decreases d
  {
    if d > 0 {
      SlotAtLeast(2 * v, d - 1);
    }
  }

  /**
    A node d levels above the leaves whose leaf-level slots all lie in the
    leaf half holds f folded over the elements below those slots.
   */
  lemma {:induction false} NodeCovers<T(!new)>(f: (T, T) -> T, ar: seq<T>, tree: seq<T>, v: nat, d: nat)
    requires Associative(f) && IsSegTree(f, ar, tree)
    requires |ar| <= Slot(v, d) && Slot(v + 1, d) <= 2 * |ar|
    ensures v < 2 * |ar| && Slot(v, d) < Slot(v + 1, d)
    ensures tree[v] == SeqFold(f, ar, Slot(v, d) - |ar|, Slot(v + 1, d) - |ar|)
    decreases d
  {
    var n := |ar|;
    SlotAtLeast(v + 1, d);
    SlotAtLeast(v, d);
    SlotNext(v, d);
    if d > 0 {
      assert v + 1 <= n;
      assert NodeOk(f, tree, v);
      assert Slot(v + 1, d) == Slot(2 * v + 2, d - 1);
      SlotMonotone(2 * v + 1, 2 * v + 2, d - 1);
      SlotMonotone(2 * v, 2 * v + 1, d - 1);
      NodeCovers(f, ar, tree, 2 * v, d - 1);
      NodeCovers(f, ar, tree, 2 * v + 1, d - 1);
      FoldSplit(f, ar, Slot(v, d) - n, Slot(2 * v + 1, d - 1) - n, Slot(v + 1, d) - n);
    }
  }

  /** Node by node from the bottom, the segment tree of ar is determined up to slot 0. */
  lemma {:induction false} NodesAgree<T>(f: (T, T) -> T, ar: seq<T>, t1: seq<T>, t2: seq<T>, v: nat)
    requires IsSegTree(f, ar, t1) && IsSegTree(f, ar, t2)
    requires 1 <= v < 2 * |ar|
    ensures t1[v] == t2[v]
    decreases 2 * |ar| - v
  {
    if v < |ar| {
      assert NodeOk(f, t1, v) && NodeOk(f, t2, v);
      NodesAgree(f, ar, t1, t2, 2 * v);
      NodesAgree(f, ar, t1, t2, 2 * v + 1);
    } else {
      var k := v - |ar|;
      assert t1[|ar| + k] == ar[k] == t2[|ar| + k];
    }
  }

  /** An array and the placeholder in slot 0 determine the tree completely. */
  lemma SegTreeUnique<T>(f: (T, T) -> T, ar: seq<T>, t1: seq<T>, t2: seq<T>)
    requires IsSegTree(f, ar, t1) && IsSegTree(f, ar, t2)
    requires |ar| > 0 ==> t1[0] == t2[0]
    ensures t1 == t2
  {
    forall v | 1 <= v < |t1|
      ensures t1[v] == t2[v]
    {
      NodesAgree(f, ar, t1, t2, v);
    }
  }

  /** The strict ancestors of node v: v / 2, v / 4, ..., 1. */
  function Above(v: nat): (r: set<nat>)
    ensures forall x :: x in r ==> 1 <= x <= v / 2
    decreases v
  {
    if v <= 1 then {} else {v / 2} + Above(v / 2)
  }

  /** The parent of a node on the path from l to the root is on the path too. */
  lemma {:induction false} AboveStep(l: nat, c: nat)
    requires c > 1
    ensures c in {l} + Above(l) ==> c / 2 in Above(l)
    decreases l
  {
    if c != l && c in Above(l) {
      AboveStep(l / 2, c);
    }
  }
}
