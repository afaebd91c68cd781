/**
  The int-only maximum segment tree (SegmentTreeMax.java). Construction and
  update are the generic ones with Math.max as the operator (an int array
  starts out zeroed, so slot 0 holds 0); the query has its own loop that
  starts from Integer.MIN_VALUE instead of null.
 */
module SegmentTreeMax {
  import opened Nullable
  import opened SegmentSpec
  import opened ReversibleOperator
  import SegmentTree

  /** Integer.MIN_VALUE. */
  const IntMin: int := -0x8000_0000

  /** Math.max on ints. */
  function Max(a: int, b: int): int
  {
    if a < b then b else a
  }

  lemma MaxLaws()
    ensures Associative(Max) && Commutative(Max)
  {
    forall a: int, b: int, c: int
      ensures Associates(Max, a, b, c)
    {
    }
    forall a: int, b: int
      ensures Commutes(Max, a, b)
    {
    }
  }

  /** The constructor: leaves copied, internal nodes filled bottom-up with max. */
  method Build(ar: seq<int>) returns (tree: seq<int>)
    ensures IsSegTree(Max, ar, tree)
    ensures |ar| > 0 ==> tree[0] == 0
  {
    tree := SegmentTree.Build(Max, ar, 0);
  }

  /** update(i, value), with the same early exit as the generic tree. */
  method Update(ghost ar: seq<int>, tree: seq<int>, i: nat, v: int) returns (t: seq<int>)
    requires IsSegTree(Max, ar, tree) && i < |ar|
    ensures IsSegTree(Max, ar[i := v], t)
    ensures forall x :: 0 <= x < |t| && x !in {|ar| + i} + Above(|ar| + i) ==> t[x] == tree[x]
  {
    t := SegmentTree.Update(Max, ar, tree, i, v);
  }

  /** The loop of max(from, to), with the running maximum m. */
  function MaxClimb(tree: seq<int>, from: nat, until: nat, m: int): int
    requires until <= |tree|
    decreases until
  {
    if from >= until then m
    else
      var m1 := if from % 2 == 1 then Max(m, tree[from]) else m;
      var from1 := if from % 2 == 1 then from + 1 else from;
      var until1 := if until % 2 == 1 then until - 1 else until;
      var m2 := if until % 2 == 1 then Max(m1, tree[until1]) else m1;
      MaxClimb(tree, from1 / 2, until1 / 2, m2)
  }

  /** max(from, to): the largest of elements from .. to - 1, Integer.MIN_VALUE for an empty range. */
  function Query(tree: seq<int>, from: int, until: int): int
    requires from < until ==> 0 <= from && until <= |tree| / 2
  {
    if from >= until then IntMin else MaxClimb(tree, from + |tree| / 2, until + |tree| / 2, IntMin)
  }

  /** A generic running result seen through the int loop: null is Integer.MIN_VALUE. */
  function Absorb(q: Option<int>): int
  {
    if q.None? then IntMin else Max(IntMin, q.value)
  }

  /** The int loop computes what the generic loop computes under Max, floored at Integer.MIN_VALUE. */
  lemma {:induction false} MaxClimbIsClimb(tree: seq<int>, from: nat, until: nat, q: Option<int>)
    requires until <= |tree|
    ensures MaxClimb(tree, from, until, Absorb(q)) == Absorb(SegmentTree.Climb(Max, tree, from, until, q))
    decreases until
  {
    if from < until {
      var q1 := if from % 2 == 1 then SegmentTree.Push(Max, q, tree[from]) else q;
      var from1 := if from % 2 == 1 then from + 1 else from;
      var until1 := if until % 2 == 1 then until - 1 else until;
      var q2 := if until % 2 == 1 then SegmentTree.Push(Max, q1, tree[until1]) else q1;
      assert from % 2 == 1 ==> Absorb(q1) == Max(Absorb(q), tree[from]);
      assert until % 2 == 1 ==> Absorb(q2) == Max(Absorb(q1), tree[until1]);
      MaxClimbIsClimb(tree, from1 / 2, until1 / 2, q2);
    }
  }

  /** A max fold is at least every element of the run and equal to one of them. */
  lemma {:induction false} FoldIsMaximum(ar: seq<int>, lo: nat, hi: nat)
    requires lo < hi <= |ar|
    ensures forall k :: lo <= k < hi ==> ar[k] <= SeqFold(Max, ar, lo, hi)
    ensures exists k :: lo <= k < hi && ar[k] == SeqFold(Max, ar, lo, hi)
    decreases hi - lo
  {
    if hi > lo + 1 {
      FoldIsMaximum(ar, lo, hi - 1);
      var k :| lo <= k < hi - 1 && ar[k] == SeqFold(Max, ar, lo, hi - 1);
      if ar[hi - 1] <= ar[k] {
        assert ar[k] == SeqFold(Max, ar, lo, hi);
      } else {
        assert ar[hi - 1] == SeqFold(Max, ar, lo, hi);
      }
    } else {
      assert ar[lo] == SeqFold(Max, ar, lo, hi);
    }
  }

  /**
    For an array of Java ints the query is the maximum of the range: no
    element exceeds it and one element equals it. An empty range gives
    Integer.MIN_VALUE.
   */
  lemma QueryIsMaximum(ar: seq<int>, tree: seq<int>, from: int, until: int)
    requires IsSegTree(Max, ar, tree)
    requires forall k :: 0 <= k < |ar| ==> IntMin <= ar[k]
    requires from < until ==> 0 <= from && until <= |ar|
    ensures from >= until ==> Query(tree, from, until) == IntMin
    ensures from < until ==> forall k :: from <= k < until ==> ar[k] <= Query(tree, from, until)
    ensures from < until ==> exists k :: from <= k < until && ar[k] == Query(tree, from, until)
  {
    if from < until {
      var n := |ar|;
      MaxLaws();
      SegmentTree.QueryFolds(Max, ar, tree, from, until);
      MaxClimbIsClimb(tree, from + n, until + n, None);
      FoldIsMaximum(ar, from, until);
      var k :| from <= k < until && ar[k] == SeqFold(Max, ar, from, until);
      assert Query(tree, from, until) == SeqFold(Max, ar, from, until);
    }
  }

  /**
    The array of the class's main method: the tree it prints is fixed by
    the array (and the zero in slot 0), and the maximum of elements 1 .. 3
    is 7.
   */
  lemma Demo(tree: seq<int>)
    requires IsSegTree(Max, [12, 7, 1, 0, 9], tree) && tree[0] == 0
    ensures tree == [0, 12, 12, 7, 9, 12, 7, 1, 0, 9]
    ensures Query(tree, 1, 4) == 7
  {
    var expected := [0, 12, 12, 7, 9, 12, 7, 1, 0, 9];
    assert IsSegTree(Max, [12, 7, 1, 0, 9], expected) by {
      assert NodeOk(Max, expected, 1) && NodeOk(Max, expected, 2);
      assert NodeOk(Max, expected, 3) && NodeOk(Max, expected, 4);
    }
    SegTreeUnique(Max, [12, 7, 1, 0, 9], tree, expected);
    assert MaxClimb(tree, 6, 9, IntMin) == MaxClimb(tree, 3, 4, 7);
  }
}
