/**
  The generic bottom-up segment tree (SegmentTree.java): construction,
  point update with early exit, and the range query that climbs from the
  two ends of the range towards the root.

  Java keeps null in slot 0 (and in the internal slots until they are
  filled); the model takes the filler value as the parameter `blank`.
  Java's `q == null` test on the running query result becomes an Option.
 */
module SegmentTree {
  import opened Bits
  import opened Nullable
  import opened SegmentSpec
  import opened ReversibleOperator

  /** Builds the tree: leaves copied from ar, internal nodes filled from n - 1 down to 1. */
  method Build<T>(f: (T, T) -> T, ar: seq<T>, blank: T) returns (tree: seq<T>)
    ensures IsSegTree(f, ar, tree)
    ensures |ar| > 0 ==> tree[0] == blank
  {
    var n := |ar|;
    tree := seq(n, _ => blank) + ar;
    var i: int := n - 1;
    while i > 0
      invariant -1 <= i < n || (n == 0 && i == -1)
      invariant |tree| == 2 * n
      invariant forall k :: 0 <= k < n ==> tree[n + k] == ar[k]
      invariant forall v :: i < v < n && v >= 1 ==> NodeOk(f, tree, v)
      invariant n > 0 ==> tree[0] == blank
    {
      ghost var before := tree;
      tree := tree[i := f(tree[2 * i], tree[2 * i + 1])];
      forall v | i <= v < n && v >= 1
        ensures NodeOk(f, tree, v)
      {
        if v > i {
          assert NodeOk(f, before, v);
        }
      }
      i := i - 1;
    }
  }

  /** `q == null ? x : f(q, x)`: adds one node to the running result. */
  function Push<T>(f: (T, T) -> T, q: Option<T>, x: T): Option<T>
  {
    if q.None? then Some(x) else Some(f(q.value, x))
  }

  /**
    The query loop as written: while from < until, an odd `from` is added and
    stepped right, an odd `until` (Java's `to`) is stepped left and added, and both are
    halved. Nodes from both ends go into the one running result.
   */
  function Climb<T>(f: (T, T) -> T, tree: seq<T>, from: nat, until: nat, q: Option<T>): Option<T>
    requires until <= |tree|
    decreases until
  {
    if from >= until then q
    else
      var q1 := if from % 2 == 1 then Push(f, q, tree[from]) else q;
      var from1 := if from % 2 == 1 then from + 1 else from;
      var until1 := if until % 2 == 1 then until - 1 else until;
      var q2 := if until % 2 == 1 then Push(f, q1, tree[until1]) else q1;
      Climb(f, tree, from1 / 2, until1 / 2, q2)
  }

  /** query(from, to) over elements from .. to - 1; null (None) for an empty range. */
  function Query<T>(f: (T, T) -> T, tree: seq<T>, from: int, until: int): Option<T>
    requires from < until ==> 0 <= from && until <= |tree| / 2
  {
    if from >= until then None else Climb(f, tree, from + |tree| / 2, until + |tree| / 2, None)
  }

  /** Adding a node on the left end: it goes after everything gathered on the left. */
  lemma PushLeft<T(!new)>(f: (T, T) -> T, l: Option<T>, r: Option<T>, x: T)
    requires Associative(f) && Commutative(f)
    ensures Push(f, Join(f, l, r), x) == Join(f, Join(f, l, Some(x)), r)
  {
    if l.Some? && r.Some? {
      assert Associates(f, l.value, r.value, x) && Commutes(f, r.value, x);
      assert Associates(f, l.value, x, r.value);
    } else if r.Some? {
      assert Commutes(f, r.value, x);
    }
  }

  /** Adding a node on the right end: it goes before everything gathered on the right. */
  lemma PushRight<T(!new)>(f: (T, T) -> T, l: Option<T>, r: Option<T>, x: T)
    requires Associative(f) && Commutative(f)
    ensures Push(f, Join(f, l, r), x) == Join(f, l, Join(f, Some(x), r))
  {
    if l.Some? && r.Some? {
      assert Associates(f, l.value, r.value, x) && Commutes(f, r.value, x);
    } else if r.Some? {
      assert Commutes(f, r.value, x);
    }
  }

  /** Taking the node at an odd left end extends the run gathered on the left by that node. */
  lemma TakeLeft<T(!new)>(f: (T, T) -> T, ar: seq<T>, tree: seq<T>, lo: nat, hi: nat,
                          from: nat, until: nat, d: nat, l: Option<T>)
    requires Associative(f) && IsSegTree(f, ar, tree)
    requires |ar| <= lo <= Slot(from, d) <= Slot(until, d) <= hi <= 2 * |ar| && from < until
    requires l == RunFold(f, ar, lo - |ar|, Slot(from, d) - |ar|)
    ensures Slot(from, d) < Slot(from + 1, d) <= Slot(until, d) && from < |tree|
    ensures Join(f, l, Some(tree[from])) == RunFold(f, ar, lo - |ar|, Slot(from + 1, d) - |ar|)
  {
    SlotMonotone(from + 1, until, d);
    SlotNext(from, d);
    NodeCovers(f, ar, tree, from, d);
    RunJoin(f, ar, lo - |ar|, Slot(from, d) - |ar|, Slot(from + 1, d) - |ar|);
  }

  /** Taking the node left of an odd right end extends the run gathered on the right by that node. */
  lemma TakeRight<T(!new)>(f: (T, T) -> T, ar: seq<T>, tree: seq<T>, lo: nat, hi: nat,
                           from: nat, until: nat, d: nat, r: Option<T>)
    requires Associative(f) && IsSegTree(f, ar, tree)
    requires |ar| <= lo <= Slot(from, d) <= Slot(until, d) <= hi <= 2 * |ar| && from < until
    requires r == RunFold(f, ar, Slot(until, d) - |ar|, hi - |ar|)
    ensures Slot(from, d) <= Slot(until - 1, d) < Slot(until, d) && until - 1 < |tree|
    ensures Join(f, Some(tree[until - 1]), r) == RunFold(f, ar, Slot(until - 1, d) - |ar|, hi - |ar|)
  {
    SlotMonotone(from, until - 1, d);
    SlotNext(until - 1, d);
    NodeCovers(f, ar, tree, until - 1, d);
    RunJoin(f, ar, Slot(until - 1, d) - |ar|, Slot(until, d) - |ar|, hi - |ar|);
  }

  /** The bounds of the climb's invariant survive the adjustment of both ends and the halving. */
  lemma ClimbBounds(n: nat, lo: nat, hi: nat, from: nat, until: nat, d: nat)
    requires n <= lo <= Slot(from, d) <= Slot(until, d) <= hi <= 2 * n && from < until
    ensures var from1 := if from % 2 == 1 then from + 1 else from;
            var until1 := if until % 2 == 1 then until - 1 else until;
            from1 <= until1 && lo <= Slot(from1 / 2, d + 1) <= Slot(until1 / 2, d + 1) <= hi
              && Slot(from1 / 2, d + 1) == Slot(from1, d) && Slot(until1 / 2, d + 1) == Slot(until1, d)
              && until1 / 2 < until
  {
    var from1 := if from % 2 == 1 then from + 1 else from;
    var until1 := if until % 2 == 1 then until - 1 else until;
    assert 2 * (from1 / 2) == from1 && 2 * (until1 / 2) == until1;
    SlotMonotone(from, from1, d);
    SlotMonotone(until1, until, d);
    SlotMonotone(from1, until1, d);
  }

  /**
    The loop invariant of the query, d levels above the leaves: the running
    result holds the elements left of slot Slot(from, d) and right of slot
    Slot(until, d), and the climb finishes the whole range lo .. hi - 1 (as slots).
   */
  lemma {:induction false} ClimbFolds<T(!new)>(f: (T, T) -> T, ar: seq<T>, tree: seq<T>,
                                               lo: nat, hi: nat, from: nat, until: nat, d: nat, q: Option<T>)
    requires Associative(f) && Commutative(f) && IsSegTree(f, ar, tree)
    requires |ar| <= lo <= Slot(from, d) <= Slot(until, d) <= hi <= 2 * |ar| && from <= until
    requires until <= |tree|
    requires q == Join(f, RunFold(f, ar, lo - |ar|, Slot(from, d) - |ar|),
                          RunFold(f, ar, Slot(until, d) - |ar|, hi - |ar|))
    ensures Climb(f, tree, from, until, q) == RunFold(f, ar, lo - |ar|, hi - |ar|)
    decreases until
  {
    if from < until {
      var from1 := if from % 2 == 1 then from + 1 else from;
      var until1 := if until % 2 == 1 then until - 1 else until;
      var q2 := ClimbStep(f, ar, tree, lo, hi, from, until, d, q);
      ClimbFolds(f, ar, tree, lo, hi, from1 / 2, until1 / 2, d + 1, q2);
    } else {
      RunJoin(f, ar, lo - |ar|, Slot(from, d) - |ar|, hi - |ar|);
    }
  }

  /** One level of the climb keeps its invariant one level up. */
  lemma ClimbStep<T(!new)>(f: (T, T) -> T, ar: seq<T>, tree: seq<T>,
                           lo: nat, hi: nat, from: nat, until: nat, d: nat, q: Option<T>) returns (q2: Option<T>)
    requires Associative(f) && Commutative(f) && IsSegTree(f, ar, tree)
    requires |ar| <= lo <= Slot(from, d) <= Slot(until, d) <= hi <= 2 * |ar| && from < until
    requires until <= |tree|
    requires q == Join(f, RunFold(f, ar, lo - |ar|, Slot(from, d) - |ar|),
                          RunFold(f, ar, Slot(until, d) - |ar|, hi - |ar|))
    ensures var from1 := if from % 2 == 1 then from + 1 else from;
      var until1 := if until % 2 == 1 then until - 1 else until;
      |ar| <= lo <= Slot(from1 / 2, d + 1) <= Slot(until1 / 2, d + 1) <= hi && from1 / 2 <= until1 / 2 < until &&
      q2 == Join(f, RunFold(f, ar, lo - |ar|, Slot(from1 / 2, d + 1) - |ar|),
                    RunFold(f, ar, Slot(until1 / 2, d + 1) - |ar|, hi - |ar|)) &&
      Climb(f, tree, from, until, q) == Climb(f, tree, from1 / 2, until1 / 2, q2)
  {
    var n := |ar|;
    var l := RunFold(f, ar, lo - n, Slot(from, d) - n);
    var r := RunFold(f, ar, Slot(until, d) - n, hi - n);
    ClimbBounds(n, lo, hi, from, until, d);
    var from1 := if from % 2 == 1 then from + 1 else from;
    var until1 := if until % 2 == 1 then until - 1 else until;
    var q1 := if from % 2 == 1 then Push(f, q, tree[from]) else q;
    var l1 := LeftEnd(f, ar, tree, lo, hi, from, until, d, l, r);
    q2 := if until % 2 == 1 then Push(f, q1, tree[until1]) else q1;
    RightEnd(f, ar, tree, lo, hi, from1, until, d, l1, r);
  }

  /** An odd left end joins the running result on the left; the left fold then reaches from1. */
  lemma LeftEnd<T(!new)>(f: (T, T) -> T, ar: seq<T>, tree: seq<T>, lo: nat, hi: nat,
                         from: nat, until: nat, d: nat, l: Option<T>, r: Option<T>) returns (l1: Option<T>)
    requires Associative(f) && Commutative(f) && IsSegTree(f, ar, tree)
    requires |ar| <= lo <= Slot(from, d) <= Slot(until, d) <= hi <= 2 * |ar| && from < until <= |tree|
    requires l == RunFold(f, ar, lo - |ar|, Slot(from, d) - |ar|)
    ensures var from1 := if from % 2 == 1 then from + 1 else from;
      lo <= Slot(from1, d) <= Slot(until, d) && l1 == RunFold(f, ar, lo - |ar|, Slot(from1, d) - |ar|) &&
      (if from % 2 == 1 then Push(f, Join(f, l, r), tree[from]) else Join(f, l, r)) == Join(f, l1, r)
  {
    l1 := l;
    if from % 2 == 1 {
      TakeLeft(f, ar, tree, lo, hi, from, until, d, l);
      PushLeft(f, l, r, tree[from]);
      l1 := Join(f, l, Some(tree[from]));
    }
  }

  /** An odd right end joins the running result on the right; the right fold then starts at until1. */
  lemma RightEnd<T(!new)>(f: (T, T) -> T, ar: seq<T>, tree: seq<T>, lo: nat, hi: nat,
                          from1: nat, until: nat, d: nat, l1: Option<T>, r: Option<T>)
    requires Associative(f) && Commutative(f) && IsSegTree(f, ar, tree)
    requires |ar| <= lo <= Slot(from1, d) <= Slot(until, d) <= hi <= 2 * |ar| && from1 <= until <= |tree|
    requires from1 % 2 == 0 && 0 < until
    requires r == RunFold(f, ar, Slot(until, d) - |ar|, hi - |ar|)
    ensures var until1 := if until % 2 == 1 then until - 1 else until;
      Slot(from1, d) <= Slot(until1, d) <= Slot(until, d) &&
      (if until % 2 == 1 then Push(f, Join(f, l1, r), tree[until1]) else Join(f, l1, r)) ==
        Join(f, l1, RunFold(f, ar, Slot(until1, d) - |ar|, hi - |ar|))
  {
    if until % 2 == 1 {
      TakeRight(f, ar, tree, lo, hi, from1, until, d, r);
      PushRight(f, l1, r, tree[until - 1]);
    }
  }

  /** With an associative, commutative f the query folds f over the range, or gives None if it is empty. */
  lemma QueryFolds<T(!new)>(f: (T, T) -> T, ar: seq<T>, tree: seq<T>, from: int, until: int)
    requires Associative(f) && Commutative(f) && IsSegTree(f, ar, tree)
    requires from < until ==> 0 <= from && until <= |ar|
    ensures from >= until ==> Query(f, tree, from, until) == None
    ensures from < until ==> Query(f, tree, from, until) == Some(SeqFold(f, ar, from, until))
  {
    if from < until {
      var n := |ar|;
      ClimbFolds(f, ar, tree, from + n, until + n, from + n, until + n, 0, None);
    }
  }

  /**
    The climb with separate results for the two ends, so that nodes from the
    right end are added in front of those gathered there earlier: the order
    an associative but non-commutative f needs.
   */
  function ClimbInOrder<T>(f: (T, T) -> T, tree: seq<T>, from: nat, until: nat, left: Option<T>, right: Option<T>): Option<T>
    requires until <= |tree|
    decreases until
  {
    if from >= until then Join(f, left, right)
    else
      var left1 := if from % 2 == 1 then Join(f, left, Some(tree[from])) else left;
      var from1 := if from % 2 == 1 then from + 1 else from;
      var until1 := if until % 2 == 1 then until - 1 else until;
      var right1 := if until % 2 == 1 then Join(f, Some(tree[until1]), right) else right;
      ClimbInOrder(f, tree, from1 / 2, until1 / 2, left1, right1)
  }

  /** The range query with the two ends kept apart. */
  function QueryInOrder<T>(f: (T, T) -> T, tree: seq<T>, from: int, until: int): Option<T>
    requires from < until ==> 0 <= from && until <= |tree| / 2
  {
    if from >= until then None else ClimbInOrder(f, tree, from + |tree| / 2, until + |tree| / 2, None, None)
  }

  /** The loop invariant of the in-order climb; associativity alone suffices. */
  lemma {:induction false} ClimbInOrderFolds<T(!new)>(f: (T, T) -> T, ar: seq<T>, tree: seq<T>,
                                                       lo: nat, hi: nat, from: nat, until: nat, d: nat,
                                                       left: Option<T>, right: Option<T>)
    requires Associative(f) && IsSegTree(f, ar, tree)
    requires |ar| <= lo <= Slot(from, d) <= Slot(until, d) <= hi <= 2 * |ar| && from <= until
    requires until <= |tree|
    requires left == RunFold(f, ar, lo - |ar|, Slot(from, d) - |ar|)
    requires right == RunFold(f, ar, Slot(until, d) - |ar|, hi - |ar|)
    ensures ClimbInOrder(f, tree, from, until, left, right) == RunFold(f, ar, lo - |ar|, hi - |ar|)
    decreases until
  {
    var n := |ar|;
    if from < until {
      ClimbBounds(n, lo, hi, from, until, d);
      var from1 := if from % 2 == 1 then from + 1 else from;
      var until1 := if until % 2 == 1 then until - 1 else until;
      var left1 := if from % 2 == 1 then Join(f, left, Some(tree[from])) else left;
      if from % 2 == 1 {
        TakeLeft(f, ar, tree, lo, hi, from, until, d, left);
      }
      var right1 := if until % 2 == 1 then Join(f, Some(tree[until1]), right) else right;
      if until % 2 == 1 {
        SlotMonotone(from, from1, d);
        TakeRight(f, ar, tree, lo, hi, from1, until, d, right);
      }
      ClimbInOrderFolds(f, ar, tree, lo, hi, from1 / 2, until1 / 2, d + 1, left1, right1);
    } else {
      RunJoin(f, ar, lo - n, Slot(from, d) - n, hi - n);
    }
  }

  /** With an associative f the in-order query folds f over the range in order. */
  lemma QueryInOrderFolds<T(!new)>(f: (T, T) -> T, ar: seq<T>, tree: seq<T>, from: int, until: int)
    requires Associative(f) && IsSegTree(f, ar, tree)
    requires from < until ==> 0 <= from && until <= |ar|
    ensures from >= until ==> QueryInOrder(f, tree, from, until) == None
    ensures from < until ==> QueryInOrder(f, tree, from, until) == Some(SeqFold(f, ar, from, until))
  {
    if from < until {
      var n := |ar|;
      ClimbInOrderFolds(f, ar, tree, from + n, until + n, from + n, until + n, 0, None, None);
    }
  }

  /** Sequence concatenation: associative, not commutative. */
  function Concat(a: seq<int>, b: seq<int>): seq<int>
  {
    a + b
  }

  lemma ConcatAssociative()
    ensures Associative(Concat)
  {
    forall a: seq<int>, b: seq<int>, c: seq<int>
      ensures Associates(Concat, a, b, c)
    {
      assert (a + b) + c == a + (b + c);
    }
  }

  /**
    The query as written mixes the order of the two ends: over [1], [2],
    [3], [4] under concatenation, query(0, 3) gives [3, 1, 2] rather than
    [1, 2, 3], although concatenation is associative.
   */
  lemma QueryMixesOrder()
    ensures Associative(Concat) && !Commutative(Concat)
    ensures IsSegTree(Concat, [[1], [2], [3], [4]], [[], [1, 2, 3, 4], [1, 2], [3, 4], [1], [2], [3], [4]])
    ensures Query(Concat, [[], [1, 2, 3, 4], [1, 2], [3, 4], [1], [2], [3], [4]], 0, 3) == Some([3, 1, 2])
    ensures SeqFold(Concat, [[1], [2], [3], [4]], 0, 3) == [1, 2, 3]
    ensures QueryInOrder(Concat, [[], [1, 2, 3, 4], [1, 2], [3, 4], [1], [2], [3], [4]], 0, 3) == Some([1, 2, 3])
  {
    ConcatAssociative();
    ConcatNotCommutative();
    var ar: seq<seq<int>>, tree: seq<seq<int>> := [[1], [2], [3], [4]], [[], [1, 2, 3, 4], [1, 2], [3, 4], [1], [2], [3], [4]];
    ExampleTree(ar, tree);
    ExampleQuery(tree);
    ExampleInOrder(tree);
    ExampleFold(ar);
  }

  /** [1] + [2] and [2] + [1] differ. */
  lemma ConcatNotCommutative()
    ensures !Commutative(Concat)
  {
    assert !Commutes(Concat, [1], [2]) by {
      assert Concat([1], [2])[0] == 1 && Concat([2], [1])[0] == 2;
    }
  }

  /** The tree over [1], [2], [3], [4] under concatenation. */
  lemma ExampleTree(ar: seq<seq<int>>, tree: seq<seq<int>>)
    requires ar == [[1], [2], [3], [4]] && tree == [[], [1, 2, 3, 4], [1, 2], [3, 4], [1], [2], [3], [4]]
    ensures IsSegTree(Concat, ar, tree)
  {
    assert tree[1] == Concat(tree[2], tree[3]) by {
      assert [1, 2] + [3, 4] == [1, 2, 3, 4];
    }
    assert tree[2] == Concat(tree[4], tree[5]) by {
      assert [1] + [2] == [1, 2];
    }
    assert tree[3] == Concat(tree[6], tree[7]) by {
      assert [3] + [4] == [3, 4];
    }
  }

  /** query(0, 3) picks up [3] on the right before [1, 2] and puts it first. */
  lemma ExampleQuery(tree: seq<seq<int>>)
    requires tree == [[], [1, 2, 3, 4], [1, 2], [3, 4], [1], [2], [3], [4]]
    ensures Query(Concat, tree, 0, 3) == Some([3, 1, 2])
  {
    assert Concat([3], [1, 2]) == [3, 1, 2];
    assert Climb(Concat, tree, 2, 3, Some([3])) == Climb(Concat, tree, 1, 1, Some([3, 1, 2]));
    assert Climb(Concat, tree, 4, 7, None) == Climb(Concat, tree, 2, 3, Some([3]));
  }

  /** Keeping left and right parts apart gives [1, 2, 3]. */
  lemma ExampleInOrder(tree: seq<seq<int>>)
    requires tree == [[], [1, 2, 3, 4], [1, 2], [3, 4], [1], [2], [3], [4]]
    ensures QueryInOrder(Concat, tree, 0, 3) == Some([1, 2, 3])
  {
    assert Concat([1, 2], [3]) == [1, 2, 3];
    assert ClimbInOrder(Concat, tree, 2, 3, None, Some([3])) == ClimbInOrder(Concat, tree, 1, 1, None, Some([1, 2, 3]));
    assert ClimbInOrder(Concat, tree, 4, 7, None, None) == ClimbInOrder(Concat, tree, 2, 3, None, Some([3]));
  }

  /** The fold of the first three elements in order. */
  lemma ExampleFold(ar: seq<seq<int>>)
    requires ar == [[1], [2], [3], [4]]
    ensures SeqFold(Concat, ar, 0, 3) == [1, 2, 3]
  {
    assert SeqFold(Concat, ar, 0, 2) == [1, 2];
  }

  /**
    update(i, value): writes leaf n + i, then recomputes its ancestors from
    the bottom, stopping at the first one whose value does not change.
    Only that leaf and its ancestors change.
   */
  method Update<T(==)>(f: (T, T) -> T, ghost ar: seq<T>, tree: seq<T>, i: nat, v: T) returns (t: seq<T>)
    requires IsSegTree(f, ar, tree) && i < |ar|
    ensures IsSegTree(f, ar[i := v], t)
    ensures forall x :: 0 <= x < |t| && x !in {|ar| + i} + Above(|ar| + i) ==> t[x] == tree[x]
  {
    var n := |tree| / 2;
    ghost var a, leaf := ar[i := v], |ar| + i;
    assert n == |ar|;
    var c := n + i;
    t := tree[c := v];
    UpdateStart(f, ar, tree, i, v, t);
    while c > 1
      invariant Updating(f, a, tree, t, leaf, c)
      decreases c
    {
      ghost var below := c;
      ParentInside(below, |t|);
      c := c / 2;
      var newValue := f(t[2 * c], t[2 * c + 1]);
      if newValue != t[c] {
        ghost var before := t;
        t := t[c := newValue];
        UpdateStep(f, a, tree, before, leaf, below, t);
      } else {
        UpdateStop(f, a, tree, t, leaf, below);
        return;
      }
    }
    UpdateStop(f, a, tree, t, leaf, c);
  }

  /** The parent of a node c > 1 of a tree of size m, and its two children, are inside the tree. */
  lemma ParentInside(c: nat, m: nat)
    requires 1 < c < m && m % 2 == 0
    ensures 1 <= c / 2 && 2 * (c / 2) + 1 < m
  {
  }

  /**
    The state of update's loop: leaf has been written and every node above
    it up to c has been recomputed, so only c's parent may be stale, and
    nothing off the path from leaf to the root has changed.
   */
  ghost predicate Updating<T>(f: (T, T) -> T, a: seq<T>, tree: seq<T>, t: seq<T>, leaf: nat, c: nat)
  {
    var n := |a|;
    |tree| == 2 * n && |t| == 2 * n && n <= leaf < 2 * n && 1 <= c <= leaf && c in {leaf} + Above(leaf) &&
    (forall k :: 0 <= k < n ==> t[n + k] == a[k]) &&
    (forall x :: 1 <= x < n && x != c / 2 ==> NodeOk(f, t, x)) &&
    (forall x :: 0 <= x < 2 * n && x !in {leaf} + Above(leaf) ==> t[x] == tree[x])
  }

  /** Writing the leaf leaves only its parent stale. */
  lemma UpdateStart<T>(f: (T, T) -> T, ar: seq<T>, tree: seq<T>, i: nat, v: T, t: seq<T>)
    requires IsSegTree(f, ar, tree) && i < |ar| && t == tree[|ar| + i := v]
    ensures Updating(f, ar[i := v], tree, t, |ar| + i, |ar| + i)
  {
    var n, c := |ar|, |ar| + i;
    forall x | 1 <= x < n && x != c / 2
      ensures NodeOk(f, t, x)
    {
      assert NodeOk(f, tree, x);
    }
  }

  /** Recomputing c's parent moves the stale node one level up. */
  lemma UpdateStep<T>(f: (T, T) -> T, a: seq<T>, tree: seq<T>, before: seq<T>, leaf: nat, c: nat, t: seq<T>)
    requires Updating(f, a, tree, before, leaf, c) && c > 1
    requires t == before[c / 2 := f(before[2 * (c / 2)], before[2 * (c / 2) + 1])]
    ensures Updating(f, a, tree, t, leaf, c / 2)
  {
    AboveStep(leaf, c);
    StepNodes(f, |a|, before, c, t);
  }

  /** Recomputing node c / 2 from its children leaves only its own parent possibly stale. */
  lemma StepNodes<T>(f: (T, T) -> T, n: nat, before: seq<T>, c: nat, t: seq<T>)
    requires |before| == 2 * n && 1 < c < 2 * n
    requires forall x :: 1 <= x < n && x != c / 2 ==> NodeOk(f, before, x)
    requires t == before[c / 2 := f(before[2 * (c / 2)], before[2 * (c / 2) + 1])]
    ensures forall x :: 1 <= x < n && x != (c / 2) / 2 ==> NodeOk(f, t, x)
  {
    var p := c / 2;
    forall x | 1 <= x < n && x != p / 2
      ensures NodeOk(f, t, x)
    {
      if x != p {
        assert NodeOk(f, before, x);
      }
    }
  }

  /** When c's parent already holds the value it would get (or c is the root), the tree is whole. */
  lemma UpdateStop<T>(f: (T, T) -> T, a: seq<T>, tree: seq<T>, t: seq<T>, leaf: nat, c: nat)
    requires Updating(f, a, tree, t, leaf, c)
    requires c > 1 ==> t[c / 2] == f(t[2 * (c / 2)], t[2 * (c / 2) + 1])
    ensures IsSegTree(f, a, t)
    ensures forall x :: 0 <= x < |t| && x !in {leaf} + Above(leaf) ==> t[x] == tree[x]
  {
    forall x | 1 <= x < |a|
      ensures NodeOk(f, t, x)
    {
    }
  }
}
