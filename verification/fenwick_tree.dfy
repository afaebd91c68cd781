/**
  The generic Fenwick tree of FenwickTree.java, over any reversible
  operator. The tree is a value: building copies the caller's list, and an
  update returns the new tree.

  Java signals "nothing combined yet" with null; here that is None, and the
  places where the source hands such a null to the operator are Err results.
 */
module FenwickTree {
  import opened Bits
  import opened ReversibleOperator
  import opened Nullable
  import opened FenwickSpec

  /**
    The constructor's sweep: copy the array, then add each slot i into its
    parent i + LowBit(i) when that parent exists.
   */
  method Build<T(!new)>(op: Op<T>, ar: seq<T>) returns (tree: seq<T>)
    requires Associative(op.apply) && Commutative(op.apply)
    ensures IsTree(op, ar, tree)
    ensures |tree| > 0 ==> tree[0] == ar[0]
  {
    tree := ar;
    var size := |tree|;
    forall p | 1 <= p < size
      ensures tree[p] == Partial(op, ar, p, 0, 1)
    {
      PartialStart(op, ar, p);
    }
    var i := 1;
    while i < size
      invariant 1 <= i && (size > 0 ==> i <= size)
      invariant |tree| == size && (size > 0 ==> tree[0] == ar[0])
      invariant forall p :: 1 <= p < size ==> tree[p] == Partial(op, ar, p, 0, i)
    {
      var p := i + LowBit(i);
      PartialIsBlock(op, ar, i, i);
      forall q | 1 <= q < size
        ensures Partial(op, ar, q, 0, i + 1)
             == if q == p then op.apply(Partial(op, ar, q, 0, i), Block(op, ar, i))
                else Partial(op, ar, q, 0, i)
      {
        SweepStep(op, ar, q, i);
      }
      if p < size {
        tree := tree[p := op.apply(tree[p], tree[i])];
      }
      i := i + 1;
    }
    forall p | 1 <= p < size
      ensures tree[p] == Block(op, ar, p)
    {
      PartialIsBlock(op, ar, p, i);
    }
  }

  /** x when nothing has been combined yet (Java's null), else apply(q, x). */
  function Join<T>(op: Op<T>, q: Option<T>, x: T): T
  {
    if q.None? then x else op.apply(q.value, x)
  }

  /** The loop of query(i), entered at index i with accumulator q. */
  function Walk<T>(op: Op<T>, tree: seq<T>, i: nat, q: Option<T>): (r: Option<T>)
    requires i < |tree|
    ensures r.Some? <==> q.Some? || i > 0
    decreases i
  {
    if i == 0 then q
    else Walk(op, tree, i - LowBit(i), Some(Join(op, q, tree[i])))
  }

  /** query(i): the operator over positions 1 .. i, None (null) for i == 0. */
  function Query<T>(op: Op<T>, tree: seq<T>, i: nat): (r: Option<T>)
    requires i < |tree|
    ensures r.None? <==> i == 0
  {
    Walk(op, tree, i, None)
  }

  /** The reference meaning of query(i): the fold of ar[1..i], or nothing. */
  function Prefix<T>(op: Op<T>, ar: seq<T>, i: nat): Option<T>
    requires i < |ar|
  {
    if i == 0 then None else Some(Fold(op, ar, 0, i))
  }

  lemma {:induction false} WalkFold<T(!new)>(op: Op<T>, ar: seq<T>, tree: seq<T>, i: nat, q: Option<T>)
    requires Associative(op.apply) && Commutative(op.apply) && IsTree(op, ar, tree)
    requires 1 <= i < |tree|
    ensures Walk(op, tree, i, q) == Some(Join(op, q, Fold(op, ar, 0, i)))
    decreases i
  {
    var m := i - LowBit(i);
    var q' := Some(Join(op, q, tree[i]));
    if m > 0 {
      WalkFold(op, ar, tree, m, q');
      var a := Fold(op, ar, 0, m);
      var b := Fold(op, ar, m, i);
      FoldSplit(op, ar, 0, m, i);
      if q.None? {
        assert Commutes(op.apply, b, a);
      } else {
        Swap(op, q.value, b, a);
        assert Associates(op.apply, q.value, a, b);
      }
    }
  }

  /** After construction, query(i) is the fold of ar[1..i]. */
  lemma QueryIsPrefix<T(!new)>(op: Op<T>, ar: seq<T>, tree: seq<T>, i: nat)
    requires Associative(op.apply) && Commutative(op.apply) && IsTree(op, ar, tree)
    requires i < |tree|
    ensures Query(op, tree, i) == Prefix(op, ar, i)
  {
    if i > 0 {
      WalkFold(op, ar, tree, i, None);
    }
  }

  /** Iterations of query(i)'s loop: one per set bit of i. */
  function QuerySteps(i: nat): nat
    decreases i
  {
    if i == 0 then 0 else 1 + QuerySteps(i - LowBit(i))
  }

  lemma {:induction false} QueryStepsBelow(i: nat, n: nat)
    requires 1 <= i < Pow2(n)
    ensures LowExp(i) < n
    ensures QuerySteps(i) <= n - LowExp(i)
    decreases i
  {
    if n <= LowExp(i) {
      Pow2Le(n, LowExp(i));
    }
    if i > LowBit(i) {
      ClearExp(i);
      QueryStepsBelow(i - LowBit(i), n);
    }
  }

  /** query(i) for i below 2^n strips a bit per iteration and so stops within n iterations. */
  lemma QueryStepsBound(i: nat, n: nat)
    requires i < Pow2(n)
    ensures QuerySteps(i) <= n
  {
    if i > 0 {
      QueryStepsBelow(i, n);
    }
  }

  /**
    query(i, j): undo(query(j), query(i - 1)) when i > 1, else query(j).
    When i > 1 and j == 0 the source hands the null query(0) to undo.
   */
  function QueryRange<T>(op: Op<T>, tree: seq<T>, i: int, j: nat): (r: Result<Option<T>>)
    requires i <= |tree| && j < |tree|
    ensures r.Err? <==> i > 1 && j == 0
    ensures i <= 1 ==> r == Ok(Query(op, tree, j))
  {
    if i > 1 then
      if j == 0 then Err(NullOperand)
      else Ok(Some(op.undo(Query(op, tree, j).value, Query(op, tree, i - 1).value)))
    else Ok(Query(op, tree, j))
  }

  /** On a non-empty range i..j the result is the fold of ar[i..j]. */
  lemma QueryRangeFold<T(!new)>(op: Op<T>, ar: seq<T>, tree: seq<T>, i: int, j: nat)
    requires Lawful(op) && IsTree(op, ar, tree)
    requires i <= j < |tree| && 1 <= j
    ensures QueryRange(op, tree, i, j) == Ok(Some(Fold(op, ar, if i > 1 then i - 1 else 0, j)))
  {
    QueryIsPrefix(op, ar, tree, j);
    if i > 1 {
      QueryIsPrefix(op, ar, tree, i - 1);
      var a := Fold(op, ar, 0, i - 1);
      var b := Fold(op, ar, i - 1, j);
      FoldSplit(op, ar, 0, i - 1, j);
      assert Commutes(op.apply, a, b);
    }
  }

  /**
    valueAt(i) as written: undo(query(i), query(i - 1)). For i <= 1 the
    second operand is the null query(0) (and for i == 0 the first too).
   */
  function ValueAtAsWritten<T>(op: Op<T>, tree: seq<T>, i: nat): (r: Result<T>)
    requires i < |tree|
    ensures r.Err? <==> i <= 1
  {
    if i <= 1 then Err(NullOperand)
    else Ok(op.undo(Query(op, tree, i).value, Query(op, tree, i - 1).value))
  }

  /** valueAt(i) with the empty prefix before position 1 handled. */
  function ValueAt<T>(op: Op<T>, tree: seq<T>, i: nat): T
    requires 1 <= i < |tree|
  {
    if i == 1 then Query(op, tree, 1).value
    else op.undo(Query(op, tree, i).value, Query(op, tree, i - 1).value)
  }

  /** valueAt returns the logical element. */
  lemma ValueAtIsElement<T(!new)>(op: Op<T>, ar: seq<T>, tree: seq<T>, i: nat)
    requires Lawful(op) && IsTree(op, ar, tree)
    requires 1 <= i < |tree|
    ensures ValueAt(op, tree, i) == ar[i]
    ensures i >= 2 ==> ValueAtAsWritten(op, tree, i) == Ok(ar[i])
  {
    QueryIsPrefix(op, ar, tree, i);
    if i >= 2 {
      QueryIsPrefix(op, ar, tree, i - 1);
      assert Commutes(op.apply, Fold(op, ar, 0, i - 1), ar[i]);
    }
  }

  /** The source's valueAt(1) fails on every tree, although position 1 holds a value. */
  lemma ValueAtOneFails<T>(op: Op<T>, tree: seq<T>)
    requires 2 <= |tree|
    ensures ValueAtAsWritten(op, tree, 1) == Err(NullOperand)
    ensures Query(op, tree, 1).Some?
  {
  }

  /**
    The private apply(i, k): combine k into slot i and every slot on the
    parent chain i + LowBit(i), ... that lies inside the tree.
   */
  function Propagate<T>(op: Op<T>, tree: seq<T>, i: nat, k: T): (r: seq<T>)
    requires i >= 1
    ensures |r| == |tree|
    ensures forall p :: 0 <= p < |tree| && p < i ==> r[p] == tree[p]
    ensures i >= |tree| ==> r == tree
    decreases |tree| - i
  {
    if i >= |tree| then tree
    else Propagate(op, tree[i := op.apply(tree[i], k)], i + LowBit(i), k)
  }

  /** A write below the start index commutes with the walk. */
  lemma {:induction false} PropagateWriteBelow<T>(op: Op<T>, t: seq<T>, i: nat, k: T, p: nat, x: T)
    requires 1 <= i && p < i && p < |t|
    ensures Propagate(op, t, i, k)[p := x] == Propagate(op, t[p := x], i, k)
    decreases |t| - i
  {
    if i < |t| {
      var y := op.apply(t[i], k);
      PropagateWriteBelow(op, t[i := y], i + LowBit(i), k, p, x);
      assert t[i := y][p := x] == t[p := x][i := y];
    }
  }

  /**
    Mid-walk state of Propagate started at i0: slots left of c already
    describe the updated array, the rest still describe the old one, and
    c's block contains i0.
   */
  lemma {:induction false} PropagateFrom<T(!new)>(op: Op<T>, ar: seq<T>, i0: nat, k: T, t: seq<T>, c: nat)
    requires Associative(op.apply) && Commutative(op.apply)
    requires 1 <= i0 < |ar| && |t| == |ar|
    requires 1 <= c && c - LowBit(c) < i0 <= c
    requires forall p :: 1 <= p < |t| ==>
      t[p] == if p < c then Block(op, ar[i0 := op.apply(ar[i0], k)], p) else Block(op, ar, p)
    ensures IsTree(op, ar[i0 := op.apply(ar[i0], k)], Propagate(op, t, c, k))
    decreases |t| - c
  {
    var ar' := ar[i0 := op.apply(ar[i0], k)];
    if c < |t| {
      var t' := t[c := op.apply(t[c], k)];
      var c' := c + LowBit(c);
      FoldPoint(op, ar, c - LowBit(c), c, i0, k);
      forall p | c < p < c' && p < |t|
        ensures Block(op, ar', p) == Block(op, ar, p)
      {
        BetweenParent(c, p);
        FoldOutside(op, ar, p - LowBit(p), p, i0, op.apply(ar[i0], k));
      }
      ParentCovers(c);
      PropagateFrom(op, ar, i0, k, t', c');
    }
  }

  /** apply(i, k) keeps the tree well formed for the array with k combined into position i. */
  lemma PropagateKeepsTree<T(!new)>(op: Op<T>, ar: seq<T>, tree: seq<T>, i: nat, k: T)
    requires Associative(op.apply) && Commutative(op.apply) && IsTree(op, ar, tree)
    requires 1 <= i < |tree|
    ensures IsTree(op, ar[i := op.apply(ar[i], k)], Propagate(op, tree, i, k))
  {
    forall p | 1 <= p < i
      ensures Block(op, ar[i := op.apply(ar[i], k)], p) == Block(op, ar, p)
    {
      FoldOutside(op, ar, p - LowBit(p), p, i, op.apply(ar[i], k));
    }
    PropagateFrom(op, ar, i, k, tree, i);
  }

  /** update(i, v) as written: fails wherever its valueAt(i) does. */
  function UpdateAsWritten<T>(op: Op<T>, tree: seq<T>, i: nat, v: T): (r: Result<seq<T>>)
    requires i < |tree|
    ensures r.Err? <==> i <= 1
  {
    match ValueAtAsWritten(op, tree, i)
    case Err(f) => Err(f)
    case Ok(orig) => Ok(Propagate(op, tree, i, op.undo(v, orig)))
  }

  /** update(i, v): apply(i, undo(v, valueAt(i))), with the corrected valueAt. */
  function Update<T>(op: Op<T>, tree: seq<T>, i: nat, v: T): (r: seq<T>)
    requires 1 <= i < |tree|
    ensures |r| == |tree| && r[0] == tree[0]
  {
    Propagate(op, tree, i, op.undo(v, ValueAt(op, tree, i)))
  }

  /** update(i, v) sets position i of the logical array to v and nothing else. */
  lemma UpdateSetsElement<T(!new)>(op: Op<T>, ar: seq<T>, tree: seq<T>, i: nat, v: T)
    requires Lawful(op) && IsTree(op, ar, tree)
    requires 1 <= i < |tree|
    ensures IsTree(op, ar[i := v], Update(op, tree, i, v))
    ensures i >= 2 ==> UpdateAsWritten(op, tree, i, v) == Ok(Update(op, tree, i, v))
  {
    ValueAtIsElement(op, ar, tree, i);
    PropagateKeepsTree(op, ar, tree, i, op.undo(v, ar[i]));
    assert Commutes(op.apply, ar[i], op.undo(v, ar[i]));
    assert ar[i := op.apply(ar[i], op.undo(v, ar[i]))] == ar[i := v];
  }

  /**
    After update(i, v): valueAt(i) == v, every query(j) with j < i is
    unchanged and every query(j) with j >= i absorbs the delta undo(v, old).
   */
  lemma UpdateQueries<T(!new)>(op: Op<T>, ar: seq<T>, tree: seq<T>, i: nat, v: T, j: nat)
    requires Lawful(op) && IsTree(op, ar, tree)
    requires 1 <= i < |tree| && j < |tree|
    ensures ValueAt(op, Update(op, tree, i, v), i) == v
    ensures j < i ==> Query(op, Update(op, tree, i, v), j) == Query(op, tree, j)
    ensures j >= i ==>
      Query(op, Update(op, tree, i, v), j)
        == Some(op.apply(Query(op, tree, j).value, op.undo(v, ValueAt(op, tree, i))))
  {
    var t' := Update(op, tree, i, v);
    var d := op.undo(v, ar[i]);
    UpdateSetsElement(op, ar, tree, i, v);
    ValueAtIsElement(op, ar, tree, i);
    ValueAtIsElement(op, ar[i := v], t', i);
    QueryIsPrefix(op, ar, tree, j);
    QueryIsPrefix(op, ar[i := v], t', j);
    assert Commutes(op.apply, ar[i], d);
    assert ar[i := v] == ar[i := op.apply(ar[i], d)];
    if 1 <= j < i {
      FoldOutside(op, ar, 0, j, i, v);
    } else if j >= i {
      FoldPoint(op, ar, 0, j, i, d);
    }
  }

  /** The array of the source's demonstration; position 0 is ignored. */
  const DemoArray: seq<int> := [0, 5, 2, 9, -3, 5, 20, 10, -7, 2, 3, -4, 0, -2, 15, 5]

  /** The demonstration: valueAt(3), query(1, 3), then query(1, 3) after update(2, 20). */
  lemma Demo(tree: seq<int>)
    requires IsTree(Addition, DemoArray, tree)
    ensures ValueAt(Addition, tree, 3) == 9
    ensures QueryRange(Addition, tree, 1, 3) == Ok(Some(16))
    ensures QueryRange(Addition, Update(Addition, tree, 2, 20), 1, 3) == Ok(Some(34))
  {
    AdditionLawful();
    ValueAtIsElement(Addition, DemoArray, tree, 3);
    QueryRangeFold(Addition, DemoArray, tree, 1, 3);
    UpdateSetsElement(Addition, DemoArray, tree, 2, 20);
    QueryRangeFold(Addition, DemoArray[2 := 20], Update(Addition, tree, 2, 20), 1, 3);
    assert Fold(Addition, DemoArray, 0, 3) == 16;
    assert Fold(Addition, DemoArray[2 := 20], 0, 3) == 34;
  }
}
