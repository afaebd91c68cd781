/**
  The reversible binary operator a generic Fenwick tree is built over
  (ReversableOperator.java): `apply(a, b)` combines two values and
  `undo(c, b)` takes a combined value and the removed operand `b` and
  gives back the left operand.
 */
module ReversibleOperator {

  /** An operator pair; both functions are total on T. */
  datatype Op<!T> = Op(apply: (T, T) -> T, undo: (T, T) -> T)

  /** The one law the interface states: undo(apply(a, b), b) == a. */
  ghost predicate Reverses<T(!new)>(op: Op<T>)
  {
    forall a: T, b: T :: op.undo(op.apply(a, b), b) == a
  }

  /** undo is also a right inverse: every c is reached again by apply. */
  ghost predicate Restores<T(!new)>(op: Op<T>)
  {
    forall c: T, b: T :: op.apply(op.undo(c, b), b) == c
  }

  /** Associativity of f at one triple of operands. */
  ghost predicate Associates<T>(f: (T, T) -> T, a: T, b: T, c: T)
  {
    f(f(a, b), c) == f(a, f(b, c))
  }

  /** Commutativity of f at one pair of operands. */
  ghost predicate Commutes<T>(f: (T, T) -> T, a: T, b: T)
  {
    f(a, b) == f(b, a)
  }

  /**
    The two grouping laws, for any binary function (an operator's apply,
    a segment tree's combiner). They are quantified over the
    single-instance predicates above, so a proof uses them only where it
    names an instance.
   */
  ghost predicate Associative<T(!new)>(f: (T, T) -> T)
  {
    forall a: T, b: T, c: T :: Associates(f, a, b, c)
  }

  ghost predicate Commutative<T(!new)>(f: (T, T) -> T)
  {
    forall a: T, b: T :: Commutes(f, a, b)
  }

  /**
    What the Fenwick trees need of their operator. The interface itself
    states only Reverses; the trees combine blocks out of positional
    order (so apply must be associative and commutative), and an update
    writes apply(old, undo(new, old)) and expects new (so undo must
    restore).
   */
  ghost predicate Lawful<T(!new)>(op: Op<T>)
  {
    Reverses(op) && Restores(op) && Associative(op.apply) && Commutative(op.apply)
  }

  /** Integer addition undone by subtraction: the canonical instance. */
  const Addition: Op<int> := Op((a: int, b: int) => a + b, (c: int, b: int) => c - b)

  /** Boolean exclusive-or, which is its own undo. */
  const Exclusive: Op<bool> := Op((a: bool, b: bool) => a != b, (c: bool, b: bool) => c != b)

  lemma AdditionLawful()
    ensures Lawful(Addition)
  {
  }

  lemma ExclusiveLawful()
    ensures Lawful(Exclusive)
  {
    ExclusiveAssociative();
    ExclusiveReverses();
    ExclusiveRestores();
    ExclusiveCommutative();
  }

  lemma ExclusiveAssociative()
    ensures Associative(Exclusive.apply)
  {
    forall a: bool, b: bool, c: bool
      ensures Associates(Exclusive.apply, a, b, c)
    {
    }
  }

  lemma ExclusiveReverses()
    ensures Reverses(Exclusive)
  {
    forall a: bool, b: bool
      ensures Exclusive.undo(Exclusive.apply(a, b), b) == a
    {
    }
  }

  lemma ExclusiveRestores()
    ensures Restores(Exclusive)
  {
    forall c: bool, b: bool
      ensures Exclusive.apply(Exclusive.undo(c, b), b) == c
    {
    }
  }

  lemma ExclusiveCommutative()
    ensures Commutative(Exclusive.apply)
  {
    forall a: bool, b: bool
      ensures Commutes(Exclusive.apply, a, b)
    {
    }
  }

  /**
    Max has no undo: whatever undo is paired with it, the reversal law
    fails, because max(0, 1) and max(1, 1) are both 1.
   */
  lemma MaxHasNoUndo(undo: (int, int) -> int)
    ensures !Reverses(Op((a: int, b: int) => if a < b then b else a, undo))
  {
    var op := Op((a: int, b: int) => if a < b then b else a, undo);
    assert op.undo(op.apply(0, 1), 1) == op.undo(op.apply(1, 1), 1);
  }

  /** Likewise min: min(1, 0) and min(0, 0) are both 0. */
  lemma MinHasNoUndo(undo: (int, int) -> int)
    ensures !Reverses(Op((a: int, b: int) => if a < b then a else b, undo))
  {
    var op := Op((a: int, b: int) => if a < b then a else b, undo);
    assert op.undo(op.apply(1, 0), 0) == op.undo(op.apply(0, 0), 0);
  }

  /**
    Argument order matters: undo takes the combined value first and the
    removed operand second. Swapping them under addition negates the result.
   */
  lemma UndoOrderMatters(a: int, b: int)
    requires a != 0
    ensures Addition.undo(Addition.apply(a, b), b) == a
    ensures Addition.undo(b, Addition.apply(a, b)) == -a
  {
  }
}
