/**
  MxCost.java: not a matrix but its dimensions, the number of scalar
  multiplications spent producing it, and the two factors it was
  multiplied from, so the chosen order can be traced back.
 */
module MatrixCost {
  import opened Text

  /** Leaf is a base matrix (left and right are null); Split holds the two factors. */
  datatype Split = Leaf | Split(left: MxCost, right: MxCost)

  datatype MxCost = MxCost(rows: int, cols: int, cost: int, split: Split)

  /** The public constructor: a base matrix costs nothing and has no factors. */
  function Base(rows: int, cols: int): MxCost
  {
    MxCost(rows, cols, 0, Leaf)
  }

  /**
    a.multiply(m): a rows x m cols matrix whose cost adds the
    a.rows * a.cols * m.cols scalar products of this step to the cost of
    both factors. Nothing checks that a.cols == m.rows.
   */
  function Multiply(a: MxCost, m: MxCost): MxCost
  {
    MxCost(a.rows, m.cols, a.rows * a.cols * m.cols + a.cost + m.cost, Split(a, m))
  }

  /** The base matrices a product was built from, left to right. */
  function Leaves(m: MxCost): seq<MxCost>
  {
    match m.split
    case Leaf => [m]
    case Split(l, r) => Leaves(l) + Leaves(r)
  }

  /** A product every step of which was made by Multiply from base matrices. */
  ghost predicate Built(m: MxCost)
  {
    match m.split
    case Leaf => m.cost == 0
    case Split(l, r) => Built(l) && Built(r) && m == Multiply(l, r)
  }

  /** Every step of the product joined a matrix to one with as many rows as it has columns. */
  ghost predicate Compatible(m: MxCost)
  {
    match m.split
    case Leaf => true
    case Split(l, r) => Compatible(l) && Compatible(r) && l.cols == r.rows
  }

  /**
    Multiplying keeps a product traceable: its leaves are the factors'
    leaves in order, and it is built from base matrices if they are.
   */
  lemma MultiplyBuilds(a: MxCost, m: MxCost)
    ensures Leaves(Multiply(a, m)) == Leaves(a) + Leaves(m)
    ensures Built(a) && Built(m) ==> Built(Multiply(a, m))
    ensures Compatible(Multiply(a, m)) <==> Compatible(a) && Compatible(m) && a.cols == m.rows
  {
  }

  /** make(dims): matrix i has dims[i] rows and dims[i + 1] columns. */
  function Make(dims: seq<int>): (l: seq<MxCost>)
    ensures |l| == if |dims| == 0 then 0 else |dims| - 1
    ensures forall i :: 0 <= i < |l| ==> l[i] == Base(dims[i], dims[i + 1])
  {
    if |dims| <= 1 then [] else [Base(dims[0], dims[1])] + Make(dims[1..])
  }

  /** The dimension list of a chain of matrices: the first one's rows, then every column count. */
  function Dims(l: seq<MxCost>): (dims: seq<int>)
    ensures |dims| == if |l| == 0 then 0 else |l| + 1
  {
    if |l| == 0 then [] else [l[0].rows] + seq(|l|, i requires 0 <= i < |l| => l[i].cols)
  }

  /**
    make builds a chain of compatible base matrices from which the
    dimensions can be read back.
   */
  lemma MakeRoundTrip(dims: seq<int>)
    requires |dims| >= 2
    ensures Dims(Make(dims)) == dims
    ensures forall i :: 0 <= i < |Make(dims)| - 1 ==> Make(dims)[i].cols == Make(dims)[i + 1].rows
  {
    var l := Make(dims);
    assert forall i :: 1 <= i < |dims| ==> Dims(l)[i] == l[i - 1].cols == dims[i];
  }

  /** How often c occurs in s. */
  function Count(s: string, c: char): nat
  {
    if |s| == 0 then 0 else Count(s[..|s| - 1], c) + (if s[|s| - 1] == c then 1 else 0)
  }

  lemma {:induction false} CountConcat(s: string, t: string, c: char)
    ensures Count(s + t, c) == Count(s, c) + Count(t, c)
    decreases |t|
  {
    if |t| > 0 {
      assert (s + t)[..|s + t| - 1] == s + t[..|t| - 1];
      CountConcat(s, t[..|t| - 1], c);
    } else {
      assert s + t == s;
    }
  }

  lemma {:induction false} CountAbsent(s: string, c: char)
    requires forall k :: 0 <= k < |s| ==> s[k] != c
    ensures Count(s, c) == 0
    decreases |s|
  {
    if |s| > 0 {
      CountAbsent(s[..|s| - 1], c);
    }
  }

  /** printSeq(root): "RxC" for a base matrix, "(" left "*" right ")" for a product. */
  function PrintSeq(m: MxCost): string
  {
    match m.split
    case Leaf => IntToString(m.rows) + "x" + IntToString(m.cols)
    case Split(l, r) => "(" + PrintSeq(l) + "*" + PrintSeq(r) + ")"
  }

  /**
    The printed order has one "*" and one pair of parentheses per
    multiplication: one fewer than there are base matrices.
   */
  lemma {:induction false} PrintSeqCounts(m: MxCost)
    ensures Count(PrintSeq(m), '*') == |Leaves(m)| - 1
    ensures Count(PrintSeq(m), '(') == |Leaves(m)| - 1 == Count(PrintSeq(m), ')')
  {
    match m.split
    case Leaf =>
      var s := PrintSeq(m);
      assert forall k :: 0 <= k < |s| ==> s[k] == 'x' || s[k] == '-' || '0' <= s[k] <= '9';
      CountAbsent(s, '*');
      CountAbsent(s, '(');
      CountAbsent(s, ')');
    case Split(l, r) =>
      PrintSeqCounts(l);
      PrintSeqCounts(r);
      var a, b := PrintSeq(l), PrintSeq(r);
      assert PrintSeq(m) == "(" + a + "*" + b + ")";
      forall c | c in "*()"
        ensures Count(PrintSeq(m), c) == Count(a, c) + Count(b, c) + Count("(", c) + Count("*", c) + Count(")", c)
      {
        CountConcat("(" + a + "*" + b, ")", c);
        CountConcat("(" + a + "*", b, c);
        CountConcat("(" + a, "*", c);
        CountConcat("(", a, c);
      }
  }

  /** The documented rendering "((1x3*3x5)*5x7)". */
  lemma PrintSeqExample()
    ensures PrintSeq(Multiply(Multiply(Base(1, 3), Base(3, 5)), Base(5, 7))) == "((1x3*3x5)*5x7)"
  {
  }

  /**
    The class's main method: multiplying 10x3, 3x5 and 5x2 left first
    costs 250 scalar products, right first only 90.
   */
  lemma Demo()
    ensures Multiply(Multiply(Base(10, 3), Base(3, 5)), Base(5, 2)).cost == 250
    ensures Multiply(Base(10, 3), Multiply(Base(3, 5), Base(5, 2))).cost == 90
  {
  }
}
