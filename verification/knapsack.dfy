/**
  The 0/1 knapsack dynamic programme (Knapsack01.java and its JavaScript
  twin 01knapsack.js). Row i of the table admits the first i items, column
  w is the capacity; T[i][w] is the best value and keep[i][w] records
  whether item i - 1 was put in to reach it. Java's int arithmetic is
  taken not to overflow.
 */
module Knapsack {
  import opened Nullable

  /** Integer.MIN_VALUE, the Java code's "does not fit" marker. */
  const IntMin: int := -0x8000_0000

  /** No weight is negative. */
  ghost predicate NonNegative(weights: seq<int>)
  {
    forall k :: 0 <= k < |weights| ==> 0 <= weights[k]
  }

  /** What the source needs of its inputs: a weight for every item, none negative, and a capacity of at least 0. */
  ghost predicate Items(values: seq<int>, weights: seq<int>, wMax: int)
  {
    |values| <= |weights| && 0 <= wMax && NonNegative(weights)
  }

  /** A 0/1 vector: out[k] == 1 means item k is in the knapsack. */
  ghost predicate Choice(c: seq<int>)
  {
    forall k :: 0 <= k < |c| ==> c[k] == 0 || c[k] == 1
  }

  /** The total weight of the chosen items. */
  function Weight(weights: seq<int>, c: seq<int>): int
    requires |c| <= |weights|
  {
    if |c| == 0 then 0 else Weight(weights, c[..|c| - 1]) + c[|c| - 1] * weights[|c| - 1]
  }

  /** The total value of the chosen items. */
  function Value(values: seq<int>, c: seq<int>): int
    requires |c| <= |values|
  {
    if |c| == 0 then 0 else Value(values, c[..|c| - 1]) + c[|c| - 1] * values[|c| - 1]
  }

  /**
    The table entry (T[i][w], keep[i][w]) of run. Row 0 is all zeros and
    nothing is kept there; an item that does not fit is never kept.
   */
  function Cell(values: seq<int>, weights: seq<int>, i: nat, w: nat): (r: (int, bool))
    requires i <= |values| <= |weights| && NonNegative(weights)
    ensures i == 0 ==> r == (0, false)
    ensures r.1 ==> i > 0 && weights[i - 1] <= w
  {
    if i == 0 then (0, false)
    else
      var itemValue := values[i - 1];
      var itemWeight := weights[i - 1];
      var above := Cell(values, weights, i - 1, w).0;
      var newBest := if w - itemWeight >= 0 then itemValue + Cell(values, weights, i - 1, w - itemWeight).0 else IntMin;
      if itemWeight <= w && above < newBest then (newBest, true) else (above, false)
  }

  /**
    An item is kept exactly when it fits and strictly improves on the row
    above, so ties leave it out; either way the entry never falls below the
    row above, and it is the value of the branch taken.
   */
  lemma CellStep(values: seq<int>, weights: seq<int>, i: nat, w: nat)
    requires 0 < i <= |values| <= |weights| && NonNegative(weights)
    ensures var r := Cell(values, weights, i, w);
      var above := Cell(values, weights, i - 1, w).0;
      above <= r.0 &&
      (r.1 <==> weights[i - 1] <= w && above < values[i - 1] + Cell(values, weights, i - 1, w - weights[i - 1]).0) &&
      (r.1 ==> r.0 == values[i - 1] + Cell(values, weights, i - 1, w - weights[i - 1]).0) &&
      (!r.1 ==> r.0 == above)
  {
  }

  /**
    The retrieval loop of run from row i and capacity w up: the 0/1 vector
    for the first i items. It is a choice within the capacity whose value is
    the table entry.
   */
  function Retrieve(values: seq<int>, weights: seq<int>, i: nat, w: nat): (out: seq<int>)
    requires i <= |values| <= |weights| && NonNegative(weights)
    ensures |out| == i && Choice(out)
    ensures Weight(weights, out) <= w
    ensures Value(values, out) == Cell(values, weights, i, w).0
  {
    if i == 0 then []
    else if Cell(values, weights, i, w).1 then
      CellStep(values, weights, i, w);
      var out := Retrieve(values, weights, i - 1, w - weights[i - 1]) + [1];
      assert out[..i - 1] == Retrieve(values, weights, i - 1, w - weights[i - 1]);
      out
    else
      CellStep(values, weights, i, w);
      var out := Retrieve(values, weights, i - 1, w) + [0];
      assert out[..i - 1] == Retrieve(values, weights, i - 1, w);
      out
  }

  /** run(values, weights, wMax): the 0/1 vector of the items to keep. */
  function Run(values: seq<int>, weights: seq<int>, wMax: int): (out: seq<int>)
    requires Items(values, weights, wMax)
    ensures |out| == |values| && Choice(out) && Weight(weights, out) <= wMax
  {
    Retrieve(values, weights, |values|, wMax)
  }

  /** The value run prints and knapsack returns: T[n][wMax]. */
  function MaxValue(values: seq<int>, weights: seq<int>, wMax: int): int
    requires Items(values, weights, wMax)
  {
    Cell(values, weights, |values|, wMax).0
  }

  /** The chosen items' weight is never negative. */
  lemma {:induction false} WeightNonNegative(weights: seq<int>, c: seq<int>)
    requires |c| <= |weights| && Choice(c)
    requires NonNegative(weights)
    ensures 0 <= Weight(weights, c)
    decreases |c|
  {
    if |c| > 0 {
      WeightNonNegative(weights, c[..|c| - 1]);
    }
  }

  /** No choice of the first i items within capacity w is worth more than T[i][w]. */
  lemma {:induction false} CellIsOptimal(values: seq<int>, weights: seq<int>, i: nat, w: nat, c: seq<int>)
    requires i <= |values| <= |weights| && NonNegative(weights)
    requires |c| == i && Choice(c) && Weight(weights, c) <= w
    ensures Value(values, c) <= Cell(values, weights, i, w).0
    decreases i
  {
    if i > 0 {
      var rest := c[..i - 1];
      assert Choice(rest);
      WeightNonNegative(weights, rest);
      CellStep(values, weights, i, w);
      if c[i - 1] == 0 {
        CellIsOptimal(values, weights, i - 1, w, rest);
      } else {
        var itemWeight := weights[i - 1];
        assert itemWeight <= w;
        CellIsOptimal(values, weights, i - 1, w - itemWeight, rest);
      }
    }
  }

  /**
    run returns a best packing: its items fit, its value is the table's
    answer, and no other 0/1 choice within the capacity is worth more.
   */
  lemma RunIsOptimal(values: seq<int>, weights: seq<int>, wMax: int, c: seq<int>)
    requires Items(values, weights, wMax)
    requires |c| == |values| && Choice(c) && Weight(weights, c) <= wMax
    ensures Value(values, Run(values, weights, wMax)) == MaxValue(values, weights, wMax)
    ensures Value(values, c) <= Value(values, Run(values, weights, wMax))
  {
    CellIsOptimal(values, weights, |values|, wMax, c);
  }

  /**
    The JavaScript cell T[i][w], for a column w of 0 .. wMax. A weight past
    the end of W is undefined, and `undefined <= w` is false, so such an
    item is never kept. Reading T[i - 1] outside 0 .. wMax yields
    undefined, and the sum with it is NaN (a pair whose first component is
    false here), which compares false with everything. Weights may be
    negative: the test `W[i - 1] <= w` does not stop them.
   */
  function JsCell(values: seq<int>, weights: seq<int>, wMax: int, i: nat, w: int): (r: int)
    requires i <= |values| && 0 <= w <= wMax
  {
    if i == 0 then 0
    else
      var above := JsCell(values, weights, wMax, i - 1, w);
      if i - 1 >= |weights| then above
      else
        var itemValue := values[i - 1];
        var itemWeight := weights[i - 1];
        var newBest: (bool, int) :=
          if 0 <= w - itemWeight <= wMax then (true, itemValue + JsCell(values, weights, wMax, i - 1, w - itemWeight))
          else (false, 0);
        if itemWeight <= w && newBest.0 && above < newBest.1 then newBest.1 else above
  }

  /**
    knapsack(V, W, wMax): T[n][wMax] of the JavaScript table, or undefined
    (None) when wMax < 0 leaves every row without entries.
   */
  function JsKnapsack(values: seq<int>, weights: seq<int>, wMax: int): (r: Option<int>)
    ensures r.Some? <==> wMax >= 0
  {
    if wMax < 0 then None else Some(JsCell(values, weights, wMax, |values|, wMax))
  }

  /** On the inputs the Java code takes, the JavaScript table agrees with the Java one entry by entry. */
  lemma {:induction false} JsCellIsCell(values: seq<int>, weights: seq<int>, wMax: int, i: nat, w: int)
    requires i <= |values| <= |weights| && NonNegative(weights) && 0 <= w <= wMax
    ensures JsCell(values, weights, wMax, i, w) == Cell(values, weights, i, w).0
    decreases i
  {
    if i > 0 {
      JsCellIsCell(values, weights, wMax, i - 1, w);
      if w - weights[i - 1] >= 0 {
        JsCellIsCell(values, weights, wMax, i - 1, w - weights[i - 1]);
      }
    }
  }

  /** Items without a weight leave the JavaScript table as the items before them left it. */
  lemma {:induction false} JsSkipsUnweighed(values: seq<int>, weights: seq<int>, wMax: int, i: nat, w: int)
    requires |weights| <= i <= |values| && 0 <= w <= wMax
    ensures JsCell(values, weights, wMax, i, w) == JsCell(values, weights, wMax, |weights|, w)
    decreases i
  {
    if i > |weights| {
      JsSkipsUnweighed(values, weights, wMax, i - 1, w);
    }
  }

  /** Both versions answer the same, the best value of any packing. */
  lemma JsKnapsackIsOptimal(values: seq<int>, weights: seq<int>, wMax: int, c: seq<int>)
    requires Items(values, weights, wMax)
    requires |c| == |values| && Choice(c) && Weight(weights, c) <= wMax
    ensures JsKnapsack(values, weights, wMax) == Some(MaxValue(values, weights, wMax))
    ensures Value(values, c) <= JsKnapsack(values, weights, wMax).value
  {
    JsCellIsCell(values, weights, wMax, |values|, wMax);
    CellIsOptimal(values, weights, |values|, wMax, c);
  }

  /**
    A negative weight passes the fit test. Item 0 of weight -1 and value 5
    is kept in column 0, reading column 1 of the row above. Column 1 would
    read column 2, past wMax == 1, so there NaN leaves it out, and the
    answer is 0.
   */
  lemma JsNegativeWeight(values: seq<int>, weights: seq<int>)
    requires values == [5] && weights == [-1]
    ensures JsCell(values, weights, 1, 1, 0) == 5
    ensures JsKnapsack(values, weights, 1) == Some(0)
  {
  }

  /** The example of both main programs: keep items 1 and 3, worth 100. */
  lemma Demo(values: seq<int>, weights: seq<int>)
    requires values == [10, 40, 30, 60] && weights == [5, 4, 6, 3]
    ensures Run(values, weights, 10) == [0, 1, 0, 1]
    ensures MaxValue(values, weights, 10) == 100
    ensures JsKnapsack(values, weights, 10) == Some(100)
  {
    DemoCells(values, weights);
    var r1 := Retrieve(values, weights, 1, 3);
    assert r1 == [0];
    var r2 := Retrieve(values, weights, 2, 7);
    assert r2 == r1 + [1];
    var r3 := Retrieve(values, weights, 3, 7);
    assert r3 == r2 + [0];
    assert Retrieve(values, weights, 4, 10) == r3 + [1];
    JsCellIsCell(values, weights, 10, 4, 10);
  }

  /** The table entries the example's retrieval walks through. */
  lemma DemoCells(values: seq<int>, weights: seq<int>)
    requires values == [10, 40, 30, 60] && weights == [5, 4, 6, 3]
    ensures Cell(values, weights, 1, 3) == (0, false)
    ensures Cell(values, weights, 2, 7) == (40, true)
    ensures Cell(values, weights, 3, 7) == (40, false)
    ensures Cell(values, weights, 4, 10) == (100, true)
  {
    assert Cell(values, weights, 1, 10).0 == 10 && Cell(values, weights, 1, 6).0 == 10;
    assert Cell(values, weights, 1, 7).0 == 10 && Cell(values, weights, 1, 4).0 == 0;
    assert Cell(values, weights, 1, 0).0 == 0 && Cell(values, weights, 1, 1).0 == 0;
    assert Cell(values, weights, 2, 10).0 == 50 && Cell(values, weights, 2, 4).0 == 40;
    assert Cell(values, weights, 2, 1).0 == 0;
    assert Cell(values, weights, 3, 10).0 == 70;
  }
}
