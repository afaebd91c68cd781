/**
  MatrixChainMultiplicationRecursive.java: the cheapest order in which to
  multiply the chain dims[i] .. dims[j], by trying every split point k and
  recursing on both halves, plainly, with a memo, and on a bare int array
  of dimensions. Java's int arithmetic is taken not to overflow.
 */
module MatrixChainRecursive {
  import opened Nullable
  import opened MatrixCost

  /** Integer.MAX_VALUE, the starting minimum of the int version. */
  const IntMax: int := 0x7fff_ffff

  /**
    cost(dims, i, j): dims[i] itself for a single matrix, otherwise the
    cheapest product of the two halves over all split points. The result
    has the first matrix's rows and the last matrix's columns.
   */
  function Cost(dims: seq<MxCost>, i: nat, j: nat): (r: MxCost)
    requires i <= j < |dims|
    ensures r.rows == dims[i].rows && r.cols == dims[j].cols
    decreases j - i, 1, 0
  {
    if i == j then dims[i] else Scan(dims, i, j, j).value
  }

  /**
    The loop over split points k = i .. kEnd - 1: the product of the halves
    at the first k whose cost is smallest (a later split replaces the
    minimum only when strictly cheaper).
   */
  function Scan(dims: seq<MxCost>, i: nat, j: nat, kEnd: nat): (r: Option<MxCost>)
    requires i <= kEnd <= j < |dims|
    ensures r.Some? <==> i < kEnd
    ensures r.Some? ==> r.value.rows == dims[i].rows && r.value.cols == dims[j].cols
    decreases j - i, 0, kEnd
  {
    if kEnd == i then None
    else
      var min := Scan(dims, i, j, kEnd - 1);
      var k := kEnd - 1;
      var result := Multiply(Cost(dims, i, k), Cost(dims, k + 1, j));
      if min.None? || min.value.cost > result.cost then Some(result) else min
  }

  /** The candidate the loop builds at split point k. */
  function Candidate(dims: seq<MxCost>, i: nat, j: nat, k: nat): MxCost
    requires i <= k < j < |dims|
  {
    Multiply(Cost(dims, i, k), Cost(dims, k + 1, j))
  }

  /**
    The loop's minimum is a candidate at some split k, every earlier split
    is strictly dearer, and no split before kEnd is cheaper.
   */
  lemma {:induction false} ScanIsFirstMinimum(dims: seq<MxCost>, i: nat, j: nat, kEnd: nat)
    requires i < kEnd <= j < |dims|
    ensures exists k :: i <= k < kEnd && Scan(dims, i, j, kEnd).value == Candidate(dims, i, j, k) &&
                        (forall k' :: i <= k' < k ==> Candidate(dims, i, j, k').cost > Candidate(dims, i, j, k).cost)
    ensures forall k :: i <= k < kEnd ==> Scan(dims, i, j, kEnd).value.cost <= Candidate(dims, i, j, k).cost
    decreases kEnd
  {
    var r := Scan(dims, i, j, kEnd);
    if kEnd - 1 > i {
      ScanIsFirstMinimum(dims, i, j, kEnd - 1);
      var min := Scan(dims, i, j, kEnd - 1);
      var k0 :| i <= k0 < kEnd - 1 && min.value == Candidate(dims, i, j, k0) &&
        forall k' :: i <= k' < k0 ==> Candidate(dims, i, j, k').cost > Candidate(dims, i, j, k0).cost;
      if min.value.cost > Candidate(dims, i, j, kEnd - 1).cost {
        assert r.value == Candidate(dims, i, j, kEnd - 1);
      } else {
        assert r.value == Candidate(dims, i, j, k0);
      }
    } else {
      assert r.value == Candidate(dims, i, j, i);
    }
  }

  /**
    t is one way of multiplying out dims[i] .. dims[j]: a single matrix is
    itself, anything longer is the Multiply of a bracketing of a first part
    and one of the rest.
   */
  ghost predicate Bracketing(dims: seq<MxCost>, t: MxCost, i: nat, j: nat)
    requires i <= j < |dims|
    decreases j - i
  {
    if i == j then t == dims[i]
    else
      t.split.Split? && t == Multiply(t.split.left, t.split.right) &&
      exists k :: i <= k < j && Bracketing(dims, t.split.left, i, k) && Bracketing(dims, t.split.right, k + 1, j)
  }

  /** Every bracketing has the first matrix's rows and the last one's columns. */
  lemma {:induction false} BracketingShape(dims: seq<MxCost>, t: MxCost, i: nat, j: nat)
    requires i <= j < |dims| && Bracketing(dims, t, i, j)
    ensures t.rows == dims[i].rows && t.cols == dims[j].cols
    decreases j - i
  {
    if i < j {
      var k :| i <= k < j && Bracketing(dims, t.split.left, i, k) && Bracketing(dims, t.split.right, k + 1, j);
      BracketingShape(dims, t.split.left, i, k);
      BracketingShape(dims, t.split.right, k + 1, j);
    }
  }

  /**
    cost(dims, i, j) is optimal: it is itself a way of multiplying out the
    chain, and no other way costs less.
   */
  lemma {:induction false} CostIsOptimal(dims: seq<MxCost>, t: MxCost, i: nat, j: nat)
    requires i <= j < |dims| && Bracketing(dims, t, i, j)
    ensures Bracketing(dims, Cost(dims, i, j), i, j)
    ensures Cost(dims, i, j).cost <= t.cost
    decreases j - i
  {
    if i < j {
      var k :| i <= k < j && Bracketing(dims, t.split.left, i, k) && Bracketing(dims, t.split.right, k + 1, j);
      CostIsOptimal(dims, t.split.left, i, k);
      CostIsOptimal(dims, t.split.right, k + 1, j);
      BracketingShape(dims, t.split.left, i, k);
      BracketingShape(dims, t.split.right, k + 1, j);
      ScanIsFirstMinimum(dims, i, j, j);
      var c := Candidate(dims, i, j, k);
      var step := dims[i].rows * dims[k].cols * dims[j].cols;
      assert c.cost == step + Cost(dims, i, k).cost + Cost(dims, k + 1, j).cost;
      assert t.cost == step + t.split.left.cost + t.split.right.cost;
      var k0 :| i <= k0 < j && Scan(dims, i, j, j).value == Candidate(dims, i, j, k0) &&
        forall k' :: i <= k' < k0 ==> Candidate(dims, i, j, k').cost > Candidate(dims, i, j, k0).cost;
      CostIsBracketing(dims, i, k0);
      CostIsBracketing(dims, k0 + 1, j);
    }
  }

  /** cost(dims, i, j) multiplies out exactly dims[i] .. dims[j]. */
  lemma {:induction false} CostIsBracketing(dims: seq<MxCost>, i: nat, j: nat)
    requires i <= j < |dims|
    ensures Bracketing(dims, Cost(dims, i, j), i, j)
    decreases j - i
  {
    if i < j {
      ScanIsFirstMinimum(dims, i, j, j);
      var k :| i <= k < j && Scan(dims, i, j, j).value == Candidate(dims, i, j, k) &&
        forall k' :: i <= k' < k ==> Candidate(dims, i, j, k').cost > Candidate(dims, i, j, k).cost;
      CostIsBracketing(dims, i, k);
      CostIsBracketing(dims, k + 1, j);
    }
  }

  /** The memo holds only solved sub-chains: key (i, j) maps to cost(dims, i, j). */
  ghost predicate MemoOk(dims: seq<MxCost>, memo: map<(nat, nat), MxCost>)
  {
    forall key :: key in memo ==> key.0 <= key.1 < |dims| && memo[key] == Cost(dims, key.0, key.1)
  }

  /**
    cost(dims, i, j, solutions): the memoised recursion, keyed by (i, j).
    It returns what the plain recursion returns, and leaves a memo that
    still holds only solved sub-chains.
   */
  function MemoCost(dims: seq<MxCost>, i: nat, j: nat, memo: map<(nat, nat), MxCost>): (r: (MxCost, map<(nat, nat), MxCost>))
    requires i <= j < |dims| && MemoOk(dims, memo)
    ensures r.0 == Cost(dims, i, j) && MemoOk(dims, r.1)
    decreases j - i, 1, 0
  {
    if i == j then (dims[i], memo)
    else if (i, j) in memo then (memo[(i, j)], memo)
    else
      var (min, memo1) := MemoScan(dims, i, j, j, memo);
      (min.value, memo1[(i, j) := min.value])
  }

  /** The memoised loop over split points, threading the memo through the calls in order. */
  function MemoScan(dims: seq<MxCost>, i: nat, j: nat, kEnd: nat, memo: map<(nat, nat), MxCost>): (r: (Option<MxCost>, map<(nat, nat), MxCost>))
    requires i <= kEnd <= j < |dims| && MemoOk(dims, memo)
    ensures r.0 == Scan(dims, i, j, kEnd) && MemoOk(dims, r.1)
    decreases j - i, 0, kEnd
  {
    if kEnd == i then (None, memo)
    else
      var (min, memo1) := MemoScan(dims, i, j, kEnd - 1, memo);
      var k := kEnd - 1;
      var (leftMx, memo2) := MemoCost(dims, i, k, memo1);
      var (rightMx, memo3) := MemoCost(dims, k + 1, j, memo2);
      var result := Multiply(leftMx, rightMx);
      if min.None? || min.value.cost > result.cost then (Some(result), memo3) else (min, memo3)
  }

  /** The cheapest of two counts. */
  function Min(a: int, b: int): int
  {
    if a < b then a else b
  }

  /**
    cost(p, i, j) on the dimension array, with matrices numbered from 1:
    matrix m is p[m - 1] x p[m]. The minimum starts at Integer.MAX_VALUE.
   */
  function PCost(p: seq<int>, i: nat, j: nat): int
    requires 1 <= i <= j < |p|
    decreases j - i, 1, 0
  {
    if i == j then 0 else PScan(p, i, j, j)
  }

  /** The int version's loop over split points k = i .. kEnd - 1. */
  function PScan(p: seq<int>, i: nat, j: nat, kEnd: nat): int
    requires 1 <= i <= kEnd <= j < |p|
    decreases j - i, 0, kEnd
  {
    if kEnd == i then IntMax
    else
      var min := PScan(p, i, j, kEnd - 1);
      var k := kEnd - 1;
      var count := PCost(p, i, k) + PCost(p, k + 1, j) + p[i - 1] * p[k] * p[j];
      if count < min then count else min
  }

  /** No dimension is negative. */
  ghost predicate NonNegative(p: seq<int>)
  {
    forall k :: 0 <= k < |p| ==> 0 <= p[k]
  }

  /** No matrix of the chain has a negative dimension or cost. */
  ghost predicate AllNonNegative(dims: seq<MxCost>)
  {
    forall k :: 0 <= k < |dims| ==> 0 <= dims[k].rows && 0 <= dims[k].cols && 0 <= dims[k].cost
  }

  /** A chain without negative dimensions or costs is never multiplied out at a negative cost. */
  lemma {:induction false} CostNonNegative(dims: seq<MxCost>, i: nat, j: nat)
    requires AllNonNegative(dims) && i <= j < |dims|
    ensures Cost(dims, i, j).cost >= 0
    decreases j - i, 1, 0
  {
    if i < j {
      ScanNonNegative(dims, i, j, j);
    }
  }

  lemma {:induction false} ScanNonNegative(dims: seq<MxCost>, i: nat, j: nat, kEnd: nat)
    requires AllNonNegative(dims) && i < kEnd <= j < |dims|
    ensures Scan(dims, i, j, kEnd).value.cost >= 0
    decreases j - i, 0, kEnd
  {
    var k := kEnd - 1;
    if k > i {
      ScanNonNegative(dims, i, j, k);
    }
    CostNonNegative(dims, i, k);
    CostNonNegative(dims, k + 1, j);
    var a, b := Cost(dims, i, k), Cost(dims, k + 1, j);
    assert 0 <= a.rows && 0 <= a.cols && 0 <= b.cols;
    assert 0 <= a.rows * a.cols;
    assert 0 <= a.rows * a.cols * b.cols;
  }

  /** One step of both loops: the capped int minimum follows the uncapped MxCost one. */
  lemma CapStep(before: int, hasPrev: bool, prev: int, c1: int, c2: int, pc1: int, pc2: int, prod: int)
    requires 0 <= c1 && 0 <= c2 && 0 <= prod
    requires pc1 == Min(IntMax, c1) && pc2 == Min(IntMax, c2)
    requires before == if hasPrev then Min(IntMax, prev) else IntMax
    ensures var count := pc1 + pc2 + prod;
      var cand := prod + c1 + c2;
      (if count < before then count else before) == Min(IntMax, if !hasPrev || prev > cand then cand else prev)
  {
  }

  /**
    The int version computes the cost of the MxCost version (matrix m of
    the one is dims[m - 1] of the other), capped at Integer.MAX_VALUE.
   */
  lemma {:induction false} PCostIsCost(p: seq<int>, i: nat, j: nat)
    requires NonNegative(p) && 1 <= i <= j < |p|
    ensures PCost(p, i, j) == Min(IntMax, Cost(Make(p), i - 1, j - 1).cost)
    decreases j - i, 1, 0, 0
  {
    if i < j {
      PScanIsScan(p, i, j, j);
      assert Cost(Make(p), i - 1, j - 1) == Scan(Make(p), i - 1, j - 1, j - 1).value;
    } else {
      assert Make(p)[i - 1] == Base(p[i - 1], p[i]);
    }
  }

  lemma {:induction false} PScanIsScan(p: seq<int>, i: nat, j: nat, kEnd: nat)
    requires NonNegative(p) && 1 <= i < kEnd <= j < |p|
    ensures PScan(p, i, j, kEnd) == Min(IntMax, Scan(Make(p), i - 1, j - 1, kEnd - 1).value.cost)
    decreases j - i, 0, kEnd, 0
  {
    PCostIsCost(p, i, kEnd - 1);
    PCostIsCost(p, kEnd, j);
    PScanBefore(p, i, j, kEnd - 1);
    ScanAgrees(p, i, j, kEnd);
  }

  /** The step of PScanIsScan once both sub-chains and the loop so far are known to agree. */
  lemma ScanAgrees(p: seq<int>, i: nat, j: nat, kEnd: nat)
    requires NonNegative(p) && 1 <= i < kEnd <= j < |p|
    requires PCost(p, i, kEnd - 1) == Min(IntMax, Cost(Make(p), i - 1, kEnd - 1 - 1).cost)
    requires PCost(p, kEnd, j) == Min(IntMax, Cost(Make(p), kEnd - 1, j - 1).cost)
    requires var prev := Scan(Make(p), i - 1, j - 1, kEnd - 1 - 1);
      PScan(p, i, j, kEnd - 1) == if prev.Some? then Min(IntMax, prev.value.cost) else IntMax
    ensures PScan(p, i, j, kEnd) == Min(IntMax, Scan(Make(p), i - 1, j - 1, kEnd - 1).value.cost)
  {
    var dims := Make(p);
    MakeNonNegative(p);
    var k := kEnd - 1;
    var a, b := Cost(dims, i - 1, k - 1), Cost(dims, k, j - 1);
    CostNonNegative(dims, i - 1, k - 1);
    CostNonNegative(dims, k, j - 1);
    var prod := StepProduct(p, i, k, j);
    var prev := Scan(dims, i - 1, j - 1, k - 1);
    var before := PScan(p, i, j, k);
    ScanStep(dims, i - 1, j - 1, kEnd - 1);
    var cand := Multiply(a, b);
    assert cand.cost == prod + a.cost + b.cost;
    PScanStep(p, i, j, kEnd);
    CapStep(before, prev.Some?, if prev.Some? then prev.value.cost else 0, a.cost, b.cost,
      PCost(p, i, k), PCost(p, k + 1, j), prod);
  }

  /** The int loop before split point k: Integer.MAX_VALUE, or the capped MxCost minimum so far. */
  lemma {:induction false} PScanBefore(p: seq<int>, i: nat, j: nat, k: nat)
    requires NonNegative(p) && 1 <= i <= k < j < |p|
    ensures var prev := Scan(Make(p), i - 1, j - 1, k - 1);
      PScan(p, i, j, k) == if prev.Some? then Min(IntMax, prev.value.cost) else IntMax
    decreases j - i, 0, k, 1
  {
    if k > i {
      PScanIsScan(p, i, j, k);
    }
  }

  /** The scalar products of joining matrices i .. k to k + 1 .. j, the same in both versions. */
  lemma StepProduct(p: seq<int>, i: nat, k: nat, j: nat) returns (prod: int)
    requires NonNegative(p) && 1 <= i <= k < j < |p|
    ensures prod == p[i - 1] * p[k] * p[j] && 0 <= prod
    ensures var dims := Make(p);
      Cost(dims, i - 1, k - 1).rows * Cost(dims, i - 1, k - 1).cols * Cost(dims, k, j - 1).cols == prod
  {
    var dims := Make(p);
    assert dims[i - 1] == Base(p[i - 1], p[i]) && dims[k - 1] == Base(p[k - 1], p[k]) && dims[j - 1] == Base(p[j - 1], p[j]);
    prod := p[i - 1] * p[k] * p[j];
    assert 0 <= p[i - 1] && 0 <= p[k] && 0 <= p[j];
    assert 0 <= p[i - 1] * p[k];
  }

  /** One step of the MxCost loop, unfolded. */
  lemma ScanStep(dims: seq<MxCost>, i: nat, j: nat, kEnd: nat)
    requires i < kEnd <= j < |dims|
    ensures var prev := Scan(dims, i, j, kEnd - 1);
      var cand := Multiply(Cost(dims, i, kEnd - 1), Cost(dims, kEnd, j));
      Scan(dims, i, j, kEnd) == if prev.None? || prev.value.cost > cand.cost then Some(cand) else prev
  {
  }

  /** One step of the int loop, unfolded. */
  lemma PScanStep(p: seq<int>, i: nat, j: nat, kEnd: nat)
    requires 1 <= i < kEnd <= j < |p|
    ensures var count := PCost(p, i, kEnd - 1) + PCost(p, kEnd, j) + p[i - 1] * p[kEnd - 1] * p[j];
      PScan(p, i, j, kEnd) == if count < PScan(p, i, j, kEnd - 1) then count else PScan(p, i, j, kEnd - 1)
  {
  }

  /** make's matrices have no negative dimension when dims has none, and cost nothing. */
  lemma MakeNonNegative(p: seq<int>)
    requires NonNegative(p)
    ensures AllNonNegative(Make(p))
  {
    var dims := Make(p);
    forall k | 0 <= k < |dims|
      ensures 0 <= dims[k].rows && 0 <= dims[k].cols && 0 <= dims[k].cost
    {
      assert dims[k] == Base(p[k], p[k + 1]);
    }
  }

  /** The documented three- and four-matrix costs. */
  lemma SmallExamples(p: seq<int>, q: seq<int>)
    requires p == [1, 3, 5] && q == [1, 3, 5, 7]
    ensures PCost(p, 1, 2) == 15
    ensures PCost(q, 1, 3) == 50
  {
    assert PCost(q, 1, 2) == 15 && PCost(q, 2, 3) == 105;
    assert PScan(q, 1, 3, 2) == 126;
  }

  /** The documented cost 26000 of {40, 20, 30, 10, 30}: (A(BC))D. */
  lemma Example26000(p: seq<int>)
    requires p == [40, 20, 30, 10, 30]
    ensures PCost(p, 1, 4) == 26000
  {
    assert PCost(p, 1, 2) == 24000 && PCost(p, 2, 3) == 6000 && PCost(p, 3, 4) == 9000;
    assert PScan(p, 1, 3, 2) == 14000 && PScan(p, 2, 4, 3) == 27000;
    assert PCost(p, 1, 3) == 14000 && PCost(p, 2, 4) == 12000;
    assert PScan(p, 1, 4, 2) == 36000 && PScan(p, 1, 4, 3) == 36000;
  }

  /** The documented cost 30000 of {10, 20, 30, 40, 30}. */
  lemma Example30000(p: seq<int>)
    requires p == [10, 20, 30, 40, 30]
    ensures PCost(p, 1, 4) == 30000
  {
    assert PCost(p, 1, 2) == 6000 && PCost(p, 2, 3) == 24000 && PCost(p, 3, 4) == 36000;
    assert PScan(p, 1, 3, 2) == 32000 && PScan(p, 2, 4, 3) == 54000;
    assert PCost(p, 1, 3) == 18000 && PCost(p, 2, 4) == 48000;
    assert PScan(p, 1, 4, 2) == 54000 && PScan(p, 1, 4, 3) == 51000;
  }

  /** The sub-chains of 2 matrices of {2, 2, 8, 6, 9, 9, 2, 1, 9, 6}. */
  lemma Chain287Span2(p: seq<int>)
    requires p == [2, 2, 8, 6, 9, 9, 2, 1, 9, 6]
    ensures PCost(p, 1, 2) == 32
    ensures PCost(p, 2, 3) == 96
    ensures PCost(p, 3, 4) == 432
    ensures PCost(p, 4, 5) == 486
    ensures PCost(p, 5, 6) == 162
    ensures PCost(p, 6, 7) == 18
    ensures PCost(p, 7, 8) == 18
    ensures PCost(p, 8, 9) == 54
  {
    assert PScan(p, 1, 2, 2) == 32;
    assert PScan(p, 2, 3, 3) == 96;
    assert PScan(p, 3, 4, 4) == 432;
    assert PScan(p, 4, 5, 5) == 486;
    assert PScan(p, 5, 6, 6) == 162;
    assert PScan(p, 6, 7, 7) == 18;
    assert PScan(p, 7, 8, 8) == 18;
    assert PScan(p, 8, 9, 9) == 54;
  }

  /** The sub-chains of 3 matrices of {2, 2, 8, 6, 9, 9, 2, 1, 9, 6}. */
  lemma Chain287Span3(p: seq<int>)
    requires p == [2, 2, 8, 6, 9, 9, 2, 1, 9, 6]
    ensures PCost(p, 1, 3) == 120
    ensures PCost(p, 2, 4) == 204
    ensures PCost(p, 3, 5) == 918
    ensures PCost(p, 4, 6) == 270
    ensures PCost(p, 5, 7) == 99
    ensures PCost(p, 6, 8) == 99
    ensures PCost(p, 7, 9) == 66
  {
    Chain287Span2(p);
    assert PScan(p, 1, 3, 2) == 120;
    assert PScan(p, 1, 3, 3) == 120;
    assert PScan(p, 2, 4, 3) == 576;
    assert PScan(p, 2, 4, 4) == 204;
    assert PScan(p, 3, 5, 4) == 918;
    assert PScan(p, 3, 5, 5) == 918;
    assert PScan(p, 4, 6, 5) == 270;
    assert PScan(p, 4, 6, 6) == 270;
    assert PScan(p, 5, 7, 6) == 99;
    assert PScan(p, 5, 7, 7) == 99;
    assert PScan(p, 6, 8, 7) == 180;
    assert PScan(p, 6, 8, 8) == 99;
    assert PScan(p, 7, 9, 8) == 66;
    assert PScan(p, 7, 9, 9) == 66;
  }

  /** The sub-chains of 4 matrices of {2, 2, 8, 6, 9, 9, 2, 1, 9, 6}. */
  lemma Chain287Span4(p: seq<int>)
    requires p == [2, 2, 8, 6, 9, 9, 2, 1, 9, 6]
    ensures PCost(p, 1, 4) == 228
    ensures PCost(p, 2, 5) == 366
    ensures PCost(p, 3, 6) == 366
    ensures PCost(p, 4, 7) == 153
    ensures PCost(p, 5, 8) == 180
    ensures PCost(p, 6, 9) == 126
  {
    Chain287Span2(p);
    Chain287Span3(p);
    assert PScan(p, 1, 4, 2) == 240;
    assert PScan(p, 1, 4, 3) == 240;
    assert PScan(p, 1, 4, 4) == 228;
    assert PScan(p, 2, 5, 3) == 1062;
    assert PScan(p, 2, 5, 4) == 690;
    assert PScan(p, 2, 5, 5) == 366;
    assert PScan(p, 3, 6, 4) == 366;
    assert PScan(p, 3, 6, 5) == 366;
    assert PScan(p, 3, 6, 6) == 366;
    assert PScan(p, 4, 7, 5) == 153;
    assert PScan(p, 4, 7, 6) == 153;
    assert PScan(p, 4, 7, 7) == 153;
    assert PScan(p, 5, 8, 6) == 828;
    assert PScan(p, 5, 8, 7) == 342;
    assert PScan(p, 5, 8, 8) == 180;
    assert PScan(p, 6, 9, 7) == 174;
    assert PScan(p, 6, 9, 8) == 126;
    assert PScan(p, 6, 9, 9) == 126;
  }

  /** The sub-chains of 5 matrices of {2, 2, 8, 6, 9, 9, 2, 1, 9, 6}. */
  lemma Chain287Span5(p: seq<int>)
    requires p == [2, 2, 8, 6, 9, 9, 2, 1, 9, 6]
    ensures PCost(p, 1, 5) == 390
    ensures PCost(p, 2, 6) == 390
    ensures PCost(p, 3, 7) == 201
    ensures PCost(p, 4, 8) == 207
    ensures PCost(p, 5, 9) == 207
  {
    Chain287Span2(p);
    Chain287Span3(p);
    Chain287Span4(p);
    assert PScan(p, 1, 5, 2) == 402;
    assert PScan(p, 1, 5, 3) == 402;
    assert PScan(p, 1, 5, 4) == 402;
    assert PScan(p, 1, 5, 5) == 390;
    assert PScan(p, 2, 6, 3) == 398;
    assert PScan(p, 2, 6, 4) == 390;
    assert PScan(p, 2, 6, 5) == 390;
    assert PScan(p, 2, 6, 6) == 390;
    assert PScan(p, 3, 7, 4) == 201;
    assert PScan(p, 3, 7, 5) == 201;
    assert PScan(p, 3, 7, 6) == 201;
    assert PScan(p, 3, 7, 7) == 201;
    assert PScan(p, 4, 8, 5) == 666;
    assert PScan(p, 4, 8, 6) == 666;
    assert PScan(p, 4, 8, 7) == 396;
    assert PScan(p, 4, 8, 8) == 207;
    assert PScan(p, 5, 9, 6) == 612;
    assert PScan(p, 5, 9, 7) == 336;
    assert PScan(p, 5, 9, 8) == 207;
    assert PScan(p, 5, 9, 9) == 207;
  }

  /** The sub-chains of 6 matrices of {2, 2, 8, 6, 9, 9, 2, 1, 9, 6}. */
  lemma Chain287Span6(p: seq<int>)
    requires p == [2, 2, 8, 6, 9, 9, 2, 1, 9, 6]
    ensures PCost(p, 1, 6) == 398
    ensures PCost(p, 2, 7) == 217
    ensures PCost(p, 3, 8) == 273
    ensures PCost(p, 4, 9) == 243
  {
    Chain287Span2(p);
    Chain287Span3(p);
    Chain287Span4(p);
    Chain287Span5(p);
    assert PScan(p, 1, 6, 2) == 398;
    assert PScan(p, 1, 6, 3) == 398;
    assert PScan(p, 1, 6, 4) == 398;
    assert PScan(p, 1, 6, 5) == 398;
    assert PScan(p, 1, 6, 6) == 398;
    assert PScan(p, 2, 7, 3) == 217;
    assert PScan(p, 2, 7, 4) == 217;
    assert PScan(p, 2, 7, 5) == 217;
    assert PScan(p, 2, 7, 6) == 217;
    assert PScan(p, 2, 7, 7) == 217;
    assert PScan(p, 3, 8, 4) == 639;
    assert PScan(p, 3, 8, 5) == 639;
    assert PScan(p, 3, 8, 6) == 639;
    assert PScan(p, 3, 8, 7) == 528;
    assert PScan(p, 3, 8, 8) == 273;
    assert PScan(p, 4, 9, 5) == 531;
    assert PScan(p, 4, 9, 6) == 531;
    assert PScan(p, 4, 9, 7) == 408;
    assert PScan(p, 4, 9, 8) == 243;
    assert PScan(p, 4, 9, 9) == 243;
  }

  /** The sub-chains of 7 matrices of {2, 2, 8, 6, 9, 9, 2, 1, 9, 6}. */
  lemma Chain287Span7(p: seq<int>)
    requires p == [2, 2, 8, 6, 9, 9, 2, 1, 9, 6]
    ensures PCost(p, 1, 7) == 221
    ensures PCost(p, 2, 8) == 235
    ensures PCost(p, 3, 9) == 303
  {
    Chain287Span2(p);
    Chain287Span3(p);
    Chain287Span4(p);
    Chain287Span5(p);
    Chain287Span6(p);
    assert PScan(p, 1, 7, 2) == 221;
    assert PScan(p, 1, 7, 3) == 221;
    assert PScan(p, 1, 7, 4) == 221;
    assert PScan(p, 1, 7, 5) == 221;
    assert PScan(p, 1, 7, 6) == 221;
    assert PScan(p, 1, 7, 7) == 221;
    assert PScan(p, 2, 8, 3) == 417;
    assert PScan(p, 2, 8, 4) == 411;
    assert PScan(p, 2, 8, 5) == 411;
    assert PScan(p, 2, 8, 6) == 411;
    assert PScan(p, 2, 8, 7) == 411;
    assert PScan(p, 2, 8, 8) == 235;
    assert PScan(p, 3, 9, 4) == 531;
    assert PScan(p, 3, 9, 5) == 531;
    assert PScan(p, 3, 9, 6) == 531;
    assert PScan(p, 3, 9, 7) == 528;
    assert PScan(p, 3, 9, 8) == 303;
    assert PScan(p, 3, 9, 9) == 303;
  }

  /** The sub-chains of 8 matrices of {2, 2, 8, 6, 9, 9, 2, 1, 9, 6}. */
  lemma Chain287Span8(p: seq<int>)
    requires p == [2, 2, 8, 6, 9, 9, 2, 1, 9, 6]
    ensures PCost(p, 1, 8) == 239
    ensures PCost(p, 2, 9) == 283
  {
    Chain287Span2(p);
    Chain287Span3(p);
    Chain287Span4(p);
    Chain287Span5(p);
    Chain287Span6(p);
    Chain287Span7(p);
    assert PScan(p, 1, 8, 2) == 271;
    assert PScan(p, 1, 8, 3) == 271;
    assert PScan(p, 1, 8, 4) == 271;
    assert PScan(p, 1, 8, 5) == 271;
    assert PScan(p, 1, 8, 6) == 271;
    assert PScan(p, 1, 8, 7) == 271;
    assert PScan(p, 1, 8, 8) == 239;
    assert PScan(p, 2, 9, 3) == 399;
    assert PScan(p, 2, 9, 4) == 399;
    assert PScan(p, 2, 9, 5) == 399;
    assert PScan(p, 2, 9, 6) == 399;
    assert PScan(p, 2, 9, 7) == 399;
    assert PScan(p, 2, 9, 8) == 283;
    assert PScan(p, 2, 9, 9) == 283;
  }

  /** The documented cost 287 of {2, 2, 8, 6, 9, 9, 2, 1, 9, 6}. */
  lemma Example287(p: seq<int>)
    requires p == [2, 2, 8, 6, 9, 9, 2, 1, 9, 6]
    ensures PCost(p, 1, 9) == 287
  {
    Chain287Span2(p);
    Chain287Span3(p);
    Chain287Span4(p);
    Chain287Span5(p);
    Chain287Span6(p);
    Chain287Span7(p);
    Chain287Span8(p);
    assert PScan(p, 1, 9, 2) == 307;
    assert PScan(p, 1, 9, 3) == 307;
    assert PScan(p, 1, 9, 4) == 307;
    assert PScan(p, 1, 9, 5) == 307;
    assert PScan(p, 1, 9, 6) == 307;
    assert PScan(p, 1, 9, 7) == 307;
    assert PScan(p, 1, 9, 8) == 287;
    assert PScan(p, 1, 9, 9) == 287;
  }

  /** The sub-chains of 2 matrices of {2, 2, 8, 6, 9, 9, 2, 1}. */
  lemma Chain221Span2(p: seq<int>)
    requires p == [2, 2, 8, 6, 9, 9, 2, 1]
    ensures PCost(p, 1, 2) == 32
    ensures PCost(p, 2, 3) == 96
    ensures PCost(p, 3, 4) == 432
    ensures PCost(p, 4, 5) == 486
    ensures PCost(p, 5, 6) == 162
    ensures PCost(p, 6, 7) == 18
  {
    assert PScan(p, 1, 2, 2) == 32;
    assert PScan(p, 2, 3, 3) == 96;
    assert PScan(p, 3, 4, 4) == 432;
    assert PScan(p, 4, 5, 5) == 486;
    assert PScan(p, 5, 6, 6) == 162;
    assert PScan(p, 6, 7, 7) == 18;
  }

  /** The sub-chains of 3 matrices of {2, 2, 8, 6, 9, 9, 2, 1}. */
  lemma Chain221Span3(p: seq<int>)
    requires p == [2, 2, 8, 6, 9, 9, 2, 1]
    ensures PCost(p, 1, 3) == 120
    ensures PCost(p, 2, 4) == 204
    ensures PCost(p, 3, 5) == 918
    ensures PCost(p, 4, 6) == 270
    ensures PCost(p, 5, 7) == 99
  {
    Chain221Span2(p);
    assert PScan(p, 1, 3, 2) == 120;
    assert PScan(p, 1, 3, 3) == 120;
    assert PScan(p, 2, 4, 3) == 576;
    assert PScan(p, 2, 4, 4) == 204;
    assert PScan(p, 3, 5, 4) == 918;
    assert PScan(p, 3, 5, 5) == 918;
    assert PScan(p, 4, 6, 5) == 270;
    assert PScan(p, 4, 6, 6) == 270;
    assert PScan(p, 5, 7, 6) == 99;
    assert PScan(p, 5, 7, 7) == 99;
  }

  /** The sub-chains of 4 matrices of {2, 2, 8, 6, 9, 9, 2, 1}. */
  lemma Chain221Span4(p: seq<int>)
    requires p == [2, 2, 8, 6, 9, 9, 2, 1]
    ensures PCost(p, 1, 4) == 228
    ensures PCost(p, 2, 5) == 366
    ensures PCost(p, 3, 6) == 366
    ensures PCost(p, 4, 7) == 153
  {
    Chain221Span2(p);
    Chain221Span3(p);
    assert PScan(p, 1, 4, 2) == 240;
    assert PScan(p, 1, 4, 3) == 240;
    assert PScan(p, 1, 4, 4) == 228;
    assert PScan(p, 2, 5, 3) == 1062;
    assert PScan(p, 2, 5, 4) == 690;
    assert PScan(p, 2, 5, 5) == 366;
    assert PScan(p, 3, 6, 4) == 366;
    assert PScan(p, 3, 6, 5) == 366;
    assert PScan(p, 3, 6, 6) == 366;
    assert PScan(p, 4, 7, 5) == 153;
    assert PScan(p, 4, 7, 6) == 153;
    assert PScan(p, 4, 7, 7) == 153;
  }

  /** The sub-chains of 5 matrices of {2, 2, 8, 6, 9, 9, 2, 1}. */
  lemma Chain221Span5(p: seq<int>)
    requires p == [2, 2, 8, 6, 9, 9, 2, 1]
    ensures PCost(p, 1, 5) == 390
    ensures PCost(p, 2, 6) == 390
    ensures PCost(p, 3, 7) == 201
  {
    Chain221Span2(p);
    Chain221Span3(p);
    Chain221Span4(p);
    assert PScan(p, 1, 5, 2) == 402;
    assert PScan(p, 1, 5, 3) == 402;
    assert PScan(p, 1, 5, 4) == 402;
    assert PScan(p, 1, 5, 5) == 390;
    assert PScan(p, 2, 6, 3) == 398;
    assert PScan(p, 2, 6, 4) == 390;
    assert PScan(p, 2, 6, 5) == 390;
    assert PScan(p, 2, 6, 6) == 390;
    assert PScan(p, 3, 7, 4) == 201;
    assert PScan(p, 3, 7, 5) == 201;
    assert PScan(p, 3, 7, 6) == 201;
    assert PScan(p, 3, 7, 7) == 201;
  }

  /** The sub-chains of 6 matrices of {2, 2, 8, 6, 9, 9, 2, 1}. */
  lemma Chain221Span6(p: seq<int>)
    requires p == [2, 2, 8, 6, 9, 9, 2, 1]
    ensures PCost(p, 1, 6) == 398
    ensures PCost(p, 2, 7) == 217
  {
    Chain221Span2(p);
    Chain221Span3(p);
    Chain221Span4(p);
    Chain221Span5(p);
    assert PScan(p, 1, 6, 2) == 398;
    assert PScan(p, 1, 6, 3) == 398;
    assert PScan(p, 1, 6, 4) == 398;
    assert PScan(p, 1, 6, 5) == 398;
    assert PScan(p, 1, 6, 6) == 398;
    assert PScan(p, 2, 7, 3) == 217;
    assert PScan(p, 2, 7, 4) == 217;
    assert PScan(p, 2, 7, 5) == 217;
    assert PScan(p, 2, 7, 6) == 217;
    assert PScan(p, 2, 7, 7) == 217;
  }

  /** The documented cost 221 of {2, 2, 8, 6, 9, 9, 2, 1}. */
  lemma Example221(p: seq<int>)
    requires p == [2, 2, 8, 6, 9, 9, 2, 1]
    ensures PCost(p, 1, 7) == 221
  {
    Chain221Span2(p);
    Chain221Span3(p);
    Chain221Span4(p);
    Chain221Span5(p);
    Chain221Span6(p);
    assert PScan(p, 1, 7, 2) == 221;
    assert PScan(p, 1, 7, 3) == 221;
    assert PScan(p, 1, 7, 4) == 221;
    assert PScan(p, 1, 7, 5) == 221;
    assert PScan(p, 1, 7, 6) == 221;
    assert PScan(p, 1, 7, 7) == 221;
  }
}
