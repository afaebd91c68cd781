/**
  MatrixChainMultiplicationDP.java: the bottom-up table of the matrix
  chain problem. tbl[i][j] holds the cheapest product of dims[i] .. dims[j]
  once every shorter sub-chain is solved; null (None here) before that.
 */
module MatrixChainDP {
  import opened Nullable
  import opened MatrixCost
  import opened MatrixChainRecursive

  /**
    Entry (a, b) of the table after the diagonal, every sub-chain shorter
    than len + 1 matrices, and the first i of length len + 1 are filled in:
    the recursive answer there, null everywhere else.
   */
  ghost predicate Entry(dims: seq<MxCost>, tbl: seq<seq<Option<MxCost>>>, a: nat, b: nat, len: nat, i: nat)
    requires a < |tbl| && b < |tbl[a]| && b < |dims|
  {
    if a <= b && (b - a < len || (b - a == len && a < i)) then tbl[a][b] == Some(Cost(dims, a, b))
    else tbl[a][b] == None
  }

  /** The whole n x n table is in the state Entry describes. */
  ghost predicate Table(dims: seq<MxCost>, tbl: seq<seq<Option<MxCost>>>, len: nat, i: nat)
  {
    |tbl| == |dims| &&
    (forall a :: 0 <= a < |tbl| ==> |tbl[a]| == |dims|) &&
    forall a, b :: 0 <= a < |dims| && 0 <= b < |dims| ==> Entry(dims, tbl, a, b, len, i)
  }

  /**
    cost(dims): the table's answer for the whole chain, which is the answer
    of the plain and of the memoised recursion, split for split. An empty
    chain has no entry tbl[0][n - 1], and the Java method throws there.
   */
  method CostDP(dims: seq<MxCost>) returns (r: Option<MxCost>)
    ensures r.None? <==> |dims| == 0
    ensures r.Some? ==> r.value == Cost(dims, 0, |dims| - 1)
    ensures r.Some? ==> r.value == MemoCost(dims, 0, |dims| - 1, map[]).0
  {
    var n := |dims|;
    if n == 0 {
      return None;
    }
    var tbl: seq<seq<Option<MxCost>>> := seq(n, _ => seq(n, _ => None));
    for i := 0 to n
      invariant Table(dims, tbl, 0, i)
    {
      Fill(dims, tbl, 0, i, Some(dims[i]));
      tbl := tbl[i := tbl[i][i := Some(dims[i])]];
    }
    Advance(dims, tbl, 0);
    for len := 1 to n
      invariant Table(dims, tbl, len, 0)
    {
      for i := 0 to n - len
        invariant Table(dims, tbl, len, i)
      {
        var j := i + len;
        // tbl[i][j] while the loop over split points runs
        var best: Option<MxCost> := None;
        for k := i to j
          invariant best == Scan(dims, i, j, k)
        {
          assert Entry(dims, tbl, i, k, len, i) && Entry(dims, tbl, k + 1, j, len, i);
          var temp := Multiply(tbl[i][k].value, tbl[k + 1][j].value);
          if best.None? || temp.cost < best.value.cost {
            best := Some(temp);
          }
        }
        Fill(dims, tbl, len, i, best);
        tbl := tbl[i := tbl[i][j := best]];
      }
      Advance(dims, tbl, len);
    }
    assert Entry(dims, tbl, 0, n - 1, n, 0);
    r := tbl[0][n - 1];
    var _ := MemoCost(dims, 0, n - 1, map[]);
  }

  /**
    Writing the finished minimum of sub-chain (i, i + len) into the table
    moves it on to the next sub-chain of that length.
   */
  lemma Fill(dims: seq<MxCost>, tbl: seq<seq<Option<MxCost>>>, len: nat, i: nat, best: Option<MxCost>)
    requires i + len < |dims| && Table(dims, tbl, len, i)
    requires best == Some(Cost(dims, i, i + len))
    ensures Table(dims, tbl[i := tbl[i][i + len := best]], len, i + 1)
  {
    var t, next := tbl[i := tbl[i][i + len := best]], i + 1;
    forall a, b | 0 <= a < |dims| && 0 <= b < |dims|
      ensures Entry(dims, t, a, b, len, next)
    {
      assert Entry(dims, tbl, a, b, len, i);
    }
  }

  /** Once every sub-chain of length len + 1 is filled in, the next length starts. */
  lemma Advance(dims: seq<MxCost>, tbl: seq<seq<Option<MxCost>>>, len: nat)
    requires len < |dims| && Table(dims, tbl, len, |dims| - len)
    ensures Table(dims, tbl, len + 1, 0)
  {
    var longer := len + 1;
    forall a, b | 0 <= a < |dims| && 0 <= b < |dims|
      ensures Entry(dims, tbl, a, b, longer, 0)
    {
      assert Entry(dims, tbl, a, b, len, |dims| - len);
    }
  }

  /**
    The costs documented for the dimension arrays {1, 3, 5} and
    {1, 3, 5, 7}: the whole chain of make's matrices, which CostDP returns,
    costs 15 and 50.
   */
  lemma SmallCosts(p: seq<int>, q: seq<int>)
    requires p == [1, 3, 5] && q == [1, 3, 5, 7]
    ensures Cost(Make(p), 0, 1).cost == 15
    ensures Cost(Make(q), 0, 2).cost == 50
  {
    SmallExamples(p, q);
    assert NonNegative(p) && NonNegative(q);
    PCostIsCost(p, 1, 2);
    PCostIsCost(q, 1, 3);
  }

  /** The documented cost 26000 of {40, 20, 30, 10, 30}. */
  lemma Cost26000(p: seq<int>)
    requires p == [40, 20, 30, 10, 30]
    ensures Cost(Make(p), 0, 3).cost == 26000
  {
    Example26000(p);
    assert NonNegative(p);
    PCostIsCost(p, 1, 4);
  }

  /** The documented cost 30000 of {10, 20, 30, 40, 30}. */
  lemma Cost30000(p: seq<int>)
    requires p == [10, 20, 30, 40, 30]
    ensures Cost(Make(p), 0, 3).cost == 30000
  {
    Example30000(p);
    assert NonNegative(p);
    PCostIsCost(p, 1, 4);
  }

  /** The documented cost 287 of {2, 2, 8, 6, 9, 9, 2, 1, 9, 6}. */
  lemma Cost287(p: seq<int>)
    requires p == [2, 2, 8, 6, 9, 9, 2, 1, 9, 6]
    ensures Cost(Make(p), 0, 8).cost == 287
  {
    assert NonNegative(p);
    Example287(p);
    CappedCost(p, 9, 287);
  }

  /** The documented cost 221 of {2, 2, 8, 6, 9, 9, 2, 1}. */
  lemma Cost221(p: seq<int>)
    requires p == [2, 2, 8, 6, 9, 9, 2, 1]
    ensures Cost(Make(p), 0, 6).cost == 221
  {
    assert NonNegative(p);
    Example221(p);
    CappedCost(p, 7, 221);
  }

  /** A chain cost the int version finds below Integer.MAX_VALUE is the cost itself. */
  lemma CappedCost(p: seq<int>, n: nat, c: int)
    requires NonNegative(p) && 1 <= n < |p| && PCost(p, 1, n) == c < IntMax
    ensures Cost(Make(p), 0, n - 1).cost == c
  {
    PCostIsCost(p, 1, n);
  }
}
