/**
  PotsOfGoldRecursiveStrategy.java: a player that takes the end worth more
  when the other player is assumed to answer with its own best move.
  maxProfit(l, r) is the most the player to move can collect from the pots
  l..r; the instance keeps the answers in a map keyed by (l, r).

  The Java key is the string l + "|" + r; a key is only built when
  0 <= l <= r, where that string determines the pair, so the model keys
  the map by the pair itself.
 */
module PotsRecursive {
  import opened PotsOfGold

  /** Math.min */
  function Min(a: int, b: int): int
  {
    if a <= b then a else b
  }

  /** Math.max */
  function Max(a: int, b: int): int
  {
    if a >= b then a else b
  }

  /**
    maxProfit(coins, l, r) without the memo: nothing when no pot is left,
    otherwise the better of taking the left and taking the right end.
   */
  function Profit(coins: seq<int>, l: int, r: int): int
    requires l > r || (0 <= l && r < |coins|)
    decreases r - l + 1, 1
  {
    if l > r then 0 else Max(LeftValue(coins, l, r), RightValue(coins, l, r))
  }

  /**
    Taking the left pot: its coins, then the smaller of what is left to the
    mover after the other player takes the next left or the right pot.
   */
  function LeftValue(coins: seq<int>, l: int, r: int): int
    requires 0 <= l <= r < |coins|
    decreases r - l + 1, 0
  {
    coins[l] + Min(Profit(coins, l + 2, r), Profit(coins, l + 1, r - 1))
  }

  /** Taking the right pot, the mirror image of LeftValue. */
  function RightValue(coins: seq<int>, l: int, r: int): int
    requires 0 <= l <= r < |coins|
    decreases r - l + 1, 0
  {
    coins[r] + Min(Profit(coins, l + 1, r - 1), Profit(coins, l, r - 2))
  }

  /**
    What the player who is not to move collects from l..r when the mover
    plays its best: the smaller of its profits after either first move.
   */
  function Reply(coins: seq<int>, l: int, r: int): int
    requires 0 <= l && r < |coins| && l <= r + 1
  {
    if l > r then 0 else Min(Profit(coins, l + 1, r), Profit(coins, l, r - 1))
  }

  /**
    The game's value by its definition: the mover takes one end and gets
    the rest of the pots except what the other player, then moving, gets
    at best.
   */
  function Best(coins: seq<int>, l: int, r: int): int
    requires 0 <= l && r < |coins| && l <= r + 1
    decreases r - l + 1
  {
    if l > r then 0
    else Max(coins[l] + Total(coins, l + 1, r) - Best(coins, l + 1, r),
             coins[r] + Total(coins, l, r - 1) - Best(coins, l, r - 1))
  }

  /** The minimum in LeftValue and RightValue is the other player's reply to the rest. */
  lemma ValuesReply(coins: seq<int>, l: int, r: int)
    requires 0 <= l <= r < |coins|
    ensures LeftValue(coins, l, r) == coins[l] + Reply(coins, l + 1, r)
    ensures RightValue(coins, l, r) == coins[r] + Reply(coins, l, r - 1)
  {
  }

  /** The mover's best and the other player's reply share out all of l..r. */
  lemma {:induction false} Complement(coins: seq<int>, l: int, r: int)
    requires 0 <= l && r < |coins| && l <= r + 1
    ensures Profit(coins, l, r) + Reply(coins, l, r) == Total(coins, l, r)
    decreases r - l + 1
  {
    if l <= r {
      ValuesReply(coins, l, r);
      Complement(coins, l + 1, r);
      Complement(coins, l, r - 1);
      TotalRight(coins, l, r);
    }
  }

  /** maxProfit computes the value of the game when both players play their best. */
  lemma {:induction false} ProfitIsBest(coins: seq<int>, l: int, r: int)
    requires 0 <= l && r < |coins| && l <= r + 1
    ensures Profit(coins, l, r) == Best(coins, l, r)
    decreases r - l + 1
  {
    if l <= r {
      ValuesReply(coins, l, r);
      ProfitIsBest(coins, l + 1, r);
      ProfitIsBest(coins, l, r - 1);
      Complement(coins, l + 1, r);
      Complement(coins, l, r - 1);
    }
  }

  /** No pot left gives nothing; one pot gives its coins; two give the larger. */
  lemma SmallRows(coins: seq<int>, l: int)
    requires 0 <= l < |coins|
    ensures Profit(coins, l, l - 1) == 0
    ensures Profit(coins, l, l) == coins[l]
    ensures l + 1 < |coins| ==> Profit(coins, l, l + 1) == Max(coins[l], coins[l + 1])
  {
    assert LeftValue(coins, l, l) == coins[l] + Min(Profit(coins, l + 2, l), Profit(coins, l + 1, l - 1));
    if l + 1 < |coins| {
      assert LeftValue(coins, l, l + 1) == coins[l] + Min(Profit(coins, l + 2, l + 1), Profit(coins, l + 1, l));
      assert RightValue(coins, l, l + 1) == coins[l + 1] + Min(Profit(coins, l + 1, l), Profit(coins, l, l - 1));
    }
  }

  /** With no negative pot, the profit is between nothing and every coin of l..r. */
  lemma {:induction false} ProfitBounds(coins: seq<int>, l: int, r: int)
    requires 0 <= l && r < |coins| && l <= r + 1
    requires forall j :: l <= j <= r ==> coins[j] >= 0
    ensures 0 <= Profit(coins, l, r) <= Total(coins, l, r)
    decreases r - l + 1
  {
    if l <= r {
      ProfitBounds(coins, l + 1, r);
      ProfitBounds(coins, l, r - 1);
      Complement(coins, l, r);
      assert LeftValue(coins, l, r) >= 0 by {
        if l + 1 <= r {
          ProfitBounds(coins, l + 2, r);
          ProfitBounds(coins, l + 1, r - 1);
        }
      }
    }
  }

  // ---------------------------------------------------------------------
  // The memo
  // ---------------------------------------------------------------------

  /** The number of pots from l to r. */
  function Pots(l: int, r: int): nat
  {
    if l > r then 0 else r - l + 1
  }

  /** The instance's map m from (l, r) to a remembered maxProfit. */
  type Memo = map<(int, int), int>

  /** Every remembered answer is maxProfit on coins for its ends. */
  ghost predicate Consistent(coins: seq<int>, m: Memo)
  {
    forall k :: k in m ==> 0 <= k.0 <= k.1 < |coins| && m[k] == Profit(coins, k.0, k.1)
  }

  /**
    maxProfit(coins, l, r) with the instance's map: a remembered answer is
    returned as it is; otherwise the answer is the larger of the two
    values, and it is remembered. Returns the answer and the map afterwards.
   */
  function MemoProfit(coins: seq<int>, l: int, r: int, m: Memo): (res: (int, Memo))
    requires l > r || (0 <= l && r < |coins|)
    ensures m.Keys <= res.1.Keys
    ensures Consistent(coins, m) ==> res.0 == Profit(coins, l, r) && Consistent(coins, res.1)
    decreases Pots(l, r), if l > r then 0 else 2
  {
    if l > r then (0, m)
    else if (l, r) in m then (m[(l, r)], m)
    else
      var t := MemoValues(coins, l, r, m);
      var profit := Max(t.0, t.1);
      (profit, t.2[(l, r) := profit])
  }

  /**
    The take-left and take-right values as maxProfit, maxProfitNoMem and
    takeLeft compute them: the four maxProfit calls in the Java order, each
    with the map the previous one left. Reads coins[l] and coins[r]
    whatever l and r are.
   */
  function MemoValues(coins: seq<int>, l: int, r: int, m: Memo): (res: (int, int, Memo))
    requires 0 <= l < |coins| && 0 <= r < |coins|
    ensures m.Keys <= res.2.Keys
    ensures Consistent(coins, m) ==>
      Consistent(coins, res.2) && (l <= r ==> res.0 == LeftValue(coins, l, r) && res.1 == RightValue(coins, l, r))
    decreases Pots(l, r), 1
  {
    var x1 := MemoProfit(coins, l + 2, r, m);
    var x2 := MemoProfit(coins, l + 1, r - 1, x1.1);
    var y1 := MemoProfit(coins, l + 1, r - 1, x2.1);
    var y2 := MemoProfit(coins, l, r - 2, y1.1);
    (coins[l] + Min(x1.0, x2.0), coins[r] + Min(y1.0, y2.0), y2.1)
  }

  /** maxProfitNoMem(coins, l, r): the larger of the two values, with nothing looked up or remembered for (l, r). */
  function NoMem(coins: seq<int>, l: int, r: int, m: Memo): (res: (int, Memo))
    requires 0 <= l < |coins| && 0 <= r < |coins|
    ensures m.Keys <= res.1.Keys
    ensures Consistent(coins, m) ==> Consistent(coins, res.1) && (l <= r ==> res.0 == Profit(coins, l, r))
  {
    var t := MemoValues(coins, l, r, m);
    (Max(t.0, t.1), t.2)
  }

  /**
    maxProfit returns 0 when l > r, but maxProfitNoMem does not: on
    {3, 5} with l = 1, r = 0 it returns 5.
   */
  lemma NoMemCrossed(coins: seq<int>)
    requires coins == [3, 5]
    ensures Profit(coins, 1, 0) == 0 && NoMem(coins, 1, 0, map[]).0 == 5
  {
  }

  /**
    The map is keyed by (l, r) alone, so an instance asked about a second
    row answers from the first: after {5}, the row {1} gets 5.
   */
  lemma StaleMemo(coins: seq<int>)
    requires coins == [1]
    ensures MemoProfit([5], 0, 0, map[]).1 == map[(0, 0) := 5]
    ensures MemoProfit(coins, 0, 0, map[(0, 0) := 5]).0 == 5 != Profit(coins, 0, 0)
  {
    assert Profit([5], 0, 0) == 5;
  }

  // ---------------------------------------------------------------------
  // The player
  // ---------------------------------------------------------------------

  /** takeLeft as the player answers it: left only when that is worth strictly more. */
  function Recursive(v: Ends): bool
  {
    LeftValue(v.coins, v.l, v.r) > RightValue(v.coins, v.l, v.r)
  }

  /**
    takeLeft(coins, l, r) with the instance's map. With a map that holds
    only answers for this row it answers as Recursive.
   */
  function TakeLeft(v: Ends, m: Memo): (res: (bool, Memo))
    ensures m.Keys <= res.1.Keys
    ensures Consistent(v.coins, m) ==> res.0 == Recursive(v) && Consistent(v.coins, res.1)
  {
    var t := MemoValues(v.coins, v.l, v.r, m);
    (t.0 > t.1, t.2)
  }

  /** The player moves to the end that is worth its best. */
  lemma Chooses(v: Ends)
    ensures LeftValue(v.coins, v.l, v.r) <= Profit(v.coins, v.l, v.r)
    ensures RightValue(v.coins, v.l, v.r) <= Profit(v.coins, v.l, v.r)
    ensures Profit(v.coins, v.l, v.r) == if Recursive(v) then LeftValue(v.coins, v.l, v.r) else RightValue(v.coins, v.l, v.r)
  {
  }

  /**
    A, playing Recursive, collects from l..r at least maxProfit when it is
    to move, and at least the reply to the other player's best otherwise,
    whatever B does.
   */
  lemma {:induction false} Guarantee(ar: seq<int>, b: Player, l: int, r: int, aTurn: bool, pa: int, pb: int)
    requires 0 <= l && r < |ar| && l <= r + 1
    ensures Turns(ar, Recursive, b, l, r, aTurn, pa, pb).0 >= pa + (if aTurn then Profit(ar, l, r) else Reply(ar, l, r))
    decreases r - l + 1
  {
    if l <= r {
      var left := GoesLeft(ar, Recursive, b, l, r, aTurn);
      var v := Coins(ar, l, r, left);
      var l', r' := if left then l + 1 else l, if left then r else r - 1;
      var pa', pb' := if aTurn then pa + v else pa, if aTurn then pb else pb + v;
      assert Turns(ar, Recursive, b, l, r, aTurn, pa, pb) == Turns(ar, Recursive, b, l', r', !aTurn, pa', pb');
      Guarantee(ar, b, l', r', !aTurn, pa', pb');
      if aTurn {
        Chooses(View(ar, l, r));
        ValuesReply(ar, l, r);
      }
    }
  }

  /** Moving first, the Recursive player collects at least maxProfit of the whole row. */
  lemma PlayGuarantee(ar: seq<int>, b: Player)
    ensures Play(ar, Recursive, b).0 >= Profit(ar, 0, |ar| - 1)
  {
    Guarantee(ar, b, 0, |ar| - 1, true, 0, 0);
  }

  /** Both end values in terms of the other player's profit on what is left. */
  lemma ValuesComplement(coins: seq<int>, l: int, r: int)
    requires 0 <= l <= r < |coins|
    ensures LeftValue(coins, l, r) == Total(coins, l, r) - Profit(coins, l + 1, r)
    ensures RightValue(coins, l, r) == Total(coins, l, r) - Profit(coins, l, r - 1)
  {
    ValuesReply(coins, l, r);
    Complement(coins, l + 1, r);
    Complement(coins, l, r - 1);
    TotalRight(coins, l, r);
  }

  /**
    When both players play Recursive, the player to move collects exactly
    maxProfit from l..r and the other exactly its reply.
   */
  lemma {:induction false} BothBest(ar: seq<int>, l: int, r: int, aTurn: bool, pa: int, pb: int)
    requires 0 <= l && r < |ar| && l <= r + 1
    ensures Turns(ar, Recursive, Recursive, l, r, aTurn, pa, pb).0 == pa + (if aTurn then Profit(ar, l, r) else Reply(ar, l, r))
    decreases r - l + 1
  {
    if l <= r {
      var left := GoesLeft(ar, Recursive, Recursive, l, r, aTurn);
      var v := Coins(ar, l, r, left);
      var l', r' := if left then l + 1 else l, if left then r else r - 1;
      var pa', pb' := if aTurn then pa + v else pa, if aTurn then pb else pb + v;
      assert Turns(ar, Recursive, Recursive, l, r, aTurn, pa, pb) == Turns(ar, Recursive, Recursive, l', r', !aTurn, pa', pb');
      BothBest(ar, l', r', !aTurn, pa', pb');
      Chooses(View(ar, l, r));
      if aTurn {
        ValuesReply(ar, l, r);
      } else {
        ValuesComplement(ar, l, r);
      }
    }
  }

  /**
    A whole game between two Recursive players: A collects maxProfit of
    the row, which is the game's value, and B the rest of the coins.
   */
  lemma PlayBothBest(ar: seq<int>)
    ensures Play(ar, Recursive, Recursive) == (Best(ar, 0, |ar| - 1), Total(ar, 0, |ar| - 1) - Best(ar, 0, |ar| - 1))
  {
    BothBest(ar, 0, |ar| - 1, true, 0, 0);
    ProfitIsBest(ar, 0, |ar| - 1);
    PlayTotal(ar, Recursive, Recursive);
  }
}
