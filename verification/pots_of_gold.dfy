/**
  PotsOfGoldGame.java: pots of coins in a row; two players take turns,
  A first, each taking the pot at the left or the right end, as that
  player's takeLeft(coins, l, r) decides, until none is left.

  A player is asked only while l <= r, so its question is a View whose
  ends are inside the row. getName only labels the printed totals and is
  not modelled.
 */
module PotsOfGold {

  /** The row of pots and the ends l and r (both inclusive) still on the table. */
  datatype View = View(coins: seq<int>, l: int, r: int)

  /** A view with at least one pot left. */
  type Ends = v: View | 0 <= v.l <= v.r < |v.coins| witness View([0], 0, 0)

  /** Player.takeLeft: true to take the left pot, false to take the right one. */
  type Player = Ends -> bool

  /** coins[l] + ... + coins[r]; 0 when l > r. */
  function Total(coins: seq<int>, l: int, r: int): int
    requires l > r || (0 <= l && r < |coins|)
    decreases r - l + 1
  {
    if l > r then 0 else coins[l] + Total(coins, l + 1, r)
  }

  /** The total can also be taken from the right end. */
  lemma {:induction false} TotalRight(coins: seq<int>, l: int, r: int)
    requires 0 <= l <= r < |coins|
    ensures Total(coins, l, r) == Total(coins, l, r - 1) + coins[r]
    decreases r - l + 1
  {
    if l < r {
      TotalRight(coins, l + 1, r);
    }
  }

  /** Whether the player to move takes the left pot. */
  function GoesLeft(ar: seq<int>, a: Player, b: Player, l: int, r: int, aTurn: bool): bool
    requires 0 <= l <= r < |ar|
  {
    if aTurn then a(View(ar, l, r)) else b(View(ar, l, r))
  }

  /** The coins in the pot taken. */
  function Coins(ar: seq<int>, l: int, r: int, left: bool): int
    requires 0 <= l <= r < |ar|
  {
    if left then ar[l] else ar[r]
  }

  /**
    The loop while (l <= r) of play from ends l, r, with pa and pb the
    totals so far and aTurn telling whose turn it is: the player to move
    takes one end, adds it to its total, and the turn passes.
   */
  function Turns(ar: seq<int>, a: Player, b: Player, l: int, r: int, aTurn: bool, pa: int, pb: int): (res: (int, int))
    requires 0 <= l && r < |ar| && l <= r + 1
    decreases r - l + 1
  {
    if l > r then (pa, pb)
    else
      var left := GoesLeft(ar, a, b, l, r, aTurn);
      var v := Coins(ar, l, r, left);
      Turns(ar, a, b, if left then l + 1 else l, if left then r else r - 1, !aTurn,
            if aTurn then pa + v else pa, if aTurn then pb else pb + v)
  }

  /** play(ar, a, b): A moves first on the whole row; the result is (A's total, B's total). */
  function Play(ar: seq<int>, a: Player, b: Player): (int, int)
  {
    Turns(ar, a, b, 0, |ar| - 1, true, 0, 0)
  }

  /** Whatever the players do, the two totals together are every coin on the table. */
  lemma {:induction false} TurnsTotal(ar: seq<int>, a: Player, b: Player, l: int, r: int, aTurn: bool, pa: int, pb: int)
    requires 0 <= l && r < |ar| && l <= r + 1
    ensures var res := Turns(ar, a, b, l, r, aTurn, pa, pb); res.0 + res.1 == pa + pb + Total(ar, l, r)
    decreases r - l + 1
  {
    if l <= r {
      var left := GoesLeft(ar, a, b, l, r, aTurn);
      var v := Coins(ar, l, r, left);
      TurnsTotal(ar, a, b, if left then l + 1 else l, if left then r else r - 1, !aTurn,
                 if aTurn then pa + v else pa, if aTurn then pb else pb + v);
      if !left {
        TotalRight(ar, l, r);
      }
    }
  }

  /** So a whole game hands out exactly the coins of the row. */
  lemma PlayTotal(ar: seq<int>, a: Player, b: Player)
    ensures Play(ar, a, b).0 + Play(ar, a, b).1 == Total(ar, 0, |ar| - 1)
  {
    TurnsTotal(ar, a, b, 0, |ar| - 1, true, 0, 0);
  }

  // ---------------------------------------------------------------------
  // Which pots each player takes
  // ---------------------------------------------------------------------

  /** The positions l, l + 1, ..., r. */
  function Range(l: int, r: int): (s: seq<int>)
    ensures |s| == if l > r then 0 else r - l + 1
    decreases r - l + 1
  {
    if l > r then [] else [l] + Range(l + 1, r)
  }

  lemma {:induction false} RangeRight(l: int, r: int)
    requires l <= r
    ensures Range(l, r) == Range(l, r - 1) + [r]
    decreases r - l + 1
  {
    if l < r {
      RangeRight(l + 1, r);
    }
  }

  /** The positions of the pots in the order the turns take them. */
  function Taken(ar: seq<int>, a: Player, b: Player, l: int, r: int, aTurn: bool): seq<int>
    requires 0 <= l && r < |ar| && l <= r + 1
    decreases r - l + 1
  {
    if l > r then []
    else
      var left := GoesLeft(ar, a, b, l, r, aTurn);
      [if left then l else r] + Taken(ar, a, b, if left then l + 1 else l, if left then r else r - 1, !aTurn)
  }

  /** Every pot is taken exactly once: the turns take a permutation of l..r. */
  lemma {:induction false} TakenIsRange(ar: seq<int>, a: Player, b: Player, l: int, r: int, aTurn: bool)
    requires 0 <= l && r < |ar| && l <= r + 1
    ensures multiset(Taken(ar, a, b, l, r, aTurn)) == multiset(Range(l, r))
    decreases r - l + 1
  {
    if l <= r {
      var left := GoesLeft(ar, a, b, l, r, aTurn);
      var l', r' := if left then l + 1 else l, if left then r else r - 1;
      var u := Taken(ar, a, b, l', r', !aTurn);
      assert Taken(ar, a, b, l, r, aTurn) == [if left then l else r] + u;
      TakenIsRange(ar, a, b, l', r', !aTurn);
      if left {
        InFront(l, u, Range(l + 1, r));
      } else {
        RangeRight(l, r);
        AtBack(r, u, Range(l, r - 1));
      }
    }
  }

  lemma InFront(x: int, u: seq<int>, v: seq<int>)
    requires multiset(u) == multiset(v)
    ensures multiset([x] + u) == multiset([x] + v)
  {
  }

  lemma AtBack(x: int, u: seq<int>, v: seq<int>)
    requires multiset(u) == multiset(v)
    ensures multiset([x] + u) == multiset(v + [x])
  {
    calc {
      multiset([x] + u);
      multiset{x} + multiset(u);
      multiset(v) + multiset{x};
    }
  }

  /**
    The turns of the player who moves first (first == true) or second
    out of the sequence t of turns: turns 0, 2, 4, ... or 1, 3, 5, ...
   */
  function Share(t: seq<int>, first: bool): (s: seq<int>)
    ensures |s| == if first then (|t| + 1) / 2 else |t| / 2
  {
    if |t| == 0 then []
    else if first then [t[0]] + Share(t[1..], false)
    else Share(t[1..], true)
  }

  /** The two players' turns together are all of the turns. */
  lemma {:induction false} SharesSplit(t: seq<int>, first: bool)
    ensures multiset(Share(t, first)) + multiset(Share(t, !first)) == multiset(t)
  {
    if |t| > 0 {
      SharesSplit(t[1..], !first);
      assert t == [t[0]] + t[1..];
      var x := multiset{t[0]};
      var A, B := multiset(Share(t[1..], !first)), multiset(Share(t[1..], first));
      if first {
        assert multiset(Share(t, first)) == x + A;
        assert multiset(Share(t, !first)) == B;
      } else {
        assert multiset(Share(t, first)) == A;
        assert multiset(Share(t, !first)) == x + B;
      }
    }
  }

  /** The coins in the pots at positions idx (a position off the row holds nothing). */
  function SumAt(ar: seq<int>, idx: seq<int>): int
  {
    if |idx| == 0 then 0
    else (if 0 <= idx[0] < |ar| then ar[idx[0]] else 0) + SumAt(ar, idx[1..])
  }

  /** The totals after the turns: the first mover's coins go to whoever moves now. */
  function Split(pa: int, pb: int, aTurn: bool, first: int, second: int): (int, int)
  {
    if aTurn then (pa + first, pb + second) else (pa + second, pb + first)
  }

  /**
    Each player's total is the coins of the pots taken on its own turns:
    turns alternate, starting with the player whose turn it is.
   */
  lemma {:induction false} TurnsShares(ar: seq<int>, a: Player, b: Player, l: int, r: int, aTurn: bool, pa: int, pb: int)
    requires 0 <= l && r < |ar| && l <= r + 1
    ensures var t := Taken(ar, a, b, l, r, aTurn);
      Turns(ar, a, b, l, r, aTurn, pa, pb) == Split(pa, pb, aTurn, SumAt(ar, Share(t, true)), SumAt(ar, Share(t, false)))
    decreases r - l + 1
  {
    if l <= r {
      var t := Taken(ar, a, b, l, r, aTurn);
      var left := GoesLeft(ar, a, b, l, r, aTurn);
      var v := Coins(ar, l, r, left);
      var l', r' := if left then l + 1 else l, if left then r else r - 1;
      var pa', pb' := if aTurn then pa + v else pa, if aTurn then pb else pb + v;
      var u := Taken(ar, a, b, l', r', !aTurn);
      assert t == [if left then l else r] + u;
      TurnsShares(ar, a, b, l', r', !aTurn, pa', pb');
      ShareStep(ar, t, u);
      assert (if 0 <= t[0] < |ar| then ar[t[0]] else 0) == v;
      SplitStep(pa, pb, aTurn, v, SumAt(ar, Share(u, true)), SumAt(ar, Share(u, false)));
      assert Turns(ar, a, b, l, r, aTurn, pa, pb) == Turns(ar, a, b, l', r', !aTurn, pa', pb');
    }
  }

  /** The turn just taken, added to the totals, is the first mover's share gaining v. */
  lemma SplitStep(pa: int, pb: int, aTurn: bool, v: int, x: int, y: int)
    ensures Split(if aTurn then pa + v else pa, if aTurn then pb else pb + v, !aTurn, x, y) == Split(pa, pb, aTurn, v + y, x)
  {
  }

  /** One more turn in front: the first mover's coins gain it and the roles swap. */
  lemma ShareStep(ar: seq<int>, t: seq<int>, u: seq<int>)
    requires |t| > 0 && t[1..] == u
    ensures SumAt(ar, Share(t, true)) == (if 0 <= t[0] < |ar| then ar[t[0]] else 0) + SumAt(ar, Share(u, false))
    ensures SumAt(ar, Share(t, false)) == SumAt(ar, Share(u, true))
  {
    var s := Share(t, true);
    assert s == [t[0]] + Share(u, false);
    assert s[1..] == Share(u, false);
  }

  /**
    A whole game: the turns take every pot exactly once; A, moving first,
    takes ceil(n / 2) of them and B the other floor(n / 2); each total is
    the coins of that player's pots.
   */
  lemma PlayShares(ar: seq<int>, a: Player, b: Player)
    ensures var t := Taken(ar, a, b, 0, |ar| - 1, true);
      multiset(t) == multiset(Range(0, |ar| - 1)) &&
      |Share(t, true)| == (|ar| + 1) / 2 && |Share(t, false)| == |ar| / 2 &&
      Play(ar, a, b) == (SumAt(ar, Share(t, true)), SumAt(ar, Share(t, false)))
  {
    TakenIsRange(ar, a, b, 0, |ar| - 1, true);
    TurnsShares(ar, a, b, 0, |ar| - 1, true, 0, 0);
    var t := Taken(ar, a, b, 0, |ar| - 1, true);
    assert |t| == |ar| by {
      assert |multiset(t)| == |multiset(Range(0, |ar| - 1))|;
    }
  }
}
