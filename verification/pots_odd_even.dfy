/**
  PotsOfGoldOddEvenStrategy.java: a player that, once, when it is built,
  adds up the pots at even and at odd positions of the whole row and from
  then on takes pots of the richer class (odd on a tie), falling back to
  the larger end when both ends are of the other class.
 */
module PotsOddEven {
  import opened PotsOfGold

  /** coins[s] + coins[s + 2] + ... up to position r. */
  function ClassSum(coins: seq<int>, s: int, r: int): int
    requires s > r || (0 <= s && r < |coins|)
    decreases r - s + 1
  {
    if s > r then 0 else coins[s] + ClassSum(coins, s + 2, r)
  }

  /** Positions s, s + 2, ... and s + 1, s + 3, ... together are every position from s to r. */
  lemma {:induction false} ClassesSplit(coins: seq<int>, s: int, r: int)
    requires 0 <= s && r < |coins| && s <= r + 1
    ensures ClassSum(coins, s, r) + ClassSum(coins, s + 1, r) == Total(coins, s, r)
    decreases r - s + 1
  {
    if s <= r {
      ClassesSplit(coins, s + 1, r);
    }
  }

  /** A class sum can also be taken from the right end: r counts when it is in the class of s. */
  lemma {:induction false} ClassRight(coins: seq<int>, s: int, r: int)
    requires 0 <= s <= r < |coins|
    ensures ClassSum(coins, s, r) == ClassSum(coins, s, r - 1) + (if (r - s) % 2 == 0 then coins[r] else 0)
    decreases r - s + 1
  {
    if s + 2 <= r {
      ClassRight(coins, s + 2, r);
    }
  }

  /**
    useEvenStrategy(coins, l, r): one pass over l..r that adds the pots at
    l, l + 2, ... to totalEven and those at l + 1, l + 3, ... to totalOdd,
    and answers totalEven > totalOdd.
   */
  method UseEvenStrategy(coins: seq<int>, l: int, r: int) returns (useEvens: bool, totalEven: int, totalOdd: int)
    requires l > r || (0 <= l && r < |coins|)
    ensures totalEven == ClassSum(coins, l, r) && totalOdd == ClassSum(coins, l + 1, r)
    ensures useEvens <==> ClassSum(coins, l, r) > ClassSum(coins, l + 1, r)
  {
    totalEven, totalOdd := 0, 0;
    var even := true;
    var i := l;
    while i <= r
      invariant l <= i <= r + 1 || i == l > r
      invariant totalEven + ClassSum(coins, if even then i else i + 1, r) == ClassSum(coins, l, r)
      invariant totalOdd + ClassSum(coins, if even then i + 1 else i, r) == ClassSum(coins, l + 1, r)
      decreases r - i + 1
    {
      if even {
        totalEven := totalEven + coins[i];
      } else {
        totalOdd := totalOdd + coins[i];
      }
      even := !even;
      i := i + 1;
    }
    useEvens := totalEven > totalOdd;
  }

  /** The choice the constructor makes from the whole row. */
  function UseEvens(coins: seq<int>): bool
  {
    ClassSum(coins, 0, |coins| - 1) > ClassSum(coins, 1, |coins| - 1)
  }

  /** The constructor's choice is the one useEvenStrategy returns on the whole row. */
  method Construct(coins: seq<int>) returns (alwaysUseEvens: bool)
    ensures alwaysUseEvens == UseEvens(coins)
    ensures alwaysUseEvens ==> ClassSum(coins, 0, |coins| - 1) > ClassSum(coins, 1, |coins| - 1)
    ensures !alwaysUseEvens ==> ClassSum(coins, 1, |coins| - 1) >= ClassSum(coins, 0, |coins| - 1)
  {
    var totalEven, totalOdd;
    alwaysUseEvens, totalEven, totalOdd := UseEvenStrategy(coins, 0, |coins| - 1);
  }

  /**
    takeLeft(coins, l, r) for a player that keeps to the even positions
    (evens) or the odd ones: the end in its class, the left one when both
    are; when neither is, the strictly larger end, the right one on a tie.
   */
  function TakeLeft(evens: bool, v: Ends): bool
  {
    var mine := if evens then 0 else 1;
    if v.l % 2 == mine then true
    else if v.r % 2 == mine then false
    else v.coins[v.l] > v.coins[v.r]
  }

  /** A player that keeps to the even positions (evens) or to the odd ones. */
  function Strategy(evens: bool): Player
  {
    (v: Ends) => TakeLeft(evens, v)
  }

  /** The player built for coins: the class is fixed once, from the whole row. */
  function OddEven(coins: seq<int>): Player
  {
    Strategy(UseEvens(coins))
  }

  /** The coins at the positions of l..r whose parity is that of c. */
  function Own(coins: seq<int>, l: int, r: int, c: int): int
    requires 0 <= l && r < |coins| && l <= r + 1
  {
    ClassSum(coins, if l % 2 == c % 2 then l else l + 1, r)
  }

  /** The parity of the positions the player keeps to. */
  function Mine(evens: bool): int
  {
    if evens then 0 else 1
  }

  /**
    What the player may face: on its own turn an even number of pots; on
    the other player's an odd number with both ends out of its class.
   */
  predicate Fair(l: int, r: int, c: int, aTurn: bool)
  {
    if aTurn then (r - l + 1) % 2 == 0 else l <= r && l % 2 != c && r % 2 != c
  }

  /** On its own turn the player takes the one end of its class, and leaves the other player a fair row. */
  lemma OwnTurn(ar: seq<int>, evens: bool, l: int, r: int)
    requires 0 <= l <= r < |ar| && Fair(l, r, Mine(evens), true)
    ensures var left := TakeLeft(evens, View(ar, l, r));
      var l', r' := if left then l + 1 else l, if left then r else r - 1;
      Fair(l', r', Mine(evens), false) &&
      Own(ar, l, r, Mine(evens)) == Coins(ar, l, r, left) + Own(ar, l', r', Mine(evens))
  {
    if l % 2 != Mine(evens) {
      ClassRight(ar, l + 1, r);
    }
  }

  /** Whichever end the other player takes, none is of the class, and a fair row is left. */
  lemma OtherTurn(ar: seq<int>, c: int, l: int, r: int, left: bool)
    requires 0 <= l <= r < |ar| && (c == 0 || c == 1) && Fair(l, r, c, false)
    ensures var l', r' := if left then l + 1 else l, if left then r else r - 1;
      Fair(l', r', c, true) && Own(ar, l, r, c) == Own(ar, l', r', c)
  {
    if !left && l + 1 <= r {
      ClassRight(ar, l + 1, r);
    }
  }

  /**
    Keeping to the class c from a fair row, against any B, A collects
    exactly the pots of its class.
   */
  lemma {:induction false} KeepsClass(ar: seq<int>, evens: bool, b: Player, l: int, r: int, aTurn: bool, pa: int, pb: int)
    requires 0 <= l && r < |ar| && l <= r + 1 && Fair(l, r, Mine(evens), aTurn)
    ensures Turns(ar, Strategy(evens), b, l, r, aTurn, pa, pb).0 == pa + Own(ar, l, r, Mine(evens))
    decreases r - l + 1
  {
    if l <= r {
      var a := Strategy(evens);
      var left := GoesLeft(ar, a, b, l, r, aTurn);
      var v := Coins(ar, l, r, left);
      var l', r' := if left then l + 1 else l, if left then r else r - 1;
      var pa', pb' := if aTurn then pa + v else pa, if aTurn then pb else pb + v;
      assert Turns(ar, a, b, l, r, aTurn, pa, pb) == Turns(ar, a, b, l', r', !aTurn, pa', pb');
      if aTurn {
        OwnTurn(ar, evens, l, r);
      } else {
        OtherTurn(ar, Mine(evens), l, r, left);
      }
      KeepsClass(ar, evens, b, l', r', !aTurn, pa', pb');
    }
  }

  /**
    The strategy's promise: with an even number of pots and moving first,
    the player collects exactly the class it chose, and so at least as
    much as the other player, whatever that one does.
   */
  lemma EvenRowWins(ar: seq<int>, b: Player)
    requires |ar| % 2 == 0
    ensures Play(ar, OddEven(ar), b).0 == ClassSum(ar, Mine(UseEvens(ar)), |ar| - 1)
    ensures Play(ar, OddEven(ar), b).0 >= Play(ar, OddEven(ar), b).1
  {
    var evens := UseEvens(ar);
    KeepsClass(ar, evens, b, 0, |ar| - 1, true, 0, 0);
    PlayTotal(ar, OddEven(ar), b);
    ClassesSplit(ar, 0, |ar| - 1);
  }

  /** The documented row {1, 1, 9, 2}: even positions hold 10, odd ones 3, so the evens are chosen. */
  lemma Documented(ar: seq<int>)
    requires ar == [1, 1, 9, 2]
    ensures ClassSum(ar, 0, 3) == 10 && ClassSum(ar, 1, 3) == 3 && UseEvens(ar)
    ensures Play(ar, OddEven(ar), OddEven(ar)) == (10, 3)
  {
    assert ClassSum(ar, 0, 3) == 10;
    assert ClassSum(ar, 1, 3) == 3;
    EvenRowWins(ar, OddEven(ar));
    PlayTotal(ar, OddEven(ar), OddEven(ar));
    assert Total(ar, 0, 3) == 13;
  }
}
