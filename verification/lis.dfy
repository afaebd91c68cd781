/**
  LongestIncreasingSubsequence.java: patience sort. Every value is dealt
  onto the leftmost pile whose top card is at least as large, or onto a new
  pile on the right; the card remembers the top of the pile to its left,
  and following those links from the rightmost pile spells out a longest
  strictly increasing subsequence.
 */
module LongestIncreasingSubsequence {
  import opened Nullable

  /** A dealt value and the card that was on top of the pile to its left (null on the first pile). */
  datatype Card = Card(i: int, card: Option<Card>)

  /** The values along the links ending at c, leftmost pile first. */
  function Chain(c: Card): (s: seq<int>)
    ensures |s| > 0 && s[|s| - 1] == c.i
    decreases c
  {
    match c.card
    case None => [c.i]
    case Some(left) => Chain(left) + [c.i]
  }

  /** No pile is empty. */
  ghost predicate PilesNonEmpty(piles: seq<seq<Card>>)
  {
    forall p :: 0 <= p < |piles| ==> |piles[p]| > 0
  }

  /** The value of the top (last dealt) card of a pile. */
  function Top(pile: seq<Card>): int
    requires |pile| > 0
  {
    pile[|pile| - 1].i
  }

  /** The top cards increase strictly from the leftmost pile to the right. */
  ghost predicate TopsIncrease(piles: seq<seq<Card>>)
    requires PilesNonEmpty(piles)
  {
    forall p, q :: 0 <= p < q < |piles| ==> Top(piles[p]) < Top(piles[q])
  }

  /**
    The pile binarySearchHostPileIdx looks for: the first pile from q on
    whose top is at least v, or -1. Every pile before it has a smaller
    top.
   */
  function FirstAtLeast(piles: seq<seq<Card>>, v: int, q: nat): (h: int)
    requires PilesNonEmpty(piles) && q <= |piles|
    ensures -1 <= h < |piles|
    ensures h >= 0 ==> q <= h && Top(piles[h]) >= v && forall x :: q <= x < h ==> Top(piles[x]) < v
    ensures h == -1 ==> forall x :: q <= x < |piles| ==> Top(piles[x]) < v
    decreases |piles| - q
  {
    if q == |piles| then -1
    else if Top(piles[q]) >= v then q
    else FirstAtLeast(piles, v, q + 1)
  }

  /** Every one of the first n piles has a top smaller than v. */
  ghost predicate AllBelow(piles: seq<seq<Card>>, v: int, n: int)
    requires PilesNonEmpty(piles) && n <= |piles|
  {
    forall q :: 0 <= q < n ==> Top(piles[q]) < v
  }

  /** Every pile after pile r has a top larger than v. */
  ghost predicate AllAbove(piles: seq<seq<Card>>, v: int, r: int)
    requires PilesNonEmpty(piles)
  {
    forall q :: 0 <= q < |piles| && r < q ==> Top(piles[q]) > v
  }

  /**
    binarySearchHostPileIdx(piles, v): the pile to put v on, -1 if there
    are no piles or none can host it. Whatever the piles, an index it
    returns is of a pile whose top is at least v; when the tops increase,
    as run keeps them, it is the first such pile.
   */
  method BinarySearchHostPileIdx(piles: seq<seq<Card>>, v: int) returns (h: int)
    requires PilesNonEmpty(piles)
    ensures -1 <= h < |piles|
    ensures h >= 0 ==> Top(piles[h]) >= v
    ensures |piles| == 0 ==> h == -1
    ensures TopsIncrease(piles) ==> h == FirstAtLeast(piles, v, 0)
  {
    var l, r := 0, |piles| - 1;
    if |piles| == 0 {
      return -1;
    }
    while l <= r
      invariant 0 <= l <= r + 1 <= |piles|
      invariant TopsIncrease(piles) ==> AllBelow(piles, v, l) && AllAbove(piles, v, r)
      decreases r - l
    {
      var m := l + (r - l) / 2;
      var c := Top(piles[m]);
      if c == v {
        return m;
      }
      if c < v {
        l := m + 1;
      } else {
        r := m - 1;
      }
    }
    if l >= |piles| {
      return -1;
    }
    h := if Top(piles[l]) >= v then l else -1;
  }

  /** The pile v is dealt onto: its host, or a new pile on the right. */
  function Landing(piles: seq<seq<Card>>, v: int): (p: nat)
    requires PilesNonEmpty(piles)
    ensures p <= |piles|
  {
    var h := FirstAtLeast(piles, v, 0);
    if h < 0 then |piles| else h
  }

  /**
    One iteration of run's loop: v goes on top of its landing pile, linked
    to the top card of the pile to its left.
   */
  function Deal(piles: seq<seq<Card>>, v: int): (next: seq<seq<Card>>)
    requires PilesNonEmpty(piles)
    ensures PilesNonEmpty(next)
    ensures |next| == if Landing(piles, v) == |piles| then |piles| + 1 else |piles|
  {
    var p := Landing(piles, v);
    var leftCard := if p > 0 then Some(piles[p - 1][|piles[p - 1]| - 1]) else None;
    var card := Card(v, leftCard);
    if p == |piles| then piles + [[card]] else piles[p := piles[p] + [card]]
  }

  /** The piles after dealing all of ar, left to right. */
  function Piles(ar: seq<int>): (piles: seq<seq<Card>>)
    ensures PilesNonEmpty(piles)
    ensures |ar| > 0 ==> |piles| > 0
  {
    if |ar| == 0 then [] else Deal(Piles(ar[..|ar| - 1]), ar[|ar| - 1])
  }

  /** What run returns: the chain of the bottom card of the rightmost pile. */
  function Patience(ar: seq<int>): seq<int>
    requires |ar| > 0
  {
    Chain(Piles(ar)[|Piles(ar)| - 1][0])
  }

  /**
    retrieveSeq(piles): an array as long as there are piles, filled from
    the right with the values along the links from the bottom card of the
    rightmost pile; places the links do not reach keep Java's default 0.
    A chain longer than there are piles would write below index 0 and
    throw, so it is excluded. On the piles run builds the chain is exactly
    as long as there are piles (PatienceIsIncreasing).
   */
  method RetrieveSeq(piles: seq<seq<Card>>) returns (out: seq<int>)
    requires PilesNonEmpty(piles) && |piles| > 0
    requires |Chain(piles[|piles| - 1][0])| <= |piles|
    ensures |out| == |piles|
    ensures var full := Chain(piles[|piles| - 1][0]);
      out == Zeros(|piles| - |full|) + full
  {
    var rightPile := piles[|piles| - 1];
    var full := Chain(rightPile[0]);
    var c: Option<Card> := Some(rightPile[0]);
    out := Zeros(|piles|);
    // k walks out from the right; j is the same place counted in full
    var d := |out| - |full|;
    var k, j := |out| - 1, |full| - 1;
    assert full[j + 1..] == [];
    while c.Some?
      invariant -1 <= j < |full| && k == d + j
      invariant c.Some? ==> Chain(c.value) == full[..j + 1]
      invariant c.None? ==> j == -1
      invariant out == Zeros(d + j + 1) + full[j + 1..]
      decreases c
    {
      var card := c.value;
      LinkStep(card, full, j);
      Put(out, full, d, j);
      out := out[k := card.i];
      k, j := k - 1, j - 1;
      c := card.card;
    }
    assert full[j + 1..] == full;
  }

  /** d zeros: Java's fresh int array. */
  function Zeros(d: nat): (z: seq<int>)
    ensures |z| == d && forall m :: 0 <= m < d ==> z[m] == 0
  {
    seq(d, _ => 0)
  }

  /** The card whose chain is full[..j + 1] holds full[j], and its link, if any, the chain before. */
  lemma LinkStep(card: Card, full: seq<int>, j: int)
    requires 0 <= j < |full| && Chain(card) == full[..j + 1]
    ensures card.i == full[j]
    ensures card.card.Some? ==> 0 < j && Chain(card.card.value) == full[..j]
    ensures card.card.None? ==> j == 0
  {
    if card.card.Some? {
      assert full[..j] == full[..j + 1][..j];
    }
  }

  /** Writing full[j] over the last zero grows the filled-in suffix by one. */
  lemma Put(out: seq<int>, full: seq<int>, d: nat, j: nat)
    requires j < |full| && out == Zeros(d + j + 1) + full[j + 1..]
    ensures out[d + j := full[j]] == Zeros(d + j) + full[j..]
  {
    assert full[j..] == [full[j]] + full[j + 1..];
  }

  /**
    The body of run's loop: find the host pile, open a new one if there is
    none, and put a card for v on it, linked to the top of the pile to its
    left. On piles whose tops increase this is Deal.
   */
  method DealCard(piles: seq<seq<Card>>, v: int) returns (next: seq<seq<Card>>)
    requires PilesNonEmpty(piles)
    ensures TopsIncrease(piles) ==> next == Deal(piles, v)
  {
    next := piles;
    var hostPileIdx := BinarySearchHostPileIdx(next, v);
    var hostPile: seq<Card>;
    if hostPileIdx < 0 {
      hostPile := [];
      next := next + [hostPile];
      hostPileIdx := |next| - 1;
    } else {
      hostPile := next[hostPileIdx];
    }
    assert hostPileIdx > 0 ==> next[hostPileIdx - 1] == piles[hostPileIdx - 1];
    var leftCard: Option<Card> := None;
    if hostPileIdx > 0 {
      var leftPile := next[hostPileIdx - 1];
      leftCard := Some(leftPile[|leftPile| - 1]);
    }
    ghost var grown := next;
    next := next[hostPileIdx := hostPile + [Card(v, leftCard)]];
    if hostPileIdx == |piles| {
      assert hostPile + [Card(v, leftCard)] == [Card(v, leftCard)];
      assert grown == piles + [[]];
      assert next == piles + [[Card(v, leftCard)]];
    }
  }

  /**
    run(ar): deal every value onto the piles, as Piles does, then retrieve.
    An empty ar makes retrieveSeq fail, so it is excluded. The answer is a
    longest strictly increasing subsequence of ar.
   */
  method Run(ar: seq<int>) returns (out: seq<int>)
    requires |ar| > 0
    ensures out == Patience(ar)
    ensures Increasing(out) && Subsequence(out, ar)
    ensures forall s: seq<int>, idx: seq<nat> :: Embeds(s, ar, idx) && Increasing(s) ==> |s| <= |out|
  {
    var piles: seq<seq<Card>> := [];
    for k := 0 to |ar|
      invariant piles == Piles(ar[..k])
    {
      assert ar[..k + 1][..k] == ar[..k];
      DealtOrder(ar[..k]);
      piles := DealCard(piles, ar[k]);
    }
    assert ar[..|ar|] == ar;
    PatienceIsIncreasing(ar);
    out := RetrieveSeq(piles);
    assert out == [] + Patience(ar);
    forall s: seq<int>, idx: seq<nat> | Embeds(s, ar, idx) && Increasing(s)
      ensures |s| <= |out|
    {
      PatienceIsLongest(ar, s, idx);
    }
  }

  /** A strictly increasing sequence. */
  ghost predicate Increasing(s: seq<int>)
  {
    forall m, n :: 0 <= m < n < |s| ==> s[m] < s[n]
  }

  /** idx picks the positions of t that spell s, in increasing order. */
  ghost predicate Embeds(s: seq<int>, t: seq<int>, idx: seq<nat>)
  {
    |idx| == |s| &&
    (forall m :: 0 <= m < |idx| ==> idx[m] < |t| && t[idx[m]] == s[m]) &&
    (forall m, n :: 0 <= m < n < |idx| ==> idx[m] < idx[n])
  }

  /** s is a (not necessarily contiguous) subsequence of t. */
  ghost predicate Subsequence(s: seq<int>, t: seq<int>)
  {
    exists idx :: Embeds(s, t, idx)
  }

  /** What a card on pile p stands for: a strictly increasing subsequence of length p + 1 of the values so far. */
  ghost predicate CardOk(c: Card, p: nat, dealt: seq<int>)
  {
    |Chain(c)| == p + 1 && Increasing(Chain(c)) && Subsequence(Chain(c), dealt)
  }

  /** No card is larger than the one below it. */
  ghost predicate Descends(pile: seq<Card>)
  {
    forall x, y :: 0 <= x < y < |pile| ==> pile[x].i >= pile[y].i
  }

  /** Every pile never increases from bottom to top. */
  ghost predicate PilesDescend(piles: seq<seq<Card>>)
  {
    forall p :: 0 <= p < |piles| ==> Descends(piles[p])
  }

  /** Every card of pile number p stands for an increasing subsequence of length p + 1. */
  ghost predicate PileOk(pile: seq<Card>, p: nat, dealt: seq<int>)
  {
    forall x :: 0 <= x < |pile| ==> CardOk(pile[x], p, dealt)
  }

  /** Every card on the piles stands for an increasing subsequence as long as its pile's number. */
  ghost predicate CardsOk(piles: seq<seq<Card>>, dealt: seq<int>)
  {
    forall p :: 0 <= p < |piles| ==> PileOk(piles[p], p, dealt)
  }

  /**
    Where each value of dealt went: pos[x] is its pile, whose top is now at
    most dealt[x], and a smaller earlier value went to a pile further left.
   */
  ghost predicate PosOk(piles: seq<seq<Card>>, dealt: seq<int>, pos: seq<nat>)
    requires PilesNonEmpty(piles)
  {
    |pos| == |dealt| &&
    (forall x :: 0 <= x < |pos| ==> pos[x] < |piles| && Top(piles[pos[x]]) <= dealt[x]) &&
    (forall x, y :: 0 <= x < y < |pos| && dealt[x] < dealt[y] ==> pos[x] < pos[y])
  }

  /** The pile every value of ar landed on. */
  ghost function Positions(ar: seq<int>): (pos: seq<nat>)
    ensures |pos| == |ar|
  {
    if |ar| == 0 then [] else Positions(ar[..|ar| - 1]) + [Landing(Piles(ar[..|ar| - 1]), ar[|ar| - 1])]
  }

  /** Dealing keeps the tops increasing and every pile descending. */
  lemma DealKeepsOrder(piles: seq<seq<Card>>, v: int)
    requires PilesNonEmpty(piles) && TopsIncrease(piles) && PilesDescend(piles)
    ensures TopsIncrease(Deal(piles, v)) && PilesDescend(Deal(piles, v))
  {
    var next := Deal(piles, v);
    var h := Landing(piles, v);
    assert Top(next[h]) == v;
    forall p | 0 <= p < |next| && p != h
      ensures next[p] == piles[p]
    {
    }
    if h < |piles| {
      assert Descends(piles[h]) && Top(piles[h]) >= v;
      assert next[h] == piles[h] + [Card(v, next[h][|next[h]| - 1].card)];
    }
  }

  /** A subsequence of a prefix stays one as values are appended, and can take the new value as its last. */
  lemma SubsequenceGrows(s: seq<int>, t: seq<int>, v: int)
    requires Subsequence(s, t)
    ensures Subsequence(s, t + [v])
    ensures Subsequence(s + [v], t + [v])
  {
    var idx: seq<nat> :| Embeds(s, t, idx);
    assert Embeds(s, t + [v], idx);
    assert Embeds(s + [v], t + [v], idx + [|t|]);
  }

  /** The cards already on the piles stay meaningful once another value is dealt. */
  lemma OldCardsStay(piles: seq<seq<Card>>, dealt: seq<int>, v: int)
    requires CardsOk(piles, dealt)
    ensures CardsOk(piles, dealt + [v])
  {
    var t := dealt + [v];
    forall p | 0 <= p < |piles|
      ensures PileOk(piles[p], p, t)
    {
      forall x | 0 <= x < |piles[p]|
        ensures CardOk(piles[p][x], p, t)
      {
        assert PileOk(piles[p], p, dealt);
        SubsequenceGrows(Chain(piles[p][x]), dealt, v);
      }
    }
  }

  /**
    The card dealing v puts down stands for an increasing subsequence as
    long as its pile's number: its left neighbour is smaller than v, since
    that pile was passed over.
   */
  lemma NewCardOk(piles: seq<seq<Card>>, dealt: seq<int>, v: int)
    requires PilesNonEmpty(piles) && CardsOk(piles, dealt)
    ensures var next, h := Deal(piles, v), Landing(piles, v);
      CardOk(next[h][|next[h]| - 1], h, dealt + [v])
  {
    var next := Deal(piles, v);
    var h := Landing(piles, v);
    var t := dealt + [v];
    var card := next[h][|next[h]| - 1];
    if h > 0 {
      var left := piles[h - 1][|piles[h - 1]| - 1];
      assert PileOk(piles[h - 1], h - 1, dealt);
      assert left.i == Top(piles[h - 1]) < v;
      assert Chain(card) == Chain(left) + [v];
      SubsequenceGrows(Chain(left), dealt, v);
    } else {
      assert Chain(card) == [v];
      assert Embeds([v], t, [|dealt|]);
    }
  }

  /** Dealing v keeps every card meaningful. */
  lemma DealKeepsCards(piles: seq<seq<Card>>, dealt: seq<int>, v: int)
    requires PilesNonEmpty(piles) && CardsOk(piles, dealt)
    ensures CardsOk(Deal(piles, v), dealt + [v])
  {
    var next := Deal(piles, v);
    var h := Landing(piles, v);
    var t := dealt + [v];
    var card := next[h][|next[h]| - 1];
    NewCardOk(piles, dealt, v);
    OldCardsStay(piles, dealt, v);
    forall p | 0 <= p < |next|
      ensures PileOk(next[p], p, t)
    {
      if p != h {
        assert next[p] == piles[p] && PileOk(piles[p], p, t);
      } else if h < |piles| {
        assert next[h] == piles[h] + [card] && PileOk(piles[h], h, t);
      } else {
        assert next[h] == [card];
      }
    }
  }

  /** Dealing v records where it went, and keeps smaller earlier values to its left. */
  lemma DealKeepsPositions(piles: seq<seq<Card>>, dealt: seq<int>, pos: seq<nat>, v: int, t: seq<int>)
    requires PilesNonEmpty(piles) && TopsIncrease(piles) && PosOk(piles, dealt, pos)
    requires t == dealt + [v]
    ensures PosOk(Deal(piles, v), t, pos + [Landing(piles, v)])
  {
    var next := Deal(piles, v);
    var h := Landing(piles, v);
    var pos' := pos + [h];
    forall x | 0 <= x < |pos'|
      ensures pos'[x] < |next| && Top(next[pos'[x]]) <= t[x]
    {
      if x < |pos| {
        assert Top(piles[pos[x]]) <= dealt[x];
        if pos[x] == h {
          assert Top(next[h]) == v <= Top(piles[h]);
        } else {
          assert next[pos[x]] == piles[pos[x]];
        }
      } else {
        assert Top(next[h]) == v;
      }
    }
    forall x, y | 0 <= x < y < |pos'| && t[x] < t[y]
      ensures pos'[x] < pos'[y]
    {
      if y == |pos| {
        assert Top(piles[pos[x]]) <= dealt[x] < v;
      }
    }
  }

  lemma SplitLast(ar: seq<int>)
    requires |ar| > 0
    ensures ar == ar[..|ar| - 1] + [ar[|ar| - 1]]
  {
  }

  /** Dealing a prefix of the input leaves the tops increasing and the piles descending. */
  lemma {:induction false} DealtOrder(ar: seq<int>)
    ensures TopsIncrease(Piles(ar)) && PilesDescend(Piles(ar))
  {
    if |ar| > 0 {
      DealtOrder(ar[..|ar| - 1]);
      DealKeepsOrder(Piles(ar[..|ar| - 1]), ar[|ar| - 1]);
    }
  }

  /** Dealing a prefix of the input leaves every card standing for an increasing subsequence of it. */
  lemma {:induction false} DealtCards(ar: seq<int>)
    ensures CardsOk(Piles(ar), ar)
  {
    if |ar| > 0 {
      var prefix, v := ar[..|ar| - 1], ar[|ar| - 1];
      SplitLast(ar);
      assert Piles(ar) == Deal(Piles(prefix), v);
      DealtCards(prefix);
      DealKeepsCards(Piles(prefix), prefix, v);
    }
  }

  /** Dealing a prefix of the input records every value's pile as PosOk describes. */
  lemma {:induction false} DealtPositions(ar: seq<int>)
    ensures PosOk(Piles(ar), ar, Positions(ar))
  {
    if |ar| > 0 {
      var prefix, v := ar[..|ar| - 1], ar[|ar| - 1];
      SplitLast(ar);
      DealtPositions(prefix);
      DealtOrder(prefix);
      DealKeepsPositions(Piles(prefix), prefix, Positions(prefix), v, ar);
    }
  }

  /** A strictly increasing run of pile numbers below n has at most n entries. */
  lemma {:induction false} FewerThanPiles(s: seq<int>, idx: seq<nat>, ar: seq<int>, pos: seq<nat>, n: nat, m: nat)
    requires Embeds(s, ar, idx) && Increasing(s) && |pos| == |ar|
    requires forall x :: 0 <= x < |pos| ==> pos[x] < n
    requires forall x, y :: 0 <= x < y < |pos| && ar[x] < ar[y] ==> pos[x] < pos[y]
    requires m < |s|
    ensures m <= pos[idx[m]] && m < n
    decreases m
  {
    if m > 0 {
      FewerThanPiles(s, idx, ar, pos, n, m - 1);
      assert ar[idx[m - 1]] == s[m - 1] < s[m] == ar[idx[m]];
    }
  }

  /** The patience answer is a strictly increasing subsequence of ar, one value per pile. */
  lemma PatienceIsIncreasing(ar: seq<int>)
    requires |ar| > 0
    ensures Increasing(Patience(ar)) && Subsequence(Patience(ar), ar)
    ensures |Patience(ar)| == |Piles(ar)|
  {
    DealtCards(ar);
    var piles := Piles(ar);
    assert PileOk(piles[|piles| - 1], |piles| - 1, ar);
  }

  /** No strictly increasing subsequence of ar is longer than there are piles. */
  lemma PatienceIsLongest(ar: seq<int>, s: seq<int>, idx: seq<nat>)
    requires Embeds(s, ar, idx) && Increasing(s)
    ensures |s| <= |Piles(ar)|
  {
    if |s| > 0 {
      DealtPositions(ar);
      FewerThanPiles(s, idx, ar, Positions(ar), |Piles(ar)|, |s| - 1);
    }
  }

  /** Piles unfolds one dealt value at a time. */
  lemma PilesSnoc(prefix: seq<int>, v: int, t: seq<int>, prev: seq<seq<Card>>, next: seq<seq<Card>>)
    requires t == prefix + [v] && Piles(prefix) == prev && PilesNonEmpty(prev) && next == Deal(prev, v)
    ensures Piles(t) == next
  {
    assert t[..|prefix|] == prefix;
  }

  // The eight deals of the class's main method, one value each.

  lemma Deal10(piles: seq<seq<Card>>)
    requires piles == []
    ensures Deal(piles, 10) == [[Card(10, None)]]
  {
  }

  lemma Deal5(piles: seq<seq<Card>>)
    requires piles == [[Card(10, None)]]
    ensures Deal(piles, 5) == [[Card(10, None), Card(5, None)]]
  {
    assert Landing(piles, 5) == 0;
    assert piles[0] + [Card(5, None)] == [Card(10, None), Card(5, None)];
  }

  lemma Deal8(piles: seq<seq<Card>>)
    requires piles == [[Card(10, None), Card(5, None)]]
    ensures Deal(piles, 8) == piles + [[Card(8, Some(Card(5, None)))]]
  {
    assert Landing(piles, 8) == 1;
  }

  lemma Deal3(piles: seq<seq<Card>>)
    requires piles == [[Card(10, None), Card(5, None)], [Card(8, Some(Card(5, None)))]]
    ensures Deal(piles, 3) == [[Card(10, None), Card(5, None), Card(3, None)], [Card(8, Some(Card(5, None)))]]
  {
    assert Landing(piles, 3) == 0;
    assert piles[0] + [Card(3, None)] == [Card(10, None), Card(5, None), Card(3, None)];
  }

  lemma Deal9(piles: seq<seq<Card>>)
    requires piles == [[Card(10, None), Card(5, None), Card(3, None)], [Card(8, Some(Card(5, None)))]]
    ensures Deal(piles, 9) == piles + [[Card(9, Some(Card(8, Some(Card(5, None)))))]]
  {
    assert Landing(piles, 9) == 2;
  }

  lemma Deal4(piles: seq<seq<Card>>, nine: Card)
    requires nine == Card(9, Some(Card(8, Some(Card(5, None)))))
    requires piles == [[Card(10, None), Card(5, None), Card(3, None)], [Card(8, Some(Card(5, None)))], [nine]]
    ensures Deal(piles, 4) == piles[1 := piles[1] + [Card(4, Some(Card(3, None)))]]
  {
    assert FirstAtLeast(piles, 4, 1) == 1;
  }

  lemma Deal12(piles: seq<seq<Card>>, nine: Card)
    requires nine == Card(9, Some(Card(8, Some(Card(5, None)))))
    requires |piles| == 3 && PilesNonEmpty(piles) && piles[2] == [nine] && Top(piles[0]) == 3 && Top(piles[1]) == 4
    ensures Deal(piles, 12) == piles + [[Card(12, Some(nine))]]
  {
    assert Landing(piles, 12) == 3;
  }

  lemma Deal11(piles: seq<seq<Card>>, twelve: Card)
    requires |piles| == 4 && PilesNonEmpty(piles) && piles[3] == [twelve] && twelve.i == 12
    requires Top(piles[0]) == 3 && Top(piles[1]) == 4 && Top(piles[2]) == 9
    ensures Deal(piles, 11)[3][0] == twelve
  {
    assert Landing(piles, 11) == 3;
  }

  /** The piles of the class's main method once 10, 5, 8 and 3 are dealt. */
  lemma DemoFirstHalf(p: seq<int>)
    requires p == [10, 5, 8, 3]
    ensures Piles(p) == [[Card(10, None), Card(5, None), Card(3, None)], [Card(8, Some(Card(5, None)))]]
  {
    var p0 := Piles([]);
    Deal10(p0);
    var p1 := Deal(p0, 10);
    PilesSnoc([], 10, [10], p0, p1);
    Deal5(p1);
    var p2 := Deal(p1, 5);
    PilesSnoc([10], 5, [10, 5], p1, p2);
    Deal8(p2);
    var p3 := Deal(p2, 8);
    PilesSnoc([10, 5], 8, [10, 5, 8], p2, p3);
    Deal3(p3);
    PilesSnoc([10, 5, 8], 3, p, p3, Deal(p3, 3));
  }

  /** After 9 and 4 the piles have tops 3, 4 and 9, the 9 linked back through 8 to 5. */
  lemma DemoFirstSix(q: seq<int>, nine: Card)
    requires q == [10, 5, 8, 3, 9, 4] && nine == Card(9, Some(Card(8, Some(Card(5, None)))))
    ensures var p6 := Piles(q);
      |p6| == 3 && PilesNonEmpty(p6) && p6[2] == [nine] && Top(p6[0]) == 3 && Top(p6[1]) == 4
  {
    var p4 := Piles([10, 5, 8, 3]);
    DemoFirstHalf([10, 5, 8, 3]);
    Deal9(p4);
    var p5 := Deal(p4, 9);
    PilesSnoc([10, 5, 8, 3], 9, [10, 5, 8, 3, 9], p4, p5);
    Deal4(p5, nine);
    PilesSnoc([10, 5, 8, 3, 9], 4, q, p5, Deal(p5, 4));
  }

  /** The links from the 12 of the class's main method. */
  lemma DemoChain(twelve: Card)
    requires twelve == Card(12, Some(Card(9, Some(Card(8, Some(Card(5, None)))))))
    ensures Chain(twelve) == [5, 8, 9, 12]
  {
  }

  /**
    The class's main method: dealing {10, 5, 8, 3, 9, 4, 12, 11} makes four
    piles, and the bottom card of the rightmost one, 12, links back through
    9 and 8 to 5.
   */
  lemma Demo(ar: seq<int>)
    requires ar == [10, 5, 8, 3, 9, 4, 12, 11]
    ensures Patience(ar) == [5, 8, 9, 12]
  {
    var nine := Card(9, Some(Card(8, Some(Card(5, None)))));
    var twelve := Card(12, Some(nine));
    DemoFirstSix([10, 5, 8, 3, 9, 4], nine);
    var p6 := Piles([10, 5, 8, 3, 9, 4]);
    Deal12(p6, nine);
    var p7 := Deal(p6, 12);
    PilesSnoc([10, 5, 8, 3, 9, 4], 12, [10, 5, 8, 3, 9, 4, 12], p6, p7);
    Deal11(p7, twelve);
    PilesSnoc([10, 5, 8, 3, 9, 4, 12], 11, ar, p7, Deal(p7, 11));
    DemoChain(twelve);
  }
}
