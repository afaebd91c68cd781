/**
  KSortedListsMinRange.java: the narrowest range [lo, hi] holding at least
  one value of each of k sorted lists. A priority queue holds one value
  per list; the smallest is polled, the range [polled, largest queued] is
  kept if strictly narrower, and the polled list's next value is queued,
  until a polled list has no next value.

  The queue always holds exactly one entry per list, so the state here is
  each list's iterator position. The iterator queued with a head is fresh,
  so the first poll of a list queues its head a second time.
 */
module MinRange {

  const IntMax: int := 0x7fff_ffff
  const IntMin: int := -0x8000_0000

  /** The int[2] result: range[0] and range[1]. */
  datatype Range = Range(lo: int, hi: int)

  /** Every list has a first value: list.get(0) throws on an empty one. */
  ghost predicate NonEmpty(lists: seq<seq<int>>)
  {
    forall k :: 0 <= k < |lists| ==> |lists[k]| > 0
  }

  /** Every value fits a Java int. */
  ghost predicate Int32(lists: seq<seq<int>>)
  {
    forall k, x :: 0 <= k < |lists| && 0 <= x < |lists[k]| ==> IntMin <= lists[k][x] <= IntMax
  }

  /** Each list in ascending order. */
  ghost predicate AllSorted(lists: seq<seq<int>>)
  {
    forall k, x, y :: 0 <= k < |lists| && 0 <= x <= y < |lists[k]| ==> lists[k][x] <= lists[k][y]
  }

  /** Some value of list l lies in [a, b]. */
  ghost predicate Hits(l: seq<int>, a: int, b: int)
  {
    exists x :: 0 <= x < |l| && a <= l[x] <= b
  }

  /** [a, b] holds at least one value of every list. */
  ghost predicate Covers(lists: seq<seq<int>>, a: int, b: int)
  {
    forall k :: 0 <= k < |lists| ==> Hits(lists[k], a, b)
  }

  // ---------------------------------------------------------------------
  // The queue
  // ---------------------------------------------------------------------

  /** Where each list's iterator stands: 0 before the first next(), j after j of them. */
  ghost predicate Positions(lists: seq<seq<int>>, js: seq<nat>)
  {
    NonEmpty(lists) && |js| == |lists| && forall k :: 0 <= k < |js| ==> js[k] <= |lists[k]|
  }

  /** The index of the value a list has queued: its head until next() has been called, then the last value next() returned. */
  function Cursor(j: nat): nat
  {
    if j == 0 then 0 else j - 1
  }

  /** The value a list with iterator position j has in the queue. */
  function Queued(l: seq<int>, j: nat): int
    requires 0 < |l| && j <= |l|
  {
    l[Cursor(j)]
  }

  /**
    q.poll(): the list whose queued value is smallest. The queue orders
    pairs by their value alone; among equal values the first list is
    taken here.
   */
  function Poll(lists: seq<seq<int>>, js: seq<nat>, n: nat): (k: nat)
    requires Positions(lists, js) && 0 < n <= |lists|
    ensures k < n && forall x :: 0 <= x < n ==> Queued(lists[k], js[k]) <= Queued(lists[x], js[x])
  {
    if n == 1 then 0
    else
      var k := Poll(lists, js, n - 1);
      if Queued(lists[n - 1], js[n - 1]) < Queued(lists[k], js[k]) then n - 1 else k
  }

  /** The iterations left: every list's values not yet returned by next(). */
  function Remaining(lists: seq<seq<int>>, js: seq<nat>, n: nat): nat
    requires Positions(lists, js) && n <= |lists|
  {
    if n == 0 then 0 else Remaining(lists, js, n - 1) + (|lists[n - 1]| - js[n - 1])
  }

  lemma {:induction false} RemainingStep(lists: seq<seq<int>>, js: seq<nat>, k: nat, n: nat)
    requires Positions(lists, js) && k < |lists| && js[k] < |lists[k]| && n <= |lists|
    ensures Positions(lists, js[k := js[k] + 1])
    ensures Remaining(lists, js[k := js[k] + 1], n) == Remaining(lists, js, n) - (if k < n then 1 else 0)
  {
    if n > 0 {
      RemainingStep(lists, js, k, n - 1);
    }
  }

  /**
    The while loop of getMinRange from iterator positions js, largest
    queued value mx and range r. The polled value i and mx make a
    candidate range, kept only if strictly narrower; then the polled
    list's next value is queued, or, if it has none, the loop stops.
   */
  function Loop(lists: seq<seq<int>>, js: seq<nat>, mx: int, r: Range): (res: Range)
    requires Positions(lists, js) && |lists| > 0
    ensures res == r || res.hi - res.lo < r.hi - r.lo
    decreases Remaining(lists, js, |lists|)
  {
    var k := Poll(lists, js, |lists|);
    var i := Queued(lists[k], js[k]);
    var r' := if r.hi - r.lo > mx - i then Range(i, mx) else r;
    if js[k] < |lists[k]| then
      var next := lists[k][js[k]];
      RemainingStep(lists, js, k, |lists|);
      Loop(lists, js[k := js[k] + 1], if next > mx then next else mx, r')
    else r'
  }

  /** The smallest head, starting from Integer.MAX_VALUE as range[0] does. */
  function MinHead(lists: seq<seq<int>>, n: nat): int
    requires NonEmpty(lists) && n <= |lists|
  {
    if n == 0 then IntMax
    else
      var m := MinHead(lists, n - 1);
      if m > lists[n - 1][0] then lists[n - 1][0] else m
  }

  /** The largest head, starting from Integer.MIN_VALUE as maxInQueue does. */
  function MaxHead(lists: seq<seq<int>>, n: nat): int
    requires NonEmpty(lists) && n <= |lists|
  {
    if n == 0 then IntMin
    else
      var m := MaxHead(lists, n - 1);
      if m < lists[n - 1][0] then lists[n - 1][0] else m
  }

  /**
    getMinRange(lists): queue every head, start from [smallest head,
    largest head], and run the loop. With no lists at all the range is
    left at [Integer.MAX_VALUE, Integer.MIN_VALUE].
   */
  function GetMinRange(lists: seq<seq<int>>): Range
    requires NonEmpty(lists)
  {
    if |lists| == 0 then Range(IntMax, IntMin)
    else
      var mx := MaxHead(lists, |lists|);
      Loop(lists, seq(|lists|, _ => 0), mx, Range(MinHead(lists, |lists|), mx))
  }

  // ---------------------------------------------------------------------
  // The range found covers every list
  // ---------------------------------------------------------------------

  /** What the loop keeps: mx is at least every queued value, and r is a covering range. */
  ghost predicate Inv(lists: seq<seq<int>>, js: seq<nat>, mx: int, r: Range)
  {
    Positions(lists, js) &&
    (forall k :: 0 <= k < |lists| ==> Queued(lists[k], js[k]) <= mx) &&
    r.lo <= r.hi && Covers(lists, r.lo, r.hi)
  }

  /** One iteration keeps Inv. */
  lemma LoopStep(lists: seq<seq<int>>, js: seq<nat>, mx: int, r: Range)
    requires Inv(lists, js, mx, r) && |lists| > 0
    ensures var k := Poll(lists, js, |lists|);
      var i := Queued(lists[k], js[k]);
      var r' := if r.hi - r.lo > mx - i then Range(i, mx) else r;
      Inv(lists, js, mx, r') &&
      (js[k] < |lists[k]| ==>
        var next := lists[k][js[k]];
        Inv(lists, js[k := js[k] + 1], if next > mx then next else mx, r'))
  {
    var k := Poll(lists, js, |lists|);
    var i := Queued(lists[k], js[k]);
    if r.hi - r.lo > mx - i {
      forall x | 0 <= x < |lists|
        ensures Hits(lists[x], i, mx)
      {
        assert i <= Queued(lists[x], js[x]) <= mx;
      }
    }
    if js[k] < |lists[k]| {
      var js' := js[k := js[k] + 1];
      assert Queued(lists[k], js'[k]) == lists[k][js[k]];
      assert forall x :: 0 <= x < |lists| && x != k ==> js'[x] == js[x];
    }
  }

  /** From any state that keeps Inv the loop returns a covering range. */
  lemma {:induction false} LoopCovers(lists: seq<seq<int>>, js: seq<nat>, mx: int, r: Range)
    requires Inv(lists, js, mx, r) && |lists| > 0
    ensures var res := Loop(lists, js, mx, r); res.lo <= res.hi && Covers(lists, res.lo, res.hi)
    decreases Remaining(lists, js, |lists|)
  {
    LoopStep(lists, js, mx, r);
    var k := Poll(lists, js, |lists|);
    if js[k] < |lists[k]| {
      var i := Queued(lists[k], js[k]);
      var next := lists[k][js[k]];
      RemainingStep(lists, js, k, |lists|);
      LoopCovers(lists, js[k := js[k] + 1], if next > mx then next else mx,
                 if r.hi - r.lo > mx - i then Range(i, mx) else r);
    }
  }

  /** The heads fold to their smallest and largest value, as long as they fit a Java int. */
  lemma {:induction false} HeadBounds(lists: seq<seq<int>>, n: nat)
    requires NonEmpty(lists) && Int32(lists) && 0 < n <= |lists|
    ensures exists k :: 0 <= k < n && lists[k][0] == MinHead(lists, n)
    ensures exists k :: 0 <= k < n && lists[k][0] == MaxHead(lists, n)
    ensures forall k :: 0 <= k < n ==> MinHead(lists, n) <= lists[k][0] <= MaxHead(lists, n)
  {
    if n == 1 {
      assert lists[0][0] == MinHead(lists, 1) == MaxHead(lists, 1);
    } else {
      HeadBounds(lists, n - 1);
      var lo :| 0 <= lo < n - 1 && lists[lo][0] == MinHead(lists, n - 1);
      var hi :| 0 <= hi < n - 1 && lists[hi][0] == MaxHead(lists, n - 1);
      var last := n - 1;
      assert lists[if MinHead(lists, n) == lists[last][0] then last else lo][0] == MinHead(lists, n);
      assert lists[if MaxHead(lists, n) == lists[last][0] then last else hi][0] == MaxHead(lists, n);
    }
  }

  /** The starting state keeps Inv: the heads' own range covers every list. */
  lemma StartInv(lists: seq<seq<int>>)
    requires NonEmpty(lists) && Int32(lists) && |lists| > 0
    ensures Inv(lists, seq(|lists|, _ => 0), MaxHead(lists, |lists|),
                Range(MinHead(lists, |lists|), MaxHead(lists, |lists|)))
  {
    var n := |lists|;
    HeadBounds(lists, n);
    forall k | 0 <= k < n
      ensures Hits(lists[k], MinHead(lists, n), MaxHead(lists, n))
    {
      assert MinHead(lists, n) <= lists[k][0] <= MaxHead(lists, n);
    }
  }

  /**
    getMinRange returns a range lo <= hi that holds a value of every list.
    Sortedness is not needed for this.
   */
  lemma GetMinRangeCovers(lists: seq<seq<int>>)
    requires NonEmpty(lists) && Int32(lists) && |lists| > 0
    ensures GetMinRange(lists).lo <= GetMinRange(lists).hi
    ensures Covers(lists, GetMinRange(lists).lo, GetMinRange(lists).hi)
  {
    StartInv(lists);
    LoopCovers(lists, seq(|lists|, _ => 0), MaxHead(lists, |lists|),
               Range(MinHead(lists, |lists|), MaxHead(lists, |lists|)));
  }

  // ---------------------------------------------------------------------
  // The range found is the narrowest
  // ---------------------------------------------------------------------

  /** q picks from every list a value in [a, b]. */
  ghost predicate Choice(lists: seq<seq<int>>, q: seq<nat>, a: int, b: int)
  {
    |q| == |lists| && forall k :: 0 <= k < |lists| ==> q[k] < |lists[k]| && a <= lists[k][q[k]] <= b
  }

  /**
    Measured against a covering [a, b] chosen through q: either the range
    is already no wider than b - a, or no iterator has passed its chosen
    value and nothing above b has been queued.
   */
  ghost predicate Behind(lists: seq<seq<int>>, js: seq<nat>, mx: int, r: Range, q: seq<nat>, a: int, b: int)
    requires Positions(lists, js) && |q| == |lists|
  {
    r.hi - r.lo <= b - a ||
    (mx <= b && forall k :: 0 <= k < |lists| ==> Cursor(js[k]) <= q[k])
  }

  /**
    One iteration keeps Behind. The polled list either stays at or behind
    its chosen value, or it sits on it: then the candidate [i, mx] lies
    inside [a, b].
   */
  lemma BehindStep(lists: seq<seq<int>>, js: seq<nat>, mx: int, r: Range, q: seq<nat>, a: int, b: int)
    requires Positions(lists, js) && |lists| > 0 && AllSorted(lists) && Choice(lists, q, a, b)
    requires Behind(lists, js, mx, r, q, a, b)
    ensures var k := Poll(lists, js, |lists|);
      var i := Queued(lists[k], js[k]);
      var r' := if r.hi - r.lo > mx - i then Range(i, mx) else r;
      (Cursor(js[k]) == q[k] ==> r'.hi - r'.lo <= b - a) &&
      (js[k] < |lists[k]| ==>
        var next := lists[k][js[k]];
        Positions(lists, js[k := js[k] + 1]) &&
        Behind(lists, js[k := js[k] + 1], if next > mx then next else mx, r', q, a, b))
  {
    var k := Poll(lists, js, |lists|);
    var i := Queued(lists[k], js[k]);
    var r' := if r.hi - r.lo > mx - i then Range(i, mx) else r;
    if js[k] < |lists[k]| {
      var js' := js[k := js[k] + 1];
      RemainingStep(lists, js, k, |lists|);
      if r.hi - r.lo > b - a && Cursor(js[k]) < q[k] {
        assert lists[k][js[k]] <= lists[k][q[k]];
        assert forall x :: 0 <= x < |lists| && x != k ==> js'[x] == js[x];
      }
    }
  }

  /** From a state that keeps Behind the loop returns a range no wider than b - a. */
  lemma {:induction false} LoopNarrowest(lists: seq<seq<int>>, js: seq<nat>, mx: int, r: Range, q: seq<nat>, a: int, b: int)
    requires Positions(lists, js) && |lists| > 0 && AllSorted(lists) && Choice(lists, q, a, b)
    requires Behind(lists, js, mx, r, q, a, b)
    ensures Loop(lists, js, mx, r).hi - Loop(lists, js, mx, r).lo <= b - a
    decreases Remaining(lists, js, |lists|)
  {
    BehindStep(lists, js, mx, r, q, a, b);
    var k := Poll(lists, js, |lists|);
    var i := Queued(lists[k], js[k]);
    var r' := if r.hi - r.lo > mx - i then Range(i, mx) else r;
    if js[k] < |lists[k]| {
      var next := lists[k][js[k]];
      RemainingStep(lists, js, k, |lists|);
      LoopNarrowest(lists, js[k := js[k] + 1], if next > mx then next else mx, r', q, a, b);
    } else {
      // the polled list is used up: its cursor is on its last value, which q chose
      assert Cursor(js[k]) == |lists[k]| - 1;
    }
  }

  /** Picks, for a range that covers, an index into each list that lands in it. */
  ghost function Pick(lists: seq<seq<int>>, a: int, b: int): (q: seq<nat>)
    requires Covers(lists, a, b)
    ensures Choice(lists, q, a, b)
  {
    seq(|lists|, k requires 0 <= k < |lists| && Hits(lists[k], a, b) =>
      var x :| 0 <= x < |lists[k]| && a <= lists[k][x] <= b; x)
  }

  /** No range that holds a value of every sorted list is narrower than the one getMinRange returns. */
  lemma GetMinRangeNarrowest(lists: seq<seq<int>>, a: int, b: int)
    requires NonEmpty(lists) && Int32(lists) && |lists| > 0 && AllSorted(lists)
    requires Covers(lists, a, b)
    ensures GetMinRange(lists).hi - GetMinRange(lists).lo <= b - a
  {
    var n := |lists|;
    var q := Pick(lists, a, b);
    var js: seq<nat> := seq(n, _ => 0);
    HeadBounds(lists, n);
    var mx := MaxHead(lists, n);
    var k :| 0 <= k < n && lists[k][0] == mx;
    assert lists[k][0] <= lists[k][q[k]];
    assert Behind(lists, js, mx, Range(MinHead(lists, n), mx), q, a, b);
    LoopNarrowest(lists, js, mx, Range(MinHead(lists, n), mx), q, a, b);
  }

  // ---------------------------------------------------------------------
  // The documented lists
  // ---------------------------------------------------------------------

  /** In the class comment's lists no covering range as narrow as 4 starts above 20 or ends below 24. */
  lemma DocumentedOnlyCover(lists: seq<seq<int>>, a: int, b: int)
    requires lists == [[4, 10, 15, 24, 26], [0, 9, 12, 20], [5, 18, 22, 30]]
    requires Covers(lists, a, b) && b - a <= 4
    ensures a <= 20 && 24 <= b
  {
    assert Hits(lists[0], a, b) && Hits(lists[1], a, b) && Hits(lists[2], a, b);
    var x0 :| 0 <= x0 < |lists[0]| && a <= lists[0][x0] <= b;
    var x1 :| 0 <= x1 < |lists[1]| && a <= lists[1][x1] <= b;
    var x2 :| 0 <= x2 < |lists[2]| && a <= lists[2][x2] <= b;
  }

  /** The lists are well formed and [20, 24] covers them. */
  lemma DocumentedLists(lists: seq<seq<int>>)
    requires lists == [[4, 10, 15, 24, 26], [0, 9, 12, 20], [5, 18, 22, 30]]
    ensures NonEmpty(lists) && Int32(lists) && AllSorted(lists) && Covers(lists, 20, 24)
  {
    assert lists[0][3] == 24 && lists[1][3] == 20 && lists[2][2] == 22;
  }

  /** The class comment's example: the lists give the range [20, 24]. */
  lemma DocumentedExample(lists: seq<seq<int>>)
    requires lists == [[4, 10, 15, 24, 26], [0, 9, 12, 20], [5, 18, 22, 30]]
    ensures GetMinRange(lists) == Range(20, 24)
  {
    DocumentedLists(lists);
    GetMinRangeNarrowest(lists, 20, 24);
    GetMinRangeCovers(lists);
    var r := GetMinRange(lists);
    DocumentedOnlyCover(lists, r.lo, r.hi);
  }

  /** In main's lists no covering range as narrow as 3 starts above 7 or ends below 10. */
  lemma MainOnlyCover(lists: seq<seq<int>>, a: int, b: int)
    requires lists == [[10, 20, 30], [2, 4, 8, 16], [5, 7, 13, 17]]
    requires Covers(lists, a, b) && b - a <= 3
    ensures a <= 7 && 10 <= b
  {
    assert Hits(lists[0], a, b) && Hits(lists[1], a, b) && Hits(lists[2], a, b);
    var x0 :| 0 <= x0 < |lists[0]| && a <= lists[0][x0] <= b;
    var x1 :| 0 <= x1 < |lists[1]| && a <= lists[1][x1] <= b;
    var x2 :| 0 <= x2 < |lists[2]| && a <= lists[2][x2] <= b;
  }

  /** The lists are well formed and [7, 10] covers them. */
  lemma MainLists(lists: seq<seq<int>>)
    requires lists == [[10, 20, 30], [2, 4, 8, 16], [5, 7, 13, 17]]
    ensures NonEmpty(lists) && Int32(lists) && AllSorted(lists) && Covers(lists, 7, 10)
  {
    assert lists[0][0] == 10 && lists[1][2] == 8 && lists[2][1] == 7;
  }

  /** main's lists give the range [7, 10]. */
  lemma MainExample(lists: seq<seq<int>>)
    requires lists == [[10, 20, 30], [2, 4, 8, 16], [5, 7, 13, 17]]
    ensures GetMinRange(lists) == Range(7, 10)
  {
    MainLists(lists);
    GetMinRangeNarrowest(lists, 7, 10);
    GetMinRangeCovers(lists);
    var r := GetMinRange(lists);
    MainOnlyCover(lists, r.lo, r.hi);
  }
}
