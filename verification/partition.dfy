/**
  PartitionProblem.java: pick values of ar[i..] whose total comes as close
  as possible to a target (half the total, for the two-way partition).
  select either takes ar[i] and looks for target - ar[i] in the rest, or
  skips it and looks for target; it keeps the first only when it is
  strictly closer.
 */
module PartitionProblem {
  import opened Sums

  /** absDiff(a, b): the distance between a and b. */
  function AbsDiff(a: int, b: int): (r: int)
    ensures r >= 0 && (r == a - b || r == b - a)
    ensures r == 0 <==> a == b
  {
    if a > b then a - b else b - a
  }

  /**
    select(ar, i, target). The list with ar[i] taken is the list chosen
    from the rest with ar[i] appended, so later positions come first.
   */
  function Select(ar: seq<int>, i: nat, target: int): (r: seq<int>)
    decreases |ar| - i
  {
    if i >= |ar| then []
    else
      var l1 := Select(ar, i + 1, target - ar[i]) + [ar[i]];
      var l2 := Select(ar, i + 1, target);
      if AbsDiff(Sum(l1), target) < AbsDiff(Sum(l2), target) then l1 else l2
  }

  /**
    The values of ar[i..] at the positions m marks, in the order select
    builds its lists: each later position before the earlier ones.
   */
  function Chosen(ar: seq<int>, i: nat, m: seq<bool>): seq<int>
    requires |m| == |ar|
    decreases |ar| - i
  {
    if i >= |ar| then []
    else Chosen(ar, i + 1, m) + (if m[i] then [ar[i]] else [])
  }

  /** A choice takes each position of ar[i..] at most once. */
  lemma {:induction false} ChosenWithin(ar: seq<int>, i: nat, m: seq<bool>)
    requires |m| == |ar| && i <= |ar|
    ensures multiset(Chosen(ar, i, m)) <= multiset(ar[i..])
    decreases |ar| - i
  {
    if i < |ar| {
      ChosenWithin(ar, i + 1, m);
      SumFrom(ar, i);
    }
  }

  /** Appending v adds v to the total. */
  lemma SumSnoc(s: seq<int>, v: int)
    ensures Sum(s + [v]) == Sum(s) + v
  {
    SumConcat(s, [v]);
    assert Sum([v]) == v + Sum([]);
  }

  /** What select returns is a choice of positions of ar[i..]. */
  lemma {:induction false} SelectIsChoice(ar: seq<int>, i: nat, target: int) returns (m: seq<bool>)
    ensures |m| == |ar| && Select(ar, i, target) == Chosen(ar, i, m)
    decreases |ar| - i
  {
    if i >= |ar| {
      m := seq(|ar|, _ => false);
    } else {
      var l1 := Select(ar, i + 1, target - ar[i]) + [ar[i]];
      var l2 := Select(ar, i + 1, target);
      if AbsDiff(Sum(l1), target) < AbsDiff(Sum(l2), target) {
        var m1 := SelectIsChoice(ar, i + 1, target - ar[i]);
        m := m1[i := true];
        ChosenFrom(ar, i + 1, m1, m);
        assert Chosen(ar, i, m) == Chosen(ar, i + 1, m) + [ar[i]];
      } else {
        var m2 := SelectIsChoice(ar, i + 1, target);
        m := m2[i := false];
        ChosenFrom(ar, i + 1, m2, m);
        assert Chosen(ar, i, m) == Chosen(ar, i + 1, m) + [];
      }
    }
  }

  /** Marks before position i do not matter to a choice from i on. */
  lemma {:induction false} ChosenFrom(ar: seq<int>, i: nat, m: seq<bool>, m': seq<bool>)
    requires |m| == |ar| == |m'| && forall j :: i <= j < |ar| ==> m[j] == m'[j]
    ensures Chosen(ar, i, m) == Chosen(ar, i, m')
    decreases |ar| - i
  {
    if i < |ar| {
      ChosenFrom(ar, i + 1, m, m');
    }
  }

  /** So the result only ever uses values of ar[i..], each position at most once. */
  lemma SelectWithin(ar: seq<int>, i: nat, target: int)
    requires i <= |ar|
    ensures multiset(Select(ar, i, target)) <= multiset(ar[i..])
  {
    var m := SelectIsChoice(ar, i, target);
    ChosenWithin(ar, i, m);
  }

  /**
    No choice of positions of ar[i..] comes closer to the target than
    the one select returns.
   */
  lemma {:induction false} SelectIsClosest(ar: seq<int>, i: nat, target: int, m: seq<bool>)
    requires |m| == |ar|
    ensures AbsDiff(Sum(Select(ar, i, target)), target) <= AbsDiff(Sum(Chosen(ar, i, m)), target)
    decreases |ar| - i
  {
    if i < |ar| {
      var v := ar[i];
      var l1 := Select(ar, i + 1, target - v) + [v];
      var l2 := Select(ar, i + 1, target);
      var r := Select(ar, i, target);
      assert AbsDiff(Sum(r), target) <= AbsDiff(Sum(l1), target);
      assert AbsDiff(Sum(r), target) <= AbsDiff(Sum(l2), target);
      SumSnoc(Select(ar, i + 1, target - v), v);
      var c := Chosen(ar, i + 1, m);
      if m[i] {
        assert Chosen(ar, i, m) == c + [v];
        SelectIsClosest(ar, i + 1, target - v, m);
        SumSnoc(c, v);
      } else {
        assert Chosen(ar, i, m) == c + [];
        assert c + [] == c;
        SelectIsClosest(ar, i + 1, target, m);
      }
    }
  }

  /** The positions m does not mark. */
  function Flip(m: seq<bool>): (r: seq<bool>)
    ensures |r| == |m| && forall j :: 0 <= j < |m| ==> r[j] == !m[j]
  {
    seq(|m|, j requires 0 <= j < |m| => !m[j])
  }

  /** A choice and the choice of the other positions together total ar[i..]. */
  lemma {:induction false} ChosenComplement(ar: seq<int>, i: nat, m: seq<bool>)
    requires |m| == |ar| && i <= |ar|
    ensures Sum(Chosen(ar, i, m)) + Sum(Chosen(ar, i, Flip(m))) == Sum(ar[i..])
    decreases |ar| - i
  {
    if i < |ar| {
      ChosenComplement(ar, i + 1, m);
      SumFrom(ar, i);
      var c, d := Chosen(ar, i + 1, m), Chosen(ar, i + 1, Flip(m));
      SumSnoc(c, ar[i]);
      SumSnoc(d, ar[i]);
      assert c + [] == c && d + [] == d;
    }
  }

  /**
    With the target half of the total, the values select leaves behind
    are exactly as far from the target as those it picks: both halves of
    the partition are as close as possible.
   */
  lemma RestAsClose(ar: seq<int>, target: int, m: seq<bool>)
    requires Sum(ar) == 2 * target && |m| == |ar| && Select(ar, 0, target) == Chosen(ar, 0, m)
    ensures AbsDiff(Sum(Chosen(ar, 0, Flip(m))), target) == AbsDiff(Sum(Select(ar, 0, target)), target)
  {
    ChosenComplement(ar, 0, m);
    assert ar[0..] == ar;
  }

  /** At the last position select takes the value only when that is strictly closer than nothing. */
  lemma SelectLast(ar: seq<int>, target: int)
    requires |ar| > 0
    ensures Select(ar, |ar| - 1, target) ==
      if AbsDiff(ar[|ar| - 1], target) < AbsDiff(0, target) then [ar[|ar| - 1]] else []
  {
    var e: seq<int> := [];
    assert e + [ar[|ar| - 1]] == [ar[|ar| - 1]];
    assert Sum([ar[|ar| - 1]]) == ar[|ar| - 1] + Sum(e);
  }

  /**
    The documented example: from {1, 5, 7, 10} with target 23 / 2 = 11,
    select returns {10, 1}, which hits the target exactly.
   */
  lemma DocumentedExample(ar: seq<int>)
    requires ar == [1, 5, 7, 10]
    ensures Select(ar, 0, 11) == [10, 1]
  {
    var e: seq<int> := [];
    SelectLast(ar, -2);
    SelectLast(ar, 5);
    SelectLast(ar, 3);
    SelectLast(ar, 10);
    assert e + [7] == [7] && Sum([7]) == 7 && Sum([10]) == 10;
    assert Select(ar, 2, 5) == [7];
    assert Select(ar, 2, 10) == [10];
    assert Sum([7, 5]) == 12 && Sum([10, 1]) == 11;
    assert Select(ar, 1, 10) == [10];
    TieSkips(ar);
    assert [10] + [1] == [10, 1];
  }

  /**
    A tie keeps the list without ar[i]: from {5, 7, 10} with target 11,
    {7, 5} and {10} are both 1 away, and select returns {10}.
   */
  lemma TieSkips(ar: seq<int>)
    requires ar == [1, 5, 7, 10]
    ensures Select(ar, 1, 11) == [10]
    ensures AbsDiff(Sum([7, 5]), 11) == AbsDiff(Sum([10]), 11)
  {
    var e: seq<int> := [];
    SelectLast(ar, -1);
    SelectLast(ar, 6);
    SelectLast(ar, 4);
    SelectLast(ar, 11);
    assert e + [7] == [7] && Sum([7]) == 7 && Sum([10]) == 10;
    assert Select(ar, 2, 6) == [7];
    assert Select(ar, 2, 11) == [10];
    assert Sum([7, 5]) == 12;
  }
}
