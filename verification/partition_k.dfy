/**
  PartitionToKEqualSum.java, the simple search: split an array into k
  groups of equal total. Every group starts with the target total/k; value
  i goes into the first group whose remaining target still holds it, and
  the search backtracks when the rest cannot be placed. p collects the
  values of each group.
 */
module PartitionToK {
  import opened Nullable
  import opened Sums

  /** The targets and groups a call leaves behind, and what it returns. */
  datatype Outcome = Outcome(ok: bool, t: seq<int>, p: seq<seq<int>>)

  /**
    Group by group, what is left of the target plus what the group holds
    is the same in both states: a value leaves a target only to be
    recorded in that target's group.
   */
  ghost predicate Conserves(t: seq<int>, p: seq<seq<int>>, t': seq<int>, p': seq<seq<int>>)
  {
    |t'| == |t| && |p'| == |p| &&
    forall b :: 0 <= b < |t| && b < |p| ==> t'[b] + Sum(p'[b]) == t[b] + Sum(p[b])
  }

  /**
    partition(ar, i, target, p) with the end of the array as its base
    case: past the last value the answer is whether every target is used
    up (sum(target) == 0).
   */
  function Partition(ar: seq<int>, i: nat, t: seq<int>, p: seq<seq<int>>): (r: Outcome)
    requires i <= |ar| && |p| == |t|
    ensures r.ok <==> Sum(r.t) == 0
    ensures !r.ok ==> r.t == t && r.p == p
    ensures Conserves(t, p, r.t, r.p)
    decreases |ar| - i, |t| + 1
  {
    if i == |ar| then Outcome(Sum(t) == 0, t, p)
    else Place(ar, i, t, p, 0)
  }

  /**
    The loop over targets k, k + 1, ... for value ar[i]: a target that
    holds it is reduced and the rest is searched; on success the value is
    recorded in that group and the loop stops, on failure the target is
    restored. The call answers sum(target) == 0 either way.
   */
  function Place(ar: seq<int>, i: nat, t: seq<int>, p: seq<seq<int>>, k: nat): (r: Outcome)
    requires i < |ar| && |p| == |t| && k <= |t|
    ensures r.ok <==> Sum(r.t) == 0
    ensures !r.ok ==> r.t == t && r.p == p
    ensures Conserves(t, p, r.t, r.p)
    decreases |ar| - i, |t| - k
  {
    var v := ar[i];
    if k == |t| then Outcome(Sum(t) == 0, t, p)
    else if t[k] >= v then
      var c := Partition(ar, i + 1, t[k := t[k] - v], p);
      if c.ok then
        SumConcat(c.p[k], [v]);
        Outcome(Sum(c.t) == 0, c.t, c.p[k := c.p[k] + [v]])
      else Place(ar, i, c.t[k := c.t[k] + v], c.p, k + 1)
    else Place(ar, i, t, p, k + 1)
  }

  /**
    run1(ar, k): no split when the total is not a multiple of k;
    otherwise k empty groups with target total / k each. Java's % and /
    truncate, but only on an exact multiple is the quotient used, where
    they agree with Dafny's.
   */
  function Run1(ar: seq<int>, k: nat): (r: (bool, seq<seq<int>>))
    requires k > 0
  {
    var total := Sum(ar);
    if total % k != 0 then (false, [])
    else
      var o := Partition(ar, 0, Uniform(k, total / k), NoGroups(k));
      (o.ok, o.p)
  }

  // ---------------------------------------------------------------------
  // What a split is
  // ---------------------------------------------------------------------

  /** q splits the values vals into groups whose totals are the targets t. */
  ghost predicate Splits(vals: seq<int>, q: seq<seq<int>>, t: seq<int>)
  {
    |q| == |t| && (forall b :: 0 <= b < |t| ==> Sum(q[b]) == t[b]) &&
    multiset(Flatten(q)) == multiset(vals)
  }

  /** The values can be split into k groups of equal total. */
  ghost predicate EqualSplit(vals: seq<int>, k: nat)
  {
    exists q, x :: Splits(vals, q, Uniform(k, x))
  }

  /** A split keeps the total. */
  lemma SplitTotal(vals: seq<int>, q: seq<seq<int>>, t: seq<int>)
    requires Splits(vals, q, t)
    ensures Sum(vals) == Sum(t)
  {
    SumFlatten(q);
    SumPermutation(Flatten(q), vals);
    assert Totals(q) == t;
  }

  /**
    Taking the first value out of its group in a split of vals leaves a
    split of the rest, for the targets with that group's reduced.
   */
  lemma SplitFirst(vals: seq<int>, q: seq<seq<int>>, t: seq<int>) returns (b: nat, q': seq<seq<int>>)
    requires |vals| > 0 && Splits(vals, q, t)
    ensures b < |t| && Splits(vals[1..], q', t[b := t[b] - vals[0]])
    ensures multiset(q'[b]) <= multiset(vals[1..])
  {
    assert vals[0] in multiset(Flatten(q));
    var j;
    b, j := InFlatten(q, vals[0]);
    var g := q[b][..j] + q[b][j + 1..];
    q' := q[b := g];
    SumRemove(q[b], j);
    GroupTotals(q, t, b, g, vals[0], q', t[b := t[b] - vals[0]]);
    MultisetRemove(q[b], j);
    FlattenUpdate(q, b, g);
    MultisetTail(vals);
    RemoveFromGroup(multiset(Flatten(q)), multiset(q[b]), multiset(g), vals[0]);
  }

  /**
    A multiset A holding a group B, with B replaced by B less one v, is A
    less one v; and what is left of the group lies in it.
   */
  lemma RemoveFromGroup(A: multiset<int>, B: multiset<int>, G: multiset<int>, v: int)
    requires B <= A && v in B && G == B - multiset{v}
    ensures A - B + G == A - multiset{v}
    ensures G <= A - multiset{v}
  {
    forall x
      ensures (A - B + G)[x] == (A - multiset{v})[x]
    {
    }
  }

  /** Replacing group b by one whose total is x less matches the targets with b reduced by x. */
  lemma GroupTotals(q: seq<seq<int>>, t: seq<int>, b: nat, g: seq<int>, x: int, q': seq<seq<int>>, t': seq<int>)
    requires |q| == |t| && b < |t| && (forall c :: 0 <= c < |t| ==> Sum(q[c]) == t[c])
    requires Sum(q[b]) == x + Sum(g) && q' == q[b := g] && t' == t[b := t[b] - x]
    ensures forall c :: 0 <= c < |t'| ==> Sum(q'[c]) == t'[c]
  {
  }

  /** Dropping the first value drops one copy of it. */
  lemma MultisetTail(s: seq<int>)
    requires |s| > 0
    ensures multiset(s[1..]) == multiset(s) - multiset{s[0]}
    ensures multiset(s[1..]) <= multiset(s)
  {
    assert s == [s[0]] + s[1..];
  }

  /** The values of a group of a split of non-negative values hold a non-negative total. */
  lemma GroupNonNegative(vals: seq<int>, g: seq<int>)
    requires NonNegative(vals) && multiset(g) <= multiset(vals)
    ensures Sum(g) >= 0
  {
    forall j | 0 <= j < |g|
      ensures g[j] >= 0
    {
      assert g[j] in multiset(vals);
    }
    SumSign(g);
  }

  // ---------------------------------------------------------------------
  // The search finds a split whenever there is one
  // ---------------------------------------------------------------------

  /** For non-negative values, if ar[i..] splits into the targets, the search succeeds. */
  lemma {:induction false} PartitionComplete(ar: seq<int>, i: nat, t: seq<int>, p: seq<seq<int>>, q: seq<seq<int>>)
    requires i <= |ar| && |p| == |t| && NonNegative(ar)
    requires Splits(ar[i..], q, t)
    ensures Partition(ar, i, t, p).ok
    decreases |ar| - i, |t| + 1
  {
    if i == |ar| {
      SplitTotal(ar[i..], q, t);
    } else {
      var b, q' := SplitFirst(ar[i..], q, t);
      assert ar[i..][1..] == ar[i + 1..] && ar[i..][0] == ar[i];
      SuffixSigns(ar, i + 1);
      GroupNonNegative(ar[i + 1..], q'[b]);
      PlaceComplete(ar, i, t, p, 0, b, q');
    }
  }

  /**
    The loop from target k succeeds when a target b >= k holds ar[i] and
    the rest splits into the targets with b reduced.
   */
  lemma {:induction false} PlaceComplete(ar: seq<int>, i: nat, t: seq<int>, p: seq<seq<int>>, k: nat, b: nat, q: seq<seq<int>>)
    requires i < |ar| && |p| == |t| && NonNegative(ar) && k <= b < |t|
    requires t[b] >= ar[i] && Splits(ar[i + 1..], q, t[b := t[b] - ar[i]])
    ensures Place(ar, i, t, p, k).ok
    decreases |ar| - i, |t| - k
  {
    var v := ar[i];
    if t[k] >= v {
      var c := Partition(ar, i + 1, t[k := t[k] - v], p);
      if k == b {
        PartitionComplete(ar, i + 1, t[k := t[k] - v], p, q);
      } else if !c.ok {
        assert c.t[k := c.t[k] + v] == t;
        PlaceComplete(ar, i, t, p, k + 1, b, q);
      }
    } else {
      PlaceComplete(ar, i, t, p, k + 1, b, q);
    }
  }

  // ---------------------------------------------------------------------
  // A success is a split
  // ---------------------------------------------------------------------

  /**
    What a success from value i on has done: emptied every target, and
    recorded exactly the values ar[i..] on top of the groups p it started
    from.
   */
  ghost predicate Recorded(ar: seq<int>, i: nat, p: seq<seq<int>>, r: Outcome)
    requires i <= |ar|
  {
    r.ok ==> AllZero(r.t) && multiset(Flatten(r.p)) == multiset(Flatten(p)) + multiset(ar[i..])
  }

  /**
    With positive values and targets that are non-negative and total
    exactly what is left to place, a success empties every target and has
    recorded exactly the values ar[i..].
   */
  lemma {:induction false} PartitionSound(ar: seq<int>, i: nat, t: seq<int>, p: seq<seq<int>>)
    requires i <= |ar| && |p| == |t| && Positive(ar)
    requires NonNegative(t) && Sum(t) == Sum(ar[i..])
    ensures Recorded(ar, i, p, Partition(ar, i, t, p))
    decreases |ar| - i, |t| + 1
  {
    if i == |ar| {
      SumSign(t);
    } else {
      PlaceSound(ar, i, t, p, 0);
    }
  }

  lemma {:induction false} PlaceSound(ar: seq<int>, i: nat, t: seq<int>, p: seq<seq<int>>, k: nat)
    requires i < |ar| && |p| == |t| && k <= |t| && Positive(ar)
    requires NonNegative(t) && Sum(t) == Sum(ar[i..])
    ensures Recorded(ar, i, p, Place(ar, i, t, p, k))
    decreases |ar| - i, |t| - k
  {
    var v := ar[i];
    if k == |t| {
      SuffixSigns(ar, i);
      SumSign(ar[i..]);
    } else if t[k] >= v {
      var c := Partition(ar, i + 1, t[k := t[k] - v], p);
      PlaceUnfolds(ar, i, t, p, k, c);
      if c.ok {
        TrySound(ar, i, t, p, k);
      } else {
        PlaceSound(ar, i, t, p, k + 1);
      }
    } else {
      PlaceSound(ar, i, t, p, k + 1);
    }
  }

  /** When target k holds ar[i]: the success recorded in group k, or on failure the next target. */
  lemma PlaceUnfolds(ar: seq<int>, i: nat, t: seq<int>, p: seq<seq<int>>, k: nat, c: Outcome)
    requires i < |ar| && |p| == |t| && k < |t| && t[k] >= ar[i]
    requires c == Partition(ar, i + 1, t[k := t[k] - ar[i]], p)
    ensures Place(ar, i, t, p, k) ==
      if c.ok then Outcome(Sum(c.t) == 0, c.t, c.p[k := c.p[k] + [ar[i]]]) else Place(ar, i, t, p, k + 1)
  {
    if !c.ok {
      assert c.t[k := c.t[k] + ar[i]] == t;
    }
  }

  /** Placing ar[i] in target k and succeeding on the rest records ar[i..]. */
  lemma TrySound(ar: seq<int>, i: nat, t: seq<int>, p: seq<seq<int>>, k: nat)
    requires i < |ar| && |p| == |t| && k < |t| && Positive(ar)
    requires NonNegative(t) && Sum(t) == Sum(ar[i..]) && t[k] >= ar[i]
    ensures var c := Partition(ar, i + 1, t[k := t[k] - ar[i]], p);
      Recorded(ar, i, p, Outcome(Sum(c.t) == 0, c.t, c.p[k := c.p[k] + [ar[i]]]))
    decreases |ar| - i, 0
  {
    var v := ar[i];
    var t' := t[k := t[k] - v];
    SumFrom(ar, i);
    SumUpdate(t, k, t[k] - v);
    assert NonNegative(t');
    var c := Partition(ar, i + 1, t', p);
    PartitionSound(ar, i + 1, t', p);
    RecordStep(ar, i, p, c, k);
  }

  /** A success on the rest, with ar[i] recorded in group k, records ar[i..]. */
  lemma RecordStep(ar: seq<int>, i: nat, p: seq<seq<int>>, c: Outcome, k: nat)
    requires i < |ar| && k < |c.p| && Recorded(ar, i + 1, p, c) && (c.ok <==> Sum(c.t) == 0)
    ensures Recorded(ar, i, p, Outcome(Sum(c.t) == 0, c.t, c.p[k := c.p[k] + [ar[i]]]))
  {
    if c.ok {
      assert ar[i..] == [ar[i]] + ar[i + 1..];
      PlaceRecords(p, c.p, k, ar[i], multiset(ar[i + 1..]));
    }
  }

  /** Recording v in group k after the rest was recorded records v and the rest. */
  lemma PlaceRecords(p: seq<seq<int>>, p': seq<seq<int>>, k: nat, v: int, rest: multiset<int>)
    requires k < |p'| && multiset(Flatten(p')) == multiset(Flatten(p)) + rest
    ensures multiset(Flatten(p'[k := p'[k] + [v]])) == multiset(Flatten(p)) + (multiset{v} + rest)
  {
    FlattenSnoc(p', k, v);
  }

  // ---------------------------------------------------------------------
  // run1
  // ---------------------------------------------------------------------

  /**
    For positive values run1 answers exactly whether the array splits
    into k groups of equal total, and when it does, its groups are such a
    split.
   */
  lemma Run1Correct(ar: seq<int>, k: nat)
    requires k > 0 && Positive(ar)
    ensures Run1(ar, k).0 <==> EqualSplit(ar, k)
    ensures Run1(ar, k).0 ==> Splits(ar, Run1(ar, k).1, Uniform(k, Sum(ar) / k))
  {
    if EqualSplit(ar, k) {
      var q, x :| Splits(ar, q, Uniform(k, x));
      Run1Finds(ar, k, q, x);
    }
    if Run1(ar, k).0 {
      Run1Splits(ar, k);
    }
  }

  /** A split into k equal totals makes run1 succeed. */
  lemma Run1Finds(ar: seq<int>, k: nat, q: seq<seq<int>>, x: int)
    requires k > 0 && Positive(ar) && Splits(ar, q, Uniform(k, x))
    ensures Run1(ar, k).0
  {
    SplitTotal(ar, q, Uniform(k, x));
    SumConstant(k, x);
    Multiple(k, x);
    assert ar[0..] == ar;
    PartitionComplete(ar, 0, Uniform(k, x), NoGroups(k), q);
  }

  /** k * x is a multiple of k, and k goes into it x times. */
  lemma Multiple(k: int, x: int)
    requires k > 0
    ensures k * x % k == 0 && k * x / k == x
  {
    var q, r := (k * x) / k, (k * x) % k;
    assert k * x == k * q + r && 0 <= r < k;
    var d := x - q;
    assert k * d == r by {
      assert k * d == k * x - k * q;
    }
    ScaleBounds(k, d);
  }

  /** The k empty groups run1 starts from. */
  function NoGroups(k: nat): (p: seq<seq<int>>)
    ensures |p| == k && forall b :: 0 <= b < k ==> p[b] == []
  {
    seq(k, _ => [])
  }

  /** When run1 succeeds its groups split the array into totals of total / k. */
  lemma Run1Splits(ar: seq<int>, k: nat)
    requires k > 0 && Positive(ar) && Run1(ar, k).0
    ensures Splits(ar, Run1(ar, k).1, Uniform(k, Sum(ar) / k))
    ensures EqualSplit(ar, k)
  {
    var x := Sum(ar) / k;
    var t, p0 := Uniform(k, x), NoGroups(k);
    assert ar[0..] == ar;
    SumSign(ar);
    SumConstant(k, x);
    Quotient(Sum(ar), k);
    PartitionSound(ar, 0, t, p0);
    var o := Partition(ar, 0, t, p0);
    assert o.ok && o.p == Run1(ar, k).1;
    EmptyGroups(k);
    forall b | 0 <= b < k
      ensures Sum(o.p[b]) == t[b]
    {
      assert o.t[b] == 0 && p0[b] == [];
    }
    assert Splits(ar, o.p, t);
  }

  lemma {:induction false} EmptyGroups(k: nat)
    ensures Flatten(NoGroups(k)) == []
  {
    if k > 0 {
      assert NoGroups(k)[1..] == NoGroups(k - 1);
      EmptyGroups(k - 1);
    }
  }

  // ---------------------------------------------------------------------
  // As written: the value is read before the end of the array is checked
  // ---------------------------------------------------------------------

  /**
    partition(ar, i, target, p) as written: int value = ar[i] comes
    before any test of i, so the call for i == ar.length throws.
    Whenever it does not throw it agrees with Partition.
   */
  function PartitionAsWritten(ar: seq<int>, i: nat, t: seq<int>, p: seq<seq<int>>): (r: Result<Outcome>)
    requires i <= |ar| && |p| == |t|
    ensures r.Ok? ==> r.value == Partition(ar, i, t, p)
    ensures r.Err? ==> r.failure == IndexOutOfRange
    decreases |ar| - i, |t| + 1
  {
    if i == |ar| then Err(IndexOutOfRange)
    else PlaceAsWritten(ar, i, t, p, 0)
  }

  /** The loop over targets as written; an exception from a recursive call passes through. */
  function PlaceAsWritten(ar: seq<int>, i: nat, t: seq<int>, p: seq<seq<int>>, k: nat): (r: Result<Outcome>)
    requires i < |ar| && |p| == |t| && k <= |t|
    ensures r.Ok? ==> r.value == Place(ar, i, t, p, k)
    ensures r.Err? ==> r.failure == IndexOutOfRange
    decreases |ar| - i, |t| - k
  {
    var v := ar[i];
    if k == |t| then Ok(Outcome(Sum(t) == 0, t, p))
    else if t[k] >= v then
      match PartitionAsWritten(ar, i + 1, t[k := t[k] - v], p)
      case Err(f) => Err(f)
      case Ok(c) =>
        if c.ok then Ok(Outcome(Sum(c.t) == 0, c.t, c.p[k := c.p[k] + [v]]))
        else PlaceAsWritten(ar, i, c.t[k := c.t[k] + v], c.p, k + 1)
    else PlaceAsWritten(ar, i, t, p, k + 1)
  }

  /** run1 over the partition as written. */
  function Run1AsWritten(ar: seq<int>, k: nat): (r: Result<(bool, seq<seq<int>>)>)
    requires k > 0
    ensures r.Ok? ==> r.value == Run1(ar, k)
    ensures r.Err? ==> r.failure == IndexOutOfRange
  {
    var total := Sum(ar);
    if total % k != 0 then Ok((false, []))
    else
      match PartitionAsWritten(ar, 0, Uniform(k, total / k), NoGroups(k))
      case Err(f) => Err(f)
      case Ok(o) => Ok((o.ok, o.p))
  }

  /**
    Every success of the search ends at the call past the last value, so
    as written every success becomes an exception.
   */
  lemma {:induction false} SuccessThrows(ar: seq<int>, i: nat, t: seq<int>, p: seq<seq<int>>)
    requires i <= |ar| && |p| == |t| && Positive(ar)
    requires Sum(t) == Sum(ar[i..]) && Partition(ar, i, t, p).ok
    ensures PartitionAsWritten(ar, i, t, p).Err?
    decreases |ar| - i, |t| + 1
  {
    if i < |ar| {
      PlaceThrows(ar, i, t, p, 0);
    }
  }

  lemma {:induction false} PlaceThrows(ar: seq<int>, i: nat, t: seq<int>, p: seq<seq<int>>, k: nat)
    requires i < |ar| && |p| == |t| && k <= |t| && Positive(ar)
    requires Sum(t) == Sum(ar[i..]) && Place(ar, i, t, p, k).ok
    ensures PlaceAsWritten(ar, i, t, p, k).Err?
    decreases |ar| - i, |t| - k
  {
    var v := ar[i];
    if k == |t| {
      SuffixSigns(ar, i);
      SumSign(ar[i..]);
    } else if t[k] >= v {
      var t' := t[k := t[k] - v];
      var c := Partition(ar, i + 1, t', p);
      PlaceUnfolds(ar, i, t, p, k, c);
      AsWrittenUnfolds(ar, i, t, p, k, PartitionAsWritten(ar, i + 1, t', p));
      if c.ok {
        TryThrows(ar, i, t, p, k, t');
      } else {
        PlaceThrows(ar, i, t, p, k + 1);
      }
    } else {
      PlaceThrows(ar, i, t, p, k + 1);
    }
  }

  /** As written, an exception from the rest passes through, and a failure moves on to the next target. */
  lemma AsWrittenUnfolds(ar: seq<int>, i: nat, t: seq<int>, p: seq<seq<int>>, k: nat, w: Result<Outcome>)
    requires i < |ar| && |p| == |t| && k < |t| && t[k] >= ar[i]
    requires w == PartitionAsWritten(ar, i + 1, t[k := t[k] - ar[i]], p)
    ensures w.Err? ==> PlaceAsWritten(ar, i, t, p, k).Err?
    ensures w.Ok? && !w.value.ok ==> PlaceAsWritten(ar, i, t, p, k) == PlaceAsWritten(ar, i, t, p, k + 1)
  {
    if w.Ok? && !w.value.ok {
      assert w.value.t[k := w.value.t[k] + ar[i]] == t;
    }
  }

  /** When placing ar[i] in target k leads to a success, the call past it throws. */
  lemma TryThrows(ar: seq<int>, i: nat, t: seq<int>, p: seq<seq<int>>, k: nat, t': seq<int>)
    requires i < |ar| && |p| == |t| && k < |t| && Positive(ar)
    requires Sum(t) == Sum(ar[i..]) && t[k] >= ar[i] && t' == t[k := t[k] - ar[i]]
    requires Partition(ar, i + 1, t', p).ok
    ensures PartitionAsWritten(ar, i + 1, t', p).Err?
    decreases |ar| - i, 0
  {
    SumFrom(ar, i);
    SumUpdate(t, k, t[k] - ar[i]);
    assert Sum(t') == Sum(ar[i + 1..]);
    SuccessThrows(ar, i + 1, t', p);
  }

  /** So run1 as written throws on every array of positive values that does split. */
  lemma Run1AsWrittenThrows(ar: seq<int>, k: nat)
    requires k > 0 && Positive(ar) && EqualSplit(ar, k)
    ensures Run1AsWritten(ar, k).Err?
  {
    Run1Correct(ar, k);
    var x := Sum(ar) / k;
    assert Sum(ar) % k == 0;
    SumConstant(k, x);
    Quotient(Sum(ar), k);
    assert ar[0..] == ar;
    SuccessThrows(ar, 0, Uniform(k, x), NoGroups(k));
  }

  /** {1}, {1} splits {1, 1} into two totals of 1. */
  lemma OnesSplit(ar: seq<int>)
    requires ar == [1, 1]
    ensures Splits(ar, [[1], [1]], Uniform(2, 1))
  {
    var q: seq<seq<int>> := [[1], [1]];
    assert Flatten(q) == ar by {
      assert Flatten(q[1..]) == [1] + Flatten(q[2..]);
    }
    assert Sum([1]) == 1;
  }

  /**
    {1, 1} into two groups: {1}, {1} is a split, so the search succeeds,
    and as written run1 throws instead.
   */
  lemma OnesThrow(ar: seq<int>)
    requires ar == [1, 1]
    ensures Run1(ar, 2).0
    ensures Run1AsWritten(ar, 2) == Err(IndexOutOfRange)
  {
    OnesSplit(ar);
    Run1Correct(ar, 2);
    Run1AsWrittenThrows(ar, 2);
  }

  /** The empty array splits into any number of empty groups, but as written run1 reads ar[0]. */
  lemma EmptyThrows(k: nat)
    requires k > 0
    ensures Run1([], k) == (true, NoGroups(k))
    ensures Run1AsWritten([], k) == Err(IndexOutOfRange)
  {
    SumConstant(k, 0);
    assert Sum([]) == 0;
    assert Partition([], 0, Uniform(k, 0), NoGroups(k)).ok;
  }

  /** {1, 4}, {2, 3}, {2, 3}, {5} one after another. */
  lemma DocumentedFlatten(q: seq<seq<int>>)
    requires q == [[1, 4], [2, 3], [2, 3], [5]]
    ensures Flatten(q) == [1, 4, 2, 3, 2, 3, 5]
  {
    assert Flatten(q[3..]) == [5];
    assert Flatten(q[2..]) == [2, 3, 5];
    assert Flatten(q[1..]) == [2, 3, 2, 3, 5];
  }

  /** Those groups hold the values of {4, 3, 2, 3, 5, 2, 1}. */
  lemma DocumentedValues(ar: seq<int>, f: seq<int>)
    requires ar == [4, 3, 2, 3, 5, 2, 1] && f == [1, 4, 2, 3, 2, 3, 5]
    ensures multiset(f) == multiset(ar)
  {
    var z := [3, 2, 3, 5];
    assert ar == [4] + z + [2] + [1];
    assert f == [1] + [4] + [2] + z;
    DocumentedShuffle(z, ar, f);
  }

  /** The two orders differ by moving 2 past z and 1 past everything. */
  lemma DocumentedShuffle(z: seq<int>, ar: seq<int>, f: seq<int>)
    requires ar == [4] + z + [2] + [1] && f == [1] + [4] + [2] + z
    ensures multiset(f) == multiset(ar)
  {
    RotateKeeps(2, z);
    FrontKeeps(4, [2] + z, z + [2]);
    RotateKeeps(1, [4] + (z + [2]));
    FrontKeeps(1, [4] + ([2] + z), [4] + (z + [2]));
    assert f == [1] + ([4] + ([2] + z));
    assert ar == ([4] + (z + [2])) + [1];
  }

  /** Moving the first value to the back keeps the values. */
  lemma RotateKeeps(x: int, s: seq<int>)
    ensures multiset([x] + s) == multiset(s + [x])
  {
    calc {
      multiset([x] + s);
      multiset{x} + multiset(s);
      multiset(s) + multiset{x};
    }
  }

  lemma FrontKeeps(x: int, s: seq<int>, t: seq<int>)
    requires multiset(s) == multiset(t)
    ensures multiset([x] + s) == multiset([x] + t)
  {
  }

  /** The same groups total 5 each. */
  lemma DocumentedTotals(q: seq<seq<int>>)
    requires q == [[1, 4], [2, 3], [2, 3], [5]]
    ensures forall b :: 0 <= b < 4 ==> Sum(q[b]) == 5
  {
    assert Sum([1, 4]) == 5 && Sum([2, 3]) == 5 && Sum([5]) == 5;
  }

  /** So they split the documented example into four totals of 5. */
  lemma DocumentedGroups(ar: seq<int>, q: seq<seq<int>>)
    requires ar == [4, 3, 2, 3, 5, 2, 1] && q == [[1, 4], [2, 3], [2, 3], [5]]
    ensures Splits(ar, q, Uniform(4, 5))
  {
    DocumentedFlatten(q);
    DocumentedValues(ar, Flatten(q));
    DocumentedTotals(q);
  }

  /** The documented example into 4 groups: run1 answers true. */
  lemma DocumentedSplit(ar: seq<int>)
    requires ar == [4, 3, 2, 3, 5, 2, 1]
    ensures Run1(ar, 4).0
  {
    var q: seq<seq<int>> := [[1, 4], [2, 3], [2, 3], [5]];
    assert Positive(ar);
    DocumentedGroups(ar, q);
    Run1Finds(ar, 4, q, 5);
  }
}
