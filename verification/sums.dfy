/**
  Totals of int sequences and of lists of lists, as the partition and
  pots-of-gold code adds them up with plain loops and streams.
 */
module Sums {

  /** The plain total of s. */
  function Sum(s: seq<int>): int
  {
    if |s| == 0 then 0 else s[0] + Sum(s[1..])
  }

  /** Every value is at least 1. */
  ghost predicate Positive(s: seq<int>)
  {
    forall j :: 0 <= j < |s| ==> s[j] > 0
  }

  /** Every value is at least 0. */
  ghost predicate NonNegative(s: seq<int>)
  {
    forall j :: 0 <= j < |s| ==> s[j] >= 0
  }

  /** Every value is 0. */
  ghost predicate AllZero(s: seq<int>)
  {
    forall j :: 0 <= j < |s| ==> s[j] == 0
  }

  /** A suffix keeps the sign of every value. */
  lemma SuffixSigns(s: seq<int>, i: nat)
    requires i <= |s|
    ensures NonNegative(s) ==> NonNegative(s[i..])
    ensures Positive(s) ==> Positive(s[i..])
  {
    assert forall j :: 0 <= j < |s| - i ==> s[i..][j] == s[i + j];
  }

  /** A suffix is its first value followed by the next suffix. */
  lemma SumFrom(s: seq<int>, i: nat)
    requires i < |s|
    ensures Sum(s[i..]) == s[i] + Sum(s[i + 1..])
    ensures multiset(s[i..]) == multiset{s[i]} + multiset(s[i + 1..])
  {
    assert s[i..] == [s[i]] + s[i + 1..];
  }

  lemma {:induction false} SumConcat(a: seq<int>, b: seq<int>)
    ensures Sum(a + b) == Sum(a) + Sum(b)
  {
    if |a| == 0 {
      assert a + b == b;
    } else {
      assert (a + b)[1..] == a[1..] + b;
      SumConcat(a[1..], b);
    }
  }

  /** Taking one value out of a sequence takes it out of the total. */
  lemma {:induction false} SumRemove(s: seq<int>, j: nat)
    requires j < |s|
    ensures Sum(s) == s[j] + Sum(s[..j] + s[j + 1..])
  {
    assert s == s[..j] + [s[j]] + s[j + 1..];
    SumConcat(s[..j] + [s[j]], s[j + 1..]);
    SumConcat(s[..j], [s[j]]);
    SumConcat(s[..j], s[j + 1..]);
    assert Sum([s[j]]) == s[j] + Sum([]);
  }

  /** The total does not depend on the order. */
  lemma {:induction false} SumPermutation(a: seq<int>, b: seq<int>)
    requires multiset(a) == multiset(b)
    ensures Sum(a) == Sum(b)
    decreases |a|
  {
    if |a| > 0 {
      var j := Match(a, b);
      SumRemove(b, j);
      SumPermutation(a[1..], b[..j] + b[j + 1..]);
    }
  }

  /** The first value of a sits somewhere in its permutation b, and the rests are permutations too. */
  lemma Match(a: seq<int>, b: seq<int>) returns (j: nat)
    requires multiset(a) == multiset(b) && |a| > 0
    ensures j < |b| && b[j] == a[0] && multiset(a[1..]) == multiset(b[..j] + b[j + 1..])
  {
    j := Position(b, a[0]);
    MultisetRemove(b, j);
    DropFirst(a);
  }

  lemma DropFirst(a: seq<int>)
    requires |a| > 0
    ensures multiset(a[1..]) == multiset(a) - multiset{a[0]}
  {
    assert a == [a[0]] + a[1..];
  }

  /** A value of b's multiset is at some position of b. */
  lemma Position(b: seq<int>, x: int) returns (j: nat)
    requires x in multiset(b)
    ensures j < |b| && b[j] == x
  {
    assert x in b;
    j :| 0 <= j < |b| && b[j] == x;
  }

  /** Taking the value at j out of s takes one copy out of its multiset. */
  lemma MultisetRemove(s: seq<int>, j: nat)
    requires j < |s|
    ensures multiset(s[..j] + s[j + 1..]) == multiset(s) - multiset{s[j]}
  {
    assert s == s[..j] + [s[j]] + s[j + 1..];
  }

  /** Changing one value changes the total by the difference. */
  lemma {:induction false} SumUpdate(s: seq<int>, k: nat, x: int)
    requires k < |s|
    ensures Sum(s[k := x]) == Sum(s) - s[k] + x
  {
    SumRemove(s, k);
    SumRemove(s[k := x], k);
    assert s[k := x][..k] + s[k := x][k + 1..] == s[..k] + s[k + 1..];
  }

  /** n copies of x. */
  function Uniform(n: nat, x: int): (s: seq<int>)
    ensures |s| == n && forall j :: 0 <= j < n ==> s[j] == x
  {
    seq(n, _ => x)
  }

  /** n copies of x add up to n * x. */
  lemma {:induction false} SumConstant(n: nat, x: int)
    ensures Sum(Uniform(n, x)) == n * x
  {
    if n > 0 {
      assert Uniform(n, x)[1..] == Uniform(n - 1, x);
      SumConstant(n - 1, x);
    }
  }

  /** An exact quotient: k times it gives back a, and it keeps the sign of a. */
  lemma Quotient(a: int, k: int)
    requires k > 0 && a % k == 0
    ensures a == k * (a / k)
    ensures a >= 0 ==> a / k >= 0
  {
    ScaleBounds(k, a / k);
  }

  /** A non-zero multiple of k is at least k away from 0. */
  lemma ScaleBounds(k: int, d: int)
    requires k > 0
    ensures d >= 1 ==> k * d >= k
    ensures d <= -1 ==> k * d <= -k
  {
    if d >= 1 {
      assert k * d == k * (d - 1) + k;
      assert k * (d - 1) >= 0;
    } else if d <= -1 {
      assert k * d == k * (d + 1) - k;
      assert k * (-(d + 1)) >= 0;
    }
  }

  /** A total of values of one sign has that sign; zero totals of non-negative values come from zeros. */
  lemma {:induction false} SumSign(s: seq<int>)
    ensures NonNegative(s) ==> Sum(s) >= 0
    ensures NonNegative(s) && Sum(s) == 0 ==> AllZero(s)
    ensures Positive(s) && |s| > 0 ==> Sum(s) > 0
    ensures AllZero(s) ==> Sum(s) == 0
  {
    if |s| > 0 {
      SumSign(s[1..]);
    }
  }

  /** The lists of q one after another. */
  function Flatten(q: seq<seq<int>>): seq<int>
  {
    if |q| == 0 then [] else q[0] + Flatten(q[1..])
  }

  /** The total of each list of q. */
  function Totals(q: seq<seq<int>>): (r: seq<int>)
    ensures |r| == |q| && forall b :: 0 <= b < |q| ==> r[b] == Sum(q[b])
  {
    if |q| == 0 then [] else [Sum(q[0])] + Totals(q[1..])
  }

  /** Flattening keeps the total: it is the total of the lists' totals. */
  lemma {:induction false} SumFlatten(q: seq<seq<int>>)
    ensures Sum(Flatten(q)) == Sum(Totals(q))
  {
    if |q| > 0 {
      SumConcat(q[0], Flatten(q[1..]));
      SumFlatten(q[1..]);
      assert Totals(q)[1..] == Totals(q[1..]);
    }
  }

  /** Replacing one list of q replaces its values in the flattened whole. */
  lemma {:induction false} FlattenUpdate(q: seq<seq<int>>, k: nat, s: seq<int>)
    requires k < |q|
    ensures multiset(q[k]) <= multiset(Flatten(q))
    ensures multiset(Flatten(q[k := s])) == multiset(Flatten(q)) - multiset(q[k]) + multiset(s)
  {
    if k == 0 {
      assert q[k := s][1..] == q[1..];
    } else {
      assert q[k := s][1..] == q[1..][k - 1 := s];
      FlattenUpdate(q[1..], k - 1, s);
      ReplaceBehind(multiset(q[0]), multiset(Flatten(q[1..])), multiset(Flatten(q[k := s][1..])), multiset(q[k]), multiset(s));
    }
  }

  /** Replacing values behind a first part replaces them in the whole. */
  lemma ReplaceBehind(a: multiset<int>, r: multiset<int>, r': multiset<int>, b: multiset<int>, s: multiset<int>)
    requires b <= r && r' == r - b + s
    ensures b <= a + r && a + r' == a + r - b + s
  {
    forall x
      ensures (a + r')[x] == (a + r - b + s)[x]
    {
    }
  }

  /** Appending v to one list adds one copy of v to the flattened whole. */
  lemma FlattenSnoc(q: seq<seq<int>>, k: nat, v: int)
    requires k < |q|
    ensures multiset(Flatten(q[k := q[k] + [v]])) == multiset(Flatten(q)) + multiset{v}
  {
    FlattenUpdate(q, k, q[k] + [v]);
    var A, B := multiset(Flatten(q)), multiset(q[k]);
    assert multiset(q[k] + [v]) == B + multiset{v};
    forall x
      ensures (A - B + (B + multiset{v}))[x] == (A + multiset{v})[x]
    {
    }
  }

  /** A value of the flattened whole lies in one of the lists. */
  lemma {:induction false} InFlatten(q: seq<seq<int>>, x: int) returns (b: nat, j: nat)
    requires x in multiset(Flatten(q))
    ensures b < |q| && j < |q[b]| && q[b][j] == x
  {
    if x in q[0] {
      b, j := 0, 0;
      while q[0][j] != x
        invariant j < |q[0]| && x in q[0][j..]
        decreases |q[0]| - j
      {
        j := j + 1;
      }
    } else {
      assert x in multiset(Flatten(q[1..]));
      var b', j' := InFlatten(q[1..], x);
      b, j := b' + 1, j';
    }
  }
}
