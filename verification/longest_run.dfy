/**
  LongestSubsequenceLength.java: the length of the longest run of
  consecutive integers whose every value occurs in the input, in any
  order. maxSeqLenV1 sorts and scans neighbours; maxSeqLenV2 puts the
  values in a hash set and walks up from some of them. Both are modelled
  as written and as evidently intended.
 */
module LongestRun {

  // ---------------------------------------------------------------------
  // The reference: runs of consecutive integers in a set of values
  // ---------------------------------------------------------------------

  /** The values of s, as the HashSet of maxSeqLenV2 holds them. */
  function Elements(s: seq<int>): set<int>
  {
    set x | x in s
  }

  /** Every one of a, a + 1, ..., a + n - 1 is in S. */
  ghost predicate Run(S: set<int>, a: int, n: int)
  {
    forall y :: a <= y < a + n ==> y in S
  }

  /** L is the length of the longest run in S (0 for an empty S). */
  ghost predicate IsLongest(S: set<int>, L: nat)
  {
    (exists a :: Run(S, a, L)) && forall a, n :: Run(S, a, n) ==> n <= L
  }

  /** A set has one longest-run length: two methods that meet IsLongest agree. */
  lemma LongestUnique(S: set<int>, L1: nat, L2: nat)
    requires IsLongest(S, L1) && IsLongest(S, L2)
    ensures L1 == L2
  {
    var a1 :| Run(S, a1, L1);
    var a2 :| Run(S, a2, L2);
  }

  lemma RunHas(S: set<int>, a: int, n: int, y: int)
    requires Run(S, a, n) && a <= y < a + n
    ensures y in S
  {
  }

  /** When no value of S has another L above it, no run is longer than L. */
  lemma BoundedRuns(S: set<int>, L: nat)
    requires forall a :: a in S ==> a + L !in S
    ensures forall a, n :: Run(S, a, n) ==> n <= L
  {
    forall a, n | Run(S, a, n)
      ensures n <= L
    {
      if n > L {
        RunHas(S, a, n, a);
        RunHas(S, a, n, a + L);
      }
    }
  }

  // ---------------------------------------------------------------------
  // Arrays.sort
  // ---------------------------------------------------------------------

  /** Ascending order, as Arrays.sort leaves an int array. */
  ghost predicate Sorted(s: seq<int>)
  {
    forall i, j :: 0 <= i < j < |s| ==> s[i] <= s[j]
  }

  /** x put into sorted s in front of the first value larger than it. */
  function Insert(x: int, s: seq<int>): (r: seq<int>)
    requires Sorted(s)
    ensures |r| == |s| + 1 && Sorted(r) && multiset(r) == multiset(s) + multiset{x}
    ensures forall k :: 0 <= k < |r| ==> r[k] == x || r[k] in s
  {
    if |s| == 0 then [x]
    else if x < s[0] then
      InsertFront(x, s);
      [x] + s
    else
      var rest := Insert(x, s[1..]);
      InsertBehind(x, s, rest);
      [s[0]] + rest
  }

  /** A value below the first of a sorted sequence goes in front. */
  lemma InsertFront(x: int, s: seq<int>)
    requires Sorted(s) && |s| > 0 && x < s[0]
    ensures Sorted([x] + s) && multiset([x] + s) == multiset(s) + multiset{x}
  {
    var r := [x] + s;
    forall i, j | 0 <= i < j < |r|
      ensures r[i] <= r[j]
    {
      assert r[j] == s[j - 1];
      if i > 0 {
        assert r[i] == s[i - 1];
      }
    }
  }

  /** A value not below the first goes into the rest, and the first stays in front. */
  lemma InsertBehind(x: int, s: seq<int>, rest: seq<int>)
    requires Sorted(s) && |s| > 0 && s[0] <= x
    requires |rest| == |s| && Sorted(rest) && multiset(rest) == multiset(s[1..]) + multiset{x}
    requires forall k :: 0 <= k < |rest| ==> rest[k] == x || rest[k] in s[1..]
    ensures Sorted([s[0]] + rest) && multiset([s[0]] + rest) == multiset(s) + multiset{x}
    ensures forall k :: 0 <= k < |s| + 1 ==> ([s[0]] + rest)[k] == x || ([s[0]] + rest)[k] in s
  {
    var r := [s[0]] + rest;
    assert s == [s[0]] + s[1..];
    forall k | 0 <= k < |rest|
      ensures s[0] <= rest[k]
    {
      if rest[k] != x {
        var m :| 0 <= m < |s[1..]| && s[1..][m] == rest[k];
        assert rest[k] == s[m + 1];
      }
    }
    forall i, j | 0 <= i < j < |r|
      ensures r[i] <= r[j]
    {
      assert r[j] == rest[j - 1];
      if i > 0 {
        assert r[i] == rest[i - 1];
      }
    }
    forall k | 0 <= k < |r|
      ensures r[k] == x || r[k] in s
    {
      if k > 0 {
        assert r[k] == rest[k - 1];
      }
    }
  }

  /**
    Arrays.sort(ar) in ascending order: the same values, as often each. An
    insertion sort here; only the outcome matters.
   */
  function Sort(s: seq<int>): (r: seq<int>)
    ensures |r| == |s| && Sorted(r) && multiset(r) == multiset(s)
  {
    if |s| == 0 then []
    else
      assert s == s[..|s| - 1] + [s[|s| - 1]];
      Insert(s[|s| - 1], Sort(s[..|s| - 1]))
  }

  /** Sorting keeps the set of values. */
  lemma SortKeepsElements(s: seq<int>)
    ensures Elements(Sort(s)) == Elements(s)
  {
    var t := Sort(s);
    assert forall x :: x in t <==> x in multiset(t);
    assert forall x :: x in s <==> x in multiset(s);
  }

  // ---------------------------------------------------------------------
  // maxSeqLenV1, as written
  // ---------------------------------------------------------------------

  /**
    The loop of maxSeqLenV1 over a sorted, non-empty array: the pair
    (maxSeqLen, currSeqLen) after it. A neighbour one larger extends the
    current run and may raise the maximum; anything else, an equal
    neighbour included, resets the run to 1. The maximum starts at 0.
   */
  function ScanAsWritten(t: seq<int>): (mc: (nat, nat))
    requires |t| > 0
  {
    if |t| == 1 then (0, 1)
    else
      var (m, c) := ScanAsWritten(t[..|t| - 1]);
      if t[|t| - 2] + 1 == t[|t| - 1] then (if m < c + 1 then c + 1 else m, c + 1)
      else (m, 1)
  }

  /**
    maxSeqLenV1(ar) as written: the caller's array afterwards, sorted in
    place unless it is empty, and the result, 0 for no values, else the
    scan of the sorted array.
   */
  function MaxSeqLenV1AsWritten(ar: seq<int>): (res: (seq<int>, nat))
    ensures Sorted(res.0) && multiset(res.0) == multiset(ar)
  {
    if |ar| == 0 then (ar, 0) else var t := Sort(ar); (t, ScanAsWritten(t).0)
  }

  /**
    What the written scan reports is a real run: the values its current
    run counts are present, and a maximum other than 0 is the length of a
    run of at least two.
   */
  lemma {:induction false} ScanAsWrittenSound(t: seq<int>)
    requires |t| > 0
    ensures var (m, c) := ScanAsWritten(t);
      c >= 1 && Run(Elements(t), t[|t| - 1] - c + 1, c) &&
      (m == 0 || (m >= 2 && exists a :: Run(Elements(t), a, m)))
  {
    if |t| > 1 {
      var prefix := t[..|t| - 1];
      ScanAsWrittenSound(prefix);
      var (m, c) := ScanAsWritten(prefix);
      var p, v := t[|t| - 2], t[|t| - 1];
      var E, E' := Elements(prefix), Elements(t);
      assert p == prefix[|prefix| - 1];
      assert E' == E + {v} by {
        assert t == prefix + [v];
      }
      if m != 0 {
        var a :| Run(E, a, m);
        assert Run(E', a, m);
      }
      if p + 1 == v {
        assert Run(E', v - c, c + 1);
      }
    }
  }

  /** maxSeqLenV1 as written never reports more than the longest run. */
  lemma MaxSeqLenV1AsWrittenBelow(ar: seq<int>, L: nat)
    requires IsLongest(Elements(ar), L)
    ensures MaxSeqLenV1AsWritten(ar).1 <= L
    ensures MaxSeqLenV1AsWritten(ar).1 == 0 || MaxSeqLenV1AsWritten(ar).1 >= 2
  {
    if |ar| > 0 {
      ScanAsWrittenSound(Sort(ar));
      SortKeepsElements(ar);
    }
  }

  // ---------------------------------------------------------------------
  // maxSeqLenV1, corrected
  // ---------------------------------------------------------------------

  /**
    The scan as evidently intended: an equal neighbour leaves the current
    run alone, and a single value is a run of 1, so the maximum starts at 1.
   */
  function Scan(t: seq<int>): (mc: (nat, nat))
    requires |t| > 0
  {
    if |t| == 1 then (1, 1)
    else ScanNext(Scan(t[..|t| - 1]), t[|t| - 2], t[|t| - 1])
  }

  /** One step of the corrected scan, from neighbour p to value v. */
  function ScanNext(mc: (nat, nat), p: int, v: int): (nat, nat)
  {
    var (m, c) := mc;
    if p + 1 == v then (if m < c + 1 then c + 1 else m, c + 1)
    else if p == v then (m, c)
    else (m, 1)
  }

  /**
    maxSeqLenV1(ar), corrected: the array sorted in place as before, and
    0 for no values, else the corrected scan of the sorted array.
   */
  function MaxSeqLenV1(ar: seq<int>): (res: (seq<int>, nat))
    ensures Sorted(res.0) && multiset(res.0) == multiset(ar)
  {
    if |ar| == 0 then (ar, 0) else var t := Sort(ar); (t, Scan(t).0)
  }

  /**
    On a sorted array the corrected scan's current run is the whole run
    ending at the last value, and its maximum is the longest run.
   */
  lemma {:induction false} ScanFindsLongest(t: seq<int>)
    requires |t| > 0 && Sorted(t)
    ensures ScanOk(Elements(t), t[|t| - 1], Scan(t))
  {
    if |t| == 1 {
      assert Elements(t) == {t[0]};
      assert Run(Elements(t), t[0], 1);
      BoundedRuns(Elements(t), 1);
    } else {
      var prefix := t[..|t| - 1];
      ScanFindsLongest(prefix);
      PrefixAtMost(t, |t| - 2);
      assert t[..|t| - 2 + 1] == prefix;
      ElementsSnoc(t);
      ScanStep(Elements(prefix), t[|t| - 2], t[|t| - 1], Scan(prefix));
    }
  }

  /**
    The corrected scan's state (m, c) after the values E, the last of them
    last: the current run of c is the whole run ending at last, and m is
    the longest run.
   */
  ghost predicate ScanOk(E: set<int>, last: int, mc: (nat, nat))
  {
    var (m, c) := mc;
    1 <= c <= m && Run(E, last - c + 1, c) && last - c !in E && IsLongest(E, m) && last in E
  }

  lemma ScanOkLongest(E: set<int>, last: int, mc: (nat, nat))
    requires ScanOk(E, last, mc)
    ensures IsLongest(E, mc.0)
  {
  }

  /** The values of t are those before its last, and the last. */
  lemma ElementsSnoc(t: seq<int>)
    requires |t| > 0
    ensures Elements(t) == Elements(t[..|t| - 1]) + {t[|t| - 1]}
  {
    assert t == t[..|t| - 1] + [t[|t| - 1]];
  }

  /** No value of E exceeds v. */
  ghost predicate AllAtMost(E: set<int>, v: int)
  {
    forall x :: x in E ==> x <= v
  }

  /** The values of a sorted prefix are at most its last one. */
  lemma PrefixAtMost(t: seq<int>, i: nat)
    requires Sorted(t) && i < |t|
    ensures AllAtMost(Elements(t[..i + 1]), t[i])
  {
    var prefix := t[..i + 1];
    forall x | x in Elements(prefix)
      ensures x <= t[i]
    {
      var k :| 0 <= k < i + 1 && prefix[k] == x;
    }
  }

  /**
    Adding v above every value of E: a run through v ends at v, so one
    longer than c would hold v - c. Every other run was already in E.
   */
  lemma RunsBelowTop(E: set<int>, v: int, m: nat, c: nat)
    requires AllAtMost(E, v) && c >= 1 && v - c !in E
    requires forall a, n :: Run(E, a, n) ==> n <= m
    ensures forall a, n :: Run(E + {v}, a, n) ==> n <= if m < c then c else m
  {
    var E' := E + {v};
    forall a, n | Run(E', a, n)
      ensures n <= if m < c then c else m
    {
      if a <= v < a + n {
        RunHas(E', a, n, a + n - 1);
        assert a + n - 1 <= v;
        if n > c {
          RunHas(E', a, n, v - c);
        }
      } else {
        forall y | a <= y < a + n
          ensures y in E
        {
          RunHas(E', a, n, y);
        }
        assert Run(E, a, n);
      }
    }
  }

  /**
    The step of ScanFindsLongest: one more value v, not below the last
    value p of the values E so far.
   */
  lemma ScanStep(E: set<int>, p: int, v: int, mc: (nat, nat))
    requires AllAtMost(E, p) && p <= v && ScanOk(E, p, mc)
    ensures ScanOk(E + {v}, v, ScanNext(mc, p, v))
  {
    var (m, c) := mc;
    var E' := E + {v};
    var (m', c') := ScanNext((m, c), p, v);
    if p + 1 == v {
      assert Run(E', v - c, c + 1);
    } else if p == v {
      assert E' == E;
    } else {
      assert Run(E', v, 1);
    }
    RunsBelowTop(E, v, m, c');
    var a0 :| Run(E, a0, m);
    assert Run(E', a0, m);
  }

  /** The corrected maxSeqLenV1 returns the length of the longest run of ar. */
  lemma MaxSeqLenV1IsLongest(ar: seq<int>)
    ensures IsLongest(Elements(ar), MaxSeqLenV1(ar).1)
  {
    if |ar| == 0 {
      assert Run(Elements(ar), 0, 0);
      BoundedRuns(Elements(ar), 0);
    } else {
      var t := Sort(ar);
      ScanFindsLongest(t);
      SortKeepsElements(ar);
      ScanOkLongest(Elements(t), t[|t| - 1], Scan(t));
    }
  }

  // ---------------------------------------------------------------------
  // Where the written and the corrected maxSeqLenV1 meet
  // ---------------------------------------------------------------------

  /** No value occurs twice. */
  ghost predicate Distinct(s: seq<int>)
  {
    forall x :: multiset(s)[x] <= 1
  }

  /** Without equal neighbours both scans keep the same run, and the written maximum only misses runs of 1. */
  lemma {:induction false} ScansAgree(t: seq<int>)
    requires |t| > 0
    requires forall k :: 0 < k < |t| ==> t[k - 1] != t[k]
    ensures ScanAsWritten(t).1 == Scan(t).1
    ensures ScanAsWritten(t).0 == if Scan(t).0 >= 2 then Scan(t).0 else 0
    ensures Scan(t).0 >= 1
  {
    if |t| > 1 {
      var prefix := t[..|t| - 1];
      assert forall k :: 0 < k < |prefix| ==> prefix[k - 1] != prefix[k];
      ScansAgree(prefix);
    }
  }

  /** Values at different places differ: then no value occurs twice. */
  lemma {:induction false} DistinctByIndex(s: seq<int>)
    requires forall i, j :: 0 <= i < j < |s| ==> s[i] != s[j]
    ensures Distinct(s)
  {
    if |s| > 0 {
      var prefix, v := s[..|s| - 1], s[|s| - 1];
      DistinctByIndex(prefix);
      assert s == prefix + [v];
      assert v !in multiset(prefix);
    }
  }

  /** Equal neighbours are a value that occurs twice. */
  lemma EqualNeighboursRepeat(t: seq<int>, k: nat)
    requires 0 < k < |t|
    ensures t[k - 1] == t[k] ==> multiset(t)[t[k]] >= 2
  {
    assert t == t[..k - 1] + [t[k - 1], t[k]] + t[k + 1..];
  }

  /**
    When no value repeats, maxSeqLenV1 as written is the longest run, except
    that a longest run of one value is reported as 0.
   */
  lemma MaxSeqLenV1AsWrittenDistinct(ar: seq<int>, L: nat)
    requires Distinct(ar) && IsLongest(Elements(ar), L)
    ensures MaxSeqLenV1AsWritten(ar).1 == if L >= 2 then L else 0
  {
    MaxSeqLenV1IsLongest(ar);
    LongestUnique(Elements(ar), L, MaxSeqLenV1(ar).1);
    if |ar| > 0 {
      var t := Sort(ar);
      assert Distinct(t);
      forall k | 0 < k < |t|
        ensures t[k - 1] != t[k]
      {
        EqualNeighboursRepeat(t, k);
      }
      ScansAgree(t);
    }
  }

  /** A duplicate cuts the written run short: sorted {1, 2, 2, 3} gives 2, though 1, 2, 3 are all there. */
  lemma DuplicateResets(ar: seq<int>)
    requires ar == [1, 2, 2, 3]
    ensures MaxSeqLenV1AsWritten(ar).1 == 2
    ensures IsLongest(Elements(ar), 3) && MaxSeqLenV1(ar).1 == 3
  {
    SortedIsOwnSort(ar);
    ScanOfDuplicate(ar);
    LongestOfSmallSet(ar);
    MaxSeqLenV1IsLongest(ar);
    LongestUnique(Elements(ar), 3, MaxSeqLenV1(ar).1);
  }

  lemma ScanOfDuplicate(t: seq<int>)
    requires t == [1, 2, 2, 3]
    ensures ScanAsWritten(t) == (2, 2)
  {
    assert t[..3] == [1, 2, 2] && t[..3][..2] == [1, 2] && t[..3][..2][..1] == [1];
    assert ScanAsWritten([1, 2]) == (2, 2);
    assert ScanAsWritten([1, 2, 2]) == (2, 1);
  }

  lemma LongestOfSmallSet(ar: seq<int>)
    requires ar == [1, 2, 2, 3]
    ensures IsLongest(Elements(ar), 3)
  {
    var E := Elements(ar);
    assert E == {1, 2, 3};
    assert Run(E, 1, 3);
    BoundedRuns(E, 3);
  }

  /** A single value is reported as 0 by the written maxSeqLenV1, though it is a run of 1. */
  lemma SingleValueMissed(ar: seq<int>)
    requires |ar| == 1
    ensures MaxSeqLenV1AsWritten(ar).1 == 0
    ensures IsLongest(Elements(ar), 1) && MaxSeqLenV1(ar).1 == 1
  {
    MaxSeqLenV1IsLongest(ar);
    var E := Elements(ar);
    assert E == {ar[0]};
    assert Run(E, ar[0], 1);
    BoundedRuns(E, 1);
    LongestUnique(E, 1, MaxSeqLenV1(ar).1);
  }

  /** Sorting an already sorted array changes nothing. */
  lemma {:induction false} SortedIsOwnSort(s: seq<int>)
    requires Sorted(s)
    ensures Sort(s) == s
  {
    if |s| > 0 {
      var prefix := s[..|s| - 1];
      SortedIsOwnSort(prefix);
      InsertLast(prefix, s[|s| - 1]);
      assert prefix + [s[|s| - 1]] == s;
    }
  }

  /** Inserting a value no smaller than any of a sorted array appends it. */
  lemma {:induction false} InsertLast(s: seq<int>, x: int)
    requires Sorted(s) && forall k :: 0 <= k < |s| ==> s[k] <= x
    ensures Insert(x, s) == s + [x]
  {
    if |s| > 0 {
      InsertLast(s[1..], x);
      assert s == [s[0]] + s[1..];
    }
  }

  // ---------------------------------------------------------------------
  // maxSeqLenV2
  // ---------------------------------------------------------------------

  /** The largest value of a non-empty array: a bound on where a walk up the set can go. */
  function MaxOf(s: seq<int>): (hi: int)
    requires |s| > 0
    ensures hi in s && forall k :: 0 <= k < |s| ==> s[k] <= hi
  {
    if |s| == 1 then s[0]
    else
      var rest := MaxOf(s[1..]);
      assert forall k :: 1 <= k < |s| ==> s[k] == s[1..][k - 1];
      if s[0] < rest then rest else s[0]
  }

  /** x - 1 and x are in S, and S has a run of n >= 3 from x - 1: the walks the written maxSeqLenV2 takes. */
  ghost predicate WalkedFrom(S: set<int>, x: int, n: int)
  {
    x - 1 in S && Run(S, x - 1, n) && n >= 3
  }

  /** The smallest value of a non-empty array: where a walk down the set must stop. */
  function MinOf(s: seq<int>): (lo: int)
    requires |s| > 0
    ensures forall y :: y in s ==> lo <= y
  {
    if |s| == 1 then s[0]
    else
      var rest := MinOf(s[1..]);
      assert forall y :: y in s ==> y == s[0] || y in s[1..];
      if s[0] < rest then s[0] else rest
  }

  /**
    What maxSeqLenV2 as written reports: 0, or the length of a run of at
    least three that no run of at least three exceeds.
   */
  ghost predicate ReportsLongRuns(S: set<int>, r: nat)
  {
    (r == 0 || r >= 3) && (exists a :: Run(S, a, r)) &&
    forall a, n :: Run(S, a, n) && n >= 3 ==> n <= r
  }

  /**
    maxSeqLenV2(ar) as written. The test meant to skip values that are not
    the start of a run is inverted, so the walk starts from the second
    value of a run and adds the one below it back in; and the maximum is
    only raised inside the walk, so runs of one or two are never reported.
   */
  method MaxSeqLenV2AsWritten(ar: seq<int>) returns (r: nat)
    ensures ReportsLongRuns(Elements(ar), r)
  {
    var S := Elements(ar);
    if |ar| == 0 {
      assert Run(S, 0, 0);
      BoundedRuns(S, 0);
      return 0;
    }
    var hi := MaxOf(ar);
    var curLen: nat := 1;
    var maxLen: nat := 0;
    assert Run(S, 0, 0);
    for i := 0 to |ar|
      invariant maxLen == 0 || maxLen >= 3
      invariant exists a :: Run(S, a, maxLen)
      invariant forall j, n :: 0 <= j < i && WalkedFrom(S, ar[j], n) ==> n <= maxLen
    {
      if ar[i] - 1 !in S {
        continue;
      }
      var x := ar[i];
      curLen := 1;
      while x + curLen in S
        invariant curLen >= 1 && Run(S, x, curLen) && x + curLen - 1 <= hi
        invariant maxLen == 0 || maxLen >= 3
        invariant exists a :: Run(S, a, maxLen)
        invariant curLen >= 2 ==> maxLen >= curLen + 1
        invariant forall j, n :: 0 <= j < i && WalkedFrom(S, ar[j], n) ==> n <= maxLen
        decreases hi - (x + curLen)
      {
        assert x + curLen <= hi;
        curLen := curLen + 1;
        assert Run(S, x - 1, curLen + 1);
        maxLen := if curLen + 1 > maxLen then curLen + 1 else maxLen;
      }
      forall n | WalkedFrom(S, x, n)
        ensures n <= maxLen
      {
        if n - 1 > curLen {
          RunHas(S, x - 1, n, x + curLen);
        }
      }
    }
    r := maxLen;
    forall a, n | Run(S, a, n) && n >= 3
      ensures n <= r
    {
      RunHas(S, a, n, a + 1);
      RunHas(S, a, n, a);
      var j :| 0 <= j < |ar| && ar[j] == a + 1;
      assert WalkedFrom(S, ar[j], n);
    }
  }

  /** Against the longest run L: the written maxSeqLenV2 reports L when L is at least 3, and 0 otherwise. */
  lemma ReportsLongRunsMeans(S: set<int>, r: nat, L: nat)
    requires ReportsLongRuns(S, r) && IsLongest(S, L)
    ensures r == if L >= 3 then L else 0
  {
    var a :| Run(S, a, L);
    var b :| Run(S, b, r);
  }

  /** {99, 100}: the written maxSeqLenV2 reports 0 for a run of two. */
  lemma PairMissed(ar: seq<int>, r: nat)
    requires ar == [99, 100] && ReportsLongRuns(Elements(ar), r)
    ensures r == 0 && IsLongest(Elements(ar), 2)
  {
    var E := Elements(ar);
    assert E == {99, 100};
    assert Run(E, 99, 2);
    BoundedRuns(E, 2);
    ReportsLongRunsMeans(E, r, 2);
  }

  /**
    Every run of S lies in a maximal one: walking down from a value of S
    reaches a value whose predecessor is missing. lo bounds S from below.
   */
  lemma {:induction false} RunStart(S: set<int>, a: int, n: nat, lo: int) returns (b: int)
    requires Run(S, a, n) && n > 0 && forall y :: y in S ==> lo <= y
    ensures b <= a && b in S && b - 1 !in S && Run(S, b, n + (a - b))
    decreases a - lo
  {
    RunHas(S, a, n, a);
    if a - 1 in S {
      assert Run(S, a - 1, n + 1);
      b := RunStart(S, a - 1, n + 1, lo);
    } else {
      b := a;
    }
  }

  /**
    maxSeqLenV2(ar), corrected: walk up only from values that start a run,
    and count every walk, however short. Returns the longest run.
   */
  method MaxSeqLenV2(ar: seq<int>) returns (r: nat)
    ensures IsLongest(Elements(ar), r)
  {
    var S := Elements(ar);
    if |ar| == 0 {
      assert Run(S, 0, 0);
      BoundedRuns(S, 0);
      return 0;
    }
    var hi := MaxOf(ar);
    var curLen: nat := 1;
    var maxLen: nat := 0;
    assert Run(S, 0, 0);
    for i := 0 to |ar|
      invariant exists a :: Run(S, a, maxLen)
      invariant forall j, n :: 0 <= j < i && ar[j] - 1 !in S && Run(S, ar[j], n) ==> n <= maxLen
    {
      if ar[i] - 1 in S {
        continue;
      }
      var x := ar[i];
      curLen := 1;
      assert Run(S, x, 1);
      while x + curLen in S
        invariant curLen >= 1 && Run(S, x, curLen) && x + curLen - 1 <= hi
        decreases hi - (x + curLen)
      {
        assert x + curLen <= hi;
        curLen := curLen + 1;
      }
      forall n | Run(S, x, n)
        ensures n <= curLen
      {
        if n > curLen {
          RunHas(S, x, n, x + curLen);
        }
      }
      maxLen := if curLen > maxLen then curLen else maxLen;
    }
    r := maxLen;
    var lo := MinOf(ar);
    forall a, n | Run(S, a, n)
      ensures n <= r
    {
      if n > 0 {
        var b := RunStart(S, a, n, lo);
        var j :| 0 <= j < |ar| && ar[j] == b;
      }
    }
  }

  /** The documented list {0, 2, 99, 100, 3, 1, 4, 5, 77}: its longest run, 0 .. 5, has six values. */
  lemma DocumentedExample(ar: seq<int>)
    requires ar == [0, 2, 99, 100, 3, 1, 4, 5, 77]
    ensures IsLongest(Elements(ar), 6)
    ensures MaxSeqLenV1(ar).1 == 6 && MaxSeqLenV1AsWritten(ar).1 == 6
  {
    DocumentedLongest(ar);
    MaxSeqLenV1IsLongest(ar);
    LongestUnique(Elements(ar), 6, MaxSeqLenV1(ar).1);
    DocumentedDistinct(ar);
    MaxSeqLenV1AsWrittenDistinct(ar, 6);
  }

  lemma DocumentedLongest(ar: seq<int>)
    requires ar == [0, 2, 99, 100, 3, 1, 4, 5, 77]
    ensures IsLongest(Elements(ar), 6)
  {
    var E := Elements(ar);
    assert E == {0, 1, 2, 3, 4, 5, 77, 99, 100};
    assert Run(E, 0, 6);
    BoundedRuns(E, 6);
  }

  lemma DocumentedDistinct(ar: seq<int>)
    requires ar == [0, 2, 99, 100, 3, 1, 4, 5, 77]
    ensures Distinct(ar)
  {
    DistinctByIndex(ar);
  }
}
