/**
  PartitionToKEqualSum.java, the memoised search (run2): the values are a
  list that the search sorts and shrinks as it goes; target k is filled
  by trying the values from the back of the list, each choice followed by
  a search for the same target; a failed choice is put back at the end of
  the list. Every call remembers its answer under the key made of the
  sorted list and all targets.

  The Java key is the text ar.toString() + "|" + Arrays.toString(target);
  the rendering of int lists is one-to-one, so the key is modelled as the
  pair of lists itself.
 */
module PartitionMemo {
  import opened Sums
  import LongestRun
  import PartitionToK

  /** The memo key: the sorted list and every target. */
  datatype Key = Key(list: seq<int>, t: seq<int>)

  /** What a call may change: the list, the targets, the groups and the memo. */
  datatype State = State(list: seq<int>, t: seq<int>, p: seq<seq<int>>, mem: map<Key, bool>)

  /** The answer of a call and the state it leaves behind. */
  datatype Answer = Answer(ok: bool, s: State)

  /** The memo has remembered only failures. */
  ghost predicate OnlyFailures(mem: map<Key, bool>)
  {
    forall key :: key in mem ==> !mem[key]
  }

  /** The targets before k are used up: the search for target k only starts once they are. */
  ghost predicate ZeroBelow(t: seq<int>, k: nat)
  {
    forall j :: 0 <= j < k && j < |t| ==> t[j] == 0
  }

  /** Every value is placed and every target used up. */
  ghost predicate Done(s: State)
  {
    s.list == [] && AllZero(s.t)
  }

  /**
    A call may start from here: either the memo holds only failures, or
    there is nothing left to do (and no further call will happen).
   */
  ghost predicate Ready(s: State)
  {
    OnlyFailures(s.mem) || Done(s)
  }

  /**
    What a failure leaves: the same targets and groups, the same values
    in some order, and a memo that still holds only failures if it did.
   */
  ghost predicate Restored(s: State, s': State)
  {
    s'.t == s.t && s'.p == s.p && multiset(s'.list) == multiset(s.list) &&
    (OnlyFailures(s.mem) ==> OnlyFailures(s'.mem))
  }

  /** The shape every call keeps: one group per target, and target k exists. */
  ghost predicate Shaped(s: State, k: nat)
  {
    |s.p| == |s.t| && k <= |s.t| && ZeroBelow(s.t, k)
  }

  /**
    partition(ar, target, trgIdx, p, mem): sort the list, answer from the
    memo when the key is there, otherwise run the loop over targets.
    A success leaves every value placed and every target used up; a
    failure leaves targets and groups as they were and the values in some
    order.
   */
  function Search(s: State, k: nat): (r: Answer)
    requires Shaped(s, k) && OnlyFailures(s.mem)
    ensures |r.s.t| == |s.t| && |r.s.p| == |s.p|
    ensures r.ok ==> Done(r.s)
    ensures !r.ok ==> Restored(s, r.s)
    decreases |s.list|, 2, 0
  {
    var sorted := LongestRun.Sort(s.list);
    var key := Key(sorted, s.t);
    if key in s.mem then Answer(s.mem[key], s.(list := sorted))
    else Targets(s.(list := sorted), k, key)
  }

  /**
    The loop for (k = trgIdx; k < target.length; k++): scan for target k;
    if it is not used up afterwards remember and answer false; after the
    last target remember and answer whether the list is empty.
   */
  function Targets(s: State, k: nat, key: Key): (r: Answer)
    requires Shaped(s, k) && Ready(s)
    ensures |r.s.t| == |s.t| && |r.s.p| == |s.p|
    ensures r.ok ==> Done(r.s)
    ensures !r.ok ==> Restored(s, r.s)
    ensures Done(s) ==> r.ok
    decreases |s.list|, 1, |s.t| - k
  {
    if k == |s.t| then
      Answer(|s.list| == 0, s.(mem := s.mem[key := |s.list| == 0]))
    else
      var c := Scan(s, k, |s.list| - 1);
      if c.s.t[k] != 0 then Answer(false, c.s.(mem := c.s.mem[key := false]))
      else Targets(c.s, k + 1, key)
  }

  /**
    The loop for (idx = ar.size() - 1; idx >= 0 && target[k] > 0; idx--):
    a value that fits is removed and target k reduced by it, and the
    search goes on for target k. On success the value joins group k and
    the target is used up, which ends the loop; on failure the value is
    added back at the end of the list and the target restored. The
    answer says whether some choice succeeded.
   */
  function Scan(s: State, k: nat, idx: int): (r: Answer)
    requires Shaped(s, k) && k < |s.t| && Ready(s)
    requires -1 <= idx && (s.t[k] > 0 ==> idx < |s.list|)
    ensures |r.s.t| == |s.t| && |r.s.p| == |s.p|
    ensures r.ok ==> Done(r.s)
    ensures !r.ok ==> Restored(s, r.s)
    decreases |s.list|, 0, idx + 1
  {
    if idx < 0 || s.t[k] <= 0 then Answer(false, s)
    else if s.t[k] >= s.list[idx] then
      var v := s.list[idx];
      var c := Search(Take(s, k, idx), k);
      if c.ok then Answer(true, c.s.(p := c.s.p[k := c.s.p[k] + [v]]))
      else Scan(PutBack(c.s, k, v), k, idx - 1)
    else Scan(s, k, idx - 1)
  }

  /** ar.remove(idx) and target[k] -= value. */
  function Take(s: State, k: nat, idx: nat): (s': State)
    requires Shaped(s, k) && k < |s.t| && idx < |s.list| && OnlyFailures(s.mem)
    ensures Shaped(s', k) && OnlyFailures(s'.mem) && |s'.list| == |s.list| - 1
    ensures multiset(s'.list) + multiset{s.list[idx]} == multiset(s.list)
    ensures s'.t == s.t[k := s.t[k] - s.list[idx]] && s'.p == s.p
  {
    MultisetRemove(s.list, idx);
    State(s.list[..idx] + s.list[idx + 1..], s.t[k := s.t[k] - s.list[idx]], s.p, s.mem)
  }

  /** ar.add(value) and target[k] += value. */
  function PutBack(s: State, k: nat, v: int): (s': State)
    requires k < |s.t|
    ensures s'.list == s.list + [v] && |s'.t| == |s.t| && s'.t[k] == s.t[k] + v && s'.p == s.p
  {
    State(s.list + [v], s.t[k := s.t[k] + v], s.p, s.mem)
  }

  /**
    run2(ar, k): no split when the total is not a multiple of k; otherwise
    the search from k empty groups with target total / k each and an
    empty memo. When it fails, the groups are still empty.
   */
  function Run2(ar: seq<int>, k: nat): (r: (bool, seq<seq<int>>))
    requires k > 0
    ensures !r.0 ==> r.1 == [] || r.1 == PartitionToK.NoGroups(k)
  {
    var total := Sum(ar);
    if total % k != 0 then (false, [])
    else
      var start := State(ar, Uniform(k, total / k), PartitionToK.NoGroups(k), map[]);
      var a := Search(start, 0);
      (a.ok, a.s.p)
  }

  // ---------------------------------------------------------------------
  // What a success has done
  // ---------------------------------------------------------------------

  /**
    From s to s' no value was lost or made up: group by group, what is
    left of the target plus what the group holds is unchanged, and the
    values in the groups and the list are the same values.
   */
  ghost predicate Moves(s: State, s': State)
  {
    |s'.t| == |s.t| && |s'.p| == |s.p| && PartitionToK.Conserves(s.t, s.p, s'.t, s'.p) &&
    multiset(Flatten(s'.p)) + multiset(s'.list) == multiset(Flatten(s.p)) + multiset(s.list)
  }

  lemma MovesTrans(a: State, b: State, c: State)
    requires Moves(a, b) && Moves(b, c)
    ensures Moves(a, c)
  {
  }

  lemma RestoredMoves(s: State, s': State)
    requires |s.p| == |s.t| && Restored(s, s')
    ensures Moves(s, s')
  {
  }

  /** Taking v out of the list, succeeding, and recording v in group k moves nothing. */
  lemma RecordMoves(s: State, k: nat, idx: nat, c: State)
    requires Shaped(s, k) && k < |s.t| && idx < |s.list| && OnlyFailures(s.mem)
    requires Moves(Take(s, k, idx), c)
    ensures Moves(s, c.(p := c.p[k := c.p[k] + [s.list[idx]]]))
  {
    var v := s.list[idx];
    var s1 := Take(s, k, idx);
    var f := c.(p := c.p[k := c.p[k] + [v]]);
    RecordConserves(s.t, s.p, s1.t, c.t, c.p, k, v);
    FlattenSnoc(c.p, k, v);
    Shift(multiset(Flatten(c.p)), multiset(c.list), multiset(Flatten(s.p)), multiset(s1.list), multiset(s.list), v);
  }

  /** Group k gains v while its target lost v before the rest was searched. */
  lemma RecordConserves(t: seq<int>, p: seq<seq<int>>, t1: seq<int>, t2: seq<int>, p2: seq<seq<int>>, k: nat, v: int)
    requires |p| == |t| && k < |t| && t1 == t[k := t[k] - v]
    requires PartitionToK.Conserves(t1, p, t2, p2)
    ensures PartitionToK.Conserves(t, p, t2, p2[k := p2[k] + [v]])
  {
    SumConcat(p2[k], [v]);
    assert Sum([v]) == v;
    forall b | 0 <= b < |t|
      ensures t2[b] + Sum(p2[k := p2[k] + [v]][b]) == t[b] + Sum(p[b])
    {
      assert t2[b] + Sum(p2[b]) == t1[b] + Sum(p[b]);
    }
  }

  /** Multiset bookkeeping: v moves from the list into a group. */
  lemma Shift(A: multiset<int>, L: multiset<int>, F: multiset<int>, S1: multiset<int>, S: multiset<int>, v: int)
    requires A + L == F + S1 && S1 + multiset{v} == S
    ensures A + multiset{v} + L == F + S
  {
    forall x
      ensures ((A + multiset{v}) + L)[x] == (F + S)[x]
    {
      assert (A + L)[x] == (F + S1)[x];
    }
  }

  /** Every call only moves values from the list into the groups. */
  lemma {:induction false} SearchMoves(s: State, k: nat)
    requires Shaped(s, k) && OnlyFailures(s.mem)
    ensures Moves(s, Search(s, k).s)
    decreases |s.list|, 2, 0
  {
    var sorted := LongestRun.Sort(s.list);
    var key := Key(sorted, s.t);
    if key in s.mem {
      assert Moves(s, s.(list := sorted));
    } else {
      TargetsMoves(s.(list := sorted), k, key);
    }
  }

  lemma {:induction false} TargetsMoves(s: State, k: nat, key: Key)
    requires Shaped(s, k) && Ready(s)
    ensures Moves(s, Targets(s, k, key).s)
    decreases |s.list|, 1, |s.t| - k
  {
    if k < |s.t| {
      var c := Scan(s, k, |s.list| - 1);
      ScanMoves(s, k, |s.list| - 1);
      if c.s.t[k] == 0 {
        TargetsMoves(c.s, k + 1, key);
        MovesTrans(s, c.s, Targets(c.s, k + 1, key).s);
      }
    }
  }

  lemma {:induction false} ScanMoves(s: State, k: nat, idx: int)
    requires Shaped(s, k) && k < |s.t| && Ready(s)
    requires -1 <= idx && (s.t[k] > 0 ==> idx < |s.list|)
    ensures Moves(s, Scan(s, k, idx).s)
    decreases |s.list|, 0, idx + 1
  {
    if idx < 0 || s.t[k] <= 0 {
    } else if s.t[k] >= s.list[idx] {
      var v := s.list[idx];
      var c := Search(Take(s, k, idx), k);
      if c.ok {
        SearchMoves(Take(s, k, idx), k);
        RecordMoves(s, k, idx, c.s);
      } else {
        var s2 := PutBack(c.s, k, v);
        assert |c.s.list| == |s.list| - 1 by {
          assert |multiset(c.s.list)| == |multiset(Take(s, k, idx).list)|;
        }
        assert Restored(s, s2) by {
          assert s2.t == s.t;
        }
        ScanMoves(s2, k, idx - 1);
        RestoredMoves(s, s2);
        MovesTrans(s, s2, Scan(s2, k, idx - 1).s);
      }
    } else {
      ScanMoves(s, k, idx - 1);
    }
  }

  // ---------------------------------------------------------------------
  // run2
  // ---------------------------------------------------------------------

  /**
    When run2 answers true its groups split the array into k totals of
    total / k each; for any values, not only positive ones.
   */
  lemma Run2Splits(ar: seq<int>, k: nat)
    requires k > 0
    ensures Run2(ar, k).0 ==> PartitionToK.Splits(ar, Run2(ar, k).1, Uniform(k, Sum(ar) / k))
  {
    if Sum(ar) % k == 0 {
      var x := Sum(ar) / k;
      var start := State(ar, Uniform(k, x), PartitionToK.NoGroups(k), map[]);
      var a := Search(start, 0);
      assert Run2(ar, k) == (a.ok, a.s.p);
      if a.ok {
        assert Shaped(start, 0) && OnlyFailures(start.mem);
        SearchMoves(start, 0);
        DoneSplits(start, a.s, k, x);
      }
    }
  }

  /** A finished search from k empty groups with targets x has split the list into totals of x. */
  lemma DoneSplits(s: State, a: State, k: nat, x: int)
    requires s.t == Uniform(k, x) && s.p == PartitionToK.NoGroups(k)
    requires Moves(s, a) && Done(a)
    ensures PartitionToK.Splits(s.list, a.p, Uniform(k, x))
  {
    PartitionToK.EmptyGroups(k);
    forall b | 0 <= b < k
      ensures Sum(a.p[b]) == x
    {
      assert a.t[b] == 0 && s.p[b] == [];
    }
    var E: multiset<int> := multiset{};
    assert multiset(a.list) == E && multiset(Flatten(s.p)) == E;
    assert multiset(Flatten(a.p)) + E == multiset(Flatten(a.p));
    assert E + multiset(s.list) == multiset(s.list);
  }

  /**
    The cross-check run1(ar, k) == run2(ar, k), in the direction that
    holds for every positive array: when run2 finds a split, so does run1.
   */
  lemma Run2ThenRun1(ar: seq<int>, k: nat)
    requires k > 0 && Positive(ar)
    ensures Run2(ar, k).0 ==> PartitionToK.Run1(ar, k).0
  {
    Run2Splits(ar, k);
    PartitionToK.Run1Correct(ar, k);
  }
}
