/**
  Union-find over the elements 0 .. n - 1 (DisjointSet.java). Entry ar[x]
  is the parent of x, or, when negative, marks x as a root whose set has
  -ar[x] elements. find compresses the path it walks; union hangs the root
  of the smaller set under the root of the larger one and keeps track of
  the index of a largest set.

  The source tests for a parent with `ar[i] > 0`, which takes an element
  whose parent is 0 for a root. The model uses the evidently intended test
  `ar[i] >= 0` (so negative means root) and keeps the test as written in
  FindAsWritten, with the state that shows the difference.
 */
module DisjointSet {
  import opened Nullable

  /** Integer.MIN_VALUE. */
  const IntMin: int := -0x8000_0000

  /** The array and the index of a largest set. */
  datatype Forest = Forest(ar: seq<int>, maxSetIdx: nat)

  /** new DisjointSet(size): every element a singleton root. */
  function New(size: nat): (r: Forest)
    ensures Inv(r) && |r.ar| == size
    ensures forall x, y :: 0 <= x < size && 0 <= y < size ==> (SameSet(r, x, y) <==> x == y)
    ensures forall x :: 0 <= x < size ==> SetSize(r, x) == 1
  {
    var ar: seq<int> := seq(size, _ => -1);
    Singletons(ar);
    Forest(ar, 0)
  }

  /** x is a root or its parent is an element. */
  ghost predicate ParentOk(ar: seq<int>, x: nat)
    requires x < |ar|
  {
    ar[x] < |ar|
  }

  ghost predicate ParentsInRange(ar: seq<int>)
  {
    forall x :: 0 <= x < |ar| ==> ParentOk(ar, x)
  }

  /** Follows parents from x for at most fuel steps; the root reached, if any. */
  function Walk(ar: seq<int>, x: nat, fuel: nat): (r: Option<nat>)
    requires ParentsInRange(ar) && x < |ar|
    ensures r.Some? ==> r.value < |ar| && ar[r.value] < 0
    decreases fuel
  {
    if ar[x] < 0 then Some(x) else if fuel == 0 then None else assert ParentOk(ar, x); Walk(ar, ar[x], fuel - 1)
  }

  /** Some number of steps takes x to a root. */
  ghost predicate Reaches(ar: seq<int>, x: nat)
    requires ParentsInRange(ar) && x < |ar|
  {
    exists f :: Walk(ar, x, f).Some?
  }

  /** Every element leads to a root: the parent links have no cycle. */
  ghost predicate Valid(ar: seq<int>)
  {
    ParentsInRange(ar) && forall x :: 0 <= x < |ar| ==> Reaches(ar, x)
  }

  /** Enough steps for the walk from x to reach its root. */
  ghost function Fuel(ar: seq<int>, x: nat): (f: nat)
    requires Valid(ar) && x < |ar|
    ensures Walk(ar, x, f).Some?
  {
    assert Reaches(ar, x);
    var f :| Walk(ar, x, f).Some?; f
  }

  /** The root of the set x belongs to. */
  ghost function Root(ar: seq<int>, x: nat): (r: nat)
    requires Valid(ar) && x < |ar|
    ensures IsRoot(ar, r)
  {
    Walk(ar, x, Fuel(ar, x)).value
  }

  /** x and y are in the same set. */
  ghost predicate SameSet(ds: Forest, x: nat, y: nat)
    requires Valid(ds.ar) && x < |ds.ar| && y < |ds.ar|
  {
    Root(ds.ar, x) == Root(ds.ar, y)
  }

  /** The elements whose root is r. */
  ghost function Members(ar: seq<int>, r: nat): set<nat>
    requires Valid(ar)
  {
    set x: nat | x < |ar| && Root(ar, x) == r
  }

  /** The number of elements in x's set. */
  ghost function SetSize(ds: Forest, x: nat): nat
    requires Valid(ds.ar) && x < |ds.ar|
  {
    |Members(ds.ar, Root(ds.ar, x))|
  }

  /** r is a root: its entry is negative. */
  ghost predicate IsRoot(ar: seq<int>, r: nat)
  {
    r < |ar| && ar[r] < 0
  }

  /** Root r stores the size of its set, negated. */
  ghost predicate SizeStored(ar: seq<int>, r: nat)
    requires Valid(ar) && IsRoot(ar, r)
  {
    -ar[r] == |Members(ar, r)|
  }

  ghost predicate SizesOk(ar: seq<int>)
    requires Valid(ar)
  {
    forall r :: IsRoot(ar, r) ==> SizeStored(ar, r)
  }

  /** Root r's set is no larger than maxSetIdx's. */
  ghost predicate NoLarger(ds: Forest, r: nat)
    requires ds.maxSetIdx < |ds.ar| && r < |ds.ar|
  {
    ds.ar[ds.maxSetIdx] <= ds.ar[r]
  }

  /** maxSetIdx is a root whose set is as large as any. */
  ghost predicate MaxOk(ds: Forest)
  {
    IsRoot(ds.ar, ds.maxSetIdx) && forall r :: IsRoot(ds.ar, r) ==> NoLarger(ds, r)
  }

  ghost predicate Inv(ds: Forest)
  {
    Valid(ds.ar) && SizesOk(ds.ar) && (|ds.ar| > 0 ==> MaxOk(ds))
  }

  /** More fuel does not change a walk that already arrived. */
  lemma {:induction false} WalkMore(ar: seq<int>, x: nat, f1: nat, f2: nat)
    requires ParentsInRange(ar) && x < |ar|
    requires Walk(ar, x, f1).Some? && f1 <= f2
    ensures Walk(ar, x, f2) == Walk(ar, x, f1)
    decreases f1
  {
    if ar[x] >= 0 {
      assert ParentOk(ar, x);
      WalkMore(ar, ar[x], f1 - 1, f2 - 1);
    }
  }

  /** Any walk that arrives arrives at the root. */
  lemma RootIs(ar: seq<int>, x: nat, f: nat)
    requires Valid(ar) && x < |ar| && Walk(ar, x, f).Some?
    ensures Root(ar, x) == Walk(ar, x, f).value
  {
    var g := Fuel(ar, x);
    if f <= g {
      WalkMore(ar, x, f, g);
    } else {
      WalkMore(ar, x, g, f);
    }
  }

  /** The number of parent steps a walk takes when it arrives. */
  ghost function Steps(ar: seq<int>, x: nat, fuel: nat): nat
    requires ParentsInRange(ar) && x < |ar| && Walk(ar, x, fuel).Some?
    decreases fuel
  {
    if ar[x] < 0 then 0 else assert ParentOk(ar, x); 1 + Steps(ar, ar[x], fuel - 1)
  }

  /** Any fuel that suffices gives the same number of steps. */
  lemma {:induction false} StepsSame(ar: seq<int>, x: nat, f1: nat, f2: nat)
    requires ParentsInRange(ar) && x < |ar| && Walk(ar, x, f1).Some? && Walk(ar, x, f2).Some?
    ensures Steps(ar, x, f1) == Steps(ar, x, f2)
    decreases f1
  {
    if ar[x] >= 0 {
      assert ParentOk(ar, x);
      StepsSame(ar, ar[x], f1 - 1, f2 - 1);
    }
  }

  /** How far x is below its root. */
  ghost function Depth(ar: seq<int>, x: nat): nat
    requires Valid(ar) && x < |ar|
  {
    Steps(ar, x, Fuel(ar, x))
  }

  /** A parent is one step nearer the same root. */
  lemma ParentStep(ar: seq<int>, x: nat)
    requires Valid(ar) && x < |ar| && ar[x] >= 0
    ensures ar[x] < |ar| && Depth(ar, ar[x]) < Depth(ar, x) && Root(ar, ar[x]) == Root(ar, x)
  {
    assert ParentOk(ar, x);
    var f := Fuel(ar, x);
    StepsSame(ar, ar[x], f - 1, Fuel(ar, ar[x]));
    RootIs(ar, ar[x], f - 1);
  }

  /**
    find's walk and path compression: the root reached from i, and the
    array with every non-root on the way pointing straight at it.
   */
  function Compress(ar: seq<int>, i: nat): (res: (nat, seq<int>))
    requires Valid(ar) && i < |ar|
    ensures res.0 == Root(ar, i)
    ensures |res.1| == |ar|
    ensures ar[i] >= 0 ==> res.1[i] == res.0
    ensures forall x :: 0 <= x < |ar| ==>
              res.1[x] == ar[x] || (ar[x] >= 0 && res.1[x] == res.0 && Root(ar, x) == res.0)
    decreases Depth(ar, i)
  {
    if ar[i] < 0 then
      RootIs(ar, i, 0);
      (i, ar)
    else
      ParentStep(ar, i);
      var (r, ar1) := Compress(ar, ar[i]);
      (r, ar1[i := r])
  }

  /** Pointing non-roots directly at their own roots keeps every root and every walk's end. */
  lemma {:induction false} WalkAfterRedirect(ar: seq<int>, t: seq<int>, x: nat, f: nat)
    requires Valid(ar) && ParentsInRange(t) && |t| == |ar| && x < |ar|
    requires forall y :: 0 <= y < |ar| ==> t[y] == ar[y] || (ar[y] >= 0 && t[y] == Root(ar, y))
    requires Walk(ar, x, f).Some?
    ensures Walk(t, x, f) == Walk(ar, x, f)
    decreases f
  {
    if ar[x] >= 0 {
      if t[x] == ar[x] {
        assert ParentOk(ar, x);
        WalkAfterRedirect(ar, t, ar[x], f - 1);
      } else {
        RootIs(ar, x, f);
        var r := Root(ar, x);
        assert t[r] == ar[r];
        assert Walk(t, r, f - 1) == Some(r);
      }
    }
  }

  /** Pointing non-roots at their roots keeps the forest valid and every root the same. */
  lemma RedirectValid(ar: seq<int>, t: seq<int>)
    requires Valid(ar) && |t| == |ar|
    requires forall y :: 0 <= y < |t| ==> t[y] == ar[y] || (ar[y] >= 0 && t[y] == Root(ar, y))
    ensures Valid(t)
    ensures forall x :: 0 <= x < |t| ==> Root(t, x) == Root(ar, x)
  {
    forall y | 0 <= y < |t|
      ensures ParentOk(t, y)
    {
      assert ParentOk(ar, y);
    }
    forall x | 0 <= x < |t|
      ensures Walk(t, x, Fuel(ar, x)) == Walk(ar, x, Fuel(ar, x)) && Reaches(t, x)
    {
      WalkAfterRedirect(ar, t, x, Fuel(ar, x));
    }
    forall x | 0 <= x < |t|
      ensures Root(t, x) == Root(ar, x)
    {
      RootIs(t, x, Fuel(ar, x));
    }
  }

  /** The state after path compression has the same sets, sizes and largest set. */
  lemma RedirectKeepsSets(ds: Forest, t: seq<int>)
    requires Inv(ds) && |t| == |ds.ar|
    requires forall y :: 0 <= y < |t| ==> t[y] == ds.ar[y] || (ds.ar[y] >= 0 && t[y] == Root(ds.ar, y))
    ensures Valid(t)
    ensures forall x :: 0 <= x < |t| ==> Root(t, x) == Root(ds.ar, x)
    ensures Inv(Forest(t, ds.maxSetIdx))
  {
    var ar := ds.ar;
    RedirectValid(ar, t);
    forall r: nat | IsRoot(t, r)
      ensures IsRoot(ar, r) && t[r] == ar[r] && SizeStored(t, r)
    {
      assert IsRoot(ar, r) && SizeStored(ar, r);
      assert Members(t, r) == Members(ar, r);
    }
    if |t| > 0 {
      var d := Forest(t, ds.maxSetIdx);
      assert IsRoot(t, ds.maxSetIdx);
      forall r: nat | IsRoot(t, r)
        ensures NoLarger(d, r)
      {
        assert NoLarger(ds, r);
      }
    }
  }

  /** find(i): the root of i's set, and the compressed state. */
  function Find(ds: Forest, i: nat): (res: (nat, Forest))
    requires Inv(ds) && i < |ds.ar|
    ensures res.0 == Root(ds.ar, i)
    ensures Inv(res.1) && |res.1.ar| == |ds.ar| && res.1.maxSetIdx == ds.maxSetIdx
    ensures forall x :: 0 <= x < |ds.ar| ==> Root(res.1.ar, x) == Root(ds.ar, x)
    ensures ds.ar[i] >= 0 ==> res.1.ar[i] == res.0
  {
    var (r, t) := Compress(ds.ar, i);
    RedirectKeepsSets(ds, t);
    (r, Forest(t, ds.maxSetIdx))
  }

  /** Linking root l under root w: walks that ended at l now take one more step to w. */
  lemma {:induction false} WalkAfterLink(ar: seq<int>, t: seq<int>, l: nat, w: nat, x: nat, f: nat)
    requires ParentsInRange(ar) && ParentsInRange(t) && |t| == |ar| && x < |ar|
    requires l < |ar| && w < |ar| && l != w && ar[l] < 0 && ar[w] < 0
    requires t[l] == w && t[w] < 0
    requires forall y :: 0 <= y < |ar| && y != l && y != w ==> t[y] == ar[y]
    requires Walk(ar, x, f).Some?
    ensures Walk(t, x, f + 1) == Some(if Walk(ar, x, f).value == l then w else Walk(ar, x, f).value)
    decreases f
  {
    if ar[x] >= 0 {
      assert ParentOk(ar, x);
      WalkAfterLink(ar, t, l, w, ar[x], f - 1);
    } else if x == l {
      assert Walk(t, w, f) == Some(w);
    }
  }

  /**
    The merge step of union: root l goes under root w, w's stored size
    grows by l's, and maxSetIdx moves to w if w's set is now larger.
   */
  function Link(ds: Forest, l: nat, w: nat): (r: Forest)
    requires Inv(ds) && l < |ds.ar| && w < |ds.ar| && l != w && ds.ar[l] < 0 && ds.ar[w] < 0
    ensures Inv(r) && |r.ar| == |ds.ar|
    ensures forall x :: 0 <= x < |ds.ar| ==>
              Root(r.ar, x) == if Root(ds.ar, x) == l then w else Root(ds.ar, x)
  {
    var ar := ds.ar;
    var t := ar[w := ar[w] + ar[l]][l := w];
    var m := if -t[ds.maxSetIdx] < -t[w] then w else ds.maxSetIdx;
    LinkKeepsInv(ds, l, w, t, m);
    Forest(t, m)
  }

  /** Linking keeps the forest valid and moves l's set under w. */
  lemma LinkValid(ar: seq<int>, t: seq<int>, l: nat, w: nat)
    requires Valid(ar) && l < |ar| && w < |ar| && l != w && ar[l] < 0 && ar[w] < 0
    requires t == ar[w := ar[w] + ar[l]][l := w]
    ensures Valid(t)
    ensures forall x :: 0 <= x < |t| ==> Root(t, x) == if Root(ar, x) == l then w else Root(ar, x)
  {
    forall y | 0 <= y < |t|
      ensures ParentOk(t, y)
    {
      assert ParentOk(ar, y);
    }
    forall x | 0 <= x < |t|
      ensures Walk(t, x, Fuel(ar, x) + 1) == Some(if Root(ar, x) == l then w else Root(ar, x)) && Reaches(t, x)
    {
      WalkAfterLink(ar, t, l, w, x, Fuel(ar, x));
    }
    forall x | 0 <= x < |t|
      ensures Root(t, x) == if Root(ar, x) == l then w else Root(ar, x)
    {
      RootIs(t, x, Fuel(ar, x) + 1);
    }
  }

  lemma LinkKeepsInv(ds: Forest, l: nat, w: nat, t: seq<int>, m: nat)
    requires Inv(ds) && l < |ds.ar| && w < |ds.ar| && l != w && ds.ar[l] < 0 && ds.ar[w] < 0
    requires t == ds.ar[w := ds.ar[w] + ds.ar[l]][l := w]
    requires m == if -t[ds.maxSetIdx] < -t[w] then w else ds.maxSetIdx
    ensures Valid(t)
    ensures forall x :: 0 <= x < |t| ==> Root(t, x) == if Root(ds.ar, x) == l then w else Root(ds.ar, x)
    ensures Inv(Forest(t, m))
  {
    var ar := ds.ar;
    LinkValid(ar, t, l, w);
    LinkSizes(ar, t, l, w);
    var d := Forest(t, m);
    assert IsRoot(ar, l) && IsRoot(ar, w) && IsRoot(ar, ds.maxSetIdx);
    assert NoLarger(ds, l) && NoLarger(ds, w);
    assert IsRoot(t, m);
    forall r: nat | IsRoot(t, r)
      ensures NoLarger(d, r)
    {
      assert IsRoot(ar, r) && NoLarger(ds, r);
    }
  }

  /** Linking adds l's size into w's entry, which matches the merged set. */
  lemma LinkSizes(ar: seq<int>, t: seq<int>, l: nat, w: nat)
    requires Valid(ar) && SizesOk(ar) && l < |ar| && w < |ar| && l != w && ar[l] < 0 && ar[w] < 0
    requires t == ar[w := ar[w] + ar[l]][l := w]
    requires Valid(t)
    requires forall x :: 0 <= x < |t| ==> Root(t, x) == if Root(ar, x) == l then w else Root(ar, x)
    ensures SizesOk(t)
  {
    assert IsRoot(ar, l) && IsRoot(ar, w);
    assert SizeStored(ar, l) && SizeStored(ar, w);
    assert Members(t, w) == Members(ar, w) + Members(ar, l);
    assert Members(ar, w) * Members(ar, l) == {};
    forall r: nat | IsRoot(t, r)
      ensures SizeStored(t, r)
    {
      if r != w {
        assert IsRoot(ar, r) && SizeStored(ar, r);
        assert Members(t, r) == Members(ar, r);
      }
    }
  }

  /** The root union(i, k) keeps: i's when i's set is strictly larger, k's otherwise. */
  ghost function Winner(ds: Forest, i: nat, k: nat): nat
    requires Inv(ds) && i < |ds.ar| && k < |ds.ar|
  {
    var ri := Root(ds.ar, i);
    var rk := Root(ds.ar, k);
    if ds.ar[ri] < ds.ar[rk] then ri else rk
  }

  /**
    union(i, k): the finds compress both paths; when the roots differ, the
    root with the smaller stored size (the larger, less negative entry)
    goes under the other, and on a tie i's root goes under k's.
   */
  function Union(ds: Forest, i: nat, k: nat): (r: Forest)
    requires Inv(ds) && i < |ds.ar| && k < |ds.ar|
    ensures Inv(r) && |r.ar| == |ds.ar|
    ensures forall x :: 0 <= x < |ds.ar| && (SameSet(ds, x, i) || SameSet(ds, x, k)) ==>
              Root(r.ar, x) == Winner(ds, i, k)
    ensures forall x :: 0 <= x < |ds.ar| && !SameSet(ds, x, i) && !SameSet(ds, x, k) ==>
              Root(r.ar, x) == Root(ds.ar, x)
  {
    var (ri, d1) := Find(ds, i);
    var (rk, d2) := Find(d1, k);
    assert d2.ar[ri] == ds.ar[ri] && d2.ar[rk] == ds.ar[rk];
    var r :=
      if ri == rk then d2
      else
        var iSize := d2.ar[ri];
        var kSize := d2.ar[rk];
        if iSize < kSize then Link(d2, rk, ri) else Link(d2, ri, rk);
    UnionRoots(ds, i, k, d2, r);
    r
  }

  /** Where union's elements end up: i's and k's sets at the winner, every other set where it was. */
  lemma UnionRoots(ds: Forest, i: nat, k: nat, d2: Forest, r: Forest)
    requires Inv(ds) && i < |ds.ar| && k < |ds.ar| && Inv(d2) && |d2.ar| == |ds.ar|
    requires forall x :: 0 <= x < |ds.ar| ==> Root(d2.ar, x) == Root(ds.ar, x)
    requires d2.ar[Root(ds.ar, i)] == ds.ar[Root(ds.ar, i)] < 0 && d2.ar[Root(ds.ar, k)] == ds.ar[Root(ds.ar, k)] < 0
    requires var ri, rk := Root(ds.ar, i), Root(ds.ar, k);
      r == if ri == rk then d2 else if d2.ar[ri] < d2.ar[rk] then Link(d2, rk, ri) else Link(d2, ri, rk)
    ensures Inv(r) && |r.ar| == |ds.ar|
    ensures forall x :: 0 <= x < |ds.ar| && (SameSet(ds, x, i) || SameSet(ds, x, k)) ==>
              Root(r.ar, x) == Winner(ds, i, k)
    ensures forall x :: 0 <= x < |ds.ar| && !SameSet(ds, x, i) && !SameSet(ds, x, k) ==>
              Root(r.ar, x) == Root(ds.ar, x)
  {
    var ri, rk := Root(ds.ar, i), Root(ds.ar, k);
    if ri != rk {
      var l, w := if d2.ar[ri] < d2.ar[rk] then rk else ri, if d2.ar[ri] < d2.ar[rk] then ri else rk;
      assert r == Link(d2, l, w) && w == Winner(ds, i, k);
      forall x | 0 <= x < |ds.ar|
        ensures Root(r.ar, x) == if Root(ds.ar, x) == l then w else Root(ds.ar, x)
      {
      }
    }
  }

  /** After union(i, k), two elements are together iff they were, or each was with i or with k. */
  lemma UnionJoins(ds: Forest, i: nat, k: nat, x: nat, y: nat)
    requires Inv(ds) && i < |ds.ar| && k < |ds.ar| && x < |ds.ar| && y < |ds.ar|
    ensures SameSet(Union(ds, i, k), x, y) <==>
              SameSet(ds, x, y) ||
              ((SameSet(ds, x, i) || SameSet(ds, x, k)) && (SameSet(ds, y, i) || SameSet(ds, y, k)))
  {
    var u := Union(ds, i, k);
    var w := Winner(ds, i, k);
    assert w == Root(ds.ar, i) || w == Root(ds.ar, k);
  }

  /**
    Union by size: when i's set is strictly larger, k's set joins i's root,
    otherwise i's set joins k's root; the merged set has both sizes.
   */
  lemma UnionBySize(ds: Forest, i: nat, k: nat)
    requires Inv(ds) && i < |ds.ar| && k < |ds.ar| && !SameSet(ds, i, k)
    ensures SetSize(ds, i) > SetSize(ds, k) ==> Root(Union(ds, i, k).ar, k) == Root(ds.ar, i)
    ensures SetSize(ds, i) <= SetSize(ds, k) ==> Root(Union(ds, i, k).ar, i) == Root(ds.ar, k)
    ensures SetSize(Union(ds, i, k), i) == SetSize(ds, i) + SetSize(ds, k)
  {
    var ar := ds.ar;
    var ri := Root(ar, i);
    var rk := Root(ar, k);
    assert IsRoot(ar, ri) && SizeStored(ar, ri);
    assert IsRoot(ar, rk) && SizeStored(ar, rk);
    UnionMembers(ds, i, k);
  }

  /** The set of i after union(i, k) is the two old sets together. */
  lemma UnionMembers(ds: Forest, i: nat, k: nat)
    requires Inv(ds) && i < |ds.ar| && k < |ds.ar| && !SameSet(ds, i, k)
    ensures Members(Union(ds, i, k).ar, Root(Union(ds, i, k).ar, i)) ==
              Members(ds.ar, Root(ds.ar, i)) + Members(ds.ar, Root(ds.ar, k))
    ensures Members(ds.ar, Root(ds.ar, i)) * Members(ds.ar, Root(ds.ar, k)) == {}
  {
    var ar := ds.ar;
    var u := Union(ds, i, k);
    var w := Winner(ds, i, k);
    var ri := Root(ar, i);
    var rk := Root(ar, k);
    assert Root(u.ar, i) == w;
    forall x: nat
      ensures x in Members(u.ar, w) <==> x in Members(ar, ri) || x in Members(ar, rk)
    {
      if x < |ar| {
        if SameSet(ds, x, i) || SameSet(ds, x, k) {
          assert Root(u.ar, x) == w;
        } else {
          assert Root(u.ar, x) == Root(ar, x);
        }
      }
    }
  }

  /** maxSetSize(): the size of a largest set. */
  function MaxSetSize(ds: Forest): (r: int)
    requires Inv(ds) && |ds.ar| > 0
    ensures forall x :: 0 <= x < |ds.ar| ==> SetSize(ds, x) <= r
    ensures exists x :: 0 <= x < |ds.ar| && SetSize(ds, x) == r
  {
    var m := ds.maxSetIdx;
    assert SetSize(ds, m) == -ds.ar[m] by {
      RootIs(ds.ar, m, 0);
    }
    -1 * ds.ar[m]
  }

  /** minSetSize's loop: the largest entry below -1 from index i on, starting from max. */
  function MinLoop(ar: seq<int>, i: nat, max: int): (r: int)
    requires i <= |ar|
    ensures r >= max
    ensures forall j :: i <= j < |ar| && ar[j] < -1 ==> ar[j] <= r
    ensures r == max || exists j :: i <= j < |ar| && ar[j] < -1 && ar[j] == r
    decreases |ar| - i
  {
    if i == |ar| then max
    else MinLoop(ar, i + 1, if ar[i] < -1 && ar[i] > max then ar[i] else max)
  }

  /**
    minSetSize(): the size of a smallest set among those with at least two
    elements. With no such set the loop's maximum stays Integer.MIN_VALUE,
    and negating it wraps around to Integer.MIN_VALUE again.
   */
  function MinSetSize(ds: Forest): int
  {
    var max := MinLoop(ds.ar, 0, IntMin);
    if max == IntMin then IntMin else -1 * max
  }

  /** Some set has at least two elements. */
  ghost predicate HasPair(ds: Forest)
    requires Valid(ds.ar)
  {
    exists x :: 0 <= x < |ds.ar| && SetSize(ds, x) >= 2
  }

  lemma MinSetSizeIsSmallest(ds: Forest)
    requires Inv(ds)
    requires forall x :: 0 <= x < |ds.ar| ==> SetSize(ds, x) < -IntMin
    ensures !HasPair(ds) ==> MinSetSize(ds) == IntMin
    ensures HasPair(ds) ==>
              MinSetSize(ds) >= 2 &&
              (exists x :: 0 <= x < |ds.ar| && SetSize(ds, x) == MinSetSize(ds)) &&
              (forall x :: 0 <= x < |ds.ar| && SetSize(ds, x) >= 2 ==> MinSetSize(ds) <= SetSize(ds, x))
  {
    var ar := ds.ar;
    var max := MinLoop(ar, 0, IntMin);
    forall j | 0 <= j < |ar| && ar[j] < 0
      ensures SetSize(ds, j) == -ar[j]
    {
      RootIs(ar, j, 0);
    }
    forall x | 0 <= x < |ar|
      ensures SetSize(ds, x) == -ar[Root(ar, x)]
    {
      var r := Root(ar, x);
      RootIs(ar, r, 0);
    }
    forall x | 0 <= x < |ar| && SetSize(ds, x) >= 2
      ensures IntMin < ar[Root(ar, x)] <= max
    {
    }
  }

  /** selectSet's loop: find(i) for every i from i on, collecting those whose root is root. */
  function SelectFrom(ds: Forest, root: nat, i: nat): (res: (set<nat>, Forest))
    requires Inv(ds) && i <= |ds.ar|
    ensures forall x: nat :: x in res.0 <==> i <= x < |ds.ar| && Root(ds.ar, x) == root
    ensures Inv(res.1) && |res.1.ar| == |ds.ar|
    ensures forall x :: 0 <= x < |ds.ar| ==> Root(res.1.ar, x) == Root(ds.ar, x)
    decreases |ds.ar| - i
  {
    if i == |ds.ar| then ({}, ds)
    else
      var (r, d1) := Find(ds, i);
      var (s, d2) := SelectFrom(d1, root, i + 1);
      var res := (if r == root then {i} + s else s, d2);
      SelectStep(ds, d1, root, i, r, s, res.0);
      res
  }

  /** Adding element i when its root is root extends the selection from i + 1 to i. */
  lemma SelectStep(ds: Forest, d1: Forest, root: nat, i: nat, r: nat, s: set<nat>, sel: set<nat>)
    requires Valid(ds.ar) && Valid(d1.ar) && i < |ds.ar| == |d1.ar| && r == Root(ds.ar, i)
    requires forall x :: 0 <= x < |ds.ar| ==> Root(d1.ar, x) == Root(ds.ar, x)
    requires forall x: nat :: x in s <==> i + 1 <= x < |d1.ar| && Root(d1.ar, x) == root
    requires sel == if r == root then {i} + s else s
    ensures forall x: nat :: x in sel <==> i <= x < |ds.ar| && Root(ds.ar, x) == root
  {
  }

  /** selectSet(k): exactly the elements in k's set. */
  function SelectSet(ds: Forest, k: nat): (res: (set<nat>, Forest))
    requires Inv(ds) && k < |ds.ar|
    ensures forall x: nat :: x in res.0 <==> x < |ds.ar| && SameSet(ds, x, k)
    ensures Inv(res.1) && |res.1.ar| == |ds.ar|
    ensures forall x :: 0 <= x < |ds.ar| ==> Root(res.1.ar, x) == Root(ds.ar, x)
  {
    var (root, d1) := Find(ds, k);
    SelectFrom(d1, root, 0)
  }

  /** selectMaxSet(): the elements of a largest set. */
  function SelectMaxSet(ds: Forest): (res: (set<nat>, Forest))
    requires Inv(ds) && |ds.ar| > 0
    ensures forall x :: 0 <= x < |ds.ar| ==> SetSize(ds, x) <= |res.0|
    ensures forall x :: x in res.0 ==> x < |ds.ar|
    ensures forall x, y :: x in res.0 && 0 <= y < |ds.ar| ==> (y in res.0 <==> SameSet(ds, x, y))
  {
    var res := SelectSet(ds, ds.maxSetIdx);
    assert res.0 == Members(ds.ar, ds.maxSetIdx) by {
      RootIs(ds.ar, ds.maxSetIdx, 0);
    }
    assert |res.0| == MaxSetSize(ds);
    res
  }

  /** A fresh structure: every element alone in its set. */
  lemma Singletons(ar: seq<int>)
    requires forall x :: 0 <= x < |ar| ==> ar[x] == -1
    ensures Inv(Forest(ar, 0))
    ensures forall x :: 0 <= x < |ar| ==> Root(ar, x) == x && Members(ar, x) == {x}
  {
    forall x | 0 <= x < |ar|
      ensures ParentOk(ar, x) && Walk(ar, x, 0) == Some(x) && Reaches(ar, x)
    {
    }
    forall x | 0 <= x < |ar|
      ensures Root(ar, x) == x && Members(ar, x) == {x}
    {
      RootIs(ar, x, 0);
      forall y | y in Members(ar, x)
        ensures y == x
      {
        RootIs(ar, y, 0);
      }
    }
    forall r: nat | IsRoot(ar, r)
      ensures SizeStored(ar, r)
    {
    }
    if |ar| > 0 {
      assert IsRoot(ar, 0);
      forall r: nat | IsRoot(ar, r)
        ensures NoLarger(Forest(ar, 0), r)
      {
      }
    }
  }

  /**
    find as written: parents are followed only while ar[i] > 0, with at
    most fuel steps, compressing the path like find.
   */
  function FindAsWritten(ar: seq<int>, i: nat, fuel: nat): (res: (nat, seq<int>))
    requires i < |ar| && ParentsInRange(ar)
    ensures res.0 < |ar| && |res.1| == |ar|
    decreases fuel
  {
    if ar[i] > 0 && fuel > 0 then
      assert ParentOk(ar, i);
      var (r, ar1) := FindAsWritten(ar, ar[i], fuel - 1);
      (r, ar1[i := r])
    else (i, ar)
  }

  /**
    union(1, 0) on two singletons hangs 1 under 0 and leaves ar = [-2, 0]
    (both finds see singletons, where the two root tests agree). find(1)
    as written then stops at 1, since ar[1] = 0 is not positive, and so
    reports 0 and 1 in different sets; the corrected find reaches 0.
   */
  lemma RootTestMisreadsZero()
    ensures Union(New(2), 1, 0).ar == [-2, 0]
    ensures FindAsWritten([-2, 0], 1, 2).0 == 1 && FindAsWritten([-2, 0], 0, 2).0 == 0
    ensures Inv(Forest([-2, 0], 0)) && Find(Forest([-2, 0], 0), 1).0 == 0
  {
    var ds := New(2);
    assert ds.ar == [-1, -1];
    assert Walk(ds.ar, 0, 0) == Some(0) && Walk(ds.ar, 1, 0) == Some(1);
    RootIs(ds.ar, 0, 0);
    RootIs(ds.ar, 1, 0);
    var u := Union(ds, 1, 0);
    var t := [-2, 0];
    assert Walk(t, 1, 1) == Some(0);
    RootIs(u.ar, 1, 1);
  }

  /** find on an element at most one step below its root changes nothing. */
  lemma ShallowFind(ds: Forest, i: nat)
    requires Inv(ds) && i < |ds.ar|
    requires ds.ar[i] >= 0 ==> ds.ar[i] < |ds.ar| && ds.ar[ds.ar[i]] < 0
    ensures Find(ds, i) == (if ds.ar[i] < 0 then i else ds.ar[i], ds)
  {
    if ds.ar[i] >= 0 {
      assert Compress(ds.ar, ds.ar[i]) == (ds.ar[i], ds.ar);
      assert ds.ar[i := ds.ar[i]] == ds.ar;
    }
  }

  /** union of two elements each at most one step below its root. */
  lemma ShallowUnion(ds: Forest, i: nat, k: nat)
    requires Inv(ds) && i < |ds.ar| && k < |ds.ar|
    requires ds.ar[i] >= 0 ==> ds.ar[i] < |ds.ar| && ds.ar[ds.ar[i]] < 0
    requires ds.ar[k] >= 0 ==> ds.ar[k] < |ds.ar| && ds.ar[ds.ar[k]] < 0
    ensures var ri := if ds.ar[i] < 0 then i else ds.ar[i];
            var rk := if ds.ar[k] < 0 then k else ds.ar[k];
            Union(ds, i, k) ==
              if ri == rk then ds else if ds.ar[ri] < ds.ar[rk] then Link(ds, rk, ri) else Link(ds, ri, rk)
  {
    ShallowFind(ds, i);
    ShallowFind(ds, k);
  }

  /** The state the class's main method ends in. */
  function DemoEnd(): Forest
  {
    Forest([-1, 6, 7, 8, 9, -1, -4, 6, -2, -2], 6)
  }

  lemma LinkIs(ds: Forest, l: nat, w: nat)
    requires Inv(ds) && l < |ds.ar| && w < |ds.ar| && l != w && ds.ar[l] < 0 && ds.ar[w] < 0
    ensures var t := ds.ar[w := ds.ar[w] + ds.ar[l]][l := w];
            Link(ds, l, w) == Forest(t, if -t[ds.maxSetIdx] < -t[w] then w else ds.maxSetIdx)
  {
  }

  /** One union of the main method: both elements at most one step deep, l's root going under w's. */
  lemma DemoUnion(ds: Forest, i: nat, k: nat, l: nat, w: nat, next: Forest)
    requires Inv(ds) && i < |ds.ar| && k < |ds.ar|
    requires ds.ar[i] >= 0 ==> ds.ar[i] < |ds.ar| && ds.ar[ds.ar[i]] < 0
    requires ds.ar[k] >= 0 ==> ds.ar[k] < |ds.ar| && ds.ar[ds.ar[k]] < 0
    requires l == (if ds.ar[i] < 0 then i else ds.ar[i])
    requires w == (if ds.ar[k] < 0 then k else ds.ar[k])
    requires l != w && !(ds.ar[l] < ds.ar[w])
    requires next.ar == ds.ar[w := ds.ar[w] + ds.ar[l]][l := w]
    requires next.maxSetIdx == if -next.ar[ds.maxSetIdx] < -next.ar[w] then w else ds.maxSetIdx
    ensures Union(ds, i, k) == next
  {
    ShallowUnion(ds, i, k);
    LinkIs(ds, l, w);
  }

  /**
    The class's main method: unions (1, 6), (2, 7), (3, 8), (4, 9), (2, 6)
    over ten elements leave a largest set of four, {1, 2, 6, 7}, and a
    smallest set of at least two elements with two.
   */
  lemma Demo(ds: Forest)
    requires ds == New(10)
    ensures var d := Union(Union(Union(Union(Union(ds, 1, 6), 2, 7), 3, 8), 4, 9), 2, 6);
            d == DemoEnd() && MaxSetSize(d) == 4 && MinSetSize(d) == 2 &&
            SelectSet(d, d.maxSetIdx).0 == {1, 2, 6, 7}
  {
    assert ds == Forest([-1, -1, -1, -1, -1, -1, -1, -1, -1, -1], 0);
    DemoStep1(ds);
    var d1 := Union(ds, 1, 6);
    DemoStep2(d1);
    var d2 := Union(d1, 2, 7);
    DemoStep3(d2);
    var d3 := Union(d2, 3, 8);
    DemoStep4(d3);
    var d4 := Union(d3, 4, 9);
    DemoStep5(d4);
    var d := Union(d4, 2, 6);
    DemoMax();
    DemoMin();
    DemoSelect(d);
  }

  lemma DemoStep1(ds: Forest)
    requires ds == Forest([-1, -1, -1, -1, -1, -1, -1, -1, -1, -1], 0) && Inv(ds)
    ensures Union(ds, 1, 6) == Forest([-1, 6, -1, -1, -1, -1, -2, -1, -1, -1], 6)
  {
    DemoUnion(ds, 1, 6, 1, 6, Forest([-1, 6, -1, -1, -1, -1, -2, -1, -1, -1], 6));
  }

  lemma DemoStep2(ds: Forest)
    requires ds == Forest([-1, 6, -1, -1, -1, -1, -2, -1, -1, -1], 6) && Inv(ds)
    ensures Union(ds, 2, 7) == Forest([-1, 6, 7, -1, -1, -1, -2, -2, -1, -1], 6)
  {
    DemoUnion(ds, 2, 7, 2, 7, Forest([-1, 6, 7, -1, -1, -1, -2, -2, -1, -1], 6));
  }

  lemma DemoStep3(ds: Forest)
    requires ds == Forest([-1, 6, 7, -1, -1, -1, -2, -2, -1, -1], 6) && Inv(ds)
    ensures Union(ds, 3, 8) == Forest([-1, 6, 7, 8, -1, -1, -2, -2, -2, -1], 6)
  {
    DemoUnion(ds, 3, 8, 3, 8, Forest([-1, 6, 7, 8, -1, -1, -2, -2, -2, -1], 6));
  }

  lemma DemoStep4(ds: Forest)
    requires ds == Forest([-1, 6, 7, 8, -1, -1, -2, -2, -2, -1], 6) && Inv(ds)
    ensures Union(ds, 4, 9) == Forest([-1, 6, 7, 8, 9, -1, -2, -2, -2, -2], 6)
  {
    DemoUnion(ds, 4, 9, 4, 9, Forest([-1, 6, 7, 8, 9, -1, -2, -2, -2, -2], 6));
  }

  lemma DemoStep5(ds: Forest)
    requires ds == Forest([-1, 6, 7, 8, 9, -1, -2, -2, -2, -2], 6) && Inv(ds)
    ensures Union(ds, 2, 6) == Forest([-1, 6, 7, 8, 9, -1, -4, 6, -2, -2], 6)
  {
    DemoUnion(ds, 2, 6, 7, 6, Forest([-1, 6, 7, 8, 9, -1, -4, 6, -2, -2], 6));
  }

  lemma DemoMax()
    requires Inv(DemoEnd())
    ensures MaxSetSize(DemoEnd()) == 4
  {
  }

  lemma DemoMin()
    ensures MinSetSize(DemoEnd()) == 2
  {
    var ar := [-1, 6, 7, 8, 9, -1, -4, 6, -2, -2];
    assert DemoEnd().ar == ar;
    assert MinLoop(ar, 10, -2) == -2;
    assert MinLoop(ar, 9, -2) == -2;
    assert MinLoop(ar, 8, -2) == -2;
    assert MinLoop(ar, 7, -4) == -2;
    assert MinLoop(ar, 6, -4) == -2;
    assert MinLoop(ar, 6, IntMin) == -2;
    assert MinLoop(ar, 0, IntMin) == MinLoop(ar, 6, IntMin);
  }

  /** The roots in the final state of the main method. */
  lemma DemoRoots(d: Forest)
    requires Inv(d) && d == DemoEnd()
    ensures Root(d.ar, 0) == 0 && Root(d.ar, 1) == 6 && Root(d.ar, 2) == 6 && Root(d.ar, 3) == 8
    ensures Root(d.ar, 4) == 9 && Root(d.ar, 5) == 5 && Root(d.ar, 6) == 6 && Root(d.ar, 7) == 6
    ensures Root(d.ar, 8) == 8 && Root(d.ar, 9) == 9
  {
    RootIs(d.ar, 0, 0);
    RootIs(d.ar, 1, 1);
    RootIs(d.ar, 2, 2);
    RootIs(d.ar, 3, 1);
    RootIs(d.ar, 4, 1);
    RootIs(d.ar, 5, 0);
    RootIs(d.ar, 6, 0);
    RootIs(d.ar, 7, 1);
    RootIs(d.ar, 8, 0);
    RootIs(d.ar, 9, 0);
  }

  lemma DemoSelect(d: Forest)
    requires Inv(d) && d == DemoEnd()
    ensures SelectSet(d, 6).0 == {1, 2, 6, 7}
  {
    DemoRoots(d);
    forall x: nat | x < |d.ar|
      ensures x in {1, 2, 6, 7} <==> SameSet(d, x, 6)
    {
      if x == 0 {} else if x == 1 {} else if x == 2 {} else if x == 3 {} else if x == 4 {}
      else if x == 5 {} else if x == 6 {} else if x == 7 {} else if x == 8 {} else {}
    }
    SelectSetIs(d, 6, {1, 2, 6, 7});
  }

  /** A set holding exactly the elements of k's set is what selectSet(k) returns. */
  lemma SelectSetIs(ds: Forest, k: nat, s: set<nat>)
    requires Inv(ds) && k < |ds.ar|
    requires forall x :: x in s ==> x < |ds.ar|
    requires forall x: nat :: x < |ds.ar| ==> (x in s <==> SameSet(ds, x, k))
    ensures SelectSet(ds, k).0 == s
  {
  }
}
