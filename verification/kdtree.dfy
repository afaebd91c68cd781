/**
  KDTree.java: a k-d tree of integer points. A node at depth d splits on
  coordinate d mod k: points whose coordinate there is smaller than the
  node's go left, the others right. nearestNeighbor walks down the side of
  the target first and crosses to the other side only when the splitting
  line is no farther than the best point found so far.

  A point is a non-empty list of coordinates (get on an empty one would
  divide by zero). Nodes are values, so a tree is a Tree value and adding
  returns the new tree.
 */
module KdTree {
  import opened Nullable
  import opened Sums

  /** KDPoint: its coordinates. */
  type Point = p: seq<int> | |p| > 0 witness [0]

  /** A null subtree, or a KDNode with its point and its two subtrees. */
  datatype Tree = Nil | Node(point: Point, left: Tree, right: Tree)

  /** depth mod n, counted off in steps of n. */
  function Cycle(depth: nat, n: nat): (j: nat)
    requires n > 0
    ensures j < n
  {
    if depth < n then depth else Cycle(depth - n, n)
  }

  /** Counting off in steps of n is the remainder of the division by n. */
  lemma {:induction false} CycleIsMod(depth: nat, n: nat)
    requires n > 0
    ensures Cycle(depth, n) == depth % n
  {
    if depth >= n {
      CycleIsMod(depth - n, n);
      ModShift(depth - n, n);
    }
  }

  /** KDPoint.get(depth): the coordinate depth mod the point's size. */
  function Get(p: Point, depth: nat): int
  {
    p[Cycle(depth, |p|)]
  }

  /** get reads coordinate depth % size; coordinates repeat every |p| levels, and the first |p| levels read them in order. */
  lemma GetCycles(p: Point, depth: nat)
    ensures Get(p, depth) == p[depth % |p|]
    ensures Get(p, depth + |p|) == Get(p, depth)
    ensures depth < |p| ==> Get(p, depth) == p[depth]
  {
    CycleIsMod(depth, |p|);
  }

  lemma ModShift(a: nat, n: nat)
    requires 0 < n
    ensures a % n == (a + n) % n
  {
    var q1, q2 := a / n, (a + n) / n;
    assert a == n * q1 + a % n;
    assert a + n == n * q2 + (a + n) % n;
    assert n * (q2 - q1 - 1) == n * q2 - n * q1 - n;
    ScaleBounds(n, q2 - q1 - 1);
  }

  /** The points stored in t. */
  function Points(t: Tree): multiset<Point>
  {
    match t
    case Nil => multiset{}
    case Node(p, l, r) => Points(l) + multiset{p} + Points(r)
  }

  /** Every point of t has k coordinates. */
  ghost predicate Dims(t: Tree, k: nat)
  {
    forall q :: q in Points(t) ==> |q| == k
  }

  /** Every point of t is smaller than x in coordinate depth. */
  ghost predicate Below(t: Tree, depth: nat, x: int)
  {
    forall q :: q in Points(t) ==> Get(q, depth) < x
  }

  /** No point of t is smaller than x in coordinate depth. */
  ghost predicate NotBelow(t: Tree, depth: nat, x: int)
  {
    forall q :: q in Points(t) ==> Get(q, depth) >= x
  }

  /**
    The k-d tree invariant for a subtree whose root is at the given depth:
    the left side is strictly smaller than the root in the root's
    coordinate, the right side is not, and so on all the way down.
   */
  ghost predicate Ordered(t: Tree, depth: nat)
  {
    match t
    case Nil => true
    case Node(p, l, r) =>
      Below(l, depth, Get(p, depth)) && NotBelow(r, depth, Get(p, depth)) &&
      Ordered(l, depth + 1) && Ordered(r, depth + 1)
  }

  /** t' keeps every node of t where it was, with the same point. */
  ghost predicate Keeps(t: Tree, t': Tree)
  {
    match t
    case Nil => true
    case Node(p, l, r) => t'.Node? && t'.point == p && Keeps(l, t'.left) && Keeps(r, t'.right)
  }

  /** Every tree keeps its own nodes. */
  lemma {:induction false} KeepsAll(t: Tree)
    ensures Keeps(t, t)
  {
    match t
    case Nil =>
    case Node(_, l, r) =>
      KeepsAll(l);
      KeepsAll(r);
  }

  /**
    KDNode.add(n, depth) on the subtree t, and KDTree.add at depth 0:
    an empty subtree becomes the new node; otherwise the point goes left
    when it is strictly smaller in the node's coordinate, else right.
    The new node is added as a leaf: every node already there stays where
    it was, one point is added, and the k-d invariant is kept.
   */
  function Insert(t: Tree, n: Point, depth: nat): (t': Tree)
    ensures Points(t') == Points(t) + multiset{n}
    ensures Keeps(t, t')
  {
    match t
    case Nil => Node(n, Nil, Nil)
    case Node(p, l, r) =>
      Added(Points(l), multiset{p}, Points(r), n);
      KeepsAll(l);
      KeepsAll(r);
      if Get(n, depth) < Get(p, depth) then Node(p, Insert(l, n, depth + 1), r)
      else Node(p, l, Insert(r, n, depth + 1))
  }

  /** One more value on the left or on the right is one more value in the whole. */
  lemma Added<T>(a: multiset<T>, b: multiset<T>, c: multiset<T>, n: T)
    ensures (a + multiset{n}) + b + c == a + b + c + multiset{n}
    ensures a + b + (c + multiset{n}) == a + b + c + multiset{n}
  {
    forall x
      ensures ((a + multiset{n}) + b + c)[x] == (a + b + c + multiset{n})[x]
    {
    }
    forall x
      ensures (a + b + (c + multiset{n}))[x] == (a + b + c + multiset{n})[x]
    {
    }
  }

  /** Adding a point keeps the k-d invariant. */
  lemma {:induction false} InsertKeepsOrder(t: Tree, n: Point, depth: nat)
    requires Ordered(t, depth)
    ensures Ordered(Insert(t, n, depth), depth)
  {
    match t
    case Nil =>
    case Node(p, l, r) =>
      var x := Get(p, depth);
      if Get(n, depth) < x {
        var l' := Insert(l, n, depth + 1);
        InsertKeepsOrder(l, n, depth + 1);
        forall q | q in Points(l')
          ensures Get(q, depth) < x
        {
          assert q in Points(l) || q == n;
        }
        assert Insert(t, n, depth) == Node(p, l', r);
      } else {
        var r' := Insert(r, n, depth + 1);
        InsertKeepsOrder(r, n, depth + 1);
        forall q | q in Points(r')
          ensures Get(q, depth) >= x
        {
          assert q in Points(r) || q == n;
        }
        assert Insert(t, n, depth) == Node(p, l, r');
      }
  }

  /** A tree of k-dimensional points stays one when the point added has k coordinates. */
  lemma InsertKeepsDims(t: Tree, n: Point, depth: nat)
    requires Dims(t, |n|)
    ensures Dims(Insert(t, n, depth), |n|)
  {
    forall q | q in Points(Insert(t, n, depth))
      ensures |q| == |n|
    {
      assert q in Points(t) || q == n;
    }
  }

  /**
    The KDTree(List) constructor: the first point becomes the root and
    the others are added in order. An empty list has no first point
    (the Java get(0) throws), so there is no tree.
   */
  method Build(points: seq<Point>) returns (t: Option<Tree>)
    ensures t.Some? <==> |points| > 0
    ensures t.Some? ==> Points(t.value) == multiset(points) && Ordered(t.value, 0)
    ensures t.Some? && SameSize(points) ==> Dims(t.value, |points[0]|)
  {
    if |points| == 0 {
      return None;
    }
    var root := Node(points[0], Nil, Nil);
    var i := 1;
    assert points[..1] == [points[0]];
    while i < |points|
      invariant 1 <= i && Built(root, points, i)
    {
      var next := Insert(root, points[i], 0);
      BuildStep(root, points, i, next);
      root, i := next, i + 1;
    }
    assert points[..i] == points;
    t := Some(root);
  }

  /** root holds the first i points as a k-d tree, of the same size when all the points are. */
  ghost predicate Built(root: Tree, points: seq<Point>, i: nat)
  {
    0 < i <= |points| && Points(root) == multiset(points[..i]) && Ordered(root, 0) &&
    (SameSize(points) ==> Dims(root, |points[0]|))
  }

  /** Adding the next point builds one more. */
  lemma BuildStep(root: Tree, points: seq<Point>, i: nat, next: Tree)
    requires i < |points| && Built(root, points, i) && next == Insert(root, points[i], 0)
    ensures Built(next, points, i + 1)
  {
    InsertKeepsOrder(root, points[i], 0);
    if SameSize(points) {
      InsertKeepsDims(root, points[i], 0);
    }
    PrefixPoints(points, i);
  }

  /** One more point of the list is one more point of the prefix. */
  lemma PrefixPoints(points: seq<Point>, i: nat)
    requires i < |points|
    ensures multiset(points[..i + 1]) == multiset(points[..i]) + multiset{points[i]}
  {
    assert points[..i + 1] == points[..i] + [points[i]];
  }

  /** All the points have the same number of coordinates. */
  ghost predicate SameSize(points: seq<Point>)
  {
    forall i :: 0 <= i < |points| ==> |points[i]| == |points[0]|
  }

  // ---------------------------------------------------------------------
  // Distances
  // ---------------------------------------------------------------------

  /** Math.pow(Math.abs(x), 2). */
  function Square(x: int): nat
  {
    Odds(if x < 0 then -x else x)
  }

  /**
    The sum of the first n odd numbers, which is n squared, as a plain
    recursive function.
   */
  function Odds(n: nat): nat
  {
    if n == 0 then 0 else Odds(n - 1) + 2 * n - 1
  }

  /** It is the product x * x. */
  lemma SquareIsProduct(x: int)
    ensures Square(x) == x * x
  {
    OddsSquare(if x < 0 then -x else x);
  }

  lemma {:induction false} OddsSquare(n: nat)
    ensures Odds(n) == n * n
  {
    if n > 0 {
      OddsSquare(n - 1);
      assert (n - 1) * (n - 1) == n * n - 2 * n + 1;
    }
  }

  /** A square ignores the sign, and is 0 only for 0. */
  lemma SquareSigns(d: int)
    ensures Square(d) == Square(-d)
    ensures Square(d) == 0 <==> d == 0
  {
  }

  /** The squared differences of the first n coordinates of p0 and p1 (p1 read through get). */
  function DistTo(p0: Point, p1: Point, n: nat): int
    requires n <= |p0|
  {
    if n == 0 then 0 else DistTo(p0, p1, n - 1) + Square(p0[n - 1] - Get(p1, n - 1))
  }

  /** The squared distance, over p0's coordinates. */
  function DistSq(p0: Point, p1: Point): int
  {
    DistTo(p0, p1, |p0|)
  }

  /** distSquared(p0, p1): the loop over p0's coordinates adding each squared difference. */
  method DistSquared(p0: Point, p1: Point) returns (total: int)
    ensures total == DistSq(p0, p1)
  {
    total := 0;
    var i := 0;
    while i < |p0|
      invariant 0 <= i <= |p0| && total == DistTo(p0, p1, i)
    {
      var diff := p0[i] - Get(p1, i);
      if diff < 0 {
        diff := -diff;
      }
      SquareIsProduct(diff);
      total := total + diff * diff;
      i := i + 1;
    }
  }

  /** Squares grow with the distance from 0. */
  lemma {:induction false} SquareGrows(a: int, b: int)
    requires 0 <= a <= b
    ensures Square(a) <= Square(b)
    decreases b - a
  {
    if a < b {
      SquareGrows(a, b - 1);
      assert Odds(b) >= Odds(b - 1);
    }
  }

  /** A sum of squared differences is at least each of its terms, and never negative. */
  lemma {:induction false} DistToBounds(p0: Point, p1: Point, n: nat, j: nat)
    requires n <= |p0|
    ensures DistTo(p0, p1, n) >= 0
    ensures j < n ==> DistTo(p0, p1, n) >= Square(p0[j] - Get(p1, j))
  {
    if n > 0 {
      DistToBounds(p0, p1, n - 1, j);
      SquareSigns(p0[n - 1] - Get(p1, n - 1));
    }
  }

  /** Between points of the same size the squared differences do not depend on the order. */
  lemma {:induction false} DistToSymmetric(p0: Point, p1: Point, n: nat)
    requires |p0| == |p1| && n <= |p0|
    ensures DistTo(p0, p1, n) == DistTo(p1, p0, n)
  {
    if n > 0 {
      DistToSymmetric(p0, p1, n - 1);
      GetCycles(p0, n - 1);
      GetCycles(p1, n - 1);
      SquareSigns(p0[n - 1] - p1[n - 1]);
    }
  }

  /** The squared differences vanish exactly when the first n coordinates agree. */
  lemma {:induction false} DistToZero(p0: Point, p1: Point, n: nat)
    requires |p0| == |p1| && n <= |p0|
    ensures DistTo(p0, p1, n) == 0 <==> p0[..n] == p1[..n]
  {
    if n > 0 {
      DistToZero(p0, p1, n - 1);
      DistToBounds(p0, p1, n - 1, 0);
      GetCycles(p1, n - 1);
      SquareSigns(p0[n - 1] - p1[n - 1]);
      assert p0[..n] == p0[..n - 1] + [p0[n - 1]] && p1[..n] == p1[..n - 1] + [p1[n - 1]];
    }
  }

  lemma DistSqMeasures(p0: Point, p1: Point, j: nat)
    requires |p0| == |p1|
    ensures DistSq(p0, p1) >= 0
    ensures j < |p0| ==> DistSq(p0, p1) >= Square(p0[j] - p1[j])
    ensures DistSq(p0, p1) == DistSq(p1, p0)
    ensures DistSq(p0, p1) == 0 <==> p0 == p1
  {
    DistToBounds(p0, p1, |p0|, j);
    DistToSymmetric(p0, p1, |p0|);
    DistToZero(p0, p1, |p0|);
    assert p0[..|p0|] == p0 && p1[..|p1|] == p1;
    if j < |p0| {
      GetCycles(p1, j);
    }
  }

  // ---------------------------------------------------------------------
  // Nearest neighbour
  // ---------------------------------------------------------------------

  /**
    closest(n0, n1, target): the one present when the other is null, and
    of two points n0 only when it is strictly closer, else n1.
   */
  function Closest(n0: Option<Point>, n1: Option<Point>, target: Point): (r: Option<Point>)
    ensures r == n0 || r == n1
    ensures r.None? <==> n0.None? && n1.None?
  {
    if n0.None? then n1
    else if n1.None? then n0
    else if DistSq(n0.value, target) < DistSq(n1.value, target) then n0
    else n1
  }

  /** closest keeps the point no farther from the target, and n1 of two equally far. */
  lemma ClosestIsCloser(n0: Option<Point>, n1: Option<Point>, target: Point)
    ensures var r := Closest(n0, n1, target);
      (r.Some? && n0.Some? ==> DistSq(r.value, target) <= DistSq(n0.value, target)) &&
      (r.Some? && n1.Some? ==> DistSq(r.value, target) <= DistSq(n1.value, target)) &&
      (n0.Some? && n1.Some? && DistSq(n0.value, target) == DistSq(n1.value, target) ==> r == n1)
  {
  }

  /**
    nearestNeighbor(t, target, depth): nothing in an empty subtree;
    otherwise the best of the target's side and the node, then the other
    side too when the squared distance to that best is at least the
    squared distance from the target to the splitting line.
   */
  function Nearest(t: Tree, target: Point, depth: nat): (r: Option<Point>)
    ensures r.None? <==> t.Nil?
    ensures r.Some? ==> r.value in Points(t)
  {
    match t
    case Nil => None
    case Node(p, l, r) =>
      var goLeft := Get(target, depth) < Get(p, depth);
      var best := Closest(Nearest(if goLeft then l else r, target, depth + 1), Some(p), target);
      var radiusSquared := DistSq(target, best.value);
      var dist := Get(target, depth) - Get(p, depth);
      if radiusSquared >= Square(dist) then Closest(Nearest(if goLeft then r else l, target, depth + 1), best, target)
      else best
  }

  /** p is at least as close to the target as every point of t. */
  ghost predicate Nearer(p: Point, t: Tree, target: Point)
  {
    forall q :: q in Points(t) ==> DistSq(p, target) <= DistSq(q, target)
  }

  /**
    In a k-d tree whose points and target all have k coordinates, the
    nearest-neighbour search finds a stored point no farther from the
    target than any other stored point.
   */
  lemma {:induction false} NearestIsNearest(t: Tree, target: Point, depth: nat)
    requires Dims(t, |target|) && Ordered(t, depth)
    ensures Nearest(t, target, depth).Some? ==> Nearer(Nearest(t, target, depth).value, t, target)
  {
    if t.Node? {
      SidesDims(t, |target|);
      NearestIsNearest(t.left, target, depth + 1);
      NearestIsNearest(t.right, target, depth + 1);
      var goLeft := Get(target, depth) < Get(t.point, depth);
      var next, other := if goLeft then t.left else t.right, if goLeft then t.right else t.left;
      var n1 := Nearest(next, target, depth + 1);
      var best := Closest(n1, Some(t.point), target);
      var dist := Get(target, depth) - Get(t.point, depth);
      var n2 := Nearest(other, target, depth + 1);
      var searched := Closest(n2, best, target);
      NearestUnfolds(t, target, depth, goLeft, next, other, best, dist, searched);
      NearerThanSide(n1, Some(t.point), next, target);
      if DistSq(target, best.value) >= Square(dist) {
        NearerThanSide(n2, best, other, target);
        NearerTrans(best.value, searched.value, next, target);
        NearerNode(searched.value, t, next, other, target);
      } else {
        PruneSound(other, t.point, target, depth, goLeft, best.value);
        NearerNode(best.value, t, next, other, target);
      }
    }
  }

  /**
    The pruning: when the best point so far is strictly closer than the
    splitting line, it is nearer than every point beyond the line.
   */
  lemma PruneSound(other: Tree, p: Point, target: Point, depth: nat, goLeft: bool, b: Point)
    requires Dims(other, |target|) && |p| == |target| && |b| == |target|
    requires goLeft <==> Get(target, depth) < Get(p, depth)
    requires goLeft ==> NotBelow(other, depth, Get(p, depth))
    requires !goLeft ==> Below(other, depth, Get(p, depth))
    requires DistSq(target, b) < Square(Get(target, depth) - Get(p, depth))
    ensures Nearer(b, other, target)
  {
    DistSqMeasures(target, b, 0);
    forall q | q in Points(other)
      ensures DistSq(b, target) <= DistSq(q, target)
    {
      FarSide(q, p, target, depth, goLeft);
    }
  }

  /** One step of the search, with its intermediate values named. */
  lemma NearestUnfolds(t: Tree, target: Point, depth: nat, goLeft: bool, next: Tree, other: Tree,
                       best: Option<Point>, dist: int, searched: Option<Point>)
    requires t.Node? && goLeft == (Get(target, depth) < Get(t.point, depth))
    requires next == (if goLeft then t.left else t.right) && other == (if goLeft then t.right else t.left)
    requires best == Closest(Nearest(next, target, depth + 1), Some(t.point), target)
    requires dist == Get(target, depth) - Get(t.point, depth)
    requires searched == Closest(Nearest(other, target, depth + 1), best, target)
    ensures Nearest(t, target, depth) == if DistSq(target, best.value) >= Square(dist) then searched else best
  {
  }

  /** The sides of a tree of k-dimensional points hold k-dimensional points. */
  lemma SidesDims(t: Tree, k: nat)
    requires t.Node? && Dims(t, k)
    ensures Dims(t.left, k) && Dims(t.right, k) && |t.point| == k
  {
  }

  /**
    The closer of a side's nearest point (if any) and another point is
    nearer than the whole side and no farther than that point.
   */
  lemma NearerThanSide(n0: Option<Point>, n1: Option<Point>, side: Tree, target: Point)
    requires n1.Some? && (n0.None? <==> side.Nil?)
    requires n0.Some? ==> Nearer(n0.value, side, target)
    ensures Nearer(Closest(n0, n1, target).value, side, target)
    ensures DistSq(Closest(n0, n1, target).value, target) <= DistSq(n1.value, target)
  {
    ClosestIsCloser(n0, n1, target);
  }

  /** A point no farther than one that is nearer than a side is nearer than it too. */
  lemma NearerTrans(x: Point, y: Point, side: Tree, target: Point)
    requires Nearer(x, side, target) && DistSq(y, target) <= DistSq(x, target)
    ensures Nearer(y, side, target)
  {
  }

  /** Nearer than both sides and no farther than the node's point: nearer than the tree. */
  lemma NearerNode(x: Point, t: Tree, a: Tree, b: Tree, target: Point)
    requires t.Node? && ((a == t.left && b == t.right) || (a == t.right && b == t.left))
    requires Nearer(x, a, target) && Nearer(x, b, target) && DistSq(x, target) <= DistSq(t.point, target)
    ensures Nearer(x, t, target)
  {
  }

  /**
    A point on the far side of the splitting line is at least as far from
    the target as the line is.
   */
  lemma FarSide(q: Point, p: Point, target: Point, depth: nat, goLeft: bool)
    requires |q| == |p| == |target|
    requires goLeft <==> Get(target, depth) < Get(p, depth)
    requires goLeft ==> Get(q, depth) >= Get(p, depth)
    requires !goLeft ==> Get(q, depth) < Get(p, depth)
    ensures DistSq(q, target) >= Square(Get(target, depth) - Get(p, depth))
  {
    var j := Cycle(depth, |q|);
    DistSqMeasures(q, target, j);
    var d := Get(target, depth) - Get(p, depth);
    if goLeft {
      SquareSigns(d);
      SquareGrows(-d, q[j] - target[j]);
    } else {
      SquareSigns(q[j] - target[j]);
      SquareGrows(d, target[j] - q[j]);
    }
  }

  /** KDTree.nearestNeighbor(target): the search from the root at depth 0. */
  function NearestNeighbor(root: Tree, target: Point): Option<Point>
  {
    Nearest(root, target, 0)
  }

  /**
    What the test compares against a linear scan: for a tree built from a
    non-empty list of points of the target's size, the search returns one
    of the points, and no point of the list is closer to the target.
   */
  lemma SearchMatchesScan(root: Tree, points: seq<Point>, target: Point)
    requires |points| > 0 && SameSize(points) && |target| == |points[0]|
    requires Points(root) == multiset(points) && Ordered(root, 0) && Dims(root, |points[0]|)
    ensures var r := NearestNeighbor(root, target);
      r.Some? && r.value in points &&
      forall i :: 0 <= i < |points| ==> DistSq(r.value, target) <= DistSq(points[i], target)
  {
    NearestIsNearest(root, target, 0);
    var r := NearestNeighbor(root, target);
    assert points[0] in multiset(points);
    assert r.value in multiset(points);
    forall i | 0 <= i < |points|
      ensures DistSq(r.value, target) <= DistSq(points[i], target)
    {
      assert points[i] in multiset(points);
    }
  }

  /**
    The main driver: five points added one by one to an empty tree, then
    the point nearest to (40, 40) is (48, 38), 68 away squared.
   */
  lemma MainExample(t: Tree)
    requires t == Insert(Insert(Insert(Insert(Insert(Nil, [50, 50], 0), [80, 40], 0), [10, 60], 0), [51, 38], 0), [48, 38], 0)
    ensures NearestNeighbor(t, [40, 40]) == Some([48, 38])
    ensures DistSq([48, 38], [40, 40]) == 68
  {
    var leaf := Node([48, 38], Nil, Nil);
    var left := Node([10, 60], leaf, Nil);
    assert Insert(Insert(Insert(Nil, [50, 50], 0), [80, 40], 0), [10, 60], 0) == Node([50, 50], Node([10, 60], Nil, Nil), Node([80, 40], Nil, Nil));
    assert t == Node([50, 50], left, Node([80, 40], Node([51, 38], Nil, Nil), Nil));
    SquareIsProduct(8);
    SquareIsProduct(2);
    assert DistSq([48, 38], [40, 40]) == 68 && DistSq([40, 40], [48, 38]) == 68;
    assert Nearest(leaf, [40, 40], 2) == Some([48, 38]);
    SquareIsProduct(20);
    assert Nearest(left, [40, 40], 1) == Some([48, 38]);
    SquareIsProduct(10);
  }
}
