/** The k-d tree of base/anns.cc: built around medians, searched with pruning. */
module KdTree {

  import opened KdShape
  import opened Powers

  type Point = seq<real>

  datatype Code = Ok | InvalidParam | InternalError

  const MAX_DEPTH: nat := 64

  // --- distances, by their squares

  function Square(x: real): real { x * x }

  function Dist(p: Point, q: Point): (d: real)
    requires |p| == |q|
  {
    if p == [] then 0.0 else Square(p[0] - q[0]) + Dist(p[1..], q[1..])
  }

  /** The sums of the first axes, one axis after the other, each entering alike. */
  ghost predicate Sums(p: Point, q: Point, sums: seq<real>) {
    && |p| == |q| && |sums| == |p| + 1 && sums[0] == 0.0
    && forall i :: 0 <= i < |p| ==> sums[i + 1] == sums[i] + (p[i] - q[i]) * (p[i] - q[i])
  }

  ghost predicate Measures(d: real, p: Point, q: Point) {
    exists sums: seq<real> :: Sums(p, q, sums) && sums[|p|] == d
  }

  /** Every axis enters the distance alike: one more axis adds the product of its difference with itself. */
  lemma {:induction false} DistAxis(p: Point, q: Point, x: real, y: real)
    requires |p| == |q|
    ensures Dist([], []) == 0.0 && Dist(p + [x], q + [y]) == Dist(p, q) + (x - y) * (x - y)
    decreases |p|
  {
    if p == [] {
      assert p + [x] == [x] && q + [y] == [y];
      assert Dist([x], [y]) == Square(x - y) + Dist([], []);
    } else {
      DistAxis(p[1..], q[1..], x, y);
      assert (p + [x])[1..] == p[1..] + [x] && (q + [y])[1..] == q[1..] + [y];
    }
  }

  lemma {:induction false} SumsEnd(p: Point, q: Point, sums: seq<real>)
    requires Sums(p, q, sums)
    ensures sums[|p|] == Dist(p, q)
    decreases |p|
  {
    hide Dist, Square;
    if p == [] {
      DistAxis(p, q, 0.0, 0.0);
      assert q == [];
    } else {
      var n := |p| - 1;
      SumsEnd(p[..n], q[..n], sums[..|p|]);
      DistAxis(p[..n], q[..n], p[n], q[n]);
      assert p == p[..n] + [p[n]] && q == q[..n] + [q[n]];
      assert sums[n + 1] == sums[n] + (p[n] - q[n]) * (p[n] - q[n]);
    }
  }

  lemma {:induction false} SumsOf(p: Point, q: Point) returns (sums: seq<real>)
    requires |p| == |q|
    ensures Sums(p, q, sums)
    decreases |p|
  {
    if p == [] {
      sums := [0.0];
    } else {
      var n := |p| - 1;
      var front := SumsOf(p[..n], q[..n]);
      sums := front + [front[n] + (p[n] - q[n]) * (p[n] - q[n])];
      forall i | 0 <= i < |p| ensures sums[i + 1] == sums[i] + (p[i] - q[i]) * (p[i] - q[i]) {
        if i < n {
          assert front[i + 1] == front[i] + (p[..n][i] - q[..n][i]) * (p[..n][i] - q[..n][i]);
        }
      }
    }
  }

  /** The distance is the sum over the axes and nothing else is. */
  lemma DistMeasures(p: Point, q: Point, d: real)
    requires |p| == |q|
    ensures Measures(d, p, q) <==> d == Dist(p, q)
  {
    hide Dist;
    var sums := SumsOf(p, q);
    SumsEnd(p, q, sums);
    if Measures(d, p, q) {
      var s: seq<real> :| Sums(p, q, s) && s[|p|] == d;
      SumsEnd(p, q, s);
    }
  }

  /** The square of the distance; points of different sizes have none. */
  method CalculateDistance(p: Point, q: Point) returns (code: Code, dist: real)
    ensures code == (if |p| == |q| then Ok else InvalidParam)
    ensures |p| == |q| ==> Measures(dist, p, q) && dist == Dist(p, q)
  {
    hide Dist, Measures;
    code, dist := InvalidParam, 0.0;
    if |p| != |q| { return; }
    DistAxis([], [], 0.0, 0.0);
    var i := 0;
    while i < |p|
      invariant 0 <= i <= |p| && dist == Dist(p[..i], q[..i])
    {
      DistAxis(p[..i], q[..i], p[i], q[i]);
      assert p[..i + 1] == p[..i] + [p[i]] && q[..i + 1] == q[..i] + [q[i]];
      dist := dist + (p[i] - q[i]) * (p[i] - q[i]);
      i := i + 1;
    }
    assert p[..i] == p && q[..i] == q;
    DistMeasures(p, q, dist);
    code := Ok;
  }

  lemma SquarePositive(x: real)
    ensures Square(x) >= 0.0
  {}

  lemma {:induction false} DistPositive(p: Point, q: Point)
    requires |p| == |q|
    ensures Dist(p, q) >= 0.0
    decreases |p|
  {
    if p != [] {
      SquarePositive(p[0] - q[0]);
      DistPositive(p[1..], q[1..]);
    }
  }

  /** No point is nearer than its distance along one axis. */
  lemma {:induction false} AxisBound(p: Point, q: Point, axis: nat)
    requires axis < |p| == |q|
    ensures Dist(p, q) >= Square(p[axis] - q[axis])
    decreases |p|
  {
    hide Square;
    if axis == 0 {
      DistPositive(p[1..], q[1..]);
    } else {
      SquarePositive(p[0] - q[0]);
      AxisBound(p[1..], q[1..], axis - 1);
    }
  }

  lemma SquareGrows(x: real, y: real)
    requires 0.0 <= x <= y || y <= x <= 0.0
    ensures Square(x) <= Square(y)
  {
    assert y * y - x * x == (y - x) * (y + x);
    assert 0.0 <= x ==> (y - x) * (y + x) >= 0.0;
  }

  /** The smallest distance so far, none before the first point. */
  datatype Best = Infinite | At(dist: real)

  predicate Nearer(d: real, best: Best) { best.Infinite? || d < best.dist }

  // --- trees

  ghost predicate NotAbove(points: multiset<Point>, p: Point, axis: nat, k: nat)
    requires axis < k == |p|
  {
    forall q :: q in points ==> |q| == k && q[axis] <= p[axis]
  }

  ghost predicate NotBelow(points: multiset<Point>, p: Point, axis: nat, k: nat)
    requires axis < k == |p|
  {
    forall q :: q in points ==> |q| == k && q[axis] >= p[axis]
  }

  /** On each side of a node the split coordinate is on that side or equal. */
  ghost predicate Split(t: Tree<Point>, depth: nat, k: nat)
    requires k > 0
  {
    match t
    case Leaf => true
    case Branch(p, l, r) =>
      && |p| == k && Split(l, depth + 1, k) && Split(r, depth + 1, k)
      && NotAbove(Points(l), p, Axis(depth, k), k) && NotBelow(Points(r), p, Axis(depth, k), k)
  }

  lemma SplitParts(t: Tree<Point>, depth: nat, k: nat)
    requires k > 0 && Split(t, depth, k) && t.Branch?
    ensures |t.point| == k && Split(t.left, depth + 1, k) && Split(t.right, depth + 1, k)
    ensures NotAbove(Points(t.left), t.point, Axis(depth, k), k)
    ensures NotBelow(Points(t.right), t.point, Axis(depth, k), k)
    ensures Points(t) == multiset{t.point} + Points(t.left) + Points(t.right)
    ensures Height(t.left) < Height(t) && Height(t.right) < Height(t)
  {
    hide Axis, NotAbove, NotBelow;
  }

  ghost function TreeOf(node: Node?<Point>): Tree<Point>
    reads node
  {
    if node == null then Leaf else node.tree
  }

  // --- searching

  /** No point of the multiset is nearer than `best`. */
  ghost predicate NoneNearer(points: multiset<Point>, query: Point, best: Best) {
    forall p :: p in points ==> |p| == |query| && !Nearer(Dist(p, query), best)
  }

  /** The state of the search went from `best` to `best'` by looking at the points. */
  ghost predicate Searched(points: multiset<Point>, query: Point, p: Point, best: Best, p': Point, best': Best) {
    && NoneNearer(points, query, best')
    && ((p' == p && best' == best)
        || (p' in points && |p'| == |query| && best' == At(Dist(p', query)) && Nearer(best'.dist, best)))
  }

  lemma SearchedOne(q: Point, query: Point, p: Point, best: Best, p': Point, best': Best)
    requires |q| == |query|
    requires if Nearer(Dist(q, query), best) then p' == q && best' == At(Dist(q, query)) else p' == p && best' == best
    ensures Searched(multiset{q}, query, p, best, p', best')
  {}

  lemma SearchedThen(a: multiset<Point>, b: multiset<Point>, query: Point, p: Point, best: Best,
                     p': Point, best': Best, p'': Point, best'': Best)
    requires Searched(a, query, p, best, p', best') && Searched(b, query, p', best', p'', best'')
    ensures Searched(a + b, query, p, best, p'', best'')
  {
    hide Dist;
  }

  /** Beyond an axis at least as far away as the best nothing is nearer. */
  lemma Pruned(points: multiset<Point>, p: Point, query: Point, axis: nat, best: Best)
    requires axis < |query| == |p| && !Nearer(Square(query[axis] - p[axis]), best)
    requires if query[axis] < p[axis] then NotBelow(points, p, axis, |p|) else NotAbove(points, p, axis, |p|)
    ensures NoneNearer(points, query, best)
  {
    hide Dist, Square;
    forall q | q in points
      ensures |q| == |query| && !Nearer(Dist(q, query), best)
    {
      AxisBound(q, query, axis);
      Opposite(query[axis], p[axis]);
      if query[axis] < p[axis] {
        SquareGrows(p[axis] - query[axis], q[axis] - query[axis]);
      } else {
        SquareGrows(p[axis] - query[axis], q[axis] - query[axis]);
      }
    }
  }

  lemma Opposite(x: real, y: real)
    ensures Square(x - y) == Square(y - x)
  {}

  lemma SearchedNone(points: multiset<Point>, query: Point, p: Point, best: Best)
    requires NoneNearer(points, query, best)
    ensures Searched(points, query, p, best, p, best)
  {}

  /** A nearest one of the points. */
  ghost predicate Nearest(points: multiset<Point>, query: Point, p: Point) {
    && p in points && |p| == |query|
    && forall q :: q in points ==> |q| == |query| && Dist(p, query) <= Dist(q, query)
  }

  /** By the sums over the axes, p is not farther than any of the points. */
  ghost predicate LeastSum(points: multiset<Point>, query: Point, p: Point) {
    forall q, d, e :: q in points && Measures(d, p, query) && Measures(e, q, query) ==> d <= e
  }

  lemma NearestLeast(points: multiset<Point>, query: Point, p: Point)
    requires Nearest(points, query, p)
    ensures |p| == |query| && LeastSum(points, query, p)
  {
    hide Dist, Measures;
    forall q, d, e | q in points && Measures(d, p, query) && Measures(e, q, query)
      ensures d <= e
    {
      DistMeasures(p, query, d);
      DistMeasures(q, query, e);
    }
  }

  // --- sorting by a coordinate

  ghost predicate SortedBy(s: seq<Point>, axis: nat) {
    && (forall i :: 0 <= i < |s| ==> axis < |s[i]|)
    && forall i, j :: 0 <= i < j < |s| ==> s[i][axis] <= s[j][axis]
  }

  function Put(s: seq<Point>, i: nat, p: Point): seq<Point>
    requires i <= |s|
  {
    s[..i] + [p] + s[i..]
  }

  /** Stands for the library's sort: of its result only the contract is used. */
  method SortBy(s: seq<Point>, axis: nat) returns (sorted: seq<Point>)
    requires forall i :: 0 <= i < |s| ==> axis < |s[i]|
    ensures SortedBy(sorted, axis) && multiset(sorted) == multiset(s)
  {
    hide SortedBy, Put;
    sorted := [];
    var n := 0;
    SortedEmpty(axis);
    while n < |s|
      invariant 0 <= n <= |s| && SortedBy(sorted, axis) && multiset(sorted) == multiset(s[..n])
    {
      var i := FindPlace(sorted, s[n], axis);
      PutSorted(sorted, i, s[n], axis);
      PutPoints(sorted, i, s[n]);
      PutLast(s, n);
      sorted := Put(sorted, i, s[n]);
      n := n + 1;
    }
    assert s[..n] == s;
  }

  method FindPlace(s: seq<Point>, p: Point, axis: nat) returns (i: nat)
    requires SortedBy(s, axis) && axis < |p|
    ensures i <= |s| && forall j :: i <= j < |s| ==> p[axis] <= s[j][axis]
    ensures i <= |s| && forall j :: 0 <= j < i ==> s[j][axis] <= p[axis]
  {
    i := |s|;
    while i > 0 && s[i - 1][axis] > p[axis]
      invariant 0 <= i <= |s| && forall j :: i <= j < |s| ==> p[axis] <= s[j][axis]
    {
      i := i - 1;
    }
  }

  lemma SortedEmpty(axis: nat)
    ensures SortedBy([], axis)
  {}

  lemma PutSorted(s: seq<Point>, i: nat, p: Point, axis: nat)
    requires SortedBy(s, axis) && i <= |s| && axis < |p|
    requires forall j :: i <= j < |s| ==> p[axis] <= s[j][axis]
    requires forall j :: 0 <= j < i ==> s[j][axis] <= p[axis]
    ensures SortedBy(Put(s, i, p), axis)
  {
    hide Put;
    var t := Put(s, i, p);
    PutAt(s, i, p);
    forall a, b | 0 <= a < b < |t|
      ensures axis < |t[a]| && axis < |t[b]| && t[a][axis] <= t[b][axis]
    {
    }
    assert forall a :: 0 <= a < |t| ==> axis < |t[a]|;
  }

  lemma PutAt(s: seq<Point>, i: nat, p: Point)
    requires i <= |s|
    ensures |Put(s, i, p)| == |s| + 1
    ensures forall j {:trigger Put(s, i, p)[j]} :: 0 <= j < |s| + 1 ==>
      Put(s, i, p)[j] == if j < i then s[j] else if j == i then p else s[j - 1]
  {}

  lemma PutPoints(s: seq<Point>, i: nat, p: Point)
    requires i <= |s|
    ensures multiset(Put(s, i, p)) == multiset(s) + multiset{p}
  {
    assert s == s[..i] + s[i..];
  }

  lemma PutLast(s: seq<Point>, n: nat)
    requires n < |s|
    ensures multiset(s[..n + 1]) == multiset(s[..n]) + multiset{s[n]}
  {
    assert s[..n + 1] == s[..n] + [s[n]];
  }

  // --- building

  ghost predicate Uniform(points: seq<Point>, k: nat) {
    k > 0 && forall i :: 0 <= i < |points| ==> |points[i]| == k
  }

  lemma Halved(n: nat, m: nat, depth: nat)
    requires 0 < m <= n / 2 && depth <= MAX_DEPTH && n < Pow2(MAX_DEPTH + 1 - depth)
    ensures depth < MAX_DEPTH && m < Pow2(MAX_DEPTH - depth)
  {}

  lemma UniformPart(points: seq<Point>, part: seq<Point>, k: nat)
    requires Uniform(points, k) && multiset(part) <= multiset(points)
    ensures Uniform(part, k)
  {
    forall i | 0 <= i < |part|
      ensures |part[i]| == k
    {
      assert part[i] in multiset(part);
      assert part[i] in points;
    }
  }

  lemma Parts(sorted: seq<Point>, median: nat)
    requires median < |sorted|
    ensures multiset(sorted) ==
      multiset{sorted[median]} + multiset(sorted[..median]) + multiset(sorted[median + 1..])
  {
    assert sorted == sorted[..median] + [sorted[median]] + sorted[median + 1..];
  }

  lemma LeftSide(sorted: seq<Point>, axis: nat, k: nat, median: nat)
    requires Uniform(sorted, k) && SortedBy(sorted, axis) && axis < k && median < |sorted|
    ensures NotAbove(multiset(sorted[..median]), sorted[median], axis, k)
  {
    var l, p := sorted[..median], sorted[median];
    forall q | q in multiset(l)
      ensures |q| == k && q[axis] <= p[axis]
    {
      assert q in l;
      var j :| 0 <= j < median && sorted[j] == q;
    }
  }

  lemma RightSide(sorted: seq<Point>, axis: nat, k: nat, median: nat)
    requires Uniform(sorted, k) && SortedBy(sorted, axis) && axis < k && median < |sorted|
    ensures NotBelow(multiset(sorted[median + 1..]), sorted[median], axis, k)
  {
    var r, p := sorted[median + 1..], sorted[median];
    forall q | q in multiset(r)
      ensures |q| == k && q[axis] >= p[axis]
    {
      assert q in r;
      var j :| 0 <= j < |r| && r[j] == q;
      assert sorted[median + 1 + j] == q;
    }
  }

  lemma Joined(p: Point, l: Tree<Point>, r: Tree<Point>, depth: nat, k: nat)
    requires k > 0 && Split(l, depth + 1, k) && Split(r, depth + 1, k) && |p| == k
    requires NotAbove(Points(l), p, Axis(depth, k), k) && NotBelow(Points(r), p, Axis(depth, k), k)
    requires depth + 1 + Height(l) <= MAX_DEPTH + 1 && depth + 1 + Height(r) <= MAX_DEPTH + 1
    ensures Split(Branch(p, l, r), depth, k) && depth + Height(Branch(p, l, r)) <= MAX_DEPTH + 1
    ensures Points(Branch(p, l, r)) == multiset{p} + Points(l) + Points(r)
  {
    hide Axis, NotAbove, NotBelow;
  }

  /** The state a built subtree is in. */
  ghost predicate Built(node: Node<Point>, points: multiset<Point>, depth: nat, k: nat)
    reads node, node.repr
  {
    && k > 0 && node.Valid() && Split(node.tree, depth, k) && Points(node.tree) == points
    && depth + Height(node.tree) <= MAX_DEPTH + 1
  }

  /** A child, or nothing where there are no points. */
  ghost predicate BuiltOrNone(node: Node?<Point>, points: multiset<Point>, depth: nat, k: nat)
    reads node, if node == null then {} else node.repr
  {
    if node == null then points == multiset{} && depth <= MAX_DEPTH + 1 else Built(node, points, depth, k)
  }

  /** The points are acceptable: there are some, of one positive number of coordinates. */
  ghost predicate Acceptable(points: seq<Point>) {
    points != [] && Uniform(points, |points[0]|)
  }

  method CheckPoints(points: seq<Point>) returns (ok: bool)
    ensures ok == Acceptable(points)
  {
    if |points| == 0 || |points[0]| == 0 { return false; }
    var k, i := |points[0]|, 0;
    while i < |points|
      invariant 0 <= i <= |points| && forall j :: 0 <= j < i ==> |points[j]| == k
    {
      if |points[i]| != k { return false; }
      i := i + 1;
    }
    ok := true;
  }

  /** Builds the subtree of the points; `sorted` is what becomes of the caller's vector. */
  method InitInternal(points: seq<Point>, depth: nat)
    returns (code: Code, build: Node?<Point>, sorted: seq<Point>)
    ensures multiset(sorted) == multiset(points)
    ensures code == (if build != null then Ok else InvalidParam)
    ensures code == Ok ==> Acceptable(points) && Built(build, multiset(points), depth, |points[0]|) && fresh(build.repr)
    ensures Acceptable(points) && depth <= 64 && |points| < Pow2(65 - depth) ==> code == Ok
    decreases |points|, 1
  {
    hide SortedBy, Axis, NotAbove, NotBelow, Split, Points, Height, Pow2, Uniform;
    code, build, sorted := InvalidParam, null, points;
    if |points| == 0 || depth > MAX_DEPTH { return; }
    var ok := CheckPoints(points);
    if !ok { return; }
    var k := |points[0]|;
    UniformIs(points, k);
    var axis := Axis(depth, k);
    sorted := SortBy(points, axis);
    SameSize(points, sorted);
    UniformPart(points, sorted, k);
    UniformIs(sorted, k);
    var median := |sorted| / 2;
    var node := new Node(sorted[median]);
    var ret, left, right := Children(sorted, median, depth, k);
    if ret != Ok { return; }
    Parts(sorted, median);
    LeftSide(sorted, axis, k, median);
    RightSide(sorted, axis, k, median);
    Hang(node, left, right, multiset(sorted[..median]), multiset(sorted[median + 1..]), depth, k);
    code, build := Ok, node;
  }

  lemma UniformIs(points: seq<Point>, k: nat)
    requires Uniform(points, k)
    ensures k > 0 && forall i :: 0 <= i < |points| ==> |points[i]| == k
  {}

  /** Builds the two subtrees below a median. */
  method Children(sorted: seq<Point>, median: nat, depth: nat, k: nat)
    returns (code: Code, left: Node?<Point>, right: Node?<Point>)
    requires Uniform(sorted, k) && median == |sorted| / 2 < |sorted| && depth <= MAX_DEPTH
    ensures code == Ok || code == InvalidParam
    ensures code == Ok ==> BuiltOrNone(left, multiset(sorted[..median]), depth + 1, k)
    ensures code == Ok ==> BuiltOrNone(right, multiset(sorted[median + 1..]), depth + 1, k)
    ensures code == Ok && left != null ==> fresh(left.repr)
    ensures code == Ok && right != null ==> fresh(right.repr)
    ensures code == Ok && left != null && right != null ==> left.repr !! right.repr
    ensures |sorted| < Pow2(MAX_DEPTH + 1 - depth) ==> code == Ok
    decreases |sorted|, 0
  {
    hide Split, Points, Height, Pow2, Uniform;
    code, left, right := Ok, null, null;
    UniformIs(sorted, k);
    Parts(sorted, median);
    var l, r := sorted[..median], sorted[median + 1..];
    UniformPart(sorted, l, k);
    UniformPart(sorted, r, k);
    UniformIs(l, k);
    UniformIs(r, k);
    if |sorted| < Pow2(MAX_DEPTH + 1 - depth) {
      if |l| > 0 { Halved(|sorted|, |l|, depth); }
      if |r| > 0 { Halved(|sorted|, |r|, depth); }
    }
    if median > 0 {
      var ret, child, _ := InitInternal(l, depth + 1);
      if ret != Ok { return ret, null, null; }
      left := child;
    }
    if median + 1 < |sorted| {
      var ret, child, _ := InitInternal(r, depth + 1);
      if ret != Ok { return ret, null, null; }
      right := child;
    }
  }

  /** Hangs the two subtrees below their node. */
  method Hang(node: Node<Point>, left: Node?<Point>, right: Node?<Point>,
              ghost l: multiset<Point>, ghost r: multiset<Point>, depth: nat, k: nat)
    requires k > 0 && depth <= MAX_DEPTH && |node.point| == k
    requires node.Valid() && node.left == null && node.right == null && node.repr == {node}
    requires BuiltOrNone(left, l, depth + 1, k) && BuiltOrNone(right, r, depth + 1, k)
    requires (left != null ==> node !in left.repr) && (right != null ==> node !in right.repr)
    requires left != null && right != null ==> left.repr !! right.repr
    requires NotAbove(l, node.point, Axis(depth, k), k) && NotBelow(r, node.point, Axis(depth, k), k)
    modifies node
    ensures Built(node, multiset{node.point} + l + r, depth, k)
    ensures node.repr == {node} + (if left == null then {} else left.repr) + if right == null then {} else right.repr
  {
    hide Axis, NotAbove, NotBelow, Split, Points, Height;
    Nothing(depth + 1, k);
    if left != null {
      node.Halves();
      node.SetLeft(left);
    }
    if right != null {
      node.Halves();
      node.SetRight(right);
    }
    Joined(node.point, TreeOf(left), TreeOf(right), depth, k);
  }

  lemma Nothing(depth: nat, k: nat)
    requires k > 0
    ensures Split(Leaf, depth, k) && Points<Point>(Leaf) == multiset{} && Height<Point>(Leaf) == 0
  {}

  lemma SameSize(s: seq<Point>, t: seq<Point>)
    requires multiset(s) == multiset(t)
    ensures |s| == |t|
  {
    assert |multiset(s)| == |s| && |multiset(t)| == |t|;
  }

  // --- the search and its specification

  /** The linear scan: the first point at the least distance. */
  method BruteForceANNS(data: seq<Point>, query: Point) returns (code: Code, nearest: Point)
    ensures code == Ok <==> data != [] && forall i :: 0 <= i < |data| ==> |data[i]| == |query|
    ensures code == Ok ==> Nearest(multiset(data), query, nearest) && LeastSum(multiset(data), query, nearest)
    ensures code == Ok ==>
      exists i :: 0 <= i < |data| && data[i] == nearest && forall j :: 0 <= j < i ==>
        Dist(data[j], query) > Dist(nearest, query)
  {
    hide Dist, Measures;
    code, nearest := InvalidParam, [];
    if |data| == 0 { return; }
    var minDist := Infinite;
    var bestIdx := 0;
    var i := 0;
    while i < |data|
      invariant 0 <= i <= |data| && forall j :: 0 <= j < i ==> |data[j]| == |query|
      invariant i > 0 ==> 0 <= bestIdx < i && minDist == At(Dist(data[bestIdx], query))
      invariant i == 0 ==> minDist == Infinite
      invariant forall j :: 0 <= j < i ==> !Nearer(Dist(data[j], query), minDist)
      invariant forall j :: 0 <= j < bestIdx && bestIdx < i ==> Dist(data[j], query) > Dist(data[bestIdx], query)
    {
      var ret, dist := CalculateDistance(data[i], query);
      if ret != Ok { return; }
      if Nearer(dist, minDist) {
        minDist, bestIdx := At(dist), i;
      }
      i := i + 1;
    }
    code, nearest := Ok, data[bestIdx];
    forall q | q in multiset(data)
      ensures |q| == |query| && Dist(nearest, query) <= Dist(q, query)
    {
      assert q in data;
    }
    NearestLeast(multiset(data), query, nearest);
  }

  /** Whatever two nearest points are picked, they are equally near. */
  lemma NearestAgree(points: multiset<Point>, query: Point, p: Point, q: Point)
    requires Nearest(points, query, p) && Nearest(points, query, q)
    ensures Dist(p, query) == Dist(q, query)
  {}

  lemma FoundNearest(points: multiset<Point>, query: Point, p: Point, p': Point, best': Best)
    requires Searched(points, query, p, Infinite, p', best') && points != multiset{}
    ensures Nearest(points, query, p') && best' == At(Dist(p', query))
  {
    hide Dist;
    var q :| q in points;
    assert !Nearer(Dist(q, query), best');
  }

  method NearestNeighborInternal(node: Node?<Point>, query: Point, depth: nat, best: Point, bestDist: Best,
      ghost k: nat)
    returns (code: Code, best': Point, bestDist': Best)
    requires k > 0 && (node != null ==> node.Valid()) && Split(TreeOf(node), depth, k)
    ensures |query| == k && depth + Height(TreeOf(node)) <= 65 ==> code == Ok
    ensures node != null && |query| != k ==> code != Ok
    ensures code == Ok ==> Searched(Points(TreeOf(node)), query, best, bestDist, best', bestDist')
    decreases TreeOf(node)
  {
    hide Split, Searched, NoneNearer, Dist, Axis, NotAbove, NotBelow, Square, Points, Height, Measures;
    code, best', bestDist' := Ok, best, bestDist;
    if node == null {
      SearchedNothing(query, best, bestDist);
      return;
    }
    SplitParts(node.tree, depth, k);
    if depth > MAX_DEPTH { return InternalError, best, bestDist; }
    if |query| != |node.point| { return InvalidParam, best, bestDist; }
    var axis := Axis(depth, |query|);
    var ret, dist := CalculateDistance(node.point, query);
    if ret != Ok { return ret, best, bestDist; }
    if Nearer(dist, bestDist) {
      bestDist', best' := At(dist), node.point;
    }
    SearchedOne(node.point, query, best, bestDist, best', bestDist');
    ghost var p1, d1 := best', bestDist';
    var goLeft := query[axis] < node.point[axis];
    var first, second := if goLeft then node.left else node.right, if goLeft then node.right else node.left;
    ghost var a, b := Points(TreeOf(first)), Points(TreeOf(second));
    code, best', bestDist' := NearestNeighborInternal(first, query, depth + 1, best', bestDist', k);
    if code != Ok { return; }
    ghost var p2, d2 := best', bestDist';
    if Nearer(Square(query[axis] - node.point[axis]), bestDist') {
      code, best', bestDist' := NearestNeighborInternal(second, query, depth + 1, best', bestDist', k);
      if code != Ok { return; }
    } else {
      Pruned(b, node.point, query, axis, bestDist');
      SearchedNone(b, query, best', bestDist');
    }
    SearchedThrice(node.tree, a, b, query, best, bestDist, p1, d1, p2, d2, best', bestDist');
  }

  lemma SearchedThrice(t: Tree<Point>, a: multiset<Point>, b: multiset<Point>, query: Point, p: Point, best: Best,
                       p1: Point, d1: Best, p2: Point, d2: Best, p': Point, best': Best)
    requires t.Branch?
    requires (a == Points(t.left) && b == Points(t.right)) || (a == Points(t.right) && b == Points(t.left))
    requires Searched(multiset{t.point}, query, p, best, p1, d1) && Searched(a, query, p1, d1, p2, d2)
    requires Searched(b, query, p2, d2, p', best')
    ensures Searched(Points(t), query, p, best, p', best')
  {
    hide Searched;
    SearchedThen(multiset{t.point}, a, query, p, best, p1, d1, p2, d2);
    SearchedThen(multiset{t.point} + a, b, query, p, best, p2, d2, p', best');
    assert Points(t) == multiset{t.point} + a + b;
  }

  lemma SearchedNothing(query: Point, p: Point, best: Best)
    ensures Searched(Points(Leaf), query, p, best, p, best)
  {}

  lemma DoubledRoom(n: nat)
    requires n < Pow2(64)
    ensures n < Pow2(65 - 0)
  {}

  class KDTree {
    var points: seq<Point>
    var root: Node?<Point>

    constructor (points: seq<Point>)
      ensures this.points == points && root == null
    {
      this.points, root := points, null;
    }

    ghost predicate Valid()
      reads this, root, if root == null then {} else root.repr
    {
      root != null ==> Acceptable(points) && Built(root, multiset(points), 0, |points[0]|)
    }

    /** Builds the tree; the points are as many as a machine can hold. */
    method Init() returns (code: Code)
      requires |points| < Pow2(64)
      modifies this
      ensures Valid() && multiset(points) == multiset(old(points))
      ensures code == (if Acceptable(old(points)) then Ok else InvalidParam) && (code == Ok <==> root != null)
    {
      hide Uniform, Built, Pow2;
      var k := if points == [] then 0 else |points[0]|;
      DoubledRoom(|points|);
      code, root, points := InitInternal(points, 0);
      SameSize(old(points), points);
      if code == Ok {
        UniformPart(old(points), points, k);
        UniformIs(points, k);
      }
    }

    /** A nearest point and (the square of) its distance. */
    method NearestNeighbor(query: Point, best: Point) returns (code: Code, best': Point, bestDist: Best)
      requires Valid()
      ensures code == Ok <==> root != null && |query| == |points[0]|
      ensures code == Ok ==> Nearest(multiset(points), query, best') && bestDist == At(Dist(best', query))
      ensures code == Ok ==> LeastSum(multiset(points), query, best') && Measures(bestDist.dist, best', query)
    {
      hide Nearest, Searched, Split, LeastSum, Measures;
      code, best', bestDist := InvalidParam, best, Infinite;
      if root == null || |query| == 0 { return; }
      code, best', bestDist := NearestNeighborInternal(root, query, 0, best, bestDist, |points[0]|);
      if code == Ok {
        assert points[0] in multiset(points);
        FoundNearest(multiset(points), query, best, best', bestDist);
        NearestLeast(multiset(points), query, best');
        DistMeasures(best', query, bestDist.dist);
      }
    }
  }
}
