/** The k-dimensional tree of base/bkd_tree.h and its range search. */
module BkdTree {

  import opened KdShape

  type Point = seq<int>

  ghost predicate Smaller(points: multiset<Point>, p: Point, dim: nat, k: nat)
    requires dim < k <= |p|
  {
    forall q :: q in points ==> |q| >= k && q[dim] < p[dim]
  }

  ghost predicate NotSmaller(points: multiset<Point>, p: Point, dim: nat, k: nat)
    requires dim < k <= |p|
  {
    forall q :: q in points ==> |q| >= k && q[dim] >= p[dim]
  }

  /** Left of a node the split coordinate is smaller, right of it it is not. */
  ghost predicate Ordered(t: Tree<Point>, depth: nat, k: nat)
    requires k > 0
  {
    match t
    case Leaf => true
    case Branch(p, l, r) =>
      && |p| >= k && Ordered(l, depth + 1, k) && Ordered(r, depth + 1, k)
      && Smaller(Points(l), p, Axis(depth, k), k) && NotSmaller(Points(r), p, Axis(depth, k), k)
  }

  ghost function Inserted(t: Tree<Point>, pt: Point, depth: nat, k: nat): Tree<Point>
    requires 0 < k <= |pt| && Ordered(t, depth, k)
  {
    match t
    case Leaf => Branch(pt, Leaf, Leaf)
    case Branch(p, l, r) =>
      if pt[Axis(depth, k)] < p[Axis(depth, k)] then Branch(p, Inserted(l, pt, depth + 1, k), r)
      else Branch(p, l, Inserted(r, pt, depth + 1, k))
  }

  lemma {:induction false} InsertedKeeps(t: Tree<Point>, pt: Point, depth: nat, k: nat)
    requires 0 < k <= |pt| && Ordered(t, depth, k)
    ensures Ordered(Inserted(t, pt, depth, k), depth, k)
    ensures Points(Inserted(t, pt, depth, k)) == Points(t) + multiset{pt}
    decreases t
  {
    hide Axis, Smaller, NotSmaller;
    match t
    case Leaf => OrderedAlone(pt, depth, k);
    case Branch(p, l, r) =>
      var dim := Axis(depth, k);
      if pt[dim] < p[dim] {
        InsertedKeeps(l, pt, depth + 1, k);
        SmallerAdd(Points(l), p, dim, k, pt);
      } else {
        InsertedKeeps(r, pt, depth + 1, k);
        NotSmallerAdd(Points(r), p, dim, k, pt);
      }
  }

  lemma OrderedAlone(pt: Point, depth: nat, k: nat)
    requires 0 < k <= |pt|
    ensures Ordered(Branch(pt, Leaf, Leaf), depth, k) && Points(Branch(pt, Leaf, Leaf)) == multiset{pt}
  {}

  lemma SmallerAdd(points: multiset<Point>, p: Point, dim: nat, k: nat, pt: Point)
    requires dim < k <= |p| && Smaller(points, p, dim, k) && |pt| >= k && pt[dim] < p[dim]
    ensures Smaller(points + multiset{pt}, p, dim, k)
  {}

  lemma NotSmallerAdd(points: multiset<Point>, p: Point, dim: nat, k: nat, pt: Point)
    requires dim < k <= |p| && NotSmaller(points, p, dim, k) && |pt| >= k && pt[dim] >= p[dim]
    ensures NotSmaller(points + multiset{pt}, p, dim, k)
  {}

  predicate Inside(p: Point, low: Point, high: Point, k: nat)
    requires k <= |p| && k <= |low| && k <= |high|
  {
    forall i :: 0 <= i < k ==> low[i] <= p[i] <= high[i]
  }

  /** The points in the box, in the order of the sequence. */
  ghost function InBox(s: seq<Point>, low: Point, high: Point, k: nat): seq<Point>
    requires k <= |low| && k <= |high| && forall p :: p in s ==> k <= |p|
  {
    if s == [] then [] else (if Inside(s[0], low, high, k) then [s[0]] else []) + InBox(s[1..], low, high, k)
  }

  lemma {:induction false} InBoxConcat(s: seq<Point>, t: seq<Point>, low: Point, high: Point, k: nat)
    requires k <= |low| && k <= |high| && forall p :: p in s + t ==> k <= |p|
    ensures (forall p :: p in s ==> k <= |p|) && (forall p :: p in t ==> k <= |p|)
    ensures InBox(s + t, low, high, k) == InBox(s, low, high, k) + InBox(t, low, high, k)
    decreases |s|
  {
    hide Inside;
    assert forall p :: p in s || p in t ==> p in s + t;
    if s == [] {
      assert s + t == t;
    } else {
      assert (s + t)[1..] == s[1..] + t;
      InBoxConcat(s[1..], t, low, high, k);
    }
  }

  lemma {:induction false} NoneInBox(s: seq<Point>, low: Point, high: Point, k: nat)
    requires k <= |low| && k <= |high| && forall p :: p in s ==> k <= |p| && !Inside(p, low, high, k)
    ensures InBox(s, low, high, k) == []
    decreases |s|
  {
    if s != [] { NoneInBox(s[1..], low, high, k); }
  }

  /** A point occurs in the result as often as it was inserted if it is in the box, and else not at all. */
  lemma {:induction false} InBoxCounts(s: seq<Point>, low: Point, high: Point, k: nat, p: Point)
    requires k <= |low| && k <= |high| && k <= |p| && forall q :: q in s ==> k <= |q|
    ensures multiset(InBox(s, low, high, k))[p] == if Inside(p, low, high, k) then multiset(s)[p] else 0
    decreases |s|
  {
    if s != [] {
      assert s == [s[0]] + s[1..];
      InBoxCounts(s[1..], low, high, k, p);
    }
  }

  lemma {:induction false} LongEnough(t: Tree<Point>, depth: nat, k: nat)
    requires k > 0 && Ordered(t, depth, k)
    ensures forall p :: p in Preorder(t) ==> |p| >= k
    decreases t
  {
    match t
    case Leaf =>
    case Branch(p, l, r) => LongEnough(l, depth + 1, k); LongEnough(r, depth + 1, k);
  }

  ghost function Box(t: Tree<Point>, low: Point, high: Point, depth: nat, k: nat): seq<Point>
    requires 0 < k && k <= |low| && k <= |high| && Ordered(t, depth, k)
  {
    LongEnough(t, depth, k);
    InBox(Preorder(t), low, high, k)
  }

  ghost function Own(p: Point, low: Point, high: Point, k: nat): seq<Point>
    requires k <= |p| && k <= |low| && k <= |high|
  {
    if Inside(p, low, high, k) then [p] else []
  }

  lemma InsertedInLeaf(pt: Point, depth: nat, k: nat)
    requires 0 < k <= |pt|
    ensures Ordered(Leaf, depth, k) && Inserted(Leaf, pt, depth, k) == Branch(pt, Leaf, Leaf)
  {}

  lemma InsertedInBranch(t: Tree<Point>, pt: Point, depth: nat, k: nat)
    requires 0 < k <= |pt| && Ordered(t, depth, k) && t.Branch?
    ensures |t.point| >= k && Ordered(t.left, depth + 1, k) && Ordered(t.right, depth + 1, k)
    ensures Inserted(t, pt, depth, k) ==
      if pt[Axis(depth, k)] < t.point[Axis(depth, k)] then Branch(t.point, Inserted(t.left, pt, depth + 1, k), t.right)
      else Branch(t.point, t.left, Inserted(t.right, pt, depth + 1, k))
  {}

  lemma BoxOfLeaf(low: Point, high: Point, depth: nat, k: nat)
    requires 0 < k && k <= |low| && k <= |high|
    ensures Ordered(Leaf, depth, k) && Box(Leaf, low, high, depth, k) == []
  {}

  lemma BranchParts(t: Tree<Point>, depth: nat, k: nat)
    requires k > 0 && Ordered(t, depth, k) && t.Branch?
    ensures |t.point| >= k && Ordered(t.left, depth + 1, k) && Ordered(t.right, depth + 1, k)
    ensures Smaller(Points(t.left), t.point, Axis(depth, k), k)
    ensures NotSmaller(Points(t.right), t.point, Axis(depth, k), k)
    ensures Preorder(t) == [t.point] + (Preorder(t.left) + Preorder(t.right))
  {}

  lemma BoxOfBranch(t: Tree<Point>, low: Point, high: Point, depth: nat, k: nat)
    requires 0 < k && k <= |low| && k <= |high| && Ordered(t, depth, k) && t.Branch?
    ensures |t.point| >= k && Ordered(t.left, depth + 1, k) && Ordered(t.right, depth + 1, k)
    ensures Box(t, low, high, depth, k) ==
      Own(t.point, low, high, k) + Box(t.left, low, high, depth + 1, k) + Box(t.right, low, high, depth + 1, k)
  {
    hide Ordered, Preorder, Smaller, NotSmaller, Inside, InBox, Own, Axis;
    BranchParts(t, depth, k);
    LongEnough(t, depth, k);
    var p, l, r := t.point, Preorder(t.left), Preorder(t.right);
    InBoxConcat([p], l + r, low, high, k);
    InBoxConcat(l, r, low, high, k);
    InBoxAlone(p, low, high, k);
    Associative(Own(p, low, high, k), InBox(l, low, high, k), InBox(r, low, high, k));
  }

  lemma InBoxAlone(p: Point, low: Point, high: Point, k: nat)
    requires k <= |p| && k <= |low| && k <= |high|
    ensures InBox([p], low, high, k) == Own(p, low, high, k)
  {
    assert [p][1..] == [];
  }

  lemma Associative(a: seq<Point>, b: seq<Point>, c: seq<Point>)
    ensures a + (b + c) == a + b + c
  {}

  /** A subtree on the wrong side of the box has none of the points in it. */
  lemma Pruned(t: Tree<Point>, low: Point, high: Point, depth: nat, k: nat)
    requires 0 < k && k <= |low| && k <= |high| && Ordered(t, depth, k) && t.Branch?
    ensures |t.point| >= k && Ordered(t.left, depth + 1, k) && Ordered(t.right, depth + 1, k)
    ensures low[Axis(depth, k)] > t.point[Axis(depth, k)] ==> Box(t.left, low, high, depth + 1, k) == []
    ensures high[Axis(depth, k)] < t.point[Axis(depth, k)] ==> Box(t.right, low, high, depth + 1, k) == []
  {
    hide Ordered, Preorder, Axis;
    var dim := Axis(depth, k);
    BranchParts(t, depth, k);
    PreorderPoints(t.left);
    PreorderPoints(t.right);
    LongEnough(t.left, depth + 1, k);
    LongEnough(t.right, depth + 1, k);
    assert forall q :: q in Preorder(t.left) ==> q in multiset(Preorder(t.left));
    assert forall q :: q in Preorder(t.right) ==> q in multiset(Preorder(t.right));
    if low[dim] > t.point[dim] { NoneInBox(Preorder(t.left), low, high, k); }
    if high[dim] < t.point[dim] { NoneInBox(Preorder(t.right), low, high, k); }
  }

  /** What the whole tree has in the box. */
  lemma BoxCounts(t: Tree<Point>, low: Point, high: Point, k: nat, p: Point)
    requires 0 < k && k <= |low| && k <= |high| && k <= |p| && Ordered(t, 0, k)
    ensures multiset(Box(t, low, high, 0, k))[p] == if Inside(p, low, high, k) then Points(t)[p] else 0
  {
    hide Ordered, Preorder, Inside, InBox, Points;
    LongEnough(t, 0, k);
    PreorderPoints(t);
    InBoxCounts(Preorder(t), low, high, k, p);
  }

  ghost function TreeOf(node: Node?<Point>): Tree<Point>
    reads node
  {
    if node == null then Leaf else node.tree
  }

  class BKDTree {
    const k: nat
    var root: Node?<Point>

    // what has been inserted, and the nodes
    ghost var inserted: multiset<Point>
    ghost var repr: set<Node<Point>>

    constructor (k: nat)
      requires k > 0
      ensures Valid() && this.k == k && inserted == multiset{} && repr == {}
    {
      this.k, root := k, null;
      inserted, repr := multiset{}, {};
    }

    ghost predicate Valid()
      reads this, repr
    {
      && k > 0 && (root != null ==> root in repr && root.repr <= repr && root.Valid())
      && Ordered(TreeOf(root), 0, k) && Points(TreeOf(root)) == inserted
    }

    method Insert(pt: Point)
      requires Valid() && |pt| >= k
      modifies this, repr
      ensures Valid() && inserted == old(inserted) + multiset{pt} && fresh(repr - old(repr))
    {
      hide Ordered, Inserted, Points;
      InsertedKeeps(TreeOf(root), pt, 0, k);
      root := InsertRec(root, pt, 0);
      inserted, repr := inserted + multiset{pt}, repr + root.repr;
    }

    method InsertRec(node: Node?<Point>, pt: Point, depth: nat) returns (r: Node<Point>)
      requires 0 < k <= |pt| && (node != null ==> node.Valid()) && Ordered(TreeOf(node), depth, k)
      modifies if node == null then {} else node.repr
      ensures r.Valid() && r.tree == old(Inserted(TreeOf(node), pt, depth, k))
      ensures node != null ==> r == node && fresh(r.repr - old(node.repr))
      ensures node == null ==> fresh(r.repr)
      decreases TreeOf(node)
    {
      hide Ordered, Axis, Smaller, NotSmaller, Inserted, Points, Preorder;
      if node == null {
        InsertedInLeaf(pt, depth, k);
        r := new Node(pt);
        return;
      }
      BranchParts(node.tree, depth, k);
      InsertedInBranch(node.tree, pt, depth, k);
      node.Halves();
      var dim := Axis(depth, k);
      if pt[dim] < node.point[dim] {
        var child := InsertRec(node.left, pt, depth + 1);
        node.SetLeft(child);
      } else {
        var child := InsertRec(node.right, pt, depth + 1);
        node.SetRight(child);
      }
      r := node;
    }

    /** Appends the points in the box to the result. */
    method RangeQuery(low: Point, high: Point, result: seq<Point>) returns (result': seq<Point>)
      requires Valid() && k <= |low| && k <= |high|
      ensures result' == result + Box(TreeOf(root), low, high, 0, k)
      ensures forall p :: k <= |p| && (forall i :: 0 <= i < k ==> low[i] <= p[i] <= high[i]) ==>
        multiset(result')[p] == multiset(result)[p] + inserted[p]
      ensures forall p :: k <= |p| && !(forall i :: 0 <= i < k ==> low[i] <= p[i] <= high[i]) ==>
        multiset(result')[p] == multiset(result)[p]
    {
      hide Ordered, Box, Points;
      ghost var t := TreeOf(root);
      result' := RangeQueryRec(root, low, high, 0, result);
      forall p: Point | k <= |p|
        ensures multiset(Box(t, low, high, 0, k))[p] == if Inside(p, low, high, k) then inserted[p] else 0
      {
        BoxCounts(t, low, high, k, p);
      }
    }

    method RangeQueryRec(node: Node?<Point>, low: Point, high: Point, depth: nat, result: seq<Point>)
      returns (result': seq<Point>)
      requires 0 < k && k <= |low| && k <= |high| && (node != null ==> node.Valid()) && Ordered(TreeOf(node), depth, k)
      ensures result' == result + Box(TreeOf(node), low, high, depth, k)
      decreases TreeOf(node)
    {
      hide Ordered, Axis, Box;
      result' := result;
      if node == null {
        BoxOfLeaf(low, high, depth, k);
        return;
      }
      BoxOfBranch(node.tree, low, high, depth, k);
      Pruned(node.tree, low, high, depth, k);
      BoxOfLeaf(low, high, depth + 1, k);
      var inside := true;
      var i := 0;
      while i < k && inside
        invariant 0 <= i <= k && (inside ==> forall j :: 0 <= j < i ==> low[j] <= node.point[j] <= high[j])
        invariant !inside ==> !Inside(node.point, low, high, k)
      {
        if node.point[i] < low[i] || node.point[i] > high[i] {
          inside := false;
        }
        i := i + 1;
      }
      if inside { result' := result' + [node.point]; }
      var dim := Axis(depth, k);
      if node.left != null && low[dim] <= node.point[dim] {
        result' := RangeQueryRec(node.left, low, high, depth + 1, result');
      }
      if node.right != null && high[dim] >= node.point[dim] {
        result' := RangeQueryRec(node.right, low, high, depth + 1, result');
      }
    }
  }
}
