/** Binary trees of points, as nodes that point to each other and as the values they stand for. */
module KdShape {

  datatype Tree<P> = Leaf | Branch(point: P, left: Tree<P>, right: Tree<P>)

  /** The points of the tree, each node's before its subtrees'. */
  ghost function Preorder<P>(t: Tree<P>): seq<P> {
    match t
    case Leaf => []
    case Branch(p, l, r) => [p] + Preorder(l) + Preorder(r)
  }

  ghost function Points<P>(t: Tree<P>): multiset<P> {
    match t
    case Leaf => multiset{}
    case Branch(p, l, r) => multiset{p} + Points(l) + Points(r)
  }

  function Height<P>(t: Tree<P>): nat {
    match t
    case Leaf => 0
    case Branch(_, l, r) => 1 + if Height(l) > Height(r) then Height(l) else Height(r)
  }

  lemma {:induction false} PreorderPoints<P>(t: Tree<P>)
    ensures multiset(Preorder(t)) == Points(t)
  {
    match t
    case Leaf =>
    case Branch(p, l, r) =>
      PreorderPoints(l);
      PreorderPoints(r);
      assert multiset([p]) == multiset{p};
  }

  /** The coordinate by which the nodes of a depth split. */
  function Axis(depth: nat, k: nat): (dim: nat)
    requires k > 0
    ensures dim < k
  {
    depth % k
  }

  /** The coordinates take turns, from the first to the last and then from the first again. */
  lemma AxisTurns(depth: nat, k: nat)
    requires k > 0
    ensures Axis(0, k) == 0 && Axis(depth + 1, k) == if Axis(depth, k) + 1 < k then Axis(depth, k) + 1 else 0
  {
    var r := depth % k;
    if r + 1 < k {
      Remainder(depth + 1, k, depth / k, r + 1);
    } else {
      Remainder(depth + 1, k, depth / k + 1, 0);
    }
  }

  lemma Remainder(n: nat, k: nat, q: nat, r: nat)
    requires n == q * k + r && r < k
    ensures n % k == r
  {
    Between(n / k - q, k);
  }

  lemma Between(d: int, k: nat)
    ensures 0 < d * k + k && d * k < k ==> d == 0
  {
    if d >= 1 { Grows(1, d, k); }
    if d <= -1 { Grows(d, -1, k); }
  }

  lemma Grows(a: int, b: int, k: nat)
    requires a <= b
    ensures a * k <= b * k
  {}

  class Node<P> {
    const point: P
    var left: Node?<P>
    var right: Node?<P>

    ghost var tree: Tree<P>
    ghost var repr: set<Node<P>>

    constructor (point: P)
      ensures this.point == point && left == null && right == null
      ensures Valid() && repr == {this} && tree == Branch(point, Leaf, Leaf)
    {
      this.point, left, right := point, null, null;
      tree, repr := Branch(point, Leaf, Leaf), {this};
    }

    ghost predicate Valid()
      reads this, repr
      decreases repr
      ensures Valid() ==> this in repr
    {
      && this in repr
      && (left != null ==> left in repr && left.repr < repr && this !in left.repr && left.Valid())
      && (right != null ==> right in repr && right.repr < repr && this !in right.repr && right.Valid())
      && (left != null && right != null ==> left.repr !! right.repr)
      && tree == Branch(point, if left == null then Leaf else left.tree, if right == null then Leaf else right.tree)
    }

    /** The part of `Valid` that does not speak of the left subtree. */
    ghost predicate RightValid()
      reads this, repr
    {
      && this in repr && tree.Branch? && tree.point == point
      && tree.right == (if right == null then Leaf else if right in repr then right.tree else Leaf)
      && (right != null ==> right in repr && right.repr < repr && this !in right.repr && right.Valid())
    }

    ghost predicate LeftValid()
      reads this, repr
    {
      && this in repr && tree.Branch? && tree.point == point
      && tree.left == (if left == null then Leaf else if left in repr then left.tree else Leaf)
      && (left != null ==> left in repr && left.repr < repr && this !in left.repr && left.Valid())
    }

    lemma Halves()
      requires Valid()
      ensures LeftValid() && RightValid()
    {}

    /** Hangs a tree in as the left subtree. */
    method SetLeft(child: Node<P>)
      requires RightValid() && child.Valid() && this !in child.repr
      requires right != null ==> child.repr !! right.repr
      modifies this
      ensures Valid() && repr == old(repr) + child.repr
      ensures tree == Branch(point, child.tree, old(tree).right) && left == child && right == old(right)
    {
      left := child;
      repr := repr + child.repr;
      tree := Branch(point, child.tree, tree.right);
    }

    /** Hangs a tree in as the right subtree. */
    method SetRight(child: Node<P>)
      requires LeftValid() && child.Valid() && this !in child.repr
      requires left != null ==> child.repr !! left.repr
      modifies this
      ensures Valid() && repr == old(repr) + child.repr
      ensures tree == Branch(point, old(tree).left, child.tree) && left == old(left) && right == child
    {
      right := child;
      repr := repr + child.repr;
      tree := Branch(point, tree.left, child.tree);
    }
  }
}
