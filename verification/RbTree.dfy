/** The red-black tree of mystl/my_rb_tree.h, with its nodes, parent links and header. */
module RbTree {
  import opened Powers
  import opened Range
  import opened RbShape

  class Node {
    var black: bool
    var parent: Node?
    var left: Node?
    var right: Node?
    var value: Elem

    constructor (value: Elem)
      ensures this.value == value
    {
      this.value := value;
      black, parent, left, right := false, null, null, null;
    }
  }

  function Ptr(t: Tree<Node>): Node? { if t.Leaf? then null else t.at }

  /** The node above a place; the header above the root. */
  function Up(header: Node, z: Path<Node>): Node { if z.Top? then header else z.at }

  /** The fields of the nodes of t are those of the tree t, whose parent is `up`. */
  ghost predicate Holds(t: Tree<Node>, up: Node)
    reads Nodes(t)
  {
    t.Fork? ==>
      && t.at.black == t.black && t.at.value == t.value && t.at.parent == up
      && t.at.left == Ptr(t.left) && t.at.right == Ptr(t.right)
      && Holds(t.left, t.at) && Holds(t.right, t.at)
  }

  /** The fields of the nodes above a place where p is. */
  ghost predicate HoldsPath(header: Node, z: Path<Node>, p: Node?)
    reads header`parent, PathNodes(z)
  {
    match z
    case Top => header.parent == p
    case InLeft(up, n, b, v, other) =>
      && n.black == b && n.value == v && n.parent == Up(header, up) && n.left == p && n.right == Ptr(other)
      && Holds(other, n) && HoldsPath(header, up, n)
    case InRight(up, other, n, b, v) =>
      && n.black == b && n.value == v && n.parent == Up(header, up) && n.left == Ptr(other) && n.right == p
      && Holds(other, n) && HoldsPath(header, up, n)
  }

  /** The tree that hangs off the header is the one with t at the place z. */
  ghost predicate Tied(header: Node, repr: set<Node>, z: Path<Node>, t: Tree<Node>)
    reads header`parent, repr
  {
    && header !in repr && PathNodes(z) + Nodes(t) == repr && Apart(z, t)
    && PathNodes(z) <= repr && Nodes(t) <= repr
    && Holds(t, Up(header, z)) && HoldsPath(header, z, Ptr(t))
  }

  // ----- moving the place

  lemma GoUp(header: Node, repr: set<Node>, z: Path<Node>, t: Tree<Node>)
    requires Tied(header, repr, z, t) && !z.Top?
    ensures Tied(header, repr, z.up, Above(z, t))
  {
    AboveKeeps(z, t);
  }

  lemma GoLeft(header: Node, repr: set<Node>, z: Path<Node>, t: Tree<Node>)
    requires Tied(header, repr, z, t) && t.Fork?
    ensures Tied(header, repr, InLeft(z, t.at, t.black, t.value, t.right), t.left)
  {
    AboveKeeps(InLeft(z, t.at, t.black, t.value, t.right), t.left);
  }

  lemma GoRight(header: Node, repr: set<Node>, z: Path<Node>, t: Tree<Node>)
    requires Tied(header, repr, z, t) && t.Fork?
    ensures Tied(header, repr, InRight(z, t.left, t.at, t.black, t.value), t.right)
  {
    AboveKeeps(InRight(z, t.left, t.at, t.black, t.value), t.right);
  }

  // ----- single changes

  method SetBlack(header: Node, ghost repr: set<Node>, n: Node, black: bool, ghost z: Path<Node>, ghost t: Tree<Node>)
    requires Tied(header, repr, z, t) && t.Fork? && n == t.at
    modifies n
    ensures Tied(header, repr, z, Paint(t, black))
    ensures n.left == old(n.left) && n.right == old(n.right) && n.parent == old(n.parent)
  {
    n.black := black;
  }

  lemma {:induction false} PathRoot(header: Node, z: Path<Node>, p: Node?)
    requires HoldsPath(header, z, p) && !z.Top?
    ensures header.parent in PathNodes(z)
  {
    if !z.up.Top? { PathRoot(header, z.up, z.at); }
  }

  /** The link from above to the node x now leads to y. */
  method Relink(header: Node, x: Node, y: Node?, ghost z: Path<Node>)
    requires header !in PathNodes(z) && DistinctPath(z) && x !in PathNodes(z)
    requires HoldsPath(header, z, x) && x.parent == Up(header, z)
    modifies header`parent, if z.Top? then {} else {z.at}
    ensures HoldsPath(header, z, y)
  {
    if !z.Top? { PathRoot(header, z, x); }
    var p := x.parent;
    if x == header.parent {
      header.parent := y;
    } else if x == p.left {
      p.left := y;
    } else {
      p.right := y;
    }
  }

  /** The subtree t, which hung off `from`, has a new parent. */
  method Reparent(p: Node?, up: Node, ghost t: Tree<Node>, ghost from: Node)
    requires p == Ptr(t) && Distinct(t) && Holds(t, from)
    modifies Nodes(t)
    ensures Holds(t, up)
    ensures p == null ==> t.Leaf?
  {
    if p != null {
      p.parent := up;
    }
  }

  /** The parts of a tree that takes part in a rotation have no node in common. */
  ghost predicate Parts(header: Node, repr: set<Node>, z: Path<Node>, a: Tree<Node>, x: Node, b: Tree<Node>,
      y: Node, c: Tree<Node>) {
    && x != y && x in repr && y in repr && header !in repr && x != header && y != header
    && x !in Nodes(a) && x !in Nodes(b) && x !in Nodes(c) && y !in Nodes(a) && y !in Nodes(b) && y !in Nodes(c)
    && Nodes(a) !! Nodes(b) && Nodes(a) !! Nodes(c) && Nodes(b) !! Nodes(c)
    && x !in PathNodes(z) && y !in PathNodes(z) && header !in PathNodes(z)
    && PathNodes(z) !! Nodes(a) && PathNodes(z) !! Nodes(b) && PathNodes(z) !! Nodes(c)
    && header !in Nodes(a) && header !in Nodes(b) && header !in Nodes(c)
    && Distinct(b) && DistinctPath(z) && Nodes(a) <= repr && Nodes(b) <= repr && Nodes(c) <= repr
    && Up(header, z) != x && Up(header, z) != y
    && Up(header, z) !in Nodes(a) && Up(header, z) !in Nodes(b) && Up(header, z) !in Nodes(c)
    && (z.Top? || Up(header, z) in repr)
  }

  lemma PartsLeft(header: Node, repr: set<Node>, z: Path<Node>, t: Tree<Node>)
    requires Tied(header, repr, z, t) && t.Fork? && t.right.Fork?
    ensures Parts(header, repr, z, t.left, t.at, t.right.left, t.right.at, t.right.right)
  {
    hide Holds, HoldsPath, DistinctPath;
    assert Distinct(t.right);
    assert z.Top? || z.at in PathNodes(z);
  }

  lemma PartsRight(header: Node, repr: set<Node>, z: Path<Node>, t: Tree<Node>)
    requires Tied(header, repr, z, t) && t.Fork? && t.left.Fork?
    ensures Parts(header, repr, z, t.left.left, t.left.at, t.left.right, t.at, t.right)
  {
    hide Holds, HoldsPath, DistinctPath;
    assert Distinct(t.left);
    assert z.Top? || z.at in PathNodes(z);
  }

  /** The fields of a node. */
  ghost predicate Is(n: Node, t: Tree<Node>, up: Node)
    requires t.Fork?
    reads n
  {
    n == t.at && n.black == t.black && n.value == t.value && n.parent == up
    && n.left == Ptr(t.left) && n.right == Ptr(t.right)
  }

  lemma HoldsFork(t: Tree<Node>, up: Node)
    requires t.Fork?
    ensures Holds(t, up) <==> Is(t.at, t, up) && Holds(t.left, t.at) && Holds(t.right, t.at)
  {
  }

  method RotateLeft(header: Node, ghost repr: set<Node>, x: Node, ghost z: Path<Node>, ghost t: Tree<Node>)
    requires Tied(header, repr, z, t) && t.Fork? && t.right.Fork? && x == t.at
    modifies header`parent, repr
    ensures Tied(header, repr, z, RbShape.RotateLeft(t))
  {
    hide DistinctPath, Distinct, Nodes, PathNodes, Apart, Holds, HoldsPath;
    RotateLeftKeeps(z, t);
    PartsLeft(header, repr, z, t);
    HoldsFork(t, Up(header, z));
    HoldsFork(t.right, x);
    ghost var a, b, c := t.left, t.right.left, t.right.right;
    ghost var r := RbShape.RotateLeft(t);
    var y := x.right;
    x.right := y.left;
    Reparent(y.left, x, b, y);
    y.parent := x.parent;
    Relink(header, x, y, z);
    y.left := x;
    x.parent := y;
    HoldsFork(r.left, y);
    HoldsFork(r, Up(header, z));
  }

  method RotateRight(header: Node, ghost repr: set<Node>, x: Node, ghost z: Path<Node>, ghost t: Tree<Node>)
    requires Tied(header, repr, z, t) && t.Fork? && t.left.Fork? && x == t.at
    modifies header`parent, repr
    ensures Tied(header, repr, z, RbShape.RotateRight(t))
  {
    hide DistinctPath, Distinct, Nodes, PathNodes, Apart, Holds, HoldsPath;
    RotateRightKeeps(z, t);
    PartsRight(header, repr, z, t);
    HoldsFork(t, Up(header, z));
    HoldsFork(t.left, x);
    ghost var a, b, c := t.left.left, t.left.right, t.right;
    ghost var r := RbShape.RotateRight(t);
    var y := x.left;
    x.left := y.right;
    Reparent(y.right, x, b, y);
    y.parent := x.parent;
    Relink(header, x, y, z);
    y.right := x;
    x.parent := y;
    HoldsFork(r.right, y);
    HoldsFork(r, Up(header, z));
  }

  // ----- what the links say about the place

  lemma Here(header: Node, repr: set<Node>, z: Path<Node>, t: Tree<Node>)
    requires Tied(header, repr, z, t) && t.Fork?
    ensures t.at in repr && t.at.black == t.black && t.at.value == t.value && t.at.parent == Up(header, z)
    ensures t.at.left == Ptr(t.left) && t.at.right == Ptr(t.right)
    ensures header.parent == t.at <==> z.Top?
  {
    hide Distinct, DistinctPath;
    if !z.Top? { PathRoot(header, z, t.at); }
  }

  lemma HereAbove(header: Node, repr: set<Node>, z: Path<Node>, t: Tree<Node>)
    requires Tied(header, repr, z, t) && !z.Top?
    ensures z.at in repr && z.at.black == z.black && z.at.value == z.value && z.at.parent == Up(header, z.up)
    ensures z.InLeft? ==> z.at.left == Ptr(t) && z.at.right == Ptr(z.other)
    ensures z.InRight? ==> z.at.right == Ptr(t) && z.at.left == Ptr(z.other)
    ensures t.Fork? ==> Ptr(t) != Ptr(z.other)
    ensures z.other.Fork? ==> z.other.at in repr && z.other.at.black == z.other.black
    ensures z.other.Fork? ==> z.other.at.left == Ptr(z.other.left) && z.other.at.right == Ptr(z.other.right)
  {
    hide Distinct, DistinctPath;
  }

  // ----- rebalancing after an insertion

  /** Parent and uncle become black, the grandparent red. */
  method Recolour(header: Node, ghost repr: set<Node>, p: Node, y: Node, g: Node, ghost z: Path<Node>,
      ghost t: Tree<Node>)
    requires Tied(header, repr, z, t) && !z.Top? && !z.up.Top? && z.up.other.Fork?
    requires p == z.at && y == z.up.other.at && g == z.up.at
    modifies repr
    ensures Tied(header, repr, z.up.up, Recoloured(z, t)) && Recoloured(z, t).Fork? && Recoloured(z, t).at == g
  {
    hide Tied;
    GoUp(header, repr, z, t);
    InRepr(header, repr, z.up, Above(z, t));
    SetBlack(header, repr, p, true, z.up, Above(z, t));
    ghost var t1 := Above(PaintPath(z, true), t);
    GoUp(header, repr, z.up, t1);
    ghost var t2 := Above(z.up, t1);
    ghost var z3 := if z.up.InLeft? then InRight(z.up.up, t2.left, t2.at, t2.black, t2.value)
      else InLeft(z.up.up, t2.at, t2.black, t2.value, t2.right);
    if z.up.InLeft? { GoRight(header, repr, z.up.up, t2); } else { GoLeft(header, repr, z.up.up, t2); }
    InRepr(header, repr, z3, z.up.other);
    SetBlack(header, repr, y, true, z3, z.up.other);
    GoUp(header, repr, z3, Paint(z.up.other, true));
    InRepr(header, repr, z.up.up, Above(z3, Paint(z.up.other, true)));
    SetBlack(header, repr, g, false, z.up.up, Above(z3, Paint(z.up.other, true)));
  }

  lemma InRepr(header: Node, repr: set<Node>, z: Path<Node>, t: Tree<Node>)
    requires Tied(header, repr, z, t) && t.Fork?
    ensures t.at in repr && t.at != header
  {
  }

  /** The grandparent's colour goes to the parent, and a rotation puts the parent in its place. */
  method TurnRight(header: Node, ghost repr: set<Node>, p: Node, g: Node, ghost z: Path<Node>, ghost t: Tree<Node>)
    returns (ghost z': Path<Node>)
    requires Tied(header, repr, z, t) && z.InLeft? && z.up.InLeft? && p == z.at && g == z.up.at
    modifies header`parent, repr
    ensures z' == InLeft(z.up.up, z.at, true, z.value, Fork(z.other, z.up.at, false, z.up.value, z.up.other))
    ensures Tied(header, repr, z', t)
  {
    hide Tied;
    GoUp(header, repr, z, t);
    InRepr(header, repr, z.up, Above(z, t));
    SetBlack(header, repr, p, true, z.up, Above(z, t));
    ghost var t1 := Above(PaintPath(z, true), t);
    GoUp(header, repr, z.up, t1);
    InRepr(header, repr, z.up.up, Above(z.up, t1));
    SetBlack(header, repr, g, false, z.up.up, Above(z.up, t1));
    ghost var t2 := Paint(Above(z.up, t1), false);
    RotateRight(header, repr, g, z.up.up, t2);
    GoLeft(header, repr, z.up.up, RbShape.RotateRight(t2));
    z' := InLeft(z.up.up, z.at, true, z.value, Fork(z.other, z.up.at, false, z.up.value, z.up.other));
  }

  method TurnLeft(header: Node, ghost repr: set<Node>, p: Node, g: Node, ghost z: Path<Node>, ghost t: Tree<Node>)
    returns (ghost z': Path<Node>)
    requires Tied(header, repr, z, t) && z.InRight? && z.up.InRight? && p == z.at && g == z.up.at
    modifies header`parent, repr
    ensures z' == InRight(z.up.up, Fork(z.up.other, z.up.at, false, z.up.value, z.other), z.at, true, z.value)
    ensures Tied(header, repr, z', t)
  {
    hide Tied;
    GoUp(header, repr, z, t);
    InRepr(header, repr, z.up, Above(z, t));
    SetBlack(header, repr, p, true, z.up, Above(z, t));
    ghost var t1 := Above(PaintPath(z, true), t);
    GoUp(header, repr, z.up, t1);
    InRepr(header, repr, z.up.up, Above(z.up, t1));
    SetBlack(header, repr, g, false, z.up.up, Above(z.up, t1));
    ghost var t2 := Paint(Above(z.up, t1), false);
    RotateLeft(header, repr, g, z.up.up, t2);
    GoRight(header, repr, z.up.up, RbShape.RotateLeft(t2));
    z' := InRight(z.up.up, Fork(z.up.other, z.up.at, false, z.up.value, z.other), z.at, true, z.value);
  }

  /** A node that is its parent's inner child changes places with it. */
  method InwardLeft(header: Node, ghost repr: set<Node>, p: Node, ghost z: Path<Node>, ghost t: Tree<Node>)
    returns (ghost z': Path<Node>, ghost t': Tree<Node>)
    requires Tied(header, repr, z, t) && z.InRight? && t.Fork? && p == z.at
    modifies header`parent, repr
    ensures z' == InLeft(z.up, t.at, t.black, t.value, t.right) && t' == Fork(z.other, z.at, z.black, z.value, t.left)
    ensures Tied(header, repr, z', t')
  {
    hide Tied;
    GoUp(header, repr, z, t);
    RotateLeft(header, repr, p, z.up, Above(z, t));
    GoLeft(header, repr, z.up, RbShape.RotateLeft(Above(z, t)));
    z' := InLeft(z.up, t.at, t.black, t.value, t.right);
    t' := Fork(z.other, z.at, z.black, z.value, t.left);
  }

  method InwardRight(header: Node, ghost repr: set<Node>, p: Node, ghost z: Path<Node>, ghost t: Tree<Node>)
    returns (ghost z': Path<Node>, ghost t': Tree<Node>)
    requires Tied(header, repr, z, t) && z.InLeft? && t.Fork? && p == z.at
    modifies header`parent, repr
    ensures z' == InRight(z.up, t.left, t.at, t.black, t.value) && t' == Fork(t.right, z.at, z.black, z.value, z.other)
    ensures Tied(header, repr, z', t')
  {
    hide Tied;
    GoUp(header, repr, z, t);
    RotateRight(header, repr, p, z.up, Above(z, t));
    GoRight(header, repr, z.up, RbShape.RotateRight(Above(z, t)));
    z' := InRight(z.up, t.left, t.at, t.black, t.value);
    t' := Fork(t.right, z.at, z.black, z.value, z.other);
  }

  lemma {:induction false} TiedPlug(header: Node, repr: set<Node>, z: Path<Node>, t: Tree<Node>)
    requires Tied(header, repr, z, t)
    ensures Tied(header, repr, Top, Plug(z, t))
    decreases z
  {
    hide Tied;
    if !z.Top? {
      GoUp(header, repr, z, t);
      TiedPlug(header, repr, z.up, Above(z, t));
    }
  }

  /** The entries do not change when the place moves. */
  lemma RecolouredOrder(z: Path<Node>, t: Tree<Node>)
    requires !z.Top? && !z.up.Top? && z.up.other.Fork?
    ensures Order(z.up.up, Recoloured(z, t)) == Order(z, t)
  {
    var z1, y := PaintPath(z, true), Paint(z.up.other, true);
    var t1 := Above(z1, t);
    AboveKeeps(z1, t);
    AboveKeeps(WithOther(z.up, y), t1);
    assert Entries(y) == Entries(z.up.other);
  }

  lemma TurnOrder(z: Path<Node>, t: Tree<Node>)
    requires !z.Top? && !z.up.Top?
    ensures z.InLeft? && z.up.InLeft? ==>
      Order(InLeft(z.up.up, z.at, true, z.value, Fork(z.other, z.up.at, false, z.up.value, z.up.other)), t)
      == Order(z, t)
    ensures z.InRight? && z.up.InRight? ==>
      Order(InRight(z.up.up, Fork(z.up.other, z.up.at, false, z.up.value, z.other), z.at, true, z.value), t)
      == Order(z, t)
  {
    var e, f := [Entry(z.at, z.value)], [Entry(z.up.at, z.up.value)];
    var a, b, c := Before(z.up.up), After(z.up.up), Entries(t);
    var u, w := Entries(z.other), Entries(z.up.other);
    assert (e + u) + ((f + w) + b) == (e + (u + (f + w))) + b;
    assert (a + (w + f)) + (u + e) == a + ((w + (f + u)) + e);
    if z.InLeft? && z.up.InLeft? {
      assert Before(z.up) == a && After(z.up) == (f + w) + b;
    } else if z.InRight? && z.up.InRight? {
      assert Before(z.up) == a + (w + f) && After(z.up) == b;
    }
  }

  lemma InwardOrder(z: Path<Node>, t: Tree<Node>)
    requires !z.Top? && t.Fork?
    ensures z.InRight? ==>
      Order(InLeft(z.up, t.at, t.black, t.value, t.right), Fork(z.other, z.at, z.black, z.value, t.left)) == Order(z, t)
    ensures z.InLeft? ==>
      Order(InRight(z.up, t.left, t.at, t.black, t.value), Fork(t.right, z.at, z.black, z.value, z.other))
      == Order(z, t)
  {
    var a, b := Before(z.up), After(z.up);
    var e, f := [Entry(z.at, z.value)], [Entry(t.at, t.value)];
    var u, l, r := Entries(z.other), Entries(t.left), Entries(t.right);
    if z.InRight? { Regroup(a, u, e, l, f + r, b); } else { Regroup(a, l, f, r, e + u, b); }
  }

  lemma Regroup<T>(a: seq<T>, u: seq<T>, e: seq<T>, l: seq<T>, f: seq<T>, b: seq<T>)
    ensures a + (u + e) + (l + f) + b == a + (u + (e + l)) + (f + b)
    ensures a + (u + (e + l)) + (f + b) == (a + (u + e)) + (l + f) + b
  {
  }

  /** One round, when the parent is a left child. */
  method RaiseLeft(header: Node, ghost repr: set<Node>, node: Node, ghost z0: Path<Node>, ghost t0: Tree<Node>,
      ghost h0: nat)
    returns (x: Node, ghost z: Path<Node>, ghost t: Tree<Node>, ghost h: nat)
    requires Tied(header, repr, z0, t0) && t0.Fork? && node == t0.at && Raised(z0, t0, h0)
    requires !z0.Top? && !z0.black && z0.up.InLeft? && node.parent == z0.at && z0.at.parent == z0.up.at
    modifies header`parent, repr
    ensures Tied(header, repr, z, t) && Raised(z, t, h) && t.Fork? && x == t.at && Order(z, t) == Order(z0, t0)
    ensures Depth(z) < Depth(z0) && Restored(z, t) == Restored(z0, t0)
  {
    hide Tied, Raised, Recoloured, Order, Rb, Ok, Plug;
    x, z, t, h := node, z0, t0, h0;
    RaisedParent(z, t, h);
    GoUp(header, repr, z, t);
    HereAbove(header, repr, z, t);
    HereAbove(header, repr, z.up, Above(z, t));
    var y := x.parent.parent.right;
    if y != null && !y.black {
      RecolourStep(z, t, h);
      RecolouredOrder(z, t);
      var g := x.parent.parent;
      Recolour(header, repr, x.parent, y, g, z, t);
      x, z, t, h := g, z.up.up, Recoloured(z, t), h + 1;
    } else {
      assert Black(z.up.other);
      if x == x.parent.right {
        RaisedIsRed(z, t, h);
        InnerStep(z, t, h);
        InwardOrder(z, t);
        x := x.parent;
        z, t := InwardLeft(header, repr, x, z, t);
        HereAbove(header, repr, z, t);
        GoUp(header, repr, z, t);
        HereAbove(header, repr, z.up, Above(z, t));
        Here(header, repr, z, t);
      }
      TurnStep(z, t, h);
      TurnOrder(z, t);
      z := TurnRight(header, repr, x.parent, x.parent.parent, z, t);
    }
  }

  /** One round, when the parent is a right child. */
  method RaiseRight(header: Node, ghost repr: set<Node>, node: Node, ghost z0: Path<Node>, ghost t0: Tree<Node>,
      ghost h0: nat)
    returns (x: Node, ghost z: Path<Node>, ghost t: Tree<Node>, ghost h: nat)
    requires Tied(header, repr, z0, t0) && t0.Fork? && node == t0.at && Raised(z0, t0, h0)
    requires !z0.Top? && !z0.black && z0.up.InRight? && node.parent == z0.at && z0.at.parent == z0.up.at
    modifies header`parent, repr
    ensures Tied(header, repr, z, t) && Raised(z, t, h) && t.Fork? && x == t.at && Order(z, t) == Order(z0, t0)
    ensures Depth(z) < Depth(z0) && Restored(z, t) == Restored(z0, t0)
  {
    hide Tied, Raised, Recoloured, Order, Rb, Ok, Plug;
    x, z, t, h := node, z0, t0, h0;
    RaisedParent(z, t, h);
    GoUp(header, repr, z, t);
    HereAbove(header, repr, z, t);
    HereAbove(header, repr, z.up, Above(z, t));
    var y := x.parent.parent.left;
    if y != null && !y.black {
      RecolourStep(z, t, h);
      RecolouredOrder(z, t);
      var g := x.parent.parent;
      Recolour(header, repr, x.parent, y, g, z, t);
      x, z, t, h := g, z.up.up, Recoloured(z, t), h + 1;
    } else {
      assert Black(z.up.other);
      if x == x.parent.left {
        RaisedIsRed(z, t, h);
        InnerStep(z, t, h);
        InwardOrder(z, t);
        x := x.parent;
        z, t := InwardRight(header, repr, x, z, t);
        HereAbove(header, repr, z, t);
        GoUp(header, repr, z, t);
        HereAbove(header, repr, z.up, Above(z, t));
        Here(header, repr, z, t);
      }
      TurnStep(z, t, h);
      TurnOrder(z, t);
      z := TurnLeft(header, repr, x.parent, x.parent.parent, z, t);
    }
  }

  /** Restores the colours after node has been added. */
  method InsertRebalance(header: Node, ghost repr: set<Node>, node: Node, ghost z0: Path<Node>,
      ghost t0: Tree<Node>, ghost h0: nat)
    returns (ghost w: Tree<Node>, ghost k: nat)
    requires Tied(header, repr, z0, t0) && t0.Fork? && node == t0.at && Raised(z0, Paint(t0, false), h0)
    modifies header`parent, repr
    ensures Tied(header, repr, Top, w) && w.Fork? && w.black && Rb(w, k) && Order(Top, w) == Order(z0, t0)
    ensures w == Restored(z0, Paint(t0, false))
  {
    hide Tied, Raised, Order, Rb, Ok, Restored;
    var x := node;
    ghost var z, t, h := z0, Paint(t0, false), h0;
    InRepr(header, repr, z0, t0);
    SetBlack(header, repr, x, false, z0, t0);
    PaintOrder(z0, t0, false);
    Here(header, repr, z, t);
    if !z.Top? { HereAbove(header, repr, z, t); }
    while x != header.parent && !x.parent.black
      invariant t.Fork? && x == t.at && Tied(header, repr, z, t) && Raised(z, t, h) && Order(z, t) == Order(z0, t0)
      invariant x.parent == Up(header, z) && (header.parent == x <==> z.Top?) && (!z.Top? ==> x.parent.black == z.black)
      invariant Restored(z, t) == Restored(z0, Paint(t0, false))
      decreases Depth(z)
    {
      RaisedParent(z, t, h);
      GoUp(header, repr, z, t);
      HereAbove(header, repr, z, t);
      HereAbove(header, repr, z.up, Above(z, t));
      if x.parent == x.parent.parent.left {
        x, z, t, h := RaiseLeft(header, repr, x, z, t, h);
      } else {
        x, z, t, h := RaiseRight(header, repr, x, z, t, h);
      }
      Here(header, repr, z, t);
      if !z.Top? { HereAbove(header, repr, z, t); }
    }
    RestoredEnds(z, t);
    w, k := BlackenRoot(header, repr, z, t, h);
  }

  lemma RaisedIsRed(z: Path<Node>, t: Tree<Node>, h: nat)
    requires Raised(z, t, h)
    ensures t.Fork? && !t.black
  {
  }

  lemma PaintOrder(z: Path<Node>, t: Tree<Node>, black: bool)
    requires t.Fork?
    ensures Order(z, Paint(t, black)) == Order(z, t)
  {
  }

  lemma RestoredEnds(z: Path<Node>, t: Tree<Node>)
    requires t.Fork? && (z.Top? || z.black)
    ensures Restored(z, t) == Paint(Plug(z, t), true)
  {
  }

  method BlackenRoot(header: Node, ghost repr: set<Node>, ghost z: Path<Node>, ghost t: Tree<Node>, ghost h: nat)
    returns (ghost w: Tree<Node>, ghost k: nat)
    requires Tied(header, repr, z, t) && Raised(z, t, h) && (z.Top? || z.black)
    modifies repr
    ensures Tied(header, repr, Top, w) && w.Fork? && w.black && Rb(w, k) && Order(Top, w) == Order(z, t)
    ensures w == Paint(Plug(z, t), true)
  {
    hide Tied;
    ghost var all := Plug(z, t);
    TiedPlug(header, repr, z, t);
    PlugOrder(z, t);
    RaisedEnds(z, t, h);
    InRepr(header, repr, Top, all);
    Here(header, repr, Top, all);
    SetBlack(header, repr, header.parent, true, Top, all);
    w := Paint(all, true);
    PaintOrder(Top, all, true);
    if z.Top? {
      k := h + 1;
    } else {
      k := PlugRb(z, t, h);
    }
  }

  // ----- rebalancing after a removal

  // a node that lacks a black node and is a left child

  /** The red sibling w becomes black and is rotated above the parent. */
  method RedSiblingLeft(header: Node, ghost repr: set<Node>, p: Node, w: Node, ghost z: Path<Node>, ghost t: Tree<Node>)
    requires Tied(header, repr, z, t) && z.InLeft? && z.other.Fork? && p == z.at && w == z.other.at
    modifies header`parent, repr
    ensures Tied(header, repr, LeftSibling(z), t)
  {
    hide Tied;
    GoUp(header, repr, z, t);
    ghost var t1 := Above(z, t);
    ghost var zs := InRight(z.up, t1.left, t1.at, t1.black, t1.value);
    GoRight(header, repr, z.up, t1);
    InRepr(header, repr, zs, z.other);
    SetBlack(header, repr, w, true, zs, z.other);
    GoUp(header, repr, zs, Paint(z.other, true));
    ghost var t2 := Above(zs, Paint(z.other, true));
    InRepr(header, repr, z.up, t2);
    SetBlack(header, repr, p, false, z.up, t2);
    RotateLeft(header, repr, p, z.up, Paint(t2, false));
    ghost var t3 := RbShape.RotateLeft(Paint(t2, false));
    GoLeft(header, repr, z.up, t3);
    GoLeft(header, repr, LeftSibling(z).up, t3.left);
  }

  /** The sibling becomes red. */
  method PassUpLeft(header: Node, ghost repr: set<Node>, w: Node, ghost z: Path<Node>, ghost t: Tree<Node>)
    requires Tied(header, repr, z, t) && z.InLeft? && z.other.Fork? && w == z.other.at
    modifies repr
    ensures Tied(header, repr, z.up, Above(WithOther(z, Paint(z.other, false)), t))
  {
    hide Tied;
    GoUp(header, repr, z, t);
    ghost var t1 := Above(z, t);
    ghost var zs := InRight(z.up, t1.left, t1.at, t1.black, t1.value);
    GoRight(header, repr, z.up, t1);
    InRepr(header, repr, zs, z.other);
    SetBlack(header, repr, w, false, zs, z.other);
    GoUp(header, repr, zs, Paint(z.other, false));
  }

  /** The sibling's inner child becomes black and is rotated above the sibling, which becomes red. */
  method BringOutLeft(header: Node, ghost repr: set<Node>, w: Node, c: Node, ghost z: Path<Node>, ghost t: Tree<Node>)
    requires Tied(header, repr, z, t) && z.InLeft? && z.other.Fork? && z.other.left.Fork?
    requires w == z.other.at && c == z.other.left.at
    modifies header`parent, repr
    ensures Tied(header, repr, WithOther(z, OuterRedLeft(z.other)), t)
  {
    hide Tied;
    GoUp(header, repr, z, t);
    ghost var t1 := Above(z, t);
    ghost var zs := InRight(z.up, t1.left, t1.at, t1.black, t1.value);
    GoRight(header, repr, z.up, t1);
    ghost var s := z.other;
    ghost var zc := InLeft(zs, s.at, s.black, s.value, s.right);
    GoLeft(header, repr, zs, s);
    InRepr(header, repr, zc, s.left);
    SetBlack(header, repr, c, true, zc, s.left);
    GoUp(header, repr, zc, Paint(s.left, true));
    ghost var s1 := Above(zc, Paint(s.left, true));
    InRepr(header, repr, zs, s1);
    SetBlack(header, repr, w, false, zs, s1);
    RotateRight(header, repr, w, zs, Paint(s1, false));
    ghost var s2 := RbShape.RotateRight(Paint(s1, false));
    GoUp(header, repr, zs, s2);
    GoLeft(header, repr, z.up, Above(zs, s2));
  }

  /** The sibling takes the parent's colour, parent and outer child become black, and the sibling is rotated up. */
  method SettleLeft(header: Node, ghost repr: set<Node>, p: Node, w: Node, c: Node, ghost z: Path<Node>,
      ghost t: Tree<Node>)
    requires Tied(header, repr, z, t) && z.InLeft? && z.other.Fork? && z.other.right.Fork?
    requires p == z.at && w == z.other.at && c == z.other.right.at
    modifies header`parent, repr
    ensures Tied(header, repr, z.up, Settled(z, t, z.other))
  {
    hide Tied;
    GoUp(header, repr, z, t);
    ghost var t1 := Above(z, t);
    ghost var zs := InRight(z.up, t1.left, t1.at, t1.black, t1.value);
    Here(header, repr, z.up, t1);
    GoRight(header, repr, z.up, t1);
    ghost var s := z.other;
    InRepr(header, repr, zs, s);
    SetBlack(header, repr, w, p.black, zs, s);
    GoUp(header, repr, zs, Paint(s, z.black));
    ghost var t2 := Above(zs, Paint(s, z.black));
    InRepr(header, repr, z.up, t2);
    SetBlack(header, repr, p, true, z.up, t2);
    ghost var t3 := Paint(t2, true);
    ghost var zs3 := InRight(z.up, t3.left, t3.at, t3.black, t3.value);
    GoRight(header, repr, z.up, t3);
    ghost var s3 := t3.right;
    ghost var zc := InRight(zs3, s3.left, s3.at, s3.black, s3.value);
    GoRight(header, repr, zs3, s3);
    InRepr(header, repr, zc, s3.right);
    SetBlack(header, repr, c, true, zc, s3.right);
    GoUp(header, repr, zc, Paint(s3.right, true));
    ghost var s4 := Above(zc, Paint(s3.right, true));
    GoUp(header, repr, zs3, s4);
    RotateLeft(header, repr, p, z.up, Above(zs3, s4));
  }

  // a node that lacks a black node and is a right child

  /** The red sibling w becomes black and is rotated above the parent. */
  method RedSiblingRight(header: Node, ghost repr: set<Node>, p: Node, w: Node, ghost z: Path<Node>,
      ghost t: Tree<Node>)
    requires Tied(header, repr, z, t) && z.InRight? && z.other.Fork? && p == z.at && w == z.other.at
    modifies header`parent, repr
    ensures Tied(header, repr, RightSibling(z), t)
  {
    hide Tied;
    GoUp(header, repr, z, t);
    ghost var t1 := Above(z, t);
    ghost var zs := InLeft(z.up, t1.at, t1.black, t1.value, t1.right);
    GoLeft(header, repr, z.up, t1);
    InRepr(header, repr, zs, z.other);
    SetBlack(header, repr, w, true, zs, z.other);
    GoUp(header, repr, zs, Paint(z.other, true));
    ghost var t2 := Above(zs, Paint(z.other, true));
    InRepr(header, repr, z.up, t2);
    SetBlack(header, repr, p, false, z.up, t2);
    RotateRight(header, repr, p, z.up, Paint(t2, false));
    ghost var t3 := RbShape.RotateRight(Paint(t2, false));
    GoRight(header, repr, z.up, t3);
    GoRight(header, repr, RightSibling(z).up, t3.right);
  }

  /** The sibling becomes red. */
  method PassUpRight(header: Node, ghost repr: set<Node>, w: Node, ghost z: Path<Node>, ghost t: Tree<Node>)
    requires Tied(header, repr, z, t) && z.InRight? && z.other.Fork? && w == z.other.at
    modifies repr
    ensures Tied(header, repr, z.up, Above(WithOther(z, Paint(z.other, false)), t))
  {
    hide Tied;
    GoUp(header, repr, z, t);
    ghost var t1 := Above(z, t);
    ghost var zs := InLeft(z.up, t1.at, t1.black, t1.value, t1.right);
    GoLeft(header, repr, z.up, t1);
    InRepr(header, repr, zs, z.other);
    SetBlack(header, repr, w, false, zs, z.other);
    GoUp(header, repr, zs, Paint(z.other, false));
  }

  /** The sibling's inner child becomes black and is rotated above the sibling, which becomes red. */
  method BringOutRight(header: Node, ghost repr: set<Node>, w: Node, c: Node, ghost z: Path<Node>, ghost t: Tree<Node>)
    requires Tied(header, repr, z, t) && z.InRight? && z.other.Fork? && z.other.right.Fork?
    requires w == z.other.at && c == z.other.right.at
    modifies header`parent, repr
    ensures Tied(header, repr, WithOther(z, OuterRedRight(z.other)), t)
  {
    hide Tied;
    GoUp(header, repr, z, t);
    ghost var t1 := Above(z, t);
    ghost var zs := InLeft(z.up, t1.at, t1.black, t1.value, t1.right);
    GoLeft(header, repr, z.up, t1);
    ghost var s := z.other;
    ghost var zc := InRight(zs, s.left, s.at, s.black, s.value);
    GoRight(header, repr, zs, s);
    InRepr(header, repr, zc, s.right);
    SetBlack(header, repr, c, true, zc, s.right);
    GoUp(header, repr, zc, Paint(s.right, true));
    ghost var s1 := Above(zc, Paint(s.right, true));
    InRepr(header, repr, zs, s1);
    SetBlack(header, repr, w, false, zs, s1);
    RotateLeft(header, repr, w, zs, Paint(s1, false));
    ghost var s2 := RbShape.RotateLeft(Paint(s1, false));
    GoUp(header, repr, zs, s2);
    GoRight(header, repr, z.up, Above(zs, s2));
  }

  /** The sibling takes the parent's colour, parent and outer child become black, and the sibling is rotated up. */
  method SettleRight(header: Node, ghost repr: set<Node>, p: Node, w: Node, c: Node, ghost z: Path<Node>,
      ghost t: Tree<Node>)
    requires Tied(header, repr, z, t) && z.InRight? && z.other.Fork? && z.other.left.Fork?
    requires p == z.at && w == z.other.at && c == z.other.left.at
    modifies header`parent, repr
    ensures Tied(header, repr, z.up, Settled(z, t, z.other))
  {
    hide Tied;
    GoUp(header, repr, z, t);
    ghost var t1 := Above(z, t);
    ghost var zs := InLeft(z.up, t1.at, t1.black, t1.value, t1.right);
    Here(header, repr, z.up, t1);
    GoLeft(header, repr, z.up, t1);
    ghost var s := z.other;
    InRepr(header, repr, zs, s);
    SetBlack(header, repr, w, p.black, zs, s);
    GoUp(header, repr, zs, Paint(s, z.black));
    ghost var t2 := Above(zs, Paint(s, z.black));
    InRepr(header, repr, z.up, t2);
    SetBlack(header, repr, p, true, z.up, t2);
    ghost var t3 := Paint(t2, true);
    ghost var zs3 := InLeft(z.up, t3.at, t3.black, t3.value, t3.right);
    GoLeft(header, repr, z.up, t3);
    ghost var s3 := t3.left;
    ghost var zc := InLeft(zs3, s3.at, s3.black, s3.value, s3.right);
    GoLeft(header, repr, zs3, s3);
    InRepr(header, repr, zc, s3.left);
    SetBlack(header, repr, c, true, zc, s3.left);
    GoUp(header, repr, zc, Paint(s3.left, true));
    ghost var s4 := Above(zc, Paint(s3.left, true));
    GoUp(header, repr, zs3, s4);
    RotateRight(header, repr, p, z.up, Above(zs3, s4));
  }

  /** One round for an empty left place below p. */
  method EmptyRoundLeft(header: Node, ghost repr: set<Node>, p: Node, ghost z0: Path<Node>)
    returns (settled: bool, x: Node?, ghost z: Path<Node>, ghost t: Tree<Node>, ghost h: nat)
    requires Tied(header, repr, z0, Leaf) && Short(z0, Leaf, 0) && z0.InLeft? && p == z0.at
    modifies header`parent, repr
    ensures Tied(header, repr, z, t) && Order(z, t) == Order(z0, Leaf)
    ensures settled ==> Rb(t, h) && Ok(z, h, Black(t)) && t.Fork? && Plug(z, t) == Refilled(z0, Leaf)
    ensures !settled ==> Short(z, t, h) && t.Fork? && x == t.at && Refilled(z, t) == Refilled(z0, Leaf)
  {
    hide Tied, Order, Short, Settled, OuterRedLeft, OuterRedRight, Helps, Rb, Ok, Refilled, Plug;
    z, t, h, x := z0, Leaf, 0, null;
    SiblingOf(z, t, h);
    HereAbove(header, repr, z, t);
    var w := p.right;
    if !w.black {
      RedSiblingStep(z, t, h);
      RefilledTurn(z, t);
      SiblingOrder(z, t);
      RedSiblingLeft(header, repr, p, w, z, t);
      z := LeftSibling(z);
      HereAbove(header, repr, z, t);
      w := p.right;
      SiblingOf(z, t, h);
    }
    if w.black && w.left == null && w.right == null {
      PassUpStep(z, t, h);
      RefilledPass(z, t);
      PassUpOrder(z, t);
      PassUpLeft(header, repr, w, z, t);
      h := h + Step(z.black);
      x, z, t := p, z.up, Above(WithOther(z, Paint(z.other, false)), t);
      return false, x, z, t, h;
    }
    RefilledSettle(z, t);
    ghost var s := z.other;
    if w.left != null {
      InnerRedStep(z, t, h);
      BringOutOrder(z, t);
      BringOutLeft(header, repr, w, w.left, z, t);
      s := OuterRedLeft(z.other);
      HereAbove(header, repr, WithOther(z, s), t);
      w := p.right;
    } else {
      OuterRedHelps(z, t, h);
      SameOther(z);
    }
    SettledSame(z, t, s, h);
    SettleStep(z, t, s, h);
    SettleOrder(WithOther(z, s), t);
    SettleLeft(header, repr, p, w, w.right, WithOther(z, s), t);
    settled := true;
    SettledFork(z, t, s);
    h := h + 1 + Step(z.black);
    z, t := z.up, Settled(z, t, s);
  }

  /** One round for an empty right place below p. */
  method EmptyRoundRight(header: Node, ghost repr: set<Node>, p: Node, ghost z0: Path<Node>)
    returns (settled: bool, x: Node?, ghost z: Path<Node>, ghost t: Tree<Node>, ghost h: nat)
    requires Tied(header, repr, z0, Leaf) && Short(z0, Leaf, 0) && z0.InRight? && p == z0.at
    modifies header`parent, repr
    ensures Tied(header, repr, z, t) && Order(z, t) == Order(z0, Leaf)
    ensures settled ==> Rb(t, h) && Ok(z, h, Black(t)) && t.Fork? && Plug(z, t) == Refilled(z0, Leaf)
    ensures !settled ==> Short(z, t, h) && t.Fork? && x == t.at && Refilled(z, t) == Refilled(z0, Leaf)
  {
    hide Tied, Order, Short, Settled, OuterRedLeft, OuterRedRight, Helps, Rb, Ok, Refilled, Plug;
    z, t, h, x := z0, Leaf, 0, null;
    SiblingOf(z, t, h);
    HereAbove(header, repr, z, t);
    var w := p.left;
    if !w.black {
      RedSiblingStep(z, t, h);
      RefilledTurn(z, t);
      SiblingOrder(z, t);
      RedSiblingRight(header, repr, p, w, z, t);
      z := RightSibling(z);
      HereAbove(header, repr, z, t);
      w := p.left;
      SiblingOf(z, t, h);
    }
    if w.black && w.left == null && w.right == null {
      PassUpStep(z, t, h);
      RefilledPass(z, t);
      PassUpOrder(z, t);
      PassUpRight(header, repr, w, z, t);
      h := h + Step(z.black);
      x, z, t := p, z.up, Above(WithOther(z, Paint(z.other, false)), t);
      return false, x, z, t, h;
    }
    RefilledSettle(z, t);
    ghost var s := z.other;
    if w.right != null {
      InnerRedStep(z, t, h);
      BringOutOrder(z, t);
      BringOutRight(header, repr, w, w.right, z, t);
      s := OuterRedRight(z.other);
      HereAbove(header, repr, WithOther(z, s), t);
      w := p.left;
    } else {
      OuterRedHelps(z, t, h);
      SameOther(z);
    }
    SettledSame(z, t, s, h);
    SettleStep(z, t, s, h);
    SettleOrder(WithOther(z, s), t);
    SettleRight(header, repr, p, w, w.left, WithOther(z, s), t);
    settled := true;
    SettledFork(z, t, s);
    h := h + 1 + Step(z.black);
    z, t := z.up, Settled(z, t, s);
  }

  /** One round for a black node x that is a left child. */
  method RoundLeft(header: Node, ghost repr: set<Node>, x0: Node, ghost z0: Path<Node>, ghost t0: Tree<Node>,
      ghost h0: nat)
    returns (x: Node, ghost z: Path<Node>, ghost t: Tree<Node>, ghost h: nat)
    requires Tied(header, repr, z0, t0) && Short(z0, t0, h0) && z0.InLeft? && t0.Fork? && t0.black && x0 == t0.at
    requires x0.parent == z0.at
    modifies header`parent, repr
    ensures Tied(header, repr, z, t) && Order(z, t) == Order(z0, t0) && Short(z, t, h) && t.Fork? && x == t.at
    ensures (z.Top? || !t.black || Depth(z) < Depth(z0)) && Refilled(z, t) == Refilled(z0, t0)
  {
    hide Tied, Order, Short, Settled, OuterRedLeft, OuterRedRight, Helps, Rb, Ok, Refilled, Plug;
    z, t, h, x := z0, t0, h0, x0;
    SiblingOf(z, t, h);
    HereAbove(header, repr, z, t);
    var w := x.parent.right;
    if !w.black {
      RedSiblingStep(z, t, h);
      RefilledTurn(z, t);
      SiblingOrder(z, t);
      RedSiblingLeft(header, repr, x.parent, w, z, t);
      z := LeftSibling(z);
      Here(header, repr, z, t);
      HereAbove(header, repr, z, t);
      w := x.parent.right;
      SiblingOf(z, t, h);
    }
    SiblingKids(header, repr, z, t);
    ghost var s := z.other;
    if w.left.black && w.right.black {
      PassUpStep(z, t, h);
      RefilledPass(z, t);
      PassUpOrder(z, t);
      var p := x.parent;
      PassUpLeft(header, repr, w, z, t);
      h := h + Step(z.black);
      x, z, t := p, z.up, Above(WithOther(z, Paint(z.other, false)), t);
      return;
    }
    RefilledSettle(z, t);
    if w.right.black {
      InnerRedStep(z, t, h);
      BringOutOrder(z, t);
      BringOutLeft(header, repr, w, w.left, z, t);
      s := OuterRedLeft(z.other);
      Here(header, repr, WithOther(z, s), t);
      HereAbove(header, repr, WithOther(z, s), t);
      w := x.parent.right;
    } else {
      OuterRedHelps(z, t, h);
      SameOther(z);
    }
    SettledSame(z, t, s, h);
    SettleStep(z, t, s, h);
    SettleOrder(WithOther(z, s), t);
    SettleLeft(header, repr, x.parent, w, w.right, WithOther(z, s), t);
    SettledFork(z, t, s);
    x, z, t, h := RootOf(header, repr, z.up, Settled(z, t, s), h + 1 + Step(z.black));
  }

  /** One round for a black node x that is a right child. */
  method RoundRight(header: Node, ghost repr: set<Node>, x0: Node, ghost z0: Path<Node>, ghost t0: Tree<Node>,
      ghost h0: nat)
    returns (x: Node, ghost z: Path<Node>, ghost t: Tree<Node>, ghost h: nat)
    requires Tied(header, repr, z0, t0) && Short(z0, t0, h0) && z0.InRight? && t0.Fork? && t0.black && x0 == t0.at
    requires x0.parent == z0.at
    modifies header`parent, repr
    ensures Tied(header, repr, z, t) && Order(z, t) == Order(z0, t0) && Short(z, t, h) && t.Fork? && x == t.at
    ensures (z.Top? || !t.black || Depth(z) < Depth(z0)) && Refilled(z, t) == Refilled(z0, t0)
  {
    hide Tied, Order, Short, Settled, OuterRedLeft, OuterRedRight, Helps, Rb, Ok, Refilled, Plug;
    z, t, h, x := z0, t0, h0, x0;
    SiblingOf(z, t, h);
    HereAbove(header, repr, z, t);
    var w := x.parent.left;
    if !w.black {
      RedSiblingStep(z, t, h);
      RefilledTurn(z, t);
      SiblingOrder(z, t);
      RedSiblingRight(header, repr, x.parent, w, z, t);
      z := RightSibling(z);
      Here(header, repr, z, t);
      HereAbove(header, repr, z, t);
      w := x.parent.left;
      SiblingOf(z, t, h);
    }
    SiblingKids(header, repr, z, t);
    ghost var s := z.other;
    if w.left.black && w.right.black {
      PassUpStep(z, t, h);
      RefilledPass(z, t);
      PassUpOrder(z, t);
      var p := x.parent;
      PassUpRight(header, repr, w, z, t);
      h := h + Step(z.black);
      x, z, t := p, z.up, Above(WithOther(z, Paint(z.other, false)), t);
      return;
    }
    RefilledSettle(z, t);
    if w.left.black {
      InnerRedStep(z, t, h);
      BringOutOrder(z, t);
      BringOutRight(header, repr, w, w.right, z, t);
      s := OuterRedRight(z.other);
      Here(header, repr, WithOther(z, s), t);
      HereAbove(header, repr, WithOther(z, s), t);
      w := x.parent.left;
    } else {
      OuterRedHelps(z, t, h);
      SameOther(z);
    }
    SettledSame(z, t, s, h);
    SettleStep(z, t, s, h);
    SettleOrder(WithOther(z, s), t);
    SettleRight(header, repr, x.parent, w, w.left, WithOther(z, s), t);
    SettledFork(z, t, s);
    x, z, t, h := RootOf(header, repr, z.up, Settled(z, t, s), h + 1 + Step(z.black));
  }

  /** The root of a tree that is in order again. */
  method RootOf(header: Node, ghost repr: set<Node>, ghost z0: Path<Node>, ghost t0: Tree<Node>, ghost h0: nat)
    returns (x: Node, ghost z: Path<Node>, ghost t: Tree<Node>, ghost h: nat)
    requires Tied(header, repr, z0, t0) && Rb(t0, h0) && Ok(z0, h0, Black(t0)) && t0.Fork?
    ensures Tied(header, repr, z, t) && Order(z, t) == Order(z0, t0) && Short(z, t, h) && z.Top? && t.Fork? && x == t.at
    ensures Refilled(z, t) == Plug(z0, t0)
  {
    z, t := Top, Plug(z0, t0);
    TiedPlug(header, repr, z0, t0);
    PlugOrder(z0, t0);
    h := PlugRb(z0, t0, h0);
    Here(header, repr, z, t);
    x := header.parent;
  }

  lemma SiblingKids(header: Node, repr: set<Node>, z: Path<Node>, t: Tree<Node>)
    requires Tied(header, repr, z, t) && !z.Top? && z.other.Fork? && z.other.left.Fork? && z.other.right.Fork?
    ensures z.other.left.at in repr && z.other.left.at.black == z.other.left.black
    ensures z.other.right.at in repr && z.other.right.at.black == z.other.right.black
  {
    assert Holds(z.other, z.at) && Holds(z.other.left, z.other.at) && Holds(z.other.right, z.other.at);
    assert Nodes(z.other) <= repr;
  }

  /** Fills up a place that lacks a black node: x is the node there, p the one above. */
  method EraseRebalance(header: Node, ghost repr: set<Node>, node: Node?, p: Node, ghost z0: Path<Node>,
      ghost t0: Tree<Node>, ghost h0: nat)
    returns (ghost w: Tree<Node>, ghost k: nat)
    requires Tied(header, repr, z0, t0) && Short(z0, t0, h0) && node == Ptr(t0) && p == Up(header, z0)
    requires t0.Leaf? ==> !z0.Top?
    modifies header`parent, repr
    ensures Tied(header, repr, Top, w) && w.Fork? && Rb(w, k) && Black(w) && Order(Top, w) == Order(z0, t0)
    ensures w == Refilled(z0, t0)
  {
    hide Tied, Order, Short, Rb, Ok, Refilled, Plug;
    var x := node;
    ghost var z, t, h := z0, t0, h0;
    if x == null {
      LeafHeight(z, t, h);
      SiblingOf(z, t, h);
      HereAbove(header, repr, z, t);
      var settled;
      if p.left == x {
        settled, x, z, t, h := EmptyRoundLeft(header, repr, p, z);
      } else {
        settled, x, z, t, h := EmptyRoundRight(header, repr, p, z);
      }
      if settled {
        w, k := Whole(header, repr, z, t, h);
        return;
      }
    }
    Here(header, repr, z, t);
    if !z.Top? { HereAbove(header, repr, z, t); }
    while x != header.parent && x.black
      invariant x != null && Tied(header, repr, z, t) && Order(z, t) == Order(z0, t0)
      invariant Short(z, t, h) && t.Fork? && x == t.at && Refilled(z, t) == Refilled(z0, t0)
      invariant (header.parent == x <==> z.Top?) && x.black == t.black && x.parent == Up(header, z)
      invariant !z.Top? ==> (x == x.parent.left <==> z.InLeft?)
      decreases if z.Top? || !t.black then 0 else Depth(z) + 1
    {
      if x == x.parent.left {
        x, z, t, h := RoundLeft(header, repr, x, z, t, h);
      } else {
        x, z, t, h := RoundRight(header, repr, x, z, t, h);
      }
      Here(header, repr, z, t);
      if !z.Top? { HereAbove(header, repr, z, t); }
    }
    RefilledEnds(z, t);
    h := ShortEnds(z, t, h);
    InRepr(header, repr, z, t);
    PaintOrder(z, t, true);
    SetBlack(header, repr, x, true, z, t);
    w, k := Whole(header, repr, z, Paint(t, true), h);
  }

  lemma RefilledEnds(z: Path<Node>, t: Tree<Node>)
    requires t.Fork? && (z.Top? || !t.black)
    ensures Refilled(z, t) == Plug(z, Paint(t, true))
  {
  }

  lemma LeafHeight(z: Path<Node>, t: Tree<Node>, h: nat)
    requires Short(z, t, h) && t.Leaf?
    ensures h == 0
  {
  }

  lemma Whole(header: Node, repr: set<Node>, z: Path<Node>, t: Tree<Node>, h: nat) returns (w: Tree<Node>, k: nat)
    requires Tied(header, repr, z, t) && Rb(t, h) && Ok(z, h, Black(t)) && (t.Fork? || !z.Top?)
    ensures Tied(header, repr, Top, w) && w.Fork? && Rb(w, k) && Black(w) && Order(Top, w) == Order(z, t)
    ensures w == Plug(z, t)
  {
    w := Plug(z, t);
    TiedPlug(header, repr, z, t);
    PlugOrder(z, t);
    k := PlugRb(z, t, h);
  }

  // ----- the tree

  ghost predicate EndsAre(header: Node, s: seq<Entry<Node>>)
    reads header`left, header`right
  {
    && header.left == (if s == [] then header else s[0].at)
    && header.right == (if s == [] then header else s[|s| - 1].at)
  }

  /** An empty tree's header points to itself; beyond that its ends may be any nodes: one that has been
      erased, or whatever has been made of it since. */
  ghost predicate Anchored(header: Node, s: seq<Entry<Node>>)
    reads header`left, header`right
  {
    && header.left != null && header.right != null
    && (s == [] ==> header.left == header && header.right == header)
  }

  ghost predicate FirstIs(header: Node, s: seq<Entry<Node>>)
    reads header`left
  {
    header.left == if s == [] then header else s[0].at
  }

  ghost predicate LastIs(header: Node, s: seq<Entry<Node>>)
    reads header`right
  {
    header.right == if s == [] then header else s[|s| - 1].at
  }

  predicate HasChild(y: Node)
    reads y`left, y`right
  {
    y.left != null || y.right != null
  }

  function Child(y: Node): Node?
    reads y`left, y`right
  {
    if y.left != null then y.left else y.right
  }

  /** What the header takes for the first node once y, which has one child at most, is gone. */
  ghost function LeftAfter(header: Node, y: Node): Node?
    reads header`left, header`parent, y`left, y`right, y`parent
    reads (if header.parent == null then {} else {header.parent})`left
  {
    if y.parent == header then if HasChild(y) then Child(y) else header
    else if HasChild(y) then
      if header.parent != null && y.parent == header.parent && y == header.parent.left then Child(y) else header.left
    else if y == header.left then y.parent else header.left
  }

  ghost function RightAfter(header: Node, y: Node): Node?
    reads header`left, header`right, header`parent, y`left, y`right, y`parent
    reads (if header.parent == null then {} else {header.parent})`left
  {
    if y.parent == header then if HasChild(y) then Child(y) else header
    else if HasChild(y) then
      if header.parent != null && y.parent == header.parent && y != header.parent.left then Child(y) else header.right
    else if y != header.left && y == header.right then y.parent else header.right
  }

  /** And what is the first node then. */
  ghost function FirstWithout(header: Node, s: seq<Entry<Node>>, y: Node): Node?
    requires s != []
    reads y`left, y`right, y`parent
  {
    if |s| == 1 then header else if s[0].at != y then s[0].at else if HasChild(y) then Child(y) else y.parent
  }

  ghost function LastWithout(header: Node, s: seq<Entry<Node>>, y: Node): Node?
    requires s != []
    reads y`left, y`right, y`parent
  {
    if |s| == 1 then header
    else if s[|s| - 1].at != y then s[|s| - 1].at else if HasChild(y) then Child(y) else y.parent
  }

  /** y, which has one child at most, is the first or the last node, and its child
      would not hang off the root: then the header goes on pointing to y. */
  ghost predicate Strands(header: Node, y: Node)
    reads header`left, header`right, header`parent, y`left, y`right, y`parent
  {
    && HasChild(y) && y.parent != header && y.parent != header.parent
    && (y == header.left || y == header.right)
  }

  class RedBlackTree {
    const header: Node
    // the value in the header, which nothing sets
    ghost const junk: Elem
    var nodeCount: nat
    ghost var repr: set<Node>
    ghost var tree: Tree<Node>
    ghost var height: nat

    constructor (junk: Elem)
      ensures Valid() && Ends() && Contents() == [] && tree == Leaf && fresh(header) && fresh(repr)
      ensures this.junk == junk
    {
      header := new Node(junk);
      this.junk := junk;
      nodeCount, repr, tree, height := 0, {}, Leaf, 0;
      new;
      header.black, header.parent, header.left, header.right := false, null, header, header;
    }

    /** Links, order, colours and the count are as they should be. */
    ghost predicate Valid()
      reads this, header, repr
    {
      && Tied(header, repr, Top, tree) && Rb(tree, height) && Black(tree)
      && Ascending(Contents()) && nodeCount == |Contents()| && !header.black
      && Anchored(header, Contents()) && header.value == junk
    }

    ghost function Contents(): seq<Entry<Node>>
      reads this
    {
      Entries(tree)
    }

    /** The header knows the first and the last node. */
    ghost predicate Ends()
      reads this, header
    {
      EndsAre(header, Contents())
    }

    ghost predicate FirstKnown()
      reads this, header
    {
      FirstIs(header, Contents())
    }

    ghost predicate LastKnown()
      reads this, header
    {
      LastIs(header, Contents())
    }

    /** v's place is left of the node that the header takes for the first. */
    ghost predicate LeftOfEnd(v: Elem)
      reads this, header`left
    {
      var z := Descent(Top, tree, v);
      z.InLeft? && z.at == header.left
    }

    /** What the header takes for the first node once n has been put at v's place. */
    ghost function LeftWith(n: Node, v: Elem): Node?
      reads this, header`left
    {
      if Contents() == [] || LeftOfEnd(v) then n else header.left
    }

    ghost function RightWith(n: Node, v: Elem): Node?
      reads this, header`right
    {
      var z := Descent(Top, tree, v);
      if Contents() == [] || (z.InRight? && z.at == header.right) then n else header.right
    }

    /** No entry is equivalent to v. */
    ghost predicate NoneEquivalent(v: Elem)
      reads this
    {
      forall k :: 0 <= k < |Contents()| ==> Contents()[k].value.rank != v.rank
    }

    /** v goes before everything there is. */
    ghost predicate BeforeFirst(v: Elem)
      reads this
    {
      Contents() != [] && AllAbove(Contents(), v)
    }

    /** A node that `create_node` may hand out: any but those in use, an erased one as well. */
    ghost predicate Free(n: Node)
      reads this
    {
      n !in repr && n != header
    }

    /** The header, or the root if the header takes that for the first node. */
    ghost function BeyondFirst(): Node?
      reads this, header`left, header`parent
    {
      if header.left == header.parent then header.parent else header
    }

    /** The node that goes when entry i is removed. */
    ghost function Victim(i: nat): Node
      requires i < |Contents()|
      reads this, Contents()[i].at
    {
      var n := Contents()[i].at;
      if n.left != null && n.right != null && i + 1 < |Contents()| then Contents()[i + 1].at else n
    }

    /** The place for v: behind everything that is not greater. */
    ghost predicate Place(z: Path<Node>, v: Elem)
      reads this, header, repr
    {
      && Tied(header, repr, z, Leaf) && Order(z, Leaf) == Contents() && Ok(z, 0, true)
      && NoneAbove(Before(z), v) && AllAbove(After(z), v)
      && z == Descent(Top, tree, v)
    }

    /** Whatever was done so far, no way down is longer than twice the logarithm of the number of values. */
    lemma Shallow()
      requires Valid()
      ensures Pow2((Height(tree) + 1) / 2) <= nodeCount + 1
    {
      hide Tied, Rb, Ascending;
      Balanced(tree, height);
    }

    method FindPlace(v: Elem) returns (y: Node, comp: bool, ghost z: Path<Node>)
      requires Valid()
      ensures Place(z, v) && y == Up(header, z) && comp == (z.Top? || z.InLeft?)
      ensures z.InLeft? ==> Less(v, z.value)
      ensures z.InRight? ==> !Less(v, z.value)
    {
      hide Tied, Rb, Ok, Order, Before, After, AllAbove, NoneAbove, Ascending;
      y := header;
      var x := header.parent;
      comp := true;
      ghost var t: Tree<Node>, h: nat := tree, height;
      z := Top;
      PlaceStarts(tree, height, v);
      if t.Fork? { Here(header, repr, z, t); } else { Nothing(header, repr, z, t); }
      while x != null
        invariant Tied(header, repr, z, t) && x == Ptr(t) && y == Up(header, z) && Order(z, t) == Contents()
        invariant Rb(t, h) && Ok(z, h, Black(t)) && NoneAbove(Before(z), v) && AllAbove(After(z), v)
        invariant Descent(z, t, v) == Descent(Top, tree, v)
        invariant comp == (z.Top? || z.InLeft?)
        invariant z.InLeft? ==> Less(v, z.value)
        invariant z.InRight? ==> !Less(v, z.value)
        decreases t
      {
        Here(header, repr, z, t);
        EnoughBlack(t, h);
        OkBelow(z, t, h);
        y := x;
        comp := Less(v, x.value);
        h := h - Step(t.black);
        if comp {
          x := x.left;
          DescendLeft(z, t, v);
          GoLeft(header, repr, z, t);
          AboveKeeps(InLeft(z, t.at, t.black, t.value, t.right), t.left);
          BeforeLeft(z, t);
          z, t := InLeft(z, t.at, t.black, t.value, t.right), t.left;
        } else {
          x := x.right;
          DescendRight(z, t, v);
          GoRight(header, repr, z, t);
          AboveKeeps(InRight(z, t.left, t.at, t.black, t.value), t.right);
          BeforeLeft(z, t);
          z, t := InRight(z, t.left, t.at, t.black, t.value), t.right;
        }
      }
      PlaceEnds(z, t, h);
    }

    /** Puts v into the free node n and that below y, at the place z. */
    method Insert(y: Node, v: Elem, n: Node, ghost z: Path<Node>)
      requires Valid() && Place(z, v) && y == Up(header, z) && Free(n)
      requires z.InLeft? ==> Less(v, z.value)
      requires z.InRight? ==> !Less(v, z.value)
      modifies this, header, repr, n
      ensures Valid() && Contents() == Before(z) + [Entry(n, v)] + After(z)
      ensures header.left == old(LeftWith(n, v)) && header.right == old(RightWith(n, v))
      ensures FirstKnown() <==> old(FirstKnown()) || (Before(z) == [] && n == old(header.left))
      ensures LastKnown() <==> old(LastKnown()) || (After(z) == [] && n == old(header.right))
      ensures repr == old(repr) + {n} && nodeCount == old(nodeCount) + 1 && tree == Grown(old(tree), n, v)
      ensures AllBelow(Before(z), v) && old(StrictlyAscending(Contents())) ==> StrictlyAscending(Contents())
    {
      hide Tied, Rb, Ok, Order, Ascending, StrictlyAscending, NoneAbove, AllAbove, AllBelow, Raised, Before, After,
        Restored, Descent, Anchored, FirstIs, LastIs;
      ghost var first, last, s, r := header.left, header.right, Contents(), repr;
      EndsSplit(header, s);
      KnownIn(header, repr, tree, height);
      PlaceFacts(header, repr, z, tree, n, v);
      HeaderApart(header, repr, Top, tree);
      if !z.Top? { HereAbove(header, repr, z, Leaf); }
      n.value := v;
      tree, height := Join(header, repr, y, n, z);
      repr, nodeCount := repr + {n}, nodeCount + 1;
      OrderTop(tree);
      GrownEnds(header, r, z, s, Entry(n, v), first, last);
    }

    /** Adds v, in the free node n, behind all entries that are not greater. */
    method InsertEqual(v: Elem, n: Node) returns (ghost i: nat)
      requires Valid() && Free(n)
      modifies this, header, repr, n
      ensures Valid() && nodeCount == old(nodeCount) + 1 && repr == old(repr) + {n}
      ensures header.left == old(LeftWith(n, v)) && header.right == old(RightWith(n, v))
      ensures FirstKnown() <==> old(FirstKnown()) || (old(AllAbove(Contents(), v)) && n == old(header.left))
      ensures LastKnown() <==> old(LastKnown()) || (old(NoneAbove(Contents(), v)) && n == old(header.right))
      ensures tree == Grown(old(tree), n, v)
      ensures i <= |old(Contents())| && Contents() == old(Contents()[..i]) + [Entry(n, v)] + old(Contents()[i..])
      ensures NoneAbove(old(Contents()[..i]), v) && AllAbove(old(Contents()[i..]), v)
    {
      hide Tied, Rb, Ok, Order, Ascending, NoneAbove, AllAbove, Before, After, Grown, Descent, Anchored,
        FirstIs, LastIs;
      var y, comp;
      ghost var z;
      y, comp, z := FindPlace(v);
      i := |Before(z)|;
      LeafSplit(z, Contents());
      BeforeAll(Before(z), After(z), v);
      Insert(y, v, n, z);
    }

    /** Adds v, in the free node n, unless an equivalent entry is there already; then that one is
        returned.  Left of the node that the header takes for the first, v is added in any case; before
        everything else, the value in the header decides, or v is refused if the header takes the root
        for the first node. */
    method InsertUnique(v: Elem, n: Node) returns (node: Node, inserted: bool, ghost i: nat)
      requires Valid() && Free(n)
      modifies this, header, repr, n
      ensures Valid()
      ensures inserted <==>
        if old(LeftOfEnd(v)) then true
        else if old(BeforeFirst(v)) then old(header.left != header.parent) && Less(junk, v)
        else old(NoneEquivalent(v))
      ensures old(FirstKnown()) ==> (inserted <==> old(NoneEquivalent(v)))
      ensures inserted ==>
        && node == n && i <= |old(Contents())|
        && AllAbove(old(Contents()[i..]), v) && NoneAbove(old(Contents()[..i]), v)
        && Contents() == old(Contents()[..i]) + [Entry(n, v)] + old(Contents()[i..])
        && repr == old(repr) + {n} && nodeCount == old(nodeCount) + 1 && tree == Grown(old(tree), n, v)
        && header.left == old(LeftWith(n, v)) && header.right == old(RightWith(n, v))
      ensures inserted ==>
        (FirstKnown() <==> old(FirstKnown()) || (old(AllAbove(Contents(), v)) && n == old(header.left)))
      ensures inserted ==>
        (LastKnown() <==> old(LastKnown()) || (old(NoneAbove(Contents(), v)) && n == old(header.right)))
      ensures inserted && old(StrictlyAscending(Contents())) ==>
        (StrictlyAscending(Contents()) <==> old(NoneEquivalent(v)))
      ensures !inserted ==> unchanged(this) && unchanged(header) && unchanged(old(repr)) && unchanged(n)
      ensures !inserted ==>
        if old(BeforeFirst(v)) then node == BeyondFirst()
        else i < |Contents()| && Contents()[i].at == node && Contents()[i].value.rank == v.rank
    {
      hide Tied, Rb, Ok, Order, Ascending, StrictlyAscending, NoneAbove, AllAbove, AllBelow, Before, After, Grown,
        Descent, Anchored, FirstIs, LastIs;
      var y, comp;
      ghost var z;
      y, comp, z := FindPlace(v);
      i := |Before(z)|;
      LeafSplit(z, Contents());
      Unmatched(Before(z), After(z), v);
      BeforeAll(Before(z), After(z), v);
      var j, none := Rival(y, comp, v, z);
      if none || Less(j.value, v) {
        Insert(y, v, n, z);
        TwiceThere(Before(z), Entry(n, v), After(z));
        node, inserted := n, true;
        return;
      }
      node, inserted := j, false;
      if i > 0 { i := i - 1; }
    }

    /** The node whose value decides whether v may be added at the place z; none left of the node that the
        header takes for the first. */
    method Rival(y: Node, comp: bool, ghost v: Elem, ghost z: Path<Node>) returns (j: Node, none: bool)
      requires Valid() && Place(z, v) && y == Up(header, z) && comp == (z.Top? || z.InLeft?)
      ensures none <==> Contents() == [] || LeftOfEnd(v)
      ensures FirstKnown() && Before(z) == [] ==> none
      ensures none && FirstKnown() ==> Before(z) == []
      ensures !none && Before(z) == [] ==> j == BeyondFirst() && Contents() != []
      ensures !none && Before(z) == [] && j == header.parent ==> !Less(j.value, v)
      ensures Before(z) != [] && !none ==>
        && |Before(z)| <= |Contents()| && j == Contents()[|Before(z)| - 1].at
        && j.value == Contents()[|Before(z)| - 1].value
    {
      hide Tied, Rb, Ok, Order, Ascending, NoneAbove, AllBelow, Before, After, Grown, Descent;
      ghost var i := |Before(z)|;
      LeafSplit(z, Contents());
      EndsOfPlace(header, repr, z, tree);
      Neighbours(z);
      HeaderApart(header, repr, Top, tree);
      if !z.Top? { HereAbove(header, repr, z, Leaf); }
      j, none := y, false;
      if comp {
        if j == header.left {
          none := true;
          return;
        } else {
          j := Decrement(j, i);
        }
      }
      if i > 0 { EntryIsHere(header, repr, tree, height, i - 1); } else { RootIsEntry(v, z); }
    }

    /** The root's value is that of an entry. */
    lemma RootIsEntry(v: Elem, z: Path<Node>)
      requires Valid() && Place(z, v) && Before(z) == [] && Contents() != []
      ensures header.parent != null && header.parent != header && !Less(header.parent.value, v)
    {
      hide Rb, Ok, Ascending, NoneAbove;
      LeafSplit(z, Contents());
      Here(header, repr, Top, tree);
      HeaderApart(header, repr, Top, tree);
      var l := |Entries(tree.left)|;
      assert Contents()[l] == Entry(tree.at, tree.value);
      assert Contents() == After(z);
    }

    /** The first node whose value is not less than v, or the header. */
    method LowerBound(v: Elem) returns (y: Node, ghost i: nat)
      requires Valid()
      ensures i <= |Contents()| && y == (if i == |Contents()| then header else Contents()[i].at)
      ensures AllBelow(Contents()[..i], v) && NoneBelow(Contents()[i..], v)
    {
      hide Tied, Rb, Ok, Order, Before, After, AllBelow, NoneBelow, Ascending;
      y := header;
      var x := header.parent;
      ghost var t: Tree<Node>, z: Path<Node> := tree, Top;
      SearchStarts(tree, v);
      if t.Fork? { Here(header, repr, z, t); } else { Nothing(header, repr, z, t); }
      while x != null
        invariant Tied(header, repr, z, t) && x == Ptr(t) && Order(z, t) == Contents()
        invariant AllBelow(Before(z), v) && NoneBelow(After(z), v)
        invariant y == if After(z) == [] then header else After(z)[0].at
        decreases t
      {
        Here(header, repr, z, t);
        BeforeLeft(z, t);
        if !Less(x.value, v) {
          SearchLeft(z, t, v);
          GoLeft(header, repr, z, t);
          y := x;
          x := x.left;
          z, t := InLeft(z, t.at, t.black, t.value, t.right), t.left;
          Neighbours(z);
        } else {
          SearchRight(z, t, v);
          GoRight(header, repr, z, t);
          x := x.right;
          z, t := InRight(z, t.left, t.at, t.black, t.value), t.right;
        }
        AboveKeeps(z, t);
      }
      i := |Before(z)|;
      LeafSplit(z, Contents());
      NodeAfter(z, Contents());
    }

    /** A node with a value equivalent to v, the first of them, or the header when there is none. */
    method Find(v: Elem) returns (y: Node, ghost i: nat)
      requires Valid()
      ensures y == header <==> forall k :: 0 <= k < |Contents()| ==> Contents()[k].value.rank != v.rank
      ensures y != header ==>
        && i < |Contents()| && y == Contents()[i].at && Contents()[i].value.rank == v.rank
        && AllBelow(Contents()[..i], v)
    {
      hide Tied, Rb;
      y, i := LowerBound(v);
      HeaderApart(header, repr, Top, tree);
      ghost var s := Contents();
      forall k | 0 <= k < |s| ensures k < i ==> s[k].value.rank < v.rank {
        if k < i { assert s[..i][k] == s[k]; }
      }
      forall k | 0 <= k < |s| ensures k >= i ==> v.rank <= s[k].value.rank {
        if k >= i { assert s[i..][k - i] == s[k]; }
      }
      if i < |s| { EntryIsHere(header, repr, tree, height, i); }
      if y == header || Less(v, y.value) {
        y := header;
      }
    }

    /** The node before entry i; before the end, what the header takes for the last node; before the
        first node, the header or the root. */
    method Decrement(n: Node, ghost i: nat) returns (node: Node)
      requires Valid() && i <= |Contents()| && Contents() != []
      requires n == if i == |Contents()| then header else Contents()[i].at
      ensures n == header ==> node == header.right
      ensures n != header && i > 0 ==> node == Contents()[i - 1].at
      ensures n != header && i == 0 ==> node == BeyondFirst()
    {
      hide Tied, Rb, Ok, Order, Ascending, Anchored, FirstIs, LastIs;
      node := n;
      ghost var z: Path<Node>, t: Tree<Node>, h := Top, tree, height;
      EndsSplit(header, Contents());
      Here(header, repr, Top, tree);
      HeaderApart(header, repr, Top, tree);
      if i < |Contents()| {
        z, t, h := LocateEntry(header, repr, tree, height, i);
        ElsewhereAbove(header, repr, z, t, h);
        Here(header, repr, z, t);
      }
      if !node.black && node.parent.parent == node {
        node := node.right;
      } else if node.left != null {
        node := MaximumBelow(node, z, t, i);
      } else {
        node := ClimbFromLeft(header, repr, node, z, t, i);
      }
    }

    /** The last node of the left subtree. */
    method MaximumBelow(n: Node, ghost z: Path<Node>, ghost t: Tree<Node>, ghost i: nat) returns (m: Node)
      requires Tied(header, repr, z, t) && t.Fork? && n == t.at && n.left != null && n.left == Ptr(t.left)
      requires |Before(z)| + |Entries(t.left)| == i < |Order(z, t)|
      ensures 0 < i && m == Order(z, t)[i - 1].at
    {
      hide Tied, Order;
      ghost var zl := InLeft(z, t.at, t.black, t.value, t.right);
      GoLeft(header, repr, z, t);
      AboveKeeps(zl, t.left);
      BeforeLeft(z, t);
      m := Maximum(header, repr, n.left, zl, t.left);
      InsideOrder(zl, t.left, |Entries(t.left)| - 1);
    }

    /** The node after entry i, or the header after the last. */
    method Increment(n: Node, ghost i: nat) returns (node: Node)
      requires Valid() && i < |Contents()| && n == Contents()[i].at
      ensures node == if i + 1 == |Contents()| then header else Contents()[i + 1].at
    {
      hide Tied, Rb, Ok, Order, Ascending;
      ghost var z, t, h := LocateEntry(header, repr, tree, height, i);
      Here(header, repr, z, t);
      if n.right != null {
        ghost var zr := InRight(z, t.left, t.at, t.black, t.value);
        GoRight(header, repr, z, t);
        AboveKeeps(zr, t.right);
        node := Minimum(header, repr, n.right, zr, t.right);
        InsideOrder(zr, t.right, 0);
      } else {
        RightmostOf(header, repr, z, t, tree);
        node := ClimbFromRight(header, repr, n, z, t);
        AfterOrder(z, t);
      }
    }

    /** Removes the entry at `position`.  When that node has two children, the next
        entry's value moves into it and the next entry's node is removed instead. */
    method Erase(position: Node, ghost i: nat)
      requires Valid() && i < |Contents()| && position == Contents()[i].at
      modifies this, header, repr
      ensures Valid() && nodeCount == old(nodeCount) - 1 && repr == old(repr) - {old(Victim(i))}
      ensures Contents() == Erased(old(Contents()), i, old(position.left != null && position.right != null))
      ensures Values(Contents()) == RemoveAt(Values(old(Contents())), i)
      ensures tree == Shrunk(old(tree), i)
      ensures header.left == old(LeftAfter(header, Victim(i))) && header.right == old(RightAfter(header, Victim(i)))
      ensures FirstKnown() <==>
        old(LeftAfter(header, Victim(i))) == old(FirstWithout(header, Contents(), Victim(i)))
      ensures LastKnown() <==>
        old(RightAfter(header, Victim(i))) == old(LastWithout(header, Contents(), Victim(i)))
      ensures old(Ends()) ==> (Ends() <==> !old(Strands(header, Victim(i))))
    {
      hide Tied, Rb, Ok, Order, Ascending, Short, Values, Erased, RemoveAt, SpotOf, Removed, Copied, Entries;
      hide FirstIs, LastIs, LeftAfter, RightAfter, FirstWithout, LastWithout, Anchored, EndsAre, Strands;
      ghost var z, t, h := LocateEntry(header, repr, tree, height, i);
      Here(header, repr, z, t);
      ghost var s, victim := Contents(), Victim(i);
      ghost var first, last := FirstWithout(header, s, victim), LastWithout(header, s, victim);
      var y := position;
      ErasedIs(s, i, position.left != null && position.right != null);
      if position.left != null && position.right != null {
        y, z, t, h := MoveSuccessor(header, repr, position, tree, height, z, t, h, i);
        SameEnds(header, s, Order(z, t), y);
        assert FirstWithout(header, s, y) == first && LastWithout(header, s, y) == last;
      }
      Remove(y, z, t, h);
    }

    /** Takes the node y, which has one child at most, out of the tree and restores the colours. */
    method Remove(y: Node, ghost z: Path<Node>, ghost t: Tree<Node>, ghost h: nat)
      requires Tied(header, repr, z, t) && t.Fork? && (t.left.Leaf? || t.right.Leaf?) && y == t.at
      requires Rb(t, h) && Ok(z, h, Black(t)) && !header.black && nodeCount == |Order(z, t)|
      requires Anchored(header, Order(z, t))
      modifies this, header`left, header`right, header`parent, repr
      ensures Tied(header, repr, Top, tree) && Rb(tree, height) && Black(tree) && !header.black
      ensures Anchored(header, Contents()) && repr == old(repr) - {y} && tree == Removed(z, t)
      ensures var j := |Before(z)| + |Entries(t.left)|;
        j < |Order(z, t)| && Contents() == Order(z, t)[..j] + Order(z, t)[j + 1..] && nodeCount == |Contents()|
      ensures header.left == old(LeftAfter(header, y)) && header.right == old(RightAfter(header, y))
      ensures FirstKnown() <==> old(LeftAfter(header, y)) == old(FirstWithout(header, Order(z, t), y))
      ensures LastKnown() <==> old(RightAfter(header, y)) == old(LastWithout(header, Order(z, t), y))
      ensures old(EndsAre(header, Order(z, t))) ==> (Ends() <==> !old(Strands(header, y)))
    {
      hide Tied, Rb, Ok, Order, Short, LeftAfter, RightAfter, FirstIs, LastIs, FirstWithout, LastWithout, Anchored,
        EndsAre, Strands, Entries, Before, After, OnlyChild, Black, Removed;
      SpliceOrder(z, t);
      HereFacts(header, repr, z, t);
      HeaderApart(header, repr, z, t);
      var x := if y.left != null then y.left else y.right;
      if y == header.parent {
        tree, height := RemoveRoot(header, repr, y, x, z, t, h);
      } else {
        tree, height := RemoveBelow(header, repr, y, x, z, t, h);
      }
      repr, nodeCount := repr - {y}, nodeCount - 1;
    }
  }

  /** Removes the root, which has one child at most. */
  method RemoveRoot(header: Node, ghost repr: set<Node>, y: Node, x: Node?,
      ghost z: Path<Node>, ghost t: Tree<Node>, ghost h: nat)
    returns (ghost tree: Tree<Node>, ghost height: nat)
    requires Tied(header, repr, z, t) && t.Fork? && (t.left.Leaf? || t.right.Leaf?)
    requires y == t.at && x == Ptr(OnlyChild(t)) && Rb(t, h) && Ok(z, h, Black(t)) && z.Top?
    modifies header`left, header`right, header`parent, repr
    ensures Tied(header, repr - {y}, Top, tree) && Rb(tree, height) && Black(tree)
    ensures Entries(tree) == Order(z, OnlyChild(t)) && tree == Removed(z, t)
    ensures Anchored(header, Entries(tree)) && EndsAre(header, Entries(tree)) && !old(Strands(header, y))
    ensures header.left == old(LeftAfter(header, y)) == old(FirstWithout(header, Order(z, t), y))
    ensures header.right == old(RightAfter(header, y)) == old(LastWithout(header, Order(z, t), y))
    ensures FirstIs(header, Entries(tree)) && LastIs(header, Entries(tree))
  {
    hide Tied, Rb, Ok, Order, FirstIs, LastIs, EndsAre, Strands, Entries, Removed, Anchored, LeftAfter, RightAfter,
      FirstWithout, LastWithout;
    ghost var c := OnlyChild(t);
    HereFacts(header, repr, z, t);
    HeaderApart(header, repr, z, t);
    SpliceColours(z, t, h);
    RootPair(z, t, h);
    RootGoes(header, Order(z, t), y);
    RootRemoved(z, t, h);
    if x == null {
      header.parent, header.left, header.right := null, header, header;
      tree, height := Leaf, 0;
      EmptyTree(header, repr, repr - {y}, z, t);
    } else {
      TopOrder(z, t, h);
      UnlinkRoot(header, repr, y, x, z, t);
      tree, height := Paint(c, true), 1;
      PaintOrder(z, c, true);
    }
    OrderTop(tree);
    LeafEntries();
    BothKnown(header, Entries(tree));
  }

  lemma LeafEntries()
    ensures Entries<Node>(Leaf) == []
  {
  }

  /** The root's tree when it has one child at most. */
  lemma RootPair(z: Path<Node>, t: Tree<Node>, h: nat)
    requires z.Top? && t.Fork? && (t.left.Leaf? || t.right.Leaf?) && Rb(t, h) && Ok(z, h, Black(t))
    ensures var s, c := Order(z, t), OnlyChild(t);
      && (c.Leaf? ==> s == [Entry(t.at, t.value)] && Order(z, c) == [])
      && (c.Fork? ==> |s| == 2 && (s[0].at == t.at || s[0].at == c.at) && (s[1].at == t.at || s[1].at == c.at))
  {
    SpliceColours(z, t, h);
    if OnlyChild(t).Fork? { LoneEntry(OnlyChild(t)); }
    assert Entries(t) == Entries(t.left) + ([Entry(t.at, t.value)] + Entries(t.right));
  }

  lemma RootRemoved(z: Path<Node>, t: Tree<Node>, h: nat)
    requires z.Top? && t.Fork? && Ok(z, h, Black(t))
    ensures Removed(z, t) == if OnlyChild(t).Leaf? then Leaf else Paint(OnlyChild(t), true)
  {
  }

  lemma RootGoes(header: Node, s: seq<Entry<Node>>, y: Node)
    requires y.parent == header && s != [] && (!HasChild(y) ==> |s| == 1)
    requires HasChild(y) ==> |s| == 2 && forall k :: 0 <= k < 2 ==> s[k].at == y || s[k].at == Child(y)
    ensures !Strands(header, y) && LeftAfter(header, y) == RightAfter(header, y)
    ensures LeftAfter(header, y) == FirstWithout(header, s, y) == LastWithout(header, s, y)
    ensures LeftAfter(header, y) == if HasChild(y) then Child(y) else header
  {
  }

  lemma BothKnown(header: Node, s: seq<Entry<Node>>)
    requires header.left != null && header.right == header.left && |s| <= 1
    requires header.left == if s == [] then header else s[0].at
    ensures FirstIs(header, s) && LastIs(header, s) && Anchored(header, s) && EndsAre(header, s)
  {
  }

  lemma SameEnds(header: Node, s: seq<Entry<Node>>, s': seq<Entry<Node>>, y: Node)
    requires s != [] && |s'| == |s| && s'[0].at == s[0].at && s'[|s| - 1].at == s[|s| - 1].at
    ensures FirstWithout(header, s', y) == FirstWithout(header, s, y)
    ensures LastWithout(header, s', y) == LastWithout(header, s, y)
    ensures Anchored(header, s') == Anchored(header, s) && EndsAre(header, s') == EndsAre(header, s)
  {
  }

  /** Removes a node that is not the root. */
  method RemoveBelow(header: Node, ghost repr: set<Node>, y: Node, x: Node?,
      ghost z: Path<Node>, ghost t: Tree<Node>, ghost h: nat)
    returns (ghost tree: Tree<Node>, ghost height: nat)
    requires Tied(header, repr, z, t) && t.Fork? && (t.left.Leaf? || t.right.Leaf?)
    requires y == t.at && x == Ptr(OnlyChild(t))
    requires Rb(t, h) && Ok(z, h, Black(t)) && !z.Top? && Anchored(header, Order(z, t))
    modifies header`left, header`right, header`parent, repr
    ensures Tied(header, repr - {y}, Top, tree) && Rb(tree, height) && Black(tree)
    ensures Entries(tree) == Order(z, OnlyChild(t)) && tree == Removed(z, t) && Anchored(header, Entries(tree))
    ensures header.left == old(LeftAfter(header, y)) && header.right == old(RightAfter(header, y))
    ensures FirstIs(header, Entries(tree)) <==> old(LeftAfter(header, y)) == old(FirstWithout(header, Order(z, t), y))
    ensures LastIs(header, Entries(tree)) <==> old(RightAfter(header, y)) == old(LastWithout(header, Order(z, t), y))
    ensures old(EndsAre(header, Order(z, t))) ==> (EndsAre(header, Entries(tree)) <==> !old(Strands(header, y)))
  {
    hide Tied, Rb, Ok, Order, Short, LeftAfter, RightAfter, Refilled, Plug, Strands, FirstWithout, LastWithout;
    ghost var c := OnlyChild(t);
    SpliceColours(z, t, h);
    EndsIn(header, repr, z, t, h);
    if EndsAre(header, Order(z, t)) { StrandsIs(header, repr, z, t, h); }
    Unlink(header, repr, y, x, z, t);
    if y.black {
      tree, height := EraseRebalance(header, repr - {y}, x, y.parent, z, c, h - 1);
    } else {
      tree, height := Whole(header, repr - {y}, z, c, h);
    }
    OrderTop(tree);
  }

  /** The first and the last node without y, and that y is not the root. */
  lemma EndsIn(header: Node, repr: set<Node>, z: Path<Node>, t: Tree<Node>, h: nat)
    requires Tied(header, repr, z, t) && !z.Top? && t.Fork? && (t.left.Leaf? || t.right.Leaf?)
    requires Rb(t, h) && Ok(z, h, Black(t))
    ensures var s, u := Order(z, t), Order(z, OnlyChild(t));
      && |s| > 1 && u != [] && s[0].at != s[|s| - 1].at
      && FirstWithout(header, s, t.at) == u[0].at && LastWithout(header, s, t.at) == u[|u| - 1].at
    ensures header !in repr && t.at in repr && t.at.black == t.black && t.at.parent == z.at && header.parent != t.at
  {
    hide Rb, Ok, Order, Tied;
    Here(header, repr, z, t);
    HereFacts(header, repr, z, t);
    HeaderApart(header, repr, z, t);
    NoTwinsIn(header, repr, z, t);
    EndsAfter(z, t, h);
  }

  lemma KnownIn(header: Node, repr: set<Node>, tree: Tree<Node>, h: nat)
    requires Tied(header, repr, Top, tree) && Rb(tree, h) && Black(tree)
    ensures var s := Entries(tree); s != [] ==> s[0].at in repr && s[|s| - 1].at in repr && header !in repr
  {
    hide Tied, Rb;
    HeaderApart(header, repr, Top, tree);
    if Entries(tree) != [] {
      EntryIsHere(header, repr, tree, h, 0);
      EntryIsHere(header, repr, tree, h, |Entries(tree)| - 1);
    }
  }

  lemma NotItsChild(header: Node, repr: set<Node>, z: Path<Node>, t: Tree<Node>)
    requires Tied(header, repr, z, t) && t.Fork? && (t.left.Leaf? || t.right.Leaf?)
    ensures Ptr(OnlyChild(t)) != t.at
  {
    hide Holds, HoldsPath;
    SpliceParts(header, repr, z, t);
  }

  lemma NoTwinsIn(header: Node, repr: set<Node>, z: Path<Node>, t: Tree<Node>)
    requires Tied(header, repr, z, t)
    ensures NoTwins(Order(z, t))
  {
    OrderHasNoTwins(z, t);
  }

  /** When the header knows both ends, it goes on to know them unless it is left pointing to y. */
  lemma StrandsIs(header: Node, repr: set<Node>, z: Path<Node>, t: Tree<Node>, h: nat)
    requires Tied(header, repr, z, t) && !z.Top? && t.Fork? && (t.left.Leaf? || t.right.Leaf?)
    requires Rb(t, h) && Ok(z, h, Black(t)) && EndsAre(header, Order(z, t))
    ensures var s, y := Order(z, t), t.at;
      s != [] &&
      (LeftAfter(header, y) == FirstWithout(header, s, y) && RightAfter(header, y) == LastWithout(header, s, y)
       <==> !Strands(header, y))
  {
    hide Rb, Ok, Order, Tied;
    EndsIn(header, repr, z, t, h);
    NoTwinsIn(header, repr, z, t);
    EndsAfter(z, t, h);
    RootAbove(header, repr, z, t);
    HereAbove(header, repr, z, t);
    HereFacts(header, repr, z, t);
    var s, y, c := Order(z, t), t.at, OnlyChild(t);
    NotItsChild(header, repr, z, t);
    assert HasChild(y) <==> c.Fork?;
    assert y == header.left <==> y == s[0].at;
    assert y == header.right <==> y == s[|s| - 1].at;
    if c.Fork? && z.up.Top? {
      assert LeftAfter(header, y) == if z.InLeft? then Child(y) else header.left;
      assert RightAfter(header, y) == if z.InLeft? then header.right else Child(y);
      assert !Strands(header, y);
    } else if c.Fork? {
      assert LeftAfter(header, y) == header.left;
      assert RightAfter(header, y) == header.right;
    } else {
      assert !Strands(header, y);
    }
  }

  function RemoveAt(s: seq<Elem>, i: nat): seq<Elem>
    requires i < |s|
  {
    s[..i] + s[i + 1..]
  }

  /** Entry i is gone; with two children its node lives on with the next entry's value. */
  function Erased(s: seq<Entry<Node>>, i: nat, two: bool): seq<Entry<Node>>
    requires i < |s|
  {
    if two && i + 1 < |s| then s[..i] + [Entry(s[i].at, s[i + 1].value)] + s[i + 2..] else s[..i] + s[i + 1..]
  }

  lemma ErasedIs(s: seq<Entry<Node>>, i: nat, two: bool)
    requires i < |s| && Ascending(s)
    ensures Ascending(Erased(s, i, two)) && |Erased(s, i, two)| == |s| - 1 && |Values(s)| == |s|
    ensures Values(Erased(s, i, two)) == RemoveAt(Values(s), i)
    ensures two && i + 1 < |s| ==>
      var u := s[i := Entry(s[i].at, s[i + 1].value)]; u[..i + 1] + u[i + 2..] == Erased(s, i, two)
    ensures !two ==> Erased(s, i, two) == s[..i] + s[i + 1..]
  {
    hide Ascending, Values, RemoveAt;
    RemoveAscending(s, i);
    RemoveValues(s, i);
    if two && i + 1 < |s| { ErasedTwo(s, i); }
  }

  lemma RemoveValues(s: seq<Entry<Node>>, i: nat)
    requires i < |s|
    ensures |Values(s)| == |s| && Values(s[..i] + s[i + 1..]) == RemoveAt(Values(s), i)
  {
  }

  lemma ErasedTwo(s: seq<Entry<Node>>, i: nat)
    requires i + 1 < |s| && Ascending(s)
    ensures var u := s[i := Entry(s[i].at, s[i + 1].value)];
      && u[..i + 1] + u[i + 2..] == Erased(s, i, true)
      && Ascending(Erased(s, i, true)) && |Values(s)| == |s| && Values(Erased(s, i, true)) == RemoveAt(Values(s), i)
  {
    hide Ascending;
    var u := s[i := Entry(s[i].at, s[i + 1].value)];
    RemoveAscending(s, i);
    RemoveAscending(u, i + 1);
    assert u[..i + 1] + u[i + 2..] == Erased(s, i, true);
  }

  method SetValue(header: Node, ghost repr: set<Node>, n: Node, v: Elem, ghost z: Path<Node>, ghost t: Tree<Node>)
    requires Tied(header, repr, z, t) && t.Fork? && n == t.at
    modifies n`value
    ensures Tied(header, repr, z, Fork(t.left, t.at, t.black, v, t.right))
  {
    n.value := v;
  }

  /** The value of the entry after `position`, whose node has two children, moves into it. */
  method MoveSuccessor(header: Node, ghost repr: set<Node>, position: Node, ghost tree: Tree<Node>, ghost height: nat,
                       ghost z0: Path<Node>, ghost t0: Tree<Node>, ghost h0: nat, ghost i: nat)
    returns (y: Node, ghost z: Path<Node>, ghost t: Tree<Node>, ghost h: nat)
    requires Tied(header, repr, Top, tree) && Rb(tree, height) && Black(tree) && i < |Entries(tree)|
    requires Tied(header, repr, z0, t0) && t0.Fork?
    requires Order(z0, t0) == Entries(tree) && |Before(z0)| + |Entries(t0.left)| == i
    requires Rb(t0, h0) && Ok(z0, h0, Black(t0)) && position == t0.at && t0.right.Fork?
    requires Spot(z0, t0) == SpotOf(Top, tree, i)
    modifies position`value
    ensures i + 1 < |Entries(tree)| && y == Entries(tree)[i + 1].at
    ensures Tied(header, repr, z, t) && t.Fork? && t.left.Leaf? && y == t.at && Rb(t, h) && Ok(z, h, Black(t))
    ensures Order(z, t) == Entries(tree)[i := Entry(position, Entries(tree)[i + 1].value)]
    ensures |Before(z)| + |Entries(t.left)| == i + 1 && Spot(z, t) == SpotOf(Top, Copied(tree, i), i + 1)
  {
    hide Tied, Rb, Ok, Order, Entries, SpotOf, Plug;
    ghost var zr := InRight(z0, t0.left, t0.at, t0.black, t0.value);
    Here(header, repr, z0, t0);
    GoRight(header, repr, z0, t0);
    y := Minimum(header, repr, position.right, zr, t0.right);
    SuccessorIs(z0, t0, Entries(tree), i);
    EntryIsHere(header, repr, tree, height, i + 1);
    ghost var v := y.value;
    SetValue(header, repr, position, y.value, z0, t0);
    SameColours(t0, v, h0);
    ValueMoves(z0, t0, v);
    z, t, h := Relocate(header, repr, z0, Fork(t0.left, t0.at, t0.black, v, t0.right), h0, i + 1);
    Here(header, repr, z, t);
  }

  lemma SuccessorIs(z: Path<Node>, t: Tree<Node>, s: seq<Entry<Node>>, i: nat)
    requires t.Fork? && t.right.Fork? && Order(z, t) == s && |Before(z)| + |Entries(t.left)| == i
    ensures i + 1 < |s| && |Entries(t.right)| > 0 && s[i + 1] == Entries(t.right)[0]
  {
    hide Order;
    var zr := InRight(z, t.left, t.at, t.black, t.value);
    AboveKeeps(zr, t.right);
    InsideOrder(zr, t.right, 0);
  }

  /** The place of entry j, after a change at another place. */
  lemma Relocate(header: Node, repr: set<Node>, z0: Path<Node>, u: Tree<Node>, h0: nat, j: nat)
    returns (z: Path<Node>, t: Tree<Node>, h: nat)
    requires Tied(header, repr, z0, u) && Rb(u, h0) && Ok(z0, h0, Black(u)) && j < |Order(z0, u)|
    ensures Tied(header, repr, z, t) && t.Fork? && Order(z, t) == Order(z0, u) && |Before(z)| + |Entries(t.left)| == j
    ensures Rb(t, h) && Ok(z, h, Black(t)) && Order(z0, u)[j] == Entry(t.at, t.value)
    ensures j < |Entries(Plug(z0, u))| && Spot(z, t) == SpotOf(Top, Plug(z0, u), j)
  {
    hide Tied, Rb, Ok;
    TiedPlug(header, repr, z0, u);
    PlugOrder(z0, u);
    OrderTop(Plug(z0, u));
    var k := PlugRb(z0, u, h0);
    z, t, h := LocateEntry(header, repr, Plug(z0, u), k, j);
  }

  lemma SameColours(t: Tree<Node>, v: Elem, h: nat)
    requires t.Fork?
    ensures var u := Fork(t.left, t.at, t.black, v, t.right); Rb(u, h) == Rb(t, h) && Black(u) == Black(t)
  {
  }

  /** A leaf is about to go: the header's first or last node may have to change. */
  method LeaveEnds(header: Node, y: Node, x: Node?)
    requires y.parent != null && header.left != null && header.right != null
    modifies header`left, header`right
    ensures header.left != null && header.right != null
    ensures x != null ==> header.left == old(header.left) && header.right == old(header.right)
    ensures x == null ==>
      && header.left == (if y == old(header.left) then y.parent else old(header.left))
      && header.right == (if y != old(header.left) && y == old(header.right) then y.parent else old(header.right))
  {
    if x == null {
      if y == header.left {
        header.left := y.parent;
      } else if y == header.right {
        header.right := y.parent;
      }
    }
  }

  /** x takes the place of y below y's parent. */
  method TakePlace(header: Node, ghost repr: set<Node>, y: Node, x: Node?, ghost z: Path<Node>, ghost t: Tree<Node>)
    requires Tied(header, repr, z, t) && t.Fork?
    requires (t.left.Leaf? || t.right.Leaf?) && y == t.at && x == Ptr(OnlyChild(t))
    requires !z.Top? && header.left != null && header.right != null
    modifies header`left, header`right, repr
    ensures Tied(header, repr - {y}, z, OnlyChild(t))
    ensures y.parent == old(y.parent) && y.black == old(y.black) && header.left != null && header.right != null
    ensures header.left == if x != null && z.InLeft? && z.up.Top? then x else old(header.left)
    ensures header.right == if x != null && z.InRight? && z.up.Top? then x else old(header.right)
  {
    hide Tied, Apart, Distinct, DistinctPath, HoldsPath, Holds, Nodes, PathNodes;
    ghost var c := OnlyChild(t);
    SpliceParts(header, repr, z, t);
    Here(header, repr, z, t);
    HereAbove(header, repr, z, t);
    RootAbove(header, repr, z, t);
    Reparent(x, y.parent, c, y);
    if y == y.parent.left {
      y.parent.left := x;
      if x != null && x.parent == header.parent {
        header.left := x;
      }
    } else {
      y.parent.right := x;
      if x != null && x.parent == header.parent {
        header.right := x;
      }
    }
    PathHolds(header, z, x);
    MakeTied(header, repr - {y}, z, c);
  }

  lemma RootAbove(header: Node, repr: set<Node>, z: Path<Node>, t: Tree<Node>)
    requires Tied(header, repr, z, t) && !z.Top?
    ensures header.parent == z.at <==> z.up.Top?
  {
    GoUp(header, repr, z, t);
    Here(header, repr, z.up, Above(z, t));
  }

  /** Takes the node y, which has no child but x, out of the tree; it is not the root. */
  method Unlink(header: Node, ghost repr: set<Node>, y: Node, x: Node?, ghost z: Path<Node>, ghost t: Tree<Node>)
    requires Tied(header, repr, z, t) && t.Fork?
    requires (t.left.Leaf? || t.right.Leaf?) && y == t.at && x == Ptr(OnlyChild(t))
    requires !z.Top? && header.left != null && header.right != null
    modifies header`left, header`right, repr
    ensures Tied(header, repr - {y}, z, OnlyChild(t))
    ensures y.parent == old(y.parent) && y.black == old(y.black) && header.left != null && header.right != null
    ensures header.left == old(LeftAfter(header, y)) && header.right == old(RightAfter(header, y))
  {
    hide Tied;
    HereFacts(header, repr, z, t);
    HeaderApart(header, repr, z, t);
    RootAbove(header, repr, z, t);
    HereAbove(header, repr, z, t);
    LeaveEnds(header, y, x);
    TakePlace(header, repr, y, x, z, t);
  }

  method UnlinkRoot(header: Node, ghost repr: set<Node>, y: Node, x: Node, ghost z: Path<Node>, ghost t: Tree<Node>)
    requires Tied(header, repr, z, t) && t.Fork?
    requires (t.left.Leaf? || t.right.Leaf?) && y == t.at && x == Ptr(OnlyChild(t))
    requires z.Top?
    modifies header`left, header`right, header`parent, repr
    ensures Tied(header, repr - {y}, z, Paint(OnlyChild(t), true)) && header.black == old(header.black)
    ensures header.left == header.right == x
  {
    hide Tied, Apart, Distinct, DistinctPath, HoldsPath, Holds, Nodes, PathNodes;
    ghost var c := OnlyChild(t);
    SpliceParts(header, repr, z, t);
    Here(header, repr, z, t);
    Reparent(x, y.parent, c, y);
    header.parent, header.left, header.right := x, x, x;
    PathHolds(header, z, x);
    MakeTied(header, repr - {y}, z, c);
    SetBlack(header, repr - {y}, x, true, z, c);
  }

  lemma SpliceParts(header: Node, repr: set<Node>, z: Path<Node>, t: Tree<Node>)
    requires Tied(header, repr, z, t) && t.Fork? && (t.left.Leaf? || t.right.Leaf?)
    ensures var c := OnlyChild(t);
      && Holds(c, t.at) && Distinct(c) && Nodes(c) <= repr && t.at !in Nodes(c) && header !in repr
      && Apart(z, c) && PathNodes(z) + Nodes(c) == repr - {t.at}
      && HoldsPath(header, z, t.at) && (c.Fork? ==> c.at in Nodes(c))
      && (!z.Top? ==>
            && z.at in repr && z.at !in Nodes(c) && z.at !in Nodes(z.other) && z.at !in PathNodes(z.up) && z.at != t.at
            && Nodes(z.other) !! Nodes(c) && PathNodes(z.up) !! Nodes(c)
            && Nodes(z.other) <= repr && PathNodes(z.up) <= repr
            && IsAbove(header, z, t.at) && Holds(z.other, z.at) && HoldsPath(header, z.up, z.at))
  {
    SpliceApart(z, t, repr);
  }

  /** A root with one child at most leaves just that child behind. */
  lemma TopOrder(z: Path<Node>, t: Tree<Node>, h: nat)
    requires z.Top? && t.Fork? && (t.left.Leaf? || t.right.Leaf?)
    requires OnlyChild(t).Fork? && Rb(t, h) && Ok(z, h, Black(t))
    ensures Order(z, OnlyChild(t)) == [Entry(OnlyChild(t).at, OnlyChild(t).value)]
  {
    SpliceColours(z, t, h);
    LoneEntry(OnlyChild(t));
  }

  lemma MakeTied(header: Node, repr: set<Node>, z: Path<Node>, t: Tree<Node>)
    requires header !in repr && PathNodes(z) + Nodes(t) == repr && Apart(z, t)
    requires Holds(t, Up(header, z)) && HoldsPath(header, z, Ptr(t))
    ensures Tied(header, repr, z, t)
  {
  }

  lemma HereFacts(header: Node, repr: set<Node>, z: Path<Node>, t: Tree<Node>)
    requires Tied(header, repr, z, t) && t.Fork? && (t.left.Leaf? || t.right.Leaf?)
    ensures Ptr(OnlyChild(t)) == (if t.at.left != null then t.at.left else t.at.right)
    ensures (header.parent == t.at <==> z.Top?) && t.at.black == t.black && t.at.parent == Up(header, z)
    ensures PathNodes(z) + Nodes(t) == repr
  {
    Here(header, repr, z, t);
  }

  lemma EmptyTree(header: Node, repr: set<Node>, rest: set<Node>, z: Path<Node>, t: Tree<Node>)
    requires z.Top? && t.Fork? && OnlyChild(t).Leaf? && (t.left.Leaf? || t.right.Leaf?)
    requires header.parent == null && PathNodes(z) + Nodes(t) == repr && rest == repr - {t.at} && header !in repr
    ensures Tied(header, rest, Top, Leaf) && Rb<Node>(Leaf, 0) && |Order(z, t)| == 1
  {
    assert Entries(t) == [Entry(t.at, t.value)];
    assert rest == {};
  }

  /** The last node of a subtree. */
  method Maximum(header: Node, ghost repr: set<Node>, x: Node, ghost z0: Path<Node>, ghost t0: Tree<Node>)
    returns (m: Node)
    requires Tied(header, repr, z0, t0) && t0.Fork? && x == t0.at
    ensures m == Entries(t0)[|Entries(t0)| - 1].at
  {
    hide Tied;
    m := x;
    ghost var z, t := z0, t0;
    Here(header, repr, z, t);
    while m.right != null
      invariant Tied(header, repr, z, t) && t.Fork? && m == t.at && m.right == Ptr(t.right)
      invariant Entries(t)[|Entries(t)| - 1] == Entries(t0)[|Entries(t0)| - 1]
      decreases t
    {
      GoRight(header, repr, z, t);
      z, t := InRight(z, t.left, t.at, t.black, t.value), t.right;
      m := m.right;
      Here(header, repr, z, t);
    }
  }

  /** The first node of a subtree. */
  method Minimum(header: Node, ghost repr: set<Node>, x: Node, ghost z0: Path<Node>, ghost t0: Tree<Node>)
    returns (m: Node)
    requires Tied(header, repr, z0, t0) && t0.Fork? && x == t0.at
    ensures m == Entries(t0)[0].at && m.left == null
  {
    hide Tied;
    m := x;
    ghost var z, t := z0, t0;
    Here(header, repr, z, t);
    while m.left != null
      invariant Tied(header, repr, z, t) && t.Fork? && m == t.at && m.left == Ptr(t.left)
      invariant Entries(t)[0] == Entries(t0)[0]
      decreases t
    {
      GoLeft(header, repr, z, t);
      z, t := InLeft(z, t.at, t.black, t.value, t.right), t.left;
      m := m.left;
      Here(header, repr, z, t);
    }
  }

  /** From a node without a left child up to the node before it. */
  method ClimbFromLeft(header: Node, ghost repr: set<Node>, n: Node, ghost z0: Path<Node>, ghost t0: Tree<Node>,
      ghost i: nat)
    returns (y: Node)
    requires Tied(header, repr, z0, t0) && t0.Fork? && n == t0.at && t0.left.Leaf? && |Before(z0)| == i
    ensures i > 0 ==> y == Order(z0, t0)[i - 1].at
    ensures i == 0 ==> y == if header.left == header.parent then header.parent else header
  {
    hide Tied, Order;
    var node := n;
    ghost var z, t, wrapped := z0, t0, false;
    Here(header, repr, z, t);
    HeaderApart(header, repr, z, t);
    LeftIsBelow(header, repr, z, t);
    y := node.parent;
    Neighbours(z);
    if !z.Top? { HereAbove(header, repr, z, t); }
    while node == y.left
      invariant wrapped ==>
        && i == 0 && z.Top? && node == header && y == header.parent && header.left == header.parent
        && y.left != header
      invariant !wrapped ==>
        && Tied(header, repr, z, t) && t.Fork? && node == t.at && node in repr && y == Up(header, z)
        && Order(z, t) == Order(z0, t0) && |Before(z)| == i && (header.parent == node <==> z.Top?)
        && (if z.Top? then i == 0 else (node == y.left <==> z.InLeft?)) && node.left == Ptr(t.left) != y
      decreases if wrapped then 0 else Depth(z) + 1
    {
      if z.Top? {
        wrapped := true;
      } else {
        GoUp(header, repr, z, t);
        AboveKeeps(z, t);
        BeforeAbove(z);
        z, t := z.up, Above(z, t);
      }
      Neighbours(z);
      node := y;
      if !wrapped {
        Here(header, repr, z, t);
        LeftIsBelow(header, repr, z, t);
        if !z.Top? { HereAbove(header, repr, z, t); }
      }
      y := node.parent;
    }
    if !z.Top? { BeforeEnds(z, t); }
  }

  /** From a node without a right child up to the node after it. */
  method ClimbFromRight(header: Node, ghost repr: set<Node>, n: Node, ghost z0: Path<Node>, ghost t0: Tree<Node>)
    returns (node: Node)
    requires Tied(header, repr, z0, t0) && t0.Fork? && n == t0.at && t0.right.Leaf?
    ensures node == if After(z0) == [] then header else After(z0)[0].at
  {
    hide Tied;
    node := n;
    ghost var z, t := z0, t0;
    Here(header, repr, z, t);
    HeaderApart(header, repr, z, t);
    RightIsBelow(header, repr, z, t);
    var y := node.parent;
    if !z.Top? { HereAbove(header, repr, z, t); }
    ghost var wrapped := false;
    while node == y.right
      invariant wrapped ==>
        && node == header && y != null && y == header.parent && header.right == header.parent
        && y.right != header && After(z0) == []
      invariant !wrapped ==>
        && Tied(header, repr, z, t) && t.Fork? && node == t.at && node in repr
        && y == Up(header, z) && After(z) == After(z0)
        && (header.parent == node <==> z.Top?) && (y == header <==> z.Top?)
        && (z.Top? || (node == y.right <==> z.InRight?))
        && node.right == Ptr(t.right) != y && (node == n || t.right.Fork?) && (node == n ==> t.right.Leaf?)
      decreases if wrapped then 0 else Depth(z) + 1
    {
      Neighbours(z);
      if z.Top? {
        wrapped := true;
      } else {
        GoUp(header, repr, z, t);
        z, t := z.up, Above(z, t);
      }
      node := y;
      if !wrapped {
        Here(header, repr, z, t);
        RightIsBelow(header, repr, z, t);
        if !z.Top? { HereAbove(header, repr, z, t); }
      }
      y := node.parent;
    }
    Neighbours(z);
    if node.right != y {
      node := y;
    }
  }

  /** Links the new node n below y and keeps the header's first and last node up to date. */
  method Attach(header: Node, ghost repr: set<Node>, y: Node, n: Node, ghost z: Path<Node>)
    requires Tied(header, repr, z, Leaf) && n !in repr && n != header && y == Up(header, z)
    requires z.InLeft? ==> Less(n.value, z.value)
    requires z.InRight? ==> !Less(n.value, z.value)
    modifies header`left, header`right, header`parent, n, if z.Top? then {} else {z.at}
    ensures Tied(header, repr + {n}, z, Fork(Leaf, n, n.black, n.value, Leaf))
    ensures header.left == if z.Top? || (z.InLeft? && z.at == old(header.left)) then n else old(header.left)
    ensures header.right == if z.Top? || (z.InRight? && z.at == old(header.right)) then n else old(header.right)
    ensures header.black == old(header.black) && n.value == old(n.value)
  {
    hide Apart, Distinct, DistinctPath, HoldsPath, Holds, Nodes, PathNodes;
    if !z.Top? { HereAbove(header, repr, z, Leaf); }
    PathParts(header, repr, z);
    ghost var t := Fork(Leaf, n, n.black, n.value, Leaf);
    ApartLeaf(header, repr, z, t);
    if y == header || Less(n.value, y.value) {
      if y == header {
        header.left, header.parent, header.right := n, n, n;
      } else {
        y.left := n;
        if y == header.left {
          header.left := n;
        }
      }
    } else {
      y.right := n;
      if y == header.right {
        header.right := n;
      }
    }
    n.parent, n.left, n.right := y, null, null;
    HoldsFork(t, y);
    HoldsLeaf(n);
    PathHolds(header, z, n);
  }

  /** Links the new node n below y and restores the colours. */
  method Join(header: Node, ghost repr: set<Node>, y: Node, n: Node, ghost z: Path<Node>)
    returns (ghost w: Tree<Node>, ghost k: nat)
    requires Tied(header, repr, z, Leaf) && Ok(z, 0, true) && n !in repr && n != header && y == Up(header, z)
    requires (if z.Top? then {} else {z.at}) <= repr
    requires z.InLeft? ==> Less(n.value, z.value)
    requires z.InRight? ==> !Less(n.value, z.value)
    modifies header`left, header`right, header`parent, n, repr
    ensures Tied(header, repr + {n}, Top, w) && Rb(w, k) && Black(w)
    ensures w == Restored(z, Fork(Leaf, n, false, old(n.value), Leaf))
    ensures Entries(w) == Order(z, Fork(Leaf, n, false, old(n.value), Leaf))
    ensures header.left == if z.Top? || (z.InLeft? && z.at == old(header.left)) then n else old(header.left)
    ensures header.right == if z.Top? || (z.InRight? && z.at == old(header.right)) then n else old(header.right)
  {
    hide Tied, Rb, Ok, Order, Raised, Restored;
    HeaderApart(header, repr, z, Leaf);
    Attach(header, repr, y, n, z);
    ghost var t := Fork(Leaf, n, n.black, n.value, Leaf);
    NewIsRaised(z, t);
    PaintOrder(z, t, false);
    assert Paint(t, false) == Fork(Leaf, n, false, old(n.value), Leaf);
    w, k := InsertRebalance(header, repr + {n}, n, z, t, 0);
    OrderTop(w);
  }

  lemma HoldsLeaf(up: Node)
    ensures Holds(Leaf, up)
  {
  }

  /** The fields of the node above a place, and the rest of the path. */
  ghost predicate IsAbove(header: Node, z: Path<Node>, p: Node?)
    reads header`parent, if z.Top? then {} else {z.at}
  {
    if z.Top? then header.parent == p
    else
      && z.at.black == z.black && z.at.value == z.value && z.at.parent == Up(header, z.up)
      && z.at.left == (if z.InLeft? then p else Ptr(z.other)) && z.at.right == (if z.InLeft? then Ptr(z.other) else p)
  }

  lemma PathHolds(header: Node, z: Path<Node>, p: Node?)
    ensures HoldsPath(header, z, p) <==>
      IsAbove(header, z, p) && (!z.Top? ==> Holds(z.other, z.at) && HoldsPath(header, z.up, z.at))
  {
  }

  lemma PathParts(header: Node, repr: set<Node>, z: Path<Node>)
    requires Tied(header, repr, z, Leaf)
    ensures HoldsPath(header, z, null) && PathNodes(z) == repr
    ensures !z.Top? ==>
      && z.at !in Nodes(z.other) && z.at !in PathNodes(z.up) && Nodes(z.other) <= repr && PathNodes(z.up) <= repr
      && IsAbove(header, z, null) && Holds(z.other, z.at) && HoldsPath(header, z.up, z.at)
  {
    assert Nodes<Node>(Leaf) == {};
  }

  lemma ApartLeaf(header: Node, repr: set<Node>, z: Path<Node>, t: Tree<Node>)
    requires Tied(header, repr, z, Leaf) && t.Fork? && t.left.Leaf? && t.right.Leaf? && t.at !in repr
    ensures Apart(z, t) && PathNodes(z) + Nodes(t) == repr + {t.at}
  {
    hide HoldsPath;
  }

  lemma NewIsRaised(z: Path<Node>, t: Tree<Node>)
    requires Ok(z, 0, true) && t.Fork? && t.left.Leaf? && t.right.Leaf?
    ensures Raised(z, Paint(t, false), 0)
  {
  }

  lemma LeafOrder(z: Path<Node>, n: Node, v: Elem)
    ensures Order(z, Leaf) == Before(z) + After(z)
    ensures forall b: bool :: Order(z, Fork(Leaf, n, b, v, Leaf)) == Before(z) + [Entry(n, v)] + After(z)
  {
    forall b: bool ensures Order(z, Fork(Leaf, n, b, v, Leaf)) == Before(z) + [Entry(n, v)] + After(z) {
      assert Entries(Fork(Leaf, n, b, v, Leaf)) == [Entry(n, v)];
    }
  }

  lemma OrderTop(t: Tree<Node>)
    ensures Order(Top, t) == Entries(t)
  {
  }

  lemma NewEnds(a: seq<Entry<Node>>, e: Entry<Node>, b: seq<Entry<Node>>)
    ensures var s := a + [e] + b;
      && |s| == |a + b| + 1
      && s[0] == (if a == [] then e else a[0]) && s[|s| - 1] == (if b == [] then e else b[|b| - 1])
      && (a != [] ==> (a + b)[0] == a[0]) && (b != [] ==> (a + b)[|a + b| - 1] == b[|b| - 1])
  {
  }

  /** What a new node n with v at its place does to the order. */
  lemma PlaceFacts(header: Node, repr: set<Node>, z: Path<Node>, tree: Tree<Node>, n: Node, v: Elem)
    requires Tied(header, repr, Top, tree) && Order(z, Leaf) == Entries(tree) && Ascending(Entries(tree))
    requires NoneAbove(Before(z), v) && AllAbove(After(z), v)
    ensures var u := Before(z) + [Entry(n, v)] + After(z);
      && Ascending(u) && (AllBelow(Before(z), v) && StrictlyAscending(Entries(tree)) ==> StrictlyAscending(u))
      && |u| == |Entries(tree)| + 1 && forall b: bool :: Order(z, Fork(Leaf, n, b, v, Leaf)) == u
    ensures Entries(tree) == Before(z) + After(z)
    ensures z.InLeft? ==> Entries(tree) != [] && (Entries(tree)[0].at == z.at <==> Before(z) == [])
    ensures z.InRight? ==> Entries(tree) != [] && (Entries(tree)[|Entries(tree)| - 1].at == z.at <==> After(z) == [])
    ensures z.Top? ==> Entries(tree) == []
  {
    hide Tied, Ascending, StrictlyAscending, NoneAbove, AllAbove, AllBelow, Before, After;
    LeafOrder(z, n, v);
    EndsOfPlace(header, repr, z, tree);
    InsertAscending(Before(z), Entry(n, v), After(z));
  }

  lemma EndsSplit(header: Node, s: seq<Entry<Node>>)
    requires Anchored(header, s)
    ensures header.left != null && header.right != null && (s == [] ==> header.left == header == header.right)
    ensures FirstIs(header, s) == (header.left == if s == [] then header else s[0].at)
    ensures LastIs(header, s) == (header.right == if s == [] then header else s[|s| - 1].at)
  {
  }

  /** The header's first and last node after a new entry e at the place z. */
  lemma GrownEnds(header: Node, repr: set<Node>, z: Path<Node>, s: seq<Entry<Node>>, e: Entry<Node>,
      first: Node, last: Node)
    requires s == Before(z) + After(z) && (s == [] ==> first == header == last)
    requires e.at !in repr + {header} && (!z.Top? ==> z.at in repr && header !in repr)
    requires s != [] ==> s[0].at in repr && s[|s| - 1].at in repr
    requires z.InLeft? ==> s != [] && (s[0].at == z.at <==> Before(z) == [])
    requires z.InRight? ==> s != [] && (s[|s| - 1].at == z.at <==> After(z) == [])
    requires z.Top? ==> s == []
    requires header.left == if z.Top? || (z.InLeft? && z.at == first) then e.at else first
    requires header.right == if z.Top? || (z.InRight? && z.at == last) then e.at else last
    ensures var u := Before(z) + [e] + After(z);
      && Anchored(header, u)
      && (FirstIs(header, u) <==>
            (first == if s == [] then header else s[0].at) || (Before(z) == [] && e.at == first))
      && (LastIs(header, u) <==>
            (last == if s == [] then header else s[|s| - 1].at) || (After(z) == [] && e.at == last))
  {
    NewEnds(Before(z), e, After(z));
    Neighbours(z);
  }

  /** The node above a place is the first of all exactly when nothing precedes the place on its left. */
  lemma EndsOfPlace(header: Node, repr: set<Node>, z: Path<Node>, tree: Tree<Node>)
    requires Tied(header, repr, Top, tree) && Entries(tree) == Before(z) + After(z)
    ensures z.InLeft? ==> After(z) != [] && Entries(tree) != [] && (Entries(tree)[0].at == z.at <==> Before(z) == [])
    ensures z.InRight? ==>
      Before(z) != [] && Entries(tree) != [] && (Entries(tree)[|Entries(tree)| - 1].at == z.at <==> After(z) == [])
    ensures z.Top? ==> Entries(tree) == [] == Before(z) == After(z)
  {
    hide Holds, HoldsPath;
    var s := Entries(tree);
    if z.InLeft? {
      assert After(z)[0].at == z.at && s[|Before(z)|] == After(z)[0];
      if Before(z) != [] { EntriesDistinct(tree, 0, |Before(z)|); }
    } else if z.InRight? {
      var k := |Before(z)| - 1;
      assert Before(z)[k].at == z.at && s[k] == Before(z)[k];
      if After(z) != [] { EntriesDistinct(tree, k, |s| - 1); }
    }
  }

  lemma HeaderApart(header: Node, repr: set<Node>, z: Path<Node>, t: Tree<Node>)
    requires Tied(header, repr, z, t)
    ensures header !in repr
  {
  }

  /** Two links up from a red node is another node: only the header has itself there. */
  lemma ElsewhereAbove(header: Node, repr: set<Node>, z: Path<Node>, t: Tree<Node>, h: nat)
    requires Tied(header, repr, z, t) && t.Fork? && Ok(z, h, Black(t))
    ensures t.at.parent != null && (z.Top? ==> t.at.black)
    ensures !z.Top? ==> t.at.parent.parent != null && t.at.parent.parent != t.at
  {
    hide Holds;
    Here(header, repr, z, t);
    if !z.Top? { HereAbove(header, repr, z, t); }
  }

  lemma BeforeEnds(z: Path<Node>, t: Tree<Node>)
    requires z.InRight?
    ensures |Before(z)| > 0 && Order(z, t)[|Before(z)| - 1].at == z.at
  {
    assert Before(z)[|Before(z)| - 1] == Entry(z.at, z.value);
  }

  lemma RightIsBelow(header: Node, repr: set<Node>, z: Path<Node>, t: Tree<Node>)
    requires Tied(header, repr, z, t) && t.Fork?
    ensures Ptr(t.right) != Up(header, z)
  {
  }

  lemma LeftIsBelow(header: Node, repr: set<Node>, z: Path<Node>, t: Tree<Node>)
    requires Tied(header, repr, z, t) && t.Fork?
    ensures Ptr(t.left) != Up(header, z)
  {
  }

  lemma SettledFork(z: Path<Node>, t: Tree<Node>, w: Tree<Node>)
    requires !z.Top? && w.Fork? && (z.InLeft? ==> w.right.Fork?) && (z.InRight? ==> w.left.Fork?)
    ensures Settled(z, t, w).Fork?
  {
  }

  lemma SameOther(z: Path<Node>)
    requires !z.Top?
    ensures WithOther(z, z.other) == z
  {
  }

  lemma BeforeAbove(z: Path<Node>)
    requires z.InLeft?
    ensures Before(z.up) == Before(z)
  {
  }

  lemma InsideOrder(z: Path<Node>, t: Tree<Node>, k: nat)
    requires k < |Entries(t)|
    ensures |Before(z)| + k < |Order(z, t)| && Order(z, t)[|Before(z)| + k] == Entries(t)[k]
  {
  }

  lemma AfterOrder(z: Path<Node>, t: Tree<Node>)
    ensures |Order(z, t)| == |Before(z)| + |Entries(t)| + |After(z)|
    ensures After(z) != [] ==> Order(z, t)[|Before(z)| + |Entries(t)|] == After(z)[0]
  {
  }

  /** A node without a right child is the last one exactly when nothing follows its place. */
  lemma RightmostOf(header: Node, repr: set<Node>, z: Path<Node>, t: Tree<Node>, tree: Tree<Node>)
    requires Tied(header, repr, Top, tree) && Order(z, t) == Entries(tree) && t.Fork? && t.right.Leaf?
    ensures Entries(tree) != [] && (Entries(tree)[|Entries(tree)| - 1].at == t.at <==> After(z) == [])
  {
    hide Holds, HoldsPath;
    OrderSplit(z, t);
    var k := |Before(z)| + |Entries(t.left)|;
    assert Entries(tree)[k] == Entry(t.at, t.value);
    if After(z) != [] { EntriesDistinct(tree, k, |Entries(tree)| - 1); }
  }

  lemma SearchStarts(t: Tree<Node>, v: Elem)
    ensures Order(Top, t) == Entries(t) && After<Node>(Top) == []
    ensures AllBelow(Before<Node>(Top), v) && NoneBelow(After<Node>(Top), v)
  {
  }

  lemma NodeAfter(z: Path<Node>, s: seq<Entry<Node>>)
    requires s == Before(z) + After(z)
    ensures if After(z) == [] then |s| == |Before(z)| else |Before(z)| < |s| && s[|Before(z)|] == After(z)[0]
  {
  }

  lemma LeafSplit(z: Path<Node>, s: seq<Entry<Node>>)
    requires Order(z, Leaf) == s
    ensures s == Before(z) + After(z) && s[..|Before(z)|] == Before(z) && s[|Before(z)|..] == After(z)
  {
  }

  lemma Neighbours(z: Path<Node>)
    ensures z.InLeft? ==> After(z) != [] && After(z)[0].at == z.at
    ensures z.InRight? ==> Before(z) != [] && Before(z)[|Before(z)| - 1].at == z.at
    ensures z.Top? ==> Before(z) == [] == After(z)
  {
  }

  /** Whether v has its match is decided by the last entry before its place. */
  lemma Unmatched(a: seq<Entry<Node>>, b: seq<Entry<Node>>, v: Elem)
    requires Ascending(a + b) && NoneAbove(a, v) && AllAbove(b, v)
    ensures a == [] ==> AllBelow(a, v) && forall k :: 0 <= k < |a + b| ==> (a + b)[k].value.rank != v.rank
    ensures a != [] ==> (a + b)[|a| - 1] == a[|a| - 1]
    ensures a != [] && a[|a| - 1].value.rank < v.rank ==>
      AllBelow(a, v) && forall k :: 0 <= k < |a + b| ==> (a + b)[k].value.rank != v.rank
    ensures a != [] && a[|a| - 1].value.rank >= v.rank ==> a[|a| - 1].value.rank == v.rank
  {
    if a != [] {
      forall k | 0 <= k < |a| ensures a[k].value.rank <= a[|a| - 1].value.rank {
        assert (a + b)[k] == a[k] && (a + b)[|a| - 1] == a[|a| - 1];
      }
    }
  }

  lemma BeforeAll(a: seq<Entry<Node>>, b: seq<Entry<Node>>, v: Elem)
    requires NoneAbove(a, v) && AllAbove(b, v)
    ensures AllAbove(a + b, v) <==> a == []
    ensures NoneAbove(a + b, v) <==> b == []
  {
    if a != [] { assert (a + b)[0] == a[0]; } else { assert a + b == b; }
    if b != [] { assert (a + b)[|a|] == b[0]; } else { assert a + b == a; }
  }

  /** A second entry that is equivalent ends the strict order. */
  lemma TwiceThere(a: seq<Entry<Node>>, e: Entry<Node>, b: seq<Entry<Node>>)
    requires NoneAbove(a, e.value) && AllAbove(b, e.value)
    ensures AllBelow(a, e.value) <==> forall k :: 0 <= k < |a + b| ==> (a + b)[k].value.rank != e.value.rank
    ensures !AllBelow(a, e.value) ==> !StrictlyAscending(a + [e] + b)
  {
    forall k | 0 <= k < |a + b| ensures (a + b)[k] == (if k < |a| then a[k] else b[k - |a|]) {}
    if !AllBelow(a, e.value) {
      var k :| 0 <= k < |a| && a[k].value.rank >= e.value.rank;
      assert (a + b)[k] == a[k];
      assert (a + [e] + b)[k] == a[k] && (a + [e] + b)[|a|] == e;
    } else {
      forall k | 0 <= k < |a + b| ensures (a + b)[k].value.rank != e.value.rank {}
    }
  }

  /** A node holds the value of its entry. */
  lemma EntryIsHere(header: Node, repr: set<Node>, tree: Tree<Node>, h: nat, i: nat)
    requires Tied(header, repr, Top, tree) && Rb(tree, h) && Black(tree) && i < |Entries(tree)|
    ensures Entries(tree)[i].at in repr && Entries(tree)[i].at.value == Entries(tree)[i].value
  {
    hide Tied, Rb;
    var z, t, k := LocateEntry(header, repr, tree, h, i);
    Here(header, repr, z, t);
  }

  lemma LocateEntry(header: Node, repr: set<Node>, tree: Tree<Node>, h0: nat, i: nat)
    returns (z: Path<Node>, t: Tree<Node>, h: nat)
    requires Tied(header, repr, Top, tree) && Rb(tree, h0) && Black(tree) && i < |Entries(tree)|
    ensures Tied(header, repr, z, t) && t.Fork? && Order(z, t) == Entries(tree) && |Before(z)| + |Entries(t.left)| == i
    ensures Rb(t, h) && Ok(z, h, Black(t)) && Entries(tree)[i] == Entry(t.at, t.value)
    ensures header.parent != null && header.parent.parent == header && header !in repr
    ensures Spot(z, t) == SpotOf(Top, tree, i)
  {
    hide Rb;
    OrderTop(tree);
    Here(header, repr, Top, tree);
    z, t, h := Locate(header, repr, Top, tree, h0, i);
    OrderSplit(z, t);
    assert Order(z, t)[i] == Entry(t.at, t.value);
  }

  /** The place of entry i. */
  lemma {:induction false} Locate(header: Node, repr: set<Node>, z0: Path<Node>, t0: Tree<Node>, h0: nat, i: nat)
    returns (z: Path<Node>, t: Tree<Node>, h: nat)
    requires Tied(header, repr, z0, t0) && |Before(z0)| <= i < |Before(z0)| + |Entries(t0)|
    requires Rb(t0, h0) && Ok(z0, h0, Black(t0))
    ensures Tied(header, repr, z, t) && t.Fork? && Order(z, t) == Order(z0, t0) && |Before(z)| + |Entries(t.left)| == i
    ensures Rb(t, h) && Ok(z, h, Black(t)) && Spot(z, t) == SpotOf(z0, t0, i - |Before(z0)|)
    decreases t0
  {
    hide Tied, Rb, Ok, Order, SpotOf, Entries, Before;
    SpotStep(z0, t0, i - |Before(z0)|);
    var zl, zr := InLeft(z0, t0.at, t0.black, t0.value, t0.right), InRight(z0, t0.left, t0.at, t0.black, t0.value);
    var l := |Before(z0)| + |Entries(t0.left)|;
    EnoughBlack(t0, h0);
    OkBelow(z0, t0, h0);
    BeforeBoth(z0, t0);
    if i == l {
      z, t, h := z0, t0, h0;
    } else if i < l {
      GoLeft(header, repr, z0, t0);
      AboveKeeps(zl, t0.left);
      z, t, h := Locate(header, repr, zl, t0.left, h0 - Step(t0.black), i);
    } else {
      GoRight(header, repr, z0, t0);
      AboveKeeps(zr, t0.right);
      z, t, h := Locate(header, repr, zr, t0.right, h0 - Step(t0.black), i);
    }
  }

  lemma BeforeBoth(z: Path<Node>, t: Tree<Node>)
    requires t.Fork?
    ensures |Before(InLeft(z, t.at, t.black, t.value, t.right))| == |Before(z)|
    ensures |Before(InRight(z, t.left, t.at, t.black, t.value))| == |Before(z)| + |Entries(t.left)| + 1
  {
  }

  lemma PlaceStarts(t: Tree<Node>, h: nat, v: Elem)
    requires Rb(t, h) && Black(t)
    ensures Order(Top, t) == Entries(t) && Ok<Node>(Top, h, Black(t))
    ensures NoneAbove(Before<Node>(Top), v) && AllAbove(After<Node>(Top), v)
  {
  }

  lemma PlaceEnds(z: Path<Node>, t: Tree<Node>, h: nat)
    requires t.Leaf? && Rb(t, h) && Ok(z, h, Black(t))
    ensures Ok(z, 0, true)
  {
  }

  lemma Nothing(header: Node, repr: set<Node>, z: Path<Node>, t: Tree<Node>)
    requires Tied(header, repr, z, t) && z.Top? && t.Leaf?
    ensures header.parent == null
  {
  }

  lemma BeforeLeft(z: Path<Node>, t: Tree<Node>)
    requires t.Fork?
    ensures Before(InLeft(z, t.at, t.black, t.value, t.right)) == Before(z)
    ensures After(InRight(z, t.left, t.at, t.black, t.value)) == After(z)
  {
  }
}
