/** Red-black trees as values: trees whose nodes carry a name, and paths to a
    place in a tree.  Every step of mystl/my_rb_tree.h is a change of such a value. */
module RbShape {
  import opened Powers
  import opened Range

  datatype Tree<N> = Leaf | Fork(left: Tree<N>, at: N, black: bool, value: Elem, right: Tree<N>)

  /** The way up from a place in a tree: the node above and its other subtree, and so on. */
  datatype Path<N> =
    | Top
    | InLeft(up: Path<N>, at: N, black: bool, value: Elem, other: Tree<N>)
    | InRight(up: Path<N>, other: Tree<N>, at: N, black: bool, value: Elem)

  // ----- nodes

  function Nodes<N>(t: Tree<N>): set<N> {
    if t.Leaf? then {} else Nodes(t.left) + {t.at} + Nodes(t.right)
  }

  function PathNodes<N>(z: Path<N>): set<N> {
    if z.Top? then {} else PathNodes(z.up) + {z.at} + Nodes(z.other)
  }

  predicate Distinct<N(==)>(t: Tree<N>) {
    t.Fork? ==>
      && t.at !in Nodes(t.left) && t.at !in Nodes(t.right) && Nodes(t.left) !! Nodes(t.right)
      && Distinct(t.left) && Distinct(t.right)
  }

  predicate DistinctPath<N(==)>(z: Path<N>) {
    !z.Top? ==>
      && z.at !in PathNodes(z.up) && z.at !in Nodes(z.other) && PathNodes(z.up) !! Nodes(z.other)
      && DistinctPath(z.up) && Distinct(z.other)
  }

  predicate Apart<N(==)>(z: Path<N>, t: Tree<N>) { Distinct(t) && DistinctPath(z) && PathNodes(z) !! Nodes(t) }

  // ----- entries, in order

  datatype Entry<N> = Entry(at: N, value: Elem)

  function Entries<N>(t: Tree<N>): seq<Entry<N>> {
    if t.Leaf? then [] else Entries(t.left) + ([Entry(t.at, t.value)] + Entries(t.right))
  }

  function Before<N>(z: Path<N>): seq<Entry<N>> {
    match z
    case Top => []
    case InLeft(up, _, _, _, _) => Before(up)
    case InRight(up, other, n, _, v) => Before(up) + (Entries(other) + [Entry(n, v)])
  }

  function After<N>(z: Path<N>): seq<Entry<N>> {
    match z
    case Top => []
    case InLeft(up, n, _, v, other) => ([Entry(n, v)] + Entries(other)) + After(up)
    case InRight(up, _, _, _, _) => After(up)
  }

  /** All entries of the tree that has t at the place z. */
  function Order<N>(z: Path<N>, t: Tree<N>): seq<Entry<N>> { Before(z) + Entries(t) + After(z) }

  /** The tree one step up from t. */
  function Above<N>(z: Path<N>, t: Tree<N>): Tree<N>
    requires !z.Top?
  {
    match z
    case InLeft(_, n, b, v, other) => Fork(t, n, b, v, other)
    case InRight(_, other, n, b, v) => Fork(other, n, b, v, t)
  }

  lemma AboveKeeps<N>(z: Path<N>, t: Tree<N>)
    requires !z.Top?
    ensures Order(z.up, Above(z, t)) == Order(z, t)
    ensures Apart(z, t) <==> Apart(z.up, Above(z, t))
    ensures PathNodes(z.up) + Nodes(Above(z, t)) == PathNodes(z) + Nodes(t)
  {
    if z.InLeft? {
      AppendAssoc(Before(z.up), Entries(t), [Entry(z.at, z.value)] + Entries(z.other), After(z.up));
    } else {
      var e := [Entry(z.at, z.value)];
      AppendAssoc(Before(z.up), Entries(z.other) + e, Entries(t), After(z.up));
      assert Entries(z.other) + (e + Entries(t)) == (Entries(z.other) + e) + Entries(t);
    }
  }

  lemma AppendAssoc<T>(a: seq<T>, b: seq<T>, c: seq<T>, d: seq<T>)
    ensures a + (b + c) + d == a + b + (c + d) == (a + b) + c + d
  {
  }

  // ----- rotations

  function RotateLeft<N>(t: Tree<N>): Tree<N>
    requires t.Fork? && t.right.Fork?
  {
    var y := t.right;
    Fork(Fork(t.left, t.at, t.black, t.value, y.left), y.at, y.black, y.value, y.right)
  }

  function RotateRight<N>(t: Tree<N>): Tree<N>
    requires t.Fork? && t.left.Fork?
  {
    var y := t.left;
    Fork(y.left, y.at, y.black, y.value, Fork(y.right, t.at, t.black, t.value, t.right))
  }

  lemma RotateLeftKeeps<N>(z: Path<N>, t: Tree<N>)
    requires t.Fork? && t.right.Fork?
    ensures var r := RotateLeft(t);
      && Entries(r) == Entries(t) && Order(z, r) == Order(z, t)
      && Nodes(r) == Nodes(t) && (Apart(z, t) <==> Apart(z, r))
  {
    hide Apart;
    var y := t.right;
    EntriesRotate(Entries(t.left), Entry(t.at, t.value), Entries(y.left), Entry(y.at, y.value), Entries(y.right));
    assert Nodes(RotateLeft(t)) == Nodes(t);
    RotateLeftApart(z, t);
  }

  lemma EntriesRotate<T>(a: seq<T>, x: T, b: seq<T>, y: T, c: seq<T>)
    ensures a + ([x] + (b + ([y] + c))) == (a + ([x] + b)) + ([y] + c)
  {
  }

  lemma RotateLeftApart<N>(z: Path<N>, t: Tree<N>)
    requires t.Fork? && t.right.Fork? && Nodes(RotateLeft(t)) == Nodes(t)
    ensures Apart(z, t) <==> Apart(z, RotateLeft(t))
  {
    hide DistinctPath, PathNodes;
    assert Distinct(t) <==> Distinct(RotateLeft(t)) by { RotateLeftDistinct(t); }
  }

  lemma RotateLeftDistinct<N>(t: Tree<N>)
    requires t.Fork? && t.right.Fork?
    ensures Distinct(t) <==> Distinct(RotateLeft(t))
  {
    var y := t.right;
    var r := RotateLeft(t);
    assert Nodes(y) == Nodes(y.left) + {y.at} + Nodes(y.right);
    assert Nodes(r.left) == Nodes(t.left) + {t.at} + Nodes(y.left);
  }

  lemma RotateRightKeeps<N>(z: Path<N>, t: Tree<N>)
    requires t.Fork? && t.left.Fork?
    ensures var r := RotateRight(t);
      && Entries(r) == Entries(t) && Order(z, r) == Order(z, t)
      && Nodes(r) == Nodes(t) && (Apart(z, t) <==> Apart(z, r))
  {
    RotateLeftKeeps(z, RotateRight(t));
  }

  /** The tree with another colour at its root. */
  function Paint<N>(t: Tree<N>, black: bool): (r: Tree<N>)
    requires t.Fork?
    ensures r.Fork?
  {
    t.(black := black)
  }

  function PaintPath<N>(z: Path<N>, black: bool): Path<N>
    requires !z.Top?
  {
    match z
    case InLeft(up, n, _, v, other) => InLeft(up, n, black, v, other)
    case InRight(up, other, n, _, v) => InRight(up, other, n, black, v)
  }

  /** The path with another sibling. */
  function WithOther<N>(z: Path<N>, w: Tree<N>): Path<N>
    requires !z.Top?
  {
    match z
    case InLeft(up, n, b, v, _) => InLeft(up, n, b, v, w)
    case InRight(up, _, n, b, v) => InRight(up, w, n, b, v)
  }

  // ----- colours

  predicate Black<N>(t: Tree<N>) { t.Fork? ==> t.black }

  function Step(black: bool): nat { if black then 1 else 0 }

  /** Every way down has h black nodes, and no red node has a red child. */
  predicate Rb<N>(t: Tree<N>, h: nat) {
    if t.Leaf? then h == 0
    else if t.black then h > 0 && Rb(t.left, h - 1) && Rb(t.right, h - 1)
    else Black(t.left) && Black(t.right) && Rb(t.left, h) && Rb(t.right, h)
  }

  /** The number of nodes on the longest way down. */
  function Height<N>(t: Tree<N>): nat {
    if t.Leaf? then 0 else 1 + if Height(t.left) > Height(t.right) then Height(t.left) else Height(t.right)
  }

  lemma {:induction false} HeightBound<N>(t: Tree<N>, h: nat)
    requires Rb(t, h)
    ensures Height(t) <= 2 * h + (if Black(t) then 0 else 1) && Pow2(h) <= |Entries(t)| + 1
    decreases t
  {
    if t.Fork? {
      HeightBound(t.left, h - Step(t.black));
      HeightBound(t.right, h - Step(t.black));
    }
  }

  /** The longest way down is at most twice the logarithm of the size. */
  lemma Balanced<N>(t: Tree<N>, h: nat)
    requires Rb(t, h) && Black(t)
    ensures Pow2((Height(t) + 1) / 2) <= |Entries(t)| + 1
  {
    HeightBound(t, h);
    Pow2Grows((Height(t) + 1) / 2, h);
  }

  /** With a subtree of black height h in its place, whose root is black or not, the
      whole tree is a red-black tree with a black root. */
  predicate Ok<N>(z: Path<N>, h: nat, black: bool) {
    if z.Top? then black
    else
      && Rb(z.other, h) && (!z.black ==> black && Black(z.other)) && Ok(z.up, h + Step(z.black), z.black)
  }

  /** One step up. */
  lemma OkAbove<N>(z: Path<N>, t: Tree<N>, h: nat)
    requires !z.Top? && Rb(t, h) && Ok(z, h, Black(t))
    ensures Rb(Above(z, t), h + Step(z.black)) && Ok(z.up, h + Step(z.black), Black(Above(z, t)))
  {
  }

  // ----- the steps of the rebalancing after an insertion

  /** x is red and its subtree is in order; only its parent may be red as well. */
  predicate Raised<N>(z: Path<N>, t: Tree<N>, h: nat) { t.Fork? && !t.black && Rb(t, h) && Ok(z, h, true) }

  lemma RaisedParent<N>(z: Path<N>, t: Tree<N>, h: nat)
    requires Raised(z, t, h) && !z.Top? && !z.black
    ensures !z.up.Top? && z.up.black && Rb(z.other, h) && Black(z.other)
    ensures Rb(z.up.other, h) && Ok(z.up.up, h + 1, true)
  {
    assert Ok(z.up, h, false);
  }

  /** The uncle is red: parent and uncle become black, the grandparent red. */
  function Recoloured<N>(z: Path<N>, t: Tree<N>): Tree<N>
    requires !z.Top? && !z.up.Top? && z.up.other.Fork?
  {
    Paint(Above(WithOther(z.up, Paint(z.up.other, true)), Above(PaintPath(z, true), t)), false)
  }

  lemma RecolourStep<N>(z: Path<N>, t: Tree<N>, h: nat)
    requires Raised(z, t, h) && !z.Top? && !z.black && !z.up.Top? && z.up.other.Fork? && !z.up.other.black
    ensures Raised(z.up.up, Recoloured(z, t), h + 1)
  {
    RaisedParent(z, t, h);
  }

  /** The uncle is black: a rotation puts the parent above the grandparent. */
  lemma TurnStep<N>(z: Path<N>, t: Tree<N>, h: nat)
    requires Raised(z, t, h) && !z.Top? && !z.black && !z.up.Top? && Black(z.up.other)
    ensures z.InLeft? && z.up.InLeft? ==>
      Raised(InLeft(z.up.up, z.at, true, z.value, Fork(z.other, z.up.at, false, z.up.value, z.up.other)), t, h)
    ensures z.InRight? && z.up.InRight? ==>
      Raised(InRight(z.up.up, Fork(z.up.other, z.up.at, false, z.up.value, z.other), z.at, true, z.value), t, h)
  {
    RaisedParent(z, t, h);
  }

  /** x is on the inside: a rotation exchanges it with its parent. */
  lemma InnerStep<N>(z: Path<N>, t: Tree<N>, h: nat)
    requires Raised(z, t, h) && !z.Top? && !z.black
    ensures z.InRight? ==>
      Raised(InLeft(z.up, t.at, false, t.value, t.right), Fork(z.other, z.at, false, z.value, t.left), h)
    ensures z.InLeft? ==>
      Raised(InRight(z.up, t.left, t.at, false, t.value), Fork(t.right, z.at, false, z.value, z.other), h)
  {
    RaisedParent(z, t, h);
  }

  /** The loop has ended. */
  lemma RaisedEnds<N>(z: Path<N>, t: Tree<N>, h: nat)
    requires Raised(z, t, h) && (z.Top? || z.black)
    ensures z.Top? ==> Rb(Paint(t, true), h + 1)
    ensures !z.Top? ==> Ok(z, h, false)
  {
  }

  // ----- the steps of the rebalancing after a removal

  /** The subtree at z lacks one black node: it has h where h + 1 are needed.  A red
      root of it makes up for that by becoming black. */
  predicate Short<N>(z: Path<N>, t: Tree<N>, h: nat) {
    && Ok(z, h + 1, true)
    && if Black(t) then Rb(t, h) else Rb(Paint(t, true), h + 1)
  }

  /** The loop has ended at the root or at a red node, which becomes black. */
  lemma ShortEnds<N>(z: Path<N>, t: Tree<N>, h: nat) returns (k: nat)
    requires Short(z, t, h) && t.Fork? && (z.Top? || !t.black)
    ensures Rb(Paint(t, true), k) && Ok(z, k, true)
  {
    k := if t.black then h else h + 1;
  }

  /** What is known of the sibling w of a black node that lacks a black node. */
  lemma SiblingOf<N>(z: Path<N>, t: Tree<N>, h: nat)
    requires Short(z, t, h) && !z.Top? && Black(t)
    ensures var w := z.other;
      && w.Fork? && Rb(w, h + 1) && Ok(z.up, h + 1 + Step(z.black), z.black)
      && (w.black ==> Rb(w.left, h) && Rb(w.right, h))
      && (!w.black ==> z.black && w.left.Fork? && w.left.black && w.right.Fork? && w.right.black)
      && (w.black && t.Fork? ==> w.left.Fork? && w.right.Fork?)
      && (w.black && t.Leaf? ==> (w.left.Leaf? <==> Black(w.left)) && (w.right.Leaf? <==> Black(w.right)))
  {
    var w := z.other;
    assert Rb(w, h + 1);
    assert if w.black then Rb(w.left, h) && Rb(w.right, h) else Rb(w.left, h + 1) && Rb(w.right, h + 1);
  }

  /** The sibling is red: a rotation at the parent gives x a black sibling. */
  function LeftSibling<N>(z: Path<N>): Path<N>
    requires z.InLeft? && z.other.Fork?
  {
    InLeft(InLeft(z.up, z.other.at, true, z.other.value, z.other.right), z.at, false, z.value, z.other.left)
  }

  function RightSibling<N>(z: Path<N>): Path<N>
    requires z.InRight? && z.other.Fork?
  {
    InRight(InRight(z.up, z.other.left, z.other.at, true, z.other.value), z.other.right, z.at, false, z.value)
  }

  lemma RedSiblingStep<N>(z: Path<N>, t: Tree<N>, h: nat)
    requires Short(z, t, h) && !z.Top? && Black(t) && z.other.Fork? && !z.other.black
    ensures z.InLeft? ==> Short(LeftSibling(z), t, h) && z.other.left.Fork? && z.other.left.black
    ensures z.InRight? ==> Short(RightSibling(z), t, h) && z.other.right.Fork? && z.other.right.black
  {
    SiblingOf(z, t, h);
  }

  /** The sibling and its children are black: it becomes red and the parent lacks a black node. */
  lemma PassUpStep<N>(z: Path<N>, t: Tree<N>, h: nat)
    requires Short(z, t, h) && !z.Top? && Black(t)
    requires z.other.Fork? && z.other.black && Black(z.other.left) && Black(z.other.right)
    ensures Short(z.up, Above(WithOther(z, Paint(z.other, false)), t), h + Step(z.black))
  {
    SiblingOf(z, t, h);
  }

  /** The sibling's outer child is not the red one: a rotation at the sibling brings a red node there. */
  function OuterRedLeft<N>(w: Tree<N>): Tree<N>
    requires w.Fork? && w.left.Fork?
  {
    RotateRight(Fork(Paint(w.left, true), w.at, false, w.value, w.right))
  }

  function OuterRedRight<N>(w: Tree<N>): Tree<N>
    requires w.Fork? && w.right.Fork?
  {
    RotateLeft(Fork(w.left, w.at, false, w.value, Paint(w.right, true)))
  }

  /** A sibling whose outer child can make up for the missing black node. */
  predicate Helps<N>(z: Path<N>, w: Tree<N>, h: nat) {
    && w.Fork? && w.black && !z.Top?
    && if z.InLeft? then Rb(w.left, h) && w.right.Fork? && !w.right.black && Rb(Paint(w.right, true), h + 1)
       else Rb(w.right, h) && w.left.Fork? && !w.left.black && Rb(Paint(w.left, true), h + 1)
  }

  lemma InnerRedStep<N>(z: Path<N>, t: Tree<N>, h: nat)
    requires Short(z, t, h) && !z.Top? && Black(t) && z.other.Fork? && z.other.black
    ensures z.InLeft? && z.other.left.Fork? && !z.other.left.black ==> Helps(z, OuterRedLeft(z.other), h)
    ensures z.InRight? && z.other.right.Fork? && !z.other.right.black ==> Helps(z, OuterRedRight(z.other), h)
  {
    SiblingOf(z, t, h);
  }

  lemma OuterRedHelps<N>(z: Path<N>, t: Tree<N>, h: nat)
    requires Short(z, t, h) && !z.Top? && Black(t) && z.other.Fork? && z.other.black
    ensures z.InLeft? && z.other.right.Fork? && !z.other.right.black ==> Helps(z, z.other, h)
    ensures z.InRight? && z.other.left.Fork? && !z.other.left.black ==> Helps(z, z.other, h)
  {
    SiblingOf(z, t, h);
  }

  /** The outer child is red: a rotation at the parent, with the colours passed on, ends it all. */
  function Settled<N>(z: Path<N>, t: Tree<N>, w: Tree<N>): Tree<N>
    requires !z.Top? && w.Fork? && (z.InLeft? ==> w.right.Fork?) && (z.InRight? ==> w.left.Fork?)
  {
    if z.InLeft? then
      RotateLeft(Fork(t, z.at, true, z.value, Fork(w.left, w.at, z.black, w.value, Paint(w.right, true))))
    else
      RotateRight(Fork(Fork(Paint(w.left, true), w.at, z.black, w.value, w.right), z.at, true, z.value, t))
  }

  /** Settling with a sibling that has taken the place of another. */
  lemma SettledSame<N>(z: Path<N>, t: Tree<N>, w: Tree<N>, h: nat)
    requires !z.Top? && Helps(z, w, h)
    ensures w.Fork? && (z.InLeft? ==> w.right.Fork?) && (z.InRight? ==> w.left.Fork?)
    ensures WithOther(z, w).up == z.up
    ensures Settled(WithOther(z, w), t, w) == Settled(z, t, w) && WithOther(z, w).other == w
  {
  }

  lemma SettleStep<N>(z: Path<N>, t: Tree<N>, w: Tree<N>, h: nat)
    requires Short(z, t, h) && !z.Top? && Black(t) && Helps(z, w, h)
    ensures var k := h + 1 + Step(z.black); Rb(Settled(z, t, w), k) && Ok(z.up, k, Black(Settled(z, t, w)))
  {
    SiblingOf(z, t, h);
  }

  // ----- none of these steps changes the entries

  lemma SiblingOrder<N>(z: Path<N>, t: Tree<N>)
    requires !z.Top? && z.other.Fork?
    ensures z.InLeft? ==> Order(LeftSibling(z), t) == Order(z, t)
    ensures z.InRight? ==> Order(RightSibling(z), t) == Order(z, t)
  {
    var s := z.other;
    var a, b, e, f, l, r :=
      Before(z.up), After(z.up), [Entry(z.at, z.value)], [Entry(s.at, s.value)], Entries(s.left), Entries(s.right);
    if z.InLeft? {
      assert After(LeftSibling(z).up) == (f + r) + b;
      assert After(LeftSibling(z)) == (e + l) + ((f + r) + b);
      assert Before(LeftSibling(z).up) == a && Entries(s) == l + (f + r) && After(z) == (e + Entries(s)) + b;
      assert (e + l) + ((f + r) + b) == (e + (l + (f + r))) + b;
    } else {
      assert Before(RightSibling(z).up) == a + (l + f);
      assert Before(RightSibling(z)) == (a + (l + f)) + (r + e);
      assert After(RightSibling(z).up) == b && Entries(s) == l + (f + r) && Before(z) == a + (Entries(s) + e);
      assert (a + (l + f)) + (r + e) == a + ((l + (f + r)) + e);
    }
  }

  lemma PassUpOrder<N>(z: Path<N>, t: Tree<N>)
    requires !z.Top? && z.other.Fork?
    ensures Order(z.up, Above(WithOther(z, Paint(z.other, false)), t)) == Order(z, t)
  {
    AboveKeeps(WithOther(z, Paint(z.other, false)), t);
    assert Entries(Paint(z.other, false)) == Entries(z.other);
  }

  lemma BringOutOrder<N>(z: Path<N>, t: Tree<N>)
    requires !z.Top? && z.other.Fork?
    ensures z.InLeft? && z.other.left.Fork? ==> Order(WithOther(z, OuterRedLeft(z.other)), t) == Order(z, t)
    ensures z.InRight? && z.other.right.Fork? ==> Order(WithOther(z, OuterRedRight(z.other)), t) == Order(z, t)
  {
    var w := z.other;
    if z.InLeft? && w.left.Fork? {
      var p := Fork(Paint(w.left, true), w.at, false, w.value, w.right);
      assert Entries(p) == Entries(w);
      RotateRightKeeps(Top, p);
    } else if z.InRight? && w.right.Fork? {
      var p := Fork(w.left, w.at, false, w.value, Paint(w.right, true));
      assert Entries(p) == Entries(w);
      RotateLeftKeeps(Top, p);
    }
  }

  lemma SettleOrder<N>(z: Path<N>, t: Tree<N>)
    requires !z.Top? && z.other.Fork? && (z.InLeft? ==> z.other.right.Fork?) && (z.InRight? ==> z.other.left.Fork?)
    ensures Order(z.up, Settled(z, t, z.other)) == Order(z, t)
  {
    var w := z.other;
    AboveKeeps(z, t);
    if z.InLeft? {
      var s := Fork(w.left, w.at, z.black, w.value, Paint(w.right, true));
      assert Entries(s) == Entries(w);
      RotateLeftKeeps(z.up, Fork(t, z.at, true, z.value, s));
    } else {
      var s := Fork(Paint(w.left, true), w.at, z.black, w.value, w.right);
      assert Entries(s) == Entries(w);
      RotateRightKeeps(z.up, Fork(s, z.at, true, z.value, t));
    }
  }

  // ----- the whole tree

  function Plug<N>(z: Path<N>, t: Tree<N>): (w: Tree<N>)
    ensures t.Fork? ==> w.Fork?
    decreases z
  {
    if z.Top? then t else Plug(z.up, Above(z, t))
  }

  lemma {:induction false} PlugOrder<N>(z: Path<N>, t: Tree<N>)
    ensures Order(Top, Plug(z, t)) == Order(z, t)
    ensures t.Fork? ==> Plug(z, t).Fork?
    decreases z
  {
    if !z.Top? {
      AboveKeeps(z, t);
      PlugOrder(z.up, Above(z, t));
    }
  }

  lemma {:induction false} PlugRb<N>(z: Path<N>, t: Tree<N>, h: nat) returns (k: nat)
    requires Rb(t, h) && Ok(z, h, Black(t))
    ensures Rb(Plug(z, t), k) && Black(Plug(z, t))
    decreases z
  {
    if z.Top? {
      k := h;
    } else {
      OkAbove(z, t, h);
      k := PlugRb(z.up, Above(z, t), h + Step(z.black));
    }
  }

  function Depth<N>(z: Path<N>): nat { if z.Top? then 0 else 1 + Depth(z.up) }

  // ----- insertion as a function

  /** The place for v below t: behind everything that is not greater. */
  function Descent<N>(z: Path<N>, t: Tree<N>, v: Elem): Path<N>
    decreases t
  {
    if t.Leaf? then z
    else if Less(v, t.value) then Descent(InLeft(z, t.at, t.black, t.value, t.right), t.left, v)
    else Descent(InRight(z, t.left, t.at, t.black, t.value), t.right, v)
  }

  /** The whole tree when the parent is turned above the grandparent. */
  function Turned<N>(z: Path<N>, t: Tree<N>): (w: Tree<N>)
    requires t.Fork? && !z.Top? && !z.up.Top?
    ensures w.Fork?
  {
    if z.InLeft? then
      Paint(Plug(InLeft(z.up.up, z.at, true, z.value, Fork(z.other, z.up.at, false, z.up.value, z.up.other)), t), true)
    else
      Paint(Plug(InRight(z.up.up, Fork(z.up.other, z.up.at, false, z.up.value, z.other), z.at, true, z.value), t), true)
  }

  /** The whole tree once the red node t at z has its colours right. */
  function Restored<N>(z: Path<N>, t: Tree<N>): (w: Tree<N>)
    requires t.Fork?
    ensures w.Fork?
    decreases z
  {
    if z.Top? || z.black || z.up.Top? then Paint(Plug(z, t), true)
    else if !Black(z.up.other) then Restored(z.up.up, Recoloured(z, t))
    else if z.InLeft? == z.up.InLeft? then Turned(z, t)
    else if z.InRight? then
      Turned(InLeft(z.up, t.at, t.black, t.value, t.right), Fork(z.other, z.at, z.black, z.value, t.left))
    else
      Turned(InRight(z.up, t.left, t.at, t.black, t.value), Fork(t.right, z.at, z.black, z.value, z.other))
  }

  /** The tree with v in a new node n. */
  function Grown<N>(t: Tree<N>, n: N, v: Elem): Tree<N> {
    Restored(Descent(Top, t, v), Fork(Leaf, n, false, v, Leaf))
  }

  // ----- removal as a function

  predicate BlackKids<N>(w: Tree<N>)
    requires w.Fork?
  {
    Black(w.left) && Black(w.right)
  }

  /** The tree above when the sibling becomes red. */
  function PassedUp<N>(z: Path<N>, t: Tree<N>): (u: Tree<N>)
    requires !z.Top? && z.other.Fork?
    ensures u.Fork? && u.black == z.black
  {
    Above(WithOther(z, Paint(z.other, false)), t)
  }

  /** The sibling's inner child is turned up first: below an empty place whenever there is one,
      else when the outer child is black. */
  predicate TurnsInner<N>(z: Path<N>, t: Tree<N>)
    requires !z.Top? && z.other.Fork?
  {
    var inner := if z.InLeft? then z.other.left else z.other.right;
    var outer := if z.InLeft? then z.other.right else z.other.left;
    inner.Fork? && (t.Leaf? || Black(outer))
  }

  /** The tree above when a red child of the sibling makes up for the missing black node. */
  function MadeUp<N>(z: Path<N>, t: Tree<N>): Tree<N>
    requires !z.Top? && z.other.Fork? && !BlackKids(z.other)
  {
    if !TurnsInner(z, t) then Settled(z, t, z.other)
    else Settled(z, t, if z.InLeft? then OuterRedLeft(z.other) else OuterRedRight(z.other))
  }

  /** The place t has after its red sibling has been turned above the parent. */
  function WithBlackSibling<N>(z: Path<N>): Path<N>
    requires !z.Top? && z.other.Fork?
  {
    if z.InLeft? then LeftSibling(z) else RightSibling(z)
  }

  /** The whole tree once the place z, where t lacks a black node, is filled up. */
  function Refilled<N>(z: Path<N>, t: Tree<N>): Tree<N>
    decreases z
  {
    if t.Fork? && (z.Top? || !t.black) then Plug(z, Paint(t, true))
    else if z.Top? || z.other.Leaf? then Plug(z, t)
    else if !z.other.black then
      var z' := WithBlackSibling(z);
      if z'.other.Leaf? then Plug(z', t)
      else if BlackKids(z'.other) then Plug(z'.up, Paint(PassedUp(z', t), true))
      else Plug(z'.up, MadeUp(z', t))
    else if BlackKids(z.other) then Refilled(z.up, PassedUp(z, t))
    else Plug(z.up, MadeUp(z, t))
  }

  lemma RefilledTurn<N>(z: Path<N>, t: Tree<N>)
    requires Black(t) && !z.Top? && z.other.Fork? && !z.other.black
    requires var w := WithBlackSibling(z).other; w.Fork? && w.black
    ensures Refilled(WithBlackSibling(z), t) == Refilled(z, t)
  {
    hide Plug, MadeUp;
    var z' := WithBlackSibling(z);
    if BlackKids(z'.other) { assert Refilled(z'.up, PassedUp(z', t)) == Plug(z'.up, Paint(PassedUp(z', t), true)); }
  }

  lemma RefilledPass<N>(z: Path<N>, t: Tree<N>)
    requires Black(t) && !z.Top? && z.other.Fork? && z.other.black && BlackKids(z.other)
    ensures Refilled(z.up, Above(WithOther(z, Paint(z.other, false)), t)) == Refilled(z, t)
  {
  }

  lemma RefilledSettle<N>(z: Path<N>, t: Tree<N>)
    requires Black(t) && !z.Top? && z.other.Fork? && z.other.black && !BlackKids(z.other)
    ensures Refilled(z, t) == Plug(z.up, MadeUp(z, t))
  {
  }

  /** The tree without the node at the root of t, which has one child at most. */
  function Removed<N>(z: Path<N>, t: Tree<N>): Tree<N>
    requires t.Fork?
  {
    if t.black then Refilled(z, OnlyChild(t)) else Plug(z, OnlyChild(t))
  }

  /** A place in a tree and the subtree there. */
  datatype Spot<N> = Spot(path: Path<N>, tree: Tree<N>)

  /** Where the entry is that has i others before it in t. */
  function SpotOf<N>(z: Path<N>, t: Tree<N>, i: nat): (p: Spot<N>)
    requires i < |Entries(t)|
    ensures p.tree.Fork?
    decreases t
  {
    var l := |Entries(t.left)|;
    if i == l then Spot(z, t)
    else if i < l then SpotOf(InLeft(z, t.at, t.black, t.value, t.right), t.left, i)
    else SpotOf(InRight(z, t.left, t.at, t.black, t.value), t.right, i - l - 1)
  }

  lemma SpotStep<N>(z: Path<N>, t: Tree<N>, i: nat)
    requires i < |Entries(t)|
    ensures t.Fork? && |Entries(t)| == |Entries(t.left)| + 1 + |Entries(t.right)|
    ensures i == |Entries(t.left)| ==> SpotOf(z, t, i) == Spot(z, t)
    ensures i < |Entries(t.left)| ==>
      SpotOf(z, t, i) == SpotOf(InLeft(z, t.at, t.black, t.value, t.right), t.left, i)
    ensures i > |Entries(t.left)| ==>
      SpotOf(z, t, i) == SpotOf(InRight(z, t.left, t.at, t.black, t.value), t.right, i - |Entries(t.left)| - 1)
  {
  }

  /** The tree in which entry i has the value of the next one. */
  function Copied<N>(t: Tree<N>, i: nat): (u: Tree<N>)
    requires i + 1 < |Entries(t)|
    ensures |Entries(u)| == |Entries(t)|
  {
    var p := SpotOf(Top, t, i);
    var u := Fork(p.tree.left, p.tree.at, p.tree.black, Entries(t)[i + 1].value, p.tree.right);
    SpotIs(Top, t, i);
    SameLength(p.path, p.tree, u);
    Plug(p.path, u)
  }

  lemma {:induction false} SpotIs<N>(z: Path<N>, t: Tree<N>, i: nat)
    requires i < |Entries(t)|
    ensures var p := SpotOf(z, t, i); Plug(p.path, p.tree) == Plug(z, t)
    decreases t
  {
    var l := |Entries(t.left)|;
    if i < l {
      SpotIs(InLeft(z, t.at, t.black, t.value, t.right), t.left, i);
    } else if i > l {
      SpotIs(InRight(z, t.left, t.at, t.black, t.value), t.right, i - l - 1);
    }
  }

  lemma SameLength<N>(z: Path<N>, t: Tree<N>, u: Tree<N>)
    requires |Entries(t)| == |Entries(u)|
    ensures |Entries(Plug(z, t))| == |Entries(Plug(z, u))|
  {
    PlugOrder(z, t);
    PlugOrder(z, u);
    assert Order(Top, Plug(z, t)) == Entries(Plug(z, t)) && Order(Top, Plug(z, u)) == Entries(Plug(z, u));
  }

  /** The tree without entry i. */
  function Shrunk<N>(t: Tree<N>, i: nat): Tree<N>
    requires i < |Entries(t)|
  {
    var p := SpotOf(Top, t, i);
    if p.tree.left.Fork? && p.tree.right.Fork? && i + 1 < |Entries(t)| then
      var q := SpotOf(Top, Copied(t, i), i + 1);
      Removed(q.path, q.tree)
    else Removed(p.path, p.tree)
  }

  // ----- the order of the entries

  predicate Ascending<N>(s: seq<Entry<N>>) {
    forall i, j :: 0 <= i < j < |s| ==> s[i].value.rank <= s[j].value.rank
  }

  predicate StrictlyAscending<N>(s: seq<Entry<N>>) {
    forall i, j :: 0 <= i < j < |s| ==> s[i].value.rank < s[j].value.rank
  }

  predicate NoneAbove<N>(s: seq<Entry<N>>, v: Elem) { forall i :: 0 <= i < |s| ==> s[i].value.rank <= v.rank }

  predicate AllAbove<N>(s: seq<Entry<N>>, v: Elem) { forall i :: 0 <= i < |s| ==> v.rank < s[i].value.rank }

  predicate AllBelow<N>(s: seq<Entry<N>>, v: Elem) { forall i :: 0 <= i < |s| ==> s[i].value.rank < v.rank }

  predicate NoneBelow<N>(s: seq<Entry<N>>, v: Elem) { forall i :: 0 <= i < |s| ==> v.rank <= s[i].value.rank }

  lemma {:induction false} NodesOfEntries<N>(t: Tree<N>, k: nat)
    requires k < |Entries(t)|
    ensures Entries(t)[k].at in Nodes(t)
    decreases t
  {
    var l := |Entries(t.left)|;
    if k < l { NodesOfEntries(t.left, k); } else if k > l { NodesOfEntries(t.right, k - l - 1); }
  }

  /** No node occurs twice. */
  lemma {:induction false} EntriesDistinct<N>(t: Tree<N>, i: nat, j: nat)
    requires Distinct(t) && i < j < |Entries(t)|
    ensures Entries(t)[i].at != Entries(t)[j].at
    decreases t
  {
    var l := |Entries(t.left)|;
    if i < l { NodesOfEntries(t.left, i); } else if i > l { NodesOfEntries(t.right, i - l - 1); }
    if j < l { NodesOfEntries(t.left, j); } else if j > l { NodesOfEntries(t.right, j - l - 1); }
    if j < l { EntriesDistinct(t.left, i, j); } else if i > l { EntriesDistinct(t.right, i - l - 1, j - l - 1); }
  }

  /** The entries on both sides of the root of the subtree at z. */
  lemma OrderSplit<N>(z: Path<N>, t: Tree<N>)
    requires t.Fork?
    ensures Order(z, t) == (Before(z) + Entries(t.left)) + [Entry(t.at, t.value)] + (Entries(t.right) + After(z))
  {
  }

  /** A subtree's colours, seen from above. */
  lemma OkBelow<N>(z: Path<N>, t: Tree<N>, h: nat)
    requires t.Fork? && Rb(t, h) && Ok(z, h, Black(t)) && h >= Step(t.black)
    ensures var k := h - Step(t.black);
      && Rb(t.left, k) && Ok(InLeft(z, t.at, t.black, t.value, t.right), k, Black(t.left))
      && Rb(t.right, k) && Ok(InRight(z, t.left, t.at, t.black, t.value), k, Black(t.right))
  {
  }

  lemma EnoughBlack<N>(t: Tree<N>, h: nat)
    requires t.Fork? && Rb(t, h)
    ensures h >= Step(t.black)
  {
  }

  /** v is less than the entry at the root of the subtree at z: everything from there on is greater. */
  lemma DescendLeft<N>(z: Path<N>, t: Tree<N>, v: Elem)
    requires t.Fork? && Ascending(Order(z, t)) && v.rank < t.value.rank && AllAbove(After(z), v)
    ensures AllAbove(After(InLeft(z, t.at, t.black, t.value, t.right)), v)
  {
    OrderSplit(z, t);
    var a, e, b := Before(z) + Entries(t.left), [Entry(t.at, t.value)], Entries(t.right) + After(z);
    forall i | 0 <= i < |b| ensures v.rank < b[i].value.rank {
      assert Order(z, t)[|a|] == e[0] && Order(z, t)[|a| + 1 + i] == b[i];
    }
    assert After(InLeft(z, t.at, t.black, t.value, t.right)) == e + b;
  }

  lemma DescendRight<N>(z: Path<N>, t: Tree<N>, v: Elem)
    requires t.Fork? && Ascending(Order(z, t)) && t.value.rank <= v.rank && NoneAbove(Before(z), v)
    ensures NoneAbove(Before(InRight(z, t.left, t.at, t.black, t.value)), v)
  {
    OrderSplit(z, t);
    var a, e := Before(z) + Entries(t.left), [Entry(t.at, t.value)];
    forall i | 0 <= i < |a| ensures a[i].value.rank <= v.rank {
      assert Order(z, t)[|a|] == e[0] && Order(z, t)[i] == a[i];
    }
    assert Before(InRight(z, t.left, t.at, t.black, t.value)) == a + e;
  }

  lemma InsertAscending<N>(a: seq<Entry<N>>, e: Entry<N>, b: seq<Entry<N>>)
    requires Ascending(a + b) && NoneAbove(a, e.value) && AllAbove(b, e.value)
    ensures Ascending(a + [e] + b)
    ensures AllBelow(a, e.value) && StrictlyAscending(a + b) ==> StrictlyAscending(a + [e] + b)
  {
    var s := a + [e] + b;
    forall i, j | 0 <= i < j < |s|
      ensures s[i].value.rank <= s[j].value.rank
      ensures AllBelow(a, e.value) && StrictlyAscending(a + b) ==> s[i].value.rank < s[j].value.rank
    {
      if i != |a| && j != |a| {
        var i', j' := if i < |a| then i else i - 1, if j < |a| then j else j - 1;
        assert (a + b)[i'] == s[i] && (a + b)[j'] == s[j];
      }
    }
  }

  // ----- removing a node that has at most one child

  function OnlyChild<N>(t: Tree<N>): Tree<N>
    requires t.Fork?
  {
    if t.left.Fork? then t.left else t.right
  }

  lemma SpliceOrder<N>(z: Path<N>, t: Tree<N>)
    requires t.Fork? && (t.left.Leaf? || t.right.Leaf?)
    ensures var i, s := |Before(z)| + |Entries(t.left)|, Order(z, t);
      i < |s| && Order(z, OnlyChild(t)) == s[..i] + s[i + 1..]
  {
    hide Order, Entries, Before, After;
    OrderSplit(z, t);
    OneOut(Before(z) + Entries(t.left), Entry(t.at, t.value), Entries(t.right) + After(z));
    OnlyChildOrder(z, t);
  }

  lemma OneOut<T>(a: seq<T>, x: T, b: seq<T>)
    ensures var s := a + [x] + b; |a| < |s| && s[..|a|] == a && s[|a| + 1..] == b
  {
  }

  lemma OnlyChildOrder<N>(z: Path<N>, t: Tree<N>)
    requires t.Fork? && (t.left.Leaf? || t.right.Leaf?)
    ensures Order(z, OnlyChild(t)) == (Before(z) + Entries(t.left)) + (Entries(t.right) + After(z))
  {
    assert Entries(OnlyChild(t)) == Entries(t.left) + Entries(t.right);
  }

  /** A red node with one child at most has none; the child of a black one is red. */
  lemma SpliceColours<N>(z: Path<N>, t: Tree<N>, h: nat)
    requires t.Fork? && (t.left.Leaf? || t.right.Leaf?) && Rb(t, h) && Ok(z, h, Black(t))
    ensures var c := OnlyChild(t);
      && (!t.black ==> c.Leaf? && Rb(c, h) && Ok(z, h, Black(c)) && !z.Top?)
      && (t.black ==> h > 0 && Short(z, c, h - 1))
      && (c.Fork? ==> Rb(Paint(c, true), 1) && Rb(c, 0))
  {
    var c := OnlyChild(t);
    if t.black {
      assert Rb(t.left, 0) && Rb(t.right, 0) by {
        assert Rb(t.left, h - 1) && Rb(t.right, h - 1);
      }
    } else {
      assert Rb(t.left, h) && Rb(t.right, h);
    }
    if c.Fork? { assert Rb(c.left, 0) && Rb(c.right, 0); }
  }

  lemma SpliceApart<N>(z: Path<N>, t: Tree<N>, repr: set<N>)
    requires t.Fork? && (t.left.Leaf? || t.right.Leaf?) && Apart(z, t) && PathNodes(z) + Nodes(t) == repr
    ensures var c := OnlyChild(t);
      && Apart(z, c) && PathNodes(z) + Nodes(c) == repr - {t.at} && t.at !in Nodes(c)
      && t.at !in PathNodes(z) && Distinct(c)
  {
    var c := OnlyChild(t);
    assert Nodes(c) == Nodes(t.left) + Nodes(t.right);
  }

  /** The values of entries, without their nodes. */
  function Values<N>(s: seq<Entry<N>>): seq<Elem> { seq(|s|, i requires 0 <= i < |s| => s[i].value) }

  /** Entry i takes the value of the next one. */
  lemma ValueMoves<N>(z: Path<N>, t: Tree<N>, v: Elem)
    requires t.Fork?
    ensures var i, u := |Before(z)| + |Entries(t.left)|, Fork(t.left, t.at, t.black, v, t.right);
      i < |Order(z, t)| && Order(z, u) == Order(z, t)[i := Entry(t.at, v)]
  {
    OrderSplit(z, t);
    OrderSplit(z, Fork(t.left, t.at, t.black, v, t.right));
  }

  lemma RemoveAscending<N>(s: seq<Entry<N>>, i: nat)
    requires i < |s| && Ascending(s)
    ensures Ascending(s[..i] + s[i + 1..])
    ensures i + 1 < |s| ==> Ascending(s[i := Entry(s[i].at, s[i + 1].value)])
  {
    var t := s[..i] + s[i + 1..];
    forall j, k | 0 <= j < k < |t| ensures t[j].value.rank <= t[k].value.rank {
      var j', k' := if j < i then j else j + 1, if k < i then k else k + 1;
      assert t[j] == s[j'] && t[k] == s[k'];
    }
  }

  // ----- the first and the last node after a removal

  predicate NoTwins<N(==)>(s: seq<Entry<N>>) { forall i, j :: 0 <= i < j < |s| ==> s[i].at != s[j].at }

  lemma OrderHasNoTwins<N>(z: Path<N>, t: Tree<N>)
    requires Apart(z, t)
    ensures NoTwins(Order(z, t))
  {
    PlugOrder(z, t);
    PlugDistinct(z, t);
    var w := Plug(z, t);
    assert Order(Top, w) == Entries(w);
    forall i, j | 0 <= i < j < |Entries(w)| ensures Entries(w)[i].at != Entries(w)[j].at { EntriesDistinct(w, i, j); }
  }

  lemma {:induction false} PlugDistinct<N>(z: Path<N>, t: Tree<N>)
    requires Apart(z, t)
    ensures Distinct(Plug(z, t))
    decreases z
  {
    if !z.Top? {
      AboveKeeps(z, t);
      PlugDistinct(z.up, Above(z, t));
    }
  }

  /** The only child that moves up below the root is the first or the last of all. */
  lemma MovedUp<N>(z: Path<N>, t: Tree<N>, h: nat)
    requires t.Fork? && !z.Top? && (t.left.Leaf? || t.right.Leaf?) && Rb(t, h) && Ok(z, h, Black(t))
    requires OnlyChild(t).Fork? && z.up.Top?
    ensures var u, c := Order(z, OnlyChild(t)), OnlyChild(t);
      u != [] && (if z.InLeft? then u[0].at == c.at else u[|u| - 1].at == c.at)
  {
    hide Ok, Order, Rb;
    Surroundings(z);
    SpliceColours(z, t, h);
    LoneEntry(OnlyChild(t));
    OrderIs(z, OnlyChild(t));
  }

  lemma OrderIs<N>(z: Path<N>, c: Tree<N>)
    ensures Order(z, c) == Before(z) + (Entries(c) + After(z)) == (Before(z) + Entries(c)) + After(z)
  {
  }

  lemma Surroundings<N>(z: Path<N>)
    requires !z.Top?
    ensures z.InLeft? ==> After(z) != [] && After(z)[0].at == z.at && (z.up.Top? ==> Before(z) == [])
    ensures z.InRight? ==> Before(z) != [] && Before(z)[|Before(z)| - 1].at == z.at && (z.up.Top? ==> After(z) == [])
  {
  }

  /** The first and the last of a + [e] + b, and of a + c + b. */
  lemma EndsOf<T>(a: seq<T>, e: T, b: seq<T>, c: seq<T>)
    requires a + b != []
    ensures var s, u := a + [e] + b, a + c + b;
      && s[|a|] == e && u != []
      && s[0] == (if a == [] then e else a[0]) && s[|s| - 1] == (if b == [] then e else b[|b| - 1])
      && u[0] == (if a != [] then a[0] else if c != [] then c[0] else b[0])
      && u[|u| - 1] == (if b != [] then b[|b| - 1] else if c != [] then c[|c| - 1] else a[|a| - 1])
  {
  }

  /** The entries around a node with one child at most. */
  lemma AroundChild<N>(z: Path<N>, t: Tree<N>, h: nat)
    requires t.Fork? && !z.Top? && (t.left.Leaf? || t.right.Leaf?) && Rb(t, h) && Ok(z, h, Black(t))
    ensures var c, e, cs := OnlyChild(t), Entry(t.at, t.value), Entries(OnlyChild(t));
      && Order(z, c) == Before(z) + cs + After(z) && Before(z) + After(z) != []
      && cs == (if c.Leaf? then [] else [Entry(c.at, c.value)])
      && Order(z, t) == if t.left.Fork? then (Before(z) + cs) + [e] + After(z) else Before(z) + [e] + (cs + After(z))
  {
    hide Ok, Rb;
    var c := OnlyChild(t);
    Surroundings(z);
    OrderSplit(z, t);
    SpliceColours(z, t, h);
    if c.Fork? { LoneEntry(c); }
    assert Before(z) + [] == Before(z) && [] + After(z) == After(z);
  }

  /** The first and the last node once t's root has been taken out. */
  lemma EndsAfter<N>(z: Path<N>, t: Tree<N>, h: nat)
    requires t.Fork? && !z.Top? && (t.left.Leaf? || t.right.Leaf?) && Rb(t, h) && Ok(z, h, Black(t))
    requires NoTwins(Order(z, t))
    ensures var s, u, c := Order(z, t), Order(z, OnlyChild(t)), OnlyChild(t);
      var y := if c.Leaf? then z.at else c.at;
      && |s| > 1 && u != [] && s[0].at != s[|s| - 1].at
      && u[0].at == (if s[0].at == t.at then y else s[0].at)
      && u[|u| - 1].at == (if s[|s| - 1].at == t.at then y else s[|s| - 1].at)
      && (c.Fork? && z.up.Top? ==> if z.InLeft? then u[0].at == c.at else u[|u| - 1].at == c.at)
      && (s[0].at == t.at ==> z.InLeft? || !z.up.Top?) && (s[|s| - 1].at == t.at ==> z.InRight? || !z.up.Top?)
  {
    hide Ok, Order, Rb, Entries, Before, After;
    AroundChild(z, t, h);
    Surroundings(z);
    var c, e, cs := OnlyChild(t), Entry(t.at, t.value), Entries(OnlyChild(t));
    EndsOf(Before(z), e, After(z), cs);
    if t.left.Fork? { EndsOf(Before(z) + cs, e, After(z), []); } else { EndsOf(Before(z), e, cs + After(z), []); }
    if c.Fork? && z.up.Top? { MovedUp(z, t, h); }
    FirstIsLeft(z, t);
    Lengths(Before(z), cs, e, After(z));
  }

  lemma Lengths<T>(a: seq<T>, c: seq<T>, e: T, b: seq<T>)
    requires a + b != []
    ensures |(a + c) + [e] + b| > 1 && |a + [e] + (c + b)| > 1
  {
  }

  /** The first node is not below another's right link, the last one not below a left link. */
  lemma FirstIsLeft<N>(z: Path<N>, t: Tree<N>)
    requires t.Fork? && !z.Top? && NoTwins(Order(z, t))
    ensures var s := Order(z, t);
      s != [] && (s[0].at == t.at ==> z.InLeft? || !z.up.Top?) && (s[|s| - 1].at == t.at ==> z.InRight? || !z.up.Top?)
  {
    Surroundings(z);
    OrderSplit(z, t);
    var i := |Before(z)| + |Entries(t.left)|;
    assert Order(z, t)[i] == Entry(t.at, t.value);
  }

  /** A red node without black nodes below it has no children. */
  lemma LoneEntry<N>(c: Tree<N>)
    requires c.Fork? && Rb(c, 0)
    ensures Entries(c) == [Entry(c.at, c.value)]
  {
    assert Rb(c.left, 0) && Rb(c.right, 0);
  }

  // ----- searching for the first entry that is not less than v

  lemma SearchLeft<N>(z: Path<N>, t: Tree<N>, v: Elem)
    requires t.Fork? && Ascending(Order(z, t)) && v.rank <= t.value.rank && NoneBelow(After(z), v)
    ensures NoneBelow(After(InLeft(z, t.at, t.black, t.value, t.right)), v)
  {
    OrderSplit(z, t);
    var a, e, b := Before(z) + Entries(t.left), [Entry(t.at, t.value)], Entries(t.right) + After(z);
    forall i | 0 <= i < |b| ensures v.rank <= b[i].value.rank {
      assert Order(z, t)[|a|] == e[0] && Order(z, t)[|a| + 1 + i] == b[i];
    }
    assert After(InLeft(z, t.at, t.black, t.value, t.right)) == e + b;
  }

  lemma SearchRight<N>(z: Path<N>, t: Tree<N>, v: Elem)
    requires t.Fork? && Ascending(Order(z, t)) && t.value.rank < v.rank && AllBelow(Before(z), v)
    ensures AllBelow(Before(InRight(z, t.left, t.at, t.black, t.value)), v)
  {
    OrderSplit(z, t);
    var a, e := Before(z) + Entries(t.left), [Entry(t.at, t.value)];
    forall i | 0 <= i < |a| ensures a[i].value.rank < v.rank {
      assert Order(z, t)[|a|] == e[0] && Order(z, t)[i] == a[i];
    }
    assert Before(InRight(z, t.left, t.at, t.black, t.value)) == a + e;
  }
}
