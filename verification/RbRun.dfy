/** A run of insertions and one removal after which the header no longer knows the first node. */
module RbRun {
  import opened Range
  import opened RbShape
  import opened RbTree

  function Of(rank: real): Elem { Elem(rank, 0) }

  function Single<N>(n: N, black: bool, v: Elem): Tree<N> { Fork(Leaf, n, black, v, Leaf) }

  /** 5, then 4 to its left. */
  function Two<N>(n5: N, n4: N): Tree<N> { Fork(Single(n4, false, Of(4.0)), n5, true, Of(5.0), Leaf) }

  function Three<N>(n5: N, n4: N, n3: N): Tree<N> {
    Fork(Single(n3, false, Of(3.0)), n4, true, Of(4.0), Single(n5, false, Of(5.0)))
  }

  function Four<N>(n5: N, n4: N, n3: N, n2: N): Tree<N> {
    Fork(Fork(Single(n2, false, Of(2.0)), n3, true, Of(3.0), Leaf), n4, true, Of(4.0), Single(n5, true, Of(5.0)))
  }

  function Five<N>(n5: N, n4: N, n3: N, n2: N, n1: N): Tree<N> {
    var low := Fork(Single(n1, false, Of(1.0)), n2, true, Of(2.0), Single(n3, false, Of(3.0)));
    Fork(low, n4, true, Of(4.0), Single(n5, true, Of(5.0)))
  }

  /** 1 is black, has the one child 1.5 and hangs below 2, which is not the root. */
  function Six<N>(n5: N, n4: N, n3: N, n2: N, n1: N, m: N): Tree<N> {
    var first := Fork(Leaf, n1, true, Of(1.0), Single(m, false, Of(1.5)));
    Fork(Fork(first, n2, false, Of(2.0), Single(n3, true, Of(3.0))), n4, true, Of(4.0), Single(n5, true, Of(5.0)))
  }

  lemma FirstTwo<N>(n5: N, n4: N)
    ensures Grown(Leaf, n5, Of(5.0)) == Single(n5, true, Of(5.0))
    ensures Grown(Single(n5, true, Of(5.0)), n4, Of(4.0)) == Two(n5, n4)
  {
    var z := InLeft(Top, n5, true, Of(5.0), Leaf);
    assert Descent(Top, Single(n5, true, Of(5.0)), Of(4.0)) == z;
    assert Plug(z, Single(n4, false, Of(4.0))) == Two(n5, n4);
  }

  lemma GrowThree<N>(n5: N, n4: N, n3: N)
    ensures Grown(Two(n5, n4), n3, Of(3.0)) == Three(n5, n4, n3)
  {
    var up := InLeft(Top, n5, true, Of(5.0), Leaf);
    var z := InLeft(up, n4, false, Of(4.0), Leaf);
    var t := Single(n3, false, Of(3.0));
    assert Descent(Top, Two(n5, n4), Of(3.0)) == Descent(up, Single(n4, false, Of(4.0)), Of(3.0)) == z;
    assert Restored(z, t) == Turned(z, t);
    assert Plug(InLeft(Top, n4, true, Of(4.0), Single(n5, false, Of(5.0))), t) == Three(n5, n4, n3);
  }

  lemma GrowFour<N>(n5: N, n4: N, n3: N, n2: N)
    ensures Grown(Three(n5, n4, n3), n2, Of(2.0)) == Four(n5, n4, n3, n2)
  {
    var up := InLeft(Top, n4, true, Of(4.0), Single(n5, false, Of(5.0)));
    var z := InLeft(up, n3, false, Of(3.0), Leaf);
    var t := Single(n2, false, Of(2.0));
    assert Descent(Top, Three(n5, n4, n3), Of(2.0)) == Descent(up, Single(n3, false, Of(3.0)), Of(2.0)) == z;
    var w := Recoloured(z, t);
    assert w == Paint(Four(n5, n4, n3, n2), false);
    assert Restored(z, t) == Restored(Top, w) == Paint(Plug(Top, w), true);
  }

  lemma GrowFive<N>(n5: N, n4: N, n3: N, n2: N, n1: N)
    ensures Grown(Four(n5, n4, n3, n2), n1, Of(1.0)) == Five(n5, n4, n3, n2, n1)
  {
    var root := InLeft(Top, n4, true, Of(4.0), Single(n5, true, Of(5.0)));
    var up := InLeft(root, n3, true, Of(3.0), Leaf);
    var z := InLeft(up, n2, false, Of(2.0), Leaf);
    var t := Single(n1, false, Of(1.0));
    assert Descent(up, Single(n2, false, Of(2.0)), Of(1.0)) == z;
    assert Descent(Top, Four(n5, n4, n3, n2), Of(1.0)) ==
           Descent(root, Fork(Single(n2, false, Of(2.0)), n3, true, Of(3.0), Leaf), Of(1.0)) == z;
    assert Restored(z, t) == Turned(z, t);
    var low := InLeft(root, n2, true, Of(2.0), Single(n3, false, Of(3.0)));
    assert Plug(low, t) == Plug(root, Above(low, t)) == Five(n5, n4, n3, n2, n1);
  }

  lemma GrowSix<N>(n5: N, n4: N, n3: N, n2: N, n1: N, m: N)
    ensures Grown(Five(n5, n4, n3, n2, n1), m, Of(1.5)) == Six(n5, n4, n3, n2, n1, m)
  {
    var root := InLeft(Top, n4, true, Of(4.0), Single(n5, true, Of(5.0)));
    var up := InLeft(root, n2, true, Of(2.0), Single(n3, false, Of(3.0)));
    var z := InRight(up, Leaf, n1, false, Of(1.0));
    var t := Single(m, false, Of(1.5));
    assert Descent(up, Single(n1, false, Of(1.0)), Of(1.5)) == z;
    assert Descent(Top, Five(n5, n4, n3, n2, n1), Of(1.5)) ==
           Descent(root, Five(n5, n4, n3, n2, n1).left, Of(1.5)) == z;
    var w := Recoloured(z, t);
    assert w == Six(n5, n4, n3, n2, n1, m).left;
    assert Restored(z, t) == Restored(root, w) == Paint(Plug(root, w), true);
    assert Plug(root, w) == Six(n5, n4, n3, n2, n1, m);
  }

  // ----- the removal of 1, and one more insertion

  /** 1.5 has taken the place of 1. */
  function Rest<N>(n5: N, n4: N, n3: N, n2: N, m: N): Tree<N> {
    var low := Fork(Single(m, true, Of(1.5)), n2, false, Of(2.0), Single(n3, true, Of(3.0)));
    Fork(low, n4, true, Of(4.0), Single(n5, true, Of(5.0)))
  }

  /** 6 is below 5. */
  function Seven<N>(n5: N, n4: N, n3: N, n2: N, m: N, n6: N): Tree<N> {
    var high := Fork(Leaf, n5, true, Of(5.0), Single(n6, false, Of(6.0)));
    Fork(Rest(n5, n4, n3, n2, m).left, n4, true, Of(4.0), high)
  }

  lemma ShrinkSix<N>(n5: N, n4: N, n3: N, n2: N, n1: N, m: N)
    ensures |Entries(Six(n5, n4, n3, n2, n1, m))| > 0
    ensures Shrunk(Six(n5, n4, n3, n2, n1, m), 0) == Rest(n5, n4, n3, n2, m)
  {
    hide Refilled, Plug;
    var w := Six(n5, n4, n3, n2, n1, m);
    var root := InLeft(Top, n4, true, Of(4.0), Single(n5, true, Of(5.0)));
    var z := InLeft(root, n2, false, Of(2.0), Single(n3, true, Of(3.0)));
    var first := w.left.left;
    assert Entries(first.left) == [] && |Entries(first)| > 0;
    assert |Entries(w.left)| > |Entries(first)|;
    assert SpotOf(z, first, 0) == Spot(z, first);
    assert SpotOf(root, w.left, 0) == Spot(z, first);
    assert SpotOf(Top, w, 0) == Spot(z, first);
    LeafRefilled(z, m);
    PlugLow(root, z, n2, n3, Single(m, true, Of(1.5)));
    PlugRoot(n5, n4, Rest(n5, n4, n3, n2, m).left);
  }

  lemma LeafRefilled<N>(z: Path<N>, m: N)
    ensures Refilled(z, Single(m, false, Of(1.5))) == Plug(z, Single(m, true, Of(1.5)))
  {
  }

  lemma PlugLow<N>(root: Path<N>, z: Path<N>, n2: N, n3: N, t: Tree<N>)
    requires z == InLeft(root, n2, false, Of(2.0), Single(n3, true, Of(3.0)))
    ensures Plug(z, t) == Plug(root, Fork(t, n2, false, Of(2.0), Single(n3, true, Of(3.0))))
  {
  }

  lemma PlugRoot<N>(n5: N, n4: N, t: Tree<N>)
    ensures Plug(InLeft(Top, n4, true, Of(4.0), Single(n5, true, Of(5.0))), t)
      == Fork(t, n4, true, Of(4.0), Single(n5, true, Of(5.0)))
  {
    assert Plug(Top, Fork(t, n4, true, Of(4.0), Single(n5, true, Of(5.0)))) ==
      Fork(t, n4, true, Of(4.0), Single(n5, true, Of(5.0)));
  }

  lemma GrowSeven<N>(n5: N, n4: N, n3: N, n2: N, m: N, n6: N)
    ensures var z := Descent(Top, Rest(n5, n4, n3, n2, m), Of(6.0)); z.InRight? && z.at == n5
    ensures Grown(Rest(n5, n4, n3, n2, m), n6, Of(6.0)) == Seven(n5, n4, n3, n2, m, n6)
  {
    var w := Rest(n5, n4, n3, n2, m);
    var up := InRight(Top, w.left, n4, true, Of(4.0));
    var z := InRight(up, Leaf, n5, true, Of(5.0));
    var t := Single(n6, false, Of(6.0));
    assert Descent(up, w.right, Of(6.0)) == z;
    assert Descent(Top, w, Of(6.0)) == Descent(up, w.right, Of(6.0));
    assert Plug(z, t) == Plug(up, Above(z, t)) == Seven(n5, n4, n3, n2, m, n6);
  }

  /** The place for 0 is left of 1.5, that for a second 5 left of 6. */
  lemma Places<N>(n5: N, n4: N, n3: N, n2: N, m: N, n6: N)
    ensures var z := Descent(Top, Rest(n5, n4, n3, n2, m), Of(0.0)); z.InLeft? && z.at == m
    ensures var z := Descent(Top, Seven(n5, n4, n3, n2, m, n6), Of(5.0)); z.InLeft? && z.at == n6
  {
    var w, u := Rest(n5, n4, n3, n2, m), Seven(n5, n4, n3, n2, m, n6);
    var root := InLeft(Top, n4, true, Of(4.0), w.right);
    var low := InLeft(root, n2, false, Of(2.0), w.left.right);
    assert Descent(low, w.left.left, Of(0.0)) == InLeft(low, m, true, Of(1.5), Leaf);
    assert Descent(root, w.left, Of(0.0)) == Descent(low, w.left.left, Of(0.0));
    assert Descent(Top, w, Of(0.0)) == Descent(root, w.left, Of(0.0));
    var up := InRight(Top, u.left, n4, true, Of(4.0));
    var z := InRight(up, Leaf, n5, true, Of(5.0));
    assert Descent(z, u.right.right, Of(5.0)) == InLeft(z, n6, false, Of(6.0), Leaf);
    assert Descent(up, u.right, Of(5.0)) == Descent(z, u.right.right, Of(5.0));
    assert Descent(Top, u, Of(5.0)) == Descent(up, u.right, Of(5.0));
  }

  // ----- the entries

  lemma LowEntries<N>(n5: N, n4: N, n3: N, n2: N)
    ensures Entries(Single(n5, true, Of(5.0))) == [Entry(n5, Of(5.0))]
    ensures Entries(Two(n5, n4)) == [Entry(n4, Of(4.0)), Entry(n5, Of(5.0))]
    ensures Entries(Three(n5, n4, n3)) == [Entry(n3, Of(3.0)), Entry(n4, Of(4.0)), Entry(n5, Of(5.0))]
    ensures Entries(Four(n5, n4, n3, n2)) ==
      [Entry(n2, Of(2.0)), Entry(n3, Of(3.0)), Entry(n4, Of(4.0)), Entry(n5, Of(5.0))]
  {
    assert Entries(Four(n5, n4, n3, n2).left) == [Entry(n2, Of(2.0)), Entry(n3, Of(3.0))];
  }

  lemma FiveEntries<N>(n5: N, n4: N, n3: N, n2: N, n1: N)
    ensures Entries(Five(n5, n4, n3, n2, n1)) ==
      [Entry(n1, Of(1.0)), Entry(n2, Of(2.0)), Entry(n3, Of(3.0)), Entry(n4, Of(4.0)), Entry(n5, Of(5.0))]
  {
    var w := Five(n5, n4, n3, n2, n1);
    SingleEntry(n1, false, Of(1.0));
    SingleEntry(n3, false, Of(3.0));
    SingleEntry(n5, true, Of(5.0));
    assert Entries(w.left) == Entries(w.left.left) + ([Entry(n2, Of(2.0))] + Entries(w.left.right));
    assert Entries(w) == Entries(w.left) + ([Entry(n4, Of(4.0))] + Entries(w.right));
  }

  lemma SingleEntry<N>(n: N, black: bool, v: Elem)
    ensures Entries(Single(n, black, v)) == [Entry(n, v)]
  {
  }

  lemma SixEntries<N>(n5: N, n4: N, n3: N, n2: N, n1: N, m: N)
    ensures Entries(Six(n5, n4, n3, n2, n1, m)) == [Entry(n1, Of(1.0))] + Entries(Rest(n5, n4, n3, n2, m))
    ensures Entries(Rest(n5, n4, n3, n2, m)) ==
      [Entry(m, Of(1.5)), Entry(n2, Of(2.0)), Entry(n3, Of(3.0)), Entry(n4, Of(4.0)), Entry(n5, Of(5.0))]
  {
    var w, u := Six(n5, n4, n3, n2, n1, m), Rest(n5, n4, n3, n2, m);
    assert Entries(w.left.left) == [Entry(n1, Of(1.0)), Entry(m, Of(1.5))];
    assert Entries(w.left) == [Entry(n1, Of(1.0)), Entry(m, Of(1.5)), Entry(n2, Of(2.0)), Entry(n3, Of(3.0))];
    assert Entries(u.left) == [Entry(m, Of(1.5)), Entry(n2, Of(2.0)), Entry(n3, Of(3.0))];
  }

  lemma SevenEntries<N>(n5: N, n4: N, n3: N, n2: N, m: N, n6: N)
    ensures Entries(Seven(n5, n4, n3, n2, m, n6)) == Entries(Rest(n5, n4, n3, n2, m)) + [Entry(n6, Of(6.0))]
  {
    var w, u := Seven(n5, n4, n3, n2, m, n6), Rest(n5, n4, n3, n2, m);
    assert Entries(w.right) == [Entry(n5, Of(5.0)), Entry(n6, Of(6.0))];
    assert Entries(u.right) == [Entry(n5, Of(5.0))] && w.left == u.left;
  }

  // ----- the nodes

  /** What the nodes of the last tree hold: the first one is the one the header will be left with. */
  lemma FirstStrands(header: Node, repr: set<Node>, n5: Node, n4: Node, n3: Node, n2: Node, n1: Node, m: Node)
    requires Tied(header, repr, Top, Six(n5, n4, n3, n2, n1, m)) && header.left == n1
    ensures Strands(header, n1) && n1.left == null && n1 in repr && header.parent == n4 && n4 != n1
    ensures LeftAfter(header, n1) == n1
  {
    var w := Six(n5, n4, n3, n2, n1, m);
    Here(header, repr, Top, w);
    GoLeft(header, repr, Top, w);
    var z := InLeft(Top, w.at, w.black, w.value, w.right);
    Here(header, repr, z, w.left);
    GoLeft(header, repr, z, w.left);
    Here(header, repr, InLeft(z, w.left.at, w.left.black, w.left.value, w.left.right), w.left.left);
  }

  lemma RootIs(header: Node, repr: set<Node>, w: Tree<Node>)
    requires Tied(header, repr, Top, w) && w.Fork?
    ensures header.parent == w.at && w.at in repr && header !in repr
  {
    Here(header, repr, Top, w);
  }

  /** One insertion of a rank that is not there, into a node never used before. */
  method Add(s: RedBlackTree, rank: real) returns (n: Node)
    requires s.Valid() && s.Ends() && s.NoneEquivalent(Of(rank))
    modifies s, s.header, s.repr
    ensures s.Valid() && s.Ends() && fresh(n) && s.tree == Grown(old(s.tree), n, Of(rank))
    ensures s.repr == old(s.repr) + {n}
  {
    hide Grown, Tied, Rb, Black, Ascending, StrictlyAscending, Anchored, Entries, NoneAbove, AllAbove, AllBelow,
      Descent;
    n := new Node(Of(0.0));
    var _, _, i := s.InsertUnique(Of(rank), n);
  }

  method FourInserted(junk: Elem) returns (s: RedBlackTree, n5: Node, n4: Node, n3: Node, n2: Node)
    ensures s.Valid() && s.Ends() && s.junk == junk
    ensures fresh(s) && fresh(s.header) && fresh(s.repr) && s.tree == Four(n5, n4, n3, n2)
  {
    hide Grown, Tied, Rb, Black, Ascending, Anchored, EndsAre, Two, Three, Four, Entries;
    s := new RedBlackTree(junk);
    LeafEntries();
    n5 := Add(s, 5.0);
    LowEntries(n5, n5, n5, n5);
    FirstTwo(n5, n5);
    n4 := Add(s, 4.0);
    FirstTwo(n5, n4);
    LowEntries(n5, n4, n4, n4);
    n3 := Add(s, 3.0);
    GrowThree(n5, n4, n3);
    LowEntries(n5, n4, n3, n3);
    n2 := Add(s, 2.0);
    GrowFour(n5, n4, n3, n2);
  }

  /** Six values are added one after the other; then the header knows both ends, and the removal of the
      first node will leave it pointing to that node. */
  method SixInserted(junk: Elem) returns (s: RedBlackTree, n5: Node, n4: Node, n3: Node, n2: Node, n1: Node, m: Node)
    ensures s.Valid() && s.Ends() && s.junk == junk && fresh(s) && fresh(s.header) && fresh(s.repr)
    ensures s.tree == Six(n5, n4, n3, n2, n1, m) && s.header.left == n1
    ensures Strands(s.header, n1) && n1.left == null && n1 in s.repr && LeftAfter(s.header, n1) == n1
  {
    hide Grown, Tied, Rb, Black, Ascending, Anchored, EndsAre, Four, Five, Six, Strands, LeftAfter, Entries;
    s, n5, n4, n3, n2 := FourInserted(junk);
    LowEntries(n5, n4, n3, n2);
    n1 := Add(s, 1.0);
    GrowFive(n5, n4, n3, n2, n1);
    FiveEntries(n5, n4, n3, n2, n1);
    m := Add(s, 1.5);
    GrowSix(n5, n4, n3, n2, n1, m);
    SixEntries(n5, n4, n3, n2, n1, m);
    FirstOf(s.header, s.Contents());
    FirstStrands(s.header, s.repr, n5, n4, n3, n2, n1, m);
  }

  lemma FirstOf(header: Node, s: seq<Entry<Node>>)
    requires EndsAre(header, s) && s != []
    ensures header.left == s[0].at
  {
  }

  /** The first node is removed, and the header goes on pointing to it. */
  method FrontRemoved(junk: Elem) returns (s: RedBlackTree, n5: Node, n4: Node, n3: Node, n2: Node, n1: Node, m: Node)
    ensures s.Valid() && s.junk == junk && fresh(s) && fresh(s.header) && fresh(s.repr) && fresh(n1)
    ensures s.tree == Rest(n5, n4, n3, n2, m) && s.header.left == n1 && s.Free(n1) && !s.FirstKnown()
  {
    hide Tied, Rb, Black, Ascending, Anchored, EndsAre, Six, Rest, Strands, LeftAfter, RightAfter, Shrunk, Entries,
      FirstWithout, LastWithout;
    s, n5, n4, n3, n2, n1, m := SixInserted(junk);
    SixEntries(n5, n4, n3, n2, n1, m);
    ShrinkSix(n5, n4, n3, n2, n1, m);
    HeaderApart(s.header, s.repr, Top, s.tree);
    s.Erase(n1, 0);
    KnownIn(s.header, s.repr, s.tree, s.height);
  }

  /** Whether 0 can now be added hangs on the value in the header, which nothing sets.  The header knows
      the first node again exactly when 0 gets the memory of the node that was removed. */
  method LostFront(junk: Elem, again: bool) returns (s: RedBlackTree, inserted: bool)
    ensures s.Valid() && (s.FirstKnown() <==> inserted && again)
    ensures inserted <==> junk.rank < 0.0
    ensures !inserted ==> forall k :: 0 <= k < |s.Contents()| ==> s.Contents()[k].value.rank > 0.0
  {
    hide Tied, Rb, Black, Ascending, Anchored, EndsAre, Rest, Entries, Grown, Descent, FirstIs, LastIs,
      StrictlyAscending, NoneAbove, AllBelow;
    var n5, n4, n3, n2, n1, m;
    s, n5, n4, n3, n2, n1, m := FrontRemoved(junk);
    SixEntries(n5, n4, n3, n2, n1, m);
    Places(n5, n4, n3, n2, m, m);
    RestRoot(n5, n4, n3, n2, m);
    RootIs(s.header, s.repr, s.tree);
    KnownIn(s.header, s.repr, s.tree, s.height);
    var n := n1;
    if !again { n := new Node(Of(0.0)); }
    var _, added, _ := s.InsertUnique(Of(0.0), n);
    inserted := added;
  }

  lemma RestRoot<N>(n5: N, n4: N, n3: N, n2: N, m: N)
    ensures Rest(n5, n4, n3, n2, m).Fork? && Rest(n5, n4, n3, n2, m).at == n4
  {
  }

  /** 6 gets the memory of the node that was removed, so that the header takes 6 for the first value; a
      second 5, whose place is left of it, is then added by the insertion that allows no duplicates. */
  method Duplicated(junk: Elem) returns (s: RedBlackTree, first: bool, second: bool)
    ensures s.Valid() && first && second
    ensures var c := s.Contents();
      exists i, j :: 0 <= i < j < |c| && c[i].value.rank == c[j].value.rank == 5.0
  {
    hide Tied, Rb, Black, Ascending, Anchored, EndsAre, Rest, Seven, Entries, Grown, Descent, FirstIs, LastIs,
      StrictlyAscending, NoneAbove, AllBelow;
    var n5, n4, n3, n2, n1, m;
    s, n5, n4, n3, n2, n1, m := FrontRemoved(junk);
    SixEntries(n5, n4, n3, n2, n1, m);
    GrowSeven(n5, n4, n3, n2, m, n1);
    KnownIn(s.header, s.repr, s.tree, s.height);
    ghost var i;
    var node;
    node, first, i := s.InsertUnique(Of(6.0), n1);
    SevenEntries(n5, n4, n3, n2, m, n1);
    Places(n5, n4, n3, n2, m, n1);
    ghost var was := s.Contents();
    assert was[4].value.rank == 5.0;
    var n := new Node(Of(0.0));
    node, second, i := s.InsertUnique(Of(5.0), n);
    TwoFives(was, i, Entry(n, Of(5.0)));
  }

  lemma TwoFives(was: seq<Entry<Node>>, i: nat, e: Entry<Node>)
    requires |was| > 4 && was[4].value.rank == 5.0 == e.value.rank && i <= |was|
    ensures var s := was[..i] + [e] + was[i..];
      exists j, k :: 0 <= j < k < |s| && s[j].value.rank == s[k].value.rank == 5.0
  {
    var s := was[..i] + [e] + was[i..];
    if i <= 4 {
      assert s[i] == e && s[5] == was[4];
    } else {
      assert s[4] == was[4] && s[i] == e;
    }
  }
}
