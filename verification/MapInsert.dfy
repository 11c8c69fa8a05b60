/** The repair steps of insertion, one search-path entry at a time on the way back
    to the root: first as tree transformations, then on the heap. */
module MapInsert {
  import opened MapTree

  /** A frame and the subtree in its hole, both intact on the heap and disjoint. */
  ghost predicate Joinable(f: Frame, t: Tree)
    reads {f.n} + Nodes(f.sib) + Nodes(t)
  {
    && f.n !in Nodes(f.sib) && f.n !in Nodes(t) && Nodes(f.sib) !! Nodes(t)
    && f.n.red == f.red && Down(f.n, !f.left) == Root(f.sib)
    && Shape(f.sib) && Shape(t)
  }

  ghost function Span(f: Frame, t: Tree): set<MapNode> {
    {f.n} + Nodes(f.sib) + Nodes(t)
  }

  ghost function Blacken(t: Tree): Tree {
    if t.Leaf? then t else Fork(t.n, false, t.l, t.r)
  }

  /** Rotations do not change the in-order listing, whatever the colours. */
  lemma RotationInorder(a: MapNode, b: MapNode, c1: bool, c2: bool, d1: bool, d2: bool, x: Tree, y: Tree, z: Tree)
    ensures Inorder(Fork(a, c1, x, Fork(b, c2, y, z))) == Inorder(Fork(b, d1, Fork(a, d2, x, y), z))
  {}

  /** What insertion hands up: a subtree as balanced as the one it replaces, except
      that a red one may have become red over red. */
  ghost predicate Grown(t: Tree, h: nat, wasRed: bool) {
    && t.Fork?
    && (wasRed ==> t.red && (Balanced(t, h) || RedRed(t, h)))
    && (!wasRed ==> Balanced(t, h))
  }

  /** One step up from a grown left subtree: a red left child with a red left child
      of its own is rotated to the top. */
  ghost function GrownLess(f: Frame, t: Tree): Tree {
    if IsRed(t) && IsRed(t.l)
    then Fork(t.n, true, Blacken(t.l), Fork(f.n, f.red, t.r, f.sib))
    else Fork(f.n, f.red, t, f.sib)
  }

  /** One step up from a grown right subtree: two red children are split, a red
      right child alone is rotated to the left. */
  ghost function GrownGreater(f: Frame, t: Tree): Tree {
    if !IsRed(t) then Fork(f.n, f.red, f.sib, t)
    else if IsRed(f.sib) then Fork(f.n, true, Blacken(f.sib), Blacken(t))
    else Fork(t.n, f.red, Fork(f.n, true, f.sib, t.l), t.r)
  }

  lemma GrownLessBalanced(f: Frame, t: Tree, h: nat, wasRed: bool)
    requires f.left && FrameBalanced(f, h) && Grown(t, h, wasRed) && (wasRed ==> !f.red)
    ensures Grown(GrownLess(f, t), HeightAbove(f, h), f.red)
    ensures Inorder(GrownLess(f, t)) == Inorder(Fill(f, t)) && Nodes(GrownLess(f, t)) == Span(f, t)
    ensures !IsRed(t) ==> Balanced(Fill(f, t), HeightAbove(f, h)) && GrownLess(f, t) == Fill(f, t)
  {
    if IsRed(t) && IsRed(t.l) {
      RotationInorder(t.n, f.n, true, f.red, f.red, true, t.l, t.r, f.sib);
      assert Inorder(Blacken(t.l)) == Inorder(t.l) && Nodes(Blacken(t.l)) == Nodes(t.l);
    }
  }

  lemma GrownGreaterBalanced(f: Frame, t: Tree, h: nat)
    requires !f.left && FrameBalanced(f, h) && Grown(t, h, false)
    ensures Grown(GrownGreater(f, t), HeightAbove(f, h), f.red)
    ensures Inorder(GrownGreater(f, t)) == Inorder(Fill(f, t)) && Nodes(GrownGreater(f, t)) == Span(f, t)
    ensures !IsRed(t) ==> Balanced(Fill(f, t), HeightAbove(f, h)) && GrownGreater(f, t) == Fill(f, t)
  {
    if IsRed(t) && !IsRed(f.sib) {
      RotationInorder(f.n, t.n, f.red, true, f.red, true, f.sib, t.l, t.r);
    }
  }

  // ------------------------------------------------ on the heap

  ghost function RotatedLeft(t: Tree): Tree
    requires t.Fork? && t.r.Fork?
  {
    Fork(t.r.n, t.r.red, Fork(t.n, t.red, t.l, t.r.l), t.r.r)
  }

  ghost function RotatedRight(t: Tree): Tree
    requires t.Fork? && t.l.Fork?
  {
    Fork(t.l.n, t.l.red, t.l.l, Fork(t.n, t.red, t.l.r, t.r))
  }

  method RotateLeft(x: MapNode, ghost t: Tree) returns (r: MapNode)
    requires Shape(t) && Root(t) == x && t.r.Fork?
    modifies x, t.r.n
    ensures r == t.r.n && Shape(RotatedLeft(t))
  {
    assert Shape(t.l) && Shape(t.r);
    r := x.right;
    x.right := r.left;
    r.left := x;
    assert Shape(Fork(x, t.red, t.l, t.r.l));
  }

  method RotateRight(x: MapNode, ghost t: Tree) returns (r: MapNode)
    requires Shape(t) && Root(t) == x && t.l.Fork?
    modifies x, t.l.n
    ensures r == t.l.n && Shape(RotatedRight(t))
  {
    assert Shape(t.l) && Shape(t.r);
    r := x.left;
    x.left := r.right;
    r.right := x;
    assert Shape(Fork(x, t.red, t.l.r, t.r));
  }

  /** `stop` says the repair is over: the subtree root and its colour did not change. */
  method GrowLess(c: MapNode, left: MapNode, ghost f: Frame, ghost t: Tree) returns (r: MapNode, stop: bool)
    requires f.n == c && f.left && Joinable(f, t) && Root(t) == left
    modifies Span(f, t)
    ensures Shape(GrownLess(f, t)) && Root(GrownLess(f, t)) == r
    ensures stop == !IsRed(t)
  {
    c.left := left;
    assert Shape(Fill(f, t)) && Shape(t.l);
    if !left.red {
      return c, true;
    }
    var leftleft := left.left;
    if leftleft != null && leftleft.red {
      // fix up 4-node
      leftleft.red := false;
      assert Shape(Blacken(t.l)) && Shape(t.r);
      assert Shape(Fork(left, true, Blacken(t.l), t.r));
      r := RotateRight(c, Fork(c, f.red, Fork(left, true, Blacken(t.l), t.r), f.sib));
      return r, false;
    }
    return c, false;
  }

  method GrowGreater(c: MapNode, right: MapNode, ghost f: Frame, ghost t: Tree) returns (r: MapNode, stop: bool)
    requires f.n == c && !f.left && Joinable(f, t) && Root(t) == right
    modifies Span(f, t)
    ensures Shape(GrownGreater(f, t)) && Root(GrownGreater(f, t)) == r
    ensures stop == !IsRed(t)
  {
    c.right := right;
    assert Shape(Fill(f, t)) && Shape(t.l) && Shape(t.r);
    if !right.red {
      return c, true;
    }
    var left := c.left;
    if left != null && left.red {
      // split 4-node
      left.red := false;
      right.red := false;
      c.red := true;
      assert Shape(Blacken(f.sib)) && Shape(Blacken(t));
      return c, false;
    }
    // lean left
    var colour := c.red;
    r := RotateLeft(c, Fill(f, t));
    r.red := colour;
    c.red := true;
    assert Shape(Fork(c, true, f.sib, t.l));
    return r, false;
  }
}
