/** The unwinding steps of removal: the subtree in the hole of a frame has lost one
    black level, and each step either restores it or passes the deficit up. */
module MapRemove {
  import opened MapTree
  import opened MapInsert

  // ------------------------------------------------ as tree transformations

  /** The hole is the left child; its sibling on the right is black. */
  ghost function ShrunkLess(f: Frame, t: Tree): Tree
    requires f.sib.Fork?
  {
    var s := f.sib;
    if IsRed(s.l) then
      Fork(s.l.n, f.red, Fork(f.n, false, t, s.l.l), Fork(s.n, s.red, s.l.r, s.r))
    else
      Fork(s.n, s.red, Fork(f.n, true, t, s.l), s.r)
  }

  ghost predicate LessRestores(f: Frame)
    requires f.sib.Fork?
  {
    f.red || IsRed(f.sib.l)
  }

  /** The hole is the right child; its sibling on the left may be red. */
  ghost function ShrunkGreater(f: Frame, t: Tree): Tree
    requires f.sib.Fork? && (f.sib.red ==> f.sib.r.Fork?)
  {
    var s := f.sib;
    if s.red && IsRed(s.r.l) then
      Fork(s.r.n, s.r.red, Fork(s.n, true, s.l, Blacken(s.r.l)), Fork(f.n, f.red, s.r.r, t))
    else if s.red then
      Fork(s.n, false, s.l, Fork(f.n, f.red, Fork(s.r.n, true, s.r.l, s.r.r), t))
    else if IsRed(s.l) then
      Fork(s.n, f.red, Blacken(s.l), Fork(f.n, false, s.r, t))
    else
      Fork(f.n, false, Fork(s.n, true, s.l, s.r), t)
  }

  ghost predicate GreaterRestores(f: Frame)
    requires f.sib.Fork?
  {
    f.red || f.sib.red || IsRed(f.sib.l)
  }

  /** `up` makes up for the lost black level, or passes it on below a black node. */
  ghost predicate Settled(up: Tree, f: Frame, h: nat, done: bool) {
    if done then Balanced(up, HeightAbove(f, h + 1)) && (IsRed(up) ==> f.red)
    else !f.red && Balanced(up, h + 1) && !IsRed(up)
  }

  lemma ShrunkLessBalanced(f: Frame, t: Tree, h: nat)
    requires f.left && FrameBalanced(f, h + 1) && Balanced(t, h) && !IsRed(t)
    ensures f.sib.Fork? && !f.sib.red && Settled(ShrunkLess(f, t), f, h, LessRestores(f))
    ensures Inorder(ShrunkLess(f, t)) == Inorder(Fill(f, t)) && Nodes(ShrunkLess(f, t)) == Span(f, t)
  {
    var s := f.sib;
    assert Balanced(s, h + 1);
    if IsRed(s.l) {
      assert Balanced(s.l, h);
      var low := Fork(s.n, s.red, s.l.r, s.r);
      RotationInorder(s.l.n, s.n, false, s.red, s.red, true, s.l.l, s.l.r, s.r);
      assert Inorder(Fork(s.l.n, false, s.l.l, low)) == Inorder(s);
      RotationInorder(f.n, s.l.n, false, false, f.red, false, t, s.l.l, low);
    } else {
      RotationInorder(f.n, s.n, f.red, s.red, s.red, true, t, s.l, s.r);
    }
    SameListingSameNodes(ShrunkLess(f, t), Fill(f, t));
  }

  lemma ShrunkGreaterBalanced(f: Frame, t: Tree, h: nat)
    requires !f.left && FrameBalanced(f, h + 1) && Balanced(t, h) && !IsRed(t)
    ensures f.sib.Fork? && (f.sib.red ==> !f.red && f.sib.r.Fork?)
    ensures Settled(ShrunkGreater(f, t), f, h, GreaterRestores(f))
  {
    var s := f.sib;
    assert Balanced(s, h + 1);
    assert s.red ==> Balanced(s.r, h + 1);
    var up := ShrunkGreater(f, t);
    if s.red {
      if IsRed(s.r.l) {
        assert Balanced(s.r.l, h);
        assert Balanced(up.l, h + 1) && Balanced(up.r, h + 1);
      } else {
        assert Balanced(up.r.l, h);
      }
    } else if IsRed(s.l) {
      assert Balanced(s.l, h);
      assert Balanced(up.l, h + 1) && Balanced(up.r, h + 1);
    } else {
      assert Balanced(up.l, h);
    }
  }

  lemma ShrunkGreaterListing(f: Frame, t: Tree)
    requires !f.left && f.sib.Fork? && (f.sib.red ==> f.sib.r.Fork?)
    ensures Inorder(ShrunkGreater(f, t)) == Inorder(Fill(f, t)) && Nodes(ShrunkGreater(f, t)) == Span(f, t)
  {
    var s := f.sib;
    if s.red && IsRed(s.r.l) {
      var top := Fork(s.n, true, s.l, s.r.l);
      RotationInorder(s.n, s.r.n, s.red, s.r.red, true, true, s.l, s.r.l, s.r.r);
      assert Inorder(Fork(s.r.n, true, top, s.r.r)) == Inorder(s);
      RotationInorder(s.r.n, f.n, true, f.red, f.red, true, top, s.r.r, t);
      assert Inorder(Blacken(s.r.l)) == Inorder(s.r.l);
    } else if s.red {
      RotationInorder(s.n, f.n, false, f.red, f.red, true, s.l, s.r, t);
      assert Inorder(Fork(s.r.n, true, s.r.l, s.r.r)) == Inorder(s.r);
    } else if IsRed(s.l) {
      RotationInorder(s.n, f.n, f.red, false, f.red, s.red, s.l, s.r, t);
      assert Inorder(Blacken(s.l)) == Inorder(s.l);
    } else {
      assert Inorder(Fork(s.n, true, s.l, s.r)) == Inorder(s);
    }
    SameListingSameNodes(ShrunkGreater(f, t), Fill(f, t));
  }

  // ------------------------------------------------ on the heap

  /** Sibling with a red left child: rotate the sibling right, then the frame left. */
  method ShrinkLessRotateTwice(p: MapNode, right: MapNode, rightleft: MapNode, ghost f: Frame, ghost t: Tree)
    requires f.n == p && f.left && Shape(Fill(f, t))
    requires Root(f.sib) == right && IsRed(f.sib.l) && Root(f.sib.l) == rightleft
    modifies Span(f, t)
    ensures Shape(ShrunkLess(f, t))
  {
    ghost var s := f.sib;
    assert Shape(s.l) && Shape(s.r) && Shape(s);
    if p.red {
      p.red := false;
    } else {
      rightleft.red := false;
    }
    ghost var s' := Fork(s.n, s.red, Fork(s.l.n, f.red, s.l.l, s.l.r), s.r);
    assert Shape(s'.l) && Shape(t) && allocated(Nodes(t));
    var tnode := RotateRight(right, s');
    p.right := tnode;
    assert Shape(RotatedRight(s'));
    tnode := RotateLeft(p, Fork(p, false, t, RotatedRight(s')));
  }

  method ShrinkLess(p: MapNode, child: MapNode?, ghost f: Frame, ghost t: Tree) returns (r: MapNode, done: bool)
    requires f.n == p && f.left && Joinable(f, t) && Root(t) == child && f.sib.Fork?
    modifies Span(f, t)
    ensures Shape(ShrunkLess(f, t)) && Root(ShrunkLess(f, t)) == r
    ensures done == LessRestores(f)
  {
    p.left := child;
    assert Shape(Fill(f, t)) && Shape(f.sib.l);
    var right := p.right;
    var rightleft := right.left;
    if rightleft != null && rightleft.red {
      ShrinkLessRotateTwice(p, right, rightleft, f, t);
      return rightleft, true;
    }
    if p.red {
      r := RotateLeft(p, Fill(f, t));
      return r, true;
    }
    p.red := true;
    r := RotateLeft(p, Fork(p, true, t, f.sib));
    return r, false;
  }

  /** Rotate `p` right past its left child and past that child's right child, then
      rotate the former left child left. */
  method RotateThrice(p: MapNode, ghost t: Tree) returns (r: MapNode)
    requires Shape(t) && Root(t) == p && t.l.Fork? && t.l.r.Fork?
    modifies p, t.l.n, t.l.r.n
    ensures r == t.l.r.n
    ensures Shape(Fork(t.l.r.n, t.l.r.red, Fork(t.l.n, t.l.red, t.l.l, t.l.r.l), Fork(p, t.red, t.l.r.r, t.r)))
  {
    ghost var s := t.l;
    ghost var low := Fork(p, t.red, s.r, t.r);
    var unode := RotateRight(p, t);
    assert Shape(low) && allocated(Nodes(s.l));
    r := RotateRight(p, low);
    unode.right := r;
    assert Shape(RotatedRight(low));
    r := RotateLeft(unode, Fork(s.n, s.red, s.l, RotatedRight(low)));
  }

  /** Red sibling whose right child has a red left child. */
  method ShrinkGreaterRotateThrice(p: MapNode, left: MapNode, ghost f: Frame, ghost t: Tree) returns (r: MapNode)
    requires f.n == p && !f.left && Shape(Fill(f, t))
    requires IsRed(f.sib) && f.sib.r.Fork? && IsRed(f.sib.r.l) && Root(f.sib) == left
    modifies Span(f, t)
    ensures Shape(ShrunkGreater(f, t)) && Root(ShrunkGreater(f, t)) == r
  {
    ghost var s := f.sib;
    assert Shape(s) && Shape(s.r) && Shape(s.r.l);
    left.right.left.red := false;
    ghost var lr := Fork(s.r.n, s.r.red, Blacken(s.r.l), s.r.r);
    assert Shape(lr.l) && Shape(lr) && Shape(Fork(left, true, s.l, lr));
    r := RotateThrice(p, Fork(p, f.red, Fork(left, true, s.l, lr), t));
  }

  /** Red sibling whose right child has no red left child. */
  method ShrinkGreaterRed(p: MapNode, left: MapNode, ghost f: Frame, ghost t: Tree) returns (r: MapNode)
    requires f.n == p && !f.left && Shape(Fill(f, t))
    requires IsRed(f.sib) && f.sib.r.Fork? && !IsRed(f.sib.r.l) && Root(f.sib) == left
    modifies Span(f, t)
    ensures Shape(ShrunkGreater(f, t)) && Root(ShrunkGreater(f, t)) == r
  {
    ghost var s := f.sib;
    assert Shape(s) && Shape(s.r);
    left.right.red := true;
    ghost var lr := Fork(s.r.n, true, s.r.l, s.r.r);
    assert Shape(lr) && Shape(Fork(left, true, s.l, lr));
    r := RotateRight(p, Fork(p, f.red, Fork(left, true, s.l, lr), t));
    ghost var low := Fork(p, f.red, lr, t);
    assert Shape(low) && left !in Nodes(low);
    r.red := false;
    assert Shape(low);
  }

  /** Black sibling with a red left child. */
  method ShrinkGreaterRotate(p: MapNode, left: MapNode, leftleft: MapNode, ghost f: Frame, ghost t: Tree)
    returns (r: MapNode)
    requires f.n == p && !f.left && Shape(Fill(f, t))
    requires Root(f.sib) == left && !f.sib.red && IsRed(f.sib.l) && Root(f.sib.l) == leftleft
    modifies Span(f, t)
    ensures Shape(ShrunkGreater(f, t)) && Root(ShrunkGreater(f, t)) == r
  {
    ghost var s := f.sib;
    assert Shape(s) && Shape(s.l) && Shape(s.r);
    if p.red {
      p.red := false;
      left.red := true;
    }
    leftleft.red := false;
    assert Shape(Blacken(s.l));
    assert Shape(Fork(left, f.red, Blacken(s.l), s.r));
    r := RotateRight(p, Fork(p, false, Fork(left, f.red, Blacken(s.l), s.r), t));
  }

  method ShrinkGreater(p: MapNode, child: MapNode?, ghost f: Frame, ghost t: Tree) returns (r: MapNode, done: bool)
    requires f.n == p && !f.left && Joinable(f, t) && Root(t) == child
    requires f.sib.Fork? && (f.sib.red ==> f.sib.r.Fork?)
    modifies Span(f, t)
    ensures Shape(ShrunkGreater(f, t)) && Root(ShrunkGreater(f, t)) == r
    ensures done == GreaterRestores(f)
  {
    ghost var s := f.sib;
    p.right := child;
    assert Shape(Fill(f, t)) && Shape(s.l) && Shape(s.r);
    var left := p.left;
    if left.red {
      assert Shape(s.r.l);
      var leftright := left.right;
      var leftrightleft := leftright.left;
      if leftrightleft != null && leftrightleft.red {
        r := ShrinkGreaterRotateThrice(p, left, f, t);
      } else {
        r := ShrinkGreaterRed(p, left, f, t);
      }
      return r, true;
    }
    var leftleft := left.left;
    if leftleft != null && leftleft.red {
      r := ShrinkGreaterRotate(p, left, leftleft, f, t);
      return r, true;
    }
    left.red := true;
    assert Shape(Fork(left, true, s.l, s.r));
    if p.red {
      p.red := false;
      return p, true;
    }
    return p, false;
  }

  // ------------------------------------------------ unwinding

  /** Below path `p` hangs a subtree one black level short. */
  ghost predicate Shrinking(p: Path, t: Tree, h: nat)
    reads PathNodes(p) + Nodes(t)
  {
    && PathShape(p) && Shape(t) && Nodes(t) !! PathNodes(p)
    && PathBalanced(p, h + 1) && Balanced(t, h) && !IsRed(t)
  }

  /** Subtree `t` can be hung below path `p` to give a balanced tree. */
  ghost predicate Attachable(p: Path, t: Tree, h: nat)
    reads PathNodes(p) + Nodes(t)
  {
    && PathShape(p) && Shape(t) && Nodes(t) !! PathNodes(p)
    && PathBalanced(p, h) && Balanced(t, h) && (IsRed(t) ==> RedAllowed(p))
  }

  method ShrinkStep(n: MapNode, child: MapNode?, less: bool, ghost p: Path, ghost t: Tree, ghost h: nat)
    returns (r: MapNode, done: bool, ghost up: Tree)
    requires p.Step? && p.f.n == n && p.f.left == less && Root(t) == child && Shrinking(p, t, h)
    modifies Span(p.f, t)
    ensures Root(up) == r && Shape(up) && Nodes(up) == Span(p.f, t) && Inorder(up) == Inorder(Fill(p.f, t))
    ensures if done then Attachable(p.up, up, HeightAbove(p.f, h + 1)) else Shrinking(p.up, up, h + 1)
  {
    assert allocated(PathNodes(p.up));
    if less {
      ShrunkLessBalanced(p.f, t, h);
      up := ShrunkLess(p.f, t);
      r, done := ShrinkLess(n, child, p.f, t);
    } else {
      ShrunkGreaterBalanced(p.f, t, h);
      ShrunkGreaterListing(p.f, t);
      up := ShrunkGreater(p.f, t);
      r, done := ShrinkGreater(n, child, p.f, t);
    }
  }

  /** Point the link into the hole of `p` to `n`. */
  method Relink(parent: MapNode, less: bool, n: MapNode?, ghost p: Path)
    requires p.Step? && p.f.n == parent && p.f.left == less && PathShape(p)
    modifies parent
    ensures PathShape(p) && Holds(p, n)
  {
    assert allocated(PathNodes(p.up)) && parent !in PathNodes(p.up);
    if less {
      parent.left := n;
    } else {
      parent.right := n;
    }
  }
}
