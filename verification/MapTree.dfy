/** Left-leaning red-black trees as values: the shape the map's nodes form on the
    heap, the balance invariant, and the zipper that stands for a search path. */
module MapTree {
  import opened Powers

  type Value = int

  datatype Cmp = Less | Equal | Greater

  /** The comparators of map.h return (a > b) - (a < b). */
  function Compare(a: int, b: int): Cmp {
    if a < b then Less else if a > b then Greater else Equal
  }

  /** A map node. The source keeps the colour in the low bit of the right link;
      its accessors never change one through the other. */
  class MapNode {
    const key: int
    const data: Value
    var left: MapNode?
    var right: MapNode?
    var red: bool

    constructor (key: int, data: Value)
      ensures this.key == key && this.data == data
      ensures left == null && right == null && red
    {
      this.key, this.data := key, data;
      left, right, red := null, null, true;
    }
  }

  // ---------------------------------------------------------------- trees

  /** The tree a root pointer spans, node identities included. */
  datatype Tree = Leaf | Fork(n: MapNode, red: bool, l: Tree, r: Tree)

  ghost function Root(t: Tree): MapNode? {
    if t.Leaf? then null else t.n
  }

  ghost predicate IsRed(t: Tree) {
    t.Fork? && t.red
  }

  ghost function Nodes(t: Tree): set<MapNode> {
    match t
    case Leaf => {}
    case Fork(n, _, l, r) => Nodes(l) + {n} + Nodes(r)
  }

  /** The heap links and colours spell out exactly `t`, without sharing. */
  ghost predicate Shape(t: Tree)
    reads Nodes(t)
  {
    match t
    case Leaf => true
    case Fork(n, red, l, r) =>
      && n !in Nodes(l) && n !in Nodes(r) && Nodes(l) !! Nodes(r)
      && n.left == Root(l) && n.right == Root(r) && n.red == red
      && Shape(l) && Shape(r)
  }

  ghost function Inorder(t: Tree): seq<MapNode> {
    match t
    case Leaf => []
    case Fork(n, _, l, r) => Inorder(l) + [n] + Inorder(r)
  }

  ghost predicate KeysBelow(s: seq<MapNode>, key: int) {
    forall i :: 0 <= i < |s| ==> s[i].key < key
  }

  ghost predicate KeysAbove(s: seq<MapNode>, key: int) {
    forall i :: 0 <= i < |s| ==> key < s[i].key
  }

  lemma KeysBelowConcat(a: seq<MapNode>, b: seq<MapNode>, key: int)
    ensures KeysBelow(a + b, key) <==> KeysBelow(a, key) && KeysBelow(b, key)
  {
    if KeysBelow(a + b, key) {
      assert forall i :: 0 <= i < |a| ==> a[i] == (a + b)[i];
      assert forall i :: 0 <= i < |b| ==> b[i] == (a + b)[|a| + i];
    }
  }

  lemma KeysAboveConcat(a: seq<MapNode>, b: seq<MapNode>, key: int)
    ensures KeysAbove(a + b, key) <==> KeysAbove(a, key) && KeysAbove(b, key)
  {
    if KeysAbove(a + b, key) {
      assert forall i :: 0 <= i < |a| ==> a[i] == (a + b)[i];
      assert forall i :: 0 <= i < |b| ==> b[i] == (a + b)[|a| + i];
    }
  }

  ghost predicate Increasing(s: seq<MapNode>) {
    forall i, j :: 0 <= i < j < |s| ==> s[i].key < s[j].key
  }

  /** Left-leaning red-black balance with black height `h`: red links only to left
      children, never two in a row, and the same number of black nodes on every path. */
  ghost predicate Balanced(t: Tree, h: nat) {
    match t
    case Leaf => h == 0
    case Fork(_, red, l, r) =>
      && !IsRed(r)
      && (red ==> !IsRed(l) && Balanced(l, h) && Balanced(r, h))
      && (!red ==> h > 0 && Balanced(l, h - 1) && Balanced(r, h - 1))
  }

  ghost function BlackHeight(t: Tree): nat {
    match t
    case Leaf => 0
    case Fork(_, red, l, _) => BlackHeight(l) + if red then 0 else 1
  }

  lemma {:induction false} BalancedHeight(t: Tree, h: nat)
    requires Balanced(t, h)
    ensures h == BlackHeight(t)
  {
    match t
    case Leaf =>
    case Fork(_, red, l, _) => BalancedHeight(l, if red then h else h - 1);
  }

  /** The finite map an in-order listing stands for. */
  ghost function ToMap(s: seq<MapNode>): map<int, Value> {
    if s == [] then map[]
    else
      var n := s[|s| - 1];
      ToMap(s[..|s| - 1])[n.key := n.data]
  }

  lemma {:induction false} ToMapConcat(a: seq<MapNode>, b: seq<MapNode>)
    ensures ToMap(a + b) == ToMap(a) + ToMap(b)
  {
    if b == [] {
      assert a + b == a;
    } else {
      assert (a + b)[..|a + b| - 1] == a + b[..|b| - 1];
      ToMapConcat(a, b[..|b| - 1]);
    }
  }

  lemma {:induction false} ToMapKeys(s: seq<MapNode>)
    ensures forall k :: k in ToMap(s) <==> exists i :: 0 <= i < |s| && s[i].key == k
  {
    if s != [] {
      var a, n := s[..|s| - 1], s[|s| - 1];
      ToMapKeys(a);
      forall k ensures k in ToMap(s) <==> exists i :: 0 <= i < |s| && s[i].key == k {
        if k in ToMap(a) {
          var i :| 0 <= i < |a| && a[i].key == k;
          assert s[i].key == k;
        }
      }
    }
  }

  lemma IncreasingInsert(a: seq<MapNode>, n: MapNode, b: seq<MapNode>)
    requires Increasing(a + b) && KeysBelow(a, n.key) && KeysAbove(b, n.key)
    ensures Increasing(a + [n] + b)
  {
    var s, s' := a + b, a + [n] + b;
    forall i, j | 0 <= i < j < |s'| ensures s'[i].key < s'[j].key {
      if i != |a| && j != |a| {
        assert s'[i] == s[if i < |a| then i else i - 1] && s'[j] == s[if j < |a| then j else j - 1];
      }
    }
  }

  lemma IncreasingRemove(a: seq<MapNode>, n: MapNode, b: seq<MapNode>)
    requires Increasing(a + [n] + b)
    ensures Increasing(a + b) && KeysBelow(a, n.key) && KeysAbove(b, n.key)
  {
    var s, s' := a + b, a + [n] + b;
    assert s'[|a|] == n;
    forall i, j | 0 <= i < j < |s| ensures s[i].key < s[j].key {
      assert s[i] == s'[if i < |a| then i else i + 1] && s[j] == s'[if j < |a| then j else j + 1];
    }
    forall i | 0 <= i < |a| ensures a[i].key < n.key { assert s'[i] == a[i]; }
    forall i | 0 <= i < |b| ensures n.key < b[i].key { assert s'[|a| + 1 + i] == b[i]; }
  }

  lemma ToMapInsert(a: seq<MapNode>, n: MapNode, b: seq<MapNode>)
    requires KeysBelow(a, n.key) && KeysAbove(b, n.key)
    ensures n.key !in ToMap(a + b)
    ensures ToMap(a + [n] + b) == ToMap(a + b)[n.key := n.data]
    ensures ToMap(a + b) == ToMap(a + [n] + b) - {n.key}
  {
    hide ToMap;
    ToMapConcat(a, b);
    ToMapConcat(a, [n]);
    ToMapConcat(a + [n], b);
    ToMapKeys(a);
    ToMapKeys(b);
    ToMapOne(n);
  }

  lemma ToMapOne(n: MapNode)
    ensures ToMap([n]) == map[n.key := n.data]
  {}

  lemma ToMapRemove(a: seq<MapNode>, n: MapNode, b: seq<MapNode>)
    requires Increasing(a + [n] + b)
    ensures Increasing(a + b) && n.key in ToMap(a + [n] + b)
    ensures ToMap(a + b) == ToMap(a + [n] + b) - {n.key}
  {
    IncreasingRemove(a, n, b);
    ToMapInsert(a, n, b);
  }

  lemma ToMapAt(s: seq<MapNode>, i: nat)
    requires Increasing(s) && i < |s|
    ensures s[i].key in ToMap(s) && ToMap(s)[s[i].key] == s[i].data
  {}

  lemma {:induction false} ToMapSize(s: seq<MapNode>)
    requires Increasing(s)
    ensures |ToMap(s)| == |s|
  {
    if s != [] {
      var a := s[..|s| - 1];
      ToMapSize(a);
      ToMapKeys(a);
    }
  }

  /** What one step of insertion may leave behind below a node that was red:
      a red node whose left child is red too. */
  ghost predicate RedRed(t: Tree, h: nat) {
    && IsRed(t) && IsRed(t.l) && !IsRed(t.r)
    && Balanced(t.l, h) && Balanced(t.r, h)
  }

  ghost function Height(t: Tree): nat {
    match t
    case Leaf => 0
    case Fork(_, _, l, r) => 1 + if Height(l) < Height(r) then Height(r) else Height(l)
  }

  /** A balanced tree is at most twice as high as its black height, and holds
      at least 2^h - 1 nodes. */
  lemma {:induction false} BalancedBounds(t: Tree, h: nat)
    requires Balanced(t, h)
    ensures Height(t) <= 2 * h + (if IsRed(t) then 1 else 0)
    ensures |Inorder(t)| + 1 >= Pow2(h)
  {
    match t
    case Leaf =>
    case Fork(_, red, l, r) =>
      var below := if red then h else h - 1;
      BalancedBounds(l, below);
      BalancedBounds(r, below);
  }

  lemma {:induction false} InorderNodes(t: Tree)
    ensures Nodes(t) == set n | n in Inorder(t)
  {
    match t
    case Leaf =>
    case Fork(_, _, l, r) => InorderNodes(l); InorderNodes(r);
  }

  lemma SameListingSameNodes(a: Tree, b: Tree)
    requires Inorder(a) == Inorder(b)
    ensures Nodes(a) == Nodes(b)
  {
    InorderNodes(a);
    InorderNodes(b);
  }

  /** Every node of a tree heads a subtree that fills a segment of the in-order listing. */
  lemma {:induction false} Locate(t: Tree, n: MapNode) returns (pre: seq<MapNode>, sub: Tree, post: seq<MapNode>)
    requires n in Nodes(t) && Shape(t)
    ensures sub.Fork? && sub.n == n && Shape(sub) && Nodes(sub) <= Nodes(t)
    ensures Inorder(t) == pre + Inorder(sub) + post
  {
    if t.n == n {
      return [], t, [];
    } else if n in Nodes(t.l) {
      pre, sub, post := Locate(t.l, n);
      post := post + [t.n] + Inorder(t.r);
      assert Inorder(t) == pre + Inorder(sub) + post;
    } else {
      pre, sub, post := Locate(t.r, n);
      pre := Inorder(t.l) + [t.n] + pre;
      assert Inorder(t) == pre + Inorder(sub) + post;
    }
  }

  // ---------------------------------------------------------------- search paths

  /** One entry of a search path: the node, the side the path takes below it,
      its colour and the subtree on the other side. */
  datatype Frame = Frame(n: MapNode, left: bool, red: bool, sib: Tree)

  /** A search path, innermost entry first: a tree with a hole. */
  datatype Path = Top | Step(f: Frame, up: Path)

  ghost function Depth(p: Path): nat {
    if p.Top? then 0 else 1 + Depth(p.up)
  }

  /** Rebuild the subtree of a frame around `t`. */
  ghost function Fill(f: Frame, t: Tree): Tree {
    if f.left then Fork(f.n, f.red, t, f.sib) else Fork(f.n, f.red, f.sib, t)
  }

  ghost function Plug(p: Path, t: Tree): Tree {
    if p.Top? then t else Plug(p.up, Fill(p.f, t))
  }

  /** The nodes that come before (after) the hole in the in-order listing. */
  ghost function Before(p: Path): seq<MapNode> {
    match p
    case Top => []
    case Step(f, up) => Before(up) + if f.left then [] else Inorder(f.sib) + [f.n]
  }

  ghost function After(p: Path): seq<MapNode> {
    match p
    case Top => []
    case Step(f, up) => (if f.left then [f.n] + Inorder(f.sib) else []) + After(up)
  }

  lemma {:induction false} PlugInorder(p: Path, t: Tree)
    ensures Inorder(Plug(p, t)) == Before(p) + Inorder(t) + After(p)
  {
    if p.Step? { PlugInorder(p.up, Fill(p.f, t)); }
  }

  lemma PlugSame(p: Path, a: Tree, b: Tree)
    requires Inorder(a) == Inorder(b)
    ensures Inorder(Plug(p, a)) == Inorder(Plug(p, b)) && Nodes(Plug(p, a)) == Nodes(Plug(p, b))
  {
    PlugInorder(p, a);
    PlugInorder(p, b);
    SameListingSameNodes(Plug(p, a), Plug(p, b));
  }

  /** A path descends at most the height of the tree. */
  lemma {:induction false} PathHeight(p: Path, t: Tree)
    ensures Depth(p) + Height(t) <= Height(Plug(p, t))
  {
    if p.Step? { PathHeight(p.up, Fill(p.f, t)); }
  }

  lemma Reassociate<T>(a: seq<T>, b: seq<T>, x: T, c: seq<T>, d: seq<T>)
    ensures a + (b + [x] + c) + d == (a + b) + [x] + (c + d)
  {}

  /** One step further down. */
  ghost function Extend(p: Path, t: Tree, left: bool): Path
    requires t.Fork?
  {
    Step(Frame(t.n, left, t.red, if left then t.r else t.l), p)
  }

  /** The root of the subtree in the hole splits the listing by key. */
  lemma SplitAt(p: Path, t: Tree)
    requires t.Fork? && Increasing(Inorder(Plug(p, t)))
    ensures Inorder(Plug(p, t)) == (Before(p) + Inorder(t.l)) + [t.n] + (Inorder(t.r) + After(p))
    ensures KeysBelow(Before(p) + Inorder(t.l), t.n.key) && KeysAbove(Inorder(t.r) + After(p), t.n.key)
  {
    PlugInorder(p, t);
    Reassociate(Before(p), Inorder(t.l), t.n, Inorder(t.r), After(p));
    IncreasingRemove(Before(p) + Inorder(t.l), t.n, Inorder(t.r) + After(p));
  }

  ghost function PathNodes(p: Path): set<MapNode> {
    match p
    case Top => {}
    case Step(f, up) => PathNodes(up) + {f.n} + Nodes(f.sib)
  }

  lemma {:induction false} PlugNodes(p: Path, t: Tree)
    ensures Nodes(Plug(p, t)) == PathNodes(p) + Nodes(t)
  {
    if p.Step? { PlugNodes(p.up, Fill(p.f, t)); }
  }

  ghost function Down(n: MapNode, left: bool): MapNode?
    reads n
  {
    if left then n.left else n.right
  }

  /** The link into the hole of `p` leads to `n`. */
  ghost predicate Holds(p: Path, n: MapNode?)
    reads PathNodes(p)
  {
    p.Top? || (p.f.n in PathNodes(p) && Down(p.f.n, p.f.left) == n)
  }

  /** The heap spells out the path; only the link into its hole is left open. */
  ghost predicate PathShape(p: Path)
    reads PathNodes(p)
  {
    match p
    case Top => true
    case Step(f, up) =>
      && f.n !in PathNodes(up) && f.n !in Nodes(f.sib) && Nodes(f.sib) !! PathNodes(up)
      && f.n.red == f.red && Down(f.n, !f.left) == Root(f.sib) && Shape(f.sib)
      && Holds(up, f.n) && PathShape(up)
  }

  ghost function PathRoot(p: Path, below: MapNode?): MapNode? {
    match p
    case Top => below
    case Step(f, up) => PathRoot(up, f.n)
  }

  /** Heap correctness of a path and a subtree joined at the hole. */
  lemma {:induction false} PlugShape(p: Path, t: Tree)
    requires PathShape(p) && Holds(p, Root(t)) && Shape(t) && Nodes(t) !! PathNodes(p)
    ensures Shape(Plug(p, t)) && Root(Plug(p, t)) == PathRoot(p, Root(t))
  {
    if p.Step? { PlugShape(p.up, Fill(p.f, t)); }
  }

  /** A hole may hold a red subtree exactly below a black node, on its left. */
  ghost predicate RedAllowed(p: Path) {
    p.Step? && p.f.left && !p.f.red
  }

  /** The path is balanced around a hole of black height `h`. */
  ghost predicate PathBalanced(p: Path, h: nat) {
    match p
    case Top => true
    case Step(f, up) =>
      && FrameBalanced(f, h)
      && (f.red ==> RedAllowed(up))
      && PathBalanced(up, HeightAbove(f, h))
  }

  /** The frame is balanced around a hole of black height `h`. */
  ghost predicate FrameBalanced(f: Frame, h: nat) {
    Balanced(f.sib, h) && (f.red || f.left ==> !IsRed(f.sib))
  }

  ghost function HeightAbove(f: Frame, h: nat): nat {
    if f.red then h else h + 1
  }

  lemma {:induction false} PlugBalanced(p: Path, t: Tree, h: nat) returns (full: nat)
    requires PathBalanced(p, h) && Balanced(t, h) && (IsRed(t) ==> RedAllowed(p))
    ensures Balanced(Plug(p, t), full) && !IsRed(Plug(p, t))
  {
    if p.Top? {
      return h;
    } else {
      full := PlugBalanced(p.up, Fill(p.f, t), HeightAbove(p.f, h));
    }
  }

  /** Cutting a balanced, well-shaped tree along a path leaves a balanced,
      well-shaped path and subtree. */
  lemma {:induction false} Unplug(p: Path, t: Tree, full: nat) returns (h: nat)
    requires Shape(Plug(p, t)) && Balanced(Plug(p, t), full) && !IsRed(Plug(p, t))
    ensures PathShape(p) && Holds(p, Root(t)) && Shape(t) && Nodes(t) !! PathNodes(p)
    ensures PathBalanced(p, h) && Balanced(t, h) && (IsRed(t) ==> RedAllowed(p))
  {
    if p.Top? {
      return full;
    } else {
      var above := Unplug(p.up, Fill(p.f, t), full);
      return if p.f.red then above else above - 1;
    }
  }

  // ---------------------------------------------------------------- joining paths

  /** Continue path `base` with path `low`. */
  ghost function Graft(low: Path, base: Path): Path {
    match low
    case Top => base
    case Step(f, up) => Step(f, Graft(up, base))
  }

  lemma {:induction false} GraftPlug(low: Path, base: Path, t: Tree)
    ensures Plug(Graft(low, base), t) == Plug(base, Plug(low, t))
  {
    if low.Step? { GraftPlug(low.up, base, Fill(low.f, t)); }
  }

  lemma {:induction false} GraftListing(low: Path, base: Path)
    ensures Before(Graft(low, base)) == Before(base) + Before(low)
    ensures After(Graft(low, base)) == After(low) + After(base)
  {
    if low.Step? { GraftListing(low.up, base); }
  }

  lemma {:induction false} GraftDepth(low: Path, base: Path)
    ensures Depth(Graft(low, base)) == Depth(low) + Depth(base)
    ensures PathNodes(Graft(low, base)) == PathNodes(low) + PathNodes(base)
    ensures PathRoot(Graft(low, base), null) == if base.Top? then PathRoot(low, null) else PathRoot(base, null)
  {
    match low
    case Top =>
    case Step(f, up) =>
      GraftDepth(up, base);
      GraftRoot(up, base, f.n);
      RootBelow(base, f.n);
  }

  lemma {:induction false} RootBelow(p: Path, n: MapNode)
    ensures p.Step? ==> PathRoot(p, n) == PathRoot(p, null) && PathRoot(p, null) != null
  {
    if p.Step? && p.up.Step? { RootBelow(p.up, n); RootBelow(p.up, p.f.n); }
  }

  lemma {:induction false} GraftRoot(low: Path, base: Path, n: MapNode)
    ensures PathRoot(Graft(low, base), n) == PathRoot(base, PathRoot(low, n))
  {
    if low.Step? { GraftRoot(low.up, base, low.f.n); }
  }

  lemma {:induction false} GraftShape(low: Path, base: Path)
    ensures PathShape(Graft(low, base)) <==>
              && PathShape(low) && PathShape(base) && PathNodes(low) !! PathNodes(base)
              && (low.Step? ==> Holds(base, PathRoot(low, null)))
  {
    match low
    case Top =>
    case Step(f, up) =>
      GraftShape(up, base);
      GraftDepth(up, base);
      if up.Step? { RootBelow(up, f.n); }
  }

  /** Balance depends only on colours and off-path subtrees. */
  lemma {:induction false} GraftBalanced(low: Path, f: Frame, f': Frame, p: Path, h: nat)
    requires PathBalanced(Graft(low, Step(f, p)), h)
    requires f'.left == f.left && f'.red == f.red && f'.sib == f.sib
    ensures PathBalanced(Graft(low, Step(f', p)), h)
    ensures RedAllowed(Graft(low, Step(f', p))) == RedAllowed(Graft(low, Step(f, p)))
  {
    if low.Step? { GraftBalanced(low.up, f, f', p, HeightAbove(low.f, h)); }
  }

  /** A path that only turns left. */
  ghost predicate LeftSpine(p: Path) {
    p.Top? || (p.f.left && LeftSpine(p.up))
  }

  lemma {:induction false} LeftSpineBefore(p: Path)
    requires LeftSpine(p)
    ensures Before(p) == []
  {
    if p.Step? { LeftSpineBefore(p.up); }
  }
}
