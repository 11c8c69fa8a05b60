/** The ordered map: search with an explicit path array, insertion, removal through
    the in-order successor, lookup and iteration. */
module MapStore {
  import opened Powers
  import opened MapTree
  import opened MapInsert
  import opened MapRemove

  /** RB_MAX_DEPTH on a host with 8-byte pointers. */
  const MAX_DEPTH: nat := 128

  datatype PathEntry = PathEntry(node: MapNode?, cmp: Cmp)

  ghost function Entry(f: Frame): PathEntry {
    PathEntry(f.n, if f.left then Less else Greater)
  }

  /** The first entries of the path array, outermost first, spell out `p`. */
  ghost predicate Recorded(e: seq<PathEntry>, p: Path) {
    p.Top? || (Depth(p) <= |e| && e[Depth(p.up)] == Entry(p.f) && Recorded(e, p.up))
  }

  lemma {:induction false} RecordedUpdate(e: seq<PathEntry>, p: Path, i: nat, x: PathEntry)
    requires Recorded(e, p) && Depth(p) <= i < |e|
    ensures Recorded(e[i := x], p)
  {
    if p.Step? { RecordedUpdate(e, p.up, i, x); }
  }

  /** One more entry: the search goes on below `t`, to the left or to the right. */
  lemma RecordedExtend(e: seq<PathEntry>, p: Path, t: Tree, less: bool)
    requires Recorded(e, p) && Depth(p) < |e| && t.Fork?
    ensures Recorded(e[Depth(p) := PathEntry(t.n, if less then Less else Greater)], Extend(p, t, less))
  {
    RecordedUpdate(e, p, Depth(p), PathEntry(t.n, if less then Less else Greater));
  }

  lemma GraftHead(low: Path, base: Path)
    ensures low.Step? ==> Graft(low, base).Step? && Graft(low, base).f == low.f
    ensures low.Top? ==> Graft(low, base) == base
  {}

  lemma GraftTop(base: Path)
    ensures Graft(Top, base) == base
  {}

  lemma GraftExtend(low: Path, base: Path, t: Tree, less: bool)
    requires t.Fork?
    ensures Graft(Extend(low, t, less), base) == Extend(Graft(low, base), t, less)
  {}

  lemma LastRecorded(e: seq<PathEntry>, p: Path)
    requires Recorded(e, p) && p.Step?
    ensures Depth(p) <= |e| && e[Depth(p) - 1].node == p.f.n
  {}

  lemma {:induction false} RecordedRoot(e: seq<PathEntry>, p: Path, below: MapNode?)
    requires Recorded(e, p)
    ensures PathRoot(p, below) == if p.Top? then below else e[0].node
  {
    if p.Step? { RecordedRoot(e, p.up, p.f.n); }
  }

  lemma {:induction false} RecordedBase(e: seq<PathEntry>, low: Path, base: Path)
    requires Recorded(e, Graft(low, base))
    ensures Recorded(e, base)
  {
    if low.Step? { RecordedBase(e, low.up, base); }
  }

  lemma {:induction false} RecordedSwap(e: seq<PathEntry>, low: Path, f: Frame, f': Frame, p: Path)
    requires Recorded(e, Graft(low, Step(f, p))) && f'.left == f.left
    ensures Depth(p) < |e| && Recorded(e[Depth(p) := e[Depth(p)].(node := f'.n)], Graft(low, Step(f', p)))
  {
    match low
    case Top => RecordedUpdate(e, p, Depth(p), e[Depth(p)].(node := f'.n));
    case Step(_, up) =>
      RecordedSwap(e, up, f, f', p);
      GraftDepth(up, Step(f, p));
      GraftDepth(up, Step(f', p));
  }

  // ------------------------------------------------ searching

  /** `t` hangs below path `p` in `tree`, and `key` can only belong there. */
  ghost predicate Searching(tree: Tree, p: Path, t: Tree, key: int) {
    && Plug(p, t) == tree && Increasing(Inorder(tree))
    && KeysBelow(Before(p), key) && KeysAbove(After(p), key)
  }

  lemma Descend(tree: Tree, p: Path, t: Tree, key: int)
    requires Searching(tree, p, t, key) && t.Fork? && key != t.n.key
    ensures Searching(tree, Extend(p, t, key < t.n.key), if key < t.n.key then t.l else t.r, key)
  {
    SplitAt(p, t);
    if key < t.n.key {
      KeysAboveConcat(Inorder(t.r), After(p), t.n.key);
      KeysAboveConcat([t.n], Inorder(t.r), key);
      KeysAboveConcat([t.n] + Inorder(t.r), After(p), key);
    } else {
      KeysBelowConcat(Before(p), Inorder(t.l), t.n.key);
      KeysBelowConcat(Inorder(t.l), [t.n], key);
      KeysBelowConcat(Before(p), Inorder(t.l) + [t.n], key);
    }
  }

  lemma Found(tree: Tree, p: Path, t: Tree, key: int)
    requires Searching(tree, p, t, key) && t.Fork? && key == t.n.key
    ensures key in ToMap(Inorder(tree)) && ToMap(Inorder(tree))[key] == t.n.data
  {
    SplitAt(p, t);
    ToMapInsert(Before(p) + Inorder(t.l), t.n, Inorder(t.r) + After(p));
  }

  lemma Missing(tree: Tree, p: Path, key: int)
    requires Searching(tree, p, Leaf, key)
    ensures key !in ToMap(Inorder(tree))
  {
    PlugInorder(p, Leaf);
    ToMapConcat(Before(p), After(p));
    ToMapKeys(Before(p));
    ToMapKeys(After(p));
    assert Before(p) + [] + After(p) == Before(p) + After(p);
  }

  /** Comparing keys leads towards a node that is in the tree. */
  lemma KeyDirects(p: Path, t: Tree, n: MapNode)
    requires Increasing(Inorder(Plug(p, t))) && n in Nodes(t)
    ensures n.key < t.n.key ==> n in Nodes(t.l)
    ensures n.key > t.n.key ==> n in Nodes(t.r)
    ensures n.key == t.n.key ==> n == t.n
  {
    SplitAt(p, t);
    KeysBelowConcat(Before(p), Inorder(t.l), t.n.key);
    KeysAboveConcat(Inorder(t.r), After(p), t.n.key);
    InorderNodes(t.l);
    InorderNodes(t.r);
  }

  /** The last node of a left spine has no children. */
  lemma SpineEnd(low: Path, base: Path, h: nat)
    requires low.Step? && low.f.left && PathBalanced(Graft(low, base), h) && Balanced(Leaf, h)
    ensures h == 0 && low.f.sib == Leaf
  {}

  /** The path that is left once the successor has taken the place of `t.n`. */
  ghost function SwappedPath(p: Path, t: Tree, low: Path): Path
    requires low.Step? && t.Fork?
  {
    Graft(low.up, Step(Frame(low.f.n, false, t.red, t.l), p))
  }

  /** `s'` is `s` without one occurrence of `n`. */
  ghost predicate Omits(s: seq<MapNode>, n: MapNode, s': seq<MapNode>) {
    exists k :: 0 <= k < |s| && s[k] == n && s' == s[..k] + s[k + 1..]
  }

  lemma OmitsSplit(a: seq<MapNode>, n: MapNode, b: seq<MapNode>)
    ensures Omits(a + [n] + b, n, a + b)
  {
    var s := a + [n] + b;
    assert s[|a|] == n && s[..|a|] == a && s[|a| + 1..] == b;
  }

  lemma OneStep(f: Frame, up: Path)
    ensures Before(Step(f, up)) == Before(up) + if f.left then [] else Inorder(f.sib) + [f.n]
    ensures After(Step(f, up)) == (if f.left then [f.n] + Inorder(f.sib) else []) + After(up)
  {}

  lemma OneFork(t: Tree)
    ensures Inorder(t) == if t.Leaf? then [] else Inorder(t.l) + [t.n] + Inorder(t.r)
  {}

  lemma GroupAfter<T>(b: seq<T>, l: seq<T>, s: T, spine: seq<T>, a: seq<T>)
    ensures b + (l + [s]) + [] + [] + (spine + ([] + a)) == (b + l) + ([s] + (spine + a))
  {}

  lemma GroupBefore<T>(b: seq<T>, l: seq<T>, n: T, s: T, spine: seq<T>, a: seq<T>)
    ensures b + (l + [n] + ([] + [] + ([s] + [] + spine))) + a == (b + l) + [n] + ([s] + (spine + a))
  {}

  /** The listing with the successor in the node's place and its old place empty. */
  lemma ListingAfterSwap(p: Path, t: Tree, low: Path)
    requires low.Step? && LeftSpine(low) && t.Fork?
    ensures Inorder(Plug(SwappedPath(p, t, low), Leaf))
            == (Before(p) + Inorder(t.l)) + ([low.f.n] + (After(low.up) + After(p)))
  {
    hide Inorder, Plug, Graft, Before, After;
    var base := Step(Frame(low.f.n, false, t.red, t.l), p);
    PlugInorder(SwappedPath(p, t, low), Leaf);
    GraftListing(low.up, base);
    OneStep(base.f, p);
    OneFork(Leaf);
    LeftSpineBefore(low.up);
    GroupAfter(Before(p), Inorder(t.l), low.f.n, After(low.up), After(p));
  }

  lemma ListingBeforeSwap(p: Path, t: Tree, low: Path)
    requires low.Step? && low.f.sib == Leaf && LeftSpine(low) && t.Fork? && Plug(low, Leaf) == t.r
    ensures Inorder(Plug(p, t)) == (Before(p) + Inorder(t.l)) + [t.n] + ([low.f.n] + (After(low.up) + After(p)))
  {
    hide Inorder, Plug, Before, After;
    PlugInorder(p, t);
    PlugInorder(low, Leaf);
    OneStep(low.f, low.up);
    OneFork(Leaf);
    OneFork(t);
    LeftSpineBefore(low);
    GroupBefore(Before(p), Inorder(t.l), t.n, low.f.n, After(low.up), After(p));
  }

  lemma SwappedListing(p: Path, t: Tree, low: Path)
    requires low.Step? && low.f.sib == Leaf && LeftSpine(low) && t.Fork? && Plug(low, Leaf) == t.r
    ensures Omits(Inorder(Plug(p, t)), t.n, Inorder(Plug(SwappedPath(p, t, low), Leaf)))
  {
    hide Inorder, Plug, SwappedPath, Before, After, Omits;
    ListingAfterSwap(p, t, low);
    ListingBeforeSwap(p, t, low);
    OmitsSplit(Before(p) + Inorder(t.l), t.n, [low.f.n] + (After(low.up) + After(p)));
  }

  lemma OmitsMiddle(a: seq<MapNode>, b: seq<MapNode>, n: MapNode, c: seq<MapNode>)
    ensures Omits(a + (b + [n] + []) + c, n, a + b + c)
  {
    Reassociate(a, b, n, [], c);
    OmitsSplit(a + b, n, [] + c);
    assert (a + b) + ([] + c) == a + b + c;
  }

  /** A node without right child is replaced by its left subtree. */
  lemma SplicedListing(p: Path, t: Tree, left: Tree)
    requires t.Fork? && t.r == Leaf && Inorder(left) == Inorder(t.l)
    ensures Omits(Inorder(Plug(p, t)), t.n, Inorder(Plug(p, left)))
  {
    PlugInorder(p, t);
    PlugInorder(p, left);
    OmitsMiddle(Before(p), Inorder(left), t.n, After(p));
  }

  /** Balance of the path that remains, by the colour of the pruned successor. */
  lemma SwappedBalanced(p: Path, t: Tree, low: Path)
    requires low.Step? && t.Fork? && PathBalanced(Graft(low, Extend(p, t, false)), 0)
    ensures PathBalanced(SwappedPath(p, t, low), HeightAbove(low.f, 0))
    ensures low.f.red ==> RedAllowed(SwappedPath(p, t, low))
  {
    GraftBalanced(low.up, Extend(p, t, false).f, Frame(low.f.n, false, t.red, t.l), p, HeightAbove(low.f, 0));
  }

  /** Taking `n` out of a listing takes its key out of the map. */
  lemma OmitsMap(s: seq<MapNode>, n: MapNode, s': seq<MapNode>)
    requires Increasing(s) && Omits(s, n, s')
    ensures Increasing(s') && |s'| + 1 == |s|
    ensures ToMap(s') == ToMap(s) - {n.key} && n.key in ToMap(s)
  {
    var k :| 0 <= k < |s| && s[k] == n && s' == s[..k] + s[k + 1..];
    var a, b := s[..k], s[k + 1..];
    assert s == a + [n] + b;
    ToMapRemove(a, n, b);
  }

  lemma OmitsElements(s: seq<MapNode>, n: MapNode, s': seq<MapNode>)
    requires Increasing(s) && Omits(s, n, s')
    ensures (set x | x in s') == (set x | x in s) - {n}
  {}

  lemma RemovedListing(t: Tree, all: Tree, n: MapNode)
    requires Increasing(Inorder(t)) && Omits(Inorder(t), n, Inorder(all))
    ensures Increasing(Inorder(all)) && |Inorder(all)| + 1 == |Inorder(t)|
    ensures ToMap(Inorder(all)) == ToMap(Inorder(t)) - {n.key} && n.key in ToMap(Inorder(t))
    ensures Nodes(all) == Nodes(t) - {n}
  {
    OmitsMap(Inorder(t), n, Inorder(all));
    OmitsElements(Inorder(t), n, Inorder(all));
    InorderNodes(t);
    InorderNodes(all);
  }

  /** Where a node stands in a listing. */
  ghost function Place(s: seq<MapNode>, n: MapNode): (i: nat)
    requires n in s
    ensures i < |s| && s[i] == n
  {
    if s[0] == n then 0 else 1 + Place(s[1..], n)
  }

  ghost function Listed(s: seq<MapNode>, i: int): MapNode? {
    if 0 <= i < |s| then s[i] else null
  }

  /** A node occurs once in the listing: where it splits it. */
  lemma SplitIndex(t: Tree, a: seq<MapNode>, n: MapNode, b: seq<MapNode>)
    requires Increasing(Inorder(t)) && Inorder(t) == a + [n] + b
    ensures n in Inorder(t) && Place(Inorder(t), n) == |a|
    ensures Listed(Inorder(t), |a| + 1) == if b == [] then null else b[0]
    ensures Listed(Inorder(t), |a| - 1) == if a == [] then null else a[|a| - 1]
  {
    var s := a + [n] + b;
    assert s[|a|] == n;
    PlaceIs(s, |a|);
  }

  lemma ListedEnds(s: seq<MapNode>)
    ensures Listed(s, 0) == if s == [] then null else s[0]
    ensures Listed(s, |s| - 1) == if s == [] then null else s[|s| - 1]
  {}

  lemma PlaceIs(s: seq<MapNode>, i: nat)
    requires Increasing(s) && i < |s|
    ensures Place(s, s[i]) == i
  {}

  lemma SpineApart(t: Tree, low: Path)
    requires t.Fork? && Shape(t) && low.Step? && Plug(low, Leaf) == t.r
    ensures low.f.n != t.n
  {
    PlugNodes(low, Leaf);
  }

  /** The last entry of the path: the end of the spine, or the node itself. */
  lemma LastNode(e: seq<PathEntry>, base: Path, low: Path, k: nat)
    requires base.Step? && k == Depth(base) + Depth(low) <= |e| && Recorded(e, Graft(low, base))
    ensures 0 < k && e[k - 1].node == if low.Step? then low.f.n else base.f.n
  {
    hide Recorded, Graft;
    GraftDepth(low, base);
    GraftHead(low, base);
    LastRecorded(e, Graft(low, base));
  }

  /** The last entry of the path is the node itself exactly when it has no successor below. */
  lemma LastEntry(e: seq<PathEntry>, p: Path, t: Tree, low: Path, k: nat)
    requires t.Fork? && Shape(t) && Plug(low, Leaf) == t.r
    requires k == Depth(p) + 1 + Depth(low) <= |e| && Recorded(e, Graft(low, Extend(p, t, false)))
    ensures e[k - 1].node == t.n <==> low.Top?
  {
    LastNode(e, Extend(p, t, false), low, k);
    hide Recorded, Graft, Plug, Shape;
    if low.Step? {
      SpineApart(t, low);
    }
  }

  // ------------------------------------------------ inserting

  lemma InsertedListing(tree: Tree, p: Path, n: MapNode)
    requires Searching(tree, p, Leaf, n.key)
    ensures var listing := Inorder(Plug(p, Fork(n, true, Leaf, Leaf)));
            && Increasing(listing) && |listing| == |Inorder(tree)| + 1
            && ToMap(listing) == ToMap(Inorder(tree))[n.key := n.data]
  {
    PlugInorder(p, Leaf);
    PlugInorder(p, Fork(n, true, Leaf, Leaf));
    assert Inorder(Fork(n, true, Leaf, Leaf)) == [n];
    assert Before(p) + [] + After(p) == Before(p) + After(p);
    IncreasingInsert(Before(p), n, After(p));
    ToMapInsert(Before(p), n, After(p));
  }

  /** Half way up: below path `p` hangs a subtree that insertion has grown. */
  ghost predicate Growing(p: Path, t: Tree, h: nat, wasRed: bool)
    reads PathNodes(p) + Nodes(t)
  {
    && PathShape(p) && Shape(t) && Nodes(t) !! PathNodes(p)
    && PathBalanced(p, h) && Grown(t, h, wasRed) && (wasRed ==> RedAllowed(p))
  }

  method GrowStep(c: MapNode, child: MapNode, less: bool,
                  ghost p: Path, ghost t: Tree, ghost h: nat, ghost wasRed: bool)
    returns (r: MapNode, stop: bool, ghost up: Tree)
    requires p.Step? && p.f.n == c && p.f.left == less && Root(t) == child && Growing(p, t, h, wasRed)
    modifies Span(p.f, t)
    ensures Root(up) == r && Growing(p.up, up, HeightAbove(p.f, h), p.f.red)
    ensures Inorder(up) == Inorder(Fill(p.f, t)) && Nodes(up) == Span(p.f, t)
    ensures stop ==> up == Fill(p.f, t) && Holds(p.up, c) && Balanced(up, HeightAbove(p.f, h))
  {
    assert allocated(PathNodes(p.up));
    if less {
      GrownLessBalanced(p.f, t, h, wasRed);
      up := GrownLess(p.f, t);
      r, stop := GrowLess(c, child, p.f, t);
    } else {
      GrownGreaterBalanced(p.f, t, h);
      up := GrownGreater(p.f, t);
      r, stop := GrowGreater(c, child, p.f, t);
    }
  }

  /** One round of the repair loop. */
  method ClimbStep(path: array<PathEntry>, i: nat, ghost p: Path, ghost t: Tree, ghost h: nat, ghost wasRed: bool)
    returns (stop: bool, ghost up: Tree)
    requires p.Step? && Depth(p) == i + 1 < path.Length
    requires Recorded(path[..], p) && path[i + 1].node == Root(t)
    requires Growing(p, t, h, wasRed)
    modifies path, Span(p.f, t)
    ensures Recorded(path[..], p.up) && path[i].node == Root(up)
    ensures Growing(p.up, up, HeightAbove(p.f, h), p.f.red)
    ensures Inorder(Plug(p.up, up)) == Inorder(Plug(p, t)) && PathNodes(p.up) + Nodes(up) == PathNodes(p) + Nodes(t)
    ensures stop ==> up == Fill(p.f, t) && Holds(p.up, p.f.n) && Balanced(up, HeightAbove(p.f, h))
  {
    var r;
    r, stop, up := GrowStep(path[i].node, path[i + 1].node, path[i].cmp == Less, p, t, h, wasRed);
    PlugSame(p.up, up, Fill(p.f, t));
    if !stop {
      RecordedUpdate(path[..], p.up, i, path[i].(node := r));
      path[i] := path[i].(node := r);
    }
  }

  lemma ClimbDone(p: Path, t: Tree, h: nat, wasRed: bool) returns (full: nat)
    requires Growing(p, t, h, wasRed) && Balanced(t, h) && Holds(p, Root(t)) && (IsRed(t) ==> wasRed)
    ensures var all := Plug(p, t);
            && Shape(all) && Root(all) == PathRoot(p, Root(t)) && all.Fork? && Balanced(all, full)
  {
    PlugShape(p, t);
    full := PlugBalanced(p, t, h);
    PlugInorder(p, t);
  }

  /** The repair loop: rebuild the path bottom-up around the grown subtree `t`. */
  method Climb(path: array<PathEntry>, k: nat, ghost p: Path, ghost t: Tree, ghost h: nat)
    returns (ghost all: Tree, ghost full: nat)
    requires Depth(p) == k < path.Length && Recorded(path[..], p) && path[k].node == Root(t)
    requires Growing(p, t, h, false)
    modifies path, PathNodes(p), Nodes(t)
    ensures all.Fork? && Shape(all) && path[0].node == Root(all)
    ensures Inorder(all) == Inorder(Plug(p, t)) && Nodes(all) == PathNodes(p) + Nodes(t)
    ensures Balanced(all, full)
  {
    ghost var q, s, g, wasRed := p, t, h, false;
    PlugNodes(p, t);
    var i := k;
    while i > 0
      invariant Depth(q) == i <= k && Recorded(path[..], q) && path[i].node == Root(s)
      invariant Growing(q, s, g, wasRed)
      invariant Inorder(Plug(q, s)) == Inorder(Plug(p, t))
      invariant PathNodes(q) + Nodes(s) == PathNodes(p) + Nodes(t)
    {
      i := i - 1;
      var stop, up := ClimbStep(path, i, q, s, g, wasRed);
      q, s, g, wasRed := q.up, up, HeightAbove(q.f, g), q.f.red;
      if stop {
        full := ClimbDone(q, s, g, wasRed);
        RecordedRoot(path[..], q, Root(s));
        PlugNodes(q, s);
        return Plug(q, s), full;
      }
    }
    return s, g;
  }

  method BlackenRoot(root: MapNode, ghost t: Tree)
    requires Shape(t) && Root(t) == root
    modifies root
    ensures Shape(Blacken(t))
  {
    assert Shape(t.l) && Shape(t.r);
    root.red := false;
  }

  lemma BlackenBalanced(t: Tree, h: nat)
    requires t.Fork? && Balanced(t, h)
    ensures Balanced(Blacken(t), BlackHeight(Blacken(t))) && Inorder(Blacken(t)) == Inorder(t)
            && Nodes(Blacken(t)) == Nodes(t)
  {
    BalancedHeight(t, h);
  }

  /** `node` and its successor are apart from what surrounds them: the path above,
      the left subtree and the spine in between. */
  ghost predicate Apart(node: MapNode, succ: MapNode, p: Path, left: Tree, spine: Path) {
    && node != succ && {node, succ} !! PathNodes(p) && {node, succ} !! Nodes(left) && {node, succ} !! PathNodes(spine)
    && PathNodes(p) !! Nodes(left) && PathNodes(p) !! PathNodes(spine) && Nodes(left) !! PathNodes(spine)
  }

  ghost predicate Surroundings(p: Path, left: Tree, spine: Path)
    reads PathNodes(p) + Nodes(left) + PathNodes(spine)
  {
    PathShape(p) && Shape(left) && PathShape(spine)
  }

  /** `n` has colour `red`, left subtree `left`, and leads right into the spine. */
  ghost predicate Heads(n: MapNode, red: bool, left: Tree, spine: Path)
    reads n
  {
    n.red == red && n.left == Root(left) && (spine.Step? ==> n.right == PathRoot(spine, null))
  }

  lemma SuccessorParts(p: Path, t: Tree, low: Path)
    requires low.Step? && t.Fork? && PathShape(Graft(low, Extend(p, t, false)))
    ensures Apart(t.n, low.f.n, p, t.l, low.up) && Surroundings(p, t.l, low.up)
    ensures Heads(t.n, t.red, t.l, low.up) && low.f.n.red == low.f.red
  {
    GraftShape(low, Extend(p, t, false));
    if low.up.Step? { RootBelow(low.up, low.f.n); }
  }

  lemma SwappedShape(p: Path, n: MapNode, red: bool, left: Tree, spine: Path)
    requires Surroundings(p, left, spine) && Holds(p, n) && Heads(n, red, left, spine)
    requires {n} !! PathNodes(p) && {n} !! Nodes(left) && {n} !! PathNodes(spine)
    requires PathNodes(p) !! Nodes(left) && PathNodes(p) !! PathNodes(spine) && Nodes(left) !! PathNodes(spine)
    ensures PathShape(Graft(spine, Step(Frame(n, false, red, left), p)))
  {
    GraftShape(spine, Step(Frame(n, false, red, left), p));
  }

  /** Give the successor the colour and children of `node`, and `node` its colour. */
  method SwapNodes(node: MapNode, succ: MapNode, ghost p: Path, ghost left: Tree, ghost spine: Path)
    requires Apart(node, succ, p, left, spine) && Surroundings(p, left, spine) && Heads(node, node.red, left, spine)
    modifies node, succ
    ensures Surroundings(p, left, spine) && Heads(succ, old(node.red), left, spine) && node.red == old(succ.red)
  {
    var colour := succ.red;
    succ.red, succ.left, succ.right, node.red := node.red, node.left, node.right, colour;
  }

  /** The same, and point the link above `node`, if any, to its successor. */
  method SwapAndRelink(node: MapNode, succ: MapNode, parent: MapNode?, less: bool,
                       ghost p: Path, ghost left: Tree, ghost spine: Path)
    requires Apart(node, succ, p, left, spine) && Surroundings(p, left, spine) && Heads(node, node.red, left, spine)
    requires if p.Top? then parent == null else p.f.n == parent && p.f.left == less
    modifies node, succ, PathNodes(p)
    ensures PathShape(Graft(spine, Step(Frame(succ, false, old(node.red), left), p))) && node.red == old(succ.red)
  {
    ghost var red := node.red;
    SwapNodes(node, succ, p, left, spine);
    assert allocated(PathNodes(spine)) && allocated(Nodes(left));
    if parent != null {
      Relink(parent, less, succ, p);
    }
    SwappedShape(p, succ, red, left, spine);
  }

  class RbMap {
    var root: MapNode?
    var size: nat
    ghost var tree: Tree
    ghost var Repr: set<MapNode>

    ghost predicate Valid()
      reads this, Repr
    {
      && Repr == Nodes(tree) && Shape(tree) && root == Root(tree)
      && Balanced(tree, BlackHeight(tree)) && !IsRed(tree)
      && Increasing(Inorder(tree)) && size == |Inorder(tree)|
    }

    ghost function Contents(): map<int, Value>
      reads this
    {
      ToMap(Inorder(tree))
    }

    constructor ()
      ensures Valid() && Contents() == map[] && size == 0 && Repr == {}
    {
      root, size, tree, Repr := null, 0, Leaf, {};
    }

    /** Below 2^62 nodes no root-to-leaf path fills the path array. */
    lemma DepthBound()
      requires Valid() && size < 0x4000_0000_0000_0000
      ensures Height(tree) <= MAX_DEPTH - 4
    {
      var h := BlackHeight(tree);
      BalancedBounds(tree, h);
      if h > 62 {
        Pow2Mono(63, h);
        Pow2Of63();
      }
    }

    /** rb_insert_unique: walk down, recording the path, until the key or a free link
        is found or the path array is full. */
    method InsertUnique(path: array<PathEntry>, key: int)
      returns (existing: MapNode?, tooDeep: bool, k: nat, ghost p: Path)
      requires Valid() && path.Length == MAX_DEPTH
      modifies path
      ensures Valid()
      ensures existing != null ==> key in Contents()
      ensures tooDeep ==> existing == null && Height(tree) >= MAX_DEPTH - 1
      ensures existing == null && !tooDeep ==>
                && k == Depth(p) < MAX_DEPTH - 1 && Recorded(path[..], p)
                && Searching(tree, p, Leaf, key) && key !in Contents()
    {
      var node := root;
      ghost var t := tree;
      k, p, existing, tooDeep := 0, Top, null, false;
      while node != null && k < MAX_DEPTH - 1
        invariant k == Depth(p) <= MAX_DEPTH - 1
        invariant node == Root(t) && Shape(t)
        invariant Recorded(path[..], p)
        invariant Searching(tree, p, t, key)
        decreases t
      {
        var cmp := Compare(key, node.key);
        if cmp == Equal {
          Found(tree, p, t, key);
          existing := node;
          return;
        }
        Descend(tree, p, t, key);
        p := Extend(p, t, cmp == Less);
        t := if cmp == Less then t.l else t.r;
        var next := if cmp == Less then node.left else node.right;
        assert Shape(t) && next == Root(t);
        RecordedUpdate(path[..], p.up, k, PathEntry(node, cmp));
        path[k] := PathEntry(node, cmp);
        node, k := next, k + 1;
      }
      if k >= MAX_DEPTH - 1 {
        PathHeight(p, t);
        tooDeep := true;
      } else {
        Missing(tree, p, key);
      }
    }

    /** Key and value are copied into a fresh node; `memory` says whether the
        allocation succeeds. */
    method Insert(key: int, data: Value, memory: bool) returns (inserted: bool)
      requires Valid()
      modifies this, Repr
      ensures Valid() && fresh(Repr - old(Repr))
      ensures old(size) < 0x4000_0000_0000_0000 ==> inserted == (memory && key !in old(Contents()))
      ensures inserted ==> key !in old(Contents())
      ensures Contents() == if inserted then old(Contents())[key := data] else old(Contents())
      ensures size == old(size) + if inserted then 1 else 0
    {
      var path := new PathEntry[MAX_DEPTH](_ => PathEntry(null, Equal));
      var existing, tooDeep, k, p := InsertUnique(path, key);
      if size < 0x4000_0000_0000_0000 { DepthBound(); }
      if tooDeep || existing != null || !memory {
        return false;
      }
      var node := new MapNode(key, data);
      RecordedUpdate(path[..], p, k, PathEntry(node, Equal));
      path[k] := PathEntry(node, Equal);
      LinkNode(path, k, p, node);
      return true;
    }

    method Install(r: MapNode?, ghost t: Tree, n: nat)
      requires Shape(t) && r == Root(t) && Balanced(t, BlackHeight(t)) && !IsRed(t)
      requires Increasing(Inorder(t)) && n == |Inorder(t)|
      modifies this
      ensures Valid() && tree == t && size == n
    {
      assert allocated(Nodes(t));
      root, tree, size, Repr := r, t, n, Nodes(t);
    }

    method LinkNode(path: array<PathEntry>, k: nat, ghost p: Path, node: MapNode)
      requires Valid() && k == Depth(p) < path.Length && Recorded(path[..], p) && Searching(tree, p, Leaf, node.key)
      requires path[k].node == node && node !in Nodes(tree) && node.left == null && node.right == null && node.red
      modifies this, path, node, Repr
      ensures Valid() && Repr == old(Repr) + {node}
      ensures Contents() == old(Contents())[node.key := node.data] && size == old(size) + 1
    {
      hide Recorded, Increasing, ToMap, PathBalanced;
      ghost var h := Unplug(p, Leaf, BlackHeight(tree));
      PlugNodes(p, Leaf);
      InsertedListing(tree, p, node);
      ghost var all, full := Climb(path, k, p, Fork(node, true, Leaf, Leaf), h);
      BlackenBalanced(all, full);
      BlackenRoot(path[0].node, all);
      Install(path[0].node, Blacken(all), size + 1);
    }

    // ---------------------------------------------- removing

    /** Hang subtree `t`, whose root is now `r`, below the first `i` path entries. */
    method Reattach(path: array<PathEntry>, i: nat, r: MapNode?, ghost p: Path, ghost t: Tree, ghost h: nat)
      returns (ghost all: Tree, ghost full: nat)
      requires Depth(p) == i <= path.Length && Recorded(path[..], p) && r == Root(t)
      requires Attachable(p, t, h) && (i > 0 ==> root == path[0].node)
      modifies PathNodes(p), this`root
      ensures Shape(all) && root == Root(all) && all == Plug(p, t)
      ensures Balanced(all, full) && !IsRed(all)
    {
      assert allocated(Nodes(t));
      if i == 0 {
        root := r;
      } else {
        Relink(path[i - 1].node, path[i - 1].cmp == Less, r, p);
      }
      full := PlugBalanced(p, t, h);
      PlugShape(p, t);
      RecordedRoot(path[..], p, r);
      all := Plug(p, t);
    }

    /** One round of the unwinding loop of rb_remove. */
    static method UnwindStep(path: array<PathEntry>, i: nat, ghost p: Path, ghost t: Tree, ghost h: nat)
      returns (r: MapNode, done: bool, ghost up: Tree)
      requires p.Step? && Depth(p) == i + 1 < path.Length && Recorded(path[..], p) && path[i + 1].node == Root(t)
      requires Shrinking(p, t, h)
      modifies path, Span(p.f, t)
      ensures Root(up) == r && Inorder(Plug(p.up, up)) == Inorder(Plug(p, t))
      ensures PathNodes(p.up) + Nodes(up) == PathNodes(p) + Nodes(t)
      ensures if done then Attachable(p.up, up, HeightAbove(p.f, h + 1)) else Shrinking(p.up, up, h + 1)
      ensures Recorded(path[..], p.up) && (!done ==> path[i].node == r) && (i > 0 ==> path[0] == old(path[0]))
    {
      r, done, up := ShrinkStep(path[i].node, path[i + 1].node, path[i].cmp == Less, p, t, h);
      PlugSame(p.up, up, Fill(p.f, t));
      if !done {
        RecordedUpdate(path[..], p.up, i, path[i].(node := r));
        path[i] := path[i].(node := r);
      }
    }

    /** The unwinding loop of rb_remove, from the path entry above the pruned node:
        stops at the path index `i` below which the repaired subtree belongs. */
    static method Unwind(path: array<PathEntry>, k: nat, ghost p: Path, ghost t: Tree, ghost h: nat)
      returns (i: nat, r: MapNode?, ghost q: Path, ghost s: Tree, ghost g: nat)
      requires Depth(p) == k < path.Length && Recorded(path[..], p) && path[k].node == Root(t)
      requires Shrinking(p, t, h)
      modifies path, PathNodes(p), Nodes(t)
      ensures Depth(q) == i <= k && Recorded(path[..], q) && r == Root(s)
      ensures Attachable(q, s, g) && (i > 0 ==> path[0] == old(path[0]))
      ensures Inorder(Plug(q, s)) == Inorder(Plug(p, t)) && PathNodes(q) + Nodes(s) == PathNodes(p) + Nodes(t)
    {
      q, s, g, i := p, t, h, k;
      while i > 0
        invariant Depth(q) == i <= k && Recorded(path[..], q) && path[i].node == Root(s)
        invariant Shrinking(q, s, g) && (i > 0 ==> path[0] == old(path[0]))
        invariant Inorder(Plug(q, s)) == Inorder(Plug(p, t))
        invariant PathNodes(q) + Nodes(s) == PathNodes(p) + Nodes(t)
      {
        i := i - 1;
        var done;
        ghost var up;
        r, done, up := UnwindStep(path, i, q, s, g);
        if done {
          q, s, g := q.up, up, HeightAbove(q.f, g + 1);
          return;
        }
        q, s, g := q.up, up, g + 1;
      }
      r := path[0].node;
    }

    /** First half of the search in rb_remove: down to `node` itself. */
    method FindPath(path: array<PathEntry>, node: MapNode) returns (m: nat, ghost p: Path, ghost t: Tree)
      requires Valid() && size < 0x4000_0000_0000_0000 && node in Nodes(tree) && path.Length == MAX_DEPTH
      modifies path
      ensures Valid() && m == Depth(p) && Recorded(path[..], p) && Plug(p, t) == tree
      ensures t.Fork? && t.n == node && Shape(t) && m + Height(t) < path.Length
    {
      DepthBound();
      hide Recorded, Increasing, Balanced, ToMap;
      var cur := root;
      m, p, t := 0, Top, tree;
      var cmp := Compare(node.key, cur.key);
      while cmp != Equal
        invariant m == Depth(p) && Depth(p) + Height(t) <= Height(tree)
        invariant node in Nodes(t) && cur == Root(t) && Shape(t) && cmp == Compare(node.key, cur.key)
        invariant Recorded(path[..], p) && Plug(p, t) == tree
        decreases t
      {
        KeyDirects(p, t, node);
        var next := if cmp == Less then cur.left else cur.right;
        RecordedExtend(path[..], p, t, cmp == Less);
        path[m] := PathEntry(cur, cmp);
        p, t := Extend(p, t, cmp == Less), if cmp == Less then t.l else t.r;
        PathHeight(p, t);
        m, cur := m + 1, next;
        cmp := Compare(node.key, cur.key);
      }
      KeyDirects(p, t, node);
    }

    /** Second half: on to the end of the left spine of the right subtree. */
    static method FindSuccessor(path: array<PathEntry>, m: nat, node: MapNode, ghost p: Path, ghost t: Tree)
      returns (k: nat, ghost low: Path)
      requires m == Depth(p) && m + Height(t) < path.Length && Recorded(path[..], p) && t.Fork? && t.n == node
               && Shape(t)
      modifies path
      ensures LeftSpine(low) && Plug(low, Leaf) == t.r
      ensures k == m + 1 + Depth(low) < path.Length && Recorded(path[..], Graft(low, Extend(p, t, false)))
    {
      hide Recorded, Nodes, Graft;
      ghost var base, s := Extend(p, t, false), t.r;
      assert allocated(Nodes(s));
      RecordedExtend(path[..], p, t, false);
      path[m] := PathEntry(node, Greater);
      k, low := m + 1, Top;
      GraftTop(base);
      var cur := node.right;
      while cur != null
        invariant LeftSpine(low) && Plug(low, s) == t.r && cur == Root(s) && Shape(s)
        invariant k == m + 1 + Depth(low) && k + Height(s) < path.Length
        invariant Recorded(path[..], Graft(low, base))
        decreases s
      {
        GraftDepth(low, base);
        RecordedExtend(path[..], Graft(low, base), s, true);
        GraftExtend(low, base, s, true);
        path[k] := PathEntry(cur, Less);
        cur := cur.left;
        low, s, k := Extend(low, s, true), s.l, k + 1;
      }
    }

    /** Put the successor, at path index `e`, in the place of `node`, at index `m`. */
    method SwapSuccessor(path: array<PathEntry>, m: nat, e: nat, node: MapNode,
                         ghost p: Path, ghost t: Tree, ghost low: Path)
      returns (ghost q: Path)
      requires low.Step? && low.f.left && m == Depth(p) < e == m + 1 + Depth(low.up) < path.Length && t.Fork?
               && t.n == node
      requires Recorded(path[..], Graft(low, Extend(p, t, false))) && (m > 0 ==> root == path[0].node)
      requires PathShape(Graft(low, Extend(p, t, false)))
      modifies path, this`root, PathNodes(p), node, low.f.n
      ensures q == SwappedPath(p, t, low)
      ensures PathShape(q) && Recorded(path[..], q) && path[e].node == node && node.red == low.f.red
              && root == path[0].node
    {
      q := SwappedPath(p, t, low);
      SuccessorParts(p, t, low);
      assert allocated(PathNodes(p)) && allocated(Nodes(t.l)) && allocated(PathNodes(low.up));
      var succ := SwapEntries(path, m, e, node, p, t, low);
      if m == 0 {
        root := succ;
        SwapAndRelink(node, succ, null, false, p, t.l, low.up);
      } else {
        SwapAndRelink(node, succ, path[m - 1].node, path[m - 1].cmp == Less, p, t.l, low.up);
      }
    }

    static method SwapEntries(path: array<PathEntry>, m: nat, e: nat, node: MapNode,
                              ghost p: Path, ghost t: Tree, ghost low: Path)
      returns (succ: MapNode)
      requires low.Step? && low.f.left && m == Depth(p) < e == m + 1 + Depth(low.up) < path.Length && t.Fork?
               && t.n == node
      requires Recorded(path[..], Graft(low, Extend(p, t, false)))
      modifies path
      ensures succ == low.f.n && path[e].node == node && path[m].node == succ && (m > 0 ==> path[0] == old(path[0]))
      ensures Recorded(path[..], Graft(low.up, Step(Frame(succ, false, t.red, t.l), p))) && Recorded(path[..], p)
    {
      ghost var base, base' := Extend(p, t, false), Step(Frame(low.f.n, false, t.red, t.l), p);
      GraftDepth(low.up, base);
      GraftDepth(low.up, base');
      RecordedSwap(path[..], low.up, base.f, base'.f, p);
      ghost var swapped := path[..][m := path[m].(node := low.f.n)];
      RecordedUpdate(swapped, Graft(low.up, base'), e, path[e].(node := node));
      succ := path[e].node;
      path[m], path[e] := path[m].(node := succ), path[e].(node := node);
      assert path[..] == swapped[e := path[e]];
      RecordedBase(path[..], low.up, base');
    }

    /** Prune the leaf recorded at path index `e` and restore balance above it. */
    method Prune(path: array<PathEntry>, e: nat, node: MapNode, ghost q: Path)
      returns (ghost all: Tree, ghost full: nat)
      requires 0 < e == Depth(q) < path.Length && Recorded(path[..], q) && root == path[0].node
      requires PathShape(q) && node !in PathNodes(q)
      requires PathBalanced(q, if node.red then 0 else 1) && (node.red ==> RedAllowed(q))
      modifies path, PathNodes(q), this`root
      ensures Shape(all) && root == Root(all) && Inorder(all) == Inorder(Plug(q, Leaf))
      ensures Balanced(all, full) && !IsRed(all)
    {
      if node.red {
        assert path[e - 1].cmp == Less;
        all, full := Reattach(path, e, null, q, Leaf, 0);
      } else {
        RecordedUpdate(path[..], q, e, path[e].(node := null));
        path[e] := path[e].(node := null);
        var i, r, rest, t, h := Unwind(path, e, q, Leaf, 0);
        all, full := Reattach(path, i, r, rest, t, h);
      }
    }

    /** The path, once recorded, starts at the root. */
    lemma RootRecorded(e: seq<PathEntry>, p: Path, t: Tree)
      requires Valid() && Plug(p, t) == tree && Recorded(e, p)
      ensures p.Step? ==> root == e[0].node
    {}

    /** `node` has no successor below it: splice it out, or prune it. */
    method RemoveHere(path: array<PathEntry>, m: nat, node: MapNode, ghost p: Path, ghost t: Tree)
      returns (ghost all: Tree, ghost full: nat)
      requires Valid() && m == Depth(p) < path.Length && Recorded(path[..], p) && Plug(p, t) == tree
      requires t.Fork? && t.n == node && t.r == Leaf
      modifies path, this`root, Nodes(tree)
      ensures Shape(all) && root == Root(all) && Balanced(all, full) && !IsRed(all)
      ensures Omits(Inorder(tree), node, Inorder(all))
    {
      hide Omits, ToMap, Recorded, Increasing, RbMap.Contents;
      RootRecorded(path[..], p, t);
      ghost var h := Unplug(p, t, BlackHeight(tree));
      PlugNodes(p, t);
      var left := node.left;
      if left != null {
        assert IsRed(t.l) && !t.red && h == 1;
        SplicedListing(p, t, Blacken(t.l));
        assert allocated(PathNodes(p));
        BlackenRoot(left, t.l);
        all, full := Reattach(path, m, left, p, Blacken(t.l), 1);
        return;
      }
      SplicedListing(p, t, Leaf);
      if m == 0 {
        root := null;
        return Leaf, 0;
      }
      all, full := Prune(path, m, node, p);
    }

    /** `node` changes places with its successor, which is then pruned. */
    method RemoveSwapped(path: array<PathEntry>, m: nat, e: nat, node: MapNode,
                         ghost p: Path, ghost t: Tree, ghost low: Path)
      returns (ghost all: Tree, ghost full: nat)
      requires Valid() && t.Fork? && t.n == node && Plug(p, t) == tree
      requires low.Step? && LeftSpine(low) && Plug(low, Leaf) == t.r
               && m == Depth(p) < e == m + 1 + Depth(low.up) < path.Length
      requires Recorded(path[..], Graft(low, Extend(p, t, false)))
      modifies path, this`root, Nodes(tree)
      ensures Shape(all) && root == Root(all) && Balanced(all, full) && !IsRed(all)
      ensures Omits(Inorder(tree), node, Inorder(all))
    {
      hide Balanced, ToMap, Recorded, Graft, Omits, PathBalanced, SwappedPath, RbMap.Contents, Inorder, PathShape;
      hide Shape;
      SuccessorFacts(p, t, low);
      RootRecorded(path[..], Graft(low, Extend(p, t, false)), Leaf);
      ghost var q := SwapSuccessor(path, m, e, node, p, t, low);
      all, full := Prune(path, e, node, q);
    }

    lemma SuccessorFacts(p: Path, t: Tree, low: Path)
      requires Valid() && t.Fork? && Plug(p, t) == tree && low.Step? && LeftSpine(low) && Plug(low, Leaf) == t.r
      ensures Plug(Graft(low, Extend(p, t, false)), Leaf) == tree && PathShape(Graft(low, Extend(p, t, false)))
      ensures low.f.n != t.n && {t.n, low.f.n} <= Nodes(tree) && PathNodes(p) <= Nodes(tree)
      ensures var q := SwappedPath(p, t, low);
              && t.n !in PathNodes(q) && PathNodes(q) <= Nodes(tree) && Depth(q) == Depth(p) + 1 + Depth(low.up)
              && PathBalanced(q, if low.f.red then 0 else 1) && (low.f.red ==> RedAllowed(q))
              && Omits(Inorder(tree), t.n, Inorder(Plug(q, Leaf)))
    {
      var base := Extend(p, t, false);
      GraftPlug(low, base, Leaf);
      var h := Unplug(Graft(low, base), Leaf, BlackHeight(tree));
      SpineEnd(low, base, h);
      PlugNodes(Graft(low, base), Leaf);
      GraftDepth(low, base);
      SwappedListing(p, t, low);
      SwappedBalanced(p, t, low);
      SuccessorParts(p, t, low);
      GraftDepth(low.up, Step(Frame(low.f.n, false, t.red, t.l), p));
    }

    /** rb_remove: prune `node` or, once they have changed places, its successor. */
    method Remove(node: MapNode) returns (ghost all: Tree, ghost full: nat)
      requires Valid() && size < 0x4000_0000_0000_0000 && node in Nodes(tree)
      modifies this`root, Nodes(tree)
      ensures Shape(all) && root == Root(all) && Balanced(all, full) && !IsRed(all)
      ensures Omits(Inorder(tree), node, Inorder(all))
    {
      var path := new PathEntry[MAX_DEPTH](_ => PathEntry(null, Equal));
      var m, p, t := FindPath(path, node);
      all, full := RemoveFound(path, m, node, p, t);
    }

    method RemoveFound(path: array<PathEntry>, m: nat, node: MapNode, ghost p: Path, ghost t: Tree)
      returns (ghost all: Tree, ghost full: nat)
      requires Valid() && m == Depth(p) && m + Height(t) < path.Length && Recorded(path[..], p) && Plug(p, t) == tree
      requires t.Fork? && t.n == node && Shape(t)
      modifies path, this`root, Nodes(tree)
      ensures Shape(all) && root == Root(all) && Balanced(all, full) && !IsRed(all)
      ensures Omits(Inorder(tree), node, Inorder(all))
    {
      assert allocated(Nodes(t));
      var k, low := FindSuccessor(path, m, node, p, t);
      LastEntry(path[..], p, t, low, k);
      hide Balanced, ToMap, Recorded, Graft, Omits, Inorder, RbMap.Contents;
      if path[k - 1].node != node {
        all, full := RemoveSwapped(path, m, k - 1, node, p, t, low);
      } else {
        RecordedBase(path[..], low, Extend(p, t, false));
        all, full := RemoveHere(path, m, node, p, t);
      }
    }

    /** map_erase of an iterator that is at its end or on a node of this map. */
    method Erase(node: MapNode?)
      requires Valid() && size < 0x4000_0000_0000_0000 && (node != null ==> node in Repr)
      modifies this, Repr
      ensures Valid()
      ensures node == null ==> Contents() == old(Contents()) && Repr == old(Repr) && size == old(size)
      ensures node != null ==>
                && Contents() == old(Contents()) - {node.key} && Repr == old(Repr) - {node}
                && size == old(size) - 1
    {
      if node == null {
        return;
      }
      ghost var all, full := Remove(node);
      RemovedListing(tree, all, node);
      BalancedHeight(all, full);
      Install(root, all, size - 1);
    }

    // ---------------------------------------------- lookup and iteration

    method Find(key: int) returns (node: MapNode?)
      requires Valid()
      ensures node == null <==> key !in Contents()
      ensures node != null ==> node in Repr && node.key == key && node.data == Contents()[key]
    {
      node := root;
      ghost var p, t := Top, tree;
      while node != null
        invariant node == Root(t) && Shape(t) && Searching(tree, p, t, key)
        decreases t
      {
        var cmp := Compare(key, node.key);
        if cmp == Equal {
          Found(tree, p, t, key);
          PlugNodes(p, t);
          return;
        }
        Descend(tree, p, t, key);
        node := if cmp == Less then node.left else node.right;
        p, t := Extend(p, t, cmp == Less), if cmp == Less then t.l else t.r;
      }
      Missing(tree, p, key);
    }

    method First() returns (node: MapNode?)
      requires Valid()
      ensures node == if Inorder(tree) == [] then null else Inorder(tree)[0]
    {
      node := root;
      if node != null {
        node := Leftmost(node, tree);
      }
    }

    method Last() returns (node: MapNode?)
      requires Valid()
      ensures node == if Inorder(tree) == [] then null else Inorder(tree)[|Inorder(tree)| - 1]
    {
      node := root;
      if node != null {
        node := Rightmost(node, tree);
      }
    }

    /** Down the left links. */
    static method Leftmost(top: MapNode, ghost t: Tree) returns (node: MapNode)
      requires Shape(t) && Root(t) == top
      ensures Inorder(t) != [] && node == Inorder(t)[0]
    {
      node := top;
      ghost var s := t;
      while node.left != null
        invariant Shape(s) && node == Root(s) && Inorder(s) <= Inorder(t)
        decreases s
      {
        node, s := node.left, s.l;
      }
      assert s.l == Leaf;
    }

    /** Down the right links. */
    static method Rightmost(top: MapNode, ghost t: Tree) returns (node: MapNode)
      requires Shape(t) && Root(t) == top
      ensures Inorder(t) != [] && node == Inorder(t)[|Inorder(t)| - 1]
    {
      node := top;
      ghost var s, before := t, [];
      while node.right != null
        invariant Shape(s) && node == Root(s) && Inorder(t) == before + Inorder(s)
        decreases s
      {
        before := before + (Inorder(s.l) + [s.n]);
        node, s := node.right, s.r;
      }
      assert s.r == Leaf;
    }

    /** The search for a node from the root: the last node it went left at comes next after
        everything below. */
    method LastLeftTurn(node: MapNode) returns (next: MapNode?, ghost p: Path, ghost t: Tree)
      requires Valid() && node in Repr
      ensures Plug(p, t) == tree && t.Fork? && t.n == node && Shape(t)
      ensures next == Listed(After(p), 0)
    {
      hide Balanced, ToMap, Inorder, RbMap.Contents;
      next := null;
      var cur := root;
      p, t := Top, tree;
      var cmp := Compare(node.key, cur.key);
      while cmp != Equal
        invariant node in Nodes(t) && cur == Root(t) && Shape(t) && cmp == Compare(node.key, cur.key)
        invariant Plug(p, t) == tree && next == Listed(After(p), 0)
        decreases t
      {
        KeyDirects(p, t, node);
        if cmp == Less {
          next, cur := cur, cur.left;
        } else {
          cur := cur.right;
        }
        p, t := Extend(p, t, cmp == Less), if cmp == Less then t.l else t.r;
        cmp := Compare(node.key, cur.key);
      }
      KeyDirects(p, t, node);
    }

    /** The in-order successor: leftmost below on the right, else the last node the
        search from the root went left at. */
    method Next(node: MapNode) returns (next: MapNode?)
      requires Valid() && node in Repr
      ensures node in Inorder(tree)
      ensures next == Listed(Inorder(tree), Place(Inorder(tree), node) + 1)
    {
      hide Balanced, ToMap, RbMap.Contents, Place, Listed;
      ghost var pre, sub, post := Locate(tree, node);
      if node.right != null {
        next := Leftmost(node.right, sub.r);
        SplitIndex(tree, pre + Inorder(sub.l), node, Inorder(sub.r) + post);
      } else {
        ghost var p, t;
        next, p, t := LastLeftTurn(node);
        SplitAt(p, t);
        SplitIndex(tree, Before(p) + Inorder(t.l), node, Inorder(t.r) + After(p));
        ListedEnds(After(p));
      }
    }

    method LastRightTurn(node: MapNode) returns (prev: MapNode?, ghost p: Path, ghost t: Tree)
      requires Valid() && node in Repr
      ensures Plug(p, t) == tree && t.Fork? && t.n == node && Shape(t)
      ensures prev == Listed(Before(p), |Before(p)| - 1)
    {
      hide Balanced, ToMap, Inorder, RbMap.Contents;
      prev := null;
      var cur := root;
      p, t := Top, tree;
      var cmp := Compare(node.key, cur.key);
      while cmp != Equal
        invariant node in Nodes(t) && cur == Root(t) && Shape(t) && cmp == Compare(node.key, cur.key)
        invariant Plug(p, t) == tree && prev == Listed(Before(p), |Before(p)| - 1)
        decreases t
      {
        KeyDirects(p, t, node);
        if cmp == Greater {
          prev, cur := cur, cur.right;
        } else {
          cur := cur.left;
        }
        p, t := Extend(p, t, cmp == Less), if cmp == Less then t.l else t.r;
        cmp := Compare(node.key, cur.key);
      }
      KeyDirects(p, t, node);
    }

    /** The in-order predecessor, by the mirrored search. */
    method Prev(node: MapNode) returns (prev: MapNode?)
      requires Valid() && node in Repr
      ensures node in Inorder(tree)
      ensures prev == Listed(Inorder(tree), Place(Inorder(tree), node) - 1)
    {
      hide Balanced, ToMap, RbMap.Contents, Place, Listed;
      ghost var pre, sub, post := Locate(tree, node);
      if node.left != null {
        prev := Rightmost(node.left, sub.l);
        SplitIndex(tree, pre + Inorder(sub.l), node, Inorder(sub.r) + post);
      } else {
        ghost var p, t;
        prev, p, t := LastRightTurn(node);
        SplitAt(p, t);
        SplitIndex(tree, Before(p) + Inorder(t.l), node, Inorder(t.r) + After(p));
        ListedEnds(Before(p));
      }
    }
  }
}
