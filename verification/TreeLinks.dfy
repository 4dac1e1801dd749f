/**
 How a shape lies in memory: a snapshot of the fields of every node, and what it means for the pointers
 in it to draw a given shape. Everything here is about values; Tree.dfy ties it to the heap.
 */
module TreeLinks {
  import opened TreeNodes
  import opened RedBlackShape

  datatype Cell = Cell(left: TreeNode?, right: TreeNode?, parent: TreeNode?, key: int, red: bool) {
    function Kid(s: Side): TreeNode? {
      if s.Left? then left else right
    }

    function WithKid(s: Side, n: TreeNode?): Cell {
      if s.Left? then this.(left := n) else this.(right := n)
    }
  }

  type Memory = map<TreeNode, Cell>

  ghost function Ref(t: Shape): TreeNode? {
    if t.Leaf? then null else t.n
  }

  ghost function Up(f: seq<Frame>): TreeNode? {
    if f == [] then null else Last(f).n
  }

  ghost predicate Linked(h: Memory, t: Shape, up: TreeNode?) {
    match t
    case Leaf => true
    case Node(n, key, red, l, r) =>
      && n in h && h[n] == Cell(Ref(l), Ref(r), up, key, red)
      && Linked(h, l, n) && Linked(h, r, n)
  }

  ghost function FrameCell(F: Frame, down: TreeNode?, up: TreeNode?): Cell {
    Cell(null, null, up, F.key, F.red).WithKid(F.side, down).WithKid(F.side.Other(), Ref(F.sib))
  }

  ghost predicate FrameLinked(h: Memory, f: seq<Frame>, i: nat, hole: TreeNode?)
    requires i < |f|
  {
    && f[i].n in h
    && h[f[i].n] == FrameCell(f[i], if i + 1 < |f| then f[i + 1].n else hole, Up(f[..i]))
    && Linked(h, f[i].sib, f[i].n)
  }

  ghost predicate PathLinked(h: Memory, f: seq<Frame>, hole: TreeNode?) {
    forall i: nat | i < |f| :: FrameLinked(h, f, i, hole)
  }

  lemma {:induction false} PlugLinked(h: Memory, f: seq<Frame>, t: Shape)
    ensures Linked(h, Plug(f, t), null) <==> PathLinked(h, f, Ref(t)) && Linked(h, t, Up(f))
    decreases |f|
  {
    if f != [] {
      var F, up := Last(f), Init(f);
      PlugLinked(h, up, F.Over(t));
      assert f[..|f| - 1] == up;
      forall i: nat | i < |up| ensures FrameLinked(h, up, i, F.n) <==> FrameLinked(h, f, i, Ref(t)) {
        assert up[..i] == f[..i];
      }
      assert FrameLinked(h, f, |f| - 1, Ref(t)) && Linked(h, t, F.n) <==> Linked(h, F.Over(t), Up(up));
    }
  }

  // ---------- No node occurs twice ----------

  ghost function Nodes(t: Shape): set<TreeNode> {
    match t
    case Leaf => {}
    case Node(n, _, _, l, r) => Nodes(l) + {n} + Nodes(r)
  }

  ghost predicate Distinct(t: Shape) {
    match t
    case Leaf => true
    case Node(n, _, _, l, r) =>
      && n !in Nodes(l) && n !in Nodes(r) && Nodes(l) !! Nodes(r) && Distinct(l) && Distinct(r)
  }

  ghost function Own(F: Frame): set<TreeNode> {
    {F.n} + Nodes(F.sib)
  }

  ghost predicate DistinctFrame(F: Frame) {
    F.n !in Nodes(F.sib) && Distinct(F.sib)
  }

  // The frames do not meet each other nor the given nodes.
  ghost predicate DistinctPath(f: seq<Frame>, below: set<TreeNode>)
    decreases |f|
  {
    f != [] ==>
      var F := Last(f);
      DistinctFrame(F) && Own(F) !! below && DistinctPath(Init(f), below + Own(F))
  }

  ghost function PathNodes(f: seq<Frame>): set<TreeNode>
    decreases |f|
  {
    if f == [] then {} else PathNodes(Init(f)) + Own(Last(f))
  }

  lemma {:induction false} PlugNodes(f: seq<Frame>, t: Shape)
    ensures Nodes(Plug(f, t)) == PathNodes(f) + Nodes(t)
    decreases |f|
  {
    if f != [] {
      PlugNodes(Init(f), Last(f).Over(t));
    }
  }

  lemma {:induction false} PlugDistinct(f: seq<Frame>, t: Shape)
    ensures Distinct(Plug(f, t)) <==> Distinct(t) && DistinctPath(f, Nodes(t))
    decreases |f|
  {
    if f != [] {
      var F := Last(f);
      PlugDistinct(Init(f), F.Over(t));
      assert Nodes(F.Over(t)) == Nodes(t) + Own(F);
    }
  }

  lemma {:induction false} DistinctFrames(f: seq<Frame>, below: set<TreeNode>)
    requires DistinctPath(f, below)
    ensures forall i: nat | i < |f| :: DistinctFrame(f[i]) && Own(f[i]) !! below
    ensures forall i: nat, j: nat | i < j < |f| :: Own(f[i]) !! Own(f[j])
    decreases |f|
  {
    if f != [] {
      DistinctFrames(Init(f), below + Own(Last(f)));
    }
  }

  lemma {:induction false} OwnInPath(f: seq<Frame>, i: nat)
    requires i < |f|
    ensures Own(f[i]) <= PathNodes(f)
    decreases |f|
  {
    if i < |f| - 1 {
      OwnInPath(Init(f), i);
    }
  }

  // ---------- What changing memory leaves alone ----------

  ghost predicate Same(h: Memory, h2: Memory, s: set<TreeNode>) {
    forall n | n in s :: n in h && n in h2 && h2[n] == h[n]
  }

  lemma {:induction false} LinkedNodes(h: Memory, t: Shape, up: TreeNode?)
    requires Linked(h, t, up)
    ensures Nodes(t) <= h.Keys
  {
    if t.Node? {
      LinkedNodes(h, t.left, t.n);
      LinkedNodes(h, t.right, t.n);
    }
  }

  lemma {:induction false} LinkedSame(h: Memory, h2: Memory, t: Shape, up: TreeNode?)
    requires Linked(h, t, up) && Same(h, h2, Nodes(t))
    ensures Linked(h2, t, up)
  {
    if t.Node? {
      LinkedSame(h, h2, t.left, t.n);
      LinkedSame(h, h2, t.right, t.n);
    }
  }

  // Only the root of t changes, and only its parent.
  lemma LinkedMoved(h: Memory, h2: Memory, t: Shape, up: TreeNode?, up2: TreeNode?)
    requires Linked(h, t, up) && Distinct(t)
    requires t.Node? ==> Same(h, h2, Nodes(t) - {t.n}) && t.n in h2 && h2[t.n] == h[t.n].(parent := up2)
    ensures Linked(h2, t, up2)
  {
    if t.Node? {
      LinkedSame(h, h2, t.left, t.n);
      LinkedSame(h, h2, t.right, t.n);
    }
  }

  // Only the lowest frame changes, and only its pointer into the hole.
  lemma PathMoved(h: Memory, h2: Memory, f: seq<Frame>, hole: TreeNode?, hole2: TreeNode?, below: set<TreeNode>)
    requires PathLinked(h, f, hole) && DistinctPath(f, below)
    requires f == [] || (Last(f).n in h && Last(f).n in h2)
    requires f != [] ==> h2[Last(f).n] == h[Last(f).n].WithKid(Last(f).side, hole2)
    requires Same(h, h2, PathNodes(f) - (if f == [] then {} else {Last(f).n}))
    ensures PathLinked(h2, f, hole2)
  {
    DistinctFrames(f, below);
    forall i: nat | i < |f| ensures FrameLinked(h2, f, i, hole2) {
      assert FrameLinked(h, f, i, hole);
      OwnInPath(f, i);
      LinkedSame(h, h2, f[i].sib, f[i].n);
      if i < |f| - 1 {
        assert f[i].n !in Own(Last(f));
      }
    }
  }

  // ---------- Rotation and recolouring ----------

  // The pointers a rotation at p follows are there, and do not coincide.
  ghost predicate RotateReady(h: Memory, cis: Side, p: TreeNode) {
    && p in h
    && var q, up := h[p].Kid(cis.Other()), h[p].parent;
    && q != null && q in h && q != p && up != p && up != q && (up != null ==> up in h)
    && var b := h[q].Kid(cis);
       b != null ==> b in h && b != p && b != q && b != up
  }

  // Hangs `next` where n hangs.
  ghost function Replace(h: Memory, n: TreeNode, next: TreeNode?): (h2: Memory)
    requires n in h && (h[n].parent != null ==> h[n].parent in h)
    ensures h2.Keys == h.Keys
  {
    var up := h[n].parent;
    if up == null then h else h[up := h[up].WithKid(if h[up].left == n then Left else Right, next)]
  }

  // `if (node) node->parent = parent`.
  ghost function Adopt(h: Memory, n: TreeNode?, up: TreeNode?): (h2: Memory)
    requires n != null ==> n in h
    ensures h2.Keys == h.Keys
  {
    if n == null then h else h[n := h[n].(parent := up)]
  }

  // The pointer writes of TREE__ROTATE, on a snapshot and in the order of the macro.
  ghost function RotateMemory(h: Memory, cis: Side, p: TreeNode): (h6: Memory)
    requires RotateReady(h, cis, p)
    ensures h6.Keys == h.Keys
  {
    var q, up := h[p].Kid(cis.Other()), h[p].parent;
    var b := h[q].Kid(cis);
    var h1 := Replace(h, p, q);
    var h2 := h1[q := h1[q].(parent := up)];
    RotateLowerMemory(h2, cis, p, q, b)
  }

  ghost function RotateLowerMemory(h2: Memory, cis: Side, p: TreeNode, q: TreeNode, b: TreeNode?): (h6: Memory)
    requires p in h2 && q in h2 && (b != null ==> b in h2)
    ensures h6.Keys == h2.Keys
  {
    var h3 := h2[p := h2[p].(parent := q)];
    var h4 := h3[p := h3[p].WithKid(cis.Other(), b)];
    var h5 := Adopt(h4, b, p);
    h5[q := h5[q].WithKid(cis, p)]
  }

  // The same writes, cell by cell.
  ghost predicate Rotated(h: Memory, h2: Memory, cis: Side, p: TreeNode)
    requires RotateReady(h, cis, p)
  {
    var q, up := h[p].Kid(cis.Other()), h[p].parent;
    var b := h[q].Kid(cis);
    && h2.Keys == h.Keys
    && h2[p] == h[p].(parent := q).WithKid(cis.Other(), b)
    && h2[q] == h[q].(parent := up).WithKid(cis, p)
    && (b != null ==> h2[b] == h[b].(parent := p))
    && (up != null ==> h2[up] == h[up].WithKid(if h[up].left == p then Left else Right, q))
    && forall n | n in h && n != p && n != q && n != b && n != up :: h2[n] == h[n]
  }

  lemma RotateCells(h: Memory, cis: Side, p: TreeNode)
    requires RotateReady(h, cis, p)
    ensures Rotated(h, RotateMemory(h, cis, p), cis, p)
  {
  }

  lemma RotateNodes(cis: Side, t: Shape)
    requires CanRotate(cis, t)
    ensures Nodes(Rotate(cis, t)) == Nodes(t)
    ensures Distinct(t) ==> Distinct(Rotate(cis, t))
  {
    var q := t.Kid(cis.Other());
    var near := Branch(cis, t.n, t.key, t.red, t.Kid(cis), q.Kid(cis));
    assert Nodes(near) == {t.n} + Nodes(t.Kid(cis)) + Nodes(q.Kid(cis));
    assert Nodes(q) == {q.n} + Nodes(q.Kid(cis)) + Nodes(q.Kid(cis.Other()));
    assert Nodes(t) == {t.n} + Nodes(t.Kid(cis)) + Nodes(q);
    if Distinct(t) {
      assert Distinct(t.Kid(cis)) && Distinct(q);
      assert Distinct(q.Kid(cis)) && Distinct(q.Kid(cis.Other()));
      assert Distinct(near);
    }
  }

  lemma RotateFinds(h: Memory, cis: Side, f: seq<Frame>, t: Shape)
    requires CanRotate(cis, t) && PathLinked(h, f, t.n) && Linked(h, t, Up(f))
    requires Distinct(t) && DistinctPath(f, Nodes(t))
    ensures RotateReady(h, cis, t.n)
    ensures h[t.n].parent == Up(f) && h[t.n].Kid(cis.Other()) == t.Kid(cis.Other()).n
    ensures h[t.Kid(cis.Other()).n].Kid(cis) == Ref(t.Kid(cis.Other()).Kid(cis))
    ensures f != [] ==> Last(f).n in h && Last(f).n !in Nodes(t) &&
                        (h[Last(f).n].left == t.n <==> Last(f).side.Left?)
  {
    var q := t.Kid(cis.Other());
    assert Linked(h, q, t.n) && Linked(h, q.Kid(cis), q.n);
    if f != [] {
      assert FrameLinked(h, f, |f| - 1, t.n);
      assert Own(Last(f)) !! Nodes(t);
      assert t.n in Nodes(t) && q.n in Nodes(t);
    }
  }

  // The root p of the rotated pair, one level down: it keeps its near subtree and adopts q's.
  lemma RotateLinkedNear(h: Memory, h2: Memory, cis: Side, f: seq<Frame>, t: Shape)
    requires CanRotate(cis, t) && PathLinked(h, f, t.n) && Linked(h, t, Up(f))
    requires Distinct(t) && DistinctPath(f, Nodes(t))
    requires RotateReady(h, cis, t.n) && Rotated(h, h2, cis, t.n)
    ensures Linked(h2, Rotate(cis, t).Kid(cis), t.Kid(cis.Other()).n)
  {
    RotateFinds(h, cis, f, t);
    var q := t.Kid(cis.Other());
    assert Distinct(q) && t.n !in Nodes(q);
    LinkedNodes(h, t, Up(f));
    LinkedSame(h, h2, t.Kid(cis), t.n);
    LinkedMoved(h, h2, q.Kid(cis), q.n, t.n);
  }

  lemma RotateLinked(h: Memory, h2: Memory, cis: Side, f: seq<Frame>, t: Shape)
    requires CanRotate(cis, t) && PathLinked(h, f, t.n) && Linked(h, t, Up(f))
    requires Distinct(t) && DistinctPath(f, Nodes(t))
    requires RotateReady(h, cis, t.n) && Rotated(h, h2, cis, t.n)
    ensures Linked(h2, Rotate(cis, t), Up(f))
  {
    RotateFinds(h, cis, f, t);
    var q := t.Kid(cis.Other());
    assert Distinct(q) && t.n !in Nodes(q);
    LinkedNodes(h, t, Up(f));
    LinkedSame(h, h2, q.Kid(cis.Other()), q.n);
    RotateLinkedNear(h, h2, cis, f, t);
  }

  lemma {:induction false} PathInMemory(h: Memory, f: seq<Frame>, hole: TreeNode?)
    requires PathLinked(h, f, hole)
    ensures PathNodes(f) <= h.Keys
    decreases |f|
  {
    if f != [] {
      assert FrameLinked(h, f, |f| - 1, hole);
      LinkedNodes(h, Last(f).sib, Last(f).n);
      forall i: nat | i < |Init(f)| ensures FrameLinked(h, Init(f), i, Last(f).n) {
        assert FrameLinked(h, f, i, hole);
        assert Init(f)[..i] == f[..i];
      }
      PathInMemory(h, Init(f), Last(f).n);
    }
  }

  lemma RotatePath(h: Memory, h2: Memory, cis: Side, f: seq<Frame>, t: Shape)
    requires CanRotate(cis, t) && PathLinked(h, f, t.n) && Linked(h, t, Up(f))
    requires Distinct(t) && DistinctPath(f, Nodes(t))
    requires RotateReady(h, cis, t.n) && Rotated(h, h2, cis, t.n)
    ensures PathLinked(h2, f, t.Kid(cis.Other()).n)
  {
    RotateFinds(h, cis, f, t);
    var q := t.Kid(cis.Other());
    DistinctPathNodes(f, Nodes(t));
    assert t.n in Nodes(t) && q.n in Nodes(t) && (q.Kid(cis).Node? ==> q.Kid(cis).n in Nodes(t));
    PathInMemory(h, f, t.n);
    PathMoved(h, h2, f, t.n, q.n, Nodes(t));
  }

  lemma {:induction false} DistinctPathNodes(f: seq<Frame>, below: set<TreeNode>)
    requires DistinctPath(f, below)
    ensures PathNodes(f) !! below
    decreases |f|
  {
    if f != [] {
      DistinctPathNodes(Init(f), below + Own(Last(f)));
    }
  }

  // What it is for pointers to draw a tree.
  ghost predicate Draws(h: Memory, t: Shape) {
    Linked(h, t, null) && Distinct(t) && h.Keys == Nodes(t)
  }

  // A rotation by pointer writes draws the rotated tree, wherever in the tree it is done.
  lemma RotateDraws(h: Memory, cis: Side, f: seq<Frame>, t: Shape)
    requires CanRotate(cis, t) && Draws(h, Plug(f, t))
    ensures RotateReady(h, cis, t.n)
    ensures Draws(RotateMemory(h, cis, t.n), Plug(f, Rotate(cis, t)))
    ensures Ref(Plug(f, Rotate(cis, t))) ==
            if h[t.n].parent == null then h[t.n].Kid(cis.Other()) else Ref(Plug(f, t))
  {
    PlugLinked(h, f, t);
    PlugDistinct(f, t);
    RotateFinds(h, cis, f, t);
    RotateCells(h, cis, t.n);
    RotateDrawn(h, RotateMemory(h, cis, t.n), cis, f, t);
    PlugRoot(f, t);
    PlugRoot(f, Rotate(cis, t));
  }

  lemma RotateDrawn(h: Memory, h2: Memory, cis: Side, f: seq<Frame>, t: Shape)
    requires CanRotate(cis, t) && PathLinked(h, f, t.n) && Linked(h, t, Up(f))
    requires Distinct(t) && DistinctPath(f, Nodes(t)) && h.Keys == Nodes(Plug(f, t))
    requires RotateReady(h, cis, t.n) && Rotated(h, h2, cis, t.n)
    ensures Draws(h2, Plug(f, Rotate(cis, t)))
  {
    RotateLinked(h, h2, cis, f, t);
    RotatePath(h, h2, cis, f, t);
    RotateNodes(cis, t);
    var t2 := Rotate(cis, t);
    PlugNodes(f, t);
    PlugLinked(h2, f, t2);
    PlugDistinct(f, t2);
    PlugNodes(f, t2);
  }

  lemma RecolourDraws(h: Memory, f: seq<Frame>, t: Shape, red: bool)
    requires t.Node? && Draws(h, Plug(f, t))
    ensures t.n in h && Draws(h[t.n := h[t.n].(red := red)], Plug(f, t.(red := red)))
  {
    hide Plug, DistinctPath, PathNodes;
    PlugLinked(h, f, t);
    PlugDistinct(f, t);
    PlugNodes(f, t);
    var h2, t2 := h[t.n := h[t.n].(red := red)], t.(red := red);
    LinkedNodes(h, t, Up(f));
    LinkedSame(h, h2, t.left, t.n);
    LinkedSame(h, h2, t.right, t.n);
    DistinctPathNodes(f, Nodes(t));
    PathInMemory(h, f, t.n);
    if f != [] {
      assert FrameLinked(h, f, |f| - 1, t.n);
      OwnInPath(f, |f| - 1);
    }
    PathMoved(h, h2, f, t.n, t.n, Nodes(t));
    PlugLinked(h2, f, t2);
    PlugDistinct(f, t2);
    PlugNodes(f, t2);
  }

  // What the code sees at a node it holds.
  lemma Look(h: Memory, f: seq<Frame>, t: Shape)
    requires t.Node? && Draws(h, Plug(f, t))
    ensures t.n in h && h[t.n] == Cell(Ref(t.left), Ref(t.right), Up(f), t.key, t.red)
    ensures t.left.Node? && t.right.Node? ==> t.left.n != t.right.n
    ensures Ref(Plug(f, t)) != null && (f == [] ==> Ref(Plug(f, t)) == t.n)
    ensures f != [] ==> Ref(Plug(f, t)) != t.n
  {
    PlugLinked(h, f, t);
    PlugDistinct(f, t);
    PlugRoot(f, t);
    if f != [] {
      DistinctFrames(f, Nodes(t));
      assert f[0].n in Own(f[0]) && t.n in Nodes(t);
    }
    if t.left.Node? && t.right.Node? {
      assert t.left.n in Nodes(t.left) && t.right.n in Nodes(t.right);
    }
  }

  lemma PlugNil(t: Shape)
    ensures Plug([], t) == t
  {
  }

  lemma StepUp(up: seq<Frame>, F: Frame, t: Shape)
    ensures Plug(up + [F], t) == Plug(up, F.Over(t)) && Up(up + [F]) == F.n
    ensures Init(up + [F]) == up && Last(up + [F]) == F
  {
    assert Init(up + [F]) == up;
  }

  // Hanging a new red node in the empty place f.
  ghost function LeafMemory(h: Memory, f: seq<Frame>, n: TreeNode, key: int): Memory
    requires f != [] ==> Last(f).n in h
  {
    (if f == [] then h else h[Last(f).n := h[Last(f).n].WithKid(Last(f).side, n)])
      [n := Cell(null, null, Up(f), key, true)]
  }

  lemma LeafDraws(h: Memory, f: seq<Frame>, n: TreeNode, key: int)
    requires Draws(h, Plug(f, Leaf)) && n !in h
    ensures f != [] ==> Last(f).n in h
    ensures Draws(LeafMemory(h, f, n, key), Plug(f, Node(n, key, true, Leaf, Leaf)))
    ensures Ref(Plug(f, Node(n, key, true, Leaf, Leaf))) == if f == [] then n else Ref(Plug(f, Leaf))
    ensures Nodes(Plug(f, Node(n, key, true, Leaf, Leaf))) == h.Keys + {n}
  {
    var t := Node(n, key, true, Leaf, Leaf);
    PlugRoot(f, Leaf);
    PlugRoot(f, t);
    PlugLinked(h, f, Leaf);
    PlugDistinct(f, Leaf);
    PlugNodes(f, Leaf);
    if f != [] {
      assert FrameLinked(h, f, |f| - 1, null);
    }
    var h2 := LeafMemory(h, f, n, key);
    PathInMemory(h, f, null);
    PathMoved(h, h2, f, null, n, Nodes(Leaf));
    DistinctBelow(f, Nodes(Leaf), {n});
    assert Nodes(Leaf) + {n} == Nodes(t);
    PlugLinked(h2, f, t);
    PlugDistinct(f, t);
    PlugNodes(f, t);
  }

  lemma {:induction false} DistinctBelow(f: seq<Frame>, below: set<TreeNode>, more: set<TreeNode>)
    requires DistinctPath(f, below) && more !! PathNodes(f)
    ensures DistinctPath(f, below + more)
    decreases |f|
  {
    if f != [] {
      DistinctBelow(Init(f), below + Own(Last(f)), more);
      assert below + Own(Last(f)) + more == below + more + Own(Last(f));
    }
  }

  // What the code sees at the node above the place it works at, and at the node beside it.
  lemma LookUp(h: Memory, f: seq<Frame>, t: Shape)
    requires f != [] && Draws(h, Plug(f, t))
    ensures Last(f).n in h && h[Last(f).n] == FrameCell(Last(f), Ref(t), Up(Init(f)))
    ensures Last(f).sib.Node? ==> Last(f).sib.n in h && h[Last(f).sib.n].red == Last(f).sib.red
    ensures t.Node? ==> Ref(Last(f).sib) != t.n
  {
    var F, up := Last(f), Init(f);
    Look(h, up, F.Over(t));
    if F.sib.Node? {
      var U := Frame(F.side.Other(), F.n, F.key, F.red, t);
      StepUp(up, U, F.sib);
      Look(h, up + [U], F.sib);
    }
  }

  // The colours the code sees at the children of a node it holds.
  lemma LookDown(h: Memory, f: seq<Frame>, t: Shape)
    requires t.Node? && Draws(h, Plug(f, t))
    ensures t.left.Node? ==> t.left.n in h && h[t.left.n].red == t.left.red
    ensures t.right.Node? ==> t.right.n in h && h[t.right.n].red == t.right.red
  {
    StepUp(f, Frame(Left, t.n, t.key, t.red, t.right), t.left);
    StepUp(f, Frame(Right, t.n, t.key, t.red, t.left), t.right);
    if t.left.Node? {
      Look(h, f + [Frame(Left, t.n, t.key, t.red, t.right)], t.left);
    }
    if t.right.Node? {
      Look(h, f + [Frame(Right, t.n, t.key, t.red, t.left)], t.right);
    }
  }
}
