/** The pointer writes with which tree_del takes a node out, on snapshots. */
module TreeUnlink {
  import opened TreeNodes
  import opened RedBlackShape
  import opened RedBlackRemove
  import opened TreeLinks

  // ---------- Fewer than two children: the child, if any, moves up ----------

  function OnlyKidCell(c: Cell): TreeNode? {
    if c.left == null then c.right else c.left
  }

  ghost predicate BypassReady(h: Memory, n: TreeNode) {
    && n in h
    && var next, up := OnlyKidCell(h[n]), h[n].parent;
    && (up != null ==> up in h && up != n)
    && (next != null ==> next in h && next != n && next != up)
  }

  ghost function BypassMemory(h: Memory, n: TreeNode): (h2: Memory)
    requires BypassReady(h, n)
    ensures h2.Keys == h.Keys - {n}
  {
    var next := OnlyKidCell(h[n]);
    var h1 := Replace(h, n, next);
    Adopt(h1, next, h[n].parent) - {n}
  }

  function OnlyKid(t: Shape): Shape
    requires t.Node?
  {
    if t.left.Leaf? then t.right else t.left
  }

  lemma BypassDraws(h: Memory, f: seq<Frame>, t: Shape)
    requires t.Node? && !TwoKids(t) && Draws(h, Plug(f, t))
    ensures BypassReady(h, t.n) && OnlyKidCell(h[t.n]) == Ref(OnlyKid(t))
    ensures Draws(BypassMemory(h, t.n), Plug(f, OnlyKid(t)))
    ensures Ref(Plug(f, OnlyKid(t))) == if h[t.n].parent == null then Ref(OnlyKid(t)) else Ref(Plug(f, t))
    ensures h[t.n].parent == Up(f)
  {
    var next := OnlyKid(t);
    PlugLinked(h, f, t);
    PlugDistinct(f, t);
    PlugNodes(f, t);
    DistinctPathNodes(f, Nodes(t));
    if f != [] {
      LookUp(h, f, t);
      OwnInPath(f, |f| - 1);
      assert Last(f).n in PathNodes(f);
    }
    assert Nodes(t) == {t.n} + Nodes(next);
    BypassDrawn(h, BypassMemory(h, t.n), f, t);
    PlugRoot(f, t);
    PlugRoot(f, next);
  }

  lemma BypassDrawn(h: Memory, h2: Memory, f: seq<Frame>, t: Shape)
    requires t.Node? && !TwoKids(t) && Draws(h, Plug(f, t))
    requires h2.Keys == h.Keys - {t.n}
    requires f != [] ==> Last(f).n in h2 && h2[Last(f).n] == h[Last(f).n].WithKid(Last(f).side, Ref(OnlyKid(t)))
    requires OnlyKid(t).Node? ==> OnlyKid(t).n in h2 && h2[OnlyKid(t).n] == h[OnlyKid(t).n].(parent := Up(f))
    requires forall n | n in h2 && n != Up(f) && n != Ref(OnlyKid(t)) :: h2[n] == h[n]
    ensures Draws(h2, Plug(f, OnlyKid(t)))
  {
    var next := OnlyKid(t);
    PlugLinked(h, f, t);
    PlugDistinct(f, t);
    PlugNodes(f, t);
    DistinctPathNodes(f, Nodes(t));
    if f != [] {
      OwnInPath(f, |f| - 1);
      assert Last(f).n in PathNodes(f);
    }
    assert Nodes(t) == {t.n} + Nodes(next) && (next.Node? ==> next.n in Nodes(next));
    LinkedMoved(h, h2, next, t.n, Up(f));
    PathMoved(h, h2, f, t.n, Ref(next), Nodes(t));
    DistinctFewer(f, Nodes(t), Nodes(next));
    PlugLinked(h2, f, next);
    PlugDistinct(f, next);
    PlugNodes(f, next);
  }

  lemma {:induction false} DistinctFewer(f: seq<Frame>, below: set<TreeNode>, fewer: set<TreeNode>)
    requires DistinctPath(f, below) && fewer <= below
    ensures DistinctPath(f, fewer)
    decreases |f|
  {
    if f != [] {
      DistinctFewer(Init(f), below + Own(Last(f)), fewer + Own(Last(f)));
    }
  }

  // ---------- Two children: the successor takes the place of the node ----------

  // The subtree without its leftmost node.
  function WithoutMin(r: Shape): Shape
    requires r.Node?
  {
    if r.left.Leaf? then r.right else r.(left := WithoutMin(r.left))
  }

  // The node whose left child is the leftmost node.
  function AboveMin(r: Shape): TreeNode
    requires r.Node? && r.left.Node?
  {
    if r.left.left.Leaf? then r.n else AboveMin(r.left)
  }

  lemma {:induction false} SpinePlugs(g: seq<Frame>, r: Shape)
    requires r.Node?
    ensures Plug(LeftSpine(g, r), MinOf(r).right) == Plug(g, WithoutMin(r))
    ensures Up(LeftSpine(g, r)) == if r.left.Leaf? then Up(g) else AboveMin(r)
    decreases r
  {
    if r.left.Node? {
      var F := Frame(Left, r.n, r.key, r.red, r.right);
      StepUp(g, F, WithoutMin(r.left));
      SpinePlugs(g + [F], r.left);
    }
  }

  lemma {:induction false} WithoutMinNodes(r: Shape)
    requires r.Node? && Distinct(r)
    ensures MinOf(r).n in Nodes(r) && Nodes(MinOf(r).right) <= Nodes(r) - {MinOf(r).n}
    ensures Distinct(MinOf(r).right)
    ensures Distinct(WithoutMin(r)) && Nodes(WithoutMin(r)) == Nodes(r) - {MinOf(r).n}
    ensures r.left.Node? ==>
      && AboveMin(r) in Nodes(r) - Nodes(MinOf(r))
      && MinOf(r).n != r.n && r.n !in Nodes(MinOf(r).right)
      && (r.left.left.Node? ==> AboveMin(r) != r.n)
  {
    if r.left.Node? {
      WithoutMinNodes(r.left);
      assert MinOf(r).n in Nodes(r.left) && MinOf(r) == MinOf(r.left);
    }
  }

  // The writes below the node, cell by cell: the root r gets a new parent, the leftmost node leaves.
  ghost predicate MinLeaves(h: Memory, h2: Memory, r: Shape, up2: TreeNode?)
    requires r.Node? && r.left.Node?
  {
    var m, land := MinOf(r), AboveMin(r);
    var x := Ref(m.right);
    && Nodes(r) <= h.Keys && Nodes(r) - {m.n} <= h2.Keys && {r.n, land} <= h.Keys * h2.Keys
    && (x != null ==> x in h && x in h2)
    && h2[r.n] == h[r.n].(parent := up2, left := if r.left.left.Leaf? then x else h[r.n].left)
    && (r.left.left.Node? ==> h2[land] == h[land].(left := x))
    && (x != null ==> h2[x] == h[x].(parent := land))
    && Same(h, h2, Nodes(r) - {r.n, m.n, land} - (if x == null then {} else {x}))
  }

  lemma {:induction false} MinLeavesLinked(h: Memory, h2: Memory, r: Shape, up: TreeNode?, up2: TreeNode?)
    requires r.Node? && r.left.Node? && Linked(h, r, up) && Distinct(r)
    requires MinLeaves(h, h2, r, up2)
    ensures Linked(h2, WithoutMin(r), up2)
    decreases r
  {
    var m := MinOf(r);
    WithoutMinNodes(r);
    WithoutMinNodes(r.left);
    LinkedSame(h, h2, r.right, r.n);
    if r.left.left.Leaf? {
      LinkedMoved(h, h2, m.right, m.n, r.n);
    } else {
      MinLeavesLinked(h, h2, r.left, r.n, r.n);
    }
  }

  // The tree with the successor moved up into the place of t.
  function Succeeded(t: Shape): Shape
    requires TwoKids(t)
  {
    var m := MinOf(t.right);
    Node(m.n, m.key, t.red, t.left, WithoutMin(t.right))
  }

  lemma SucceededPlugs(f: seq<Frame>, t: Shape)
    requires TwoKids(t)
    ensures Plug(LeftSpine(Stead(f, t), t.right), MinOf(t.right).right) == Plug(f, Succeeded(t))
    ensures Up(LeftSpine(Stead(f, t), t.right)) == Landing(t)
  {
    var m := MinOf(t.right);
    StepUp(f, Frame(Right, m.n, m.key, t.red, t.left), WithoutMin(t.right));
    SpinePlugs(Stead(f, t), t.right);
  }

  // Where the successor's right subtree hangs afterwards.
  function Landing(t: Shape): TreeNode
    requires TwoKids(t)
  {
    if t.right.left.Leaf? then t.right.n else AboveMin(t.right)
  }

  // The pointers the writes for n and its successor m follow are there, and do not coincide.
  ghost predicate SpliceReady(h: Memory, n: TreeNode, m: TreeNode) {
    && n in h && m in h && n != m
    && var l, r, land, x, up := h[n].left, h[n].right, h[m].parent, h[m].right, h[n].parent;
    && l != null && r != null && land != null && l in h && r in h && land in h
    && l != n && l != m && l != r && l != land && r != n
    && (m != r ==> land != n && land != m)
    && (x != null ==> x in h && x != n && x != m && x != l && x != r && x != land)
    && (up != null ==> up in h && up != n && up != m && up != l && up != r && up != land && up != x)
  }

  // The writes of tree_del for a node with two children, in the order of the code: first those that do
  // not depend on where the successor was.
  ghost function SpliceHead(h: Memory, n: TreeNode, m: TreeNode): (h4: Memory)
    requires SpliceReady(h, n, m)
    ensures h4.Keys == h.Keys && h4[m].parent == h[m].parent && h4[m].right == h[m].right
  {
    var l := h[n].left;
    var h1 := Replace(h, n, m);
    var h2 := h1[m := h1[m].(red := h[n].red)];
    var h3 := h2[m := h2[m].(left := l)];
    h3[l := h3[l].(parent := m)]
  }

  // The writes for a successor m deeper than the right child r.
  ghost function SpliceDeep(h: Memory, m: TreeNode, r: TreeNode, up: TreeNode?): (h2: Memory)
    requires m in h && r in h && h[m].parent != null && h[m].parent in h
    ensures h2.Keys == h.Keys
  {
    var land, x := h[m].parent, h[m].right;
    var h5 := h[m := h[m].(parent := up)];
    var h6 := h5[land := h5[land].(left := x)];
    var h7 := h6[m := h6[m].(right := r)];
    h7[r := h7[r].(parent := m)]
  }

  ghost function SplicePlace(h: Memory, m: TreeNode, r: TreeNode, up: TreeNode?): (h2: Memory)
    requires m in h && r in h && (m != r ==> h[m].parent != null && h[m].parent in h)
    ensures h2.Keys == h.Keys
  {
    if m == r then h[m := h[m].(parent := up)] else SpliceDeep(h, m, r, up)
  }

  ghost function SpliceWrites(h: Memory, n: TreeNode, m: TreeNode): (h2: Memory)
    requires SpliceReady(h, n, m)
    ensures h2.Keys == h.Keys
  {
    var h8 := SplicePlace(SpliceHead(h, n, m), m, h[n].right, h[n].parent);
    Adopt(h8, h[m].right, if m == h[n].right then m else h[m].parent)
  }

  ghost function SpliceMemory(h: Memory, n: TreeNode, m: TreeNode): (h2: Memory)
    requires SpliceReady(h, n, m)
    ensures h2.Keys == h.Keys - {n}
  {
    SpliceWrites(h, n, m) - {n}
  }

  // The same, cell by cell.
  ghost predicate Spliced(h: Memory, h2: Memory, n: TreeNode, m: TreeNode)
    requires SpliceReady(h, n, m)
  {
    var l, r, land, x, up := h[n].left, h[n].right, h[m].parent, h[m].right, h[n].parent;
    && h2.Keys == h.Keys - {n}
    && (up != null ==> h2[up] == h[up].WithKid(if h[up].left == n then Left else Right, m))
    && h2[m] == Cell(l, if m == r then x else r, up, h[m].key, h[n].red)
    && h2[l] == h[l].(parent := m)
    && (m != r ==> h2[r] == h[r].(parent := m, left := if r == land then x else h[r].left))
    && (m != r && land != r ==> h2[land] == h[land].(left := x))
    && (x != null ==> h2[x] == h[x].(parent := if m == r then m else land))
    && forall k | k in h && k != n && k != m && k != l && k != r && (m != r ==> k != land) && k != x && k != up :: h2[k] == h[k]
  }

  lemma SpliceCells(h: Memory, n: TreeNode, m: TreeNode)
    requires SpliceReady(h, n, m)
    ensures Spliced(h, SpliceMemory(h, n, m), n, m)
  {
  }

  // What the code holds when it starts to write.
  ghost predicate SpliceNames(h: Memory, f: seq<Frame>, t: Shape)
    requires TwoKids(t)
  {
    var m := MinOf(t.right);
    && SpliceReady(h, t.n, m.n)
    && h[t.n] == Cell(t.left.n, t.right.n, Up(f), t.key, t.red)
    && h[m.n].parent == (if t.right.left.Leaf? then t.n else AboveMin(t.right))
    && h[m.n].right == Ref(m.right) && h[m.n].key == m.key
    && (f != [] ==> Last(f).n in h && (h[Last(f).n].left == t.n <==> Last(f).side.Left?))
    && (m.n == t.right.n <==> t.right.left.Leaf?)
    && (t.right.left.Node? && t.right.left.left.Node? ==> AboveMin(t.right) != t.right.n)
  }

  lemma SpliceFinds(h: Memory, f: seq<Frame>, t: Shape)
    requires TwoKids(t) && Draws(h, Plug(f, t))
    ensures SpliceNames(h, f, t)
  {
    PlugLinked(h, f, t);
    PlugDistinct(f, t);
    PlugNodes(f, t);
    DistinctPathNodes(f, Nodes(t));
    if f != [] {
      LookUp(h, f, t);
      OwnInPath(f, |f| - 1);
      assert Last(f).n in PathNodes(f);
    }
    WithoutMinNodes(t.right);
    MinCell(h, t.right, t.n);
    var m := MinOf(t.right);
    assert t.left.n in Nodes(t.left) && t.right.n in Nodes(t.right);
    assert m.right.Node? ==> m.right.n in Nodes(m.right);
  }

  // Below the node: the cells draw the tree with the successor moved up.
  lemma SpliceLinked(h: Memory, h2: Memory, f: seq<Frame>, t: Shape)
    requires TwoKids(t) && SpliceNames(h, f, t) && Spliced(h, h2, t.n, MinOf(t.right).n)
    requires Linked(h, t, Up(f)) && Distinct(t) && Nodes(t) <= h.Keys && (f != [] ==> Last(f).n !in Nodes(t))
    ensures Linked(h2, Succeeded(t), Up(f))
  {
    var m := MinOf(t.right);
    WithoutMinNodes(t.right);
    MinCell(h, t.right, t.n);
    assert t.left.n in Nodes(t.left);
    assert m.right.Node? ==> m.right.n in Nodes(m.right);
    LinkedMoved(h, h2, t.left, t.n, m.n);
    if t.right.left.Leaf? {
      LinkedMoved(h, h2, m.right, m.n, m.n);
    } else {
      MinLeavesLinked(h, h2, t.right, t.n, m.n);
    }
  }

  lemma {:induction false} MinCell(h: Memory, r: Shape, up: TreeNode?)
    requires r.Node? && Linked(h, r, up)
    ensures var m := MinOf(r);
      && m.n in h && h[m.n].right == Ref(m.right) && h[m.n].key == m.key && Linked(h, m.right, m.n)
      && h[m.n].parent == (if r.left.Leaf? then up else AboveMin(r))
    decreases r
  {
    if r.left.Node? {
      MinCell(h, r.left, r.n);
    }
  }

  lemma SpliceDraws(h: Memory, f: seq<Frame>, t: Shape)
    requires TwoKids(t) && Draws(h, Plug(f, t))
    ensures SpliceNames(h, f, t)
    ensures Draws(SpliceMemory(h, t.n, MinOf(t.right).n), Plug(f, Succeeded(t)))
    ensures Ref(Plug(f, Succeeded(t))) == if h[t.n].parent == null then MinOf(t.right).n else Ref(Plug(f, t))
  {
    SpliceFinds(h, f, t);
    SpliceCells(h, t.n, MinOf(t.right).n);
    SpliceDrawn(h, SpliceMemory(h, t.n, MinOf(t.right).n), f, t);
    PlugRoot(f, t);
    PlugRoot(f, Succeeded(t));
  }

  lemma SplicePath(h: Memory, h2: Memory, f: seq<Frame>, t: Shape)
    requires TwoKids(t) && SpliceNames(h, f, t) && Spliced(h, h2, t.n, MinOf(t.right).n)
    requires PathLinked(h, f, t.n) && Distinct(t) && DistinctPath(f, Nodes(t))
    ensures PathLinked(h2, f, MinOf(t.right).n)
  {
    DistinctPathNodes(f, Nodes(t));
    PathInMemory(h, f, t.n);
    if f != [] {
      OwnInPath(f, |f| - 1);
      assert Last(f).n in PathNodes(f);
    }
    SucceededNodes(t);
    PathMoved(h, h2, f, t.n, MinOf(t.right).n, Nodes(t));
  }

  lemma SpliceDrawn(h: Memory, h2: Memory, f: seq<Frame>, t: Shape)
    requires TwoKids(t) && Draws(h, Plug(f, t))
    requires SpliceNames(h, f, t) && Spliced(h, h2, t.n, MinOf(t.right).n)
    ensures Draws(h2, Plug(f, Succeeded(t)))
  {
    var s := Succeeded(t);
    PlugLinked(h, f, t);
    PlugDistinct(f, t);
    PlugNodes(f, t);
    DistinctPathNodes(f, Nodes(t));
    if f != [] {
      OwnInPath(f, |f| - 1);
      assert Last(f).n in PathNodes(f);
    }
    SpliceLinked(h, h2, f, t);
    SucceededNodes(t);
    SplicePath(h, h2, f, t);
    DistinctFewer(f, Nodes(t), Nodes(s));
    PlugLinked(h2, f, s);
    PlugDistinct(f, s);
    PlugNodes(f, s);
    assert t.n in Nodes(t);
  }

  lemma SucceededNodes(t: Shape)
    requires TwoKids(t) && Distinct(t)
    ensures Distinct(Succeeded(t)) && Nodes(Succeeded(t)) == Nodes(t) - {t.n}
    ensures {MinOf(t.right).n, t.left.n, t.right.n, Landing(t)} <= Nodes(t)
    ensures MinOf(t.right).right.Node? ==> MinOf(t.right).right.n in Nodes(t)
  {
    WithoutMinNodes(t.right);
    var m := MinOf(t.right);
    assert t.left.n in Nodes(t.left) && (m.right.Node? ==> m.right.n in Nodes(m.right));
  }
}
