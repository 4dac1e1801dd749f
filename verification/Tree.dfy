/** tree_add, tree_del and tree_find of wepoll.c over linked nodes. */
module WepollTree {
  import opened TreeNodes
  import opened RedBlackShape
  import opened RedBlackInsert
  import opened RedBlackRemove
  import opened TreeLinks
  import opened TreeUnlink

  class Tree {
    var root: TreeNode?
    ghost var shape: Shape
    ghost var memory: Memory

    static ghost function Snap(n: TreeNode): Cell
      reads n
    {
      Cell(n.left, n.right, n.parent, n.key, n.red)
    }

    // `memory` is what the nodes hold.
    ghost predicate Matches()
      reads this, memory.Keys
    {
      forall n | n in memory.Keys :: Snap(n) == memory[n]
    }

    ghost predicate Valid()
      reads this, memory.Keys
    {
      Matches() && Draws(memory, shape) && root == Ref(shape)
    }

    // tree_init
    constructor ()
      ensures Valid() && shape == Leaf && memory == map[]
    {
      root := null;
      shape := Leaf;
      memory := map[];
    }

    // One pointer write, `node->side = kid`.
    method SetChild(node: TreeNode, side: Side, kid: TreeNode?)
      requires Matches() && node in memory
      modifies this`memory, node`left, node`right
      ensures memory == old(memory)[node := old(memory)[node].WithKid(side, kid)] && Matches()
    {
      if side.Left? {
        node.left := kid;
      } else {
        node.right := kid;
      }
      memory := memory[node := memory[node].WithKid(side, kid)];
    }

    // One pointer write, `node->parent = up`.
    method SetParent(node: TreeNode, up: TreeNode?)
      requires Matches() && node in memory
      modifies this`memory, node`parent
      ensures memory == old(memory)[node := old(memory)[node].(parent := up)] && Matches()
    {
      node.parent := up;
      memory := memory[node := memory[node].(parent := up)];
    }

    // The fields tree_add gives the new node.
    method SetLeaf(node: TreeNode, key: int, parent: TreeNode?)
      requires Matches()
      modifies this`memory, node
      ensures memory == old(memory)[node := Cell(null, null, parent, key, true)] && Matches()
    {
      node.key := key;
      node.left, node.right := null, null;
      node.parent := parent;
      node.red := true;
      memory := memory[node := Snap(node)];
    }

    // Makes `next` the child of the node's parent, or the root, in place of the node.
    method ReplaceChild(node: TreeNode, next: TreeNode?)
      requires Matches() && node in memory && (memory[node].parent != null ==> memory[node].parent in memory)
      modifies this`root, this`memory, node.parent
      ensures memory == Replace(old(memory), node, next) && Matches()
      ensures root == if old(memory)[node].parent == null then next else old(root)
    {
      var parent := node.parent;
      if parent != null {
        SetChild(parent, if parent.left == node then Left else Right, next);
      } else {
        root := next;
      }
    }

    method AdoptLinks(node: TreeNode?, parent: TreeNode?)
      requires Matches() && (node != null ==> node in memory)
      modifies this`memory, node
      ensures memory == Adopt(old(memory), node, parent) && Matches()
    {
      if node != null {
        SetParent(node, parent);
      }
    }

    method RotateLower(cis: Side, p: TreeNode, q: TreeNode, b: TreeNode?)
      requires Matches() && p in memory && q in memory && (b != null ==> b in memory)
      modifies this`memory, p, q, b
      ensures memory == RotateLowerMemory(old(memory), cis, p, q, b) && Matches()
    {
      hide Adopt;
      SetParent(p, q);
      SetChild(p, cis.Other(), b);
      AdoptLinks(b, p);
      SetChild(q, cis, p);
    }

    // TREE__ROTATE: the writes of tree__rotate_left and tree__rotate_right.
    method RotateLinks(cis: Side, node: TreeNode)
      requires Matches() && RotateReady(memory, cis, node)
      modifies this`root, this`memory, memory.Keys
      ensures memory == RotateMemory(old(memory), cis, node) && Matches()
      ensures root == if old(memory)[node].parent == null then old(memory)[node].Kid(cis.Other()) else old(root)
    {
      hide Replace, Adopt, RotateLowerMemory;
      var p := node;
      var q := node.Child(cis.Other());
      var parent := p.parent;
      var b := q.Child(cis);
      ReplaceChild(p, q);
      SetParent(q, parent);
      RotateLower(cis, p, q, b);
    }

    method RotateAt(cis: Side, node: TreeNode, ghost f: seq<Frame>, ghost t: Shape)
      requires Valid() && shape == Plug(f, t) && CanRotate(cis, t) && t.n == node
      modifies this, memory.Keys
      ensures Valid() && memory.Keys == old(memory.Keys)
      ensures shape == Plug(f, Rotate(cis, t))
    {
      hide Plug, Linked, Draws, Distinct, Nodes, RotateMemory, Rotate;
      RotateDraws(memory, cis, f, t);
      ghost var h2, s2 := RotateMemory(memory, cis, node), Plug(f, Rotate(cis, t));
      assert Draws(h2, s2) && h2.Keys == memory.Keys;
      RotateLinks(cis, node);
      assert memory == h2;
      shape := s2;
    }

    method Paint(node: TreeNode, red: bool, ghost f: seq<Frame>, ghost t: Shape)
      requires Valid() && shape == Plug(f, t) && t.Node? && t.n == node
      modifies this`shape, this`memory, memory.Keys
      ensures Valid() && memory.Keys == old(memory.Keys)
      ensures shape == Plug(f, t.(red := red))
    {
      hide Linked, Draws, Distinct, Nodes;
      RecolourDraws(memory, f, t, red);
      PlugRoot(f, t);
      PlugRoot(f, t.(red := red));
      node.red := red;
      memory := memory[node := memory[node].(red := red)];
      shape := Plug(f, t.(red := red));
    }

    // Paints the sibling of the place one below `up`.
    method PaintSibling(sibling: TreeNode, red: bool, ghost up: seq<Frame>, ghost F: Frame, ghost t: Shape)
      requires Valid() && shape == Plug(up, F.Over(t)) && F.sib.Node? && sibling == F.sib.n
      modifies this`shape, this`memory, memory.Keys
      ensures Valid() && memory.Keys == old(memory.Keys)
      ensures shape == Plug(up, F.(sib := F.sib.(red := red)).Over(t))
    {
      ghost var U := Frame(F.side.Other(), F.n, F.key, F.red, t);
      StepUp(up, U, F.sib);
      Paint(sibling, red, up + [U], F.sib);
      StepUp(up, U, F.sib.(red := red));
    }

    // TREE__REBALANCE_AFTER_INSERT, red uncle: blacken parent and uncle, redden the grandparent.
    method RecolourAt(parent: TreeNode, uncle: TreeNode, grandparent: TreeNode,
                      ghost up: seq<Frame>, ghost G: Frame, ghost F: Frame, ghost t: Shape)
      requires Valid() && shape == Plug(up, G.Over(F.Over(t)))
      requires G.sib.IsRed() && uncle == G.sib.n && parent == F.n && grandparent == G.n
      modifies this, memory.Keys
      ensures Valid() && memory.Keys == old(memory.Keys)
      ensures shape == Plug(up, Recolour(G, F, t))
    {
      hide Plug, Linked, Draws, Distinct, Nodes;
      StepUp(up, G, F.Over(t));
      Paint(parent, false, up + [G], F.Over(t));
      ghost var s := F.(red := false).Over(t);
      StepUp(up, G, s);
      PaintSibling(uncle, false, up, G, s);
      Paint(grandparent, true, up, G.(sib := G.sib.Blacken()).Over(s));
    }

    // TREE__REBALANCE_AFTER_INSERT, black uncle: the rotation that brings an inner node to the outer side.
    method StraightenAt(cis: Side, node: TreeNode, ghost f: seq<Frame>, ghost F: Frame, ghost t: Shape)
      returns (next: TreeNode, parent: TreeNode)
      requires Valid() && shape == Plug(f, F.Over(t)) && t.Node? && node == t.n
      modifies this, memory.Keys
      ensures Valid() && memory.Keys == old(memory.Keys)
      ensures var s := Straighten(cis, F, t); shape == Plug(f, s) && parent == s.n && next == s.Kid(cis).n
    {
      hide Plug, Linked, Draws, Distinct, Nodes;
      StepUp(f, F, t);
      Look(memory, f + [F], t);
      Look(memory, f, F.Over(t));
      next := node;
      parent := node.parent;
      if node == parent.Child(cis.Other()) {
        RotateAt(cis, parent, f, F.Over(t));
        next := parent;
        ghost var s := Rotate(cis, F.Over(t));
        ghost var S := Frame(cis, s.n, s.key, s.red, s.Kid(cis.Other()));
        StepUp(f, S, s.Kid(cis));
        Look(memory, f + [S], s.Kid(cis));
        parent := next.parent;
      }
    }

    // TREE__REBALANCE_AFTER_INSERT, black uncle: one or two rotations. Returns the node the loop goes on with.
    method RestoreAt(cis: Side, node: TreeNode, grandparent: TreeNode,
                     ghost up: seq<Frame>, ghost G: Frame, ghost F: Frame, ghost t: Shape)
      returns (next: TreeNode)
      requires Valid() && shape == Plug(up, G.Over(F.Over(t)))
      requires t.Node? && node == t.n && grandparent == G.n && cis == G.side
      modifies this, memory.Keys
      ensures Valid() && memory.Keys == old(memory.Keys)
      ensures shape == Plug(up, Restore(G, F, t))
      ensures next == Straighten(cis, F, t).Kid(cis).n
    {
      StepUp(up, G, F.Over(t));
      var parent;
      next, parent := StraightenAt(cis, node, up + [G], F, t);
      RestoreUpper(cis, parent, grandparent, up, G, Straighten(cis, F, t));
    }

    method RestoreUpper(cis: Side, parent: TreeNode, grandparent: TreeNode,
                        ghost up: seq<Frame>, ghost G: Frame, ghost s: Shape)
      requires Valid() && shape == Plug(up + [G], s)
      requires s.Node? && parent == s.n && grandparent == G.n && cis == G.side
      modifies this, memory.Keys
      ensures Valid() && memory.Keys == old(memory.Keys)
      ensures shape == Plug(up, Rotate(cis.Other(), G.(red := true).Over(s.Blacken())))
    {
      hide Plug, Linked, Draws, Distinct, Nodes;
      Paint(parent, false, up + [G], s);
      StepUp(up, G, s.Blacken());
      Paint(grandparent, true, up, G.Over(s.Blacken()));
      RotateAt(cis.Other(), grandparent, up, G.(red := true).Over(s.Blacken()));
    }

    // TREE__REBALANCE_AFTER_INSERT: one turn of the fix-up loop. Returns the node the loop goes on with.
    method RebalanceAfterInsert(cis: Side, node: TreeNode, parent: TreeNode,
                                ghost up: seq<Frame>, ghost G: Frame, ghost F: Frame, ghost t: Shape)
      returns (next: TreeNode, ghost f2: seq<Frame>, ghost t2: Shape)
      requires Valid() && shape == Plug(up + [G] + [F], t)
      requires t.Node? && node == t.n && parent == F.n && cis == G.side && F.red && BlackTop(up + [G] + [F])
      modifies this, memory.Keys
      ensures Valid() && memory.Keys == old(memory.Keys)
      ensures shape == Plug(f2, t2) && t2.Node? && next == t2.n && BlackTop(f2)
      ensures FixInsert(f2, t2) == FixInsert(up + [G] + [F], t) && |f2| < |up| + 2
    {
      StepUp(up + [G], F, t);
      StepUp(up, G, F.Over(t));
      LookUp(memory, up + [G] + [F], t);
      LookUp(memory, up + [G], F.Over(t));
      var grandparent := parent.parent;
      var uncle := grandparent.Child(cis.Other());
      if uncle != null && uncle.red {
        RecolourAt(parent, uncle, grandparent, up, G, F, t);
        next := grandparent;
        f2, t2 := up, Recolour(G, F, t);
        assert BlackTop(f2) by { assert up != [] ==> (up + [G] + [F])[0] == up[0]; }
      } else {
        next := RestoreAt(cis, node, grandparent, up, G, F, t);
        ghost var place := AfterRestore(up, G, F, t);
        f2, t2 := place.0, place.1;
        AfterRestorePlugs(up, G, F, t);
      }
    }

    // The search loop of tree_add: the node holding the key, or the node and side where it belongs.
    method Descend(key: int) returns (found: bool, parent: TreeNode?, side: Side, ghost f: seq<Frame>)
      requires Valid()
      ensures found <==> Locate([], shape, key).1.Node?
      ensures !found ==> (f, Leaf) == Locate([], shape, key) && parent == Up(f)
      ensures !found && f != [] ==> side == Last(f).side
    {
      hide Linked, Draws, Distinct, Nodes;
      ghost var t := shape;
      f := [];
      parent := root;
      side := Left;
      if parent == null {
        return false, null, Left, [];
      }
      while true
        invariant parent != null && shape == Plug(f, t) && t.Node? && parent == t.n
        invariant Locate([], shape, key) == Locate(f, t, key)
        decreases t
      {
        Look(memory, f, t);
        if key == parent.key {
          return true, parent, Left, f;
        }
        side := if key < parent.key then Left else Right;
        ghost var F := Frame(side, t.n, t.key, t.red, t.Kid(side.Other()));
        StepUp(f, F, t.Kid(side));
        f, t := f + [F], t.Kid(side);
        if parent.Child(side) == null {
          return false, parent, side, f;
        }
        parent := parent.Child(side);
      }
    }

    // Hangs the node, red, in the empty place f.
    method Hang(node: TreeNode, key: int, parent: TreeNode?, side: Side, ghost f: seq<Frame>)
      requires Valid() && shape == Plug(f, Leaf) && node !in memory
      requires parent == Up(f) && (f != [] ==> side == Last(f).side)
      modifies this, memory.Keys, node
      ensures Valid() && memory.Keys == old(memory.Keys) + {node}
      ensures shape == Plug(f, Node(node, key, true, Leaf, Leaf))
    {
      hide Plug, Linked, Draws, Distinct, Nodes;
      LeafDraws(memory, f, node, key);
      ghost var h2, s2 := LeafMemory(memory, f, node, key), Plug(f, RedBlackShape.Node(node, key, true, Leaf, Leaf));
      if parent != null {
        SetChild(parent, side, node);
      } else {
        root := node;
      }
      SetLeaf(node, key, parent);
      assert memory == h2;
      shape := s2;
    }

    // One turn of the fix-up loop, seen from the node and its red parent.
    method InsertTurn(node: TreeNode, parent: TreeNode, ghost f: seq<Frame>, ghost t: Shape)
      returns (next: TreeNode, ghost f2: seq<Frame>, ghost t2: Shape)
      requires Valid() && shape == Plug(f, t) && t.Node? && node == t.n && BlackTop(f)
      requires f != [] && parent == Last(f).n && Last(f).red
      modifies this, memory.Keys
      ensures Valid() && memory.Keys == old(memory.Keys)
      ensures shape == Plug(f2, t2) && t2.Node? && next == t2.n && BlackTop(f2)
      ensures FixInsert(f2, t2) == FixInsert(f, t) && |f2| < |f|
    {
      LookUp(memory, f, t);
      ghost var F, up1 := Last(f), Init(f);
      StepUp(up1, F, t);
      assert f == up1 + [F];
      LookUp(memory, up1, F.Over(t));
      ghost var G, up2 := Last(up1), Init(up1);
      assert up1 == up2 + [G];
      var cis := if parent == parent.parent.left then Left else Right;
      next, f2, t2 := RebalanceAfterInsert(cis, node, parent, up2, G, F, t);
    }

    // The fix-up loop of tree_add.
    method FixAfterInsert(first: TreeNode, ghost f0: seq<Frame>, ghost t0: Shape)
      requires Valid() && shape == Plug(f0, t0) && t0.Node? && first == t0.n && BlackTop(f0)
      modifies this, memory.Keys
      ensures Valid() && memory.Keys == old(memory.Keys)
      ensures shape == FixInsert(f0, t0)
    {
      hide Linked, Draws, Distinct, Nodes, FixInsert, Plug;
      ghost var f, t := f0, t0;
      Look(memory, f, t);
      var node := first;
      var parent := node.parent;
      while parent != null && parent.red
        invariant Valid() && memory.Keys == old(memory.Keys)
        invariant shape == Plug(f, t) && t.Node? && node == t.n && parent == Up(f) && BlackTop(f)
        invariant FixInsert(f, t) == FixInsert(f0, t0)
        decreases |f|
      {
        LookUp(memory, f, t);
        node, f, t := InsertTurn(node, parent, f, t);
        Look(memory, f, t);
        parent := node.parent;
      }
      if f != [] {
        LookUp(memory, f, t);
      }
      PlugRoot(f, t);
      FixInsertDone(f, t);
      PlugNil(t);
      PlugNil(shape);
      PlugNil(shape.(red := false));
      Paint(root, false, [], shape);
    }

    // tree_add: -1 on a key that is there already, 0 otherwise.
    method Add(node: TreeNode, key: int) returns (r: int)
      requires Valid() && !shape.IsRed() && node !in memory
      modifies this, memory.Keys, node
      ensures Valid()
      ensures Locate([], old(shape), key).1.Node? ==>
        r == -1 && shape == old(shape) && memory == old(memory) && Snap(node) == old(Snap(node))
      ensures Locate([], old(shape), key).1.Leaf? ==>
        r == 0 && shape == Insert(old(shape), node, key) && memory.Keys == old(memory.Keys) + {node}
    {
      var found, parent, side, f := Descend(key);
      if found {
        return -1;
      }
      PlugRoot(f, Leaf);
      Hang(node, key, parent, side, f);
      FixAfterInsert(node, f, RedBlackShape.Node(node, key, true, Leaf, Leaf));
      return 0;
    }

    // The successor loop of tree_del: the leftmost node below `right`.
    method FindNext(right: TreeNode, ghost g: seq<Frame>, ghost r: Shape) returns (next: TreeNode)
      requires Valid() && shape == Plug(g, r) && r.Node? && right == r.n
      ensures next == MinOf(r).n
    {
      ghost var f, t := g, r;
      next := right;
      Look(memory, f, t);
      while next.left != null
        invariant shape == Plug(f, t) && t.Node? && next == t.n && next in memory && next.left == Ref(t.left)
        invariant MinOf(t) == MinOf(r)
        decreases t
      {
        ghost var F := Frame(Left, t.n, t.key, t.red, t.right);
        StepUp(f, F, t.left);
        next := next.left;
        f, t := f + [F], t.left;
        Look(memory, f, t);
      }
    }

    // tree_del, a node with at most one child: that child takes its place.
    method BypassLinks(node: TreeNode) returns (next: TreeNode?)
      requires Matches() && BypassReady(memory, node)
      modifies this`root, this`memory, memory.Keys
      ensures memory == BypassMemory(old(memory), node) && Matches()
      ensures next == OnlyKidCell(old(memory)[node])
      ensures root == if old(memory)[node].parent == null then next else old(root)
    {
      var parent := node.parent;
      next := if node.left == null then node.right else node.left;
      ReplaceChild(node, next);
      AdoptLinks(next, parent);
      memory := memory - {node};
    }

    method BypassAt(node: TreeNode, ghost f: seq<Frame>, ghost t: Shape) returns (next: TreeNode?)
      requires Valid() && shape == Plug(f, t) && t.Node? && node == t.n && !TwoKids(t)
      modifies this, memory.Keys
      ensures Valid() && memory.Keys == old(memory.Keys) - {node}
      ensures shape == Plug(f, OnlyKid(t)) && next == Ref(OnlyKid(t))
    {
      hide Plug, Linked, Draws, Distinct, Nodes, BypassMemory;
      BypassDraws(memory, f, t);
      next := BypassLinks(node);
      shape := Plug(f, OnlyKid(t));
    }

    method SetRed(node: TreeNode, red: bool)
      requires Matches() && node in memory
      modifies this`memory, node`red
      ensures memory == old(memory)[node := old(memory)[node].(red := red)] && Matches()
    {
      node.red := red;
      memory := memory[node := memory[node].(red := red)];
    }

    method SpliceHeadLinks(node: TreeNode, next: TreeNode)
      requires Matches() && SpliceReady(memory, node, next)
      modifies this`root, this`memory, node.parent, next, node.left
      ensures memory == SpliceHead(old(memory), node, next) && Matches()
      ensures root == if old(memory)[node].parent == null then next else old(root)
    {
      var left, red := node.left, node.red;
      ReplaceChild(node, next);
      SetRed(next, red);
      SetChild(next, Left, left);
      SetParent(left, next);
    }

    method SpliceDeepLinks(next: TreeNode, right: TreeNode, up: TreeNode?) returns (parent: TreeNode, child: TreeNode?)
      requires Matches() && next in memory && right in memory
      requires memory[next].parent != null && memory[next].parent in memory && memory[next].parent != next
      modifies this`memory, next, right, next.parent
      ensures memory == SpliceDeep(old(memory), next, right, up) && Matches()
      ensures parent == old(memory)[next].parent && child == old(memory)[next].right
    {
      parent := next.parent;
      SetParent(next, up);
      child := next.right;
      SetChild(parent, Left, child);
      SetChild(next, Right, right);
      SetParent(right, next);
    }

    method SplicePlaceLinks(next: TreeNode, right: TreeNode, up: TreeNode?) returns (parent: TreeNode, child: TreeNode?)
      requires Matches() && next in memory && right in memory
      requires next != right ==>
        memory[next].parent != null && memory[next].parent in memory && memory[next].parent != next
      modifies this`memory, next, right, next.parent
      ensures memory == SplicePlace(old(memory), next, right, up) && Matches()
      ensures parent == if next == right then next else old(memory)[next].parent
      ensures child == old(memory)[next].right
    {
      if next != right {
        parent, child := SpliceDeepLinks(next, right, up);
      } else {
        SetParent(next, up);
        parent := next;
        child := next.right;
      }
    }

    method SpliceWritesLinks(node: TreeNode, next: TreeNode) returns (parent: TreeNode, child: TreeNode?)
      requires Matches() && SpliceReady(memory, node, next)
      modifies this`root, this`memory, memory.Keys
      ensures memory == SpliceWrites(old(memory), node, next) && Matches()
      ensures child == old(memory)[next].right
      ensures parent == if next == old(memory)[node].right then next else old(memory)[next].parent
      ensures root == if old(memory)[node].parent == null then next else old(root)
    {
      hide SpliceHead, SplicePlace, Adopt, SpliceDeep;
      var right, up := node.right, node.parent;
      SpliceHeadLinks(node, next);
      parent, child := SplicePlaceLinks(next, right, up);
      AdoptLinks(child, parent);
    }

    // tree_del, a node with two children: its successor `next` takes its place. Returns the place the
    // successor left, as a parent and the subtree now hanging there.
    method SpliceLinks(node: TreeNode, next: TreeNode) returns (parent: TreeNode, child: TreeNode?)
      requires Matches() && SpliceReady(memory, node, next)
      modifies this`root, this`memory, memory.Keys
      ensures memory == SpliceMemory(old(memory), node, next) && Matches()
      ensures child == old(memory)[next].right
      ensures parent == if next == old(memory)[node].right then next else old(memory)[next].parent
      ensures root == if old(memory)[node].parent == null then next else old(root)
    {
      parent, child := SpliceWritesLinks(node, next);
      memory := memory - {node};
    }

    method SpliceAt(node: TreeNode, next: TreeNode, ghost f: seq<Frame>, ghost t: Shape)
      returns (parent: TreeNode, child: TreeNode?)
      requires Valid() && shape == Plug(f, t) && TwoKids(t) && node == t.n && next == MinOf(t.right).n
      modifies this, memory.Keys
      ensures Valid() && memory.Keys == old(memory.Keys) - {node}
      ensures shape == Plug(f, Succeeded(t)) && parent == Landing(t) && child == Ref(MinOf(t.right).right)
    {
      hide Plug, Linked, Draws, Distinct, Nodes, SpliceMemory, Succeeded;
      SpliceDraws(memory, f, t);
      parent, child := SpliceLinks(node, next);
      shape := Plug(f, Succeeded(t));
    }

    // TREE__REBALANCE_AFTER_REMOVE, red sibling: rotate it above the parent.
    method UncoverAt(cis: Side, parent: TreeNode, sibling: TreeNode, ghost up: seq<Frame>, ghost F: Frame, ghost t: Shape)
      requires Valid() && shape == Plug(up, F.Over(t)) && F.sib.IsRed()
      requires cis == F.side && parent == F.n && sibling == F.sib.n
      modifies this, memory.Keys
      ensures Valid() && memory.Keys == old(memory.Keys)
      ensures var (Q, P) := Uncover(F); shape == Plug(up + [Q], P.Over(t))
    {
      hide Plug, Linked, Draws, Distinct, Nodes;
      PaintSibling(sibling, false, up, F, t);
      ghost var F1 := F.(sib := F.sib.(red := false));
      Paint(parent, true, up, F1.Over(t));
      RotateAt(cis, parent, up, F1.(red := true).Over(t));
      ghost var (Q, P) := Uncover(F);
      StepUp(up, Q, P.Over(t));
    }

    // Paints a child of the subtree s.
    method PaintKid(kid: TreeNode, side: Side, red: bool, ghost f: seq<Frame>, ghost s: Shape)
      requires Valid() && shape == Plug(f, s) && s.Node? && s.Kid(side).Node? && kid == s.Kid(side).n
      modifies this`shape, this`memory, memory.Keys
      ensures Valid() && memory.Keys == old(memory.Keys)
      ensures shape == Plug(f, s.WithKid(side, s.Kid(side).(red := red)))
    {
      hide Plug, Linked, Draws, Distinct, Nodes;
      ghost var F := Frame(side.Other(), s.n, s.key, s.red, s.Kid(side));
      assert F.Over(s.Kid(side.Other())) == s;
      PaintSibling(kid, red, f, F, s.Kid(side.Other()));
    }

    // TREE__REBALANCE_AFTER_REMOVE, far child of the sibling black: rotate the sibling away.
    method TurnSibling(cis: Side, sibling: TreeNode, ghost g: seq<Frame>, ghost s: Shape)
      requires Valid() && shape == Plug(g, s) && s.Node? && sibling == s.n && s.Kid(cis).Node?
      modifies this, memory.Keys
      ensures Valid() && memory.Keys == old(memory.Keys)
      ensures shape == Plug(g, Rotate(cis.Other(), s.(red := true).WithKid(cis, s.Kid(cis).Blacken())))
    {
      hide Plug, Linked, Draws, Distinct, Nodes;
      Look(memory, g, s);
      PaintKid(sibling.Child(cis), cis, false, g, s);
      ghost var s1 := s.WithKid(cis, s.Kid(cis).Blacken());
      Paint(sibling, true, g, s1);
      RotateAt(cis.Other(), sibling, g, s1.(red := true));
    }

    // TREE__REBALANCE_AFTER_REMOVE, far child of the sibling red: rotate the sibling above the parent.
    method LiftSibling(cis: Side, parent: TreeNode, sibling: TreeNode, ghost up: seq<Frame>, ghost F: Frame, ghost t: Shape)
      requires Valid() && shape == Plug(up, F.Over(t)) && F.sib.Node? && F.sib.Kid(cis.Other()).Node?
      requires cis == F.side && parent == F.n && sibling == F.sib.n
      modifies this, memory.Keys
      ensures Valid() && memory.Keys == old(memory.Keys)
      ensures shape == Plug(up, Rotate(cis, F.(red := false, sib :=
        F.sib.(red := F.red).WithKid(cis.Other(), F.sib.Kid(cis.Other()).Blacken())).Over(t)))
    {
      hide Plug, Linked, Draws, Distinct, Nodes;
      Look(memory, up, F.Over(t));
      PaintSibling(sibling, parent.red, up, F, t);
      ghost var F1 := F.(sib := F.sib.(red := F.red));
      Paint(parent, false, up, F1.Over(t));
      BlackenFar(cis, sibling, up, F1.(red := false), t);
      ghost var s2 := F1.sib.WithKid(cis.Other(), F1.sib.Kid(cis.Other()).Blacken());
      RotateAt(cis, parent, up, F1.(red := false, sib := s2).Over(t));
    }

    method BlackenFar(cis: Side, sibling: TreeNode, ghost up: seq<Frame>, ghost F: Frame, ghost t: Shape)
      requires Valid() && shape == Plug(up, F.Over(t)) && F.sib.Node? && F.sib.Kid(cis.Other()).Node?
      requires cis == F.side && sibling == F.sib.n
      modifies this, memory.Keys
      ensures Valid() && memory.Keys == old(memory.Keys)
      ensures shape == Plug(up, F.(sib := F.sib.WithKid(cis.Other(), F.sib.Kid(cis.Other()).Blacken())).Over(t))
    {
      hide Plug, Linked, Draws, Distinct, Nodes;
      ghost var U := Frame(cis.Other(), F.n, F.key, F.red, t);
      StepUp(up, U, F.sib);
      Look(memory, up + [U], F.sib);
      PaintKid(sibling.Child(cis.Other()), cis.Other(), false, up + [U], F.sib);
      StepUp(up, U, F.sib.WithKid(cis.Other(), F.sib.Kid(cis.Other()).Blacken()));
    }

    // TREE__REBALANCE_AFTER_REMOVE, the sibling has a red child.
    method BorrowAt(cis: Side, parent: TreeNode, sibling0: TreeNode, ghost up: seq<Frame>, ghost F: Frame, ghost t: Shape)
      requires Valid() && shape == Plug(up, F.Over(t)) && F.sib.Node? && (F.sib.left.IsRed() || F.sib.right.IsRed())
      requires cis == F.side && parent == F.n && sibling0 == F.sib.n
      modifies this, memory.Keys
      ensures Valid() && memory.Keys == old(memory.Keys)
      ensures shape == Plug(up, Borrow(F, t))
    {
      hide Plug, Linked, Draws, Distinct, Nodes;
      var trans, sibling := cis.Other(), sibling0;
      ghost var U, s := Frame(trans, F.n, F.key, F.red, t), F.sib;
      StepUp(up, U, s);
      Look(memory, up + [U], s);
      LookDown(memory, up + [U], s);
      if sibling.Child(trans) == null || !sibling.Child(trans).red {
        TurnSibling(cis, sibling, up + [U], s);
        s := Rotate(trans, s.(red := true).WithKid(cis, s.Kid(cis).Blacken()));
        StepUp(up, U, s);
        Look(memory, up, F.(sib := s).Over(t));
        sibling := parent.Child(trans);
      }
      LiftSibling(cis, parent, sibling, up, F.(sib := s), t);
    }

    // TREE__REBALANCE_AFTER_REMOVE with a black sibling. Stops when a rotation has made up for the loss.
    method SettleAt(cis: Side, parent: TreeNode, sibling: TreeNode, ghost up: seq<Frame>, ghost F: Frame, ghost t: Shape)
      returns (stop: bool)
      requires Valid() && shape == Plug(up, F.Over(t)) && F.sib.Node?
      requires cis == F.side && parent == F.n && sibling == F.sib.n
      modifies this, memory.Keys
      ensures Valid() && memory.Keys == old(memory.Keys)
      ensures stop <==> F.sib.left.IsRed() || F.sib.right.IsRed()
      ensures shape == Plug(up, if stop then Borrow(F, t) else F.(sib := F.sib.(red := true)).Over(t))
    {
      hide Plug, Linked, Draws, Distinct, Nodes, Borrow;
      ghost var U := Frame(cis.Other(), F.n, F.key, F.red, t);
      StepUp(up, U, F.sib);
      Look(memory, up + [U], F.sib);
      LookDown(memory, up + [U], F.sib);
      stop := (sibling.left != null && sibling.left.red) || (sibling.right != null && sibling.right.red);
      if stop {
        BorrowAt(cis, parent, sibling, up, F, t);
      } else {
        PaintSibling(sibling, true, up, F, t);
      }
    }

    method SiblingOf(cis: Side, parent: TreeNode, ghost up: seq<Frame>, ghost F: Frame, ghost t: Shape)
      returns (sibling: TreeNode?)
      requires Valid() && shape == Plug(up, F.Over(t)) && cis == F.side && parent == F.n
      ensures sibling == Ref(F.sib)
    {
      hide Plug, Linked, Draws, Distinct, Nodes;
      Look(memory, up, F.Over(t));
      sibling := parent.Child(cis.Other());
    }

    // TREE__REBALANCE_AFTER_REMOVE as a whole. Returns the parent frame and place it ends at; `ok` is false where
    // the source would read through a sibling that is not there.
    method RebalanceAfterRemove(node: TreeNode?, parent: TreeNode, ghost f: seq<Frame>, ghost t: Shape)
      returns (ok: bool, stop: bool, ghost up2: seq<Frame>, ghost F2: Frame)
      requires Valid() && shape == Plug(f, t) && node == Ref(t) && f != [] && parent == Last(f).n
      modifies this, memory.Keys
      ensures Valid() && memory.Keys == old(memory.Keys)
      ensures F2.n == parent && (!F2.red ==> up2 + [F2] == f)
      ensures FixRemove(f, t, true) == Settle(up2, F2, t) && (ok <==> F2.sib.Node?)
      ensures ok ==> (stop <==> F2.sib.left.IsRed() || F2.sib.right.IsRed())
      ensures ok ==> shape == Plug(up2, if stop then Borrow(F2, t) else F2.(sib := F2.sib.(red := true)).Over(t))
    {
      hide Plug, Linked, Draws, Distinct, Nodes, Borrow, Settle, FixRemove;
      ghost var F, up := Last(f), Init(f);
      FixRemoveStep(f, t);
      assert f == up + [F];
      StepUp(up, F, t);
      LookUp(memory, f, t);
      var cis := if node == parent.left then Left else Right;
      var sibling := parent.Child(cis.Other());
      up2, F2 := up, F;
      ok, stop := sibling != null, false;
      if !ok {
        return;
      }
      if sibling.red {
        UncoverAt(cis, parent, sibling, up, F, t);
        ghost var lower := Uncover(F);
        up2, F2 := up + [lower.0], lower.1;
        var next := SiblingOf(cis, parent, up2, F2, t);
        ok := next != null;
        if !ok {
          return;
        }
        sibling := next;
      }
      stop := SettleAt(cis, parent, sibling, up2, F2, t);
    }

    // One turn of the closing loop of tree_del, below the root. On a stop, what is left to do is to
    // blacken the returned node.
    method RemoveTurn(node: TreeNode?, parent: TreeNode, two: bool, ghost f: seq<Frame>, ghost t: Shape)
      returns (ok: bool, stop: bool, node2: TreeNode, ghost g: seq<Frame>, ghost s: Shape)
      requires Valid() && shape == Plug(f, t) && node == Ref(t) && f != [] && parent == Last(f).n
      modifies this, memory.Keys
      ensures Valid() && memory.Keys == old(memory.Keys)
      ensures !ok ==> FixRemove(f, t, two).NoSibling?
      ensures ok ==> shape == Plug(g, s) && s.Node? && node2 == s.n
      ensures ok && stop ==> FixRemove(f, t, two) == Done(Plug(g, s.Blacken()))
      ensures ok && !stop ==> |g| < |f| && FixRemove(f, t, two) == FixRemove(g, s, two)
    {
      hide Linked, Draws, Distinct, Nodes, Borrow;
      var done := false;
      ghost var up, F := Init(f), Last(f);
      StepUp(up, F, t);
      assert f == up + [F];
      ok, stop, node2, g, s := true, false, parent, f, t;
      if two {
        ok, done, up, F := RebalanceAfterRemove(node, parent, f, t);
        if !ok {
          return;
        }
        StepUp(up, F, t);
        if done {
          BorrowNode(F, t);
          PlugRoot(up, Borrow(F, t));
          return true, true, root, [], shape;
        }
        F := F.(sib := F.sib.(red := true));
      }
      g, s := up, F.Over(t);
      Look(memory, g, s);
      stop := node2.red;
    }

    // The closing loop of tree_del, from the place (f0, t0) that is one black node short.
    method FixAfterRemove(node0: TreeNode?, parent0: TreeNode?, two: bool, ghost f0: seq<Frame>, ghost t0: Shape)
      returns (ok: bool)
      requires Valid() && shape == Plug(f0, t0) && node0 == Ref(t0) && parent0 == Up(f0)
      modifies this, memory.Keys
      ensures Valid() && memory.Keys == old(memory.Keys)
      ensures ok <==> FixRemove(f0, t0, two).Done?
      ensures ok ==> shape == FixRemove(f0, t0, two).shape
    {
      hide Linked, Draws, Distinct, Nodes, FixRemove;
      var node, parent := node0, parent0;
      ghost var f, t := f0, t0;
      var stop := false;
      ok := true;
      while !stop
        invariant Valid() && memory.Keys == old(memory.Keys)
        invariant shape == Plug(f, t) && node == Ref(t)
        invariant stop ==> FixRemove(f0, t0, two) == Done(Plug(f, t.Blacken()))
        invariant !stop ==> parent == Up(f) && FixRemove(f, t, two) == FixRemove(f0, t0, two)
        decreases if stop then 0 else 1 + |f|
      {
        RootPlace(memory, f, t);
        if node == root {
          FixRemoveRoot(t, two);
          break;
        }
        ok, stop, node, f, t := RemoveTurn(node, parent, two, f, t);
        if !ok {
          return;
        }
        Look(memory, f, t);
        parent := node.parent;
      }
      if node != null {
        Paint(node, false, f, t);
      }
    }

    // What is left of tree_del once the node is out: nothing, one blackened node, or the closing loop.
    method FinishRemove(node: TreeNode?, parent: TreeNode?, red: bool, two: bool, ghost f: seq<Frame>, ghost t: Shape)
      returns (ok: bool)
      requires Valid() && shape == Plug(f, t) && node == Ref(t) && parent == Up(f)
      modifies this, memory.Keys
      ensures Valid() && memory.Keys == old(memory.Keys)
      ensures ok <==> Finish(f, t, red, two).Done?
      ensures ok ==> shape == Finish(f, t, red, two).shape
    {
      hide Linked, Draws, Distinct, Nodes, FixRemove, Plug;
      if red {
        return true;
      }
      if t.Node? {
        Look(memory, f, t);
      }
      if node != null && node.red {
        Paint(node, false, f, t);
        ok := true;
      } else {
        ok := FixAfterRemove(node, parent, two, f, t);
      }
    }

    // tree_del, of any node of any tree. It fails exactly as `Remove` says, with the links agreeing even then.
    method Del(node: TreeNode) returns (ok: bool)
      requires Valid() && node in memory
      modifies this, memory.Keys
      ensures Valid() && memory.Keys == old(memory.Keys) - {node}
      ensures var place := Focus([], old(shape), node);
        && (ok <==> Remove(place.0, place.1).Done?) && (ok <==> !Stuck(place.0, place.1))
        && (ok ==> shape == Remove(place.0, place.1).shape)
    {
      hide Linked, Distinct, Nodes, FixRemove, Finish, LeftSpine, MinOf, Stuck;
      ghost var place := Focus([], shape, node);
      ghost var f, t := place.0, place.1;
      RemoveExactly(f, t);
      Look(memory, f, t);
      var parent, right := node.parent, node.right;
      if node.left == null || right == null {
        var red := node.red;
        var next := BypassAt(node, f, t);
        ok := FinishRemove(next, parent, red, false, f, OnlyKid(t));
      } else {
        ghost var m := MinOf(t.right);
        ghost var F := Frame(Right, t.n, t.key, t.red, t.left);
        StepUp(f, F, t.right);
        var next := FindNext(right, f + [F], t.right);
        MinLook(memory, f, t);
        var red := next.red;
        var child;
        SucceededPlugs(f, t);
        parent, child := SpliceAt(node, next, f, t);
        ok := FinishRemove(child, parent, red, true, LeftSpine(Stead(f, t), t.right), m.right);
      }
    }

    // tree_find
    method Find(key: int) returns (node: TreeNode?)
      requires Valid()
      ensures node == Ref(Locate([], shape, key).1)
      ensures node != null ==> node in memory && node.key == key
    {
      hide Linked, Draws, Distinct, Nodes;
      ghost var f, t := [], shape;
      node := root;
      while node != null
        invariant shape == Plug(f, t) && node == Ref(t)
        invariant Locate([], shape, key) == Locate(f, t, key)
        decreases t
      {
        Look(memory, f, t);
        if key == node.key {
          return;
        }
        var side := if key < node.key then Left else Right;
        ghost var F := Frame(side, t.n, t.key, t.red, t.Kid(side.Other()));
        StepUp(f, F, t.Kid(side));
        f, t := f + [F], t.Kid(side);
        node := node.Child(side);
      }
    }
  }

  lemma BorrowNode(F: Frame, t: Shape)
    requires F.sib.Node? && (F.sib.left.IsRed() || F.sib.right.IsRed())
    ensures Borrow(F, t).Node?
  {
  }

  lemma FixRemoveRoot(t: Shape, two: bool)
    ensures FixRemove([], t, two) == Done(t.Blacken())
  {
  }

  lemma FixRemoveStep(f: seq<Frame>, t: Shape)
    requires f != []
    ensures var F, up := Last(f), Init(f);
      && (!F.sib.IsRed() ==> FixRemove(f, t, true) == Settle(up, F, t))
      && (F.sib.IsRed() ==> FixRemove(f, t, true) == Settle(up + [Uncover(F).0], Uncover(F).1, t))
  {
  }

  // The code tells the root from other places by comparing pointers.
  lemma RootPlace(h: Memory, f: seq<Frame>, t: Shape)
    requires Draws(h, Plug(f, t))
    ensures Ref(t) == Ref(Plug(f, t)) <==> f == []
  {
    PlugRoot(f, t);
    if t.Node? {
      Look(h, f, t);
    }
  }

  // Where in the shape a node stands.
  ghost function Focus(f: seq<Frame>, t: Shape, n: TreeNode): (place: (seq<Frame>, Shape))
    requires n in Nodes(t)
    ensures Plug(place.0, place.1) == Plug(f, t) && place.1.Node? && place.1.n == n
    decreases t
  {
    if t.n == n then (f, t)
    else
      var side := if n in Nodes(t.left) then Left else Right;
      var F := Frame(side, t.n, t.key, t.red, t.Kid(side.Other()));
      StepUp(f, F, t.Kid(side));
      Focus(f + [F], t.Kid(side), n)
  }

  lemma MinLook(h: Memory, f: seq<Frame>, t: Shape)
    requires TwoKids(t) && Draws(h, Plug(f, t))
    ensures MinOf(t.right).n in h && h[MinOf(t.right).n].red == MinOf(t.right).red
  {
    var F := Frame(Right, t.n, t.key, t.red, t.left);
    StepUp(f, F, t.right);
    Look(h, LeftSpine(f + [F], t.right), MinOf(t.right));
  }

  // The place of the node RestoreAt returns.
  ghost function AfterRestore(up: seq<Frame>, G: Frame, F: Frame, t: Shape): (seq<Frame>, Shape)
    requires t.Node?
  {
    var s := Restore(G, F, t);
    (up + [Frame(G.side, s.n, s.key, s.red, s.Kid(G.side.Other()))], s.Kid(G.side))
  }

  lemma AfterRestorePlugs(up: seq<Frame>, G: Frame, F: Frame, t: Shape)
    requires t.Node? && F.red && BlackTop(up + [G] + [F])
    ensures var (f2, t2) := AfterRestore(up, G, F, t);
      && Plug(f2, t2) == Plug(up, Restore(G, F, t)) && BlackTop(f2)
      && t2.Node? && t2.n == Straighten(G.side, F, t).Kid(G.side).n
      && (!G.sib.IsRed() ==> FixInsert(f2, t2) == FixInsert(up + [G] + [F], t))
  {
    var s := Restore(G, F, t);
    StepUp(up + [G], F, t);
    StepUp(up, G, F.Over(t));
    StepUp(up, Frame(G.side, s.n, s.key, s.red, s.Kid(G.side.Other())), s.Kid(G.side));
    assert up != [] ==> (up + [G] + [F])[0] == up[0];
  }
}
