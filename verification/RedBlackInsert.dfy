/** tree_add as a function on shapes, and what it keeps. */
module RedBlackInsert {
  import opened TreeNodes
  import opened RedBlackShape

  // ---------- Finding the place ----------

  // Descends to the node holding the key, or to the missing child where it belongs.
  function Locate(f: seq<Frame>, t: Shape, key: int): (place: (seq<Frame>, Shape))
    ensures Plug(place.0, place.1) == Plug(f, t)
    ensures place.1.Node? ==> place.1.key == key
    decreases t
  {
    if t.Leaf? || key == t.key then (f, t)
    else
      var side := if key < t.key then Left else Right;
      var g := f + [Frame(side, t.n, t.key, t.red, t.Kid(side.Other()))];
      assert Init(g) == f;
      Locate(g, t.Kid(side), key)
  }

  predicate Around(b: seq<Item>, key: int, a: seq<Item>) {
    && (forall i | 0 <= i < |b| :: b[i].key < key)
    && (forall i | 0 <= i < |a| :: key < a[i].key)
  }

  lemma AroundConcat(b1: seq<Item>, b2: seq<Item>, key: int, a1: seq<Item>, a2: seq<Item>)
    requires Around(b1, key, a1) && Around(b2, key, a2)
    ensures Around(b1 + b2, key, a1 + a2)
  {
  }

  lemma {:induction false} LocateSplits(f: seq<Frame>, t: Shape, key: int)
    requires Ordered(t) && Around(Before(f), key, After(f))
    ensures var place := Locate(f, t, key); Around(Before(place.0), key, After(place.0))
    decreases t
  {
    if t.Node? && key != t.key {
      OrderedParts(t);
      var side := if key < t.key then Left else Right;
      var F := Frame(side, t.n, t.key, t.red, t.Kid(side.Other()));
      var g, x := f + [F], [Item(t.n, t.key)];
      assert Init(g) == f && Last(g) == F;
      if side.Left? {
        AroundConcat([], [], key, x, Elems(t.right));
        AroundConcat(Before(f), [], key, x + Elems(t.right), After(f));
        assert Before(f) + [] == Before(f);
      } else {
        AroundConcat(Elems(t.left), x, key, [], []);
        AroundConcat(Before(f), Elems(t.left) + x, key, [], After(f));
        assert [] + After(f) == After(f);
      }
      LocateSplits(g, t.Kid(side), key);
    }
  }

  lemma OrderedParts(t: Shape)
    requires t.Node? && Ordered(t)
    ensures Ordered(t.left) && Ordered(t.right)
    ensures Around(Elems(t.left), t.key, Elems(t.right))
  {
    var l, r, x := Elems(t.left), Elems(t.right), [Item(t.n, t.key)];
    IncreasingConcat(l + x, r);
    IncreasingConcat(l, x);
    assert (l + x)[|l|] == x[0];
  }

  // ---------- Rebalancing ----------

  // The subtree at the parent after the inner rotation, if the new node is on the inner side.
  function Straighten(cis: Side, F: Frame, t: Shape): (s: Shape)
    requires t.Node?
    ensures s.Node? && Elems(s) == Elems(F.Over(t))
  {
    if F.side == cis then F.Over(t)
    else
      RotateElems(cis, F.Over(t));
      Rotate(cis, F.Over(t))
  }

  // TREE__REBALANCE_AFTER_INSERT with a black uncle: G is the grandparent, F the parent.
  function Restore(G: Frame, F: Frame, t: Shape): Shape
    requires t.Node?
  {
    Rotate(G.side.Other(), G.(red := true).Over(Straighten(G.side, F, t).Blacken()))
  }

  // TREE__REBALANCE_AFTER_INSERT with a red uncle: the subtree at the grandparent.
  function Recolour(G: Frame, F: Frame, t: Shape): Shape {
    G.(red := true, sib := G.sib.Blacken()).Over(F.(red := false).Over(t))
  }

  // The fix-up loop of tree_add, from the place of the new red node.
  function FixInsert(f: seq<Frame>, t: Shape): Shape
    requires t.Node? && BlackTop(f)
    decreases |f|
  {
    if f == [] || !Last(f).red then Plug(f, t).Blacken()
    else
      var F, up1 := Last(f), Init(f);
      var G, up2 := Last(up1), Init(up1);
      if G.sib.IsRed() then FixInsert(up2, Recolour(G, F, t))
      else Plug(up2, Restore(G, F, t)).Blacken()
  }

  lemma FixInsertDone(f: seq<Frame>, t: Shape)
    requires t.Node? && BlackTop(f) && (f != [] ==> !Last(f).red)
    ensures FixInsert(f, t) == Plug(f, t).Blacken()
  {
  }

  function Insert(t: Shape, n: TreeNode, key: int): Shape
    requires !t.IsRed()
  {
    var (f, s) := Locate([], t, key);
    PlugRoot(f, s);
    if s.Node? then t else FixInsert(f, Node(n, key, true, Leaf, Leaf))
  }

  // ---------- What it keeps ----------

  lemma RestoreElems(G: Frame, F: Frame, t: Shape)
    requires t.Node?
    ensures Elems(Restore(G, F, t)) == Elems(G.Over(F.Over(t)))
  {
    var s := Straighten(G.side, F, t);
    RotateElems(G.side.Other(), G.(red := true).Over(s.Blacken()));
  }

  lemma {:induction false} FixInsertElems(f: seq<Frame>, t: Shape)
    requires t.Node? && BlackTop(f)
    ensures Elems(FixInsert(f, t)) == Before(f) + Elems(t) + After(f)
    decreases |f|
  {
    PlugElems(f, t);
    if f != [] && Last(f).red {
      var F, up1 := Last(f), Init(f);
      var G, up2 := Last(up1), Init(up1);
      assert Plug(f, t) == Plug(up2, G.Over(F.Over(t)));
      PlugElems(up2, G.Over(F.Over(t)));
      if G.sib.IsRed() {
        FixInsertElems(up2, Recolour(G, F, t));
      } else {
        RestoreElems(G, F, t);
        PlugElems(up2, Restore(G, F, t));
      }
    }
  }

  // Holds of any tree without red children of red nodes, balanced or not.
  lemma {:induction false} FixInsertNoRedRed(f: seq<Frame>, t: Shape)
    requires t.Node? && BlackTop(f) && t.red && NoRedRed(t) && NoRedRedPath(f)
    ensures NoRedRed(FixInsert(f, t)) && !FixInsert(f, t).IsRed()
    decreases |f|
  {
    PlugNoRedRed(f, t);
    PlugRoot(f, t);
    if f != [] && Last(f).red {
      var F, up1 := Last(f), Init(f);
      var G, up2 := Last(up1), Init(up1);
      if G.sib.IsRed() {
        FixInsertNoRedRed(up2, Recolour(G, F, t));
      } else {
        PlugNoRedRed(up2, Restore(G, F, t));
        PlugRoot(up2, Restore(G, F, t));
      }
    }
  }

  lemma {:induction false} FixInsertBalanced(f: seq<Frame>, t: Shape)
    requires t.Node? && BlackTop(f) && t.red && NoRedRedPath(f)
    requires Balanced(t) && BalancedPath(f, BlackHeight(t))
    ensures Balanced(FixInsert(f, t))
    decreases |f|
  {
    PlugBalanced(f, t);
    if f != [] && Last(f).red {
      var F, up1 := Last(f), Init(f);
      var G, up2 := Last(up1), Init(up1);
      if G.sib.IsRed() {
        FixInsertBalanced(up2, Recolour(G, F, t));
      } else {
        PlugBalanced(up2, Restore(G, F, t));
      }
    }
  }

  function KeysOf(e: seq<Item>): set<int> {
    set x | x in e :: x.key
  }

  function Keys(t: Shape): set<int> {
    KeysOf(Elems(t))
  }

  lemma KeysOfConcat(a: seq<Item>, b: seq<Item>)
    ensures KeysOf(a + b) == KeysOf(a) + KeysOf(b)
  {
    forall k | k in KeysOf(a) + KeysOf(b) ensures k in KeysOf(a + b) {
      var x :| (x in a || x in b) && x.key == k;
      assert x in a + b;
    }
  }

  // e2 is e1 with one item put in between.
  ghost predicate PutIn(e1: seq<Item>, x: Item, e2: seq<Item>) {
    exists i | 0 <= i <= |e1| :: e2 == e1[..i] + [x] + e1[i..]
  }

  lemma AroundExcludes(b: seq<Item>, key: int, a: seq<Item>)
    requires Around(b, key, a)
    ensures key !in KeysOf(b + a)
  {
    KeysOfConcat(b, a);
  }

  lemma KeyOfPlugged(f: seq<Frame>, t: Shape)
    requires t.Node?
    ensures t.key in Keys(Plug(f, t)) && Item(t.n, t.key) in Elems(Plug(f, t))
  {
    PlugElems(f, t);
    var x := Item(t.n, t.key);
    assert x in Elems(t);
    assert x in Before(f) + Elems(t);
  }

  lemma LocateAbsent(t: Shape, key: int)
    requires Ordered(t)
    ensures Locate([], t, key).1.Leaf? <==> key !in Keys(t)
    ensures key !in Keys(t) ==>
      var f := Locate([], t, key).0;
      Elems(t) == Before(f) + After(f) && Around(Before(f), key, After(f))
  {
    var place := Locate([], t, key);
    var f := place.0;
    LocateSplits([], t, key);
    if place.1.Node? {
      KeyOfPlugged(f, place.1);
    } else {
      PlugElems(f, Leaf);
      assert Before(f) + Elems(Leaf) + After(f) == Before(f) + After(f);
      AroundExcludes(Before(f), key, After(f));
    }
  }

  lemma PutInOrder(b: seq<Item>, x: Item, a: seq<Item>)
    requires Increasing(b + a) && Around(b, x.key, a)
    ensures Increasing(b + [x] + a)
  {
    IncreasingConcat(b, a);
    IncreasingConcat(b, [x]);
    IncreasingConcat(b + [x], a);
  }

  // tree_add on a new key: the new item goes in between, in key order; everything else stays in order.
  lemma InsertElems(t: Shape, n: TreeNode, key: int)
    requires Ordered(t) && !t.IsRed() && key !in Keys(t)
    ensures PutIn(Elems(t), Item(n, key), Elems(Insert(t, n, key)))
    ensures Ordered(Insert(t, n, key)) && Keys(Insert(t, n, key)) == Keys(t) + {key}
  {
    LocateAbsent(t, key);
    var (f, s) := Locate([], t, key);
    PlugRoot(f, s);
    var added, x := Node(n, key, true, Leaf, Leaf), Item(n, key);
    FixInsertElems(f, added);
    var b, a := Before(f), After(f);
    assert Elems(added) == [x];
    assert Elems(t)[..|b|] == b && Elems(t)[|b|..] == a;
    PutInOrder(b, x, a);
    KeysOfConcat(b, a);
    KeysOfConcat(b + [x], a);
    KeysOfConcat(b, [x]);
  }

  // tree_add keeps the colour rule on any ordered tree that has it, and the balance if there is balance.
  lemma InsertRules(t: Shape, n: TreeNode, key: int)
    requires NoRedRed(t) && !t.IsRed()
    ensures NoRedRed(Insert(t, n, key)) && !Insert(t, n, key).IsRed()
    ensures Balanced(t) ==> Balanced(Insert(t, n, key))
  {
    var (f, s) := Locate([], t, key);
    PlugRoot(f, s);
    PlugNoRedRed(f, s);
    PlugBalanced(f, s);
    if s.Leaf? {
      FixInsertNoRedRed(f, Node(n, key, true, Leaf, Leaf));
      if Balanced(t) {
        FixInsertBalanced(f, Node(n, key, true, Leaf, Leaf));
      }
    }
  }
}
