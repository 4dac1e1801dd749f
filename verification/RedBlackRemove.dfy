/** tree_del as a function on shapes, and what it keeps. */
module RedBlackRemove {
  import opened Sequences
  import opened TreeNodes
  import opened RedBlackShape

  // ---------- The node that takes over ----------

  function MinOf(t: Shape): (m: Shape)
    requires t.Node?
    ensures m.Node? && m.left.Leaf?
  {
    if t.left.Leaf? then t else MinOf(t.left)
  }

  // The frames from f, where t hangs, down to the leftmost node of t.
  function LeftSpine(f: seq<Frame>, t: Shape): (spine: seq<Frame>)
    requires t.Node?
    ensures Plug(spine, MinOf(t)) == Plug(f, t)
    ensures |spine| >= |f| && (f != [] ==> spine[..|f|] == f)
    decreases t
  {
    if t.left.Leaf? then f
    else
      var g := f + [Frame(Left, t.n, t.key, t.red, t.right)];
      assert Init(g) == f;
      LeftSpine(g, t.left)
  }

  lemma {:induction false} LeftSpineElems(f: seq<Frame>, t: Shape)
    requires t.Node?
    ensures Before(LeftSpine(f, t)) == Before(f)
    ensures [Item(MinOf(t).n, MinOf(t).key)] + Elems(MinOf(t).right) + After(LeftSpine(f, t)) == Elems(t) + After(f)
    decreases t
  {
    if t.left.Node? {
      var g := f + [Frame(Left, t.n, t.key, t.red, t.right)];
      assert Init(g) == f;
      LeftSpineElems(g, t.left);
      assert Elems(t.left) + After(g) == Elems(t) + After(f);
    }
  }

  // ---------- Rebalancing ----------

  // A place where the subtree is one black node short, inside a tree that keeps the rules elsewhere.
  predicate Short(f: seq<Frame>, t: Shape) {
    NoRedRedPath(f) && Balanced(t) && BalancedPath(f, BlackHeight(t) + 1)
  }

  // The sibling has a red child: one or two rotations make up for the missing black node.
  function Borrow(F: Frame, t: Shape): Shape
    requires F.sib.Node? && (F.sib.left.IsRed() || F.sib.right.IsRed())
  {
    var cis, trans := F.side, F.side.Other();
    var s := if F.sib.Kid(trans).IsRed() then F.sib
             else Rotate(trans, F.sib.(red := true).WithKid(cis, F.sib.Kid(cis).Blacken()));
    Rotate(cis, F.(red := false, sib := s.(red := F.red).WithKid(trans, s.Kid(trans).Blacken())).Over(t))
  }

  // How the closing loop ends. The macro reads the colour of the sibling, or of its children, without asking
  // whether there is a sibling: NoSibling stands for that read through a null pointer.
  datatype Outcome = Done(shape: Shape) | NoSibling

  // The loop body behind the case of a red sibling.
  function Settle(up: seq<Frame>, F: Frame, t: Shape): Outcome
    decreases if F.red then 0 else |up|, 2
  {
    if F.sib.Leaf? then NoSibling
    else if F.sib.left.IsRed() || F.sib.right.IsRed() then Done(Plug(up, Borrow(F, t)).Blacken())
    else
      var lowered := F.(sib := F.sib.(red := true));
      if F.red then Done(Plug(up, lowered.(red := false).Over(t)))
      else FixRemove(up, lowered.Over(t), true)
  }

  // A red sibling is rotated above the parent, which turns red and gets a black sibling instead.
  function Uncover(F: Frame): (lower: (Frame, Frame))
    requires F.sib.IsRed()
  {
    var q := F.sib;
    (Frame(F.side, q.n, q.key, false, q.Kid(F.side.Other())), F.(red := true, sib := q.Kid(F.side)))
  }

  // The closing loop of tree_del from place (f, t). It rebalances only when `two` holds, that is, when
  // the removed node had two children; otherwise it just climbs to the first red ancestor or the root.
  function FixRemove(f: seq<Frame>, t: Shape, two: bool): Outcome
    decreases |f|, 1
  {
    if f == [] then Done(t.Blacken())
    else
      var F, up := Last(f), Init(f);
      if !two then
        if F.red then Done(Plug(up, F.(red := false).Over(t))) else FixRemove(up, F.Over(t), false)
      else if F.sib.IsRed() then
        var (Q, P) := Uncover(F);
        Settle(up + [Q], P, t)
      else Settle(up, F, t)
  }

  lemma UncoverShort(up: seq<Frame>, F: Frame, t: Shape)
    requires Short(up + [F], t) && F.sib.IsRed()
    ensures var (Q, P) := Uncover(F); Short(up + [Q] + [P], t) && !P.sib.IsRed()
  {
    var (Q, P) := Uncover(F);
    assert Init(up + [F]) == up && Init(up + [Q] + [P]) == up + [Q] && Init(up + [Q]) == up;
  }

  function Finish(f: seq<Frame>, t: Shape, red: bool, two: bool): Outcome {
    if red then Done(Plug(f, t))
    else if t.IsRed() then Done(Plug(f, t.Blacken()))
    else FixRemove(f, t, two)
  }

  // Where the successor stands once it has taken the place of the removed node.
  function Stead(f: seq<Frame>, t: Shape): seq<Frame>
    requires t.Node? && t.right.Node?
  {
    var m := MinOf(t.right);
    f + [Frame(Right, m.n, m.key, t.red, t.left)]
  }

  predicate TwoKids(t: Shape) {
    t.Node? && t.left.Node? && t.right.Node?
  }

  // tree_del of the node t that stands at place f, in any tree.
  function Remove(f: seq<Frame>, t: Shape): Outcome
    requires t.Node?
  {
    if TwoKids(t) then
      var m := MinOf(t.right);
      Finish(LeftSpine(Stead(f, t), t.right), m.right, m.red, true)
    else
      Finish(f, if t.left.Leaf? then t.right else t.left, t.red, false)
  }

  // ---------- When the sibling is there ----------

  // On the way up from a place, for as long as the loop climbs, every sibling it looks at exists: that of the
  // place, and if it is red the child of it that becomes the sibling. The climb ends at the root, below a red
  // node, beside a red sibling, and beside one with a red child.
  predicate Safe(f: seq<Frame>)
    decreases |f|
  {
    f == []
    || var F := Last(f);
       && F.sib.Node?
       && (F.sib.red ==> F.sib.Kid(F.side).Node?)
       && (F.sib.red || F.red || F.sib.left.IsRed() || F.sib.right.IsRed() || Safe(Init(f)))
  }

  // What is plugged in, and whether the tree keeps any rule, does not matter.
  lemma {:induction false} SafeExactly(f: seq<Frame>, t: Shape)
    ensures FixRemove(f, t, true).Done? <==> Safe(f)
    decreases |f|
  {
    if f != [] {
      var F, up := Last(f), Init(f);
      if F.sib.Node? && !F.sib.red && !F.red {
        SafeExactly(up, F.(sib := F.sib.(red := true)).Over(t));
      }
    }
  }

  lemma {:induction false} ClimbEnds(f: seq<Frame>, t: Shape)
    ensures FixRemove(f, t, false).Done?
    decreases |f|
  {
    if f != [] && !Last(f).red {
      ClimbEnds(Init(f), Last(f).Over(t));
    }
  }

  // The case in which tree_del fails: two children, a black successor without a red child, and a missing
  // sibling on the way up from where the successor was.
  predicate Stuck(f: seq<Frame>, t: Shape) {
    TwoKids(t) && !MinOf(t.right).red && !MinOf(t.right).right.IsRed() && !Safe(LeftSpine(Stead(f, t), t.right))
  }

  lemma RemoveExactly(f: seq<Frame>, t: Shape)
    requires t.Node?
    ensures Remove(f, t).NoSibling? <==> Stuck(f, t)
  {
    if TwoKids(t) {
      SafeExactly(LeftSpine(Stead(f, t), t.right), MinOf(t.right).right);
    } else {
      ClimbEnds(f, if t.left.Leaf? then t.right else t.left);
    }
  }

  // In a tree that keeps the rules elsewhere no sibling is missing.
  lemma {:induction false} ShortSafe(f: seq<Frame>, t: Shape)
    requires Short(f, t)
    ensures Safe(f)
    decreases |f|
  {
    if f != [] {
      var F, up := Last(f), Init(f);
      if F.sib.Node? && !F.sib.red && !F.red && !F.sib.left.IsRed() && !F.sib.right.IsRed() {
        ShortSafe(up, F.(sib := F.sib.(red := true)).Over(t));
      }
    }
  }

  lemma SteadColour(f: seq<Frame>, t: Shape)
    requires TwoKids(t) && NoRedRed(Plug(f, t))
    ensures var m, spine := MinOf(t.right), LeftSpine(Stead(f, t), t.right);
      NoRedRedPath(spine) && NoRedRed(m) && (spine != [] && Last(spine).red ==> !m.red)
  {
    PlugNoRedRed(f, t);
    assert Init(Stead(f, t)) == f;
    PlugNoRedRed(Stead(f, t), t.right);
    PlugNoRedRed(LeftSpine(Stead(f, t), t.right), MinOf(t.right));
  }

  lemma SteadShort(f: seq<Frame>, t: Shape)
    requires TwoKids(t) && NoRedRed(Plug(f, t)) && Balanced(Plug(f, t))
    ensures var m, spine := MinOf(t.right), LeftSpine(Stead(f, t), t.right);
      && NoRedRedPath(spine) && NoRedRed(m) && (spine != [] && Last(spine).red ==> !m.red)
      && Balanced(m) && BalancedPath(spine, BlackHeight(m))
      && BlackHeight(m.right) == 0
  {
    SteadColour(f, t);
    PlugBalanced(f, t);
    assert Init(Stead(f, t)) == f;
    PlugBalanced(Stead(f, t), t.right);
    PlugBalanced(LeftSpine(Stead(f, t), t.right), MinOf(t.right));
  }

  // ---------- What it keeps: the contents ----------

  lemma BorrowElems(F: Frame, t: Shape)
    requires F.sib.Node? && (F.sib.left.IsRed() || F.sib.right.IsRed())
    ensures Elems(Borrow(F, t)) == Elems(F.Over(t))
  {
    var cis, trans := F.side, F.side.Other();
    var s0 := F.sib.(red := true).WithKid(cis, F.sib.Kid(cis).Blacken());
    if !F.sib.Kid(trans).IsRed() {
      RotateElems(trans, s0);
    }
    var s := if F.sib.Kid(trans).IsRed() then F.sib else Rotate(trans, s0);
    assert Elems(s) == Elems(F.sib);
    var s2 := s.(red := F.red).WithKid(trans, s.Kid(trans).Blacken());
    assert Elems(s2) == Elems(s);
    RotateElems(cis, F.(red := false, sib := s2).Over(t));
  }

  lemma {:induction false} SettleElems(up: seq<Frame>, F: Frame, t: Shape)
    requires Settle(up, F, t).Done?
    ensures Elems(Settle(up, F, t).shape) == Before(up) + Elems(F.Over(t)) + After(up)
    decreases if F.red then 0 else |up|, 2
  {
    if F.sib.left.IsRed() || F.sib.right.IsRed() {
      BorrowElems(F, t);
      PlugElems(up, Borrow(F, t));
    } else {
      var lowered := F.(sib := F.sib.(red := true));
      assert Elems(lowered.Over(t)) == Elems(F.Over(t)) == Elems(lowered.(red := false).Over(t));
      if F.red {
        PlugElems(up, lowered.(red := false).Over(t));
      } else {
        FixRemoveElems(up, lowered.Over(t), true);
      }
    }
  }

  lemma {:induction false} FixRemoveElems(f: seq<Frame>, t: Shape, two: bool)
    requires FixRemove(f, t, two).Done?
    ensures Elems(FixRemove(f, t, two).shape) == Before(f) + Elems(t) + After(f)
    decreases |f|, 1
  {
    if f != [] {
      var F, up := Last(f), Init(f);
      assert f == up + [F];
      PlugElems(f, t);
      PlugElems(up, F.Over(t));
      if !two {
        if F.red {
          PlugElems(up, F.(red := false).Over(t));
        } else {
          FixRemoveElems(up, F.Over(t), false);
        }
      } else if F.sib.IsRed() {
        var (Q, P) := Uncover(F);
        SettleElems(up + [Q], P, t);
        assert Init(up + [Q]) == up;
        PlugElems(up + [Q], P.Over(t));
        RotateElems(F.side, F.Over(t));
        assert Q.Over(P.Over(t)) == Rotate(F.side, F.(red := true, sib := F.sib.(red := false)).Over(t));
        assert Elems(Q.Over(P.Over(t))) == Elems(F.Over(t));
        PlugElems(up, Q.Over(P.Over(t)));
      } else {
        SettleElems(up, F, t);
      }
    }
  }

  lemma FinishElems(f: seq<Frame>, t: Shape, red: bool, two: bool)
    requires Finish(f, t, red, two).Done?
    ensures Elems(Finish(f, t, red, two).shape) == Before(f) + Elems(t) + After(f)
  {
    if red {
      PlugElems(f, t);
    } else if t.IsRed() {
      PlugElems(f, t.Blacken());
    } else {
      FixRemoveElems(f, t, two);
    }
  }

  lemma SteadElems(f: seq<Frame>, t: Shape)
    requires TwoKids(t)
    ensures var m, spine := MinOf(t.right), LeftSpine(Stead(f, t), t.right);
      Before(spine) + Elems(m.right) + After(spine) == Before(f) + Elems(t.left) + (Elems(t.right) + After(f))
  {
    var m, s := MinOf(t.right), Stead(f, t);
    var spine, x := LeftSpine(s, t.right), [Item(m.n, m.key)];
    LeftSpineElems(s, t.right);
    assert Init(s) == f && Last(s) == Frame(Right, m.n, m.key, t.red, t.left);
    assert After(s) == After(f);
    Concat(Before(f), Elems(t.left), x);
    Concat(x, Elems(m.right), After(spine));
    Concat(Before(f) + Elems(t.left), x, Elems(m.right));
    Concat(Before(f) + Elems(t.left), x + Elems(m.right), After(spine));
  }

  function Rest(f: seq<Frame>, t: Shape): seq<Item>
    requires t.Node?
  {
    Before(f) + Elems(t.left) + (Elems(t.right) + After(f))
  }

  lemma WholeElems(f: seq<Frame>, t: Shape)
    requires t.Node?
    ensures Elems(Plug(f, t)) == Before(f) + Elems(t.left) + [Item(t.n, t.key)] + (Elems(t.right) + After(f))
  {
    PlugElems(f, t);
  }

  // In any tree, tree_del takes out the item of the given node and nothing else, and keeps the order of the rest:
  // with WholeElems, the contents before are Rest(f, t) with that item put back.
  lemma RemoveElems(f: seq<Frame>, t: Shape)
    requires t.Node? && Remove(f, t).Done?
    ensures Elems(Remove(f, t).shape) == Rest(f, t)
  {
    if TwoKids(t) {
      var m, spine := MinOf(t.right), LeftSpine(Stead(f, t), t.right);
      FinishElems(spine, m.right, m.red, true);
      SteadElems(f, t);
    } else {
      var next := if t.left.Leaf? then t.right else t.left;
      FinishElems(f, next, t.red, false);
      assert Before(f) + Elems(next) + After(f) == Rest(f, t);
    }
  }

  // ---------- What it keeps: the rules ----------

  lemma {:induction false} SettleRules(up: seq<Frame>, F: Frame, t: Shape)
    requires Short(up + [F], t) && !F.sib.IsRed()
    requires NoRedRed(t) && !t.IsRed() && BlackTop(up + [F])
    ensures Settle(up, F, t).Done? && RedBlack(Settle(up, F, t).shape)
    decreases if F.red then 0 else |up|, 2
  {
    assert Init(up + [F]) == up;
    if F.sib.left.IsRed() || F.sib.right.IsRed() {
      BorrowRules(F, t);
      PlugNoRedRed(up, Borrow(F, t));
      PlugBalanced(up, Borrow(F, t));
      PlugRoot(up, Borrow(F, t));
    } else {
      var lowered := F.(sib := F.sib.(red := true));
      if F.red {
        var s := lowered.(red := false).Over(t);
        PlugNoRedRed(up, s);
        PlugBalanced(up, s);
        PlugRoot(up, s);
      } else {
        FixRemoveRules(up, lowered.Over(t));
      }
    }
  }

  lemma BorrowRules(F: Frame, t: Shape)
    requires F.sib.Node? && !F.sib.red && (F.sib.left.IsRed() || F.sib.right.IsRed())
    requires NoRedRed(t) && !t.IsRed() && NoRedRed(F.sib)
    requires Balanced(t) && Balanced(F.sib) && BlackHeight(F.sib) == BlackHeight(t) + 1
    ensures var s := Borrow(F, t);
      && s.Node? && s.red == F.red && NoRedRed(s) && Balanced(s)
      && BlackHeight(s) == BlackHeight(t) + (if F.red then 1 else 2)
  {
  }

  lemma {:induction false} FixRemoveRules(f: seq<Frame>, t: Shape)
    requires Short(f, t) && NoRedRed(t) && !t.IsRed() && BlackTop(f)
    ensures FixRemove(f, t, true).Done? && RedBlack(FixRemove(f, t, true).shape)
    decreases |f|, 1
  {
    if f != [] {
      var F, up := Last(f), Init(f);
      assert f == up + [F];
      if F.sib.IsRed() {
        var (Q, P) := Uncover(F);
        UncoverShort(up, F, t);
        SettleRules(up + [Q], P, t);
      } else {
        SettleRules(up, F, t);
      }
    }
  }

  // The colour rule needs no balance. Without rebalancing it holds because the climb ends by blackening.
  lemma {:induction false} ClimbNoRedRed(f: seq<Frame>, t: Shape)
    requires NoRedRedPath(f) && NoRedRed(t) && !t.IsRed() && BlackTop(f)
    ensures FixRemove(f, t, false).Done?
    ensures NoRedRed(FixRemove(f, t, false).shape) && !FixRemove(f, t, false).shape.IsRed()
    decreases |f|
  {
    if f != [] {
      var F, up := Last(f), Init(f);
      if F.red {
        var s := F.(red := false).Over(t);
        PlugNoRedRed(up, s);
        PlugRoot(up, s);
      } else {
        ClimbNoRedRed(up, F.Over(t));
      }
    }
  }

  lemma BorrowNoRedRed(F: Frame, t: Shape)
    requires F.sib.Node? && !F.sib.red && (F.sib.left.IsRed() || F.sib.right.IsRed())
    requires NoRedRed(t) && !t.IsRed() && NoRedRed(F.sib)
    ensures var s := Borrow(F, t); s.Node? && s.red == F.red && NoRedRed(s)
  {
  }

  lemma {:induction false} SettleNoRedRed(up: seq<Frame>, F: Frame, t: Shape)
    requires Settle(up, F, t).Done? && !F.sib.IsRed()
    requires NoRedRedPath(up + [F]) && NoRedRed(t) && !t.IsRed() && BlackTop(up + [F])
    ensures NoRedRed(Settle(up, F, t).shape) && !Settle(up, F, t).shape.IsRed()
    decreases if F.red then 0 else |up|, 2
  {
    assert Init(up + [F]) == up;
    assert up != [] ==> (up + [F])[0] == up[0];
    if F.sib.left.IsRed() || F.sib.right.IsRed() {
      BorrowNoRedRed(F, t);
      PlugNoRedRed(up, Borrow(F, t));
      PlugRoot(up, Borrow(F, t));
    } else {
      var lowered := F.(sib := F.sib.(red := true));
      if F.red {
        PlugNoRedRed(up, lowered.(red := false).Over(t));
        PlugRoot(up, lowered.(red := false).Over(t));
      } else {
        FixNoRedRed(up, lowered.Over(t));
      }
    }
  }

  lemma UncoverNoRedRed(up: seq<Frame>, F: Frame)
    requires NoRedRedPath(up + [F]) && BlackTop(up + [F]) && F.sib.IsRed()
    ensures var (Q, P) := Uncover(F);
      NoRedRedPath(up + [Q] + [P]) && BlackTop(up + [Q] + [P]) && !P.sib.IsRed() && P.red
  {
    var (Q, P) := Uncover(F);
    assert Init(up + [F]) == up && Init(up + [Q] + [P]) == up + [Q] && Init(up + [Q]) == up;
    assert up != [] ==> (up + [Q] + [P])[0] == up[0] == (up + [F])[0];
  }

  lemma {:induction false} FixNoRedRed(f: seq<Frame>, t: Shape)
    requires FixRemove(f, t, true).Done?
    requires NoRedRedPath(f) && NoRedRed(t) && !t.IsRed() && BlackTop(f)
    ensures NoRedRed(FixRemove(f, t, true).shape) && !FixRemove(f, t, true).shape.IsRed()
    decreases |f|, 1
  {
    if f != [] {
      var F, up := Last(f), Init(f);
      assert f == up + [F];
      hide Settle;
      if F.sib.IsRed() {
        var (Q, P) := Uncover(F);
        UncoverNoRedRed(up, F);
        hide Uncover, NoRedRedPath;
        SettleNoRedRed(up + [Q], P, t);
      } else {
        SettleNoRedRed(up, F, t);
      }
    }
  }

  lemma {:induction false} ClimbUnbalanced(f: seq<Frame>, t: Shape)
    requires !Balanced(t)
    ensures FixRemove(f, t, false).Done? && !Balanced(FixRemove(f, t, false).shape)
    decreases |f|
  {
    if f != [] {
      var F, up := Last(f), Init(f);
      if F.red {
        PlugBalanced(up, F.(red := false).Over(t));
      } else {
        ClimbUnbalanced(up, F.Over(t));
      }
    }
  }

  // ---------- tree_del as a whole ----------

  // The removed node is a black leaf other than the root: the one case the guard `right && left` of the
  // rebalancing leaves a black node short on one side.
  predicate DropsBlackLeaf(f: seq<Frame>, t: Shape) {
    f != [] && t.Node? && !t.red && t.left.Leaf? && t.right.Leaf?
  }

  // In any tree with the colour rule and a black root, balanced or not, both are kept.
  lemma RemoveNoRedRed(f: seq<Frame>, t: Shape)
    requires t.Node? && NoRedRed(Plug(f, t)) && !Plug(f, t).IsRed() && Remove(f, t).Done?
    ensures NoRedRed(Remove(f, t).shape) && !Remove(f, t).shape.IsRed()
  {
    PlugNoRedRed(f, t);
    PlugRoot(f, t);
    if TwoKids(t) {
      RemoveTwoNoRedRed(f, t);
    } else {
      var next := if t.left.Leaf? then t.right else t.left;
      PlugNoRedRed(f, next);
      PlugRoot(f, next);
      PlugNoRedRed(f, next.Blacken());
      PlugRoot(f, next.Blacken());
      if !next.IsRed() {
        ClimbNoRedRed(f, next);
      }
    }
  }

  lemma RemoveTwoNoRedRed(f: seq<Frame>, t: Shape)
    requires TwoKids(t) && NoRedRed(Plug(f, t)) && !Plug(f, t).IsRed() && Remove(f, t).Done?
    ensures NoRedRed(Remove(f, t).shape) && !Remove(f, t).shape.IsRed()
  {
    var s := Stead(f, t);
    var m, spine := MinOf(t.right), LeftSpine(s, t.right);
    SteadColour(f, t);
    PlugRoot(f, t);
    assert s[..|s|] == s && spine[0] == s[0];
    PlugRoot(spine, m.right);
    PlugRoot(spine, m.right.Blacken());
    if m.red {
      PlugNoRedRed(spine, m.right);
    } else if m.right.IsRed() {
      PlugNoRedRed(spine, m.right.Blacken());
    } else {
      FixNoRedRed(spine, m.right);
    }
  }

  lemma RemoveTwoKids(f: seq<Frame>, t: Shape)
    requires TwoKids(t) && RedBlack(Plug(f, t))
    ensures Remove(f, t).Done? && RedBlack(Remove(f, t).shape)
  {
    var s := Stead(f, t);
    var m, spine := MinOf(t.right), LeftSpine(s, t.right);
    SteadShort(f, t);
    PlugRoot(f, t);
    assert s[..|s|] == s && spine[0] == s[0];
    PlugRoot(spine, m.right);
    PlugRoot(spine, m.right.Blacken());
    if m.red {
      PlugNoRedRed(spine, m.right);
      PlugBalanced(spine, m.right);
    } else if m.right.IsRed() {
      PlugNoRedRed(spine, m.right.Blacken());
      PlugBalanced(spine, m.right.Blacken());
    } else {
      FixRemoveRules(spine, m.right);
    }
  }

  // Exactly when tree_del keeps a red-black tree red-black.
  lemma RemoveRedBlack(f: seq<Frame>, t: Shape)
    requires t.Node? && RedBlack(Plug(f, t))
    ensures Remove(f, t).Done?
    ensures RedBlack(Remove(f, t).shape) <==> !DropsBlackLeaf(f, t)
  {
    RemoveExactly(f, t);
    if TwoKids(t) {
      RemoveTwoKids(f, t);
    }
    RemoveNoRedRed(f, t);
    PlugNoRedRed(f, t);
    PlugBalanced(f, t);
    if TwoKids(t) {
      RemoveTwoKids(f, t);
    } else {
      var next := if t.left.Leaf? then t.right else t.left;
      PlugBalanced(f, next);
      PlugBalanced(f, next.Blacken());
      if DropsBlackLeaf(f, t) {
        var F, up := Last(f), Init(f);
        if F.red {
          PlugBalanced(up, F.(red := false).Over(Leaf));
        } else {
          ClimbUnbalanced(up, F.Over(Leaf));
        }
      }
    }
  }

  // A case where balance is lost: three black nodes, and a leaf of them removed.
  lemma BlackLeafWitness(a: TreeNode, b: TreeNode, c: TreeNode)
    ensures var leaf := Node(a, 1, false, Leaf, Leaf);
      var f := [Frame(Left, b, 2, false, Node(c, 3, false, Leaf, Leaf))];
      && RedBlack(Plug(f, leaf))
      && Remove(f, leaf) == Done(Node(b, 2, false, Leaf, Node(c, 3, false, Leaf, Leaf)))
      && !Balanced(Remove(f, leaf).shape)
  {
    var leaf, F := Node(a, 1, false, Leaf, Leaf), Frame(Left, b, 2, false, Node(c, 3, false, Leaf, Leaf));
    var f := [F];
    assert Init(f) == [] && Last(f) == F;
    assert Plug(f, leaf) == F.Over(leaf);
    assert Remove(f, leaf) == FixRemove(f, Leaf, false) == FixRemove([], F.Over(Leaf), false);
  }
}
