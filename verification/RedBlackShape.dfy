/**
 The shape of a red-black tree as a value, with a zipper for the place the tree code is working at.
 A place is a sequence of frames, root first; each frame is an ancestor together with the subtree on
 the side the path does not take.
 */
module RedBlackShape {
  import opened Sequences
  import opened TreeNodes

  datatype Shape = Leaf | Node(n: TreeNode, key: int, red: bool, left: Shape, right: Shape) {
    function Kid(s: Side): Shape
      requires Node?
    {
      if s.Left? then left else right
    }

    function WithKid(s: Side, kid: Shape): Shape
      requires Node?
    {
      if s.Left? then this.(left := kid) else this.(right := kid)
    }

    predicate IsRed() {
      Node? && red
    }

    function Blacken(): Shape {
      if Leaf? then Leaf else this.(red := false)
    }
  }

  function Branch(cis: Side, n: TreeNode, key: int, red: bool, near: Shape, far: Shape): Shape {
    if cis.Left? then Node(n, key, red, near, far) else Node(n, key, red, far, near)
  }

  datatype Frame = Frame(side: Side, n: TreeNode, key: int, red: bool, sib: Shape) {
    function Over(t: Shape): Shape {
      Branch(side, n, key, red, t, sib)
    }
  }

  function Init(f: seq<Frame>): seq<Frame>
    requires f != []
  {
    f[..|f| - 1]
  }

  function Last(f: seq<Frame>): Frame
    requires f != []
  {
    f[|f| - 1]
  }

  function Plug(f: seq<Frame>, t: Shape): Shape
    decreases |f|
  {
    if f == [] then t else Plug(Init(f), Last(f).Over(t))
  }

  // ---------- Contents in order ----------

  datatype Item = Item(n: TreeNode, key: int)

  function Elems(t: Shape): seq<Item> {
    match t
    case Leaf => []
    case Node(n, key, _, l, r) => Elems(l) + [Item(n, key)] + Elems(r)
  }

  function Before(f: seq<Frame>): seq<Item>
    decreases |f|
  {
    if f == [] then []
    else
      var F := Last(f);
      Before(Init(f)) + (if F.side.Left? then [] else Elems(F.sib) + [Item(F.n, F.key)])
  }

  function After(f: seq<Frame>): seq<Item>
    decreases |f|
  {
    if f == [] then []
    else
      var F := Last(f);
      (if F.side.Left? then [Item(F.n, F.key)] + Elems(F.sib) else []) + After(Init(f))
  }

  lemma Regroup(a: seq<Item>, b: seq<Item>, c: seq<Item>, d: seq<Item>)
    ensures a + (b + c) + d == a + b + (c + d)
  {
  }

  lemma {:induction false} PlugElems(f: seq<Frame>, t: Shape)
    ensures Elems(Plug(f, t)) == Before(f) + Elems(t) + After(f)
    decreases |f|
  {
    if f == [] {
      assert Before(f) + Elems(t) + After(f) == Elems(t);
    } else {
      var F, up := Last(f), Init(f);
      var x := [Item(F.n, F.key)];
      PlugElems(up, F.Over(t));
      if F.side.Left? {
        Concat(Elems(t), x, Elems(F.sib));
        Regroup(Before(up), Elems(t), x + Elems(F.sib), After(up));
        assert Before(f) == Before(up);
      } else {
        Concat(Before(up), Elems(F.sib) + x, Elems(t));
        assert After(f) == After(up);
      }
    }
  }

  // Keys strictly increase.
  predicate Increasing(e: seq<Item>) {
    forall i, j | 0 <= i < j < |e| :: e[i].key < e[j].key
  }

  predicate Ordered(t: Shape) {
    Increasing(Elems(t))
  }

  // Every key of the first is below every key of the second.
  predicate Below(a: seq<Item>, b: seq<Item>) {
    forall i, j | 0 <= i < |a| && 0 <= j < |b| :: a[i].key < b[j].key
  }

  lemma IncreasingConcat(a: seq<Item>, b: seq<Item>)
    ensures Increasing(a + b) <==> Increasing(a) && Increasing(b) && Below(a, b)
  {
    var e := a + b;
    if Increasing(e) {
      forall i, j | 0 <= i < j < |a| ensures a[i].key < a[j].key {
        assert e[i] == a[i] && e[j] == a[j];
      }
      forall i, j | 0 <= i < j < |b| ensures b[i].key < b[j].key {
        assert e[|a| + i] == b[i] && e[|a| + j] == b[j];
      }
      forall i, j | 0 <= i < |a| && 0 <= j < |b| ensures a[i].key < b[j].key {
        assert e[i] == a[i] && e[|a| + j] == b[j];
      }
    }
  }

  // ---------- The red-black rules ----------

  // No red node has a red child.
  predicate NoRedRed(t: Shape) {
    t.Node? ==>
      && NoRedRed(t.left) && NoRedRed(t.right)
      && (t.red ==> !t.left.IsRed() && !t.right.IsRed())
  }

  function BlackHeight(t: Shape): nat {
    if t.Leaf? then 0 else BlackHeight(t.left) + (if t.red then 0 else 1)
  }

  // Every path from a node down to a missing child passes the same number of black nodes.
  predicate Balanced(t: Shape) {
    t.Node? ==> Balanced(t.left) && Balanced(t.right) && BlackHeight(t.left) == BlackHeight(t.right)
  }

  predicate RedBlack(t: Shape) {
    NoRedRed(t) && Balanced(t) && !t.IsRed()
  }

  // The same rules for a place: what the frames must satisfy, whatever is plugged in.
  predicate NoRedRedPath(f: seq<Frame>)
    decreases |f|
  {
    f != [] ==>
      var F, up := Last(f), Init(f);
      && NoRedRed(F.sib) && NoRedRedPath(up)
      && (F.red ==> !F.sib.IsRed() && (up != [] ==> !Last(up).red))
  }

  lemma {:induction false} PlugNoRedRed(f: seq<Frame>, t: Shape)
    ensures NoRedRed(Plug(f, t)) <==>
            NoRedRedPath(f) && NoRedRed(t) && (f != [] && Last(f).red ==> !t.IsRed())
    decreases |f|
  {
    if f != [] {
      PlugNoRedRed(Init(f), Last(f).Over(t));
    }
  }

  // A place that needs a subtree of black height h.
  predicate BalancedPath(f: seq<Frame>, h: nat)
    decreases |f|
  {
    f != [] ==>
      var F := Last(f);
      && Balanced(F.sib) && BlackHeight(F.sib) == h
      && BalancedPath(Init(f), h + (if F.red then 0 else 1))
  }

  lemma {:induction false} PlugBalanced(f: seq<Frame>, t: Shape)
    ensures Balanced(Plug(f, t)) <==> Balanced(t) && BalancedPath(f, BlackHeight(t))
    decreases |f|
  {
    if f != [] {
      PlugBalanced(Init(f), Last(f).Over(t));
    }
  }

  predicate BlackTop(f: seq<Frame>) {
    f != [] ==> !f[0].red
  }

  lemma {:induction false} PlugRoot(f: seq<Frame>, t: Shape)
    ensures f != [] ==> Plug(f, t).Node? && Plug(f, t).red == f[0].red && Plug(f, t).n == f[0].n
    decreases |f|
  {
    if |f| > 1 {
      PlugRoot(Init(f), Last(f).Over(t));
      assert Init(f)[0] == f[0];
    }
  }

  // ---------- Rotation ----------

  predicate CanRotate(cis: Side, t: Shape) {
    t.Node? && t.Kid(cis.Other()).Node?
  }

  // tree__rotate_<cis>: the far child q of the root p takes its place, p becomes q's near child.
  function Rotate(cis: Side, t: Shape): Shape
    requires CanRotate(cis, t)
  {
    var q := t.Kid(cis.Other());
    Branch(cis, q.n, q.key, q.red,
           Branch(cis, t.n, t.key, t.red, t.Kid(cis), q.Kid(cis)),
           q.Kid(cis.Other()))
  }

  lemma RotateElems(cis: Side, t: Shape)
    requires CanRotate(cis, t)
    ensures Elems(Rotate(cis, t)) == Elems(t)
  {
    var q := t.Kid(cis.Other());
    var p1, q1 := [Item(t.n, t.key)], [Item(q.n, q.key)];
    var a, b, c := Elems(t.Kid(cis)), Elems(q.Kid(cis)), Elems(q.Kid(cis.Other()));
    if cis.Left? {
      assert a + p1 + (b + q1 + c) == (a + p1 + b) + q1 + c;
    } else {
      assert (c + q1 + b) + p1 + a == c + q1 + (b + p1 + a);
    }
  }
}
