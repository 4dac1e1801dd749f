/** Whole runs of the tree: what lookups return after any additions, and how far they go. */
module RedBlackRuns {
  import opened TreeNodes
  import opened RedBlackShape
  import opened RedBlackInsert
  import opened RedBlackRemove

  // ---------- Lookup ----------

  // tree_find: the node found, if any.
  function Lookup(t: Shape, key: int): Shape {
    Locate([], t, key).1
  }

  lemma {:induction false} LookupFinds(f: seq<Frame>, t: Shape, key: int)
    requires Ordered(t)
    ensures var s := Locate(f, t, key).1;
      forall x | x in Elems(t) && x.key == key :: s.Node? && s.n == x.n
    decreases t
  {
    if t.Node? {
      OrderedParts(t);
      var side := if key < t.key then Left else Right;
      var g := f + [Frame(side, t.n, t.key, t.red, t.Kid(side.Other()))];
      assert Elems(t) == Elems(t.left) + [Item(t.n, t.key)] + Elems(t.right);
      if key != t.key {
        LookupFinds(g, t.Kid(side), key);
      }
    }
  }

  // In an ordered tree, tree_find returns a node for a key exactly when that node holds that key.
  lemma LookupExact(t: Shape, n: TreeNode, key: int)
    requires Ordered(t)
    ensures Item(n, key) in Elems(t) <==> Lookup(t, key).Node? && Lookup(t, key).n == n
  {
    LookupFinds([], t, key);
    var place := Locate([], t, key);
    if place.1.Node? {
      KeyOfPlugged(place.0, place.1);
    }
  }

  // ---------- Any sequence of additions ----------

  datatype Addition = Addition(n: TreeNode, key: int)

  // The tree after tree_add has been called for each of these in turn, from an empty tree.
  function Build(adds: seq<Addition>): (t: Shape)
    ensures !t.IsRed()
  {
    if adds == [] then Leaf
    else
      var before, a := Build(adds[..|adds| - 1]), adds[|adds| - 1];
      InsertRoot(before, a.n, a.key);
      Insert(before, a.n, a.key)
  }

  lemma InsertRoot(t: Shape, n: TreeNode, key: int)
    requires !t.IsRed()
    ensures !Insert(t, n, key).IsRed()
  {
    var (f, s) := Locate([], t, key);
    PlugRoot(f, s);
    if s.Leaf? {
      FixInsertRoot(f, Node(n, key, true, Leaf, Leaf));
    }
  }

  lemma {:induction false} FixInsertRoot(f: seq<Frame>, t: Shape)
    requires t.Node? && BlackTop(f)
    ensures !FixInsert(f, t).IsRed()
    decreases |f|
  {
    if f != [] && Last(f).red {
      var F, up1 := Last(f), Init(f);
      var G, up2 := Last(up1), Init(up1);
      if G.sib.IsRed() {
        FixInsertRoot(up2, Recolour(G, F, t));
      }
    }
  }

  // What a plain map holds after the same additions, where a key that is there already is left alone.
  function Expected(adds: seq<Addition>): map<int, TreeNode> {
    if adds == [] then map[]
    else
      var m, a := Expected(adds[..|adds| - 1]), adds[|adds| - 1];
      if a.key in m then m else m[a.key := a.n]
  }

  // Same contents: the items are the bindings of the map.
  ghost predicate Binds(e: seq<Item>, m: map<int, TreeNode>) {
    && (forall x | x in e :: x.key in m && m[x.key] == x.n)
    && (forall k | k in m :: Item(m[k], k) in e)
  }

  ghost predicate Agrees(t: Shape, m: map<int, TreeNode>) {
    Binds(Elems(t), m)
  }

  lemma BindsMore(e1: seq<Item>, x: Item, e2: seq<Item>, m: map<int, TreeNode>)
    requires PutIn(e1, x, e2) && Binds(e1, m) && x.key !in m
    ensures Binds(e2, m[x.key := x.n])
  {
    var i :| 0 <= i <= |e1| && e2 == e1[..i] + [x] + e1[i..];
    PutInMembers(e1, i, x);
  }

  lemma PutInMembers(e: seq<Item>, i: nat, x: Item)
    requires i <= |e|
    ensures forall y :: y in e[..i] + [x] + e[i..] <==> y == x || y in e
  {
    assert e == e[..i] + e[i..];
  }

  lemma InsertAgrees(t: Shape, m: map<int, TreeNode>, n: TreeNode, key: int)
    requires Ordered(t) && !t.IsRed() && Agrees(t, m)
    ensures Ordered(Insert(t, n, key))
    ensures Agrees(Insert(t, n, key), if key in m then m else m[key := n])
  {
    hide Elems, Insert, Locate, Increasing;
    BindsKeys(t, m, key);
    if key in m {
      InsertPresent(t, n, key);
    } else {
      InsertElems(t, n, key);
      BindsMore(Elems(t), Item(n, key), Elems(Insert(t, n, key)), m);
    }
  }

  lemma BindsKeys(t: Shape, m: map<int, TreeNode>, key: int)
    requires Agrees(t, m)
    ensures key in m <==> key in Keys(t)
  {
    if key in m {
      assert Item(m[key], key) in Elems(t);
    }
  }

  // tree_add on a key that is there leaves the tree as it is.
  lemma InsertPresent(t: Shape, n: TreeNode, key: int)
    requires Ordered(t) && !t.IsRed() && key in Keys(t)
    ensures Insert(t, n, key) == t
  {
    LocateAbsent(t, key);
  }

  lemma {:induction false} BuildKeeps(adds: seq<Addition>)
    ensures RedBlack(Build(adds)) && Ordered(Build(adds)) && Agrees(Build(adds), Expected(adds))
  {
    if adds != [] {
      var before, a := adds[..|adds| - 1], adds[|adds| - 1];
      BuildKeeps(before);
      InsertRules(Build(before), a.n, a.key);
      InsertAgrees(Build(before), Expected(before), a.n, a.key);
    }
  }

  // After any additions, tree_find answers as a plain map does.
  lemma BuildLookup(adds: seq<Addition>, key: int)
    ensures Lookup(Build(adds), key).Node? <==> key in Expected(adds)
    ensures key in Expected(adds) ==> Lookup(Build(adds), key).n == Expected(adds)[key]
  {
    var t, m := Build(adds), Expected(adds);
    BuildKeeps(adds);
    if key in m {
      LookupExact(t, m[key], key);
    } else if Lookup(t, key).Node? {
      LookupExact(t, Lookup(t, key).n, key);
    }
  }

  // ---------- Removal ----------

  // tree_del drops the key of its node and no other, and the order of the rest stands.
  lemma RemoveOrdered(f: seq<Frame>, t: Shape)
    requires t.Node? && Ordered(Plug(f, t)) && Remove(f, t).Done?
    ensures Ordered(Remove(f, t).shape) && Keys(Remove(f, t).shape) == Keys(Plug(f, t)) - {t.key}
  {
    hide Elems, Remove, Plug, Increasing;
    var b, x, a := Before(f) + Elems(t.left), Item(t.n, t.key), Elems(t.right) + After(f);
    WholeElems(f, t);
    RemoveElems(f, t);
    TakeOut(b, x, a);
  }

  lemma TakeOut(b: seq<Item>, x: Item, a: seq<Item>)
    requires Increasing(b + [x] + a)
    ensures Increasing(b + a) && KeysOf(b + a) == KeysOf(b + [x] + a) - {x.key}
  {
    IncreasingConcat(b + [x], a);
    IncreasingConcat(b, [x]);
    assert (b + [x])[|b|] == x;
    forall i, j | 0 <= i < |b| && 0 <= j < |a| ensures b[i].key < a[j].key {
      assert (b + [x])[i] == b[i];
    }
    IncreasingConcat(b, a);
    KeysOfConcat(b, a);
    KeysOfConcat(b, [x]);
    KeysOfConcat(b + [x], a);
    assert KeysOf([x]) == {x.key};
    assert Around(b, x.key, a);
    AroundExcludes(b, x.key, a);
  }

  // ---------- Any sequence of additions and removals ----------

  // A removal is of the node that a search for the key has found, if it finds one.
  datatype Change = Put(n: TreeNode, key: int) | Take(key: int)

  function Changed(t: Shape, c: Change): Outcome
    requires !t.IsRed()
  {
    match c
    case Put(n, key) => Done(Insert(t, n, key))
    case Take(key) =>
      var place := Locate([], t, key);
      if place.1.Leaf? then Done(t) else Remove(place.0, place.1)
  }

  lemma ChangedRules(t: Shape, c: Change)
    requires NoRedRed(t) && !t.IsRed() && Changed(t, c).Done?
    ensures NoRedRed(Changed(t, c).shape) && !Changed(t, c).shape.IsRed()
  {
    hide Insert, Remove, Plug, NoRedRed;
    match c
    case Put(n, key) => InsertRules(t, n, key);
    case Take(key) =>
      var place := Locate([], t, key);
      assert Plug([], t) == t by { PlugNone(t); }
      if place.1.Node? {
        RemoveNoRedRed(place.0, place.1);
      }
  }

  lemma PlugNone(t: Shape)
    ensures Plug([], t) == t
  {
  }

  // The tree after a run from an empty one, balanced or not: the colour rule and the black root are kept. A run
  // ends at the first tree_del that misses a sibling.
  function Play(cs: seq<Change>): (o: Outcome)
    ensures o.Done? ==> NoRedRed(o.shape) && !o.shape.IsRed()
  {
    if cs == [] then Done(Leaf)
    else
      var before, c := Play(cs[..|cs| - 1]), cs[|cs| - 1];
      if before.NoSibling? || Changed(before.shape, c).NoSibling? then NoSibling
      else
        ChangedRules(before.shape, c);
        Changed(before.shape, c)
  }

  // What a plain map holds after the same run.
  function Contents(cs: seq<Change>): map<int, TreeNode> {
    if cs == [] then map[]
    else
      var m := Contents(cs[..|cs| - 1]);
      match cs[|cs| - 1]
      case Put(n, key) => if key in m then m else m[key := n]
      case Take(key) => m - {key}
  }

  lemma RemoveAgrees(f: seq<Frame>, t: Shape, m: map<int, TreeNode>)
    requires t.Node? && Ordered(Plug(f, t)) && Remove(f, t).Done? && Agrees(Plug(f, t), m)
    ensures Ordered(Remove(f, t).shape) && Agrees(Remove(f, t).shape, m - {t.key})
  {
    hide Elems, Remove, Plug;
    var b, x, a := Before(f) + Elems(t.left), Item(t.n, t.key), Elems(t.right) + After(f);
    WholeElems(f, t);
    RemoveElems(f, t);
    TakeOut(b, x, a);
    BindsLess(b, x, a, m);
  }

  lemma BindsLess(b: seq<Item>, x: Item, a: seq<Item>, m: map<int, TreeNode>)
    requires Increasing(b + [x] + a) && Binds(b + [x] + a, m)
    ensures Binds(b + a, m - {x.key})
  {
    var e := b + [x] + a;
    assert e[|b|] == x;
    forall y | y in b + a ensures y in e && y.key != x.key {
      var i :| 0 <= i < |b + a| && (b + a)[i] == y;
      assert y == if i < |b| then e[i] else e[i + 1];
    }
    forall y | y in e && y != x ensures y in b + a {
    }
  }

  lemma ChangedAgrees(t: Shape, c: Change, m: map<int, TreeNode>)
    requires Ordered(t) && !t.IsRed() && Agrees(t, m) && Changed(t, c).Done?
    ensures Ordered(Changed(t, c).shape)
    ensures Agrees(Changed(t, c).shape, match c case Put(n, key) => (if key in m then m else m[key := n]) case Take(key) => m - {key})
  {
    hide Insert, Remove, Plug, Increasing, Elems, Locate;
    match c
    case Put(n, key) => InsertAgrees(t, m, n, key);
    case Take(key) =>
      var place := Locate([], t, key);
      PlugNone(t);
      BindsKeys(t, m, key);
      LocateKeys(t, key);
      if place.1.Node? {
        RemoveAgrees(place.0, place.1, m);
      } else {
        assert m - {key} == m;
      }
  }

  lemma LocateKeys(t: Shape, key: int)
    requires Ordered(t)
    ensures Locate([], t, key).1.Node? <==> key in Keys(t)
  {
    LocateAbsent(t, key);
    var place := Locate([], t, key);
    if place.1.Node? {
      KeyOfPlugged(place.0, place.1);
    }
  }

  // In every run, as far as it goes: search order, and the contents of the map.
  lemma {:induction false} PlayKeeps(cs: seq<Change>)
    requires Play(cs).Done?
    ensures Ordered(Play(cs).shape) && Agrees(Play(cs).shape, Contents(cs))
  {
    if cs != [] {
      hide Changed, Ordered, Agrees;
      var before, c := cs[..|cs| - 1], cs[|cs| - 1];
      PlayKeeps(before);
      ChangedAgrees(Play(before).shape, c, Contents(before));
    }
  }

  // After any run tree_find answers as the map does.
  lemma PlayLookup(cs: seq<Change>, key: int)
    requires Play(cs).Done?
    ensures Lookup(Play(cs).shape, key).Node? <==> key in Contents(cs)
    ensures key in Contents(cs) ==> Lookup(Play(cs).shape, key).n == Contents(cs)[key]
  {
    hide Play, Contents;
    var t, m := Play(cs).shape, Contents(cs);
    PlayKeeps(cs);
    if key in m {
      LookupExact(t, m[key], key);
    } else if Lookup(t, key).Node? {
      LookupExact(t, Lookup(t, key).n, key);
    }
  }

  // The next change ends a run exactly if it removes a key that is there from a place where tree_del is stuck.
  lemma StopsExactly(cs: seq<Change>, c: Change)
    requires Play(cs).Done?
    ensures var place := Locate([], Play(cs).shape, c.key);
      Play(cs + [c]).NoSibling? <==> c.Take? && c.key in Contents(cs) && place.1.Node? && Stuck(place.0, place.1)
  {
    hide Insert, Remove, Locate, Stuck, Contents;
    assert (cs + [c])[..|cs|] == cs;
    PlayLookup(cs, c.key);
    var place := Locate([], Play(cs).shape, c.key);
    if c.Take? && place.1.Node? {
      RemoveExactly(place.0, place.1);
    }
  }

  // ---------- A run that ends with a missing sibling ----------

  lemma PlayStep(cs: seq<Change>, c: Change)
    requires Play(cs).Done?
    ensures Play(cs + [c]) == Changed(Play(cs).shape, c)
  {
    assert (cs + [c])[..|cs|] == cs;
  }

  function Solo(n: TreeNode, key: int, red: bool): Shape {
    Node(n, key, red, Leaf, Leaf)
  }

  function Under(side: Side, t: Shape): Frame
    requires t.Node?
  {
    Frame(side, t.n, t.key, t.red, t.Kid(side.Other()))
  }

  lemma LocateStep(f: seq<Frame>, t: Shape, key: int)
    requires t.Node? && key != t.key
    ensures var side := if key < t.key then Left else Right;
      Locate(f, t, key) == Locate(f + [Under(side, t)], t.Kid(side), key)
  {
  }

  lemma LocateHere(f: seq<Frame>, t: Shape, key: int)
    requires t.Leaf? || key == t.key
    ensures Locate(f, t, key) == (f, t)
  {
  }

  // A search that ends at a place one below the root.
  lemma LocateBelow(t: Shape, key: int)
    requires t.Node? && key != t.key
    requires var s := t.Kid(if key < t.key then Left else Right); s.Leaf? || s.key == key
    ensures var side := if key < t.key then Left else Right;
      Locate([], t, key) == ([Under(side, t)], t.Kid(side))
  {
    hide Locate;
    var side := if key < t.key then Left else Right;
    LocateStep([], t, key);
    assert [] + [Under(side, t)] == [Under(side, t)];
    LocateHere([Under(side, t)], t.Kid(side), key);
  }

  lemma PlugOne(F: Frame, t: Shape)
    ensures Plug([F], t) == F.Over(t)
  {
    assert Init([F]) == [];
  }

  // A key that goes right below a black root.
  lemma PutBelow(t: Shape, n: TreeNode, key: int)
    requires t.Node? && !t.red && key != t.key && t.Kid(if key < t.key then Left else Right).Leaf?
    ensures Insert(t, n, key) == t.WithKid(if key < t.key then Left else Right, Solo(n, key, true))
  {
    hide Locate, FixInsert, Plug;
    var side := if key < t.key then Left else Right;
    var F, s := Under(side, t), Solo(n, key, true);
    LocateBelow(t, key);
    PlugOne(F, s);
    FixInsertDone([F], s);
  }

  // Key 4 comes below red 3: the parent and the uncle turn black.
  lemma PutFour(t: Shape, d: TreeNode)
    requires t.Node? && !t.red && t.key == 2 && t.left.IsRed() && t.right.IsRed()
    requires t.right.key == 3 && t.right.right.Leaf?
    ensures Insert(t, d, 4) == t.(left := t.left.Blacken(), right := t.right.(red := false, right := Solo(d, 4, true)))
  {
    hide Locate, FixInsert, Plug;
    var G, F, s := Under(Right, t), Under(Right, t.right), Solo(d, 4, true);
    LocateStep([], t, 4);
    assert [] + [G] == [G] && [G] + [F] == [G, F];
    LocateStep([G], t.right, 4);
    LocateHere([G, F], Leaf, 4);
    assert Insert(t, d, 4) == FixInsert([G, F], s);
    FixInsertRecolours(G, F, s);
  }

  lemma FixInsertRecolours(G: Frame, F: Frame, t: Shape)
    requires t.Node? && F.red && G.sib.IsRed() && !G.red
    ensures FixInsert([G, F], t) == Recolour(G, F, t).Blacken()
  {
    assert Init([G, F]) == [G] && Init([G]) == [];
    assert FixInsert([], Recolour(G, F, t)) == Recolour(G, F, t).Blacken();
  }

  // A red leaf two below the root goes, and nothing else changes.
  lemma TakeFour(t: Shape)
    requires t.Node? && !t.red && t.key == 2 && t.right.Node? && t.right.key == 3 && t.right.right.Node?
    requires t.right.right == Solo(t.right.right.n, 4, true)
    ensures Changed(t, Take(4)) == Done(t.(right := t.right.(right := Leaf)))
  {
    hide Locate, Plug;
    var G, F, s := Under(Right, t), Under(Right, t.right), t.right.right;
    LocateStep([], t, 4);
    assert [] + [G] == [G] && [G] + [F] == [G, F];
    LocateStep([G], t.right, 4);
    LocateHere([G, F], s, 4);
    assert Remove([G, F], s) == Done(Plug([G, F], Leaf));
    PlugTwo(G, F, Leaf);
  }

  lemma PlugTwo(G: Frame, F: Frame, t: Shape)
    ensures Plug([G, F], t) == G.Over(F.Over(t))
  {
    assert Init([G, F]) == [G];
    PlugOne(G, F.Over(t));
  }

  // Key 1 is taken out and comes back: a black leaf goes without a rotation, and a red one takes its place.
  function Witness(a: TreeNode, b: TreeNode, c: TreeNode, d: TreeNode): seq<Change> {
    [Put(b, 2), Put(a, 1), Put(c, 3), Put(d, 4), Take(4), Take(1), Put(a, 1)]
  }

  function Lopsided(a: TreeNode, b: TreeNode, c: TreeNode): Shape {
    Node(b, 2, false, Solo(a, 1, true), Solo(c, 3, false))
  }

  lemma WitnessGrows(a: TreeNode, b: TreeNode, c: TreeNode, d: TreeNode)
    ensures Play([Put(b, 2), Put(a, 1), Put(c, 3), Put(d, 4)])
         == Done(Node(b, 2, false, Solo(a, 1, false), Node(c, 3, false, Leaf, Solo(d, 4, true))))
  {
    hide Insert, Remove, Play, Locate;
    var one := Solo(b, 2, false);
    var two := Node(b, 2, false, Solo(a, 1, true), Leaf);
    var cs0: seq<Change>, cs1, cs2, cs3 := [], [Put(b, 2)], [Put(b, 2), Put(a, 1)], [Put(b, 2), Put(a, 1), Put(c, 3)];
    PlayFirst(b, 2);
    PutBelow(one, a, 1);
    PlayStep(cs1, Put(a, 1));
    assert cs1 + [Put(a, 1)] == cs2;
    PutBelow(two, c, 3);
    PlayStep(cs2, Put(c, 3));
    assert cs2 + [Put(c, 3)] == cs3;
    PutFour(Node(b, 2, false, Solo(a, 1, true), Solo(c, 3, true)), d);
    PlayStep(cs3, Put(d, 4));
    assert cs3 + [Put(d, 4)] == [Put(b, 2), Put(a, 1), Put(c, 3), Put(d, 4)];
  }

  lemma PlayFirst(n: TreeNode, key: int)
    ensures Play([Put(n, key)]) == Done(Solo(n, key, false))
  {
    hide FixInsert;
    assert [Put(n, key)][..0] == [];
    LocateHere([], Leaf, key);
    FixInsertDone([], Solo(n, key, true));
  }

  lemma WitnessShrinks(a: TreeNode, b: TreeNode, c: TreeNode, d: TreeNode)
    ensures Play(Witness(a, b, c, d)) == Done(Lopsided(a, b, c))
  {
    hide Insert, Remove, Play, Locate;
    var cs4 := [Put(b, 2), Put(a, 1), Put(c, 3), Put(d, 4)];
    var cs5, cs6 := cs4 + [Take(4)], cs4 + [Take(4), Take(1)];
    WitnessGrows(a, b, c, d);
    var four := Node(b, 2, false, Solo(a, 1, false), Node(c, 3, false, Leaf, Solo(d, 4, true)));
    TakeFour(four);
    PlayStep(cs4, Take(4));
    var three := Node(b, 2, false, Solo(a, 1, false), Solo(c, 3, false));
    assert Play(cs5) == Done(three);
    LocateBelow(three, 1);
    BlackLeafWitness(a, b, c);
    PlayStep(cs5, Take(1));
    assert cs5 + [Take(1)] == cs6;
    PutBelow(Node(b, 2, false, Leaf, Solo(c, 3, false)), a, 1);
    PlayStep(cs6, Put(a, 1));
    assert cs6 + [Put(a, 1)] == Witness(a, b, c, d);
  }

  // A run of additions and removals that ends with a tree_del without a sibling to look at: the root is to go, its
  // left child is red and has no children, and the black successor was its right child.
  lemma MissingSiblingRun(a: TreeNode, b: TreeNode, c: TreeNode, d: TreeNode)
    ensures Play(Witness(a, b, c, d)).Done?
    ensures Play(Witness(a, b, c, d) + [Take(2)]).NoSibling?
  {
    hide Play, Insert, Remove, Locate, Witness;
    var t := Lopsided(a, b, c);
    WitnessShrinks(a, b, c, d);
    PlayStep(Witness(a, b, c, d), Take(2));
    LocateHere([], t, 2);
    LopsidedStuck(a, b, c);
    RemoveExactly([], t);
  }

  lemma LopsidedStuck(a: TreeNode, b: TreeNode, c: TreeNode)
    ensures Stuck([], Lopsided(a, b, c))
  {
    var t := Lopsided(a, b, c);
    assert Stead([], t) == [Frame(Right, c, 3, false, t.left)];
    assert LeftSpine(Stead([], t), t.right) == Stead([], t);
  }

  // ---------- How deep the tree is ----------

  function Max(a: nat, b: nat): nat {
    if a < b then b else a
  }

  function Height(t: Shape): nat {
    if t.Leaf? then 0 else 1 + Max(Height(t.left), Height(t.right))
  }

  function Pow2(n: nat): nat {
    if n == 0 then 1 else 2 * Pow2(n - 1)
  }

  lemma {:induction false} Pow2Adds(a: nat, b: nat)
    ensures Pow2(a + b) == Pow2(a) * Pow2(b)
  {
    if a > 0 {
      Pow2Adds(a - 1, b);
      assert Pow2(a + b) == 2 * (Pow2(a - 1) * Pow2(b)) == (2 * Pow2(a - 1)) * Pow2(b);
    }
  }

  lemma {:induction false} Pow2Grows(a: nat, b: nat)
    requires a <= b
    ensures Pow2(a) <= Pow2(b)
    decreases b
  {
    if a < b {
      Pow2Grows(a, b - 1);
    }
  }

  lemma {:induction false} BalancedSize(t: Shape)
    requires NoRedRed(t) && Balanced(t)
    ensures Pow2(BlackHeight(t)) <= |Elems(t)| + 1
    ensures Height(t) <= 2 * BlackHeight(t) + (if t.IsRed() then 1 else 0)
  {
    if t.Node? {
      BalancedSize(t.left);
      BalancedSize(t.right);
    }
  }

  // A red-black tree of n nodes and height h has 2^h <= (n + 1)^2.
  lemma HeightBound(t: Shape)
    requires RedBlack(t)
    ensures Pow2(Height(t)) <= (|Elems(t)| + 1) * (|Elems(t)| + 1)
  {
    hide Height, BlackHeight, NoRedRed, Balanced, Elems;
    BalancedSize(t);
    Pow2Grows(Height(t), BlackHeight(t) + BlackHeight(t));
    Pow2Adds(BlackHeight(t), BlackHeight(t));
    SquareGrows(Pow2(BlackHeight(t)), |Elems(t)| + 1);
  }

  lemma SquareGrows(a: nat, b: nat)
    requires a <= b
    ensures a * a <= b * b
  {
    assert a * a <= a * b <= b * b;
  }

  // The search of tree_add and tree_find takes at most as many steps as the tree is high.
  lemma {:induction false} LocateDepth(f: seq<Frame>, t: Shape, key: int)
    ensures |f| <= |Locate(f, t, key).0| <= |f| + Height(t)
    decreases t
  {
    if t.Node? && key != t.key {
      var side := if key < t.key then Left else Right;
      var g := f + [Frame(side, t.n, t.key, t.red, t.Kid(side.Other()))];
      LocateDepth(g, t.Kid(side), key);
    }
  }

  lemma BuildSteps(adds: seq<Addition>, key: int)
    ensures var steps, n := |Locate([], Build(adds), key).0|, |Elems(Build(adds))|;
      Pow2(steps) <= (n + 1) * (n + 1)
  {
    BuildKeeps(adds);
    HeightBound(Build(adds));
    LocateDepth([], Build(adds), key);
    Pow2Grows(|Locate([], Build(adds), key).0|, Height(Build(adds)));
  }
}
