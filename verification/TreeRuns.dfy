/** Runs of additions and removals over linked nodes, the way ts_tree_add and ts_tree_del_and_ref make them. */
module TreeRuns {
  import opened TreeNodes
  import opened RedBlackShape
  import opened RedBlackInsert
  import opened RedBlackRemove
  import opened RedBlackRuns
  import opened TreeLinks
  import opened WepollTree

  // The node that a search ends at stands where the search ended.
  lemma {:induction false} FocusLocates(f: seq<Frame>, t: Shape, key: int)
    requires Distinct(t) && Locate(f, t, key).1.Node?
    ensures var place := Locate(f, t, key); place.1.n in Nodes(t) && Focus(f, t, place.1.n) == place
    decreases t
  {
    if t.Node? && key != t.key {
      var side := if key < t.key then Left else Right;
      FocusLocates(f + [Frame(side, t.n, t.key, t.red, t.Kid(side.Other()))], t.Kid(side), key);
    }
  }

  // Looks the key up, and takes the node out if there is one. Nothing changes for a key that is not there.
  method DelKey(tree: Tree, key: int) returns (node: TreeNode?, ok: bool)
    requires tree.Valid() && !tree.shape.IsRed()
    modifies tree, tree.memory.Keys
    ensures tree.Valid() && tree.memory.Keys == old(tree.memory.Keys) - {node}
    ensures node == Ref(Locate([], old(tree.shape), key).1)
    ensures ok <==> Changed(old(tree.shape), Take(key)).Done?
    ensures ok ==> tree.shape == Changed(old(tree.shape), Take(key)).shape
  {
    hide Remove, Locate, Focus, Nodes, Distinct, Linked, Stuck;
    node := tree.Find(key);
    ok := true;
    if node != null {
      FocusLocates([], tree.shape, key);
      ok := tree.Del(node);
    }
  }

  datatype Request = Add(key: int) | Del(key: int)

  // The changes that requests stand for, each addition with a node of its own.
  ghost predicate Answers(cs: seq<Change>, requests: seq<Request>) {
    && |cs| == |requests|
    && forall i | 0 <= i < |cs| :: cs[i].key == requests[i].key && (cs[i].Put? <==> requests[i].Add?)
  }

  // Any requests in turn, from an empty tree. The links agree all the way. The run is over when all requests
  // are done, or at the first removal that the run on shapes says is stuck.
  method Perform(requests: seq<Request>) returns (tree: Tree, done: nat, ghost cs: seq<Change>)
    ensures fresh(tree) && tree.Valid() && done <= |requests| && Answers(cs, requests[..done])
    ensures done == |requests| ==> Play(cs) == Done(tree.shape)
    ensures done == |requests| ==> Ordered(tree.shape) && NoRedRed(tree.shape) && Agrees(tree.shape, Contents(cs))
    ensures done < |requests| ==> requests[done].Del? && Play(cs).Done?
    ensures done < |requests| ==> Play(cs + [Take(requests[done].key)]).NoSibling?
  {
    hide Play, Insert, Remove, Locate, Linked, Distinct, Nodes, Contents, Elems, NoRedRed;
    tree := new Tree();
    done, cs := 0, [];
    PlayNone();
    while done < |requests|
      invariant fresh(tree) && fresh(tree.memory.Keys) && tree.Valid()
      invariant done <= |requests| && Answers(cs, requests[..done])
      invariant Play(cs) == Done(tree.shape)
    {
      var request := requests[done];
      ghost var before, c := tree.shape, Take(request.key);
      if request.Add? {
        var node := new TreeNode();
        c := Put(node, request.key);
        InsertFound(before, node, request.key);
        var r := tree.Add(node, request.key);
      } else {
        var node, ok := DelKey(tree, request.key);
        if !ok {
          PlayStep(cs, c);
          return;
        }
      }
      PlayStep(cs, c);
      cs, done := cs + [c], done + 1;
    }
    PlayKeeps(cs);
  }

  lemma InsertFound(t: Shape, n: TreeNode, key: int)
    requires !t.IsRed()
    ensures Locate([], t, key).1.Node? ==> Insert(t, n, key) == t
  {
  }

  lemma PlayNone()
    ensures Play([]) == Done(Leaf)
  {
  }
}
