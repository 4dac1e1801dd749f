/** The socket tree of a port: the map of the runs is what the red-black tree holds. */
module PortTree {
  import opened TreeNodes
  import Insertion = RedBlackInsert
  import Removal = RedBlackRemove
  import Runs = RedBlackRuns
  import opened PortModel
  import opened PortRuns

  // What one section does to the tree; `node` gives the tree node inside a socket object.
  function TreeChange(p: Port, e: Event, node: SockState -> TreeNode): seq<Runs.Change>
    requires Allowed(p, e) && Apply(p, e).Right?
  {
    match e
    case Add(s, key, _, _, _) => [Runs.Put(node(s), key)]
    case AddFails(_) => []
    case Mod(_, _, _) => []
    case Del(key, _) => if p.socks[p.tree[key]].deletePending then [] else [Runs.Take(p.socks[p.tree[key]].key)]
    case UpdateFirst(answer) =>
      var sock := p.socks[p.update[0]];
      if sock.status.Idle? && answer.submission.SocketClosed? then [Runs.Take(sock.key)] else []
    case Complete(s, c) =>
      if !p.socks[s].deletePending && LocallyClosed(c) then [Runs.Take(p.socks[s].key)] else []
  }

  function Changed(m: map<int, SockState>, cs: seq<Runs.Change>, e: Event): map<int, SockState> {
    if cs == [] then m
    else match cs[0]
      case Put(_, key) => if e.Add? then m[key := e.s] else m
      case Take(key) => m - {key}
  }

  lemma DeleteTree(p: Port, s: SockState, force: bool, cancelOk: bool)
    requires HasSlot(p, s)
    ensures Delete(p, s, force, cancelOk).tree == if p.socks[s].deletePending then p.tree else p.tree - {p.socks[s].key}
  {
    hide QueueContents.Without, PollGroups.Release;
  }

  lemma SetEventTree(p: Port, s: SockState, events: bv32, data: int)
    requires s in p.socks
    ensures SetEvent(p, s, events, data).tree == p.tree
  {
    hide Covers;
  }

  lemma UpdateTree(p: Port, s: SockState, a: AfdAnswer)
    requires HasSlot(p, s) && !p.socks[s].deletePending
    ensures var o, gone := Update(p, s, a), p.socks[s].status.Idle? && a.submission.SocketClosed?;
      (gone ==> o.Done?) && (o.Done? ==> o.port.tree == if gone then p.tree - {p.socks[s].key} else p.tree)
  {
    hide Covers, EpollToAfd, QueueContents.Without, Delete;
    DeleteTree(p, s, false, a.cancelOk);
  }

  lemma FeedTree(p: Port, s: SockState, c: Completion)
    requires HasSlot(p, s)
    ensures Feed(p, s, c).0.tree ==
      if !p.socks[s].deletePending && LocallyClosed(c) then p.tree - {p.socks[s].key} else p.tree
  {
    hide Wanted, OneShot, LocallyClosed, Delete;
    var p1 := p.(socks := p.socks[s := p.socks[s].(status := Idle, pendingEvents := 0)], owed := p.owed - {s});
    DeleteTree(p1, s, false, true);
  }

  lemma StepTree(p: Port, e: Event, node: SockState -> TreeNode)
    requires Allowed(p, e) && Apply(p, e).Right?
    ensures Apply(p, e).port.tree == Changed(p.tree, TreeChange(p, e, node), e)
  {
    hide Delete, SetEvent, Update, Feed, LocallyClosed, PollGroups.Acquire, PollGroups.Release;
    match e
    case Add(s, key, made, events, data) => SetEventTree(New(p, s, key, made), s, events, data);
    case AddFails(made) =>
    case Mod(key, events, data) => SetEventTree(p, p.tree[key], events, data);
    case Del(key, cancelOk) => DeleteTree(p, p.tree[key], false, cancelOk);
    case UpdateFirst(answer) =>
      UpdateTree(p, p.update[0], answer);
    case Complete(s, c) => FeedTree(p, s, c);
  }

  // What a run does to the tree.
  ghost function Changes(states: seq<Port>, events: seq<Event>, n: nat, node: SockState -> TreeNode): seq<Runs.Change>
    requires IsRun(states, events) && n <= |events|
  {
    if n == 0 then []
    else
      assert Step(states[n - 1], events[n - 1], states[n]);
      Changes(states, events, n - 1, node) + TreeChange(states[n - 1], events[n - 1], node)
  }

  // The same bindings, with sockets for the nodes in them.
  ghost predicate Mirrors(m: map<int, TreeNode>, tree: map<int, SockState>, node: SockState -> TreeNode) {
    m.Keys == tree.Keys && forall k | k in tree :: m[k] == node(tree[k])
  }

  lemma MirrorsMore(m: map<int, TreeNode>, p: Port, e: Event, cs: seq<Runs.Change>, node: SockState -> TreeNode)
    requires Allowed(p, e) && Apply(p, e).Right? && Runs.Contents(cs) == m && Mirrors(m, p.tree, node)
    ensures Mirrors(Runs.Contents(cs + TreeChange(p, e, node)), Apply(p, e).port.tree, node)
  {
    hide Apply;
    StepTree(p, e, node);
    var more := TreeChange(p, e, node);
    if more == [] {
      assert cs + more == cs;
    } else {
      assert more == [more[0]] && (cs + more)[..|cs|] == cs;
    }
  }

  // In every run the map of the port and the map of its tree changes are the same.
  lemma {:induction false} TreeFollows(states: seq<Port>, events: seq<Event>, n: nat, node: SockState -> TreeNode)
    requires IsRun(states, events) && n <= |events|
    ensures Mirrors(Runs.Contents(Changes(states, events, n, node)), states[n].tree, node)
  {
    hide Apply, TreeChange;
    if n > 0 {
      TreeFollows(states, events, n - 1, node);
      assert Step(states[n - 1], events[n - 1], states[n]);
      var cs := Changes(states, events, n - 1, node);
      MirrorsMore(Runs.Contents(cs), states[n - 1], events[n - 1], cs, node);
    }
  }

  // So as long as no tree_del of the run was stuck, a search of the tree finds exactly the registered sockets.
  lemma TreeHolds(states: seq<Port>, events: seq<Event>, n: nat, node: SockState -> TreeNode, key: int)
    requires IsRun(states, events) && n <= |events| && Runs.Play(Changes(states, events, n, node)).Done?
    ensures var found := Runs.Lookup(Runs.Play(Changes(states, events, n, node)).shape, key);
      (found.Node? <==> key in states[n].tree) && (found.Node? ==> found.n == node(states[n].tree[key]))
  {
    hide Runs.Play, Runs.Contents, Runs.Lookup, Changes;
    TreeFollows(states, events, n, node);
    Runs.PlayLookup(Changes(states, events, n, node), key);
  }

  // And the next section is stuck exactly if it takes a socket out of a place where tree_del is.
  lemma {:induction false} NextStuck(states: seq<Port>, events: seq<Event>, e: Event, node: SockState -> TreeNode)
    requires IsRun(states, events) && Allowed(states[|events|], e) && Apply(states[|events|], e).Right?
    requires Runs.Play(Changes(states, events, |events|, node)).Done?
    ensures var cs, more := Changes(states, events, |events|, node), TreeChange(states[|events|], e, node);
      Runs.Play(cs + more).NoSibling? <==>
        (more != [] && more[0].Take? && more[0].key in states[|events|].tree
         && var place := Insertion.Locate([], Runs.Play(cs).shape, more[0].key); Removal.Stuck(place.0, place.1))
  {
    hide Apply, Runs.Play, Runs.Contents, Changes, Removal.Stuck;
    var cs, more := Changes(states, events, |events|, node), TreeChange(states[|events|], e, node);
    TreeFollows(states, events, |events|, node);
    if more == [] {
      assert cs + more == cs;
    } else {
      assert more == [more[0]];
      Runs.StopsExactly(cs, more[0]);
      Runs.PlayLookup(cs, more[0].key);
    }
  }
}
