/** What holds in every run of an epoll port, whatever AFD and the user do. */
module PortRuns {
  import opened PollGroups
  import opened QueueContents
  import opened PortModel

  // One locked section of the library, with the answers AFD gives in it.
  datatype Event =
    | Add(s: SockState, newKey: int, made: PollGroup, events: bv32, data: int)
    | AddFails(made: PollGroup)
    | Mod(key: int, events: bv32, data: int)
    | Del(key: int, cancelOk: bool)
    | UpdateFirst(answer: AfdAnswer)
    | Complete(s: SockState, c: Completion)

  // Allocations return new objects, the user names a key that is or is not registered as the call needs,
  // and only completions that are owed arrive.
  predicate Allowed(p: Port, e: Event) {
    match e
    case Add(s, key, made, _, _) => s !in p.used && key !in p.tree && made !in p.groups.sizes
    case AddFails(made) => made !in p.groups.sizes
    case Mod(key, _, _) => key in p.tree
    case Del(key, _) => key in p.tree
    case UpdateFirst(_) => p.update != []
    case Complete(s, _) => s in p.owed
  }

  // Wrong stands for the use of an object that is not live and for a failing assert.
  datatype Result = Right(port: Port) | Wrong

  function Apply(p: Port, e: Event): Result
    requires Allowed(p, e)
  {
    match e
    case Add(s, key, made, events, data) =>
      if Known(p.groups.queue, p.groups.sizes) then Right(SetEvent(New(p, s, key, made), s, events, data)) else Wrong
    case AddFails(made) =>
      if Known(p.groups.queue, p.groups.sizes) then Right(NewFails(p, made)) else Wrong
    case Mod(key, events, data) =>
      var s := p.tree[key];
      if s in p.socks then Right(SetEvent(p, s, events, data)) else Wrong
    case Del(key, cancelOk) =>
      var s := p.tree[key];
      if HasSlot(p, s) then Right(Delete(p, s, false, cancelOk)) else Wrong
    case UpdateFirst(answer) =>
      var s := p.update[0];
      if !HasSlot(p, s) || p.socks[s].deletePending then Wrong
      else
        var o := Update(p, s, answer);
        Right(if o.Done? then o.port else p)
    case Complete(s, c) =>
      if HasSlot(p, s) then Right(Feed(p, s, c).0) else Wrong
  }

  // Nothing goes wrong in a state in order, and the state stays in order.
  lemma ApplyKeeps(p: Port, e: Event)
    requires PortInv(p) && Allowed(p, e)
    ensures Apply(p, e).Right? && PortInv(Apply(p, e).port)
  {
    hide PortInv, SetEvent, Delete, New, NewFails, Feed, Update, Deletable;
    LooksInside(p);
    match e
    case Add(s, key, made, events, data) => AddKeeps(p, s, key, made, events, data);
    case AddFails(made) => NewFailsKeeps(p, made);
    case Mod(key, events, data) =>
      Registered(p, key);
      SetEventKeeps(p, p.tree[key], events, data);
    case Del(key, cancelOk) =>
      Registered(p, key);
      DeleteKeeps(p, p.tree[key], false, cancelOk);
    case UpdateFirst(answer) => UpdateKeeps(p, p.update[0], answer);
    case Complete(s, c) => FeedKeeps(p, s, c);
  }

  function Empty(): Port {
    Port(map[], [], [], Groups([], map[], 0), map[], {}, {})
  }

  ghost predicate Step(p: Port, e: Event, p2: Port) {
    Allowed(p, e) && Apply(p, e) == Right(p2)
  }

  // The states of a run that goes right, one more than there are events.
  ghost predicate IsRun(states: seq<Port>, events: seq<Event>) {
    && |states| == |events| + 1 && states[0] == Empty()
    && forall i | 0 <= i < |events| :: Step(states[i], events[i], states[i + 1])
  }

  // Every state of every run is in order, and nothing that may happen next goes wrong.
  lemma {:induction false} EveryRun(states: seq<Port>, events: seq<Event>, i: nat)
    requires IsRun(states, events) && i < |states|
    ensures PortInv(states[i])
  {
    hide PortInv, Apply;
    if i > 0 {
      EveryRun(states, events, i - 1);
      assert Step(states[i - 1], events[i - 1], states[i]);
      ApplyKeeps(states[i - 1], events[i - 1]);
    } else {
      EmptyInv();
    }
  }

  lemma EmptyInv()
    ensures PortInv(Empty())
  {
  }

  lemma NeverWrong(states: seq<Port>, events: seq<Event>, e: Event)
    requires IsRun(states, events) && Allowed(states[|events|], e)
    ensures Apply(states[|events|], e).Right?
  {
    EveryRun(states, events, |events|);
    ApplyKeeps(states[|events|], e);
  }

  // ---------- What the invariant says ----------

  // Members of the update queue are not being deleted; members of the deleted queue are, and their
  // polls have yet to complete.
  lemma QueuesApart(states: seq<Port>, events: seq<Event>, i: nat, s: SockState)
    requires IsRun(states, events) && i < |states|
    ensures s in states[i].update ==> s in states[i].socks && !states[i].socks[s].deletePending
    ensures s in states[i].deleted ==>
      s in states[i].socks && states[i].socks[s].deletePending && states[i].socks[s].status != Idle && s in states[i].owed
  {
    EveryRun(states, events, i);
    if s in states[i].update || s in states[i].deleted {
      Inside(states[i], s);
      assert SockInv(states[i], s);
    }
  }

  // ---------- Freed once, and not too early ----------

  // A call about s makes no object live and ends the life of none but s.
  ghost predicate NoneBut(p: Port, p2: Port, s: SockState) {
    && p2.used == p.used && (forall x | x in p2.socks :: x in p.socks)
    && (forall x | x in p.socks && x != s :: x in p2.socks)
  }

  lemma DeleteNoneBut(p: Port, s: SockState, force: bool, cancelOk: bool)
    requires HasSlot(p, s)
    ensures NoneBut(p, Delete(p, s, force, cancelOk), s)
  {
    hide Without, Release;
  }

  lemma SetEventNoneBut(p: Port, s: SockState, events: bv32, data: int)
    requires s in p.socks
    ensures NoneBut(p, SetEvent(p, s, events, data), s) && s in SetEvent(p, s, events, data).socks
  {
  }

  lemma UpdateNoneBut(p: Port, s: SockState, a: AfdAnswer)
    requires HasSlot(p, s) && Update(p, s, a).Done?
    ensures NoneBut(p, Update(p, s, a).port, s)
    ensures s !in Update(p, s, a).port.socks ==> p.socks[s].status == Idle
  {
    hide Delete, Covers;
    if p.socks[s].status == Idle && a.submission == SocketClosed {
      DeleteNoneBut(p, s, false, a.cancelOk);
    }
  }

  lemma FeedNoneBut(p: Port, s: SockState, c: Completion)
    requires HasSlot(p, s)
    ensures NoneBut(p, Feed(p, s, c).0, s)
  {
    hide Delete, Covers, Wanted, OneShot, Dequeue;
    var p1 := p.(socks := p.socks[s := p.socks[s].(status := Idle, pendingEvents := 0)], owed := p.owed - {s});
    DeleteNoneBut(p1, s, false, true);
  }

  // The object a step is about, if there is one.
  function About(p: Port, e: Event): set<SockState>
    requires Allowed(p, e)
  {
    match e
    case Add(s, _, _, _, _) => {s}
    case AddFails(_) => {}
    case Mod(key, _, _) => {p.tree[key]}
    case Del(key, _) => {p.tree[key]}
    case UpdateFirst(_) => {p.update[0]}
    case Complete(s, _) => {s}
  }

  // No step brings an object back: what is live was live before, or is new.
  lemma UsedGrows(p: Port, e: Event, p2: Port)
    requires PortInv(p) && Step(p, e, p2)
    ensures p.used <= p2.used
    ensures forall x | x in p2.socks :: x in p.socks || x !in p.used
    ensures forall x | x in p.socks && x !in p2.socks :: x in About(p, e)
  {
    hide SetEvent, Delete, Feed, Update, Acquire, Release, SlotInv, SockInv;
    match e
    case Add(s, key, made, events, data) => SetEventNoneBut(New(p, s, key, made), s, events, data);
    case AddFails(made) =>
    case Mod(key, events, data) => SetEventNoneBut(p, p.tree[key], events, data);
    case Del(key, cancelOk) => DeleteNoneBut(p, p.tree[key], false, cancelOk);
    case UpdateFirst(answer) =>
      if Update(p, p.update[0], answer).Done? {
        UpdateNoneBut(p, p.update[0], answer);
      }
    case Complete(s, c) => FeedNoneBut(p, s, c);
  }

  // An object that has been freed is never live again: it is freed at most once.
  lemma {:induction false} DeadStaysDead(states: seq<Port>, events: seq<Event>, i: nat, j: nat, s: SockState)
    requires IsRun(states, events) && i <= j < |states|
    requires s in states[i].used && s !in states[i].socks
    ensures s in states[j].used && s !in states[j].socks
    decreases j
  {
    hide Apply, PortInv;
    if i < j {
      DeadStaysDead(states, events, i, j - 1, s);
      EveryRun(states, events, j - 1);
      assert Step(states[j - 1], events[j - 1], states[j]);
      UsedGrows(states[j - 1], events[j - 1], states[j]);
    }
  }

  // A step frees an object only when no completion is owed for it, or when it takes that completion.
  lemma FreedWhenIdle(p: Port, e: Event, p2: Port, s: SockState)
    requires PortInv(p) && Step(p, e, p2) && s in p.socks && s !in p2.socks
    ensures s !in p.owed || (e.Complete? && e.s == s)
  {
    hide Covers, SlotInv, SetEvent, Delete, Feed, Update;
    UsedGrows(p, e, p2);
    assert SockInv(p, s);
    match e
    case Mod(key, events, data) => SetEventNoneBut(p, p.tree[key], events, data);
    case Del(key, cancelOk) =>
      Registered(p, key);
      DeleteKeeps(p, p.tree[key], false, cancelOk);
    case UpdateFirst(answer) =>
      if Update(p, p.update[0], answer).Done? {
        UpdateNoneBut(p, p.update[0], answer);
      }
    case _ =>
  }

  // An object being deleted whose poll completes is freed then.
  lemma FreedOnCompletion(p: Port, s: SockState, c: Completion, p2: Port)
    requires PortInv(p) && Step(p, Complete(s, c), p2) && s in p.deleted
    ensures s !in p2.socks
  {
    hide Covers, SlotInv, Feed;
    Inside(p, s);
    assert SockInv(p, s);
    FeedKeeps(p, s, c);
  }
}
