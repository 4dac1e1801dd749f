/** The port of wepoll.c over objects that its calls update in place. */
module WepollPort {
  import opened PollGroups
  import opened QueueContents
  import opened Sequences
  import Model = PortModel
  import opened PortModel

  const INVALID_SOCKET: int := 0xFFFF_FFFF_FFFF_FFFF

  // The two values sock_new takes for no socket.
  predicate IsSocket(key: int) {
    key != 0 && key != INVALID_SOCKET
  }

  // port_state_t. The socket tree is a map here (Tree.dfy has the tree); the queues are sequences
  // (Queue.dfy has the linked queue). `model` is the port as a value.
  class EpollPort {
    var sockTree: map<int, SockState>
    var sockUpdateQueue: seq<SockState>
    var sockDeletedQueue: seq<SockState>
    var pollGroupQueue: seq<PollGroup>
    var activePollCount: nat
    ghost var model: Model.Port

    static ghost function Fields(s: SockState): Sock
      reads s
    {
      Sock(s.key, s.userData, s.userEvents, s.pendingEvents, s.polledEvents, s.pollStatus, s.deletePending, s.pollGroup)
    }

    // The objects and queues hold what the model says.
    ghost predicate Matches()
      reads this, model.socks.Keys, model.groups.sizes.Keys
    {
      && sockTree == model.tree && sockUpdateQueue == model.update && sockDeletedQueue == model.deleted
      && pollGroupQueue == model.groups.queue
      && (forall s | s in model.socks.Keys :: Fields(s) == model.socks[s])
      && (forall g | g in model.groups.sizes.Keys :: g.groupSize == model.groups.sizes[g])
    }

    ghost predicate Valid()
      reads this, model.socks.Keys, model.groups.sizes.Keys
    {
      Matches() && PortInv(model)
    }

    // The memset and the initialisations of port_new.
    constructor ()
      ensures Valid() && model.socks == map[] && model.groups.sizes == map[]
    {
      sockTree, sockUpdateQueue, sockDeletedQueue, pollGroupQueue := map[], [], [], [];
      activePollCount := 0;
      model := Model.Port(map[], [], [], Groups([], map[], 0), map[], {}, {});
    }

    // port_new, with the two ways it fails.
    static method PortNew(memory: bool, iocp: bool) returns (port: EpollPort?)
      ensures port != null <==> memory && iocp
      ensures port != null ==> fresh(port) && port.Valid() && port.model.socks == map[] && port.model.groups.sizes == map[]
    {
      port := null;
      if !memory || !iocp {
        return;
      }
      port := new EpollPort();
    }

    // ---------- Poll groups ----------

    // poll_group_acquire; `memory` says whether a group can be made should one be needed.
    method PollGroupAcquire(memory: bool) returns (g: PollGroup?)
      requires Matches() && Known(model.groups.queue, model.groups.sizes)
      modifies this`pollGroupQueue, this`model, model.groups.sizes.Keys
      ensures Matches()
      ensures g != null <==> memory || old(HasRoom(model.groups))
      ensures g == null ==> model == old(model)
      ensures g != null ==> model == old(model).(groups := Acquire(old(model).groups, g))
      ensures g != null ==> g == Pick(old(model).groups, g)
      ensures g != null ==> CanMake(old(model).groups, g) && (fresh(g) || g in old(model).groups.sizes)
    {
      hide Without, Total;
      ghost var groups := model.groups;
      var last := |pollGroupQueue| - 1;
      if last >= 0 && pollGroupQueue[last].groupSize < MAX_GROUP_SIZE {
        g := pollGroupQueue[last];
      } else if memory {
        g := new PollGroup();
        pollGroupQueue := pollGroupQueue + [g];
      } else {
        return null;
      }
      var group: PollGroup := g;
      group.groupSize := group.groupSize + 1;
      if group.groupSize == MAX_GROUP_SIZE {
        pollGroupQueue := ToStart(pollGroupQueue, group);
      }
      model := model.(groups := Acquire(groups, group));
    }

    // poll_group_release
    method PollGroupRelease(g: PollGroup)
      requires Matches() && g in model.groups.sizes && 0 < model.groups.sizes[g] <= MAX_GROUP_SIZE
      modifies this`pollGroupQueue, this`model, g
      ensures Matches() && model == old(model).(groups := Release(old(model).groups, g))
    {
      g.groupSize := g.groupSize - 1;
      assert g.groupSize < MAX_GROUP_SIZE;
      pollGroupQueue := ToEnd(pollGroupQueue, g);
      model := model.(groups := Release(model.groups, g));
    }

    // ---------- Queues ----------

    // port_request_socket_update
    method RequestSocketUpdate(s: SockState)
      requires Matches()
      modifies this`sockUpdateQueue, this`model
      ensures Matches() && model == RequestUpdate(old(model), s)
    {
      if s in sockUpdateQueue || s in sockDeletedQueue {
        return;
      }
      sockUpdateQueue := sockUpdateQueue + [s];
      model := RequestUpdate(model, s);
    }

    // port_cancel_socket_update and port_remove_deleted_socket
    method DequeueSocket(s: SockState)
      requires Matches()
      modifies this`sockUpdateQueue, this`sockDeletedQueue, this`model
      ensures Matches() && model == Dequeue(old(model), s)
    {
      if s in sockUpdateQueue || s in sockDeletedQueue {
        sockUpdateQueue := Without(sockUpdateQueue, s);
        sockDeletedQueue := Without(sockDeletedQueue, s);
      }
      model := Dequeue(model, s);
    }

    // port_add_deleted_socket
    method AddDeletedSocket(s: SockState)
      requires Matches()
      modifies this`sockDeletedQueue, this`model
      ensures Matches() && model == AddDeleted(old(model), s)
    {
      if s in sockUpdateQueue || s in sockDeletedQueue {
        return;
      }
      sockDeletedQueue := sockDeletedQueue + [s];
      model := AddDeleted(model, s);
    }

    // ---------- Sockets ----------

    // sock__cancel_poll
    method SockCancelPoll(s: SockState, cancelOk: bool) returns (r: int)
      requires Matches() && s in model.socks && model.socks[s].status == Pending
      modifies this`model, s`pollStatus, s`pendingEvents
      ensures Matches() && r == (if cancelOk then 0 else -1)
      ensures model == if cancelOk then CancelPoll(old(model), s) else old(model)
    {
      if !cancelOk {
        return -1;
      }
      s.pollStatus := Cancelled;
      s.pendingEvents := 0;
      model := CancelPoll(model, s);
      r := 0;
    }

    method CancelIfPending(s: SockState, cancelOk: bool)
      requires Matches() && s in model.socks
      modifies this`model, s`pollStatus, s`pendingEvents
      ensures Matches()
      ensures model == if old(model).socks[s].status == Pending && cancelOk then CancelPoll(old(model), s) else old(model)
    {
      if s.pollStatus == Pending {
        var _ := SockCancelPoll(s, cancelOk);
      }
    }

    // sock__delete, the half for a socket that is not being deleted yet.
    method SockRetire(s: SockState, cancelOk: bool)
      requires Matches() && s in model.socks
      modifies this`sockTree, this`sockUpdateQueue, this`sockDeletedQueue, this`model, s
      ensures Matches() && model == Retire(old(model), s, cancelOk)
    {
      hide Dequeue;
      CancelIfPending(s, cancelOk);
      DequeueRest(model, s);
      DequeueSocket(s);
      UnregisterSocket(s);
    }

    // port_unregister_socket, and the mark that the socket is being deleted.
    method UnregisterSocket(s: SockState)
      requires Matches() && s in model.socks
      modifies this`sockTree, this`model, s`deletePending
      ensures Matches()
      ensures var p, sock := old(model), old(model).socks[s];
        model == p.(tree := p.tree - {sock.key}, socks := p.socks[s := sock.(deletePending := true)])
    {
      sockTree := sockTree - {s.key};
      s.deletePending := true;
      model := model.(tree := model.tree - {s.key}, socks := model.socks[s := model.socks[s].(deletePending := true)]);
    }

    // sock__delete, the half that frees the object.
    method SockFree(s: SockState)
      requires Matches() && HasSlot(model, s) && model.groups.sizes[model.socks[s].group] <= MAX_GROUP_SIZE
      modifies this`sockUpdateQueue, this`sockDeletedQueue, this`pollGroupQueue, this`model, s.pollGroup
      ensures Matches() && model == Free(old(model), s)
    {
      ghost var p := model;
      DequeueSocket(s);
      PollGroupRelease(s.pollGroup);
      model := model.(socks := model.socks - {s}, owed := model.owed - {s});
    }

    // sock__delete
    method SockDelete(s: SockState, force: bool, cancelOk: bool)
      requires Matches() && HasSlot(model, s) && model.groups.sizes[model.socks[s].group] <= MAX_GROUP_SIZE
      modifies this, s, s.pollGroup
      ensures Matches() && model == Delete(old(model), s, force, cancelOk)
      ensures activePollCount == old(activePollCount)
    {
      hide Retire, Free, AddDeleted;
      if !s.deletePending {
        RetireStatus(model, s, cancelOk);
        SockRetire(s, cancelOk);
      }
      if force || s.pollStatus == Idle {
        SockFree(s);
      } else {
        AddDeletedSocket(s);
      }
    }

    method StoreEvents(s: SockState, wanted: bv32, data: int)
      requires Matches() && s in model.socks
      modifies this`model, s`userEvents, s`userData
      ensures Matches()
      ensures model == old(model).(socks :=
        old(model).socks[s := old(model).socks[s].(userEvents := wanted, userData := data)])
    {
      s.userEvents := wanted;
      s.userData := data;
      model := model.(socks := model.socks[s := Fields(s)]);
    }

    // sock_set_event
    method SockSetEvent(s: SockState, events: bv32, data: int) returns (r: int)
      requires Matches() && s in model.socks
      modifies this`sockUpdateQueue, this`model, s
      ensures Matches() && model == SetEvent(old(model), s, events, data) && r == 0
    {
      hide RequestUpdate, Covers;
      var wanted := events | EPOLLERR | EPOLLHUP;
      StoreEvents(s, wanted, data);
      if !Covers(s.pendingEvents, wanted) {
        RequestSocketUpdate(s);
      }
      r := 0;
    }

    // The poll request was accepted: the socket is polled for what the user wants now.
    method StorePoll(s: SockState)
      requires Matches() && s in model.socks
      modifies this`model, s`polledEvents, s`pollStatus, s`pendingEvents
      ensures Matches()
      ensures var p, sock := old(model), old(model).socks[s];
        model == p.(socks := p.socks[s := sock.(status := Pending, pendingEvents := sock.userEvents,
                                                polled := EpollToAfd(sock.userEvents))],
                    owed := p.owed + {s})
    {
      hide EpollToAfd;
      s.polledEvents := EpollToAfd(s.userEvents);
      s.pollStatus := Pending;
      s.pendingEvents := s.userEvents;
      ghost var sock := old(model).socks[s];
      assert Fields(s) == sock.(status := Pending, pendingEvents := sock.userEvents, polled := EpollToAfd(sock.userEvents));
      model := model.(socks := model.socks[s := Fields(s)], owed := model.owed + {s});
    }

    // sock_update, with the answer of AFD should it be asked.
    method SockUpdate(s: SockState, a: AfdAnswer) returns (r: int)
      requires Matches() && HasSlot(model, s) && model.groups.sizes[model.socks[s].group] <= MAX_GROUP_SIZE
      requires !model.socks[s].deletePending
      modifies this, s, s.pollGroup
      ensures Matches() && activePollCount == old(activePollCount)
      ensures r == 0 ==> Update(old(model), s, a) == Done(model)
      ensures r != 0 ==> r == -1 && Update(old(model), s, a) == Failed && model == old(model)
    {
      hide Covers, Delete, Dequeue;
      assert !s.deletePending;
      if s.pollStatus == Pending && Covers(s.pendingEvents, s.userEvents) {
      } else if s.pollStatus == Pending {
        r := SockCancelPoll(s, a.cancelOk);
        if r < 0 {
          return;
        }
      } else if s.pollStatus == Cancelled {
      } else {
        match a.submission
        case SocketClosed =>
          SockDelete(s, false, a.cancelOk);
          return 0;
        case Refused =>
          return -1;
        case Accepted =>
          StorePoll(s);
      }
      DequeueSocket(s);
      r := 0;
    }

    // The completion has arrived: the poll is over.
    method StoreIdle(s: SockState)
      requires Matches() && s in model.socks
      modifies this`model, s`pollStatus, s`pendingEvents
      ensures Matches()
      ensures var p, sock := old(model), old(model).socks[s];
        model == p.(socks := p.socks[s := sock.(status := Idle, pendingEvents := 0)], owed := p.owed - {s})
    {
      s.pollStatus := Idle;
      s.pendingEvents := 0;
      assert Fields(s) == old(model).socks[s].(status := Idle, pendingEvents := 0);
      model := model.(socks := model.socks[s := Fields(s)], owed := model.owed - {s});
    }

    // The end of sock_feed_event: ask for a new poll, and report what the user wants to know.
    method SockNotify(s: SockState, c: Completion) returns (count: int, data: int, events: bv32)
      requires Matches() && s in model.socks
      modifies this`sockUpdateQueue, this`model, s`userEvents, s`userData
      ensures Matches()
      ensures (model, events) == Notify(old(model), s, c)
      ensures count == (if events != 0 then 1 else 0) && (count == 1 ==> data == old(model).socks[s].userData)
    {
      hide RequestUpdate, Wanted, OneShot;
      RequestRest(model, s);
      RequestSocketUpdate(s);
      events := Wanted(c, s.userEvents);
      count, data := 0, 0;
      if events != 0 {
        count, data := 1, s.userData;
        if OneShot(s.userEvents) {
          StoreEvents(s, 0, s.userData);
        }
      }
    }

    // sock_feed_event. A report carries the user's data and the events, which are not 0.
    method SockFeedEvent(s: SockState, c: Completion) returns (count: int, data: int, events: bv32)
      requires Matches() && HasSlot(model, s) && model.groups.sizes[model.socks[s].group] <= MAX_GROUP_SIZE
      modifies this, s, s.pollGroup
      ensures Matches() && activePollCount == old(activePollCount)
      ensures (model, events) == Feed(old(model), s, c)
      ensures count == (if events != 0 then 1 else 0) && (count == 1 ==> data == old(model).socks[s].userData)
    {
      hide Delete, Notify, LocallyClosed;
      StoreIdle(s);
      if s.deletePending || LocallyClosed(c) {
        SockDelete(s, false, true);
        count, data, events := 0, 0, 0;
      } else {
        count, data, events := SockNotify(s, c);
      }
    }

    // port__update_events
    method UpdateEvents(answers: seq<AfdAnswer>) returns (r: int)
      requires Valid() && |answers| >= |model.update|
      modifies this, model.socks.Keys, model.groups.sizes.Keys
      ensures Valid() && activePollCount == old(activePollCount)
      ensures (model, r == 0) == UpdateAll(old(model), answers) && (r == 0 || r == -1)
    {
      hide PortInv, Update;
      var i := 0;
      while sockUpdateQueue != []
        invariant Valid() && activePollCount == old(activePollCount) && i + |model.update| <= |answers|
        invariant UpdateAll(model, answers[i..]) == UpdateAll(old(model), answers)
        invariant model.socks.Keys <= old(model.socks.Keys) && model.groups.sizes.Keys == old(model.groups.sizes.Keys)
        decreases |sockUpdateQueue|
      {
        var s := sockUpdateQueue[0];
        UpdateKeeps(model, s, answers[i]);
        SmallGroup(model, s);
        if Update(model, s, answers[i]).Done? {
          UpdateKeys(model, s, answers[i]);
        }
        assert answers[i..][0] == answers[i] && answers[i..][1..] == answers[i + 1..];
        r := SockUpdate(s, answers[i]);
        if r < 0 {
          return -1;
        }
        i := i + 1;
      }
      return 0;
    }

    // port__update_events_if_polling
    method UpdateEventsIfPolling(answers: seq<AfdAnswer>)
      requires Valid() && |answers| >= |model.update|
      modifies this, model.socks.Keys, model.groups.sizes.Keys
      ensures Valid() && activePollCount == old(activePollCount)
      ensures model == UpdateIfPolling(old(model), activePollCount > 0, answers)
    {
      if activePollCount > 0 {
        var _ := UpdateEvents(answers);
      }
    }

    // ---------- Calls from outside ----------

    // port_register_socket, with the object made for it.
    method SockRegister(key: int, g: PollGroup) returns (s: SockState)
      requires Matches()
      modifies this`sockTree, this`model
      ensures Matches() && fresh(s) && s.pollGroup == g && s !in old(model).used
      ensures var p, sock := old(model), Sock(key, 0, 0, 0, 0, Idle, false, g);
        model == p.(tree := p.tree[key := s], socks := p.socks[s := sock], used := p.used + {s})
    {
      s := new SockState(key, g);
      sockTree := sockTree[key := s];
      model := model.(tree := model.tree[key := s], socks := model.socks[s := Sock(key, 0, 0, 0, 0, Idle, false, g)],
                      used := model.used + {s});
    }

    // sock_new: takes a slot, makes the object and registers it. `groupMemory` and `sockMemory` say
    // whether the two allocations succeed.
    method SockNew(key: int, hasBase: bool, groupMemory: bool, sockMemory: bool) returns (s: SockState?)
      requires Valid()
      modifies this`sockTree, this`pollGroupQueue, this`model, model.groups.sizes.Keys
      ensures Matches()
      ensures s != null <==>
        (IsSocket(key) && hasBase && key !in old(model).tree && sockMemory && (groupMemory || old(HasRoom(model.groups))))
      ensures s != null ==> fresh(s) && CanMake(old(model).groups, s.pollGroup) && s !in old(model).used
      ensures s != null ==> fresh(s.pollGroup) || s.pollGroup in old(model).groups.sizes
      ensures s != null ==> s.pollGroup == Pick(old(model).groups, s.pollGroup)
      ensures s != null ==> model == New(old(model), s, key, s.pollGroup)
      ensures s == null ==> PortInv(model) && model == old(model).(groups := model.groups)
      ensures !IsSocket(key) || !hasBase ==> model == old(model)
    {
      hide PortInv, Acquire, Release, HasRoom;
      LooksInside(model);
      ghost var p := model;
      s := null;
      if !IsSocket(key) || !hasBase {
        return;
      }
      var g := PollGroupAcquire(groupMemory);
      if g == null {
        return;
      }
      TakenSlot(p.groups, g);
      if sockMemory && key !in sockTree {
        s := SockRegister(key, g);
      } else {
        PollGroupRelease(g);
        NewFailsKeeps(p, g);
        assert model == NewFails(p, g);
      }
    }

    // One packet of port__feed_events: a completion that is owed.
    method FeedEvent(s: SockState, c: Completion) returns (count: int, data: int, events: bv32)
      requires Valid() && s in model.owed
      modifies this, model.socks.Keys, model.groups.sizes.Keys
      ensures Valid() && activePollCount == old(activePollCount)
      ensures HasSlot(old(model), s) && (model, events) == Feed(old(model), s, c)
      ensures count == (if events != 0 then 1 else 0) && (count == 1 ==> data == old(model).socks[s].userData)
    {
      hide Feed;
      FeedKeeps(model, s, c);
      SmallGroup(model, s);
      count, data, events := SockFeedEvent(s, c);
    }

    // port__feed_events: all packets in turn. The reports fill the first places of the array of events.
    method FeedEvents(packets: seq<Packet>) returns (count: nat, reports: seq<Report>)
      requires Valid() && Arrived(model, packets)
      modifies this, model.socks.Keys, model.groups.sizes.Keys
      ensures Valid() && activePollCount == old(activePollCount)
      ensures (model, reports) == FeedAll(old(model), packets) && count == |reports|
    {
      hide PortInv, Feed, Arrived;
      reports := [];
      assert packets[0..] == packets && [] + FeedAll(model, packets).1 == FeedAll(model, packets).1;
      for i := 0 to |packets|
        invariant Valid() && activePollCount == old(activePollCount) && Arrived(model, packets[i..])
        invariant FeedAll(old(model), packets) == (FeedAll(model, packets[i..]).0, reports + FeedAll(model, packets[i..]).1)
        invariant model.socks.Keys <= old(model.socks.Keys) && model.groups.sizes.Keys == old(model.groups.sizes.Keys)
      {
        ghost var p, was := model, reports;
        var packet := packets[i];
        assert packets[i..][0] == packet && packets[i..][1..] == packets[i + 1..];
        FeedFirst(p, packets[i..]);
        var more, data, events := FeedEvent(packet.s, packet.c);
        var reported := if more == 1 then [Report(data, events)] else [];
        reports := reports + reported;
        Concat(was, reported, FeedAll(model, packets[i + 1..]).1);
      }
      assert reports + [] == reports;
      count := |reports|;
    }

    // The first loop of port_delete: every registered socket.
    method DeleteRegistered()
      requires Valid()
      modifies this, model.socks.Keys, model.groups.sizes.Keys
      ensures Valid() && sockTree == map[]
      ensures model.socks.Keys <= old(model.socks.Keys) && model.groups.sizes.Keys == old(model.groups.sizes.Keys)
    {
      hide PortInv, Deletable;
      while sockTree != map[]
        invariant Valid()
        invariant model.socks.Keys <= old(model.socks.Keys) && model.groups.sizes.Keys == old(model.groups.sizes.Keys)
        decreases model.socks.Keys
      {
        var key := SomeKey(sockTree);
        Registered(model, key);
        ForceDelete(sockTree[key]);
      }
    }

    // The second loop: every socket that waited for its poll to end.
    method DeleteWaiting()
      requires Valid() && sockTree == map[]
      modifies this, model.socks.Keys, model.groups.sizes.Keys
      ensures Valid() && sockTree == map[] && sockDeletedQueue == []
      ensures model.socks.Keys <= old(model.socks.Keys) && model.groups.sizes.Keys == old(model.groups.sizes.Keys)
    {
      hide PortInv, Deletable;
      while sockDeletedQueue != []
        invariant Valid() && sockTree == map[]
        invariant model.socks.Keys <= old(model.socks.Keys) && model.groups.sizes.Keys == old(model.groups.sizes.Keys)
        decreases model.socks.Keys
      {
        InDeletedQueue(model, sockDeletedQueue[0]);
        ForceDelete(sockDeletedQueue[0]);
      }
    }

    // port_delete, once the completion port is closed. A cancel request may or may not succeed.
    method PortDelete()
      requires Valid()
      modifies this, model.socks.Keys, model.groups.sizes.Keys
      ensures sockTree == map[] && sockUpdateQueue == [] && sockDeletedQueue == [] && pollGroupQueue == []
      ensures model.socks == map[]
    {
      hide PortInv, Deletable, GroupsInv, SlotInv;
      DeleteRegistered();
      DeleteWaiting();
      Emptied(model);
      LooksInside(model);
      while pollGroupQueue != []
        invariant forall g | g in pollGroupQueue :: g in model.groups.sizes && g.groupSize == 0
        decreases |pollGroupQueue|
        modifies this`pollGroupQueue
      {
        var group := pollGroupQueue[0];
        assert group.groupSize == 0;
        pollGroupQueue := Without(pollGroupQueue, group);
      }
      assert sockUpdateQueue == [];
    }

    // tree_root: some registered socket, whichever the shape of the tree puts at the top.
    static method SomeKey(tree: map<int, SockState>) returns (key: int)
      requires tree != map[]
      ensures key in tree
    {
      assert (forall k :: k !in tree) ==> tree == map[];
      key :| key in tree;
    }

    // sock_force_delete
    method ForceDelete(s: SockState)
      requires Valid() && s in model.socks
      modifies this, model.socks.Keys, model.groups.sizes.Keys
      ensures Valid() && model.socks.Keys == old(model).socks.Keys - {s}
      ensures model.groups.sizes.Keys == old(model).groups.sizes.Keys && model.tree.Keys <= old(model).tree.Keys
    {
      hide PortInv;
      var cancelOk: bool := *;
      ForcedDelete(model, s, cancelOk);
      SmallGroup(model, s);
      SockDelete(s, true, cancelOk);
    }

    // port__ctl_add
    method CtlAdd(key: int, events: bv32, data: int, hasBase: bool, groupMemory: bool, sockMemory: bool, answers: seq<AfdAnswer>)
      returns (r: int, ghost s: SockState?, ghost g: PollGroup?)
      requires Valid() && |answers| > |model.update|
      modifies this, model.socks.Keys, model.groups.sizes.Keys
      ensures Valid() && activePollCount == old(activePollCount)
      ensures r == 0 <==>
        (IsSocket(key) && hasBase && key !in old(model).tree && sockMemory && (groupMemory || old(HasRoom(model.groups))))
      ensures r == 0 ==> s != null && g != null && fresh(s)
      ensures r == 0 ==> AddedAs(old(model), model, s, g, key, events, data, activePollCount > 0, answers)
      ensures r != 0 ==> r == -1 && model == old(model).(groups := model.groups)
      ensures !IsSocket(key) || !hasBase ==> model == old(model)
    {
      hide PortInv, HasRoom, New, SetEvent, UpdateIfPolling, UpdateAll, Update, Known, CanMake, Pick, HasSlot;
      ghost var p := model;
      LooksInside(p);
      var sock := SockNew(key, hasBase, groupMemory, sockMemory);
      if sock == null {
        return -1, null, null;
      }
      s, g := sock, sock.pollGroup;
      AddKeeps(p, s, key, g, events, data);
      NewSock(p, s, key, g);
      r := Listen(sock, events, data, answers);
    }

    // What both calls end with: the events are set, and looked at if a thread is polling.
    method Listen(s: SockState, events: bv32, data: int, answers: seq<AfdAnswer>) returns (r: int)
      requires Matches() && s in model.socks && PortInv(SetEvent(model, s, events, data)) && |answers| > |model.update|
      modifies this, model.socks.Keys, model.groups.sizes.Keys
      ensures Valid() && activePollCount == old(activePollCount) && r == 0
      ensures var p := SetEvent(old(model), s, events, data);
        |p.update| <= |answers| && model == UpdateIfPolling(p, activePollCount > 0, answers)
    {
      hide PortInv, SetEvent, UpdateIfPolling;
      SetEventQueue(model, s, events, data);
      r := SockSetEvent(s, events, data);
      UpdateEventsIfPolling(answers);
    }

    // port__ctl_mod
    method CtlMod(key: int, events: bv32, data: int, answers: seq<AfdAnswer>) returns (r: int)
      requires Valid() && |answers| > |model.update|
      modifies this, model.socks.Keys, model.groups.sizes.Keys
      ensures Valid() && activePollCount == old(activePollCount)
      ensures r == (if key in old(model).tree then 0 else -1)
      ensures r == 0 ==> old(model).tree[key] in old(model).socks
      ensures r == 0 ==> var p := SetEvent(old(model), old(model).tree[key], events, data);
        && PortInv(p) && |p.update| <= |answers| && model == UpdateIfPolling(p, activePollCount > 0, answers)
      ensures r != 0 ==> model == old(model)
    {
      hide PortInv, SetEvent, Deletable, UpdateIfPolling;
      if key !in sockTree {
        return -1;
      }
      Registered(model, key);
      SetEventKeeps(model, sockTree[key], events, data);
      r := Listen(sockTree[key], events, data, answers);
    }

    // port__ctl_del
    method CtlDel(key: int, cancelOk: bool) returns (r: int)
      requires Valid()
      modifies this, model.socks.Keys, model.groups.sizes.Keys
      ensures Valid() && activePollCount == old(activePollCount)
      ensures r == (if key in old(model).tree then 0 else -1)
      ensures r == 0 ==> HasSlot(old(model), old(model).tree[key])
      ensures r == 0 ==> model == Delete(old(model), old(model).tree[key], false, cancelOk)
      ensures r != 0 ==> model == old(model)
    {
      hide PortInv, Delete, Deletable;
      if key !in sockTree {
        return -1;
      }
      var s := sockTree[key];
      Registered(model, key);
      DeleteKeeps(model, s, false, cancelOk);
      SmallGroup(model, s);
      SockDelete(s, false, cancelOk);
      r := 0;
    }
  }

  lemma TakenSlot(s: Groups, g: PollGroup)
    requires GroupsInv(s) && CanMake(s, g) && g == Pick(s, g)
    ensures var t := Acquire(s, g); g in t.sizes && 0 < t.sizes[g] <= MAX_GROUP_SIZE
  {
  }

  lemma SmallGroup(p: Model.Port, s: SockState)
    requires PortInv(p) && s in p.socks
    ensures HasSlot(p, s) && p.groups.sizes[p.socks[s].group] <= MAX_GROUP_SIZE
  {
    LiveHasSlot(p, s);
  }

  lemma NewSock(p: Model.Port, s: SockState, key: int, g: PollGroup)
    requires Known(p.groups.queue, p.groups.sizes)
    ensures s in New(p, s, key, g).socks && New(p, s, key, g).update == p.update
    ensures New(p, s, key, g).socks.Keys == p.socks.Keys + {s}
    ensures New(p, s, key, g).groups.sizes.Keys <= p.groups.sizes.Keys + {g}
  {
  }

  // The port after a new socket was registered and, if a thread is polling, the update queue was worked off.
  ghost predicate AddedAs(p: Model.Port, p2: Model.Port, s: SockState, g: PollGroup, key: int, events: bv32, data: int,
                          polling: bool, answers: seq<AfdAnswer>) {
    && Known(p.groups.queue, p.groups.sizes) && s !in p.used
    && s in New(p, s, key, g).socks
    && var p1 := SetEvent(New(p, s, key, g), s, events, data);
       PortInv(p1) && |p1.update| <= |answers| && p2 == UpdateIfPolling(p1, polling, answers)
  }

  lemma InDeletedQueue(p: Model.Port, s: SockState)
    requires PortInv(p) && s in p.deleted
    ensures s in p.socks
  {
    Inside(p, s);
  }

  lemma RequestRest(p: Model.Port, s: SockState)
    ensures var p2 := RequestUpdate(p, s);
      p2.tree == p.tree && p2.socks == p.socks && p2.groups == p.groups && p2.owed == p.owed && p2.used == p.used
  {
  }

  lemma DequeueRest(p: Model.Port, s: SockState)
    ensures var p2 := Dequeue(p, s);
      p2.tree == p.tree && p2.socks == p.socks && p2.groups == p.groups && p2.owed == p.owed && p2.used == p.used
  {
  }
}