/**
 The epoll port of wepoll.c as a state machine: which sockets are registered, what they wait for, which
 AFD polls are outstanding, and which objects are live. What AFD answers is part of each step.
 */
module PortModel {
  import opened PollGroups
  import opened QueueContents

  datatype PollStatus = Idle | Pending | Cancelled

  // sock_state_t
  class SockState {
    var key: int
    var userData: int
    var userEvents: bv32
    var pendingEvents: bv32
    var polledEvents: bv32
    var pollStatus: PollStatus
    var deletePending: bool
    var pollGroup: PollGroup

    // The memset and the assignments of sock_new, with the key the tree node gets.
    constructor (key: int, group: PollGroup)
      ensures this.key == key && pollGroup == group && userData == 0
      ensures userEvents == 0 && pendingEvents == 0 && polledEvents == 0 && pollStatus == Idle && !deletePending
    {
      this.key, pollGroup, userData := key, group, 0;
      userEvents, pendingEvents, polledEvents, pollStatus, deletePending := 0, 0, 0, Idle, false;
    }
  }

  // `polled` is the mask of the last AFD poll, in the events AFD knows.
  datatype Sock = Sock(key: int, userData: int, userEvents: bv32, pendingEvents: bv32, polled: bv32,
                       status: PollStatus, deletePending: bool, group: PollGroup)

  // `socks` are the live sock_state objects; `owed` those with a poll whose completion has not been
  // dequeued; `used` all objects ever allocated.
  datatype Port = Port(tree: map<int, SockState>, update: seq<SockState>, deleted: seq<SockState>,
                       groups: Groups, socks: map<SockState, Sock>, owed: set<SockState>, used: set<SockState>)

  // ---------- Event masks ----------

  const EPOLLIN: bv32 := 0x1
  const EPOLLPRI: bv32 := 0x2
  const EPOLLOUT: bv32 := 0x4
  const EPOLLERR: bv32 := 0x8
  const EPOLLHUP: bv32 := 0x10
  const EPOLLRDNORM: bv32 := 0x40
  const EPOLLRDBAND: bv32 := 0x80
  const EPOLLWRNORM: bv32 := 0x100
  const EPOLLWRBAND: bv32 := 0x200
  const EPOLLMSG: bv32 := 0x400
  const EPOLLRDHUP: bv32 := 0x2000
  const EPOLLONESHOT: bv32 := 0x8000_0000
  const KNOWN_EPOLL_EVENTS: bv32 :=
    EPOLLIN | EPOLLPRI | EPOLLOUT | EPOLLERR | EPOLLHUP | EPOLLRDNORM
    | EPOLLRDBAND | EPOLLWRNORM | EPOLLWRBAND | EPOLLMSG | EPOLLRDHUP

  const AFD_POLL_RECEIVE: bv32 := 0x1
  const AFD_POLL_RECEIVE_EXPEDITED: bv32 := 0x2
  const AFD_POLL_SEND: bv32 := 0x4
  const AFD_POLL_DISCONNECT: bv32 := 0x8
  const AFD_POLL_ABORT: bv32 := 0x10
  const AFD_POLL_LOCAL_CLOSE: bv32 := 0x20
  const AFD_POLL_ACCEPT: bv32 := 0x80
  const AFD_POLL_CONNECT_FAIL: bv32 := 0x100

  // sock__afd_events_to_epoll_events
  function AfdToEpoll(afd: bv32): bv32 {
    (if afd & (AFD_POLL_RECEIVE | AFD_POLL_ACCEPT) != 0 then EPOLLIN | EPOLLRDNORM else 0)
    | (if afd & AFD_POLL_RECEIVE_EXPEDITED != 0 then EPOLLPRI | EPOLLRDBAND else 0)
    | (if afd & AFD_POLL_SEND != 0 then EPOLLOUT | EPOLLWRNORM | EPOLLWRBAND else 0)
    | (if afd & AFD_POLL_DISCONNECT != 0 then EPOLLIN | EPOLLRDNORM | EPOLLRDHUP else 0)
    | (if afd & AFD_POLL_ABORT != 0 then EPOLLHUP else 0)
    | (if afd & AFD_POLL_CONNECT_FAIL != 0
       then EPOLLIN | EPOLLOUT | EPOLLERR | EPOLLRDNORM | EPOLLWRNORM | EPOLLRDHUP else 0)
  }

  // sock__epoll_events_to_afd_events
  function EpollToAfd(epoll: bv32): bv32 {
    AFD_POLL_LOCAL_CLOSE
    | (if epoll & (EPOLLIN | EPOLLRDNORM) != 0 then AFD_POLL_RECEIVE | AFD_POLL_ACCEPT else 0)
    | (if epoll & (EPOLLPRI | EPOLLRDBAND) != 0 then AFD_POLL_RECEIVE_EXPEDITED else 0)
    | (if epoll & (EPOLLOUT | EPOLLWRNORM | EPOLLWRBAND) != 0 then AFD_POLL_SEND else 0)
    | (if epoll & (EPOLLIN | EPOLLRDNORM | EPOLLRDHUP) != 0 then AFD_POLL_DISCONNECT else 0)
    | (if epoll & EPOLLHUP != 0 then AFD_POLL_ABORT else 0)
    | (if epoll & EPOLLERR != 0 then AFD_POLL_CONNECT_FAIL else 0)
  }

  // What a registered socket waits for: nothing, once a one-shot event is reported, or errors among other things.
  predicate UserMask(user: bv32) {
    user == 0 || user & EPOLLERR != 0
  }

  // Every known event the user waits for is part of the pending poll.
  predicate Covers(pending: bv32, user: bv32) {
    user & KNOWN_EPOLL_EVENTS & !pending == 0
  }

  // ---------- Queue and tree membership ----------

  predicate Enqueued(p: Port, s: SockState) {
    s in p.update || s in p.deleted
  }

  // port_request_socket_update
  function RequestUpdate(p: Port, s: SockState): Port {
    if Enqueued(p, s) then p else p.(update := p.update + [s])
  }

  // port_cancel_socket_update and port_remove_deleted_socket: the node leaves whichever queue it is in.
  function Dequeue(p: Port, s: SockState): Port {
    p.(update := Without(p.update, s), deleted := Without(p.deleted, s))
  }

  // port_add_deleted_socket
  function AddDeleted(p: Port, s: SockState): Port {
    if Enqueued(p, s) then p else p.(deleted := p.deleted + [s])
  }

  // ---------- What each call does ----------

  // sock__cancel_poll, when the cancel request succeeds; on failure it changes nothing.
  function CancelPoll(p: Port, s: SockState): Port
    requires s in p.socks
  {
    p.(socks := p.socks[s := p.socks[s].(status := Cancelled, pendingEvents := 0)])
  }

  // The first half of sock__delete, for a socket not yet marked; a failing cancel is ignored.
  function Retire(p: Port, s: SockState, cancelOk: bool): Port
    requires s in p.socks
  {
    var p1 := if p.socks[s].status == Pending && cancelOk then CancelPoll(p, s) else p;
    var p2 := Dequeue(p1, s);
    p2.(tree := p2.tree - {p.socks[s].key}, socks := p2.socks[s := p2.socks[s].(deletePending := true)])
  }

  // sock__free, with the release of the slot before it.
  function Free(p: Port, s: SockState): Port
    requires s in p.socks && p.socks[s].group in p.groups.sizes && p.groups.sizes[p.socks[s].group] > 0
  {
    var p1 := Dequeue(p, s);
    p1.(groups := Release(p.groups, p.socks[s].group), socks := p.socks - {s}, owed := p.owed - {s})
  }

  predicate HasSlot(p: Port, s: SockState) {
    s in p.socks && p.socks[s].group in p.groups.sizes && p.groups.sizes[p.socks[s].group] > 0
  }

  // sock__delete
  function Delete(p: Port, s: SockState, force: bool, cancelOk: bool): Port
    requires HasSlot(p, s)
  {
    var p1 := if p.socks[s].deletePending then p else Retire(p, s, cancelOk);
    if force || p1.socks[s].status == Idle then Free(p1, s) else AddDeleted(p1, s)
  }

  // sock_set_event
  function SetEvent(p: Port, s: SockState, events: bv32, data: int): Port
    requires s in p.socks
  {
    var wanted := events | EPOLLERR | EPOLLHUP;
    var p1 := p.(socks := p.socks[s := p.socks[s].(userEvents := wanted, userData := data)]);
    if Covers(p.socks[s].pendingEvents, wanted) then p1 else RequestUpdate(p1, s)
  }

  // What AFD makes of a poll request, and whether a cancel request succeeds.
  datatype Submission = Accepted | SocketClosed | Refused
  datatype AfdAnswer = AfdAnswer(submission: Submission, cancelOk: bool)

  // sock_update on success; None is its error return, which changes nothing.
  datatype Outcome = Done(port: Port) | Failed

  function Update(p: Port, s: SockState, a: AfdAnswer): Outcome
    requires HasSlot(p, s)
  {
    var sock := p.socks[s];
    match sock.status
    case Pending =>
      if Covers(sock.pendingEvents, sock.userEvents) then Done(Dequeue(p, s))
      else if a.cancelOk then Done(Dequeue(CancelPoll(p, s), s)) else Failed
    case Cancelled => Done(Dequeue(p, s))
    case Idle =>
      match a.submission
      case Accepted =>
        var polled := EpollToAfd(sock.userEvents);
        var p1 := p.(socks := p.socks[s := sock.(status := Pending, pendingEvents := sock.userEvents, polled := polled)],
                     owed := p.owed + {s});
        Done(Dequeue(p1, s))
      case SocketClosed => Done(Delete(p, s, false, a.cancelOk))
      case Refused => Failed
  }

  // A completion packet: cancelled, failed otherwise, no handles, or the AFD events of the socket.
  datatype Completion = WasCancelled | HadError | NoHandles | Reported(afd: bv32)

  // The events a completion stands for, before the user's mask is applied.
  function Events(c: Completion): bv32 {
    match c
    case WasCancelled => 0
    case HadError => EPOLLERR
    case NoHandles => 0
    case Reported(afd) => AfdToEpoll(afd)
  }

  predicate LocallyClosed(c: Completion) {
    c.Reported? && c.afd & AFD_POLL_LOCAL_CLOSE != 0
  }

  predicate OneShot(user: bv32) {
    user & EPOLLONESHOT != 0
  }

  // Events the user did not ask for are filtered out.
  function Wanted(c: Completion, user: bv32): bv32 {
    Events(c) & user
  }

  // The end of sock_feed_event, for a socket that goes on: it asks for a new poll and reports.
  function Notify(p: Port, s: SockState, c: Completion): (r: (Port, bv32))
    requires s in p.socks
  {
    var p2 := RequestUpdate(p, s);
    var events := Wanted(c, p.socks[s].userEvents);
    if events != 0 && OneShot(p.socks[s].userEvents)
    then (p2.(socks := p2.socks[s := p2.socks[s].(userEvents := 0)]), events)
    else (p2, events)
  }

  // sock_feed_event: the port afterwards, and the events reported to the user (0 for no report).
  function Feed(p: Port, s: SockState, c: Completion): (r: (Port, bv32))
    requires HasSlot(p, s)
  {
    var p1 := p.(socks := p.socks[s := p.socks[s].(status := Idle, pendingEvents := 0)], owed := p.owed - {s});
    if p.socks[s].deletePending || LocallyClosed(c) then (Delete(p1, s, false, true), 0) else Notify(p1, s, c)
  }

  // sock_new when every allocation succeeds and the key is free.
  function New(p: Port, s: SockState, key: int, made: PollGroup): Port
    requires Known(p.groups.queue, p.groups.sizes)
  {
    var sock := Sock(key, 0, 0, 0, 0, Idle, false, Pick(p.groups, made));
    p.(groups := Acquire(p.groups, made), tree := p.tree[key := s], socks := p.socks[s := sock], used := p.used + {s})
  }

  // sock_new when the slot is taken and given back: out of memory, or the key is registered already.
  function NewFails(p: Port, made: PollGroup): Port
    requires Known(p.groups.queue, p.groups.sizes)
  {
    p.(groups := Release(Acquire(p.groups, made), Pick(p.groups, made)))
  }

  // ---------- The invariant ----------

  // Where one live socket is, and what it must be for being there.
  // - It is in the tree exactly until it is being deleted, and in the deleted queue exactly from then on.
  // - A completion is owed exactly while its poll is not idle; a socket being deleted is not idle.
  // - AFD was asked for the events the pending poll records, and a user who waits for anything waits for errors.
  // - No interest is lost: a registered socket is about to be looked at, or its pending poll covers what
  //   the user waits for, or its poll was cancelled and the completion is still to come.
  predicate Placed(sock: Sock, inTree: bool, inUpdate: bool, inDeleted: bool, inOwed: bool) {
    && (inTree <==> !sock.deletePending) && (inDeleted <==> sock.deletePending)
    && (inUpdate ==> !sock.deletePending)
    && (inOwed <==> sock.status != Idle)
    && (sock.deletePending ==> sock.status != Idle)
    && (sock.status != Pending ==> sock.pendingEvents == 0)
    && (!sock.deletePending ==> UserMask(sock.userEvents))
    && (!sock.deletePending && sock.status == Pending ==> sock.polled == EpollToAfd(sock.pendingEvents))
    && (!sock.deletePending ==>
      || inUpdate
      || (sock.status == Pending && Covers(sock.pendingEvents, sock.userEvents))
      || sock.status == Cancelled)
  }

  predicate InTree(p: Port, s: SockState)
    requires s in p.socks
  {
    p.socks[s].key in p.tree && p.tree[p.socks[s].key] == s
  }

  predicate SockInv(p: Port, s: SockState)
    requires s in p.socks
  {
    Placed(p.socks[s], InTree(p, s), s in p.update, s in p.deleted, s in p.owed)
  }

  // Nothing refers to an object that is not live, and no queue holds a socket twice.
  ghost predicate NoDangling(p: Port) {
    && NoDuplicates(p.update) && NoDuplicates(p.deleted)
    && (forall k | k in p.tree :: p.tree[k] in p.socks && p.socks[p.tree[k]].key == k)
    && (forall s | s in p.update :: s in p.socks)
    && (forall s | s in p.deleted :: s in p.socks)
    && (forall s | s in p.owed :: s in p.socks)
    && (forall s | s in p.socks :: s in p.used)
  }

  ghost function Holders(socks: map<SockState, Sock>, g: PollGroup): set<SockState> {
    set s | s in socks && socks[s].group == g
  }

  // Each group counts the live sockets it was given to.
  ghost predicate SlotInv(p: Port) {
    && GroupsInv(p.groups)
    && (forall s | s in p.socks :: p.socks[s].group in p.groups.sizes)
    && (forall g | g in p.groups.sizes :: p.groups.sizes[g] == |Holders(p.socks, g)|)
  }

  ghost predicate PortInv(p: Port) {
    NoDangling(p) && SlotInv(p) && forall s | s in p.socks :: SockInv(p, s)
  }

  // ---------- Masks ----------

  lemma WantsErrors(events: bv32)
    ensures UserMask(events | EPOLLERR | EPOLLHUP) && UserMask(0)
  {
  }

  lemma CoversItself(user: bv32)
    ensures Covers(user, user) && Covers(0, 0)
  {
  }

  // The events every registration asks for are only covered by a poll that is there.
  lemma CoveredByPoll(pending: bv32, events: bv32)
    requires Covers(pending, events | EPOLLERR | EPOLLHUP)
    ensures pending != 0
  {
  }

  // Whatever happens to the socket, a poll for a mask that covers what the user waits for reports all of it: no
  // condition that stands for an event the user waits for is kept from AFD.
  lemma NothingHidden(pending: bv32, user: bv32, afd: bv32)
    requires Covers(pending, user) && UserMask(user)
    ensures AfdToEpoll(afd & EpollToAfd(pending)) & user == AfdToEpoll(afd) & user
  {
  }

  // A poll for some events may report just those of them that AFD knows: EPOLLMSG is never reported.
  lemma Reportable(events: bv32)
    ensures AfdToEpoll(EpollToAfd(events)) & events == events & KNOWN_EPOLL_EVENTS & !EPOLLMSG
  {
  }

  lemma WantedOnly(c: Completion, user: bv32)
    ensures Wanted(c, user) & !user == 0
  {
    hide Events;
    var e := Events(c);
    assert (e & user) & !user == 0;
  }

  lemma NothingReported(user: bv32)
    ensures 0 & !user == 0
  {
  }

  // Reports carry only events the user asked for.
  lemma ReportWanted(p: Port, s: SockState, c: Completion)
    requires HasSlot(p, s)
    ensures Feed(p, s, c).1 & !p.socks[s].userEvents == 0
  {
    hide Wanted, Delete, RequestUpdate, LocallyClosed, OneShot;
    WantedOnly(c, p.socks[s].userEvents);
    NothingReported(p.socks[s].userEvents);
  }

  // ---------- Slots ----------

  lemma HoldersSame(socks: map<SockState, Sock>, s: SockState, sock: Sock, g: PollGroup)
    requires s in socks && sock.group == socks[s].group
    ensures Holders(socks[s := sock], g) == Holders(socks, g)
  {
  }

  lemma HoldersMore(socks: map<SockState, Sock>, s: SockState, sock: Sock, g: PollGroup)
    requires s !in socks
    ensures |Holders(socks[s := sock], g)| == |Holders(socks, g)| + (if g == sock.group then 1 else 0)
  {
    if g == sock.group {
      assert Holders(socks[s := sock], g) == Holders(socks, g) + {s};
    } else {
      assert Holders(socks[s := sock], g) == Holders(socks, g);
    }
  }

  lemma HoldersFewer(socks: map<SockState, Sock>, s: SockState, g: PollGroup)
    requires s in socks
    ensures |Holders(socks - {s}, g)| == |Holders(socks, g)| - (if g == socks[s].group then 1 else 0)
  {
    if g == socks[s].group {
      assert Holders(socks, g) == Holders(socks - {s}, g) + {s};
    } else {
      assert Holders(socks - {s}, g) == Holders(socks, g);
    }
  }

  lemma SlotsSame(p: Port, s: SockState, sock: Sock)
    requires SlotInv(p) && s in p.socks && sock.group == p.socks[s].group
    ensures SlotInv(p.(socks := p.socks[s := sock]))
  {
    forall g | g in p.groups.sizes ensures Holders(p.socks[s := sock], g) == Holders(p.socks, g) {
      HoldersSame(p.socks, s, sock, g);
    }
  }

  lemma LiveHasSlot(p: Port, s: SockState)
    requires SlotInv(p) && s in p.socks
    ensures HasSlot(p, s)
  {
    assert s in Holders(p.socks, p.socks[s].group);
  }

  lemma SlotsFewer(p: Port, s: SockState)
    requires SlotInv(p) && HasSlot(p, s)
    ensures SlotInv(Free(p, s))
  {
    hide GroupsInv;
    var g0 := p.socks[s].group;
    ReleaseKeeps(p.groups, g0);
    forall g | g in p.groups.sizes ensures Free(p, s).groups.sizes[g] == |Holders(p.socks - {s}, g)| {
      HoldersFewer(p.socks, s, g);
    }
  }

  lemma SlotsMore(p: Port, s: SockState, key: int, made: PollGroup)
    requires SlotInv(p) && s !in p.socks && CanMake(p.groups, made)
    ensures SlotInv(New(p, s, key, made))
  {
    var p2, g0 := New(p, s, key, made), Pick(p.groups, made);
    AcquireKeeps(p.groups, made);
    forall g | g in p2.groups.sizes ensures p2.groups.sizes[g] == |Holders(p2.socks, g)| {
      HoldersMore(p.socks, s, p2.socks[s], g);
      if g !in p.groups.sizes {
        assert Holders(p.socks, g) == {};
      }
    }
  }

  lemma SlotsReturned(p: Port, made: PollGroup)
    requires SlotInv(p) && CanMake(p.groups, made)
    ensures SlotInv(NewFails(p, made))
  {
    SlotsKnown(p);
    hide GroupsInv, Acquire, Release;
    var p2, g0 := NewFails(p, made), Pick(p.groups, made);
    AcquireKeeps(p.groups, made);
    ReleaseKeeps(Acquire(p.groups, made), g0);
    forall g | g in p2.groups.sizes ensures p2.groups.sizes[g] == |Holders(p2.socks, g)| {
      if g !in p.groups.sizes {
        assert Holders(p.socks, g) == {};
      }
    }
  }

  // ---------- Every call keeps the invariant ----------

  // A socket other than the one a call is about: same fields, same places.
  ghost predicate SameSock(p: Port, p2: Port, x: SockState)
    requires x in p.socks
  {
    && x in p2.socks && p2.socks[x] == p.socks[x] && InTree(p2, x) == InTree(p, x)
    && (x in p2.update <==> x in p.update) && (x in p2.deleted <==> x in p.deleted) && (x in p2.owed <==> x in p.owed)
  }

  ghost predicate OnlyAbout(p: Port, p2: Port, s: SockState) {
    && (forall x | x in p.socks && x != s :: SameSock(p, p2, x))
    && (forall x | x in p2.socks && x != s :: x in p.socks)
  }

  // It is enough to look at the socket a call is about.
  lemma Locally(p: Port, p2: Port, s: SockState)
    requires PortInv(p) && OnlyAbout(p, p2, s) && NoDangling(p2) && SlotInv(p2)
    requires s in p2.socks ==> SockInv(p2, s)
    ensures PortInv(p2)
  {
    hide NoDangling, SlotInv, Placed;
    forall x | x in p2.socks ensures SockInv(p2, x) {
      if x != s {
        assert SameSock(p, p2, x) && SockInv(p, x);
      }
    }
  }

  lemma DequeueMembers(p: Port, s: SockState)
    requires NoDuplicates(p.update) && NoDuplicates(p.deleted)
    ensures var p2 := Dequeue(p, s);
      && NoDuplicates(p2.update) && NoDuplicates(p2.deleted) && s !in p2.update && s !in p2.deleted
      && (forall x | x in p2.update :: x in p.update) && (forall x | x in p.update && x != s :: x in p2.update)
      && (forall x | x in p2.deleted :: x in p.deleted) && (forall x | x in p.deleted && x != s :: x in p2.deleted)
      && (s in p.update ==> |p2.update| < |p.update|)
  {
    WithoutNoDuplicates(p.update, s);
    WithoutNoDuplicates(p.deleted, s);
  }

  // Changing the fields of one socket, and whether its completion is owed, moves nothing in the tree or the queues.
  lemma Rewritten(p: Port, s: SockState, sock: Sock, owed: set<SockState>)
    requires PortInv(p) && s in p.socks && sock.key == p.socks[s].key && sock.group == p.socks[s].group
    requires owed - {s} == p.owed - {s}
    ensures var p1 := p.(socks := p.socks[s := sock], owed := owed);
      NoDangling(p1) && SlotInv(p1) && OnlyAbout(p, p1, s)
  {
    hide GroupsInv, SlotInv, NoDuplicates, Placed;
    var p1 := p.(socks := p.socks[s := sock], owed := owed);
    SlotsSame(p, s, sock);
    SlotsOnly(p.(socks := p1.socks), p1);
    forall x | x in p.socks && x != s ensures SameSock(p, p1, x) {
      assert x in owed - {s} <==> x in p.owed - {s};
    }
    forall x | x in owed ensures x in p1.socks {
      assert x != s ==> x in p.owed - {s};
    }
  }

  // Asking for an update puts the socket into the update queue unless it is queued already.
  lemma Requested(p0: Port, p: Port, s: SockState)
    requires NoDangling(p) && SlotInv(p) && s in p.socks && OnlyAbout(p0, p, s)
    ensures var p2 := RequestUpdate(p, s);
      && NoDangling(p2) && SlotInv(p2) && OnlyAbout(p0, p2, s) && p2.socks == p.socks
      && (InTree(p2, s) <==> InTree(p, s)) && (s in p2.owed <==> s in p.owed)
      && (s in p2.deleted <==> s in p.deleted) && (s in p2.update <==> s in p.update || s !in p.deleted)
  {
    hide GroupsInv, SlotInv, NoDuplicates;
    var p2 := RequestUpdate(p, s);
    SlotsOnly(p, p2);
    if p2.update != p.update {
      AppendedOnce(p.update, s);
    }
    forall x | x in p0.socks && x != s ensures SameSock(p0, p2, x) {
      assert SameSock(p0, p, x);
    }
  }

  lemma SetEventKeeps(p: Port, s: SockState, events: bv32, data: int)
    requires PortInv(p) && s in p.socks && !p.socks[s].deletePending
    ensures PortInv(SetEvent(p, s, events, data))
  {
    hide Covers, GroupsInv, SlotInv, NoDuplicates, NoDangling, RequestUpdate, OnlyAbout, UserMask, EpollToAfd;
    WantsErrors(events);
    var wanted, p2 := events | EPOLLERR | EPOLLHUP, SetEvent(p, s, events, data);
    var sock := p.socks[s].(userEvents := wanted, userData := data);
    assert SockInv(p, s);
    Rewritten(p, s, sock, p.owed);
    Requested(p, p.(socks := p.socks[s := sock]), s);
    if Covers(p.socks[s].pendingEvents, wanted) {
      CoveredByPoll(p.socks[s].pendingEvents, events);
    }
    Locally(p, p2, s);
  }

  lemma AppendedOnce(q: seq<SockState>, s: SockState)
    requires NoDuplicates(q) && s !in q
    ensures NoDuplicates(q + [s])
  {
  }

  lemma SlotsOnly(p: Port, p2: Port)
    requires SlotInv(p) && p2.socks == p.socks && p2.groups == p.groups
    ensures SlotInv(p2)
  {
  }

  // Between the halves of sock__delete: the socket is out of the tree and out of both queues.
  ghost predicate Retired(p: Port, s: SockState) {
    && NoDangling(p) && SlotInv(p) && s in p.socks && (forall x | x in p.socks && x != s :: SockInv(p, x))
    && p.socks[s].deletePending && !InTree(p, s) && s !in p.update && s !in p.deleted
    && (s in p.owed <==> p.socks[s].status != Idle)
    && (p.socks[s].status != Pending ==> p.socks[s].pendingEvents == 0)
  }

  lemma RetireRetires(p: Port, s: SockState, cancelOk: bool)
    requires NoDangling(p) && SlotInv(p) && s in p.socks && (forall x | x in p.socks && x != s :: SockInv(p, x))
    requires !p.socks[s].deletePending && InTree(p, s) && s !in p.deleted
    requires (s in p.owed <==> p.socks[s].status != Idle) && (p.socks[s].status != Pending ==> p.socks[s].pendingEvents == 0)
    ensures Retired(Retire(p, s, cancelOk), s)
    ensures Retire(p, s, cancelOk).owed == p.owed
  {
    hide Covers, GroupsInv, SlotInv, Without, Placed, NoDuplicates;
    DequeueMembers(p, s);
    var p2 := Retire(p, s, cancelOk);
    SlotsSame(p, s, p2.socks[s]);
    assert p2.socks == p.socks[s := p2.socks[s]];
    SlotsOnly(p.(socks := p2.socks), p2);
    forall x | x in p2.socks && x != s ensures SockInv(p2, x) {
      assert SockInv(p, x);
      assert SameSock(p, p2, x);
    }
  }

  lemma FreeKeeps(p: Port, s: SockState)
    requires NoDangling(p) && SlotInv(p) && s in p.socks && (forall x | x in p.socks && x != s :: SockInv(p, x))
    requires !InTree(p, s)
    ensures HasSlot(p, s) && PortInv(Free(p, s)) && s !in Free(p, s).socks
    ensures s !in p.update ==> Free(p, s).update == p.update
  {
    hide Covers, GroupsInv, SlotInv, Without, Placed, NoDuplicates;
    LiveHasSlot(p, s);
    SlotsFewer(p, s);
    DequeueMembers(p, s);
    var p2 := Free(p, s);
    assert s in p.socks && s !in p2.socks;
    forall x | x in p2.socks ensures SockInv(p2, x) {
      assert SockInv(p, x);
      assert SameSock(p, p2, x);
    }
  }

  lemma AddDeletedKeeps(p: Port, s: SockState)
    requires Retired(p, s) && p.socks[s].status != Idle
    ensures PortInv(AddDeleted(p, s))
  {
    hide Covers, GroupsInv, SlotInv;
    var p2 := AddDeleted(p, s);
    SlotsOnly(p, p2);
    forall x | x in p2.socks ensures SockInv(p2, x) {
      if x != s {
        assert SockInv(p, x);
        assert SameSock(p, p2, x);
      }
    }
  }

  // A live socket that sock__delete may be called on: everything is in order, but the socket itself may
  // be idle and forgotten, because the completion of its poll is just being handled.
  ghost predicate Deletable(p: Port, s: SockState) {
    && NoDangling(p) && SlotInv(p) && s in p.socks && (forall x | x in p.socks && x != s :: SockInv(p, x))
    && (InTree(p, s) <==> !p.socks[s].deletePending) && (s in p.deleted <==> p.socks[s].deletePending)
    && (s in p.update ==> !p.socks[s].deletePending)
    && (s in p.owed <==> p.socks[s].status != Idle)
    && (p.socks[s].status != Pending ==> p.socks[s].pendingEvents == 0)
  }

  // sock__delete. Outside port_delete (force), an object is freed exactly when no completion is owed.
  lemma DeleteKeeps(p: Port, s: SockState, force: bool, cancelOk: bool)
    requires Deletable(p, s)
    ensures HasSlot(p, s)
    ensures PortInv(Delete(p, s, force, cancelOk))
    ensures s in Delete(p, s, force, cancelOk).socks <==> s in p.owed && !force
  {
    hide Covers, GroupsInv, SlotInv, Without, NoDuplicates, NoDangling;
    LiveHasSlot(p, s);
    if p.socks[s].deletePending {
      if force || p.socks[s].status == Idle {
        FreeKeeps(p, s);
      }
    } else {
      var p1 := Retire(p, s, cancelOk);
      RetireRetires(p, s, cancelOk);
      RetireStatus(p, s, cancelOk);
      LiveHasSlot(p1, s);
      if force || p1.socks[s].status == Idle {
        FreeKeeps(p1, s);
      } else {
        AddDeletedKeeps(p1, s);
      }
    }
  }

  lemma RetireStatus(p: Port, s: SockState, cancelOk: bool)
    requires s in p.socks
    ensures var p1 := Retire(p, s, cancelOk);
      && s in p1.socks && p1.socks[s].deletePending && p1.socks[s].group == p.socks[s].group
      && p1.groups == p.groups && (p1.socks[s].status == Idle <==> p.socks[s].status == Idle)
  {
  }

  // sock_update on a queued socket: on success the invariant holds and the update queue is shorter.
  lemma UpdateKeeps(p: Port, s: SockState, a: AfdAnswer)
    requires PortInv(p) && s in p.update
    ensures HasSlot(p, s) && !p.socks[s].deletePending
    ensures var o := Update(p, s, a); o.Done? ==> PortInv(o.port) && |o.port.update| < |p.update|
  {
    hide Covers, GroupsInv, SlotInv, Without, NoDuplicates, NoDangling;
    assert s in p.socks by { Inside(p, s); }
    assert SockInv(p, s);
    LiveHasSlot(p, s);
    var sock, o := p.socks[s], Update(p, s, a);
    if o.Done? {
      if sock.status == Idle && a.submission == SocketClosed {
        DeleteKeeps(p, s, false, a.cancelOk);
        DeletedShorter(p, s, a.cancelOk);
      } else {
        UpdatePoll(p, s, a);
      }
    }
  }

  lemma Inside(p: Port, s: SockState)
    requires NoDangling(p) && (s in p.update || s in p.deleted || s in p.owed)
    ensures s in p.socks
  {
  }

  lemma DeletedShorter(p: Port, s: SockState, cancelOk: bool)
    requires PortInv(p) && s in p.update && HasSlot(p, s) && p.socks[s].status == Idle
    ensures |Delete(p, s, false, cancelOk).update| < |p.update|
  {
    hide SlotInv;
    assert SockInv(p, s);
    DequeueMembers(p, s);
    DequeueMembers(Retire(p, s, cancelOk), s);
  }

  lemma UpdatePoll(p: Port, s: SockState, a: AfdAnswer)
    requires PortInv(p) && s in p.update && HasSlot(p, s) && SockInv(p, s)
    requires !(p.socks[s].status == Idle && a.submission == SocketClosed)
    ensures var o := Update(p, s, a); o.Done? ==> PortInv(o.port) && |o.port.update| < |p.update|
  {
    hide Covers, GroupsInv, SlotInv, Without, NoDuplicates, Placed, EpollToAfd;
    var o := Update(p, s, a);
    if o.Done? {
      var p2 := o.port;
      CoversItself(p.socks[s].userEvents);
      DequeueMembers(p, s);
      SlotsSame(p, s, p2.socks[s]);
      SlotsOnly(p.(socks := p2.socks), p2);
      assert OnlyAbout(p, p2, s);
      UpdatedPlace(p, s, a);
      Locally(p, p2, s);
    }
  }

  lemma UpdatedPlace(p: Port, s: SockState, a: AfdAnswer)
    requires PortInv(p) && s in p.update && HasSlot(p, s) && SockInv(p, s)
    requires !(p.socks[s].status == Idle && a.submission == SocketClosed)
    ensures var o := Update(p, s, a); o.Done? ==> s in o.port.socks && SockInv(o.port, s)
  {
    hide Covers, Without, UserMask, EpollToAfd, NoDuplicates, SlotInv;
    DequeueMembers(p, s);
    CoversItself(p.socks[s].userEvents);
  }

  // sock_feed_event on any completion that is owed.
  lemma FeedKeeps(p: Port, s: SockState, c: Completion)
    requires PortInv(p) && s in p.owed
    ensures HasSlot(p, s) && PortInv(Feed(p, s, c).0)
    ensures s in Feed(p, s, c).0.socks <==> !p.socks[s].deletePending && !LocallyClosed(c)
  {
    hide Covers, GroupsInv, SlotInv, Without, NoDuplicates, NoDangling;
    assert s in p.socks by { Inside(p, s); }
    assert SockInv(p, s);
    LiveHasSlot(p, s);
    var p1 := p.(socks := p.socks[s := p.socks[s].(status := Idle, pendingEvents := 0)], owed := p.owed - {s});
    Completed(p, p1, s);
    if p.socks[s].deletePending || LocallyClosed(c) {
      DeleteKeeps(p1, s, false, true);
    } else {
      FeedOn(p, s, c);
    }
  }

  lemma Completed(p: Port, p1: Port, s: SockState)
    requires PortInv(p) && s in p.socks && SockInv(p, s)
    requires p1 == p.(socks := p.socks[s := p.socks[s].(status := Idle, pendingEvents := 0)], owed := p.owed - {s})
    ensures Deletable(p1, s) && HasSlot(p1, s)
  {
    hide Covers, GroupsInv, SlotInv, Without, NoDuplicates, Placed;
    SlotsSame(p, s, p1.socks[s]);
    SlotsOnly(p.(socks := p1.socks), p1);
    LiveHasSlot(p1, s);
    forall x | x in p1.socks && x != s ensures SockInv(p1, x) {
      assert SockInv(p, x);
      assert SameSock(p, p1, x);
    }
    assert Placed(p.socks[s], InTree(p, s), s in p.update, s in p.deleted, s in p.owed);
    PlacedParts(p.socks[s], InTree(p, s), s in p.update, s in p.deleted, s in p.owed);
  }

  lemma PlacedParts(sock: Sock, inTree: bool, inUpdate: bool, inDeleted: bool, inOwed: bool)
    requires Placed(sock, inTree, inUpdate, inDeleted, inOwed)
    ensures (inTree <==> !sock.deletePending) && (inDeleted <==> sock.deletePending) && (inUpdate ==> !sock.deletePending)
  {
  }

  // A live socket goes back into the update queue with its poll over.
  lemma RequeueKeeps(p: Port, s: SockState, sock: Sock)
    requires PortInv(p) && s in p.socks && !p.socks[s].deletePending
    requires sock == p.socks[s].(status := Idle, pendingEvents := 0, userEvents := sock.userEvents)
    requires sock.userEvents == 0 || sock.userEvents == p.socks[s].userEvents
    ensures PortInv(RequestUpdate(p.(socks := p.socks[s := sock], owed := p.owed - {s}), s))
  {
    hide Covers, GroupsInv, SlotInv, NoDuplicates, NoDangling, RequestUpdate, OnlyAbout, UserMask, EpollToAfd;
    WantsErrors(0);
    assert SockInv(p, s);
    var p1 := p.(socks := p.socks[s := sock], owed := p.owed - {s});
    Rewritten(p, s, sock, p.owed - {s});
    Requested(p, p1, s);
    Locally(p, RequestUpdate(p1, s), s);
  }

  lemma FeedOn(p: Port, s: SockState, c: Completion)
    requires PortInv(p) && s in p.socks && HasSlot(p, s) && !p.socks[s].deletePending && !LocallyClosed(c)
    ensures PortInv(Feed(p, s, c).0) && s in Feed(p, s, c).0.socks
  {
    hide Covers, PortInv, Wanted, OneShot, UserMask, EpollToAfd;
    var sock, p2 := p.socks[s].(status := Idle, pendingEvents := 0), Feed(p, s, c).0;
    RequeueKeeps(p, s, sock);
    RequeueKeeps(p, s, sock.(userEvents := 0));
    var q1 := p.(socks := p.socks[s := sock], owed := p.owed - {s});
    var q2 := p.(socks := p.socks[s := sock.(userEvents := 0)], owed := p.owed - {s});
    assert q1.socks[s := sock.(userEvents := 0)] == q2.socks;
    assert p2 == RequestUpdate(q1, s) || p2 == RequestUpdate(q2, s);
  }

  lemma SlotsKnown(p: Port)
    requires SlotInv(p)
    ensures Known(p.groups.queue, p.groups.sizes)
  {
  }

  lemma Unused(p: Port, s: SockState)
    requires NoDangling(p) && s !in p.used
    ensures s !in p.socks && s !in p.update && s !in p.deleted && s !in p.owed
  {
  }

  lemma Added(p: Port, p2: Port, s: SockState, key: int)
    requires NoDangling(p) && s !in p.used && key !in p.tree
    requires p2.deleted == p.deleted && p2.owed == p.owed && p2.used == p.used + {s} && p2.update == p.update + [s]
    requires p2.tree == p.tree[key := s] && p2.socks.Keys == p.socks.Keys + {s}
    requires forall x | x in p.socks :: p2.socks[x] == p.socks[x]
    requires p2.socks[s].key == key && p2.socks[s].status == Idle && p2.socks[s].pendingEvents == 0
    requires !p2.socks[s].deletePending && UserMask(p2.socks[s].userEvents)
    ensures NoDangling(p2) && SockInv(p2, s) && OnlyAbout(p, p2, s)
  {
    hide Covers, NoDuplicates, UserMask, EpollToAfd;
    AppendedOnce(p.update, s);
  }

  // port__ctl_add: sock_new followed by sock_set_event.
  lemma AddKeeps(p: Port, s: SockState, key: int, made: PollGroup, events: bv32, data: int)
    requires PortInv(p) && s !in p.used && key !in p.tree && CanMake(p.groups, made)
    ensures s in New(p, s, key, made).socks && PortInv(SetEvent(New(p, s, key, made), s, events, data))
  {
    hide Covers, GroupsInv, SlotInv, NoDangling, SockInv, Without, NoDuplicates, Acquire, Pick, UserMask;
    WantsErrors(events);
    SlotsKnown(p);
    Unused(p, s);
    var p1 := New(p, s, key, made);
    SlotsMore(p, s, key, made);
    NothingCovered(events);
    var sock := p1.socks[s].(userEvents := events | EPOLLERR | EPOLLHUP, userData := data);
    var p2 := p1.(socks := p1.socks[s := sock], update := p.update + [s]);
    assert SetEvent(p1, s, events, data) == p2;
    SlotsSame(p1, s, sock);
    SlotsOnly(p1.(socks := p2.socks), p2);
    Added(p, p2, s, key);
    Locally(p, p2, s);
  }

  lemma NothingCovered(events: bv32)
    ensures !Covers(0, events | EPOLLERR | EPOLLHUP)
  {
    if Covers(0, events | EPOLLERR | EPOLLHUP) {
      CoveredByPoll(0, events);
    }
  }

  lemma NewFailsKeeps(p: Port, made: PollGroup)
    requires PortInv(p) && CanMake(p.groups, made)
    ensures PortInv(NewFails(p, made))
  {
    hide Covers, GroupsInv, SlotInv, Without, NoDuplicates, Acquire, Release, Placed;
    SlotsKnown(p);
    SlotsReturned(p, made);
    forall x | x in p.socks ensures SockInv(NewFails(p, made), x) {
      assert SockInv(p, x);
    }
  }

  lemma Registered(p: Port, key: int)
    requires PortInv(p) && key in p.tree
    ensures p.tree[key] in p.socks && !p.socks[p.tree[key]].deletePending && Deletable(p, p.tree[key])
  {
    hide SlotInv;
    assert SockInv(p, p.tree[key]);
  }

  lemma LooksInside(p: Port)
    requires PortInv(p)
    ensures SlotInv(p) && GroupsInv(p.groups) && Known(p.groups.queue, p.groups.sizes)
  {
  }

  // ---------- port__update_events ----------

  // The loop, given an answer of AFD for each turn, and whether it succeeds: it stops at the first error.
  function UpdateAll(p: Port, answers: seq<AfdAnswer>): (r: (Port, bool))
    requires PortInv(p) && |answers| >= |p.update|
    ensures PortInv(r.0)
    decreases |p.update|
  {
    if p.update == [] then (p, true)
    else
      UpdateKeeps(p, p.update[0], answers[0]);
      match Update(p, p.update[0], answers[0])
      case Done(p2) => UpdateAll(p2, answers[1..])
      case Failed => (p, false)
  }

  // ---------- Many packets ----------

  datatype Packet = Packet(s: SockState, c: Completion)
  datatype Report = Report(data: int, events: bv32)

  // The packets are completions that are owed, one for a socket.
  ghost predicate Arrived(p: Port, packets: seq<Packet>) {
    && (forall i | 0 <= i < |packets| :: packets[i].s in p.owed)
    && (forall i, j | 0 <= i < j < |packets| :: packets[i].s != packets[j].s)
  }

  ghost function FeedAll(p: Port, packets: seq<Packet>): (r: (Port, seq<Report>))
    requires PortInv(p) && Arrived(p, packets)
    ensures PortInv(r.0)
    decreases |packets|
  {
    if packets == [] then (p, [])
    else
      var s, c := packets[0].s, packets[0].c;
      FeedKeeps(p, s, c);
      OthersOwed(p, packets);
      var (p1, events) := Feed(p, s, c);
      var later := FeedAll(p1, packets[1..]);
      (later.0, (if events != 0 then [Report(p.socks[s].userData, events)] else []) + later.1)
  }

  lemma OthersOwed(p: Port, packets: seq<Packet>)
    requires packets != [] && Arrived(p, packets) && HasSlot(p, packets[0].s)
    ensures var p2 := Feed(p, packets[0].s, packets[0].c).0;
      Arrived(p2, packets[1..]) && p2.socks.Keys <= p.socks.Keys && p2.groups.sizes.Keys == p.groups.sizes.Keys
  {
    hide Without;
    var s := packets[0].s;
    var p2 := Feed(p, s, packets[0].c).0;
    assert p2.owed == p.owed - {s};
    forall i | 0 <= i < |packets[1..]| ensures packets[1..][i].s in p2.owed {
      assert packets[1..][i] == packets[i + 1];
    }
  }

  // One packet, and then the rest.
  lemma FeedFirst(p: Port, packets: seq<Packet>)
    requires PortInv(p) && Arrived(p, packets) && packets != []
    ensures var s, c := packets[0].s, packets[0].c;
      && s in p.owed && HasSlot(p, s)
      && var (p1, events) := Feed(p, s, c);
         && PortInv(p1) && Arrived(p1, packets[1..])
         && p1.socks.Keys <= p.socks.Keys && p1.groups.sizes.Keys == p.groups.sizes.Keys
         && FeedAll(p, packets) == (FeedAll(p1, packets[1..]).0,
              (if events != 0 then [Report(p.socks[s].userData, events)] else []) + FeedAll(p1, packets[1..]).1)
  {
    hide PortInv, Feed;
    FeedKeeps(p, packets[0].s, packets[0].c);
    OthersOwed(p, packets);
  }

  // When the loop succeeds, no registered socket is left without a poll or a completion to come.
  lemma {:induction false} UpdateAllLeavesNoneIdle(p: Port, answers: seq<AfdAnswer>)
    requires PortInv(p) && |answers| >= |p.update|
    ensures var (p2, ok) := UpdateAll(p, answers);
      ok ==> p2.update == [] && forall s | s in p2.socks :: p2.socks[s].status != Idle
    decreases |p.update|
  {
    hide PortInv, Update;
    if p.update == [] {
      NoneIdle(p);
    } else {
      UpdateKeeps(p, p.update[0], answers[0]);
      var o := Update(p, p.update[0], answers[0]);
      if o.Done? {
        UpdateAllLeavesNoneIdle(o.port, answers[1..]);
      }
    }
  }

  lemma NoneIdle(p: Port)
    requires PortInv(p) && p.update == []
    ensures forall s | s in p.socks :: p.socks[s].status != Idle
  {
    hide SlotInv;
    forall s | s in p.socks ensures p.socks[s].status != Idle {
      assert SockInv(p, s);
    }
  }

  // port__update_events_if_polling
  function UpdateIfPolling(p: Port, polling: bool, answers: seq<AfdAnswer>): (r: Port)
    requires PortInv(p) && |answers| >= |p.update|
    ensures PortInv(r)
  {
    if polling then UpdateAll(p, answers).0 else p
  }

  lemma SetEventQueue(p: Port, s: SockState, events: bv32, data: int)
    requires s in p.socks
    ensures |SetEvent(p, s, events, data).update| <= |p.update| + 1
    ensures SetEvent(p, s, events, data).socks.Keys == p.socks.Keys && SetEvent(p, s, events, data).groups == p.groups
  {
  }

  lemma UpdateKeys(p: Port, s: SockState, a: AfdAnswer)
    requires HasSlot(p, s) && Update(p, s, a).Done?
    ensures var p2 := Update(p, s, a).port; p2.socks.Keys <= p.socks.Keys && p2.groups.sizes.Keys == p.groups.sizes.Keys
  {
    hide Covers, Without;
  }

  // ---------- port_delete ----------

  lemma Somewhere(p: Port, s: SockState)
    requires s in p.socks && SockInv(p, s)
    ensures p.tree != map[] || p.deleted != []
  {
  }

  // Once the tree and the deleted queue are empty, nothing is live, no update is queued, and every group
  // is unused: the last loop and the asserts of port_delete go through.
  lemma Emptied(p: Port)
    requires PortInv(p) && p.tree == map[] && p.deleted == []
    ensures p.socks == map[] && p.update == [] && forall g | g in p.groups.sizes :: p.groups.sizes[g] == 0
  {
    hide GroupsInv, SockInv;
    if p.socks != map[] {
      var s :| s in p.socks;
      Somewhere(p, s);
    }
    if p.update != [] {
      Inside(p, p.update[0]);
    }
    forall g | g in p.groups.sizes ensures p.groups.sizes[g] == 0 {
      assert Holders(p.socks, g) == {};
    }
  }

  // Each forced delete takes its socket away for good, so both loops of port_delete end.
  lemma ForcedDelete(p: Port, s: SockState, cancelOk: bool)
    requires PortInv(p) && s in p.socks
    ensures HasSlot(p, s)
    ensures var p2 := Delete(p, s, true, cancelOk);
      && PortInv(p2) && p2.socks.Keys == p.socks.Keys - {s} && p2.tree.Keys <= p.tree.Keys
      && p2.groups.sizes.Keys == p.groups.sizes.Keys
  {
    hide SlotInv;
    assert SockInv(p, s);
    DeleteKeeps(p, s, true, cancelOk);
  }
}
