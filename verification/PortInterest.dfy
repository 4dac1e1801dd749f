/** What epoll_wait tells the user: just what the last epoll_ctl call for the socket asked for. */
module PortInterest {
  import PollGroups
  import QueueContents
  import opened PortModel
  import opened PortRuns
  import opened PortTree
  import Sequences

  // ---------- Events and conditions, in their numbers ----------

  predicate IsEvent(event: bv32) {
    event == 0x1 || event == 0x2 || event == 0x4 || event == 0x8 || event == 0x10 || event == 0x40 || event == 0x80
    || event == 0x100 || event == 0x200 || event == 0x400 || event == 0x2000
  }

  // The AFD conditions behind an epoll event. Those of EPOLLIN: there is data, the peer sends no more, a connection
  // is to be accepted, an attempt to connect has failed.
  function ConditionsOf(event: bv32): bv32 {
    if event == 0x1 || event == 0x40 then 0x1 | 0x8 | 0x80 | 0x100
    else if event == 0x2 || event == 0x80 then 0x2
    else if event == 0x4 || event == 0x100 then 0x4 | 0x100
    else if event == 0x200 then 0x4
    else if event == 0x8 then 0x100
    else if event == 0x10 then 0x10
    else if event == 0x2000 then 0x8 | 0x100
    else 0
  }

  // The report holds an event exactly if the user waits for it and one of its conditions has occurred.
  predicate Tells(afd: bv32, mask: bv32, report: bv32, event: bv32) {
    report & event != 0 <==> mask & event != 0 && afd & ConditionsOf(event) != 0
  }

  // What is reported of a completion to a user who waits for these events.
  ghost predicate Told(c: Completion, mask: bv32, report: bv32) {
    match c
    case Reported(afd) =>
      report & !0x27df == 0 && forall event | IsEvent(event) :: Tells(afd, mask, report, event)
    case HadError => report == mask & 0x8
    case WasCancelled | NoHandles => report == 0
  }

  lemma TellsEach(afd: bv32, mask: bv32, event: bv32)
    requires IsEvent(event)
    ensures Tells(afd, mask, AfdToEpoll(afd) & mask, event)
  {
  }

  lemma TellsKnown(afd: bv32, mask: bv32)
    ensures AfdToEpoll(afd) & mask & !0x27df == 0
  {
  }

  // There is just one such report.
  lemma ToldOnce(c: Completion, mask: bv32, r1: bv32, r2: bv32)
    requires Told(c, mask, r1) && Told(c, mask, r2)
    ensures r1 == r2
  {
    if c.Reported? {
      hide Tells;
      forall event | IsEvent(event) ensures r1 & event != 0 <==> r2 & event != 0 {
        OneEvent(c.afd, mask, r1, r2, event);
      }
      hide Told;
      assert IsEvent(0x1) && IsEvent(0x2) && IsEvent(0x4) && IsEvent(0x8) && IsEvent(0x10) && IsEvent(0x40);
      assert IsEvent(0x80) && IsEvent(0x100) && IsEvent(0x200) && IsEvent(0x400) && IsEvent(0x2000);
    }
  }

  lemma OneEvent(afd: bv32, mask: bv32, r1: bv32, r2: bv32, event: bv32)
    requires Tells(afd, mask, r1, event) && Tells(afd, mask, r2, event)
    ensures r1 & event != 0 <==> r2 & event != 0
  {
  }

  lemma TellsAll(afd: bv32, mask: bv32)
    ensures forall event | IsEvent(event) :: Tells(afd, mask, AfdToEpoll(afd) & mask, event)
  {
    hide AfdToEpoll, Tells, IsEvent;
    forall event | IsEvent(event) ensures Tells(afd, mask, AfdToEpoll(afd) & mask, event) {
      TellsEach(afd, mask, event);
    }
  }

  lemma ReportedTells(afd: bv32, mask: bv32)
    ensures Told(Reported(afd), mask, AfdToEpoll(afd) & mask)
  {
    hide AfdToEpoll, Tells, IsEvent;
    TellsKnown(afd, mask);
    TellsAll(afd, mask);
  }

  lemma WantedTells(c: Completion, mask: bv32)
    ensures Told(c, mask, Wanted(c, mask))
  {
    hide AfdToEpoll, Tells, IsEvent;
    if c.Reported? {
      hide Told;
      ReportedTells(c.afd, mask);
    } else {
      SameBit(mask);
      NoBit(mask);
    }
  }

  lemma SameBit(mask: bv32)
    ensures EPOLLERR & mask == mask & 0x8
  {
  }

  lemma NoBit(mask: bv32)
    ensures 0 & mask == 0
  {
  }

  // A completion for a socket that goes on: what is reported, and when the mask is taken back.
  lemma FeedTells(p: Port, s: SockState, c: Completion)
    requires HasSlot(p, s) && !p.socks[s].deletePending && (c.Reported? ==> c.afd & 0x20 == 0)
    ensures var (p2, report) := Feed(p, s, c); var mask := p.socks[s].userEvents;
      && Told(c, mask, report) && s in p2.socks && p2.socks[s].userData == p.socks[s].userData
      && p2.socks[s].userEvents == if report != 0 && mask & 0x8000_0000 != 0 then 0 else mask
  {
    hide Told, Wanted, Delete;
    assert !LocallyClosed(c);
    WantedTells(c, p.socks[s].userEvents);
  }

  // A closed socket, or one being deleted, ends with its completion, and nothing is reported.
  lemma FeedEnds(p: Port, s: SockState, c: Completion)
    requires PortInv(p) && s in p.owed && s in p.socks
    requires p.socks[s].deletePending || (c.Reported? && c.afd & 0x20 != 0)
    ensures HasSlot(p, s)
    ensures var (p2, report) := Feed(p, s, c); report == 0 && s !in p2.socks && s !in p2.tree.Values
  {
    hide NoDangling, SlotInv, SockInv, LocallyClosed, Notify;
    Closed(c);
    FeedKeeps(p, s, c);
    NotRegistered(Feed(p, s, c).0, s);
  }

  lemma NotRegistered(p: Port, s: SockState)
    requires PortInv(p) && s !in p.socks
    ensures s !in p.tree.Values
  {
    hide SlotInv, SockInv;
    forall key | key in p.tree ensures p.tree[key] != s {
      assert p.tree[key] in p.socks;
    }
  }

  lemma Closed(c: Completion)
    ensures LocallyClosed(c) <==> c.Reported? && c.afd & 0x20 != 0
  {
  }

  // ---------- What AFD is asked ----------

  // A poll asks for all conditions of every event the user waits for.
  ghost predicate AskedFor(polled: bv32, mask: bv32) {
    forall event | IsEvent(event) && mask & event != 0 :: ConditionsOf(event) & !polled == 0
  }

  lemma PollAsks(pending: bv32, user: bv32)
    requires Covers(pending, user) && UserMask(user)
    ensures AskedFor(EpollToAfd(pending), user)
  {
    forall event | IsEvent(event) && user & event != 0 ensures ConditionsOf(event) & !EpollToAfd(pending) == 0 {
      AsksEach(pending, user, event);
    }
  }

  lemma AsksEach(pending: bv32, user: bv32, event: bv32)
    requires Covers(pending, user) && UserMask(user) && IsEvent(event) && user & event != 0
    ensures ConditionsOf(event) & !EpollToAfd(pending) == 0
  {
  }

  // And for nothing else, apart from the closing of the socket.
  lemma PollOnly(events: bv32, condition: bv32)
    requires condition in {0x1, 0x2, 0x4, 0x8, 0x10, 0x80, 0x100} && EpollToAfd(events) & condition != 0
    ensures exists event :: IsEvent(event) && events & event != 0 && ConditionsOf(event) & condition != 0
    ensures EpollToAfd(events) & 0x20 != 0 && EpollToAfd(events) & !0x1bf == 0
  {
    PollBits(events);
    var event :=
      if condition == 0x1 || condition == 0x80 || condition == 0x8
      then (if events & 0x1 != 0 then 0x1 else if events & 0x40 != 0 then 0x40 else 0x2000)
      else if condition == 0x2 then (if events & 0x2 != 0 then 0x2 else 0x80)
      else if condition == 0x4 then (if events & 0x4 != 0 then 0x4 else if events & 0x100 != 0 then 0x100 else 0x200)
      else if condition == 0x10 then 0x10 else 0x8;
    assert IsEvent(event) && events & event != 0 && ConditionsOf(event) & condition != 0;
  }

  lemma PollBits(events: bv32)
    ensures EpollToAfd(events) & 0x20 != 0 && EpollToAfd(events) & !0x1bf == 0
  {
  }

  // So a report says the same as if AFD had told of everything that happened.
  lemma Heard(polled: bv32, mask: bv32, afd: bv32, report: bv32)
    requires AskedFor(polled, mask)
    ensures Told(Reported(afd & polled), mask, report) <==> Told(Reported(afd), mask, report)
  {
    hide ConditionsOf, IsEvent, Tells;
    forall event | IsEvent(event) ensures Tells(afd & polled, mask, report, event) <==> Tells(afd, mask, report, event) {
      if mask & event != 0 {
        Masked(afd, polled, ConditionsOf(event));
      }
      HeardEach(afd & polled, afd, mask, report, event);
    }
  }

  lemma HeardEach(afd1: bv32, afd2: bv32, mask: bv32, report: bv32, event: bv32)
    requires mask & event != 0 ==> afd1 & ConditionsOf(event) == afd2 & ConditionsOf(event)
    ensures Tells(afd1, mask, report, event) <==> Tells(afd2, mask, report, event)
  {
    hide ConditionsOf;
  }

  lemma Masked(afd: bv32, polled: bv32, conditions: bv32)
    requires conditions & !polled == 0
    ensures afd & polled & conditions == afd & conditions
  {
  }

  // ---------- The last call for a socket ----------

  // Event c is the last EPOLL_CTL_ADD or EPOLL_CTL_MOD for this key up to state j, and the key has been registered since.
  ghost predicate Called(states: seq<Port>, events: seq<Event>, c: nat, j: nat, key: int, asked: bv32, data: int) {
    && IsRun(states, events) && c < j < |states|
    && (|| events[c] == Mod(key, asked, data)
        || (events[c].Add? && events[c].newKey == key && events[c].events == asked && events[c].data == data))
    && (forall k | c < k <= j :: key in states[k].tree)
    && (forall k | c < k < j :: !(events[k].Mod? && events[k].key == key))
  }

  // Section k reports events of the socket with this key.
  predicate Reports(p: Port, e: Event, key: int) {
    && e.Complete? && key in p.tree && e.s == p.tree[key] && HasSlot(p, e.s) && Feed(p, e.s, e.c).1 != 0
  }

  // The call asked for one report, and that has been given.
  ghost predicate Disarmed(states: seq<Port>, events: seq<Event>, c: nat, j: nat, key: int, asked: bv32)
    requires |states| == |events| + 1 && j < |states|
  {
    asked & 0x8000_0000 != 0 && exists k | c < k < j :: Reports(states[k], events[k], key)
  }

  // What the socket waits for: every event the call named, and errors and hang-ups.
  function MaskOf(asked: bv32): bv32 {
    asked | 0x8 | 0x10
  }

  // The fields set by epoll_ctl.
  predicate SameCall(p: Port, p2: Port, x: SockState)
    requires x in p.socks
  {
    && x in p2.socks && p2.socks[x].key == p.socks[x].key && p2.socks[x].deletePending == p.socks[x].deletePending
    && p2.socks[x].userEvents == p.socks[x].userEvents && p2.socks[x].userData == p.socks[x].userData
  }

  lemma MaskIs(asked: bv32)
    ensures asked | EPOLLERR | EPOLLHUP == MaskOf(asked)
  {
  }

  lemma SetEventFields(p: Port, s: SockState, events: bv32, data: int, x: SockState)
    requires s in p.socks && x in p.socks
    ensures var p2 := SetEvent(p, s, events, data);
      && (x != s ==> SameCall(p, p2, x))
      && s in p2.socks && p2.socks[s].userEvents == MaskOf(events) && p2.socks[s].userData == data
  {
    hide Covers, MaskOf;
    MaskIs(events);
  }

  lemma DeleteFields(p: Port, s: SockState, force: bool, cancelOk: bool, x: SockState)
    requires HasSlot(p, s) && x in p.socks && x != s
    ensures SameCall(p, Delete(p, s, force, cancelOk), x)
  {
    hide QueueContents.Without, PollGroups.Release;
  }

  lemma UpdateFields(p: Port, s: SockState, a: AfdAnswer, x: SockState)
    requires HasSlot(p, s) && x in p.socks && Update(p, s, a).Done?
    ensures var p2 := Update(p, s, a).port;
      if x == s && p.socks[s].status.Idle? && a.submission.SocketClosed? then p2 == Delete(p, s, false, a.cancelOk)
      else SameCall(p, p2, x)
  {
    hide Covers, EpollToAfd, QueueContents.Without, Delete;
    if x != s {
      DeleteFields(p, s, false, a.cancelOk, x);
    }
  }

  lemma FeedFields(p: Port, s: SockState, c: Completion, x: SockState)
    requires HasSlot(p, s) && x in p.socks && x != s
    ensures SameCall(p, Feed(p, s, c).0, x)
  {
    hide Wanted, OneShot, LocallyClosed, Delete;
    var p1 := p.(socks := p.socks[s := p.socks[s].(status := Idle, pendingEvents := 0)], owed := p.owed - {s});
    DeleteFields(p1, s, false, true, x);
  }

  // What a step leaves of the last call for a key that stays registered.
  ghost predicate Follows(p: Port, e: Event, p2: Port, key: int)
    requires key in p.tree && p.tree[key] in p.socks && key in p2.tree
  {
    var s := p.tree[key];
    && p2.tree[key] == s && s in p2.socks
    && if e.Mod? && e.key == key then p2.socks[s].userEvents == MaskOf(e.events) && p2.socks[s].userData == e.data
       else
         && p2.socks[s].userData == p.socks[s].userData
         && p2.socks[s].userEvents ==
              if Reports(p, e, key) && p.socks[s].userEvents & 0x8000_0000 != 0 then 0 else p.socks[s].userEvents
  }

  lemma RegisteredHere(p: Port, key: int)
    requires PortInv(p) && key in p.tree
    ensures var s := p.tree[key]; s in p.socks && p.socks[s].key == key && HasSlot(p, s) && !p.socks[s].deletePending
  {
    hide SlotInv;
    Registered(p, key);
    LiveHasSlot(p, p.tree[key]);
  }

  lemma CompleteFollows(p: Port, s: SockState, c: Completion, key: int)
    requires PortInv(p) && s in p.owed && key in p.tree && p.tree[key] in p.socks && HasSlot(p, s)
    requires key in Feed(p, s, c).0.tree
    ensures Follows(p, Complete(s, c), Feed(p, s, c).0, key)
  {
    hide PortInv, Feed, Told, LocallyClosed, MaskOf;
    RegisteredHere(p, key);
    FeedTree(p, s, c);
    if p.tree[key] == s {
      assert LocallyClosed(c) <==> c.Reported? && c.afd & 0x20 != 0 by { Closed(c); }
      FeedTells(p, s, c);
    } else {
      FeedFields(p, s, c, p.tree[key]);
    }
  }

  lemma UpdateFollows(p: Port, a: AfdAnswer, key: int)
    requires PortInv(p) && p.update != [] && HasSlot(p, p.update[0]) && key in p.tree && p.tree[key] in p.socks
    requires Update(p, p.update[0], a).Done? && key in Update(p, p.update[0], a).port.tree
    ensures Follows(p, UpdateFirst(a), Update(p, p.update[0], a).port, key)
  {
    hide PortInv, Update, MaskOf;
    var s := p.update[0];
    RegisteredHere(p, key);
    UpdateKeeps(p, s, a);
    UpdateTree(p, s, a);
    UpdateFields(p, s, a, p.tree[key]);
  }

  lemma DelFollows(p: Port, k: int, cancelOk: bool, key: int)
    requires PortInv(p) && k in p.tree && HasSlot(p, p.tree[k]) && key in p.tree && p.tree[key] in p.socks
    requires key in Delete(p, p.tree[k], false, cancelOk).tree
    ensures Follows(p, Del(k, cancelOk), Delete(p, p.tree[k], false, cancelOk), key)
  {
    hide PortInv, Delete, MaskOf;
    RegisteredHere(p, key);
    RegisteredHere(p, k);
    DeleteTree(p, p.tree[k], false, cancelOk);
    DeleteFields(p, p.tree[k], false, cancelOk, p.tree[key]);
  }

  lemma StepFollows(p: Port, e: Event, p2: Port, key: int)
    requires PortInv(p) && Step(p, e, p2) && key in p.tree && key in p2.tree
    ensures p.tree[key] in p.socks && Follows(p, e, p2, key)
  {
    hide PortInv, SetEvent, Delete, Update, Feed, MaskOf, PollGroups.Acquire, PollGroups.Release;
    RegisteredHere(p, key);
    var s := p.tree[key];
    match e
    case Add(x, k, made, events, data) =>
      assert s != x by { LiveUsed(p, s); }
      SetEventFields(New(p, x, k, made), x, events, data, s);
      SetEventTree(New(p, x, k, made), x, events, data);
    case AddFails(_) =>
    case Mod(k, events, data) =>
      RegisteredHere(p, k);
      SetEventFields(p, p.tree[k], events, data, s);
      SetEventTree(p, p.tree[k], events, data);
    case Del(k, cancelOk) => DelFollows(p, k, cancelOk, key);
    case UpdateFirst(a) =>
      if Update(p, p.update[0], a).Done? {
        UpdateFollows(p, a, key);
      }
    case Complete(x, c) => CompleteFollows(p, x, c, key);
  }

  lemma LiveUsed(p: Port, s: SockState)
    requires PortInv(p) && s in p.socks
    ensures s in p.used
  {
    hide SlotInv, SockInv;
  }

  lemma FirstFollows(p: Port, e: Event, p2: Port, key: int, asked: bv32, data: int)
    requires PortInv(p) && Step(p, e, p2) && key in p2.tree
    requires e == Mod(key, asked, data) || (e.Add? && e.newKey == key && e.events == asked && e.data == data)
    ensures var s := p2.tree[key]; s in p2.socks && p2.socks[s].userEvents == MaskOf(asked) && p2.socks[s].userData == data
  {
    hide PortInv, SetEvent, MaskOf, PollGroups.Acquire;
    if e.Mod? {
      StepFollows(p, e, p2, key);
    } else {
      SetEventFields(New(p, e.s, key, e.made), e.s, asked, data, e.s);
      SetEventTree(New(p, e.s, key, e.made), e.s, asked, data);
    }
  }

  lemma OneShotMask(asked: bv32)
    ensures MaskOf(asked) & 0x8000_0000 == asked & 0x8000_0000
  {
  }

  // In every run a registered socket waits for just what its last call asked for, with the data of that call. Only
  // after a report to a caller who asked for no more than one does it wait for nothing.
  lemma {:induction false} CallKept(states: seq<Port>, events: seq<Event>, c: nat, j: nat, key: int, asked: bv32, data: int)
    requires Called(states, events, c, j, key, asked, data)
    ensures var p := states[j]; var s := p.tree[key];
      && s in p.socks && p.socks[s].userData == data
      && p.socks[s].userEvents == if Disarmed(states, events, c, j, key, asked) then 0 else MaskOf(asked)
    decreases j
  {
    hide PortInv, Apply, Allowed, Reports, MaskOf;
    var p, e := states[j - 1], events[j - 1];
    assert Step(p, e, states[j]);
    EveryRun(states, events, j - 1);
    if j == c + 1 {
      FirstFollows(p, e, states[j], key, asked, data);
    } else {
      CallKept(states, events, c, j - 1, key, asked, data);
      StepFollows(p, e, states[j], key);
      OneShotMask(asked);
      if Disarmed(states, events, c, j - 1, key, asked) {
        var k :| c < k < j - 1 && Reports(states[k], events[k], key);
        assert Disarmed(states, events, c, j, key, asked);
      } else if Reports(p, e, key) && asked & 0x8000_0000 != 0 {
        assert Disarmed(states, events, c, j, key, asked);
      }
    }
  }

  // And there is a last call for each.
  lemma {:induction false} LastCall(states: seq<Port>, events: seq<Event>, j: nat, key: int)
    returns (c: nat, asked: bv32, data: int)
    requires IsRun(states, events) && j < |states| && key in states[j].tree
    ensures Called(states, events, c, j, key, asked, data)
    decreases j
  {
    hide PortInv, Apply;
    assert j > 0;
    var p, e := states[j - 1], events[j - 1];
    assert Step(p, e, states[j]);
    EveryRun(states, events, j - 1);
    if e.Mod? && e.key == key {
      c, asked, data := j - 1, e.events, e.data;
    } else if e.Add? && e.newKey == key {
      c, asked, data := j - 1, e.events, e.data;
    } else {
      StillThere(p, e, states[j], key);
      c, asked, data := LastCall(states, events, j - 1, key);
    }
  }

  // Only EPOLL_CTL_ADD registers a key.
  lemma StillThere(p: Port, e: Event, p2: Port, key: int)
    requires PortInv(p) && Step(p, e, p2) && key in p2.tree && !(e.Add? && e.newKey == key)
    ensures key in p.tree
  {
    hide PortInv, SetEvent, Delete, Update, Feed, PollGroups.Acquire, PollGroups.Release, LocallyClosed;
    match e
    case Add(x, k, made, events, data) => SetEventTree(New(p, x, k, made), x, events, data);
    case AddFails(_) =>
    case Mod(k, events, data) => SetEventTree(p, p.tree[k], events, data);
    case Del(k, cancelOk) => DeleteTree(p, p.tree[k], false, cancelOk);
    case UpdateFirst(a) => UpdateTree(p, p.update[0], a);
    case Complete(x, c) => FeedTree(p, x, c);
  }

  // What the user waits for on a key.
  ghost function Asked(states: seq<Port>, events: seq<Event>, c: nat, j: nat, key: int, asked: bv32): bv32
    requires |states| == |events| + 1 && j < |states|
  {
    if Disarmed(states, events, c, j, key, asked) then 0 else MaskOf(asked)
  }

  // No interest is lost. A registered socket is about to be looked at, or its poll was cancelled and the completion is
  // still to come, or it is polled: then AFD was asked for all conditions of all events the user waits for.
  lemma NoInterestLost(states: seq<Port>, events: seq<Event>, c: nat, j: nat, key: int, asked: bv32, data: int)
    requires Called(states, events, c, j, key, asked, data)
    ensures var p := states[j]; var s := p.tree[key];
      && s in p.socks
      && (|| s in p.update
          || (p.socks[s].status == Cancelled && s in p.owed)
          || (p.socks[s].status == Pending && s in p.owed
              && AskedFor(p.socks[s].polled, Asked(states, events, c, j, key, asked))))
  {
    hide EpollToAfd, Covers, UserMask, AskedFor, Disarmed, MaskOf;
    CallKept(states, events, c, j, key, asked, data);
    EveryRun(states, events, j);
    Registered(states[j], key);
    var p := states[j];
    var s := p.tree[key];
    assert SockInv(p, s);
    var sock := p.socks[s];
    if sock.status == Pending && Covers(sock.pendingEvents, sock.userEvents) {
      PollAsks(sock.pendingEvents, sock.userEvents);
    }
  }

  // The completion of its poll, unless the socket was closed, is reported as the last call asked for, with its data.
  lemma ReportsCall(states: seq<Port>, events: seq<Event>, c: nat, j: nat, key: int, asked: bv32, data: int, comp: Completion)
    requires Called(states, events, c, j, key, asked, data) && states[j].tree[key] in states[j].owed
    requires comp.Reported? ==> comp.afd & 0x20 == 0
    ensures var p := states[j]; var s := p.tree[key];
      && HasSlot(p, s) && p.socks[s].userData == data
      && Told(comp, Asked(states, events, c, j, key, asked), Feed(p, s, comp).1)
  {
    hide Told, PortInv, Feed, Disarmed, MaskOf;
    EveryRun(states, events, j);
    CallKept(states, events, c, j, key, asked, data);
    RegisteredHere(states[j], key);
    FeedTells(states[j], states[j].tree[key], comp);
  }

  // ---------- Many packets at once ----------

  // The reports of one packet, of which there is one at most.
  ghost predicate TellsOf(sock: Sock, c: Completion, r: seq<Report>) {
    if sock.deletePending || (c.Reported? && c.afd & 0x20 != 0) then r == []
    else
      && |r| <= 1 && Told(c, sock.userEvents, if r == [] then 0 else r[0].events)
      && (r != [] ==> r[0].data == sock.userData && r[0].events != 0)
  }

  lemma FeedTellsOf(p: Port, s: SockState, c: Completion)
    requires HasSlot(p, s)
    ensures TellsOf(p.socks[s], c,
      if Feed(p, s, c).1 != 0 then [Report(p.socks[s].userData, Feed(p, s, c).1)] else [])
  {
    hide Told, Notify, Delete, LocallyClosed;
    Closed(c);
    if !p.socks[s].deletePending && !LocallyClosed(c) {
      hide Feed;
      FeedTells(p, s, c);
    }
  }

  // Each packet is reported as it would be alone, in the order of the packets.
  lemma {:induction false} AllTold(p: Port, packets: seq<Packet>) returns (each: seq<seq<Report>>)
    requires PortInv(p) && Arrived(p, packets)
    ensures |each| == |packets| && Sequences.Joined(each) == FeedAll(p, packets).1
    ensures forall i | 0 <= i < |packets| :: packets[i].s in p.socks && TellsOf(p.socks[packets[i].s], packets[i].c, each[i])
    decreases |packets|
  {
    hide PortInv, Feed, TellsOf;
    each := [];
    if packets != [] {
      var s, c := packets[0].s, packets[0].c;
      FeedFirst(p, packets);
      FeedTellsOf(p, s, c);
      var (p1, events) := Feed(p, s, c);
      var later := AllTold(p1, packets[1..]);
      each := [if events != 0 then [Report(p.socks[s].userData, events)] else []] + later;
      Sequences.JoinedFirst(each);
      assert each[1..] == later;
      forall i | 0 <= i < |packets| ensures packets[i].s in p.socks && TellsOf(p.socks[packets[i].s], packets[i].c, each[i]) {
        if i > 0 {
          assert packets[i] == packets[1..][i - 1] && each[i] == later[i - 1];
          FeedFields(p, s, c, packets[i].s);
          Same(p.socks[packets[i].s], p1.socks[packets[i].s], packets[i].c, each[i]);
        }
      }
    }
  }

  lemma Same(sock1: Sock, sock2: Sock, c: Completion, r: seq<Report>)
    requires sock1.userEvents == sock2.userEvents && sock1.userData == sock2.userData
    requires sock1.deletePending == sock2.deletePending
    ensures TellsOf(sock1, c, r) == TellsOf(sock2, c, r)
  {
  }

  // ---------- Working off the update queue ----------

  // If no request fails, the queue is worked off exactly while a thread polls, and then every registered socket
  // is polled for all it waits for, or has a completion to come.
  lemma WorkedOff(p: Port, polling: bool, answers: seq<AfdAnswer>)
    requires PortInv(p) && |answers| >= |p.update|
    requires forall i | 0 <= i < |answers| :: answers[i].submission != Refused && answers[i].cancelOk
    ensures var p2 := UpdateIfPolling(p, polling, answers);
      && (p2.update == [] <==> polling || p.update == [])
      && (polling ==> forall key | key in p2.tree ::
            var s := p2.tree[key];
            && s in p2.socks && s in p2.owed
            && (p2.socks[s].status == Pending ==> AskedFor(p2.socks[s].polled, p2.socks[s].userEvents)))
  {
    hide UpdateAll, PortInv, AskedFor;
    if polling {
      AllAccepted(p, answers);
      var p2 := UpdateAll(p, answers).0;
      forall key | key in p2.tree
        ensures var s := p2.tree[key];
          && s in p2.socks && s in p2.owed
          && (p2.socks[s].status == Pending ==> AskedFor(p2.socks[s].polled, p2.socks[s].userEvents))
      {
        PolledHere(p2, key);
      }
    }
  }

  lemma {:induction false} AllAccepted(p: Port, answers: seq<AfdAnswer>)
    requires PortInv(p) && |answers| >= |p.update|
    requires forall i | 0 <= i < |answers| :: answers[i].submission != Refused && answers[i].cancelOk
    ensures UpdateAll(p, answers).0.update == []
    decreases |p.update|
  {
    hide PortInv, Update;
    if p.update != [] {
      UpdateKeeps(p, p.update[0], answers[0]);
      TakenOn(p, p.update[0], answers[0]);
      AllAccepted(Update(p, p.update[0], answers[0]).port, answers[1..]);
    }
  }

  lemma TakenOn(p: Port, s: SockState, a: AfdAnswer)
    requires HasSlot(p, s) && a.submission != Refused && a.cancelOk
    ensures Update(p, s, a).Done?
  {
    hide Covers, EpollToAfd, Dequeue, CancelPoll, Delete;
  }

  lemma PolledHere(p: Port, key: int)
    requires PortInv(p) && p.update == [] && key in p.tree
    ensures var s := p.tree[key];
      && s in p.socks && s in p.owed
      && (p.socks[s].status == Pending ==> AskedFor(p.socks[s].polled, p.socks[s].userEvents))
  {
    hide EpollToAfd, Covers, UserMask, AskedFor, SlotInv;
    Registered(p, key);
    var sock := p.socks[p.tree[key]];
    assert SockInv(p, p.tree[key]);
    if sock.status == Pending {
      PollAsks(sock.pendingEvents, sock.userEvents);
    }
  }

  // The user waits for a known event that is not in the mask of the pending poll.
  ghost predicate Unasked(pending: bv32, user: bv32) {
    exists event :: IsEvent(event) && user & event != 0 && pending & event == 0
  }

  // A pending poll is cancelled exactly if there is such an event, and otherwise left alone.
  lemma PollReplaced(p: Port, s: SockState, a: AfdAnswer)
    requires HasSlot(p, s) && p.socks[s].status == Pending && a.cancelOk
    ensures var o, sock := Update(p, s, a), p.socks[s];
      && o.Done? && s in o.port.socks
      && if Unasked(sock.pendingEvents, sock.userEvents) then o.port.socks[s].status == Cancelled else o.port.socks == p.socks
  {
    hide Covers, QueueContents.Without, Unasked;
    CoversEach(p.socks[s].pendingEvents, p.socks[s].userEvents);
  }

  lemma CoversEach(pending: bv32, user: bv32)
    ensures Covers(pending, user) <==> !Unasked(pending, user)
  {
    if Unasked(pending, user) {
      var event :| IsEvent(event) && user & event != 0 && pending & event == 0;
      OneUnasked(pending, user, event);
    }
    if !Covers(pending, user) {
      var event := Lacking(pending, user);
    }
  }

  lemma OneUnasked(pending: bv32, user: bv32, event: bv32)
    requires IsEvent(event) && user & event != 0 && pending & event == 0
    ensures !Covers(pending, user)
  {
  }

  lemma Lacking(pending: bv32, user: bv32) returns (event: bv32)
    requires !Covers(pending, user)
    ensures IsEvent(event) && user & event != 0 && pending & event == 0
  {
    var lost := user & !pending;
    event :=
      if lost & 0x1 != 0 then 0x1 else if lost & 0x2 != 0 then 0x2 else if lost & 0x4 != 0 then 0x4
      else if lost & 0x8 != 0 then 0x8 else if lost & 0x10 != 0 then 0x10 else if lost & 0x40 != 0 then 0x40
      else if lost & 0x80 != 0 then 0x80 else if lost & 0x100 != 0 then 0x100 else if lost & 0x200 != 0 then 0x200
      else if lost & 0x400 != 0 then 0x400 else 0x2000;
  }

  // ---------- Removing a socket ----------

  // EPOLL_CTL_DEL takes the socket out at once. If no completion is owed it is freed; otherwise its poll is cancelled,
  // if AFD agrees, and it waits in the deleted queue for that completion.
  lemma Removed(p: Port, key: int, cancelOk: bool)
    requires PortInv(p) && key in p.tree
    ensures var s := p.tree[key];
      && HasSlot(p, s)
      && var p2 := Delete(p, s, false, cancelOk);
         && p2.tree == p.tree - {key} && s !in p2.update && (s in p2.socks <==> s in p.owed)
         && (s in p.owed ==>
              && s in p2.deleted && s in p2.owed && p2.socks[s].deletePending
              && p2.socks[s].status == if p.socks[s].status == Pending && !cancelOk then Pending else Cancelled)
  {
    hide Covers, SlotInv, QueueContents.Without, PollGroups.Release, UserMask, EpollToAfd;
    RegisteredHere(p, key);
    assert SockInv(p, p.tree[key]);
    DequeueMembers(p, p.tree[key]);
    DequeueMembers(Retire(p, p.tree[key], cancelOk), p.tree[key]);
  }
}
