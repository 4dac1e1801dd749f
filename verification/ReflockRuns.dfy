/** What a thread gets from the handle tree, in every run: a lookup finds the node, a close takes it out. */
module ReflockRuns {
  import opened Reflock

  // ---------- A lookup ----------

  // What the lock operations do to the threads.
  lemma LockMoves(s: State, t: int, pc: Pc)
    ensures Ref(s, t, pc).Right? ==> Ref(s, t, pc).state.threads == s.threads[t := pc]
    ensures Unref(s, t).Right? ==> Unref(s, t).state.threads in {s.threads[t := Idle], s.threads[t := Signalling]}
    ensures BeginDestroy(s, t).Right? ==>
      BeginDestroy(s, t).state.threads in {s.threads[t := Waiting], s.threads[t := Destroying]}
    ensures EndDestroy(s, t).Right? ==> EndDestroy(s, t).state.threads == s.threads[t := Destroyed]
  {
    hide Wrap, RefBits, DestroyBits;
  }

  // Which threads a step moves: its own, and the waiter it wakes.
  lemma Moves(s: State, e: Event, s2: State)
    requires Step(s, e, s2)
    ensures e.t in s2.threads
    ensures e.Meet? ==> e.waiter in s.threads && s2.threads == s.threads[e.t := Idle][e.waiter := Destroying]
    ensures !e.Meet? ==> s2.threads == s.threads[e.t := s2.threads[e.t]]
  {
    hide NoneShared, NoneExclusive, Ref, Unref, BeginDestroy, EndDestroy;
    LockMoves(s, e.t, Referenced);
    LockMoves(s, e.t, ReferencedToClose);
  }

  lemma MovedOnly(s: State, e: Event, s2: State, t: int)
    requires Step(s, e, s2) && t in s.threads && e.t != t && (e.Meet? ==> e.waiter != t)
    ensures t in s2.threads && s2.threads[t] == s.threads[t]
  {
    hide Apply, Allowed;
    Moves(s, e, s2);
  }

  // From event i on, thread t is in the shared section until state j.
  ghost predicate LooksUp(states: seq<State>, events: seq<Event>, creator: int, t: int, i: nat, j: nat) {
    && IsRun(states, events, creator) && i < j < |states| && events[i] == Find(t)
    && (forall k | i < k < j :: t in states[k].threads && InShared(states[k].threads[t]))
  }

  // A step of another thread leaves this one where it is, and the tree alone while this one reads.
  lemma OthersStep(s: State, e: Event, s2: State, t: int)
    requires Inv(s) && Step(s, e, s2) && t in s.threads && e.t != t && (e.Meet? ==> e.waiter != t)
    ensures t in s2.threads && s2.threads[t] == s.threads[t]
    ensures InShared(s.threads[t]) ==> s2.inTree == s.inTree
  {
    MovedOnly(s, e, s2, t);
    if InShared(s.threads[t]) {
      NoWriter(s, e, s2, t);
    }
  }

  lemma NoWriter(s: State, e: Event, s2: State, t: int)
    requires Inv(s) && Step(s, e, s2) && t in s.threads && InShared(s.threads[t]) && e.t != t
    ensures s2.inTree == s.inTree
  {
    hide Refs, Owners, Signallers, OwnerInv, NoneShared, NoneExclusive, Wrap, RefBits, DestroyBits;
    assert !InExclusive(s.threads[e.t]);
  }

  // The steps of a reader itself.
  lemma OwnStep(s: State, e: Event, s2: State, t: int)
    requires Step(s, e, s2) && t in s.threads && e.t == t && InShared(s.threads[t])
    ensures t in s2.threads && s2.inTree == s.inTree
    ensures match s.threads[t]
      case Looking => s2.threads[t] == if s.inTree then Found else Missed
      case Found => s2.threads[t] == Referenced
      case Referenced => s2.threads[t] == Using
      case Missed => s2.threads[t] == Idle
      case _ => true
  {
    hide NoneShared, NoneExclusive;
  }

  lemma {:induction false} WhileLooking(states: seq<State>, events: seq<Event>, creator: int, t: int, i: nat, j: nat, k: nat)
    requires LooksUp(states, events, creator, t, i, j) && i < k < j
    ensures t in states[k].threads && states[k].inTree == states[i].inTree
    ensures states[k].threads[t] in (if states[i].inTree then {Looking, Found, Referenced} else {Looking, Missed})
    decreases k
  {
    hide Inv, Apply, Initial, Allowed;
    assert Step(states[k - 1], events[k - 1], states[k]);
    if k == i + 1 {
      FindStep(states[i], states[k], t);
    } else {
      WhileLooking(states, events, creator, t, i, j, k - 1);
      ReaderStep(states, events, creator, t, k);
    }
  }

  lemma FindStep(s: State, s2: State, t: int)
    requires Step(s, Find(t), s2)
    ensures t in s2.threads && s2.threads[t] == Looking && s2.inTree == s.inTree
  {
  }

  // One step while t reads, its own or that of another.
  lemma ReaderStep(states: seq<State>, events: seq<Event>, creator: int, t: int, k: nat)
    requires IsRun(states, events, creator) && 0 < k < |states|
    requires t in states[k - 1].threads && InShared(states[k - 1].threads[t])
    ensures var s, s2 := states[k - 1], states[k];
      t in s2.threads && s2.inTree == s.inTree
      && (s2.threads[t] == s.threads[t] || match s.threads[t]
          case Looking => s2.threads[t] == if s.inTree then Found else Missed
          case Found => s2.threads[t] == Referenced
          case Referenced => s2.threads[t] == Using
          case Missed => s2.threads[t] == Idle
          case _ => true)
  {
    hide Inv, Initial;
    var s, e, s2 := states[k - 1], events[k - 1], states[k];
    EveryRun(states, events, creator, k - 1);
    assert Step(s, e, s2);
    hide Apply;
    if e.t == t {
      OwnStep(s, e, s2, t);
    } else {
      NotWaiting(s, e, t);
      OthersStep(s, e, s2, t);
    }
  }

  lemma NotWaiting(s: State, e: Event, t: int)
    requires Allowed(s, e) && t in s.threads && InShared(s.threads[t])
    ensures e.Meet? ==> e.waiter != t
  {
  }

  // If the node was in the tree, the thread that looked it up leaves the shared section with a reference, and if it
  // was not, with nothing, whatever the other threads do.
  lemma LookupOutcome(states: seq<State>, events: seq<Event>, creator: int, t: int, i: nat, j: nat)
    requires LooksUp(states, events, creator, t, i, j) && t in states[j].threads && !InShared(states[j].threads[t])
    ensures states[j].threads[t] == if states[i].inTree then Using else Idle
    ensures states[i].inTree ==> HasRef(states[j].threads[t]) && states[j].live && states[j].word % DESTROY > 0
  {
    hide Inv, Apply, Initial, Allowed;
    if j == i + 1 {
      assert Step(states[i], events[i], states[j]);
      FindStep(states[i], states[j], t);
    } else {
      WhileLooking(states, events, creator, t, i, j, j - 1);
      ReaderStep(states, events, creator, t, j);
    }
    if states[i].inTree {
      EveryRun(states, events, creator, j);
      CountedRef(states[j], t);
    }
  }

  // A reference is one the word of the lock counts.
  lemma CountedRef(s: State, t: int)
    requires Inv(s) && t in s.threads && HasRef(s.threads[t])
    ensures s.live && s.word % DESTROY == |Refs(s.threads)| > 0
  {
    hide Owners, Signallers, LockInv;
    var owner := HeldWhere(s, t);
    FewRefs(s.threads);
  }

  // Inside the lock no thread has to wait: a few steps of its own take it out again.
  function StepsToGo(pc: Pc): nat {
    match pc
    case Looking | Removing => 3
    case Found | Removed | Adding => 2
    case Referenced | Missed | ReferencedToClose | MissedToClose | Added => 1
    case _ => 0
  }

  lemma InsideGoes(s: State, t: int)
    requires Inv(s) && t in s.threads && (InShared(s.threads[t]) || InExclusive(s.threads[t]))
    ensures Allowed(s, Go(t)) && Apply(s, Go(t)).Right?
    ensures var s2 := Apply(s, Go(t)).state; t in s2.threads && StepsToGo(s2.threads[t]) < StepsToGo(s.threads[t]) <= 3
  {
    hide Inv, NoneShared, NoneExclusive;
    ApplyKeeps(s, Go(t));
  }

  // Readers do not keep each other out.
  lemma ReadersTogether(s: State, t: int, u: int)
    requires Inv(s) && t in s.threads && s.threads[t].Idle? && u in s.threads && InShared(s.threads[u])
    ensures Allowed(s, Find(t))
  {
    hide Refs, Owners, Signallers, OwnerInv;
    assert forall x | x in s.threads && InExclusive(s.threads[x]) :: x == u;
  }

  // ---------- A close ----------

  // From event i on, thread t is in the exclusive section until state j.
  ghost predicate Closes(states: seq<State>, events: seq<Event>, creator: int, t: int, i: nat, j: nat) {
    && IsRun(states, events, creator) && i < j < |states| && events[i] == Close(t)
    && (forall k | i < k < j :: t in states[k].threads && InExclusive(states[k].threads[t]))
  }

  // One step while t writes, its own or that of another.
  lemma WriterStep(states: seq<State>, events: seq<Event>, creator: int, t: int, k: nat)
    requires IsRun(states, events, creator) && 0 < k < |states|
    requires t in states[k - 1].threads && InExclusive(states[k - 1].threads[t])
    ensures var s, s2 := states[k - 1], states[k];
      t in s2.threads
      && if s2.threads[t] == s.threads[t] then s2.inTree == s.inTree
         else match s.threads[t]
           case Removing => s2.threads[t] == (if s.inTree then Removed else MissedToClose) && !s2.inTree
           case Removed => s2.threads[t] == ReferencedToClose && s2.inTree == s.inTree
           case ReferencedToClose => s2.threads[t] == Closing && s2.inTree == s.inTree
           case MissedToClose => s2.threads[t] == Idle && s2.inTree == s.inTree
           case _ => true
  {
    hide Inv, Initial;
    EveryRun(states, events, creator, k - 1);
    assert Step(states[k - 1], events[k - 1], states[k]);
    OneWriterStep(states[k - 1], events[k - 1], states[k], t);
  }

  lemma OneWriterStep(s: State, e: Event, s2: State, t: int)
    requires Inv(s) && Step(s, e, s2) && t in s.threads && InExclusive(s.threads[t])
    ensures t in s2.threads
    ensures e.t != t ==> s2.threads[t] == s.threads[t] && s2.inTree == s.inTree
    ensures e.t == t ==>
      match s.threads[t]
      case Removing => s2.threads[t] == (if s.inTree then Removed else MissedToClose) && !s2.inTree
      case Removed => s2.threads[t] == ReferencedToClose && s2.inTree == s.inTree
      case ReferencedToClose => s2.threads[t] == Closing && s2.inTree == s.inTree
      case MissedToClose => s2.threads[t] == Idle && s2.inTree == s.inTree
      case _ => s2.threads[t] != s.threads[t]
  {
    hide Refs, Owners, Signallers, OwnerInv, NoneShared, NoneExclusive;
    WriterAlone(s, t);
  }

  lemma CloseStep(s: State, s2: State, t: int)
    requires Step(s, Close(t), s2)
    ensures t in s2.threads && s2.threads[t] == Removing && s2.inTree == s.inTree
  {
  }

  lemma {:induction false} WhileRemoving(states: seq<State>, events: seq<Event>, creator: int, t: int, i: nat, j: nat, k: nat)
    requires Closes(states, events, creator, t, i, j) && i < k < j
    ensures t in states[k].threads && states[k].threads[t] in {Removing, Removed, ReferencedToClose, MissedToClose}
    ensures states[k].threads[t] == Removing ==> states[k].inTree == states[i].inTree
    ensures states[k].threads[t] != Removing ==>
      !states[k].inTree && (states[k].threads[t] == MissedToClose <==> !states[i].inTree)
    decreases k
  {
    hide Inv, Apply, Initial, Allowed;
    assert Step(states[k - 1], events[k - 1], states[k]);
    if k == i + 1 {
      CloseStep(states[i], states[k], t);
    } else {
      WhileRemoving(states, events, creator, t, i, j, k - 1);
      WriterStep(states, events, creator, t, k);
    }
  }

  // If the node was in the tree, the thread that closes it leaves the exclusive section as its one owner, with the
  // node out of the tree and a reference; if it was not, with nothing.
  lemma CloseOutcome(states: seq<State>, events: seq<Event>, creator: int, t: int, i: nat, j: nat)
    requires Closes(states, events, creator, t, i, j) && t in states[j].threads && !InExclusive(states[j].threads[t])
    ensures states[j].threads[t] == (if states[i].inTree then Closing else Idle) && !states[j].inTree
    ensures states[i].inTree ==> Owners(states[j].threads) == {t} && states[j].live && states[j].word % DESTROY > 0
  {
    hide Inv, Apply, Initial, Allowed;
    if j == i + 1 {
      assert Step(states[i], events[i], states[j]);
      CloseStep(states[i], states[j], t);
    } else {
      WhileRemoving(states, events, creator, t, i, j, j - 1);
      WriterStep(states, events, creator, t, j);
    }
    if states[i].inTree {
      EveryRun(states, events, creator, j);
      CountedRef(states[j], t);
      OneOwner(states[j], t);
    }
  }

  lemma OneOwner(s: State, t: int)
    requires Inv(s) && t in s.threads && Owns(s.threads[t])
    ensures Owners(s.threads) == {t}
  {
    hide Refs, Signallers, OwnerInv, LockInv;
    MoveOwners(s.threads, t, Idle);
    forall u | u in s.threads && Owns(s.threads[u]) ensures u == t {
      OnlyOwner(s.threads, t, u);
    }
  }

  // ---------- The end of a node ----------

  predicate Ending(pc: Pc) {
    pc.Closing? || pc.Waiting? || pc.Destroying?
  }

  // The owner stays in reflock_unref_and_destroy until it has returned.
  lemma {:induction false} EndOutcome(states: seq<State>, events: seq<Event>, creator: int, t: int, i: nat, j: nat)
    requires IsRun(states, events, creator) && i <= j < |states|
    requires forall k | i <= k < j :: t in states[k].threads && Ending(states[k].threads[t])
    requires t in states[i].threads && Ending(states[i].threads[t])
    ensures t in states[j].threads && (Ending(states[j].threads[t]) || states[j].threads[t] == Destroyed)
    decreases j
  {
    hide Inv, Apply, Initial, Allowed;
    if i < j {
      EndOutcome(states, events, creator, t, i, j - 1);
      assert Step(states[j - 1], events[j - 1], states[j]);
      EndStep(states[j - 1], events[j - 1], states[j], t);
    }
  }

  lemma EndStep(s: State, e: Event, s2: State, t: int)
    requires Step(s, e, s2) && t in s.threads && Ending(s.threads[t])
    ensures t in s2.threads && (Ending(s2.threads[t]) || s2.threads[t] == Destroyed)
    ensures s2.threads[t] == Destroyed ==> s.threads[t] == Destroying
  {
    hide NoneShared, NoneExclusive, Wrap, RefBits, DestroyBits;
    if e.Meet? && e.waiter == t {
      assert s2.threads[t] == Destroying;
    } else if e.t != t {
      hide Apply;
      MovedOnly(s, e, s2, t);
    }
  }

  // The event may happen, goes right, and leaves the thread there.
  predicate Leads(s: State, e: Event, t: int, pc: Pc) {
    && Allowed(s, e) && Apply(s, e).Right?
    && t in Apply(s, e).state.threads && Apply(s, e).state.threads[t] == pc
  }

  // It never hangs: before the wait and behind it the owner can go on; in the wait either some thread has a
  // reference, which it can drop, or a thread is there to wake it.
  lemma EndGoes(s: State, t: int)
    requires Inv(s) && t in s.threads && Ending(s.threads[t])
    ensures s.threads[t].Destroying? ==> Leads(s, Go(t), t, Destroyed)
    ensures s.threads[t].Closing? ==> Leads(s, Go(t), t, if Refs(s.threads) == {t} then Destroying else Waiting)
    ensures s.threads[t].Waiting? && Refs(s.threads) == {} ==> exists u :: Leads(s, Meet(u, t), t, Destroying)
  {
    hide Inv, NoneShared, NoneExclusive;
    if s.threads[t].Waiting? {
      if Refs(s.threads) == {} {
        var u := Waker(s, t);
        assert Leads(s, Meet(u, t), t, Destroying);
      }
    } else {
      ApplyKeeps(s, Go(t));
      if s.threads[t].Closing? {
        LastOne(s, t);
      }
    }
  }

  // These events may happen one after the other, all go right, and behind the last the thread has destroyed the lock.
  predicate Destroys(s: State, events: seq<Event>, t: int)
    decreases |events|
  {
    if events == [] then t in s.threads && s.threads[t].Destroyed?
    else Allowed(s, events[0]) && Apply(s, events[0]).Right? && Destroys(Apply(s, events[0]).state, events[1..], t)
  }

  // Once no other thread has a reference, the end is two steps away at most.
  lemma EndReached(s: State, t: int) returns (events: seq<Event>)
    requires Inv(s) && t in s.threads && Ending(s.threads[t]) && Refs(s.threads) <= {t}
    ensures Destroys(s, events, t) && |events| <= 2
  {
    hide Inv, Apply, Allowed, Refs;
    EndGoes(s, t);
    if s.threads[t].Destroying? {
      events := [Go(t)];
    } else {
      var e := Go(t);
      if s.threads[t].Closing? {
        assert Refs(s.threads) == {t} by { HasOwn(s, t); }
      } else {
        assert Refs(s.threads) == {} by { HasOwn(s, t); }
        var u :| Leads(s, Meet(u, t), t, Destroying);
        e := Meet(u, t);
      }
      ApplyKeeps(s, e);
      var s2 := Apply(s, e).state;
      EndGoes(s2, t);
      events := [e, Go(t)];
      assert Destroys(s2, events[1..], t);
    }
  }

  lemma HasOwn(s: State, t: int)
    requires t in s.threads
    ensures t in Refs(s.threads) <==> HasRef(s.threads[t])
  {
  }

  lemma Waker(s: State, t: int) returns (u: int)
    requires Inv(s) && t in s.threads && s.threads[t].Waiting? && Refs(s.threads) == {}
    ensures u in s.threads && s.threads[u].Signalling?
  {
    hide Owners, LockInv;
    assert |Signallers(s.threads)| == 1;
    u := Member(Signallers(s.threads));
  }

  lemma LastOne(s: State, t: int)
    requires Inv(s) && t in s.threads && s.threads[t].Closing?
    ensures RefBits(Wrap(s.word + DESTROY - 1)) == |Refs(s.threads)| - 1
    ensures Refs(s.threads) == {t} <==> |Refs(s.threads)| == 1
  {
    hide Owners, Signallers, LockInv;
    FewRefs(s.threads);
    assert t in Refs(s.threads);
    if |Refs(s.threads)| == 1 {
      forall u | u in Refs(s.threads) ensures u == t {
        if u != t {
          Fewer({u, t}, Refs(s.threads));
        }
      }
    }
  }

  // A thread that has a reference can always drop it.
  lemma HolderGoes(s: State, t: int)
    requires Inv(s) && t in s.threads && s.threads[t].Using?
    ensures Leads(s, Go(t), t, Idle) || Leads(s, Go(t), t, Signalling)
  {
    hide Inv, NoneShared, NoneExclusive;
    ApplyKeeps(s, Go(t));
  }

  // ---------- The making of a node ----------

  // epoll__create leaves the node in the tree.
  lemma {:induction false} CreateOutcome(states: seq<State>, events: seq<Event>, creator: int, j: nat)
    requires IsRun(states, events, creator) && j < |states|
    requires forall k | 0 <= k < j :: creator in states[k].threads && states[k].threads[creator] in {New, Adding, Added}
    ensures creator in states[j].threads && states[j].threads[creator] in {New, Adding, Added, Idle}
    ensures states[j].inTree <==> states[j].threads[creator] in {Added, Idle}
  {
    hide Inv, Apply, Allowed;
    if j > 0 {
      CreateOutcome(states, events, creator, j - 1);
      assert Step(states[j - 1], events[j - 1], states[j]);
      EveryRun(states, events, creator, j - 1);
      CreateStep(states[j - 1], events[j - 1], states[j], creator);
    }
  }

  lemma CreateStep(s: State, e: Event, s2: State, t: int)
    requires Inv(s) && Step(s, e, s2) && t in s.threads && s.threads[t] in {New, Adding, Added}
    requires s.inTree <==> s.threads[t] == Added
    ensures t in s2.threads && s2.threads[t] in {New, Adding, Added, Idle}
    ensures s2.inTree <==> s2.threads[t] in {Added, Idle}
  {
    hide Refs, Signallers, OwnerInv, NoneShared, NoneExclusive;
    if e.t != t {
      if s.threads[t] == Added || s.threads[t] == Adding {
        WriterAlone(s, t);
      }
      if !s.inTree && e.t in s.threads && Owns(s.threads[e.t]) {
        OnlyOwner(s.threads, t, e.t);
      }
    }
  }
}
