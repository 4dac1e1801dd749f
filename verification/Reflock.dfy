/**
 * The reflock of wepoll.c and the handle tree that guards it, as atomic steps of any number of threads.
 * One node is followed from its making to its end; every thread may look it up, use it and close it.
 */
module Reflock {

  // The bits of reflock_t.state, a 32-bit word.
  const WORD: int := 0x1_0000_0000
  const DESTROY: int := 0x1000_0000
  const POISON: int := 0x300d_ead0

  // InterlockedAdd wraps around.
  function Wrap(word: int): int {
    word % WORD
  }

  // state & REFLOCK__REF_MASK, and state & REFLOCK__DESTROY_MASK shifted down.
  function RefBits(word: int): int {
    word % DESTROY
  }

  function DestroyBits(word: int): int {
    word / DESTROY
  }

  // The arithmetic above is what the masks of the source do.
  lemma Masks(word: bv32)
    ensures (word & 0xf000_0000 == 0) <==> word / 0x1000_0000 == 0
    ensures (word & 0xf000_0000 & !0x1000_0000 == 0) <==> word / 0x1000_0000 <= 1
    ensures (word & 0xf000_0000 == 0x1000_0000) <==> word / 0x1000_0000 == 1
    ensures word & 0x0fff_ffff == word % 0x1000_0000
  {
  }

  // Where a thread is.
  // - Idle: outside the library.
  // - New, Adding, Added: in epoll__create, before, inside and leaving the exclusive section of ts_tree_add.
  // - Looking, Found, Referenced, Missed: in the shared section of ts_tree_find_and_ref.
  // - Using: has a reference. Signalling: reflock_unref reached the last reference after a destroy began.
  // - Removing, Removed, ReferencedToClose, MissedToClose: in the exclusive section of ts_tree_del_and_ref.
  // - Closing: has the node for itself and a reference, before reflock_unref_and_destroy.
  // - Waiting, Destroying: inside it, waiting for the last reference, and before the exchange.
  // - Destroyed: it has returned; port_delete comes next.
  datatype Pc =
    | Idle
    | New | Adding | Added
    | Looking | Found | Referenced | Missed
    | Using | Signalling
    | Removing | Removed | ReferencedToClose | MissedToClose
    | Closing | Waiting | Destroying | Destroyed

  predicate InShared(pc: Pc) {
    pc.Looking? || pc.Found? || pc.Referenced? || pc.Missed?
  }

  predicate InExclusive(pc: Pc) {
    pc.Adding? || pc.Added? || pc.Removing? || pc.Removed? || pc.ReferencedToClose? || pc.MissedToClose?
  }

  predicate HasRef(pc: Pc) {
    pc.Referenced? || pc.Using? || pc.ReferencedToClose? || pc.Closing?
  }

  // The thread has the node for itself: it is not in the tree yet, or no more.
  predicate Owns(pc: Pc) {
    || pc.New? || pc.Adding? || pc.Removed? || pc.ReferencedToClose?
    || pc.Closing? || pc.Waiting? || pc.Destroying? || pc.Destroyed?
  }

  // The thread is about to use the memory of the lock.
  predicate Touches(pc: Pc) {
    || pc.Found? || pc.Referenced? || pc.Using? || pc.Signalling?
    || pc.Removed? || pc.ReferencedToClose? || pc.Closing? || pc.Waiting? || pc.Destroying?
  }

  // `inTree` and `live`: the node is in the tree, its memory is not freed. `waited` and `signals` record
  // whether the destroyer had to wait and how often it was signalled.
  datatype State = State(threads: map<int, Pc>, inTree: bool, live: bool, word: int, waited: bool, signals: nat)

  // A step of one thread, or the meeting of a signal and a wait on the keyed event. Find and Close say
  // what an idle thread begins.
  datatype Event = Find(t: int) | Close(t: int) | Go(t: int) | Meet(t: int, waiter: int)

  predicate NoneExclusive(threads: map<int, Pc>) {
    forall t | t in threads :: !InExclusive(threads[t])
  }

  predicate NoneShared(threads: map<int, Pc>) {
    forall t | t in threads :: !InShared(threads[t])
  }

  // A slim reader/writer lock lets readers in while there is no writer, and a writer while there is nobody.
  // A signal waits for a waiter, and a waiter for a signal.
  predicate Allowed(s: State, e: Event) {
    && e.t in s.threads
    && match e
       case Find(t) => s.threads[t].Idle? && NoneExclusive(s.threads)
       case Close(t) => s.threads[t].Idle? && NoneExclusive(s.threads) && NoneShared(s.threads)
       case Go(t) =>
         var pc := s.threads[t];
         && !pc.Idle? && !pc.Signalling? && !pc.Waiting?
         && (pc.New? ==> NoneExclusive(s.threads) && NoneShared(s.threads))
       case Meet(t, u) => s.threads[t].Signalling? && u in s.threads && s.threads[u].Waiting?
  }

  // Wrong stands for a failing assert and for the use of freed memory.
  datatype Result = Right(state: State) | Wrong

  function Moved(s: State, t: int, pc: Pc): State {
    s.(threads := s.threads[t := pc])
  }

  // reflock_ref
  function Ref(s: State, t: int, pc: Pc): Result {
    var word := Wrap(s.word + 1);
    if s.live && DestroyBits(word) == 0 then Right(Moved(s, t, pc).(word := word)) else Wrong
  }

  // reflock_unref
  function Unref(s: State, t: int): Result {
    var word := Wrap(s.word - 1);
    if s.live && DestroyBits(word) <= 1
      then Right(Moved(s, t, if word == DESTROY then Signalling else Idle).(word := word)) else Wrong
  }

  // reflock_unref_and_destroy up to the wait.
  function BeginDestroy(s: State, t: int): Result {
    var word := Wrap(s.word + DESTROY - 1);
    if s.live && DestroyBits(word) == 1
      then Right(Moved(s, t, if RefBits(word) != 0 then Waiting else Destroying).(word := word, waited := RefBits(word) != 0))
      else Wrong
  }

  // The exchange that ends it.
  function EndDestroy(s: State, t: int): Result {
    if s.live && s.word == DESTROY then Right(Moved(s, t, Destroyed).(word := POISON)) else Wrong
  }

  function Apply(s: State, e: Event): Result
    requires Allowed(s, e)
  {
    match e
    case Find(t) => Right(Moved(s, t, Looking))
    case Close(t) => Right(Moved(s, t, Removing))
    case Meet(t, u) => Right(Moved(Moved(s, t, Idle), u, Destroying).(signals := s.signals + 1))
    case Go(t) =>
      match s.threads[t]
      case New => Right(Moved(s, t, Adding))
      case Adding => Right(Moved(s, t, Added).(inTree := true))
      case Added => Right(Moved(s, t, Idle))
      case Looking => Right(Moved(s, t, if s.inTree then Found else Missed))
      case Found => Ref(s, t, Referenced)
      case Referenced => Right(Moved(s, t, Using))
      case Missed => Right(Moved(s, t, Idle))
      case Using => Unref(s, t)
      case Removing => Right(if s.inTree then Moved(s, t, Removed).(inTree := false) else Moved(s, t, MissedToClose))
      case Removed => Ref(s, t, ReferencedToClose)
      case ReferencedToClose => Right(Moved(s, t, Closing))
      case MissedToClose => Right(Moved(s, t, Idle))
      case Closing => BeginDestroy(s, t)
      case Destroying => EndDestroy(s, t)
      case Destroyed => Right(Moved(s, t, Idle).(live := false))
      case _ => Wrong
  }

  // ---------- The invariant ----------

  function Refs(threads: map<int, Pc>): set<int> {
    set t | t in threads && HasRef(threads[t])
  }

  function Owners(threads: map<int, Pc>): set<int> {
    set t | t in threads && Owns(threads[t])
  }

  function Signallers(threads: map<int, Pc>): set<int> {
    set t | t in threads && threads[t].Signalling?
  }

  // A writer is alone in the lock.
  predicate LockInv(threads: map<int, Pc>) {
    forall t, u | t in threads && u in threads && t != u && InExclusive(threads[t]) ::
      !InExclusive(threads[u]) && !InShared(threads[u])
  }

  // What the word is and who may signal, by where the owner is.
  predicate OwnerInv(pc: Pc, s: State, refs: nat, signallers: nat) {
    match pc
    case New | Adding => refs == 0 && signallers == 0 && s.word == 0 && s.signals == 0 && !s.waited
    case Removed | ReferencedToClose | Closing =>
      signallers == 0 && s.word == refs && s.signals == 0 && !s.waited
    case Waiting =>
      s.word == DESTROY + refs && signallers == (if refs == 0 then 1 else 0) && s.signals == 0 && s.waited
    case Destroying =>
      refs == 0 && signallers == 0 && s.word == DESTROY && s.signals == (if s.waited then 1 else 0)
    case Destroyed => refs == 0 && signallers == 0 && s.word == POISON && s.signals == (if s.waited then 1 else 0)
    case _ => true
  }

  // The node is in the tree, or exactly one thread owns it, or it is freed.
  ghost predicate Inv(s: State) {
    && |s.threads| < DESTROY && LockInv(s.threads)
    && (s.inTree ==> s.live)
    && |Owners(s.threads)| == (if s.live && !s.inTree then 1 else 0)
    && (forall t | t in s.threads && s.threads[t].Found? :: s.inTree)
    && var refs, signallers := |Refs(s.threads)|, |Signallers(s.threads)|;
       && refs <= |s.threads|
       && (s.inTree ==> signallers == 0 && s.word == refs && s.signals == 0 && !s.waited)
       && (!s.live ==> refs == 0 && signallers == 0 && s.signals == (if s.waited then 1 else 0))
       && (forall t | t in s.threads :: OwnerInv(s.threads[t], s, refs, signallers))
  }

  // ---------- Counting threads ----------

  function One(b: bool): int {
    if b then 1 else 0
  }

  lemma MoveRefs(threads: map<int, Pc>, t: int, pc: Pc)
    requires t in threads
    ensures |Refs(threads[t := pc])| == |Refs(threads)| - One(HasRef(threads[t])) + One(HasRef(pc))
    ensures HasRef(threads[t]) ==> |Refs(threads)| > 0
  {
    assert Refs(threads[t := pc]) == Refs(threads) - {t} + (if HasRef(pc) then {t} else {});
  }

  lemma MoveOwners(threads: map<int, Pc>, t: int, pc: Pc)
    requires t in threads
    ensures |Owners(threads[t := pc])| == |Owners(threads)| - One(Owns(threads[t])) + One(Owns(pc))
    ensures Owns(threads[t]) ==> |Owners(threads)| > 0
  {
    assert Owners(threads[t := pc]) == Owners(threads) - {t} + (if Owns(pc) then {t} else {});
  }

  lemma MoveSignallers(threads: map<int, Pc>, t: int, pc: Pc)
    requires t in threads
    ensures |Signallers(threads[t := pc])| == |Signallers(threads)| - One(threads[t].Signalling?) + One(pc.Signalling?)
    ensures threads[t].Signalling? ==> |Signallers(threads)| > 0
  {
    assert Signallers(threads[t := pc]) == Signallers(threads) - {t} + (if pc.Signalling? then {t} else {});
  }

  lemma FewRefs(threads: map<int, Pc>)
    ensures |Refs(threads)| <= |threads|
  {
    Fewer(Refs(threads), threads.Keys);
  }

  lemma {:induction false} Fewer<T>(a: set<T>, b: set<T>)
    requires a <= b
    ensures |a| <= |b|
  {
    if a != {} {
      var x :| x in a;
      Fewer(a - {x}, b - {x});
    }
  }

  lemma OnlyOwner(threads: map<int, Pc>, t: int, u: int)
    requires |Owners(threads)| <= 1 && t in threads && u in threads && Owns(threads[t]) && Owns(threads[u])
    ensures t == u
  {
    if t != u {
      Fewer({t, u}, Owners(threads));
    }
  }

  lemma SomeOwner(threads: map<int, Pc>) returns (t: int)
    requires |Owners(threads)| == 1
    ensures t in threads && Owns(threads[t])
  {
    t := Member(Owners(threads));
  }

  lemma Member(a: set<int>) returns (x: int)
    requires |a| > 0
    ensures x in a
  {
    assert (forall y :: y !in a) ==> a == {};
    x :| x in a;
  }

  // All three counts after one thread moved.
  lemma Counts(threads: map<int, Pc>, t: int, pc: Pc)
    requires t in threads
    ensures var m := threads[t := pc];
      && |m| == |threads| && |Refs(m)| <= |m|
      && |Refs(m)| == |Refs(threads)| - One(HasRef(threads[t])) + One(HasRef(pc))
      && |Owners(m)| == |Owners(threads)| - One(Owns(threads[t])) + One(Owns(pc))
      && |Signallers(m)| == |Signallers(threads)| - One(threads[t].Signalling?) + One(pc.Signalling?)
    ensures HasRef(threads[t]) ==> |Refs(threads)| > 0
    ensures threads[t].Signalling? ==> |Signallers(threads)| > 0
    ensures Owns(threads[t]) ==> |Owners(threads)| > 0
  {
    hide Refs, Owners, Signallers;
    MoveRefs(threads, t, pc);
    MoveOwners(threads, t, pc);
    MoveSignallers(threads, t, pc);
    FewRefs(threads[t := pc]);
    assert threads[t := pc].Keys == threads.Keys;
    SameSize(threads, threads[t := pc]);
  }

  lemma SameSize(m: map<int, Pc>, m2: map<int, Pc>)
    requires m.Keys == m2.Keys
    ensures |m| == |m2|
  {
    assert |m.Keys| == |m| && |m2.Keys| == |m2|;
  }

  // ---------- Every step keeps the invariant ----------

  // What a move must respect for the lock.
  predicate LockAllows(threads: map<int, Pc>, t: int, pc: Pc)
    requires t in threads
  {
    && (InShared(pc) ==> InShared(threads[t]) || NoneExclusive(threads))
    && (InExclusive(pc) ==> InExclusive(threads[t]) || (NoneExclusive(threads) && NoneShared(threads)))
  }

  lemma LockKept(threads: map<int, Pc>, t: int, pc: Pc)
    requires t in threads && LockInv(threads) && LockAllows(threads, t, pc)
    ensures LockInv(threads[t := pc])
  {
  }

  // A move that takes and drops nothing.
  predicate Plain(from: Pc, to: Pc) {
    HasRef(from) == HasRef(to) && Owns(from) == Owns(to) && !from.Signalling? && !to.Signalling?
  }

  lemma PlainKeeps(s: State, t: int, pc: Pc)
    requires Inv(s) && t in s.threads && LockAllows(s.threads, t, pc) && Plain(s.threads[t], pc)
    requires pc.Found? ==> s.inTree
    requires OwnerInv(pc, s, |Refs(s.threads)|, |Signallers(s.threads)|)
    ensures Inv(Moved(s, t, pc))
  {
    hide Refs, Owners, Signallers, LockInv, LockAllows;
    Counts(s.threads, t, pc);
    LockKept(s.threads, t, pc);
  }

  // The owner's step: no other thread owns the node, so only the new place of the owner must be in order.
  lemma OwnerMoves(s: State, t: int, pc: Pc, s2: State)
    requires Inv(s) && t in s.threads && Owns(s.threads[t]) && Owns(pc) && LockAllows(s.threads, t, pc)
    requires s2.threads == s.threads[t := pc] && !s2.inTree && s2.live
    requires OwnerInv(pc, s2, |Refs(s2.threads)|, |Signallers(s2.threads)|)
    ensures Inv(s2)
  {
    hide Refs, Signallers, Owners, LockInv, LockAllows;
    Counts(s.threads, t, pc);
    LockKept(s.threads, t, pc);
    forall u | u in s2.threads ensures OwnerInv(s2.threads[u], s2, |Refs(s2.threads)|, |Signallers(s2.threads)|) {
      if u != t && Owns(s.threads[u]) {
        OnlyOwner(s.threads, t, u);
      }
    }
  }

  // A step that leaves the node to the tree, or takes it from there, or ends it.
  lemma PlaceMoves(s: State, t: int, pc: Pc, s2: State)
    requires Inv(s) && t in s.threads && LockAllows(s.threads, t, pc) && (Owns(s.threads[t]) || !(s.live && !s.inTree))
    requires s2.threads == s.threads[t := pc] && (s2.inTree ==> s2.live) && !pc.Found?
    requires forall u | u in s.threads && u != t && s.threads[u].Found? :: s2.inTree
    requires Owns(pc) <==> s2.live && !s2.inTree
    requires var refs, signallers := |Refs(s2.threads)|, |Signallers(s2.threads)|;
      && OwnerInv(pc, s2, refs, signallers)
      && (s2.inTree ==> signallers == 0 && s2.word == refs && s2.signals == 0 && !s2.waited)
      && (!s2.live ==> refs == 0 && signallers == 0 && s2.signals == (if s2.waited then 1 else 0))
    ensures Inv(s2)
  {
    hide Refs, Signallers, Owners, LockInv, LockAllows;
    Counts(s.threads, t, pc);
    LockKept(s.threads, t, pc);
    forall u | u in s2.threads ensures OwnerInv(s2.threads[u], s2, |Refs(s2.threads)|, |Signallers(s2.threads)|) {
      if u != t && Owns(s.threads[u]) {
        assert Owners(s.threads) != {} by {
          MoveOwners(s.threads, u, Idle);
        }
        OnlyOwner(s.threads, t, u);
      }
    }
  }

  // reflock_ref under the shared lock.
  lemma FindRefs(s: State, t: int)
    requires Inv(s) && t in s.threads && s.threads[t].Found?
    ensures Ref(s, t, Referenced).Right? && Inv(Ref(s, t, Referenced).state)
  {
    hide Refs, Signallers, Owners, LockInv;
    Counts(s.threads, t, Referenced);
    LockKept(s.threads, t, Referenced);
    NobodyOwns(s);
  }

  lemma NobodyOwns(s: State)
    requires Inv(s) && s.inTree
    ensures forall u | u in s.threads :: !Owns(s.threads[u])
  {
    forall u | u in s.threads ensures !Owns(s.threads[u]) {
      MoveOwners(s.threads, u, Idle);
    }
  }

  lemma CloseRefs(s: State, t: int)
    requires Inv(s) && t in s.threads && s.threads[t].Removed?
    ensures Ref(s, t, ReferencedToClose).Right? && Inv(Ref(s, t, ReferencedToClose).state)
  {
    hide Refs, Signallers, Owners, LockInv;
    Counts(s.threads, t, ReferencedToClose);
    OwnedOut(s, t);
    OwnerMoves(s, t, ReferencedToClose, Moved(s, t, ReferencedToClose).(word := s.word + 1));
  }

  lemma OwnedOut(s: State, t: int)
    requires Inv(s) && t in s.threads && Owns(s.threads[t])
    ensures s.live && !s.inTree && forall u | u in s.threads :: !s.threads[u].Found?
  {
    MoveOwners(s.threads, t, Idle);
  }

  lemma BeginKeeps(s: State, t: int)
    requires Inv(s) && t in s.threads && s.threads[t].Closing?
    ensures BeginDestroy(s, t).Right? && Inv(BeginDestroy(s, t).state)
  {
    hide Refs, Signallers, Owners, LockInv;
    OwnedOut(s, t);
    var pc := if |Refs(s.threads)| > 1 then Waiting else Destroying;
    Counts(s.threads, t, pc);
    FewRefs(s.threads);
    OwnerMoves(s, t, pc, Moved(s, t, pc).(word := DESTROY + s.word - 1, waited := |Refs(s.threads)| > 1));
  }

  lemma EndKeeps(s: State, t: int)
    requires Inv(s) && t in s.threads && s.threads[t].Destroying?
    ensures EndDestroy(s, t).Right? && Inv(EndDestroy(s, t).state)
  {
    hide Refs, Signallers, Owners, LockInv;
    OwnedOut(s, t);
    Counts(s.threads, t, Destroyed);
    OwnerMoves(s, t, Destroyed, Moved(s, t, Destroyed).(word := POISON));
  }

  // port_delete frees the memory.
  lemma FreeKeeps(s: State, t: int)
    requires Inv(s) && t in s.threads && s.threads[t].Destroyed?
    ensures Inv(Moved(s, t, Idle).(live := false))
  {
    hide Refs, Signallers, Owners, LockInv;
    OwnedOut(s, t);
    Counts(s.threads, t, Idle);
    PlaceMoves(s, t, Idle, Moved(s, t, Idle).(live := false));
  }

  lemma AddKeeps(s: State, t: int)
    requires Inv(s) && t in s.threads && s.threads[t].Adding?
    ensures Inv(Moved(s, t, Added).(inTree := true))
  {
    hide Refs, Signallers, Owners, LockInv;
    OwnedOut(s, t);
    Counts(s.threads, t, Added);
    PlaceMoves(s, t, Added, Moved(s, t, Added).(inTree := true));
  }

  lemma WriterAlone(s: State, t: int)
    requires LockInv(s.threads) && t in s.threads && InExclusive(s.threads[t])
    ensures forall u | u in s.threads && u != t :: !InShared(s.threads[u]) && !InExclusive(s.threads[u])
  {
  }

  lemma RemoveKeeps(s: State, t: int)
    requires Inv(s) && t in s.threads && s.threads[t].Removing? && s.inTree
    ensures Inv(Moved(s, t, Removed).(inTree := false))
  {
    hide Refs, Signallers, Owners, LockInv;
    WriterAlone(s, t);
    Counts(s.threads, t, Removed);
    PlaceMoves(s, t, Removed, Moved(s, t, Removed).(inTree := false));
  }

  // Where the node is while some thread has a reference.
  lemma HeldWhere(s: State, t: int) returns (owner: int)
    requires Inv(s) && t in s.threads && HasRef(s.threads[t])
    ensures s.live && |Refs(s.threads)| > 0
    ensures !s.inTree ==> owner in s.threads && Owns(s.threads[owner])
    ensures !s.inTree && !s.threads[owner].Waiting? ==> |Signallers(s.threads)| == 0 && s.word == |Refs(s.threads)|
    ensures !s.inTree && s.threads[owner].Waiting? ==> |Signallers(s.threads)| == 0 && s.word == DESTROY + |Refs(s.threads)|
  {
    MoveRefs(s.threads, t, Idle);
    owner := t;
    if !s.inTree {
      owner := SomeOwner(s.threads);
    }
  }

  // The last reference is dropped while the destroyer waits exactly when this thread must signal.
  lemma UnrefKeeps(s: State, t: int)
    requires Inv(s) && t in s.threads && s.threads[t].Using?
    ensures Unref(s, t).Right? && Inv(Unref(s, t).state)
  {
    hide Refs, Signallers, Owners, LockInv;
    var owner := HeldWhere(s, t);
    var pc := if !s.inTree && s.threads[owner].Waiting? && |Refs(s.threads)| == 1 then Signalling else Idle;
    FewRefs(s.threads);
    Counts(s.threads, t, pc);
    LockKept(s.threads, t, pc);
    assert Unref(s, t) == Right(Moved(s, t, pc).(word := s.word - 1));
    if s.inTree {
      NobodyOwns(s);
    } else {
      forall u | u in s.threads && Owns(s.threads[u]) ensures u == owner {
        OnlyOwner(s.threads, u, owner);
      }
    }
  }

  lemma WaiterOwns(s: State, u: int)
    requires Inv(s) && u in s.threads && s.threads[u].Waiting?
    ensures s.live && !s.inTree && forall x | x in s.threads && Owns(s.threads[x]) :: x == u
  {
    OwnedOut(s, u);
    forall x | x in s.threads && Owns(s.threads[x]) ensures x == u {
      OnlyOwner(s.threads, x, u);
    }
  }

  lemma MeetKeeps(s: State, t: int, u: int)
    requires Inv(s) && Allowed(s, Meet(t, u))
    ensures Inv(Apply(s, Meet(t, u)).state)
  {
    hide Refs, Signallers, Owners, LockInv;
    var m := s.threads[t := Idle];
    WaiterOwns(s, u);
    Counts(s.threads, t, Idle);
    Counts(m, u, Destroying);
    LockKept(s.threads, t, Idle);
    LockKept(m, u, Destroying);
  }

  lemma GoKeeps(s: State, t: int)
    requires Inv(s) && Allowed(s, Go(t))
    ensures Apply(s, Go(t)).Right? && Inv(Apply(s, Go(t)).state)
  {
    hide Refs, Signallers, Owners, LockInv, Inv, OwnerInv, NoneShared, NoneExclusive, Ref, Unref, BeginDestroy, EndDestroy;
    match s.threads[t]
    case New => MovesOn(s, t, Adding);
    case Adding => AddKeeps(s, t);
    case Added => MovesOn(s, t, Idle);
    case Looking => MovesOn(s, t, if s.inTree then Found else Missed);
    case Found => FindRefs(s, t);
    case Referenced => MovesOn(s, t, Using);
    case Missed => MovesOn(s, t, Idle);
    case Using => UnrefKeeps(s, t);
    case Removing => if s.inTree { RemoveKeeps(s, t); } else { MovesOn(s, t, MissedToClose); }
    case Removed => CloseRefs(s, t);
    case ReferencedToClose => MovesOn(s, t, Closing);
    case MissedToClose => MovesOn(s, t, Idle);
    case Closing => BeginKeeps(s, t);
    case Destroying => EndKeeps(s, t);
    case Destroyed => FreeKeeps(s, t);
    case _ => assert false;
  }

  // The steps that only move a thread on.
  lemma MovesOn(s: State, t: int, pc: Pc)
    requires Inv(s) && t in s.threads && LockAllows(s.threads, t, pc) && Plain(s.threads[t], pc)
    requires pc.Found? ==> s.inTree
    requires Owns(pc) ==> (pc.Adding? && s.threads[t].New?) || (pc.Closing? && s.threads[t].ReferencedToClose?)
    ensures Inv(Moved(s, t, pc))
  {
    hide Refs, Owners, Signallers, LockInv, LockAllows;
    PlainKeeps(s, t, pc);
  }

  // No step fails an assert or uses freed memory, and every step keeps the invariant.
  lemma ApplyKeeps(s: State, e: Event)
    requires Inv(s) && Allowed(s, e)
    ensures Apply(s, e).Right? && Inv(Apply(s, e).state)
  {
    hide Refs, Signallers, Owners, LockInv, Inv, OwnerInv, NoneShared, NoneExclusive;
    match e
    case Find(t) => MovesOn(s, t, Looking);
    case Close(t) => MovesOn(s, t, Removing);
    case Go(t) => GoKeeps(s, t);
    case Meet(t, u) => MeetKeeps(s, t, u);
  }

  // ---------- Every run ----------

  // One thread is in epoll__create with the new node; the others are outside the library.
  ghost predicate Initial(s: State, creator: int) {
    && creator in s.threads && |s.threads| < DESTROY
    && (forall t | t in s.threads :: s.threads[t] == if t == creator then New else Idle)
    && s == State(s.threads, false, true, 0, false, 0)
  }

  lemma InitialInv(s: State, creator: int)
    requires Initial(s, creator)
    ensures Inv(s)
  {
    forall t | t in s.threads ensures !HasRef(s.threads[t]) && !s.threads[t].Signalling? && (Owns(s.threads[t]) <==> t == creator) {
    }
    assert Owners(s.threads) == {creator};
    assert Refs(s.threads) == {} && Signallers(s.threads) == {};
  }

  ghost predicate Step(s: State, e: Event, s2: State) {
    Allowed(s, e) && Apply(s, e) == Right(s2)
  }

  ghost predicate IsRun(states: seq<State>, events: seq<Event>, creator: int) {
    && |states| == |events| + 1 && Initial(states[0], creator)
    && forall i | 0 <= i < |events| :: Step(states[i], events[i], states[i + 1])
  }

  lemma {:induction false} EveryRun(states: seq<State>, events: seq<Event>, creator: int, i: nat)
    requires IsRun(states, events, creator) && i < |states|
    ensures Inv(states[i])
  {
    hide Inv, Apply, Initial;
    if i > 0 {
      EveryRun(states, events, creator, i - 1);
      assert Step(states[i - 1], events[i - 1], states[i]);
      ApplyKeeps(states[i - 1], events[i - 1]);
    } else {
      InitialInv(states[0], creator);
    }
  }

  // However the threads interleave: no assert of the reflock fails and no thread uses freed memory.
  lemma NeverWrong(states: seq<State>, events: seq<Event>, creator: int, e: Event)
    requires IsRun(states, events, creator) && Allowed(states[|events|], e)
    ensures Apply(states[|events|], e).Right?
  {
    EveryRun(states, events, creator, |events|);
    ApplyKeeps(states[|events|], e);
  }

  // reflock_unref_and_destroy has returned.
  ghost predicate Over(s: State) {
    !s.live || exists t | t in s.threads :: s.threads[t].Destroyed?
  }

  // Once it has returned nobody holds a reference or is about to use the lock, and the node is in no tree.
  lemma OverQuiet(s: State, u: int)
    requires Inv(s) && Over(s) && u in s.threads
    ensures !s.inTree && !Touches(s.threads[u]) && !HasRef(s.threads[u]) && s.signals == (if s.waited then 1 else 0)
  {
    hide Refs, Signallers, Owners, LockInv;
    MoveRefs(s.threads, u, Idle);
    MoveSignallers(s.threads, u, Idle);
    if s.live {
      var t :| t in s.threads && s.threads[t].Destroyed?;
      OwnedOut(s, t);
      if Owns(s.threads[u]) {
        OnlyOwner(s.threads, t, u);
      }
    } else if Owns(s.threads[u]) {
      MoveOwners(s.threads, u, Idle);
    }
  }

  lemma OverStays(s: State, e: Event, s2: State)
    requires Inv(s) && Over(s) && Step(s, e, s2)
    ensures Over(s2)
  {
    hide Refs, Signallers, Owners, LockInv, Inv, NoneShared, NoneExclusive;
    OverQuiet(s, e.t);
    if s.live && e != Go(e.t) {
      var t :| t in s.threads && s.threads[t].Destroyed?;
      assert t in s2.threads && s2.threads[t].Destroyed?;
    } else if s.live && !s.threads[e.t].Destroyed? {
      var t :| t in s.threads && s.threads[t].Destroyed?;
      assert t in s2.threads && s2.threads[t].Destroyed?;
    }
  }

  // From then on, however the run goes on, no reference is taken and the memory is left alone.
  lemma {:induction false} NeverAgain(states: seq<State>, events: seq<Event>, creator: int, i: nat, j: nat, u: int)
    requires IsRun(states, events, creator) && i <= j < |states| && Over(states[i])
    requires u in states[j].threads
    ensures Over(states[j]) && !states[j].inTree && !Touches(states[j].threads[u]) && !HasRef(states[j].threads[u])
  {
    hide Inv, Apply, Over, Initial, Touches, HasRef;
    OverOn(states, events, creator, i, j);
    EveryRun(states, events, creator, j);
    OverQuiet(states[j], u);
  }

  lemma {:induction false} OverOn(states: seq<State>, events: seq<Event>, creator: int, i: nat, j: nat)
    requires IsRun(states, events, creator) && i <= j < |states| && Over(states[i])
    ensures Over(states[j])
    decreases j
  {
    hide Inv, Apply, Over, Initial;
    if i < j {
      OverOn(states, events, creator, i, j - 1);
      EveryRun(states, events, creator, j - 1);
      assert Step(states[j - 1], events[j - 1], states[j]);
      OverStays(states[j - 1], events[j - 1], states[j]);
    }
  }

  // A destroyer that waits is not forgotten: someone holds a reference, or is about to signal it.
  lemma WaiterHasWaker(states: seq<State>, events: seq<Event>, creator: int, i: nat, u: int)
    requires IsRun(states, events, creator) && i < |states|
    requires u in states[i].threads && states[i].threads[u].Waiting?
    ensures exists t | t in states[i].threads :: HasRef(states[i].threads[t]) || states[i].threads[t].Signalling?
  {
    hide Apply, Initial, LockInv;
    EveryRun(states, events, creator, i);
    var threads := states[i].threads;
    var t := Member(Refs(threads) + Signallers(threads));
    assert HasRef(threads[t]) || threads[t].Signalling?;
  }

  // A signal never finds nobody waiting, and never comes twice: a destroyer that waited was signalled
  // exactly once when it returns, one that did not wait never was.
  lemma SignalledOnce(states: seq<State>, events: seq<Event>, creator: int, i: nat, t: int)
    requires IsRun(states, events, creator) && i < |states| && t in states[i].threads
    ensures states[i].threads[t].Signalling? ==> exists u | u in states[i].threads :: states[i].threads[u].Waiting?
    ensures states[i].threads[t].Destroyed? ==> states[i].signals == (if states[i].waited then 1 else 0)
  {
    hide Apply, Initial, LockInv, Refs, Owners, Signallers;
    EveryRun(states, events, creator, i);
    var threads := states[i].threads;
    if threads[t].Signalling? {
      MoveSignallers(threads, t, Idle);
      var owner := SomeOwner(threads);
      assert OwnerInv(threads[owner], states[i], |Refs(threads)|, |Signallers(threads)|);
      assert threads[owner].Waiting?;
    }
  }
}
