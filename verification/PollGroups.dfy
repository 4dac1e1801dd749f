/** The allocator of poll-group slots in wepoll.c: at most 32 sockets share one AFD device handle. */
module PollGroups {
  import opened QueueContents

  // poll_group_t; the device handle and the back pointer to the port play no part in the allocation.
  class PollGroup {
    var groupSize: nat

    // poll_group__new clears the new group.
    constructor ()
      ensures groupSize == 0
    {
      groupSize := 0;
    }
  }

  const MAX_GROUP_SIZE: nat := 32

  // ---------- Acquire and release ----------

  // The queue of groups, the size of each, and the most slots ever held at once.
  datatype Groups = Groups(queue: seq<PollGroup>, sizes: map<PollGroup, nat>, peak: nat) {
    function Held(): nat
      requires Known(queue, sizes)
    {
      Total(queue, sizes)
    }
  }

  predicate Known(q: seq<PollGroup>, sizes: map<PollGroup, nat>) {
    forall g | g in q :: g in sizes
  }

  function Total(q: seq<PollGroup>, sizes: map<PollGroup, nat>): nat
    requires Known(q, sizes)
  {
    if q == [] then 0 else sizes[q[0]] + Total(q[1..], sizes)
  }

  // The last group if it has room, else none: then a new group is needed.
  predicate HasRoom(s: Groups)
    requires Known(s.queue, s.sizes)
  {
    s.queue != [] && s.sizes[s.queue[|s.queue| - 1]] < MAX_GROUP_SIZE
  }

  // The group poll_group_acquire picks, given the group a successful allocation would return.
  function Pick(s: Groups, made: PollGroup): PollGroup
    requires Known(s.queue, s.sizes)
  {
    if HasRoom(s) then s.queue[|s.queue| - 1] else made
  }

  // What poll_group__new may return, should a group be needed: a new object.
  predicate CanMake(s: Groups, made: PollGroup)
    requires Known(s.queue, s.sizes)
  {
    HasRoom(s) || made !in s.sizes
  }

  // The new group is appended, empty, if one is needed.
  function Grown(s: Groups, made: PollGroup): Groups
    requires Known(s.queue, s.sizes)
  {
    if HasRoom(s) then s else s.(queue := s.queue + [made], sizes := s.sizes[made := 0])
  }

  // poll_group_acquire when a needed allocation succeeds; on failure it changes nothing.
  function Acquire(s: Groups, made: PollGroup): Groups
    requires Known(s.queue, s.sizes)
  {
    var g, t := Pick(s, made), Grown(s, made);
    var size := t.sizes[g] + 1;
    var queue := if size == MAX_GROUP_SIZE then ToStart(t.queue, g) else t.queue;
    var held := Total(s.queue, s.sizes) + 1;
    Groups(queue, t.sizes[g := size], if held > s.peak then held else s.peak)
  }

  // poll_group_release
  function Release(s: Groups, g: PollGroup): Groups
    requires g in s.sizes && s.sizes[g] > 0
  {
    s.(queue := ToEnd(s.queue, g), sizes := s.sizes[g := s.sizes[g] - 1])
  }

  // ---------- What every run keeps ----------

  predicate NoneFull(q: seq<PollGroup>, sizes: map<PollGroup, nat>)
    requires Known(q, sizes)
  {
    forall g | g in q :: sizes[g] < MAX_GROUP_SIZE
  }

  // Full groups, then groups with room.
  predicate FullFirst(q: seq<PollGroup>, sizes: map<PollGroup, nat>)
    requires Known(q, sizes)
  {
    NoneFull(q, sizes) || (q != [] && sizes[q[0]] == MAX_GROUP_SIZE && FullFirst(q[1..], sizes))
  }

  predicate SameGroups(q: seq<PollGroup>, sizes: map<PollGroup, nat>) {
    Known(q, sizes) && forall g | g in sizes :: g in q
  }

  ghost predicate GroupsInv(s: Groups) {
    && NoDuplicates(s.queue) && SameGroups(s.queue, s.sizes)
    && (forall g | g in s.sizes :: s.sizes[g] <= MAX_GROUP_SIZE)
    && FullFirst(s.queue, s.sizes)
    // just as many groups were made as the peak needs
    && s.Held() <= s.peak
    && |s.queue| == (s.peak + MAX_GROUP_SIZE - 1) / MAX_GROUP_SIZE
  }

  lemma {:induction false} FullFirstOther(q: seq<PollGroup>, sizes: map<PollGroup, nat>, sizes2: map<PollGroup, nat>)
    requires Known(q, sizes) && Known(q, sizes2) && FullFirst(q, sizes)
    requires forall g | g in q :: sizes2[g] == sizes[g]
    ensures FullFirst(q, sizes2)
  {
    if q != [] && !NoneFull(q, sizes) {
      FullFirstOther(q[1..], sizes, sizes2);
    }
  }

  lemma {:induction false} FullFirstWithout(q: seq<PollGroup>, sizes: map<PollGroup, nat>, g: PollGroup)
    requires Known(q, sizes) && FullFirst(q, sizes)
    ensures Known(Without(q, g), sizes) && FullFirst(Without(q, g), sizes)
  {
    if q != [] && !NoneFull(q, sizes) && q[0] != g {
      FullFirstWithout(q[1..], sizes, g);
      var r := Without(q, g);
      assert r[1..] == Without(q[1..], g);
    }
  }

  lemma {:induction false} FullFirstAppend(q: seq<PollGroup>, sizes: map<PollGroup, nat>, g: PollGroup)
    requires Known(q, sizes) && FullFirst(q, sizes) && g in sizes && sizes[g] < MAX_GROUP_SIZE
    ensures Known(q + [g], sizes) && FullFirst(q + [g], sizes)
  {
    if !NoneFull(q, sizes) {
      FullFirstAppend(q[1..], sizes, g);
      assert (q + [g])[1..] == q[1..] + [g];
    }
  }

  lemma {:induction false} LastFull(q: seq<PollGroup>, sizes: map<PollGroup, nat>)
    requires Known(q, sizes) && FullFirst(q, sizes) && q != [] && sizes[q[|q| - 1]] == MAX_GROUP_SIZE
    ensures forall g | g in q :: sizes[g] == MAX_GROUP_SIZE
  {
    assert q[|q| - 1] in q;
    if |q| > 1 {
      LastFull(q[1..], sizes);
    }
  }

  lemma {:induction false} TotalConcat(a: seq<PollGroup>, b: seq<PollGroup>, sizes: map<PollGroup, nat>)
    requires Known(a + b, sizes)
    ensures Known(a, sizes) && Known(b, sizes)
    ensures Total(a + b, sizes) == Total(a, sizes) + Total(b, sizes)
  {
    assert forall g | g in a :: g in a + b;
    assert forall g | g in b :: g in a + b;
    if a == [] {
      assert a + b == b;
    } else {
      assert (a + b)[1..] == a[1..] + b;
      TotalConcat(a[1..], b, sizes);
    }
  }

  lemma {:induction false} TotalWithout(q: seq<PollGroup>, sizes: map<PollGroup, nat>, g: PollGroup)
    requires Known(q, sizes) && g in q
    ensures Known(Without(q, g), sizes)
    ensures Total(q, sizes) == Total(Without(q, g), sizes) + sizes[g]
  {
    if q[0] != g {
      TotalWithout(q[1..], sizes, g);
      var r := Without(q, g);
      assert r[1..] == Without(q[1..], g);
    }
  }

  lemma {:induction false} TotalChanged(q: seq<PollGroup>, sizes: map<PollGroup, nat>, g: PollGroup, n: nat)
    requires Known(q, sizes) && NoDuplicates(q)
    ensures Known(q, sizes[g := n])
    ensures Total(q, sizes[g := n]) == if g in q then Total(q, sizes) - sizes[g] + n else Total(q, sizes)
  {
    if q != [] {
      TotalChanged(q[1..], sizes, g, n);
      assert q == [q[0]] + q[1..] && q[0] !in q[1..];
    }
  }

  lemma {:induction false} TotalFull(q: seq<PollGroup>, sizes: map<PollGroup, nat>)
    requires Known(q, sizes) && forall g | g in q :: sizes[g] == MAX_GROUP_SIZE
    ensures Total(q, sizes) == MAX_GROUP_SIZE * |q|
  {
    if q != [] {
      TotalFull(q[1..], sizes);
    }
  }

  lemma {:induction false} TotalBounded(q: seq<PollGroup>, sizes: map<PollGroup, nat>)
    requires Known(q, sizes) && forall g | g in q :: sizes[g] <= MAX_GROUP_SIZE
    ensures Total(q, sizes) <= MAX_GROUP_SIZE * |q|
  {
    if q != [] {
      TotalBounded(q[1..], sizes);
    }
  }

  lemma {:induction false} WithoutLast(q: seq<PollGroup>)
    requires q != [] && NoDuplicates(q)
    ensures Without(q, q[|q| - 1]) == q[..|q| - 1]
  {
    if |q| > 1 {
      WithoutLast(q[1..]);
      assert q[1..][|q[1..]| - 1] == q[|q| - 1];
      assert [q[0]] + q[1..][..|q| - 2] == q[..|q| - 1];
    }
  }

  lemma RoundUp(peak: nat, n: nat)
    ensures n == (peak + MAX_GROUP_SIZE - 1) / MAX_GROUP_SIZE <==>
            MAX_GROUP_SIZE * n < peak + MAX_GROUP_SIZE && peak <= MAX_GROUP_SIZE * n
  {
  }

  // No room anywhere: every slot of every group is held.
  lemma NoRoom(s: Groups)
    requires GroupsInv(s) && !HasRoom(s)
    ensures forall g | g in s.queue :: s.sizes[g] == MAX_GROUP_SIZE
    ensures s.Held() == MAX_GROUP_SIZE * |s.queue| == s.peak
  {
    RoundUp(s.peak, |s.queue|);
    if s.queue != [] {
      LastFull(s.queue, s.sizes);
    }
    TotalFull(s.queue, s.sizes);
  }

  // The queue before the group that is picked, once a group has been made if one was needed.
  function Front(s: Groups): seq<PollGroup>
    requires Known(s.queue, s.sizes)
  {
    if HasRoom(s) then s.queue[..|s.queue| - 1] else s.queue
  }

  lemma GrownShape(s: Groups, made: PollGroup)
    requires GroupsInv(s) && CanMake(s, made)
    ensures var t, g, front := Grown(s, made), Pick(s, made), Front(s);
      && t.queue == front + [g] && NoDuplicates(t.queue) && SameGroups(t.queue, t.sizes)
      && FullFirst(front, t.sizes) && t.sizes[g] < MAX_GROUP_SIZE
      && Total(t.queue, t.sizes) == s.Held()
  {
    var t, g, front, q := Grown(s, made), Pick(s, made), Front(s), s.queue;
    if HasRoom(s) {
      assert q == q[..|q| - 1] + [q[|q| - 1]];
      WithoutLast(q);
      FullFirstWithout(q, s.sizes, g);
    } else {
      assert made !in q;
      FullFirstOther(q, s.sizes, t.sizes);
      TotalChanged(q, s.sizes, made, 0);
      TotalConcat(q, [made], t.sizes);
      assert Total([made], t.sizes) == 0;
    }
  }

  // Room for one more: the number of groups is what the new peak needs.
  lemma GrownCount(s: Groups, made: PollGroup)
    requires GroupsInv(s) && CanMake(s, made)
    ensures var n, held := |Front(s)| + 1, s.Held() + 1;
      n == ((if held > s.peak then held else s.peak) + MAX_GROUP_SIZE - 1) / MAX_GROUP_SIZE
  {
    hide FullFirst, NoDuplicates;
    RoundUp(s.peak, |s.queue|);
    RoundUp(if s.Held() + 1 > s.peak then s.Held() + 1 else s.peak, |Front(s)| + 1);
    if HasRoom(s) {
      var q := s.queue;
      assert q == q[..|q| - 1] + [q[|q| - 1]];
      TotalConcat(q[..|q| - 1], [q[|q| - 1]], s.sizes);
      TotalBounded(q[..|q| - 1], s.sizes);
    } else {
      NoRoom(s);
    }
  }

  // One slot of the last group is taken, and the group moves to the start if that fills it.
  lemma SlotTaken(front: seq<PollGroup>, g: PollGroup, sizes: map<PollGroup, nat>)
    requires NoDuplicates(front + [g]) && SameGroups(front + [g], sizes)
    requires FullFirst(front, sizes) && sizes[g] < MAX_GROUP_SIZE
    ensures var sizes2 := sizes[g := sizes[g] + 1];
      var q := if sizes2[g] == MAX_GROUP_SIZE then ToStart(front + [g], g) else front + [g];
      && NoDuplicates(q) && |q| == |front| + 1
      && SameGroups(q, sizes2) && FullFirst(q, sizes2) && Total(q, sizes2) == Total(front + [g], sizes) + 1
  {
    hide FullFirst, Total, NoDuplicates, SameGroups, Without;
    var q0 := front + [g];
    TurnedParts(front, g);
    assert Known(q0, sizes) by { SameGroupsKnown(q0, sizes); }
    var sizes2 := sizes[g := sizes[g] + 1];
    TotalChanged(q0, sizes, g, sizes[g] + 1);
    FullFirstOther(front, sizes, sizes2);
    SameGroupsTurned(front, g, sizes);
    if sizes2[g] == MAX_GROUP_SIZE {
      TotalConcat(front, [g], sizes2);
      TotalConcat([g], front, sizes2);
      FullFirstPrepend(front, sizes2, g);
    } else {
      FullFirstAppend(front, sizes2, g);
    }
  }

  lemma TurnedParts(front: seq<PollGroup>, g: PollGroup)
    requires NoDuplicates(front + [g])
    ensures g !in front && ToStart(front + [g], g) == [g] + front && NoDuplicates([g] + front)
    ensures forall x | x in front :: x in front + [g]
  {
    var q := front + [g];
    WithoutLast(q);
    assert q[..|q| - 1] == front && q[|q| - 1] == g;
    WithoutNoDuplicates(q, g);
  }

  lemma FullFirstPrepend(q: seq<PollGroup>, sizes: map<PollGroup, nat>, g: PollGroup)
    requires Known(q, sizes) && FullFirst(q, sizes) && g in sizes && sizes[g] == MAX_GROUP_SIZE
    ensures Known([g] + q, sizes) && FullFirst([g] + q, sizes)
  {
    assert ([g] + q)[1..] == q;
  }

  lemma SameGroupsTurned(front: seq<PollGroup>, g: PollGroup, sizes: map<PollGroup, nat>)
    requires SameGroups(front + [g], sizes)
    ensures SameGroups([g] + front, sizes[g := sizes[g] + 1])
    ensures SameGroups(front + [g], sizes[g := sizes[g] + 1])
  {
    forall x | x in [g] + front ensures x in front + [g] {
    }
    forall x | x in front + [g] ensures x in [g] + front {
    }
  }

  lemma AcquireKeeps(s: Groups, made: PollGroup)
    requires GroupsInv(s) && CanMake(s, made)
    ensures GroupsInv(Acquire(s, made)) && Acquire(s, made).Held() == s.Held() + 1
  {
    hide Pick, Grown, Front, HasRoom, Total, FullFirst, NoDuplicates, ToStart, SameGroups;
    assert Known(s.queue, s.sizes) by { SameGroupsKnown(s.queue, s.sizes); }
    var g, t, front := Pick(s, made), Grown(s, made), Front(s);
    GrownShape(s, made);
    GrownCount(s, made);
    GrownSizes(s, made);
    assert t.sizes[g := t.sizes[g] + 1][g] <= MAX_GROUP_SIZE;
    SlotTaken(front, g, t.sizes);
  }

  lemma SameGroupsKnown(q: seq<PollGroup>, sizes: map<PollGroup, nat>)
    requires SameGroups(q, sizes)
    ensures Known(q, sizes)
  {
  }

  lemma GrownSizes(s: Groups, made: PollGroup)
    requires GroupsInv(s)
    ensures forall g | g in Grown(s, made).sizes :: Grown(s, made).sizes[g] <= MAX_GROUP_SIZE
    ensures Pick(s, made) in Grown(s, made).sizes
  {
  }

  // The queue after a release, in terms of the queue without the group.
  lemma SlotFreed(q: seq<PollGroup>, g: PollGroup, sizes: map<PollGroup, nat>)
    requires NoDuplicates(q) && SameGroups(q, sizes) && g in q && FullFirst(q, sizes) && 0 < sizes[g] <= MAX_GROUP_SIZE
    ensures var sizes2, q2 := sizes[g := sizes[g] - 1], ToEnd(q, g);
      && NoDuplicates(q2) && |q2| == |q|
      && SameGroups(q2, sizes2) && FullFirst(q2, sizes2) && Total(q2, sizes2) == Total(q, sizes) - 1
  {
    var rest, sizes2 := Without(q, g), sizes[g := sizes[g] - 1];
    WithoutNoDuplicates(q, g);
    FullFirstWithout(q, sizes, g);
    FullFirstOther(rest, sizes, sizes2);
    FullFirstAppend(rest, sizes2, g);
    TotalWithout(q, sizes, g);
    TotalChanged(rest, sizes, g, sizes[g] - 1);
    TotalConcat(rest, [g], sizes2);
    assert Total([g], sizes2) == sizes[g] - 1;
  }

  lemma ReleaseKeeps(s: Groups, g: PollGroup)
    requires GroupsInv(s) && g in s.sizes && s.sizes[g] > 0
    ensures GroupsInv(Release(s, g)) && Release(s, g).Held() == s.Held() - 1
  {
    hide FullFirst, Total, NoDuplicates, ToEnd;
    SlotFreed(s.queue, g, s.sizes);
  }

  // ---------- Any run ----------

  datatype Request = Take(made: PollGroup) | Fail | Give(g: PollGroup)

  // The allocator and the groups of the slots held, one entry a slot.
  datatype Run = Run(groups: Groups, holders: multiset<PollGroup>)

  // Only a held slot is given back, and a new group is a new object. A failed acquire leaves all as it was.
  predicate Allowed(r: Run, q: Request)
    requires Known(r.groups.queue, r.groups.sizes)
  {
    match q
    case Take(made) => CanMake(r.groups, made)
    case Fail => !HasRoom(r.groups)
    case Give(g) => g in r.holders && g in r.groups.sizes && r.groups.sizes[g] > 0
  }

  function Serve(r: Run, q: Request): Run
    requires Known(r.groups.queue, r.groups.sizes) && Allowed(r, q)
  {
    match q
    case Take(made) => Run(Acquire(r.groups, made), r.holders + multiset{Pick(r.groups, made)})
    case Fail => r
    case Give(g) => Run(Release(r.groups, g), r.holders - multiset{g})
  }

  ghost predicate RunInv(r: Run) {
    && GroupsInv(r.groups)
    && (forall g | g in r.groups.sizes :: r.groups.sizes[g] == r.holders[g])
    && (forall g | g in r.holders :: g in r.groups.sizes)
  }

  lemma TakeKeeps(r: Run, made: PollGroup)
    requires RunInv(r) && CanMake(r.groups, made)
    ensures RunInv(Serve(r, Take(made)))
  {
    hide Total, FullFirst, Without, NoDuplicates;
    var s, u := r.groups, Acquire(r.groups, made);
    assert GroupsInv(u) by {
      AcquireKeeps(s, made);
    }
    TakenSizes(r, made);
  }

  lemma TakenSizes(r: Run, made: PollGroup)
    requires RunInv(r) && CanMake(r.groups, made)
    ensures var g, u := Pick(r.groups, made), Acquire(r.groups, made);
      && (forall k | k in u.sizes :: u.sizes[k] == r.holders[k] + (if k == g then 1 else 0))
      && (forall k | k in r.holders :: k in u.sizes) && g in u.sizes
  {
    hide Total, FullFirst;
  }

  lemma ServeKeeps(r: Run, q: Request)
    requires RunInv(r) && Allowed(r, q)
    ensures RunInv(Serve(r, q))
  {
    hide Total, FullFirst, Acquire, Without, NoDuplicates;
    match q
    case Take(made) => TakeKeeps(r, made);
    case Fail =>
    case Give(g) => ReleaseKeeps(r.groups, g);
  }

  ghost predicate Step(r: Run, q: Request, next: Run) {
    Known(r.groups.queue, r.groups.sizes) && Allowed(r, q) && next == Serve(r, q)
  }

  // The states of a run from an allocator without groups, one more than there are requests.
  ghost predicate IsRun(states: seq<Run>, qs: seq<Request>) {
    && |states| == |qs| + 1 && states[0] == Run(Groups([], map[], 0), multiset{})
    && forall i | 0 <= i < |qs| :: Step(states[i], qs[i], states[i + 1])
  }

  // In every run: full groups come first, every size is the number of holders and at most 32, and the
  // number of groups ever made is the peak number of held slots over 32, rounded up.
  lemma {:induction false} EveryRun(states: seq<Run>, qs: seq<Request>, i: nat)
    requires IsRun(states, qs) && i < |states|
    ensures RunInv(states[i])
  {
    if i > 0 {
      EveryRun(states, qs, i - 1);
      assert Step(states[i - 1], qs[i - 1], states[i]);
      ServeKeeps(states[i - 1], qs[i - 1]);
    }
  }
}
