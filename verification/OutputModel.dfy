/** The output side of Connection.cpp: what has been accepted, buffered and sent. */
module OutputModel {

  // Why the connection was shut down.
  datatype Cause = Drained | SendFailed | Overflow | Closed
  datatype Condition = Open | Shut(cause: Cause)

  // `offered` is what was written while the connection was open and not closing, `wire` what the socket took.
  datatype Output = Output(condition: Condition, closeOnEmpty: bool, registered: bool, bytesSent: nat,
                           outBuf: seq<bv8>, wire: seq<bv8>, offered: seq<bv8>)

  // What the socket makes of a send: it takes as much as it has room for, or would block, or fails.
  datatype SendAnswer = Accepts(room: nat) | WouldBlock | Fails

  // The answers one call may meet: to at most two sends, and to a change of the write-event subscription.
  datatype Answers = Answers(first: SendAnswer, second: SendAnswer, subscribes: bool, unsubscribes: bool)

  function CloseInternal(c: Output, cause: Cause): Output {
    if c.condition.Open? then c.(condition := Shut(cause)) else c
  }

  // closeWhenEmpty
  function CloseWhenEmpty(c: Output): Output {
    if c.outBuf == [] then CloseInternal(c, Drained) else c.(closeOnEmpty := true)
  }

  function Min(a: nat, b: nat): nat {
    if a < b then a else b
  }

  // safeSend: the bytes taken, or -1. A connection that was shut down ignores it.
  function SafeSend(c: Output, data: seq<bv8>, a: SendAnswer): (Output, int) {
    if !c.condition.Open? then (c, -1)
    else
      match a
      case WouldBlock => (c, 0)
      case Fails => (CloseInternal(c, SendFailed), -1)
      case Accepts(room) =>
        var n: int := Min(room, |data|);
        (c.(bytesSent := c.bytesSent + n, wire := c.wire + data[..n]), n)
  }

  // flush after its send.
  function Registered(c: Output, a: Answers): (Output, bool) {
    if c.outBuf != [] && !c.registered then (c.(registered := a.subscribes), a.subscribes)
    else if c.outBuf == [] && c.registered then (c.(registered := !a.unsubscribes), a.unsubscribes)
    else (c, true)
  }

  function Flush(c: Output, send: SendAnswer, a: Answers): (Output, bool) {
    if c.outBuf == [] then (c, true) else
      var (c1, n) := SafeSend(c, c.outBuf, send);
      if n == -1 then (c1, false) else
        var (c2, ok) := Registered(c1.(outBuf := c.outBuf[n..]), a);
        if !ok then (c2, false)
        else if c2.outBuf == [] && c2.closeOnEmpty then (CloseInternal(c2, Drained), true)
        else (c2, true)
  }

  // write, once part of the data may have been sent directly: the rest is buffered.
  function Buffered(c: Output, rest: seq<bv8>, limit: nat): (Output, bool) {
    if |c.outBuf| + |rest| >= limit then (CloseInternal(c, Overflow), false)
    else (c.(outBuf := c.outBuf + rest), true)
  }

  function Write(c: Output, data: seq<bv8>, flushIt: bool, limit: nat, a: Answers): (Output, bool) {
    if !c.condition.Open? || c.closeOnEmpty then (c, false)
    else
      var c0 := c.(offered := c.offered + data);
      if data == [] then (if flushIt then Flush(c0, a.second, a) else (c0, true))
      else
        var direct := c.outBuf == [] && flushIt;
        var (c1, n) := if direct then SafeSend(c0, data, a.first) else (c0, 0);
        if direct && n == |data| then (c1, true)
        else if n == -1 then (c1, false)
        else
          var (c2, ok) := Buffered(c1, data[n..], limit);
          if !ok then (c2, false)
          else if flushIt then Flush(c2, a.second, a)
          else (c2, true)
  }

  // ---------- What every call keeps ----------

  // Nothing is lost, repeated or reordered, and the buffer stays below its limit.
  predicate Conserved(c: Output, limit: nat) {
    && c.wire <= c.offered
    && (c.condition.Open? ==> c.wire + c.outBuf == c.offered)
    && c.bytesSent == |c.wire|
    && (c.outBuf == [] || |c.outBuf| < limit)
    && (c.condition == Shut(Drained) ==> c.wire == c.offered)
  }

  lemma SendConserves(c: Output, data: seq<bv8>, rest: seq<bv8>, a: SendAnswer)
    requires c.condition.Open? && c.wire + (data + rest) == c.offered && c.bytesSent == |c.wire|
    ensures var (c2, n) := SafeSend(c, data, a);
      && c2.wire <= c2.offered && c2.bytesSent == |c2.wire| && c2.offered == c.offered && c2.outBuf == c.outBuf
      && (n == -1 ==> c2.condition == Shut(SendFailed))
      && (n != -1 ==> c2.condition.Open? && 0 <= n <= |data| && c2.wire + (data[n..] + rest) == c.offered)
      && c2.registered == c.registered && c2.closeOnEmpty == c.closeOnEmpty
  {
    if a.Accepts? {
      var n := Min(a.room, |data|);
      Moved(c.wire, data, rest, n);
    }
  }

  lemma Moved(wire: seq<bv8>, data: seq<bv8>, rest: seq<bv8>, n: nat)
    requires n <= |data|
    ensures (wire + data[..n]) + (data[n..] + rest) == wire + (data + rest)
    ensures wire + data[..n] <= wire + (data + rest)
  {
    assert data[..n] + data[n..] == data;
  }

  // A flush conserves too, and changes nothing once the connection is shut down.
  lemma FlushConserves(c: Output, limit: nat, send: SendAnswer, a: Answers)
    requires Conserved(c, limit)
    ensures Conserved(Flush(c, send, a).0, limit) && Flush(c, send, a).0.offered == c.offered
    ensures c.wire <= Flush(c, send, a).0.wire
    ensures !c.condition.Open? ==> Flush(c, send, a) == (c, c.outBuf == [])
  {
    if !c.condition.Open? {
      return;
    }
    hide SafeSend;
    if c.outBuf != [] {
      assert c.outBuf + [] == c.outBuf;
      SendConserves(c, c.outBuf, [], send);
      SendGrows(c, c.outBuf, send);
      var (c1, n) := SafeSend(c, c.outBuf, send);
      if n != -1 {
        assert c.outBuf[n..] + [] == c.outBuf[n..];
      }
    }
  }

  lemma SendGrows(c: Output, data: seq<bv8>, a: SendAnswer)
    ensures c.wire <= SafeSend(c, data, a).0.wire
  {
  }

  lemma WriteConserves(c: Output, data: seq<bv8>, flushIt: bool, limit: nat, a: Answers)
    requires Conserved(c, limit)
    ensures var c2 := Write(c, data, flushIt, limit, a).0;
      && Conserved(c2, limit) && c.wire <= c2.wire
      && c2.offered == if c.condition.Open? && !c.closeOnEmpty then c.offered + data else c.offered
  {
    hide SafeSend, Flush;
    if c.condition.Open? && !c.closeOnEmpty {
      var c0 := c.(offered := c.offered + data);
      if data == [] {
        assert c.offered + data == c.offered;
        FlushConserves(c0, limit, a.second, a);
      } else {
        var direct := c.outBuf == [] && flushIt;
        assert c.wire + (data + []) == c.offered + data || !direct;
        var (c1, n) := if direct then SafeSend(c0, data, a.first) else (c0, 0);
        if direct {
          SendConserves(c0, data, [], a.first);
          SendGrows(c0, data, a.first);
        }
        if n != -1 && !(direct && n == |data|) {
          Appended(c.wire, c.outBuf, data, c.offered);
          assert data[n..] + [] == data[n..] && (n == 0 ==> data[n..] == data);
          var c2 := Buffered(c1, data[n..], limit).0;
          assert c1.wire + (c1.outBuf + data[n..]) == c1.offered;
          assert Conserved(c2, limit);
          if flushIt && c2.condition.Open? {
            FlushConserves(c2, limit, a.second, a);
          }
        }
      }
    }
  }

  lemma Appended(wire: seq<bv8>, outBuf: seq<bv8>, data: seq<bv8>, offered: seq<bv8>)
    requires wire + outBuf == offered
    ensures wire + (outBuf + data) == offered + data && wire <= offered + data
  {
  }

  // ---------- No stall, and a graceful end ----------

  // Between calls, when every change of the subscription succeeds: write events are asked for only while
  // there is something to write, and a connection that is to close when empty is not empty.
  predicate Tidy(c: Output) {
    c.condition.Open? && (c.registered || c.closeOnEmpty) ==> c.outBuf != []
  }

  predicate Smooth(a: Answers) {
    a.subscribes && a.unsubscribes
  }

  lemma FlushTidies(c: Output, send: SendAnswer, a: Answers)
    requires Tidy(c) && Smooth(a)
    ensures var c2 := Flush(c, send, a).0; Tidy(c2) && (c2.condition.Open? ==> (c2.registered <==> c2.outBuf != []))
  {
  }

  // After every write that flushes, as after every flush: write events are asked for exactly when needed.
  lemma WriteTidies(c: Output, data: seq<bv8>, flushIt: bool, limit: nat, a: Answers)
    requires Tidy(c) && Smooth(a)
    ensures var c2 := Write(c, data, flushIt, limit, a).0;
      && Tidy(c2)
      && (c2.condition.Open? && flushIt && !c.closeOnEmpty ==> (c2.registered <==> c2.outBuf != []))
  {
    hide SafeSend, Flush;
    if c.condition.Open? && !c.closeOnEmpty {
      var c0 := c.(offered := c.offered + data);
      if data == [] {
        FlushTidies(c0, a.second, a);
      } else {
        var direct := c.outBuf == [] && flushIt;
        var (c1, n) := if direct then SafeSend(c0, data, a.first) else (c0, 0);
        if direct {
          SendKeepsRest(c0, data, a.first);
        }
        if n != -1 && !(direct && n == |data|) {
          var c2 := Buffered(c1, data[n..], limit).0;
          if flushIt && c2.condition.Open? {
            FlushTidies(c2, a.second, a);
          }
        }
      }
    }
  }

  lemma SendKeepsRest(c: Output, data: seq<bv8>, a: SendAnswer)
    ensures var (c2, n) := SafeSend(c, data, a);
      && c2.outBuf == c.outBuf && c2.registered == c.registered && c2.closeOnEmpty == c.closeOnEmpty
      && (n != -1 ==> c2.condition.Open? && 0 <= n <= |data|) && (n == -1 ==> !c2.condition.Open?)
  {
  }

  // A flush that sends all there is ends a connection that is to close when empty, except when it had asked
  // for write events and cannot take that back: then it stays open, and no later flush closes it.
  lemma DrainExactly(c: Output, send: SendAnswer, a: Answers)
    requires c.condition.Open? && c.closeOnEmpty && c.outBuf != []
    requires send.Accepts? && send.room >= |c.outBuf|
    ensures Flush(c, send, a).0.condition == Shut(Drained) <==> !c.registered || a.unsubscribes
    ensures !Flush(c, send, a).0.condition.Open? || forall s, b :: Flush(Flush(c, send, a).0, s, b).0 == Flush(c, send, a).0
  {
  }

  // ---------- Any run ----------

  // A write, a write event, a flush by itself as finish and sendError make it, and the two ways to close.
  datatype Event = Offer(data: seq<bv8>, flushIt: bool, a: Answers) | WriteReady(a: Answers) | FlushNow(a: Answers) | WhenEmpty | ByUser

  // handleDataReadyForWrite looks at the state first; the others do so themselves.
  function Apply(c: Output, e: Event, limit: nat): Output {
    match e
    case Offer(data, flushIt, a) => Write(c, data, flushIt, limit, a).0
    case WriteReady(a) => if c.condition.Open? then Flush(c, a.second, a).0 else c
    case FlushNow(a) => Flush(c, a.second, a).0
    case WhenEmpty => CloseWhenEmpty(c)
    case ByUser => CloseInternal(c, Closed)
  }

  lemma ApplyConserves(c: Output, e: Event, limit: nat)
    requires Conserved(c, limit)
    ensures var c2 := Apply(c, e, limit);
      && Conserved(c2, limit) && c.wire <= c2.wire && c2.offered == c.offered + Accepted(c, e)
      && (!c.condition.Open? ==> c2.wire == c.wire && c2.condition == c.condition)
  {
    hide Write, Flush;
    assert c.offered + [] == c.offered;
    match e
    case Offer(data, flushIt, a) =>
      WriteConserves(c, data, flushIt, limit, a);
      if !c.condition.Open? {
        WriteShut(c, data, flushIt, limit, a);
      }
    case WriteReady(a) => FlushConserves(c, limit, a.second, a);
    case FlushNow(a) => FlushConserves(c, limit, a.second, a);
    case WhenEmpty => assert c.wire + [] == c.wire;
    case ByUser =>
  }

  lemma WriteShut(c: Output, data: seq<bv8>, flushIt: bool, limit: nat, a: Answers)
    requires !c.condition.Open?
    ensures Write(c, data, flushIt, limit, a) == (c, false)
  {
  }

  // What one event adds to the bytes the connection has taken on.
  function Accepted(c: Output, e: Event): seq<bv8> {
    if e.Offer? && c.condition.Open? && !c.closeOnEmpty then e.data else []
  }

  function Fresh(): Output {
    Output(Open, false, false, 0, [], [], [])
  }

  predicate IsRun(states: seq<Output>, events: seq<Event>, limit: nat) {
    && |states| == |events| + 1 && states[0] == Fresh()
    && forall i | 0 <= i < |events| :: states[i + 1] == Apply(states[i], events[i], limit)
  }

  function AllAccepted(states: seq<Output>, events: seq<Event>, n: nat): seq<bv8>
    requires n <= |events| && |events| < |states|
  {
    if n == 0 then [] else AllAccepted(states, events, n - 1) + Accepted(states[n - 1], events[n - 1])
  }

  // In every run: the bytes sent, followed by the buffer while the connection is open, are all that was
  // written while it was open and not closing.
  lemma {:induction false} EveryRun(states: seq<Output>, events: seq<Event>, limit: nat, i: nat)
    requires IsRun(states, events, limit) && i < |states|
    ensures Conserved(states[i], limit) && states[i].offered == AllAccepted(states, events, i)
  {
    hide Apply, Accepted;
    if i > 0 {
      EveryRun(states, events, limit, i - 1);
      assert states[i - 1 + 1] == Apply(states[i - 1], events[i - 1], limit);
      ApplyConserves(states[i - 1], events[i - 1], limit);
    }
  }

  // After a shutdown the bytes sent are a fixed prefix of what was written before.
  lemma {:induction false} FixedAfter(states: seq<Output>, events: seq<Event>, limit: nat, i: nat, j: nat)
    requires IsRun(states, events, limit) && i <= j < |states| && !states[i].condition.Open?
    ensures states[j].wire == states[i].wire && states[j].condition == states[i].condition
    ensures states[j].offered == states[i].offered && states[j].wire <= states[j].offered
    decreases j
  {
    hide Apply, Conserved;
    if i < j {
      FixedAfter(states, events, limit, i, j - 1);
      EveryRun(states, events, limit, j - 1);
      assert states[j - 1 + 1] == Apply(states[j - 1], events[j - 1], limit);
      ApplyConserves(states[j - 1], events[j - 1], limit);
      assert states[j - 1].offered + [] == states[j - 1].offered;
    } else {
      EveryRun(states, events, limit, j);
      assert Conserved(states[j], limit) ==> states[j].wire <= states[j].offered by { ConservedPrefix(states[j], limit); }
    }
  }

  lemma ConservedPrefix(c: Output, limit: nat)
    ensures Conserved(c, limit) ==> c.wire <= c.offered
  {
  }

  predicate SmoothRun(events: seq<Event>) {
    forall e | e in events :: e.Offer? || e.WriteReady? || e.FlushNow? ==> Smooth(e.a)
  }

  // While no change of the subscription fails: after every event that flushes, an open connection asks for
  // write events exactly when it has something to write.
  lemma {:induction false} NoStall(states: seq<Output>, events: seq<Event>, limit: nat, i: nat)
    requires IsRun(states, events, limit) && SmoothRun(events) && i < |states|
    ensures Tidy(states[i])
    ensures i > 0 && states[i].condition.Open? && Flushes(states[i - 1], events[i - 1]) ==> (states[i].registered <==> states[i].outBuf != [])
  {
    hide Write, Flush;
    if i > 0 {
      NoStall(states, events, limit, i - 1);
      var c, e := states[i - 1], events[i - 1];
      assert states[i - 1 + 1] == Apply(c, e, limit) && e in events;
      match e
      case Offer(data, flushIt, a) => WriteTidies(c, data, flushIt, limit, a);
      case WriteReady(a) => FlushTidies(c, a.second, a);
      case FlushNow(a) => FlushTidies(c, a.second, a);
      case WhenEmpty =>
      case ByUser =>
    }
  }

  predicate Flushes(c: Output, e: Event) {
    e.WriteReady? || e.FlushNow? || (e.Offer? && e.flushIt && !c.closeOnEmpty)
  }

  // ---------- A connection that is to close when empty ----------

  // A closeWhenEmpty ends an open connection at once if its buffer is empty. Otherwise, while no change of the
  // subscription fails, the connection takes on nothing more, and it is open only as long as it has something to send.
  lemma {:induction false} ClosesWhenEmpty(states: seq<Output>, events: seq<Event>, limit: nat, i: nat, j: nat)
    requires IsRun(states, events, limit) && SmoothRun(events) && i < j < |states| && events[i] == WhenEmpty
    ensures states[i].condition.Open? && states[i].outBuf == [] ==> states[j].condition == Shut(Drained)
    ensures states[j].condition.Open? ==>
      states[i].condition.Open? && states[j].closeOnEmpty && states[j].outBuf != [] && states[j].offered == states[i].offered
    decreases j
  {
    hide Write, Flush, Conserved;
    var c, e := states[j - 1], events[j - 1];
    assert states[j - 1 + 1] == Apply(c, e, limit);
    NoStall(states, events, limit, j);
    if j > i + 1 {
      ClosesWhenEmpty(states, events, limit, i, j - 1);
      EveryRun(states, events, limit, j - 1);
      ApplyConserves(c, e, limit);
      if !c.condition.Open? {
        FixedAfter(states, events, limit, j - 1, j);
      } else {
        StaysClosing(c, e, limit);
        assert c.offered + [] == c.offered;
      }
    }
  }

  lemma StaysClosing(c: Output, e: Event, limit: nat)
    requires c.closeOnEmpty
    ensures Apply(c, e, limit).closeOnEmpty
    ensures c.condition.Open? ==> Accepted(c, e) == []
  {
  }

  // And the first flush that can send all of it does, and ends the connection: the peer has got all that was written.
  lemma DrainCloses(states: seq<Output>, events: seq<Event>, limit: nat, i: nat, j: nat)
    requires IsRun(states, events, limit) && SmoothRun(events) && i < j < |events| && events[i] == WhenEmpty
    requires states[j].condition.Open? && (events[j].WriteReady? || events[j].FlushNow?)
    requires events[j].a.second.Accepts? && events[j].a.second.room >= |states[j].outBuf|
    ensures states[j + 1].condition == Shut(Drained) && states[j + 1].wire == AllAccepted(states, events, i)
  {
    hide Apply, Flush, AllAccepted;
    ClosesWhenEmpty(states, events, limit, i, j);
    EveryRun(states, events, limit, i);
    EveryRun(states, events, limit, j);
    EveryRun(states, events, limit, j + 1);
    var c, e := states[j], events[j];
    assert e in events && states[j + 1] == Apply(c, e, limit);
    DrainExactly(c, e.a.second, e.a);
    FlushConserves(c, limit, e.a.second, e.a);
    assert Apply(c, e, limit) == Flush(c, e.a.second, e.a).0 by { FlushEvent(c, e, limit); }
  }

  lemma FlushEvent(c: Output, e: Event, limit: nat)
    requires c.condition.Open? && (e.WriteReady? || e.FlushNow?)
    ensures Apply(c, e, limit) == Flush(c, e.a.second, e.a).0
  {
    hide Flush;
  }

  // ---------- Progress ----------

  // A flush sends as much as the socket has room for.
  lemma FlushSends(c: Output, send: SendAnswer, a: Answers)
    requires c.condition.Open? && c.outBuf != [] && send.Accepts?
    ensures var c2, n := Flush(c, send, a).0, if send.room < |c.outBuf| then send.room else |c.outBuf|;
      c2.wire == c.wire + c.outBuf[..n] && c2.outBuf == c.outBuf[n..]
  {
  }

  // A write that flushes sends everything at once when there is room for it, with nothing in front of it.
  lemma WriteSends(c: Output, data: seq<bv8>, limit: nat, a: Answers)
    requires c.condition.Open? && !c.closeOnEmpty && c.outBuf == [] && a.first.Accepts? && a.first.room >= |data|
    ensures var (c2, ok) := Write(c, data, true, limit, a); ok && c2.wire == c.wire + data && c2.outBuf == [] && c2.condition.Open?
  {
    assert data[..|data|] == data && c.wire + [] == c.wire;
  }
}
