/** The output calls of Connection.cpp over an object that they update in place. */
module Connection {
  import opened ByteNumbers
  import opened HybiFrames
  import opened OutputModel

  // What one call of ::send answers for so many bytes: how many it took, or an error.
  method AskSocket(size: nat, a: SendAnswer) returns (sendResult: int, wouldBlock: bool)
    ensures sendResult == (if a.Accepts? then Min(a.room, size) else -1) && wouldBlock == a.WouldBlock?
  {
    match a
    case Accepts(room) => return Min(room, size), false;
    case WouldBlock => return -1, true;
    case Fails => return -1, false;
  }

  class Connection {
    const clientBufferSize: nat
    var isShutdown: bool
    var closeOnEmpty: bool
    var registeredForWriteEvents: bool
    var bytesSent: nat
    var outBuf: seq<bv8>
    ghost var model: Output

    ghost predicate Mirrors()
      reads this
    {
      && (isShutdown <==> !model.condition.Open?)
      && closeOnEmpty == model.closeOnEmpty && registeredForWriteEvents == model.registered
      && bytesSent == model.bytesSent && outBuf == model.outBuf
    }

    ghost predicate Valid()
      reads this
    {
      Mirrors() && Conserved(model, clientBufferSize)
    }

    constructor (clientBufferSize: nat)
      ensures Valid() && model == Fresh() && this.clientBufferSize == clientBufferSize
    {
      this.clientBufferSize := clientBufferSize;
      isShutdown, closeOnEmpty, registeredForWriteEvents, bytesSent, outBuf := false, false, false, 0, [];
      model := Fresh();
    }

    // closeInternal
    method CloseInternal(ghost cause: Cause)
      requires Mirrors()
      modifies this`isShutdown, this`model
      ensures Mirrors() && model == OutputModel.CloseInternal(old(model), cause)
    {
      isShutdown := true;
      model := OutputModel.CloseInternal(model, cause);
    }

    // closeWhenEmpty
    method CloseWhenEmpty()
      requires Valid()
      modifies this
      ensures Valid() && model == OutputModel.CloseWhenEmpty(old(model))
    {
      ghost var c := model;
      if outBuf == [] {
        CloseInternal(Drained);
      } else {
        closeOnEmpty := true;
        model := model.(closeOnEmpty := true);
      }
      ApplyConserves(c, WhenEmpty, clientBufferSize);
    }

    // safeSend
    method SafeSend(data: seq<bv8>, a: SendAnswer) returns (sent: int)
      requires Mirrors()
      modifies this`isShutdown, this`bytesSent, this`model
      ensures Mirrors() && (model, sent) == OutputModel.SafeSend(old(model), data, a)
    {
      if isShutdown {
        return -1;
      }
      var sendResult, wouldBlock := AskSocket(|data|, a);
      if sendResult == -1 {
        if wouldBlock {
          return 0;
        }
        CloseInternal(SendFailed);
      } else {
        bytesSent := bytesSent + sendResult;
        model := model.(bytesSent := bytesSent, wire := model.wire + data[..sendResult]);
      }
      return sendResult;
    }

    // The middle of flush: the subscription follows the buffer.
    method UpdateSubscription(a: Answers) returns (ok: bool)
      requires Mirrors()
      modifies this`registeredForWriteEvents, this`model
      ensures Mirrors() && (model, ok) == Registered(old(model), a)
    {
      if outBuf != [] && !registeredForWriteEvents {
        if !a.subscribes {
          return false;
        }
        registeredForWriteEvents := true;
        model := model.(registered := true);
      } else if outBuf == [] && registeredForWriteEvents {
        if !a.unsubscribes {
          return false;
        }
        registeredForWriteEvents := false;
        model := model.(registered := false);
      }
      ok := true;
    }

    // flush
    method Flush(send: SendAnswer, a: Answers) returns (ok: bool)
      requires Mirrors()
      modifies this
      ensures Mirrors() && (model, ok) == OutputModel.Flush(old(model), send, a)
    {
      hide OutputModel.SafeSend, Registered;
      if outBuf == [] {
        return true;
      }
      SendKeepsRest(model, outBuf, send);
      var numSent := SafeSend(outBuf, send);
      if numSent == -1 {
        return false;
      }
      outBuf := outBuf[numSent..];
      model := model.(outBuf := outBuf);
      RegisteredKeepsRest(model, a);
      ok := UpdateSubscription(a);
      if !ok {
        return;
      }
      if outBuf == [] && !isShutdown && closeOnEmpty {
        CloseInternal(Drained);
      }
    }

    // write, with its direct send, copy and flush. Sizes are compared as int, so they stay below 2^31.
    method Write(data: seq<bv8>, flushIt: bool, a: Answers) returns (ok: bool)
      requires Valid() && |data| < 0x8000_0000
      modifies this
      ensures Valid() && (model, ok) == OutputModel.Write(old(model), data, flushIt, clientBufferSize, a)
    {
      ghost var c := model;
      WriteConserves(c, data, flushIt, clientBufferSize, a);
      hide OutputModel.SafeSend, OutputModel.Flush, Conserved;
      if isShutdown || closeOnEmpty {
        return false;
      }
      model := model.(offered := model.offered + data);
      if data != [] {
        var sent := 0;
        if outBuf == [] && flushIt {
          SendKeepsRest(model, data, a.first);
          sent := SafeSend(data, a.first);
          if sent == |data| {
            return true;
          }
          if sent == -1 {
            return false;
          }
        }
        var newBufferSize := |outBuf| + (|data| - sent);
        if newBufferSize >= clientBufferSize {
          CloseInternal(Overflow);
          return false;
        }
        outBuf := outBuf + data[sent..];
        model := model.(outBuf := outBuf);
      }
      if flushIt {
        ok := Flush(a.second, a);
      } else {
        ok := true;
      }
    }

    // handleDataReadyForWrite
    method HandleDataReadyForWrite(a: Answers)
      requires Valid()
      modifies this
      ensures Valid() && model == Apply(old(model), WriteReady(a), clientBufferSize)
    {
      ApplyConserves(model, WriteReady(a), clientBufferSize);
      hide OutputModel.Flush, Conserved;
      if isShutdown {
        return;
      }
      var _ := Flush(a.second, a);
    }

    // A write that only fills the buffer.
    method Buffer(data: seq<bv8>) returns (ok: bool)
      requires Valid() && |data| < 0x8000_0000
      modifies this
      ensures Valid()
      ensures ok <==> old(model).condition.Open? && !old(model).closeOnEmpty && model.condition.Open?
      ensures model.closeOnEmpty == old(model).closeOnEmpty
      ensures model.condition.Open? ==> old(model).condition.Open?
      ensures model.offered == old(model).offered + Accepted(old(model), Offer(data, false, NoAnswers()))
      ensures data != [] && old(model).condition.Open? && !old(model).closeOnEmpty ==>
        (ok <==> |old(model).outBuf| + |data| < clientBufferSize) && (ok ==> |model.outBuf| == |old(model).outBuf| + |data|)
    {
      WriteConserves(model, data, false, clientBufferSize, NoAnswers());
      BufferOnly(model, data, clientBufferSize);
      assert model.offered + [] == model.offered;
      ok := Write(data, false, NoAnswers());
    }

    // The length field of sendHybiData.
    method BufferLength(n: nat) returns (ok: bool)
      requires Valid() && !model.closeOnEmpty && model.condition.Open?
      modifies this
      ensures Valid() && (ok <==> model.condition.Open?) && !model.closeOnEmpty
      ensures old(model).offered <= model.offered <= old(model).offered + LengthField(n, 0)
      ensures ok ==> model.offered == old(model).offered + LengthField(n, 0)
      ensures ok <==> |old(model).outBuf| + |LengthField(n, 0)| < clientBufferSize
      ensures ok ==> |model.outBuf| == |old(model).outBuf| + |LengthField(n, 0)|
    {
      hide Conserved, Big, ToByte, OutputModel.Write;
      LengthParts(n, 0);
      NoFlag(n);
      if n < 126 {
        ok := Buffer([ToByte(n)]);
      } else if n < 65536 {
        ok := Buffer([126]);
        if ok {
          ok := Buffer(Big(n, 2));
        }
      } else {
        ok := Buffer([127]);
        if ok {
          ok := Buffer(Big(n, 8));
        }
      }
    }

    // sendHybi and sendHybiData, without compression: unless the connection closes, the peer is owed exactly
    // one unmasked frame more. It closes exactly if the buffer has no room for the frame, or the send fails.
    method SendHybi(op: Opcode, message: seq<bv8>, a: Answers)
      requires Valid() && |message| < 0x8000_0000
      modifies this
      ensures Valid()
      ensures old(model).offered <= model.offered <= old(model).offered + Encode(Frame(op, message, Unmasked))
      ensures model.condition.Open? && !old(model).closeOnEmpty ==> model.offered == old(model).offered + Encode(Frame(op, message, Unmasked))
      ensures !old(model).condition.Open? || old(model).closeOnEmpty ==> model.offered == old(model).offered
      ensures model.closeOnEmpty == old(model).closeOnEmpty && (model.condition.Open? ==> old(model).condition.Open?)
      ensures old(model).condition.Open? && !old(model).closeOnEmpty ==>
        var room := After(|old(model).outBuf|, |Encode(Frame(op, message, Unmasked))|, a, clientBufferSize);
        (model.condition.Open? <==> room.Holds?) && (room.Holds? ==> |model.outBuf| == room.size)
    {
      hide Conserved, LengthField, OutputModel.Write, Encode, CodeOf;
      UnmaskedParts(op, message);
      ghost var o := model.offered;
      Between(o, [FIN | CodeOf(op)], LengthField(|message|, 0), message, o + [FIN | CodeOf(op)]);
      assert o + [] == o;
      var ok := Buffer([FIN | CodeOf(op)]);
      if !ok {
        return;
      }
      ok := BufferLength(|message|);
      Between(o, [FIN | CodeOf(op)], LengthField(|message|, 0), message, model.offered);
      if !ok {
        return;
      }
      WriteConserves(model, message, true, clientBufferSize, a);
      WriteKeepsClosing(model, message, true, clientBufferSize, a);
      WriteBehind(model, message, clientBufferSize, a);
      ok := Write(message, true, a);
    }
  }

  // What a buffer holds once a frame is put behind what it has and the socket was asked: nothing, if the connection
  // was shut down.
  datatype Room = NoRoom | Holds(size: nat)

  function After(before: nat, frame: nat, a: Answers, limit: nat): Room {
    var total := before + frame;
    if total >= limit then NoRoom
    else
      match a.second
      case Fails => NoRoom
      case WouldBlock => Holds(total)
      case Accepts(room) => Holds(total - Min(room, total))
  }

  // The same after a list of messages, with the answers each meets.
  function RoomAfter(messages: seq<Frame>, answers: seq<Answers>, limit: nat): Room
    requires |messages| == |answers|
  {
    if messages == [] then Holds(0)
    else
      var n := |messages| - 1;
      var room := RoomAfter(messages[..n], answers[..n], limit);
      if room.NoRoom? then NoRoom else After(room.size, |Encode(messages[n])|, answers[n], limit)
  }

  // Any list of messages in turn: while the connection is open, the bytes sent and the buffer are exactly their
  // frames in order, and a connection that closes has sent a prefix of them. The answers of the socket and the limit
  // of the buffer say which it is.
  method SendAll(clientBufferSize: nat, messages: seq<Frame>, answers: seq<Answers>) returns (c: Connection)
    requires |messages| == |answers| && forall f | f in messages :: f.mask.Unmasked? && |f.payload| < 0x8000_0000
    ensures fresh(c) && c.Valid() && c.model.wire <= EncodeAll(messages)
    ensures c.isShutdown <==> RoomAfter(messages, answers, clientBufferSize).NoRoom?
    ensures !c.isShutdown ==> c.model.wire + c.outBuf == EncodeAll(messages)
  {
    hide EncodeAll, Encode, After, Conserved;
    c := new Connection(clientBufferSize);
    assert messages[..0] == [] && EncodeAll([]) == [] by { NoFrames(); }
    for i := 0 to |messages|
      invariant fresh(c) && c.Valid() && c.clientBufferSize == clientBufferSize && c.model.offered <= EncodeAll(messages[..i])
      invariant c.model.condition.Open? ==> !c.model.closeOnEmpty && c.model.offered == EncodeAll(messages[..i])
      invariant var room := RoomAfter(messages[..i], answers[..i], clientBufferSize);
        (c.model.condition.Open? <==> room.Holds?) && (room.Holds? ==> |c.model.outBuf| == room.size)
    {
      FrameBehind(messages, i);
      var f := messages[i];
      assert f == Frame(f.op, f.payload, Unmasked);
      assert messages[..i + 1][..i] == messages[..i] && answers[..i + 1][..i] == answers[..i];
      c.SendHybi(f.op, f.payload, answers[i]);
    }
    assert messages[..|messages|] == messages && answers[..|answers|] == answers;
    ConservedIs(c.model, clientBufferSize);
  }

  lemma ConservedIs(c: Output, limit: nat)
    requires Conserved(c, limit)
    ensures c.wire <= c.offered && (c.condition.Open? ==> c.wire + c.outBuf == c.offered)
  {
  }

  // A buffer with room for everything stays open while no send fails, and all messages are out once the socket has
  // taken what it holds.
  lemma {:induction false} RoomForAll(messages: seq<Frame>, answers: seq<Answers>, limit: nat)
    requires |messages| == |answers| && |EncodeAll(messages)| < limit && forall a | a in answers :: !a.second.Fails?
    ensures RoomAfter(messages, answers, limit).Holds? && RoomAfter(messages, answers, limit).size <= |EncodeAll(messages)|
  {
    hide Encode, EncodeAll;
    if messages == [] {
      NoFrames();
    } else {
      var n := |messages| - 1;
      FrameBehind(messages, n);
      assert messages[..n + 1] == messages;
      RoomForAll(messages[..n], answers[..n], limit);
    }
  }

  // The write that ends a frame finds the header in the buffer: it closes the connection exactly if the limit is
  // met or the send fails.
  lemma WriteBehind(c: Output, data: seq<bv8>, limit: nat, a: Answers)
    requires c.condition.Open? && !c.closeOnEmpty && c.outBuf != [] && |c.outBuf| < limit
    ensures var c2, room := Write(c, data, true, limit, a).0, After(|c.outBuf|, |data|, a, limit);
      (c2.condition.Open? <==> room.Holds?) && (room.Holds? ==> |c2.outBuf| == room.size)
  {
  }

  lemma NoFrames()
    ensures EncodeAll([]) == []
  {
  }

  lemma FrameBehind(fs: seq<Frame>, i: nat)
    requires i < |fs|
    ensures EncodeAll(fs[..i + 1]) == EncodeAll(fs[..i]) + Encode(fs[i])
  {
    hide Encode;
    EncodeAllFrom(fs[..i + 1], i);
    assert fs[..i + 1][..i] == fs[..i] && fs[..i + 1][i..] == [fs[i]];
    assert EncodeAll([fs[i]]) == Encode(fs[i]) + EncodeAll([]);
  }

  lemma WriteKeepsClosing(c: Output, data: seq<bv8>, flushIt: bool, limit: nat, a: Answers)
    ensures var c2 := Write(c, data, flushIt, limit, a).0;
      c2.closeOnEmpty == c.closeOnEmpty && (c2.condition.Open? ==> c.condition.Open?)
  {
    hide SafeSend, Flush;
    if c.condition.Open? && !c.closeOnEmpty {
      var c0 := c.(offered := c.offered + data);
      SendKeepsRest(c0, data, a.first);
      var (c1, n) := if c.outBuf == [] && flushIt then SafeSend(c0, data, a.first) else (c0, 0);
      if data == [] {
        FlushKeepsClosing(c0, a);
      } else if 0 <= n <= |data| {
        FlushKeepsClosing(Buffered(c1, data[n..], limit).0, a);
      }
    }
  }

  lemma FlushKeepsClosing(c: Output, a: Answers)
    ensures Flush(c, a.second, a).0.closeOnEmpty == c.closeOnEmpty
  {
    hide SafeSend, Registered;
    SendKeepsRest(c, c.outBuf, a.second);
    var (c1, n) := SafeSend(c, c.outBuf, a.second);
    if n != -1 {
      RegisteredKeepsRest(c1.(outBuf := c.outBuf[n..]), a);
    }
  }

  function NoAnswers(): Answers {
    Answers(WouldBlock, WouldBlock, false, false)
  }

  // Without a flush the socket is not asked, so the answers do not matter.
  lemma BufferOnly(c: Output, data: seq<bv8>, limit: nat)
    ensures var (c2, ok) := Write(c, data, false, limit, NoAnswers());
      && (ok <==> c.condition.Open? && !c.closeOnEmpty && c2.condition.Open?) && c2.closeOnEmpty == c.closeOnEmpty
      && (c2.condition.Open? ==> c.condition.Open?)
  {
  }

  lemma NoFlag(n: nat)
    ensures LengthField(n, 0) == if n < 126 then [ToByte(n)] else if n < 65536 then [126] + Big(n, 2) else [127] + Big(n, 8)
  {
    hide ToByte, Big;
  }

  lemma UnmaskedParts(op: Opcode, message: seq<bv8>)
    ensures Encode(Frame(op, message, Unmasked)) == [FIN | CodeOf(op)] + LengthField(|message|, 0) + message
  {
    hide LengthField;
    assert Masked(message, Unmasked) == message;
    assert KeyBytes(Unmasked) == [];
    assert [FIN | CodeOf(op)] + LengthField(|message|, 0) + [] == [FIN | CodeOf(op)] + LengthField(|message|, 0);
  }

  lemma Between(o: seq<bv8>, a: seq<bv8>, b: seq<bv8>, c: seq<bv8>, x: seq<bv8>)
    requires o + a <= x <= o + a + b
    ensures o <= x <= o + (a + b + c) && o + a + b + c == o + (a + b + c)
  {
    assert o + a + b <= o + (a + b + c);
  }

  lemma RegisteredKeepsRest(c: Output, a: Answers)
    ensures var c2 := Registered(c, a).0;
      c2.outBuf == c.outBuf && c2.closeOnEmpty == c.closeOnEmpty && c2.condition == c.condition
  {
  }
}
