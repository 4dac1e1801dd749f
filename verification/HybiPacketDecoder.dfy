/** HybiPacketDecoder.cpp: frames taken one by one from a buffer. */
module HybiPacketDecoder {
  import opened ByteNumbers
  import opened HybiFrames
  import opened Sequences

  // The loop over the payload counts in 32 bits, so the buffer must be shorter than 2^32 bytes.
  const SIZE_LIMIT: nat := 0x1_0000_0000

  // The decoder asks for decompression as soon as it has seen the first two bytes of the frame.
  predicate SaysDeflated(s: seq<bv8>) {
    |s| >= 2 && s[0] & 0x80 != 0 && s[0] & 0x30 == 0 && s[0] & 0x40 != 0
  }

  class PacketDecoder {
    const buffer: seq<bv8>
    var messageStart: nat

    constructor (buffer: seq<bv8>)
      requires |buffer| < SIZE_LIMIT
      ensures this.buffer == buffer && messageStart == 0
    {
      this.buffer := buffer;
      messageStart := 0;
    }

    // numBytesDecoded
    function NumBytesDecoded(): nat
      reads this
    {
      messageStart
    }

    // The loop that fills messageOut.
    method TakePayload(ptr: nat, length: nat, mask: bv32) returns (messageOut: seq<bv8>)
      requires ptr + length <= |buffer| < SIZE_LIMIT
      ensures messageOut == Unmask(buffer[ptr..ptr + length], mask)
    {
      hide KeyByte;
      messageOut := [];
      ghost var bytes := buffer[ptr..ptr + length];
      var i := 0;
      while i < length
        invariant i <= length && |messageOut| == i
        invariant forall k | 0 <= k < i :: messageOut[k] == bytes[k] ^ KeyByte(mask, k)
      {
        assert buffer[ptr + i] == bytes[i];
        messageOut := messageOut + [buffer[ptr + i] ^ KeyByte(mask, i)];
        i := i + 1;
      }
    }

    // decodeNextMessage. `deflateNeeded` is set from the first two bytes, even when the frame is not complete.
    method DecodeNextMessage() returns (o: Outcome, deflateNeeded: bool)
      requires |buffer| < SIZE_LIMIT
      modifies this
      ensures o == Decode(buffer, old(messageStart)) && messageStart == Next(o, old(messageStart))
      ensures deflateNeeded <==> old(messageStart) < |buffer| && SaysDeflated(buffer[old(messageStart)..])
    {
      hide Value, DecodeMask, FromByte;
      deflateNeeded := false;
      if messageStart + 1 >= |buffer| {
        return NoMessage, false;
      }
      var b0, b1 := buffer[messageStart], buffer[messageStart + 1];
      if b0 & 0x80 == 0 || b0 & 0x30 != 0 {
        return Error(messageStart), false;
      }
      deflateNeeded := b0 & 0x40 != 0;
      var short := b1 & 0x7f;
      var payloadLength, ptr := FromByte(short), messageStart + 2;
      if short == 126 {
        if |buffer| < 4 {
          return NoMessage, deflateNeeded;
        }
        if |buffer| < ptr + 2 {
          return PastEnd, deflateNeeded;
        }
        payloadLength := Value(buffer[ptr..ptr + 2]);
        ptr := ptr + 2;
      } else if short == 127 {
        if |buffer| < 10 {
          return NoMessage, deflateNeeded;
        }
        if |buffer| < ptr + 8 {
          return PastEnd, deflateNeeded;
        }
        payloadLength := Value(buffer[ptr..ptr + 8]);
        ptr := ptr + 8;
      }
      o := TakeRest(b0 & 0xf, b1 & 0x80 != 0, payloadLength, ptr);
    }

    // From the mask on.
    method TakeRest(opcode: bv8, maskBit: bool, payloadLength: nat, ptr0: nat) returns (o: Outcome)
      requires ptr0 <= |buffer| < SIZE_LIMIT
      modifies this
      ensures o == DecodeMask(buffer, opcode, maskBit, payloadLength, ptr0) && messageStart == Next(o, old(messageStart))
    {
      hide WordOf, Unmask;
      var mask: bv32, ptr := 0, ptr0;
      if maskBit {
        if |buffer| < ptr + 4 {
          return NoMessage;
        }
        mask := WordOf(buffer[ptr], buffer[ptr + 1], buffer[ptr + 2], buffer[ptr + 3]);
        ptr := ptr + 4;
      }
      var bytesLeftInBuffer := |buffer| - ptr;
      if payloadLength > bytesLeftInBuffer {
        return NoMessage;
      }
      var messageOut := TakePayload(ptr, payloadLength, mask);
      messageStart := ptr + payloadLength;
      o := if Known(opcode) then Message(OpcodeOf(opcode), messageOut, messageStart) else Error(messageStart);
    }
  }

  // Messages as they come out: what was sent, without how it was masked.
  datatype Delivered = Delivered(op: Opcode, payload: seq<bv8>)

  function Sent(fs: seq<Frame>): seq<Delivered> {
    seq(|fs|, i requires 0 <= i < |fs| => Delivered(fs[i].op, fs[i].payload))
  }

  // Any list of frames, masked or not, is given back in order with no byte left over, and then there is
  // no message.
  method DecodeAll(fs: seq<Frame>, buffer: seq<bv8>) returns (messages: seq<Delivered>, last: Outcome, decoded: nat)
    requires buffer == EncodeAll(fs) && |buffer| < SIZE_LIMIT
    ensures messages == Sent(fs) && last == NoMessage && decoded == |buffer|
  {
    hide Encode, Decode;
    var decoder := new PacketDecoder(buffer);
    messages := [];
    ghost var i := 0;
    var more := true;
    last := NoMessage;
    while more
      invariant i <= |fs| && decoder.messageStart == |EncodeAll(fs[..i])| && messages == Sent(fs[..i])
      invariant decoder.buffer == buffer
      invariant !more ==> i == |fs| && last == NoMessage
      decreases more, |fs| - i
    {
      Coming(fs, buffer, i);
      var o, deflate := decoder.DecodeNextMessage();
      if o.Message? {
        messages := messages + [Delivered(o.op, o.payload)];
        assert Sent(fs[..i + 1]) == Sent(fs[..i]) + [Delivered(fs[i].op, fs[i].payload)];
        i := i + 1;
      } else {
        last := o;
        more := false;
      }
    }
    assert fs[..|fs|] == fs;
    decoded := decoder.NumBytesDecoded();
  }

  // Where frame i stands.
  lemma {:induction false} FrameStands(fs: seq<Frame>, i: nat)
    requires i < |fs|
    ensures var start := |EncodeAll(fs[..i])|;
      At(EncodeAll(fs), start, Encode(fs[i])) && |EncodeAll(fs[..i + 1])| == start + |Encode(fs[i])|
  {
    hide Encode;
    var before, more := EncodeAll(fs[..i]), EncodeAll(fs[i + 1..]);
    EncodeAllFrom(fs, i);
    assert fs[i..][1..] == fs[i + 1..] && EncodeAll(fs[i..]) == Encode(fs[i]) + more;
    EncodeAllFrom(fs[..i + 1], i);
    assert fs[..i + 1][..i] == fs[..i] && fs[..i + 1][i..] == [fs[i]];
    assert EncodeAll([fs[i]]) == Encode(fs[i]) + EncodeAll([]);
    Middle(before, Encode(fs[i]), more);
  }

  lemma Middle(a: seq<bv8>, b: seq<bv8>, c: seq<bv8>)
    ensures At(a + (b + c), |a|, b)
  {
  }

  // What the decoder meets after i frames.
  lemma {:induction false} Coming(fs: seq<Frame>, buffer: seq<bv8>, i: nat)
    requires buffer == EncodeAll(fs) && i <= |fs| && |buffer| < SIZE_LIMIT
    ensures var start := |EncodeAll(fs[..i])|;
      if i == |fs| then start == |buffer| && Decode(buffer, start) == NoMessage
      else Decode(buffer, start) == Message(fs[i].op, fs[i].payload, |EncodeAll(fs[..i + 1])|)
  {
    hide Encode, EncodeAll;
    if i < |fs| {
      hide Decode, At;
      FrameStands(fs, i);
      FrameFits(buffer, |EncodeAll(fs[..i])|, fs[i]);
      RoundTrip(buffer, |EncodeAll(fs[..i])|, fs[i]);
    } else {
      assert fs[..i] == fs;
    }
  }

  lemma FrameFits(buffer: seq<bv8>, start: nat, f: Frame)
    requires At(buffer, start, Encode(f)) && |buffer| < SIZE_LIMIT
    ensures |f.payload| < 0x1_0000_0000_0000_0000
  {
    hide Encode, Extended, KeyBytes;
    EncodeParts(f);
  }
}
