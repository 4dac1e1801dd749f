/** handleHybiWebSocket of Connection.cpp: frames decoded out of a byte stream that arrives in any pieces. */
module HybiInput {
  import opened ByteNumbers
  import opened HybiFrames
  import opened HybiPacketDecoder
  import opened Sequences
  import Hixie

  // ---------- Where the decoder stands does not matter ----------

  lemma PayloadShifts(buffer: seq<bv8>, m: nat, code: bv8, length: nat, mask: bv32, ptr: nat)
    requires m + ptr <= |buffer|
    ensures DecodePayload(buffer, code, length, mask, m + ptr) == MovedBy(DecodePayload(buffer[m..], code, length, mask, ptr), m)
  {
    hide Unmask, Known, OpcodeOf;
    if length <= |buffer| - m - ptr {
      assert buffer[m..][ptr..ptr + length] == buffer[m + ptr..m + ptr + length];
    }
  }

  function MovedBy(o: Outcome, m: nat): Outcome {
    match o
    case Message(op, payload, next) => Message(op, payload, next + m)
    case Error(next) => Error(next + m)
    case _ => o
  }

  lemma MaskShifts(buffer: seq<bv8>, m: nat, code: bv8, masked: bool, length: nat, ptr: nat)
    requires m + ptr <= |buffer|
    ensures DecodeMask(buffer, code, masked, length, m + ptr) == MovedBy(DecodeMask(buffer[m..], code, masked, length, ptr), m)
  {
    hide DecodePayload, WordOf;
    if !masked {
      PayloadShifts(buffer, m, code, length, 0, ptr);
    } else if |buffer| >= m + ptr + 4 {
      var mask := WordOf(buffer[m + ptr], buffer[m + ptr + 1], buffer[m + ptr + 2], buffer[m + ptr + 3]);
      PayloadShifts(buffer, m, code, length, mask, ptr + 4);
    }
  }

  // What is left of the buffer begins with two bytes of a frame whose length takes more bytes than are there,
  // and the buffer as a whole is long enough for them.
  predicate Overruns(rest: seq<bv8>, size: nat) {
    && |rest| >= 2 && rest[0] & 0x80 != 0 && rest[0] & 0x30 == 0
    && ((rest[1] & 0x7f == 126 && |rest| < 4 <= size) || (rest[1] & 0x7f == 127 && |rest| < 10 <= size))
  }

  lemma LengthShifts(buffer: seq<bv8>, m: nat, code: bv8, masked: bool, short: bv8)
    requires m + 2 <= |buffer| && !DecodeLength(buffer, code, masked, short, m + 2).PastEnd?
    ensures DecodeLength(buffer, code, masked, short, m + 2) == MovedBy(DecodeLength(buffer[m..], code, masked, short, 2), m)
  {
    hide DecodeMask, Value, FromByte;
    var rest := buffer[m..];
    if short == 126 && |rest| >= 4 {
      assert rest[2..4] == buffer[m + 2..m + 4];
      MaskShifts(buffer, m, code, masked, Value(rest[2..4]), 4);
    } else if short == 127 && |rest| >= 10 {
      assert rest[2..10] == buffer[m + 2..m + 10];
      MaskShifts(buffer, m, code, masked, Value(rest[2..10]), 10);
    } else if short != 126 && short != 127 {
      MaskShifts(buffer, m, code, masked, FromByte(short), 2);
    }
  }

  lemma OverrunsExactly(buffer: seq<bv8>, m: nat)
    requires m <= |buffer|
    ensures Decode(buffer, m).PastEnd? <==> Overruns(buffer[m..], |buffer|)
  {
    hide Decode;
    PastEndExactly(buffer, m);
    if m + 1 < |buffer| {
      assert buffer[m..][0] == buffer[m] && buffer[m..][1] == buffer[m + 1];
    }
  }

  // Apart from that the decoder finds the same frame wherever in the buffer it begins.
  lemma DecodeShifts(buffer: seq<bv8>, m: nat)
    requires m <= |buffer|
    ensures Decode(buffer, m).PastEnd? <==> Overruns(buffer[m..], |buffer|)
    ensures Decode(buffer, m).PastEnd? || Decode(buffer, m) == MovedBy(Decode(buffer[m..], 0), m)
  {
    hide DecodeLength, Overruns;
    OverrunsExactly(buffer, m);
    if m + 1 < |buffer| {
      var b0, b1 := buffer[m], buffer[m + 1];
      assert buffer[m..][0] == b0 && buffer[m..][1] == b1;
      if b0 & 0x80 != 0 && b0 & 0x30 == 0 && !Decode(buffer, m).PastEnd? {
        LengthShifts(buffer, m, b0 & 0xf, b1 & 0x80 != 0, b1 & 0x7f);
      }
    }
  }

  // ---------- More bytes behind ----------

  lemma MaskMore(a: seq<bv8>, b: seq<bv8>, code: bv8, masked: bool, length: nat, ptr: nat)
    requires ptr <= |a| && !DecodeMask(a, code, masked, length, ptr).NoMessage?
    ensures DecodeMask(a + b, code, masked, length, ptr) == DecodeMask(a, code, masked, length, ptr)
  {
    hide Unmask, WordOf, Known, OpcodeOf;
    var start := if masked then ptr + 4 else ptr;
    assert (a + b)[start..start + length] == a[start..start + length];
  }

  lemma LengthMore(a: seq<bv8>, b: seq<bv8>, code: bv8, masked: bool, short: bv8)
    requires |a| >= 2
    requires !DecodeLength(a, code, masked, short, 2).NoMessage? && !DecodeLength(a, code, masked, short, 2).PastEnd?
    ensures DecodeLength(a + b, code, masked, short, 2) == DecodeLength(a, code, masked, short, 2)
  {
    hide DecodeMask, Value, FromByte;
    if short == 126 {
      assert (a + b)[2..4] == a[2..4];
      MaskMore(a, b, code, masked, Value(a[2..4]), 4);
    } else if short == 127 {
      assert (a + b)[2..10] == a[2..10];
      MaskMore(a, b, code, masked, Value(a[2..10]), 10);
    } else {
      MaskMore(a, b, code, masked, FromByte(short), 2);
    }
  }

  // A frame that is there in full is found as it was.
  lemma DecodeMore(a: seq<bv8>, b: seq<bv8>)
    requires !Decode(a, 0).NoMessage?
    ensures |a| >= 2 && Decode(a + b, 0) == Decode(a, 0)
  {
    NeverPast(a);
    hide DecodeLength;
    assert (a + b)[0] == a[0] && (a + b)[1] == a[1];
    if a[0] & 0x80 != 0 && a[0] & 0x30 == 0 {
      LengthMore(a, b, a[0] & 0xf, a[1] & 0x80 != 0, a[1] & 0x7f);
    }
  }

  lemma NeverPast(s: seq<bv8>)
    ensures !Decode(s, 0).PastEnd?
  {
    PastEndExactly(s, 0);
  }

  // ---------- What a stream means ----------

  // What comes of a message: a text is handed on as a C string, a ping is answered, a pong is ignored.
  datatype Event = GotText(text: seq<bv8>) | GotBinary(payload: seq<bv8>) | SentPong(answer: seq<bv8>)

  function EventsOf(op: Opcode, payload: seq<bv8>): seq<Event> {
    match op
    case Text => [GotText(Hixie.CString(payload))]
    case Binary => [GotBinary(payload)]
    case Ping => [SentPong(payload)]
    case _ => []
  }

  // How the messages end: no whole frame is left, a frame the decoder refuses, one that is compressed although
  // that was not agreed on, or a close frame.
  datatype End = Waiting | Malformed | Deflated | PeerClosed

  datatype Meaning = Meaning(events: seq<Event>, rest: seq<bv8>, end: End)

  lemma NextFrame(s: seq<bv8>, start: nat)
    ensures Decode(s, start).Message? ==> start + 2 <= Decode(s, start).next <= |s|
  {
    hide Unmask, WordOf, Value, FromByte, Known, OpcodeOf;
  }

  function Scan(s: seq<bv8>): Meaning
    decreases |s|
  {
    var o := Decode(s, 0);
    NextFrame(s, 0);
    if SaysDeflated(s) then Meaning([], s, Deflated)
    else if o.Error? then Meaning([], s, Malformed)
    else if !o.Message? then Meaning([], s, Waiting)
    else if o.op.Close? then Meaning([], s, PeerClosed)
    else
      var later := Scan(s[o.next..]);
      Meaning(EventsOf(o.op, o.payload) + later.events, later.rest, later.end)
  }

  lemma ScanStep(s: seq<bv8>)
    ensures var o := Decode(s, 0);
      && (o.Message? ==> 2 <= o.next <= |s|)
      && Scan(s) ==
        if SaysDeflated(s) then Meaning([], s, Deflated)
        else if o.Error? then Meaning([], s, Malformed)
        else if !o.Message? then Meaning([], s, Waiting)
        else if o.op.Close? then Meaning([], s, PeerClosed)
        else Meaning(EventsOf(o.op, o.payload) + Scan(s[o.next..]).events, Scan(s[o.next..]).rest, Scan(s[o.next..]).end)
  {
    hide Decode;
    NextFrame(s, 0);
  }

  // More bytes only add to what a stream means.
  lemma {:induction false} ScanMore(a: seq<bv8>, b: seq<bv8>)
    ensures var o := Scan(a);
      && Scan(a + b).events == o.events + (if o.end.Waiting? then Scan(o.rest + b).events else [])
      && Scan(a + b).end == (if o.end.Waiting? then Scan(o.rest + b).end else o.end)
      && (o.end.Waiting? ==> Scan(a + b).rest == Scan(o.rest + b).rest)
    decreases |a|
  {
    hide Scan, Decode, EventsOf;
    ScanStep(a);
    ScanStep(a + b);
    var o := Decode(a, 0);
    if !o.NoMessage? {
      DecodeMore(a, b);
    }
    if !SaysDeflated(a) && !o.NoMessage? && o.Message? && !o.op.Close? {
      assert (a + b)[o.next..] == a[o.next..] + b;
      assert (a + b)[0] == a[0];
      ScanMore(a[o.next..], b);
      var later := Scan(a[o.next..]);
      Concat(EventsOf(o.op, o.payload), later.events, if later.end.Waiting? then Scan(later.rest + b).events else []);
    } else {
      NeverPast(a);
    }
  }

  // ---------- The connection ----------

  const MAX_MESSAGE_SIZE: nat := Hixie.MAX_MESSAGE_SIZE

  // A connection that did not agree on compression. `overrun` stands for a decoder that read beyond the end of
  // its buffer, after which nothing is known.
  class FrameInput {
    var inBuf: seq<bv8>
    var closed: bool
    var overrun: bool
    var delivered: seq<Event>

    constructor ()
      ensures inBuf == [] && !closed && !overrun && delivered == []
    {
      inBuf, closed, overrun, delivered := [], false, false, [];
    }

    // handleHybiWebSocket
    method HandleHybiWebSocket()
      requires !closed && !overrun && |inBuf| < SIZE_LIMIT
      modifies this
      ensures var o := Scan(old(inBuf));
        && delivered == old(delivered) + o.events
        && (overrun <==> Overruns(o.rest, |old(inBuf)|))
        && (!overrun ==> (closed <==> !o.end.Waiting? || |o.rest| > MAX_MESSAGE_SIZE))
        && (!overrun && o.end.Waiting? ==> inBuf == o.rest)
    {
      hide Scan, Decode, EventsOf, Overruns;
      ghost var buffer, before := inBuf, delivered;
      if inBuf == [] {
        NothingMeans();
        return;
      }
      var decoder := new PacketDecoder(inBuf);
      assert buffer[0..] == buffer;
      var done := false;
      while !done
        invariant fresh(decoder) && decoder.buffer == inBuf == buffer && decoder.messageStart <= |buffer| && !closed && !overrun
        invariant var o := Scan(buffer[decoder.messageStart..]);
          && delivered + o.events == before + Scan(buffer).events
          && o.rest == Scan(buffer).rest && o.end == Scan(buffer).end
          && (done ==> o == Meaning([], buffer[decoder.messageStart..], Waiting) && !Overruns(o.rest, |buffer|))
        decreases if done then 0 else 1 + |buffer| - decoder.messageStart
      {
        ghost var m, was := decoder.messageStart, delivered;
        ghost var rest := buffer[m..];
        DecodeShifts(buffer, m);
        ScanStep(rest);
        NeverPast(rest);
        var o, deflateNeeded := decoder.DecodeNextMessage();
        if o.PastEnd? {
          OverrunMeans(rest, |buffer|);
          overrun := true;
          return;
        }
        if deflateNeeded || o.Error? || (o.Message? && o.op.Close?) {
          closed := true;
          return;
        }
        if o.NoMessage? {
          done := true;
        } else {
          assert buffer[o.next..] == rest[o.next - m..];
          delivered := delivered + EventsOf(o.op, o.payload);
          Concat(was, EventsOf(o.op, o.payload), Scan(buffer[o.next..]).events);
        }
      }
      inBuf := inBuf[decoder.NumBytesDecoded()..];
      if |inBuf| > MAX_MESSAGE_SIZE {
        closed := true;
      }
    }
  }

  lemma NothingMeans()
    ensures Scan([]) == Meaning([], [], Waiting) && forall size :: !Overruns([], size)
  {
  }

  lemma OverrunMeans(rest: seq<bv8>, size: nat)
    requires Overruns(rest, size)
    ensures Scan(rest).rest == rest && Scan(rest).events == []
  {
  }

  // ---------- Any cut into reads ----------

  // The connection after some reads, or a read on which the decoder went beyond the end of its buffer.
  datatype Input = Input(events: seq<Event>, rest: seq<bv8>, closed: bool) | Overrun

  function Read(c: Input, bytes: seq<bv8>): Input {
    if c.Overrun? || c.closed then c
    else
      var o := Scan(c.rest + bytes);
      if Overruns(o.rest, |c.rest + bytes|) then Overrun
      else Input(c.events + o.events, o.rest, !o.end.Waiting? || |o.rest| > MAX_MESSAGE_SIZE)
  }

  function Reads(pieces: seq<seq<bv8>>): Input {
    if pieces == [] then Input([], [], false) else Read(Reads(pieces[..|pieces| - 1]), pieces[|pieces| - 1])
  }

  lemma ReadsNext(pieces: seq<seq<bv8>>, i: nat)
    requires i < |pieces|
    ensures Reads(pieces[..i + 1]) == Read(Reads(pieces[..i]), pieces[i])
  {
    assert pieces[..i + 1][..i] == pieces[..i];
  }

  // A buffer that has outgrown the decoder's 32-bit loop is not looked at: the reads are short.
  method ReceiveAll(pieces: seq<seq<bv8>>) returns (c: FrameInput)
    requires forall p | p in pieces :: |p| < SIZE_LIMIT - MAX_MESSAGE_SIZE
    ensures var r := Reads(pieces);
      if r.Overrun? then c.overrun
      else !c.overrun && c.delivered == r.events && c.closed == r.closed && (!c.closed ==> c.inBuf == r.rest)
  {
    hide Scan, Reads, Overruns;
    c := new FrameInput();
    assert Reads(pieces[..0]) == Input([], [], false) by { Nothing(); }
    for i := 0 to |pieces|
      invariant fresh(c)
      invariant var r := Reads(pieces[..i]);
        if r.Overrun? then c.overrun
        else !c.overrun && c.delivered == r.events && c.closed == r.closed && (!c.closed ==> c.inBuf == r.rest)
      invariant !c.overrun && !c.closed ==> |c.inBuf| <= MAX_MESSAGE_SIZE
    {
      ReadsNext(pieces, i);
      if !c.overrun && !c.closed {
        c.inBuf := c.inBuf + pieces[i];
        c.HandleHybiWebSocket();
      }
    }
    assert pieces[..|pieces|] == pieces;
  }

  lemma Nothing()
    ensures Reads([]) == Input([], [], false) && forall r: seq<seq<bv8>> :: r[..0] == []
  {
  }

  predicate Faithful(r: Input, o: Meaning) {
    r.Input? && r.events == o.events && (r.closed <==> !o.end.Waiting?) && (o.end.Waiting? ==> r.rest == o.rest)
  }

  // A read that ends here leaves more than the limit.
  predicate TooLong(a: seq<bv8>) {
    Scan(a).end.Waiting? && |Scan(a).rest| > MAX_MESSAGE_SIZE
  }

  predicate TooLongAt(pieces: seq<seq<bv8>>, j: nat)
    requires j < |pieces|
  {
    TooLong(Joined(pieces[..j + 1]))
  }

  // Read j ends inside the long length of a frame that is not the first in its buffer.
  predicate OverrunsAt(pieces: seq<seq<bv8>>, j: nat)
    requires j < |pieces|
  {
    var before, now := Scan(Joined(pieces[..j])), Scan(Joined(pieces[..j + 1]));
    before.end.Waiting? && Overruns(now.rest, |before.rest| + |pieces[j]|)
  }

  predicate Harmless(pieces: seq<seq<bv8>>, i: nat)
    requires i <= |pieces|
  {
    forall j | 0 <= j < i :: !OverrunsAt(pieces, j) && !TooLongAt(pieces, j)
  }

  // One read more, after reads that left the connection as the stream says.
  lemma FaithfulNext(pieces: seq<seq<bv8>>, i: nat)
    requires i < |pieces| && Faithful(Reads(pieces[..i]), Scan(Joined(pieces[..i])))
    ensures var r, o := Reads(pieces[..i + 1]), Scan(Joined(pieces[..i + 1]));
      if OverrunsAt(pieces, i) then r.Overrun?
      else if TooLongAt(pieces, i) then r == Input(o.events, o.rest, true)
      else Faithful(r, o)
  {
    hide Scan, Reads, Overruns;
    var was, bytes := Scan(Joined(pieces[..i])), pieces[i];
    ReadsNext(pieces, i);
    JoinedNext(pieces, i);
    ScanMore(Joined(pieces[..i]), bytes);
    if was.end.Waiting? {
      assert |was.rest + bytes| == |was.rest| + |bytes|;
      RestBehind(Joined(pieces[..i]), bytes);
    } else {
      assert was.events + [] == was.events;
    }
  }

  lemma RestBehind(a: seq<bv8>, b: seq<bv8>)
    requires Scan(a).end.Waiting?
    ensures Scan(a + b).rest == Scan(Scan(a).rest + b).rest
  {
    hide Scan;
    ScanMore(a, b);
  }

  // A connection that is closed, or gone wrong, reads no more.
  lemma {:induction false} Frozen(pieces: seq<seq<bv8>>, i: nat)
    requires i <= |pieces| && (Reads(pieces[..i]).Overrun? || Reads(pieces[..i]).closed)
    ensures Reads(pieces) == Reads(pieces[..i])
  {
    if i == |pieces| {
      assert pieces[..i] == pieces;
    } else {
      var before := pieces[..|pieces| - 1];
      assert before[..i] == pieces[..i];
      Frozen(before, i);
    }
  }

  lemma {:induction false} FaithfulTo(pieces: seq<seq<bv8>>, i: nat)
    requires i <= |pieces| && Harmless(pieces, i)
    ensures Faithful(Reads(pieces[..i]), Scan(Joined(pieces[..i])))
  {
    hide Scan, OverrunsAt, TooLong;
    if i == 0 {
      NothingMeans();
      Nothing();
    } else {
      FaithfulTo(pieces, i - 1);
      FaithfulNext(pieces, i - 1);
    }
  }

  // What comes of any cut of any stream. If no read leaves too much or ends inside the long length of a later
  // frame, it is what the stream means. Otherwise the first such read decides: the decoder goes beyond the end of
  // its buffer, or the connection closes with just the messages up to there.
  lemma AnyCut(pieces: seq<seq<bv8>>)
    ensures Harmless(pieces, |pieces|) ==> Faithful(Reads(pieces), Scan(Joined(pieces)))
    ensures forall j | 0 <= j < |pieces| && Harmless(pieces, j) && OverrunsAt(pieces, j) :: Reads(pieces).Overrun?
    ensures forall j | 0 <= j < |pieces| && Harmless(pieces, j) && TooLongAt(pieces, j) ::
      var o := Scan(Joined(pieces[..j + 1])); Reads(pieces) == Input(o.events, o.rest, true)
  {
    hide Scan, OverrunsAt, TooLong, Harmless, Reads;
    if Harmless(pieces, |pieces|) {
      FaithfulTo(pieces, |pieces|);
      assert pieces[..|pieces|] == pieces;
    }
    forall j | 0 <= j < |pieces| && Harmless(pieces, j) && OverrunsAt(pieces, j) ensures Reads(pieces).Overrun? {
      FaithfulTo(pieces, j);
      FaithfulNext(pieces, j);
      Frozen(pieces, j + 1);
    }
    forall j | 0 <= j < |pieces| && Harmless(pieces, j) && TooLongAt(pieces, j)
      ensures var o := Scan(Joined(pieces[..j + 1])); Reads(pieces) == Input(o.events, o.rest, true)
    {
      FaithfulTo(pieces, j);
      NotBoth(pieces, j);
      FaithfulNext(pieces, j);
      Frozen(pieces, j + 1);
    }
  }

  lemma NotBoth(pieces: seq<seq<bv8>>, j: nat)
    requires j < |pieces| && TooLongAt(pieces, j)
    ensures !OverrunsAt(pieces, j)
  {
    hide Scan;
  }

  lemma {:induction false} FirstHarm(pieces: seq<seq<bv8>>, i: nat)
    requires i <= |pieces| && !Harmless(pieces, i)
    ensures exists j | 0 <= j < i :: Harmless(pieces, j) && (OverrunsAt(pieces, j) || TooLongAt(pieces, j))
  {
    hide OverrunsAt, TooLongAt;
    if !Harmless(pieces, i - 1) {
      FirstHarm(pieces, i - 1);
    } else {
      assert OverrunsAt(pieces, i - 1) || TooLongAt(pieces, i - 1);
    }
  }

  // A connection that closed for too long a rest, when nothing more would have come of the stream.
  predicate SameEnd(a: seq<bv8>, s: seq<bv8>) {
    Scan(a).events == Scan(s).events && !Scan(s).end.Waiting?
  }

  // Exactly when a cut gives what the stream means.
  lemma CutsExactly(pieces: seq<seq<bv8>>)
    ensures Faithful(Reads(pieces), Scan(Joined(pieces))) <==>
      (Harmless(pieces, |pieces|)
       || exists j | 0 <= j < |pieces| ::
            Harmless(pieces, j) && TooLongAt(pieces, j) && SameEnd(Joined(pieces[..j + 1]), Joined(pieces)))
  {
    hide Scan, OverrunsAt, TooLong, Harmless, Reads;
    AnyCut(pieces);
    if !Harmless(pieces, |pieces|) {
      FirstHarm(pieces, |pieces|);
      var j :| 0 <= j < |pieces| && Harmless(pieces, j) && (OverrunsAt(pieces, j) || TooLongAt(pieces, j));
    }
  }

  // No cut can go wrong: whatever part of the stream has come in, in one read or in many.
  predicate Robust(s: seq<bv8>) {
    forall k | 0 <= k <= |s| :: !Overruns(Scan(s[..k]).rest, k) && (TooLong(s[..k]) ==> SameEnd(s[..k], s))
  }

  // Exactly the streams that mean the same however they are cut into reads.
  lemma StreamsExactly(s: seq<bv8>)
    ensures Robust(s) <==> forall pieces | Joined(pieces) == s :: Faithful(Reads(pieces), Scan(s))
  {
    hide Scan, Overruns, TooLong, SameEnd, Reads, Faithful;
    if Robust(s) {
      forall pieces | Joined(pieces) == s ensures Faithful(Reads(pieces), Scan(s)) {
        RobustCut(pieces);
      }
    } else {
      var k :| 0 <= k <= |s| && (Overruns(Scan(s[..k]).rest, k) || (TooLong(s[..k]) && !SameEnd(s[..k], s)));
      TwoReads(s, k);
    }
  }

  lemma RobustCut(pieces: seq<seq<bv8>>)
    requires Robust(Joined(pieces))
    ensures Faithful(Reads(pieces), Scan(Joined(pieces)))
  {
    hide Scan, Overruns, TooLong, SameEnd, Reads, Faithful, Harmless;
    CutsExactly(pieces);
    if !Harmless(pieces, |pieces|) {
      FirstHarm(pieces, |pieces|);
      var j :| 0 <= j < |pieces| && Harmless(pieces, j) && (OverrunsAt(pieces, j) || TooLongAt(pieces, j));
      var rest := JoinedPrefix(pieces, j + 1);
      var k := |Joined(pieces[..j + 1])|;
      assert Joined(pieces)[..k] == Joined(pieces[..j + 1]);
      assert !Overruns(Scan(Joined(pieces[..j + 1])).rest, k);
      NoOverrunHere(pieces, j);
    }
  }

  // A buffer holds no more than what has come in.
  lemma NoOverrunHere(pieces: seq<seq<bv8>>, j: nat)
    requires j < |pieces| && !Overruns(Scan(Joined(pieces[..j + 1])).rest, |Joined(pieces[..j + 1])|)
    ensures !OverrunsAt(pieces, j)
  {
    hide Scan;
    JoinedNext(pieces, j);
    RestShorter(Joined(pieces[..j]));
  }

  lemma {:induction false} RestShorter(s: seq<bv8>)
    ensures |Scan(s).rest| <= |s|
    decreases |s|
  {
    hide Decode, EventsOf;
    NextFrame(s, 0);
    ScanStep(s);
    var o := Decode(s, 0);
    if o.Message? && !o.op.Close? && !SaysDeflated(s) {
      RestShorter(s[o.next..]);
    }
  }

  // All that has come in at once, and then the rest.
  lemma TwoReads(s: seq<bv8>, k: nat)
    requires k <= |s| && (Overruns(Scan(s[..k]).rest, k) || (TooLong(s[..k]) && !SameEnd(s[..k], s)))
    ensures Joined([s[..k], s[k..]]) == s && !Faithful(Reads([s[..k], s[k..]]), Scan(s))
  {
    hide Scan, Overruns;
    var pieces := [s[..k], s[k..]];
    assert pieces[..0] == [] && pieces[..1] == [s[..k]] && pieces[..1][..0] == [] && [] + s[..k] == s[..k];
    assert s[..k] + s[k..] == s && pieces[..2] == pieces;
    JoinedNext(pieces, 0);
    JoinedNext(pieces, 1);
    NothingMeans();
    assert Reads(pieces[..1]) == Read(Input([], [], false), s[..k]);
    assert [] + Scan(s[..k]).events == Scan(s[..k]).events;
    if !Overruns(Scan(s[..k]).rest, k) {
      assert Reads(pieces[..1]) == Input(Scan(s[..k]).events, Scan(s[..k]).rest, true);
    }
    Frozen(pieces, 1);
  }

  // ---------- Streams of whole frames ----------

  // What comes of a frame: one text, up to its first zero byte; the bytes of a binary message; one pong with the bytes
  // of the ping; nothing of a pong.
  predicate GivenBy(f: Frame, events: seq<Event>) {
    match f.op
    case Text => |events| == 1 && events[0].GotText? && Hixie.UpToZero(f.payload, events[0].text)
    case Binary => events == [GotBinary(f.payload)]
    case Ping => events == [SentPong(f.payload)]
    case _ => events == []
  }

  ghost predicate EachGiven(fs: seq<Frame>, each: seq<seq<Event>>) {
    |each| == |fs| && forall i | 0 <= i < |fs| :: GivenBy(fs[i], each[i])
  }

  lemma GivenEvents(f: Frame, events: seq<Event>)
    requires GivenBy(f, events)
    ensures EventsOf(f.op, f.payload) == events
  {
    if f.op.Text? {
      Hixie.GivenText(f.payload, events[0].text);
    }
  }

  predicate Ordinary(f: Frame) {
    !f.op.Close? && |Encode(f)| <= MAX_MESSAGE_SIZE + 1
  }

  predicate Sendable(f: Frame) {
    !f.op.Close? && |f.payload| < 0x1_0000_0000_0000_0000
  }

  lemma FrameStep(f: Frame, more: seq<bv8>)
    requires Sendable(f)
    ensures var s := Encode(f) + more;
      Scan(s) == Meaning(EventsOf(f.op, f.payload) + Scan(more).events, Scan(more).rest, Scan(more).end)
  {
    hide Scan, Encode, Decode, EventsOf;
    var s := Encode(f) + more;
    assert s[0..0 + |Encode(f)|] == Encode(f);
    RoundTrip(s, 0, f);
    ScanStep(s);
    assert s[|Encode(f)|..] == more;
  }

  lemma OrdinarySends(f: Frame)
    requires Ordinary(f)
    ensures Sendable(f)
  {
    hide Encode, Extended, KeyBytes;
    EncodeParts(f);
  }

  // Part of a frame says nothing yet.
  lemma FrameCut(f: Frame, k: nat)
    requires |f.payload| < 0x1_0000_0000_0000_0000 && k < |Encode(f)|
    ensures Scan(Encode(f)[..k]) == Meaning([], Encode(f)[..k], Waiting)
  {
    hide Scan, Encode, Decode;
    var s := Encode(f)[..k];
    assert s[0..0 + k] == s;
    Incomplete(s, 0, f, k);
    ScanStep(s);
    if k >= 2 {
      hide Extended, KeyBytes, Masked, CodeOf;
      EncodeParts(f);
      FirstByte(f.op);
    }
  }

  // ---------- What ends a connection ----------

  // The beginning of a frame that is refused: a fragment, or one with a reserved bit set.
  predicate Refused(s: seq<bv8>) {
    |s| >= 2 && (s[0] & 0x80 == 0 || s[0] & 0x70 != 0)
  }

  predicate ClosedBy(f: Frame, s: seq<bv8>) {
    f.op.Close? && |Encode(f)| <= MAX_MESSAGE_SIZE + 1 && Encode(f) <= s
  }

  // The peer closes, or does what it must not.
  ghost predicate Ends(s: seq<bv8>) {
    Refused(s) || exists f :: ClosedBy(f, s)
  }

  lemma RefusedMeans(s: seq<bv8>)
    requires Refused(s)
    ensures var o := Scan(s); o.events == [] && o.rest == s && !o.end.Waiting?
  {
    hide Decode;
    ReservedBits(s[0]);
    if s[0] & 0x80 == 0 || s[0] & 0x30 != 0 {
      RefusedFrame(s);
    }
    ScanStep(s);
  }

  lemma ReservedBits(b: bv8)
    ensures b & 0x70 == 0 <==> b & 0x30 == 0 && b & 0x40 == 0
  {
  }

  lemma RefusedFrame(s: seq<bv8>)
    requires |s| >= 2 && (s[0] & 0x80 == 0 || s[0] & 0x30 != 0)
    ensures Decode(s, 0).Error?
  {
    hide DecodeLength;
  }

  lemma ClosedMeans(f: Frame, s: seq<bv8>)
    requires ClosedBy(f, s)
    ensures Scan(s) == Meaning([], s, PeerClosed)
  {
    hide Decode, Encode;
    FitsLength(f);
    assert s[0..0 + |Encode(f)|] == Encode(f);
    RoundTrip(s, 0, f);
    ScanStep(s);
  }

  lemma FitsLength(f: Frame)
    requires |Encode(f)| <= MAX_MESSAGE_SIZE + 1
    ensures |f.payload| < 0x1_0000_0000_0000_0000
  {
    hide Encode, Extended, KeyBytes;
    EncodeParts(f);
  }

  // Until it has come in no read leaves too much of it.
  lemma EndsShort(s: seq<bv8>, k: nat)
    requires (s == [] || Ends(s)) && k <= |s|
    ensures !TooLong(s[..k])
  {
    hide Scan, Encode;
    if k < 2 {
      RestShorter(s[..k]);
    } else if Refused(s) {
      assert s[..k][0] == s[0];
      RefusedMeans(s[..k]);
    } else {
      var f :| ClosedBy(f, s);
      if k < |Encode(f)| {
        assert s[..k] == Encode(f)[..k];
        FitsLength(f);
        FrameCut(f, k);
      } else {
        ClosedMeans(f, s[..k]);
      }
    }
  }

  lemma EndMeans(s: seq<bv8>)
    requires s == [] || Ends(s)
    ensures Scan(s).events == [] && Scan(s).rest == s && (Scan(s).end.Waiting? <==> s == [])
  {
    hide Scan, Encode, Refused;
    if s == [] {
      NothingMeans();
    } else if Refused(s) {
      RefusedMeans(s);
    } else {
      var f :| ClosedBy(f, s);
      ClosedMeans(f, s);
    }
  }

  // Whole frames mean their messages, and no read leaves too much of them.
  lemma {:induction false} FramesMean(fs: seq<Frame>, each: seq<seq<Event>>, tail: seq<bv8>)
    requires (forall f | f in fs :: Ordinary(f)) && EachGiven(fs, each) && (tail == [] || Ends(tail))
    ensures Scan(EncodeAll(fs) + tail) == Meaning(Joined(each), tail, Scan(tail).end)
  {
    hide Scan, Encode, EventsOf, GivenBy, Ends;
    if fs == [] {
      assert EncodeAll(fs) + tail == tail;
      EndMeans(tail);
    } else {
      FramesMean(fs[1..], each[1..], tail);
      OrdinarySends(fs[0]);
      GivenEvents(fs[0], each[0]);
      JoinedFirst(each);
      Concat(Encode(fs[0]), EncodeAll(fs[1..]), tail);
      FrameStep(fs[0], EncodeAll(fs[1..]) + tail);
    }
  }

  lemma {:induction false} FramesNotTooLong(fs: seq<Frame>, tail: seq<bv8>, k: nat)
    requires (forall f | f in fs :: Ordinary(f)) && (tail == [] || Ends(tail)) && k <= |EncodeAll(fs) + tail|
    ensures !TooLong((EncodeAll(fs) + tail)[..k])
    decreases |fs|
  {
    hide Scan, Encode, EventsOf, Ends;
    if fs == [] {
      assert EncodeAll(fs) + tail == tail;
      EndsShort(tail, k);
    } else {
      var first, more := Encode(fs[0]), EncodeAll(fs[1..]) + tail;
      Concat(first, EncodeAll(fs[1..]), tail);
      OrdinarySends(fs[0]);
      if k < |first| {
        assert (first + more)[..k] == first[..k];
        FrameCut(fs[0], k);
      } else {
        assert (first + more)[..k] == first + more[..k - |first|];
        FramesNotTooLong(fs[1..], tail, k - |first|);
        FrameStep(fs[0], more[..k - |first|]);
      }
    }
  }

  // The connection has given these events and is closed, or open with nothing left over.
  predicate Gave(r: Input, events: seq<Event>, closed: bool) {
    r.Input? && r.events == events && r.closed == closed && (!closed ==> r.rest == [])
  }

  // However the bytes of ordinary frames are cut into reads, just what each of them gives comes out, in order, and what
  // ends the connection behind them closes it, if and only if no read ends inside the long length of a frame behind
  // another.
  lemma FramesExactly(fs: seq<Frame>, each: seq<seq<Event>>, tail: seq<bv8>, pieces: seq<seq<bv8>>)
    requires (forall f | f in fs :: Ordinary(f)) && EachGiven(fs, each) && (tail == [] || Ends(tail))
    requires Joined(pieces) == EncodeAll(fs) + tail
    ensures Gave(Reads(pieces), Joined(each), tail != []) <==> forall j | 0 <= j < |pieces| :: !OverrunsAt(pieces, j)
  {
    hide Scan, Encode, Reads, EachGiven, OverrunsAt, TooLong, Ends;
    FramesMean(fs, each, tail);
    EndMeans(tail);
    forall j | 0 <= j < |pieces| ensures !TooLongAt(pieces, j) {
      var rest := JoinedPrefix(pieces, j + 1);
      var k := |Joined(pieces[..j + 1])|;
      assert (EncodeAll(fs) + tail)[..k] == Joined(pieces[..j + 1]);
      FramesNotTooLong(fs, tail, k);
    }
    hide TooLongAt;
    CutsExactly(pieces);
  }

  // A frame of an opcode the standard does not know is no message.
  lemma UnknownOpcode(s: seq<bv8>, start: nat)
    requires start < |s| && s[start] & 0xf !in {0x1, 0x2, 0x8, 0x9, 0xa}
    ensures !Decode(s, start).Message?
  {
    hide Value, WordOf, Unmask, FromByte;
  }

  // A read that ends inside the one frame there is.
  lemma PartRead(pieces: seq<seq<bv8>>, j: nat, f: Frame, a: nat, b: nat)
    requires j < |pieces| && Sendable(f) && a <= b < |Encode(f)|
    requires Joined(pieces[..j]) == Encode(f)[..a] && Joined(pieces[..j + 1]) == Encode(f)[..b] && |pieces[j]| == b - a
    ensures !OverrunsAt(pieces, j) && (TooLongAt(pieces, j) <==> b > MAX_MESSAGE_SIZE)
    ensures Scan(Joined(pieces[..j + 1])) == Meaning([], Encode(f)[..b], Waiting)
  {
    hide Scan, Encode;
    FrameCut(f, a);
    FrameCut(f, b);
    NoEarlyOverrun(Encode(f)[..b], b);
  }

  // And the one that brings the rest.
  lemma LastRead(pieces: seq<seq<bv8>>, j: nat, f: Frame, a: nat)
    requires j < |pieces| && Sendable(f) && a < |Encode(f)|
    requires Joined(pieces[..j]) == Encode(f)[..a] && Joined(pieces[..j + 1]) == Encode(f)
    ensures !OverrunsAt(pieces, j) && !TooLongAt(pieces, j)
  {
    hide Scan, Encode, EventsOf;
    FrameCut(f, a);
    WholeFrame(f);
    NothingMeans();
  }

  // A longer frame, in two reads or three of at most 16384 bytes: in one cut it is handed on, in the other the
  // connection closes without it. No read overruns the buffer in either.
  lemma LongFrameMatters(f: Frame, events: seq<Event>, c: nat)
    requires Sendable(f) && c <= MAX_MESSAGE_SIZE < |Encode(f)| - 1 && |Encode(f)| - c <= MAX_MESSAGE_SIZE
    requires GivenBy(f, events)
    ensures var s, m := Encode(f), MAX_MESSAGE_SIZE + 1;
      var two, three := [s[..c], s[c..]], [s[..c], s[c..m], s[m..]];
      && Joined(two) == s == Joined(three)
      && Reads(two) == Input(events, [], false) && Reads(three) == Input([], s[..m], true)
      && (forall j | 0 <= j < 2 :: !OverrunsAt(two, j)) && (forall j | 0 <= j < 3 :: !OverrunsAt(three, j))
  {
    hide Scan, Encode, EventsOf, Reads, OverrunsAt, TooLongAt, GivenBy, Joined;
    GivenEvents(f, events);
    var s, m := Encode(f), MAX_MESSAGE_SIZE + 1;
    var two, three := [s[..c], s[c..]], [s[..c], s[c..m], s[m..]];
    PartsJoin(s, c, m);
    PartRead(two, 0, f, 0, c);
    LastRead(two, 1, f, c);
    PartRead(three, 0, f, 0, c);
    PartRead(three, 1, f, c, m);
    LastRead(three, 2, f, m);
    AnyCut(two);
    AnyCut(three);
    WholeFrame(f);
    assert Harmless(three, 1) && TooLongAt(three, 1);
  }

  lemma PartsJoin(s: seq<bv8>, c: nat, m: nat)
    requires c <= m <= |s|
    ensures var two, three := [s[..c], s[c..]], [s[..c], s[c..m], s[m..]];
      && Joined(two[..0]) == [] == Joined(three[..0]) && Joined(two[..1]) == s[..c] == Joined(three[..1])
      && Joined(two[..2]) == s == Joined(three[..3]) && Joined(three[..2]) == s[..m] && two[..2] == two && three[..3] == three
  {
    var two, three := [s[..c], s[c..]], [s[..c], s[c..m], s[m..]];
    JoinedNext(two, 0);
    JoinedNext(two, 1);
    JoinedNext(three, 0);
    JoinedNext(three, 1);
    JoinedNext(three, 2);
    assert [] + s[..c] == s[..c] && s[..c] + s[c..] == s && s[..c] + s[c..m] == s[..m] && s[..m] + s[m..] == s;
  }

  lemma WholeFrame(f: Frame)
    requires Sendable(f)
    ensures Scan(Encode(f)) == Meaning(EventsOf(f.op, f.payload), [], Waiting)
  {
    hide Scan, Encode, EventsOf;
    FrameStep(f, []);
    NothingMeans();
    assert Encode(f) + [] == Encode(f);
    assert EventsOf(f.op, f.payload) + [] == EventsOf(f.op, f.payload);
  }

  // The first frame of a buffer is never overrun.
  lemma NoEarlyOverrun(rest: seq<bv8>, size: nat)
    requires size <= |rest|
    ensures !Overruns(rest, size)
  {
  }

  // An empty text, and the first two bytes of a binary frame whose length takes two bytes more.
  const CUT_LENGTH: seq<bv8> := [0x81, 0x00, 0x82, 0x7e]

  lemma TextHeader(b0: bv8, b1: bv8)
    requires b0 == 0x81 && b1 == 0
    ensures b0 & 0x80 != 0 && b0 & 0x30 == 0 && b0 & 0x40 == 0 && b0 & 0xf == 1 && b1 & 0x80 == 0 && b1 & 0x7f == 0
  {
  }

  lemma LongHeader(b0: bv8, b1: bv8)
    requires b0 == 0x82 && b1 == 0x7e
    ensures b0 & 0x80 != 0 && b0 & 0x30 == 0 && b0 & 0x40 == 0 && b1 & 0x7f == 126
  {
  }

  lemma EmptyText(s: seq<bv8>)
    requires |s| >= 2 && s[0] == 0x81 && s[1] == 0
    ensures Decode(s, 0) == Message(Text, [], 2)
  {
    hide FromByte, Unmask;
    TextHeader(s[0], s[1]);
    assert FromByte(0) == 0 by { NoBits(); }
    assert Unmask(s[2..2], 0) == [];
    assert Decode(s, 0) == DecodeLength(s, 1, false, 0, 2);
  }

  lemma NoBits()
    ensures FromByte(0) == 0
  {
  }

  // The decoder takes the text and then goes beyond the end of the buffer.
  lemma PastEndWitness()
    ensures Decode(CUT_LENGTH, 0) == Message(Text, [], 2) && Decode(CUT_LENGTH, 2) == PastEnd
  {
    hide Decode;
    EmptyText(CUT_LENGTH);
    LongHeader(CUT_LENGTH[2], CUT_LENGTH[3]);
    PastEndExactly(CUT_LENGTH, 2);
  }

  // In one read the decoder goes beyond the end of its buffer, in two it hands on the text and waits.
  lemma CutMatters()
    ensures Reads([CUT_LENGTH]).Overrun?
    ensures Reads([CUT_LENGTH[..2], CUT_LENGTH[2..]]) == Input([GotText([])], CUT_LENGTH[2..], false)
  {
    hide Decode, Scan, Overruns, EventsOf;
    var first, second := CUT_LENGTH[..2], CUT_LENGTH[2..];
    CutMeans();
    assert [] + CUT_LENGTH == CUT_LENGTH && [] + first == first && [] + second == second;
    assert [CUT_LENGTH][..0] == [] && [first, second][..1] == [first] && [first][..0] == [];
    assert [GotText([])] + [] == [GotText([])];
  }

  lemma CutMeans()
    ensures var first, second := CUT_LENGTH[..2], CUT_LENGTH[2..];
      && Scan(CUT_LENGTH) == Meaning([GotText([])], second, Waiting) && Overruns(second, 4)
      && Scan(first) == Meaning([GotText([])], [], Waiting) && !Overruns([], 2)
      && Scan(second) == Meaning([], second, Waiting) && !Overruns(second, 2)
  {
    hide Decode, Scan;
    var first, second := CUT_LENGTH[..2], CUT_LENGTH[2..];
    EmptyText(CUT_LENGTH);
    EmptyText(first);
    TextHeader(first[0], first[1]);
    LongHeader(second[0], second[1]);
    LengthComes(second);
    ScanStep(CUT_LENGTH);
    ScanStep(first);
    ScanStep(second);
    NothingMeans();
    assert first[2..] == [];
    assert EventsOf(Text, []) == [GotText([])];
    assert [GotText([])] + [] == [GotText([])];
  }

  lemma LengthComes(s: seq<bv8>)
    requires |s| == 2 && s[0] & 0x80 != 0 && s[0] & 0x30 == 0 && s[1] & 0x7f == 126
    ensures Decode(s, 0) == NoMessage
  {
  }
}
