/** Hixie WebSocket input of Connection.cpp: frames cut out of a byte stream that arrives in any pieces. */
module Hixie {
  import opened Sequences

  const MAX_MESSAGE_SIZE: nat := 16384

  // ---------- What a stream means ----------

  // A message is handed on as a C string: it ends at its first zero byte.
  function CString(s: seq<bv8>): seq<bv8> {
    s[..Find(s, 0)]
  }

  // What is left when no more frames can be cut out: an unfinished frame, or one that does not start with 0.
  datatype End = Tail(rest: seq<bv8>) | Bad

  datatype Outcome = Outcome(messages: seq<seq<bv8>>, end: End)

  // Frames run from a byte 0x00 to the first byte 0xff after it.
  function Scan(s: seq<bv8>): Outcome
    decreases |s|
  {
    if s == [] then Outcome([], Tail([]))
    else if s[0] != 0 then Outcome([], Bad)
    else
      var end := Find(s[1..], 0xff) + 1;
      if end >= |s| then Outcome([], Tail(s))
      else
        var o := Scan(s[end + 1..]);
        Outcome([CString(s[1..end])] + o.messages, o.end)
  }

  lemma ScanEnds(s: seq<bv8>)
    ensures s != [] && s[0] != 0 ==> Scan(s) == Outcome([], Bad)
    ensures s == [] ==> Scan(s) == Outcome([], Tail(s))
  {
  }

  lemma ScanFrame(s: seq<bv8>)
    requires s != [] && s[0] == 0
    ensures var e := Find(s[1..], 0xff) + 1;
      Scan(s) == if e >= |s| then Outcome([], Tail(s))
        else Outcome([CString(s[1..e])] + Scan(s[e + 1..]).messages, Scan(s[e + 1..]).end)
  {
    hide Find, CString;
  }

  lemma Slices(a: seq<bv8>, b: seq<bv8>, e: nat)
    requires 1 <= e < |a|
    ensures (a + b)[0] == a[0] && (a + b)[1..] == a[1..] + b && (a + b)[1..e] == a[1..e] && (a + b)[e + 1..] == a[e + 1..] + b
  {
  }

  lemma {:induction false} FindPrefix(a: seq<bv8>, b: seq<bv8>, x: bv8)
    requires Find(a, x) < |a|
    ensures Find(a + b, x) == Find(a, x)
  {
    if a[0] != x {
      assert (a + b)[1..] == a[1..] + b;
      FindPrefix(a[1..], b, x);
    }
  }

  // More bytes only add to what a stream means: messages stay, an unfinished frame goes on, and a bad frame
  // stays bad.
  lemma {:induction false} ScanMore(a: seq<bv8>, b: seq<bv8>)
    ensures var o := Scan(a);
      Scan(a + b) == match o.end
        case Bad => o
        case Tail(t) => Outcome(o.messages + Scan(t + b).messages, Scan(t + b).end)
    decreases |a|
  {
    hide Scan, CString, Find;
    assert [] + Scan(a + b).messages == Scan(a + b).messages;
    ScanEnds(a);
    if a != [] && a[0] != 0 {
      ScanEnds(a + b);
    } else if a != [] {
      ScanFrame(a);
      var e := Find(a[1..], 0xff) + 1;
      if e < |a| {
        FindPrefix(a[1..], b, 0xff);
        Slices(a, b, e);
        ScanFrame(a + b);
        ScanMore(a[e + 1..], b);
        var first, o := [CString(a[1..e])], Scan(a[e + 1..]);
        if o.end.Tail? {
          Concat(first, o.messages, Scan(o.end.rest + b).messages);
        }
      }
    }
  }

  // The limit is on what a read leaves unfinished, so a frame with its end mark may be one byte longer.
  predicate ShortFrames(s: seq<bv8>)
    decreases |s|
  {
    s == [] || s[0] != 0
    || var end := Find(s[1..], 0xff) + 1;
       if end >= |s| then |s| <= MAX_MESSAGE_SIZE else end + 1 <= MAX_MESSAGE_SIZE + 1 && ShortFrames(s[end + 1..])
  }

  // A read that ends here leaves more than the limit.
  predicate TooLong(a: seq<bv8>) {
    Scan(a).end.Tail? && |Scan(a).end.rest| > MAX_MESSAGE_SIZE
  }

  lemma {:induction false} ShortTails(a: seq<bv8>, b: seq<bv8>)
    requires ShortFrames(a + b)
    ensures !TooLong(a)
    decreases |a|
  {
    if a != [] && a[0] == 0 {
      var e := Find(a[1..], 0xff) + 1;
      assert (a + b)[0] == a[0] && (a + b)[1..] == a[1..] + b;
      if e < |a| {
        FindPrefix(a[1..], b, 0xff);
        Slices(a, b, e);
        ShortTails(a[e + 1..], b);
      } else {
        FindBeyond(a[1..], b, 0xff);
      }
    }
  }

  // A part of a stream that ends behind its first frame.
  lemma ScanBehind(s: seq<bv8>, k: nat)
    requires s != [] && s[0] == 0
    requires var e := Find(s[1..], 0xff) + 1; e < |s| && k <= |s| - e - 1
    ensures var e := Find(s[1..], 0xff) + 1;
      var o := Scan(s[e + 1..][..k]);
      Scan(s[..e + 1 + k]) == Outcome([CString(s[1..e])] + o.messages, o.end)
  {
    hide CString, Scan;
    var e := Find(s[1..], 0xff) + 1;
    var first, rest := s[..e + 1], s[e + 1..][..k];
    assert s[..e + 1 + k] == first + rest;
    assert first[1..][..e - 1] == s[1..][..e - 1];
    FindIs(first[1..], 0xff, e - 1);
    FindPrefix(first[1..], rest, 0xff);
    Slices(first, rest, e);
    assert first[1..e] == s[1..e] && first[e + 1..] + rest == rest;
    ScanFrame(first + rest);
  }

  lemma NoEndMark(s: seq<bv8>, e: nat)
    requires s != [] && s[0] == 0 && e == Find(s[1..], 0xff) + 1 && e < |s|
    ensures Scan(s[..e]) == Outcome([], Tail(s[..e]))
  {
    hide CString, Scan;
    assert s[..e][1..] == s[1..][..e - 1];
    FindIs(s[..e][1..], 0xff, e - 1);
    ScanFrame(s[..e]);
  }

  // A longer frame is too long for a read that ends right before its end mark, and so is a tail by itself. In
  // the first case the whole stream holds a message more.
  lemma {:induction false} LongTail(s: seq<bv8>) returns (k: nat)
    requires !ShortFrames(s)
    ensures k <= |s| && TooLong(s[..k])
    ensures Scan(s).end.Tail? || |Scan(s[..k]).messages| < |Scan(s).messages|
    decreases |s|
  {
    hide CString, Scan, Find;
    var e := Find(s[1..], 0xff) + 1;
    ScanFrame(s);
    if e >= |s| {
      k := |s|;
      assert s[..k] == s;
    } else if e > MAX_MESSAGE_SIZE {
      k := e;
      NoEndMark(s, e);
    } else {
      var more := LongTail(s[e + 1..]);
      k := e + 1 + more;
      ScanBehind(s, more);
    }
  }

  lemma {:induction false} FindBeyond(a: seq<bv8>, b: seq<bv8>, x: bv8)
    requires Find(a, x) == |a|
    ensures Find(a + b, x) >= |a|
  {
    if a != [] {
      assert (a + b)[1..] == a[1..] + b;
      FindBeyond(a[1..], b, x);
    }
  }

  // ---------- The connection ----------

  class HixieInput {
    var inBuf: seq<bv8>
    var closed: bool
    var delivered: seq<seq<bv8>>

    constructor ()
      ensures inBuf == [] && !closed && delivered == []
    {
      inBuf, closed, delivered := [], false, [];
    }

    // The search for the end of a message; 0 when it is not there.
    method FindEnd(messageStart: nat) returns (endOfMessage: nat)
      requires messageStart < |inBuf|
      ensures var f := Find(inBuf[messageStart + 1..], 0xff);
        endOfMessage == if f < |inBuf| - messageStart - 1 then messageStart + 1 + f else 0
    {
      var i := messageStart + 1;
      endOfMessage := 0;
      while i < |inBuf|
        invariant messageStart + 1 <= i <= |inBuf| && 0xff !in inBuf[messageStart + 1..i]
      {
        if inBuf[i] == 0xff {
          endOfMessage := i;
          break;
        }
        i := i + 1;
      }
      ghost var rest := inBuf[messageStart + 1..];
      assert rest[..i - messageStart - 1] == inBuf[messageStart + 1..i];
      FindIs(rest, 0xff, i - messageStart - 1);
    }

    // What a callee sees of a pointer into the buffer: the bytes up to the first zero.
    method ReadCString(start: nat, end: nat) returns (text: seq<bv8>)
      requires start <= end < |inBuf| && inBuf[end] == 0
      ensures text == CString(inBuf[start..end])
    {
      var i := start;
      while inBuf[i] != 0
        invariant start <= i <= end && 0 !in inBuf[start..i]
        decreases end - i
      {
        i := i + 1;
      }
      text := inBuf[start..i];
      ghost var message := inBuf[start..end];
      assert message[..i - start] == text;
      FindIs(message, 0, i - start);
    }

    // One message: its end mark is overwritten, and it is handed on.
    method Deliver(messageStart: nat, endOfMessage: nat)
      requires messageStart < endOfMessage < |inBuf|
      modifies this`inBuf, this`delivered
      ensures delivered == old(delivered) + [CString(old(inBuf)[messageStart + 1..endOfMessage])]
      ensures |inBuf| == |old(inBuf)| && inBuf[endOfMessage + 1..] == old(inBuf)[endOfMessage + 1..]
    {
      ghost var message := inBuf[messageStart + 1..endOfMessage];
      inBuf := inBuf[endOfMessage := 0];
      assert inBuf[messageStart + 1..endOfMessage] == message;
      var text := ReadCString(messageStart + 1, endOfMessage);
      delivered := delivered + [text];
    }

    // One turn of the loop: where the next frame starts, or the same place when there is no whole frame, and
    // the message handed on, if there is one.
    method CutFrame(messageStart: nat) returns (next: nat, ghost cut: seq<seq<bv8>>)
      requires messageStart < |inBuf| && !closed
      modifies this
      ensures messageStart <= next <= |inBuf| == |old(inBuf)| && delivered == old(delivered) + cut
      ensures closed <==> old(inBuf)[messageStart] != 0
      ensures closed || next == messageStart ==> cut == [] && inBuf == old(inBuf)
      ensures !closed && next == messageStart ==> Scan(inBuf[next..]) == Outcome([], Tail(inBuf[next..]))
      ensures !closed && next > messageStart ==>
        Scan(old(inBuf)[messageStart..]) == Outcome(cut + Scan(inBuf[next..]).messages, Scan(inBuf[next..]).end)
    {
      hide CString, Scan;
      ghost var rest := inBuf[messageStart..];
      next, cut := messageStart, [];
      assert delivered + [] == delivered;
      if inBuf[messageStart] != 0 {
        closed := true;
        return;
      }
      var endOfMessage := FindEnd(messageStart);
      ScanFrame(rest);
      assert inBuf[messageStart + 1..] == rest[1..];
      if endOfMessage == 0 {
        return;
      }
      ghost var e := endOfMessage - messageStart;
      assert inBuf[messageStart + 1..endOfMessage] == rest[1..e] && inBuf[endOfMessage + 1..] == rest[e + 1..];
      Deliver(messageStart, endOfMessage);
      next, cut := endOfMessage + 1, [CString(rest[1..e])];
    }

    // handleHixieWebSocket
    method HandleHixieWebSocket()
      requires !closed
      modifies this
      ensures var o := Scan(old(inBuf));
        && delivered == old(delivered) + o.messages
        && (o.end.Bad? ==> closed)
        && (o.end.Tail? ==> inBuf == o.end.rest && (closed <==> |inBuf| > MAX_MESSAGE_SIZE))
    {
      hide Scan;
      ScanEnds(inBuf);
      var messageStart := 0;
      assert inBuf[0..] == inBuf;
      while messageStart < |inBuf|
        invariant messageStart <= |inBuf| && !closed
        invariant delivered + Scan(inBuf[messageStart..]).messages == old(delivered) + Scan(old(inBuf)).messages
        invariant Scan(inBuf[messageStart..]).end == Scan(old(inBuf)).end
        decreases |inBuf| - messageStart
      {
        ScanEnds(inBuf[messageStart..]);
        ghost var before := delivered;
        var next, cut := CutFrame(messageStart);
        if closed {
          assert delivered + [] == delivered;
          return;
        }
        if next == messageStart {
          break;
        }
        Concat(before, cut, Scan(inBuf[next..]).messages);
        messageStart := next;
      }
      ScanEnds(inBuf[messageStart..]);
      assert delivered + [] == delivered;
      inBuf := inBuf[messageStart..];
      if |inBuf| > MAX_MESSAGE_SIZE {
        closed := true;
      }
    }

    // handleDataReadyForRead: a closed connection reads no more.
    method Receive(bytes: seq<bv8>)
      modifies this
      ensures old(closed) ==> closed && delivered == old(delivered) && inBuf == old(inBuf)
      ensures !old(closed) ==> var o := Scan(old(inBuf) + bytes);
        && delivered == old(delivered) + o.messages
        && (o.end.Bad? ==> closed)
        && (o.end.Tail? ==> inBuf == o.end.rest && (closed <==> |inBuf| > MAX_MESSAGE_SIZE))
    {
      if closed {
        return;
      }
      inBuf := inBuf + bytes;
      HandleHixieWebSocket();
    }
  }

  // ---------- Any cut into reads ----------

  // The connection after some reads: the messages handed on, what is kept, and whether it is closed.
  datatype Input = Input(messages: seq<seq<bv8>>, rest: seq<bv8>, closed: bool)

  function Read(c: Input, bytes: seq<bv8>): Input {
    if c.closed then c
    else
      var o := Scan(c.rest + bytes);
      match o.end
      case Bad => Input(c.messages + o.messages, [], true)
      case Tail(rest) => Input(c.messages + o.messages, rest, |rest| > MAX_MESSAGE_SIZE)
  }

  function Reads(pieces: seq<seq<bv8>>): Input {
    if pieces == [] then Input([], [], false) else Read(Reads(pieces[..|pieces| - 1]), pieces[|pieces| - 1])
  }

  lemma ReadsNext(pieces: seq<seq<bv8>>, i: nat)
    requires i < |pieces|
    ensures Reads(pieces[..i + 1]) == Read(Reads(pieces[..i]), pieces[i])
  {
    assert pieces[..i + 1][..i] == pieces[..i];
  }

  method ReceiveAll(pieces: seq<seq<bv8>>) returns (c: HixieInput)
    ensures var r := Reads(pieces);
      c.delivered == r.messages && c.closed == r.closed && (!c.closed ==> c.inBuf == r.rest)
  {
    hide Scan, Reads;
    c := new HixieInput();
    assert Reads(pieces[..0]) == Input([], [], false) by { Nothing(); }
    for i := 0 to |pieces|
      invariant fresh(c)
      invariant var r := Reads(pieces[..i]);
        c.delivered == r.messages && c.closed == r.closed && (!c.closed ==> c.inBuf == r.rest)
    {
      ReadsNext(pieces, i);
      c.Receive(pieces[i]);
    }
    assert pieces[..|pieces|] == pieces;
  }

  lemma Nothing()
    ensures Reads([]) == Input([], [], false) && forall r: seq<seq<bv8>> :: r[..0] == []
  {
  }

  // What the stream means comes out: the same messages in the same order, only the unfinished frame is kept,
  // and the connection is closed just when there is a malformed frame.
  predicate Faithful(r: Input, o: Outcome) {
    r.messages == o.messages && (r.closed <==> o.end.Bad?) && (o.end.Tail? ==> r.rest == o.end.rest)
  }

  // However a stream is cut: an open connection has handed on all messages so far and keeps the unfinished
  // frame, a closed one has handed on the first of them, and it misses none unless some read left too much.
  lemma {:induction false} ReadsScan(pieces: seq<seq<bv8>>)
    ensures var r, o := Reads(pieces), Scan(Joined(pieces));
      && (!r.closed ==> o == Outcome(r.messages, Tail(r.rest)) && |r.rest| <= MAX_MESSAGE_SIZE)
      && r.messages <= o.messages
      && (Faithful(r, o) || exists j | 0 <= j <= |pieces| :: TooLong(Joined(pieces[..j])))
  {
    hide Scan;
    if pieces == [] {
      ScanEnds([]);
    } else {
      var n := |pieces| - 1;
      var before := pieces[..n];
      ReadsScan(before);
      ScanMore(Joined(before), pieces[n]);
      assert pieces[..n + 1] == pieces;
      if exists j | 0 <= j <= n :: TooLong(Joined(before[..j])) {
        var j :| 0 <= j <= n && TooLong(Joined(before[..j]));
        assert before[..j] == pieces[..j];
      }
    }
  }

  lemma {:induction false} Frozen(pieces: seq<seq<bv8>>, i: nat)
    requires i <= |pieces| && Reads(pieces[..i]).closed
    ensures Reads(pieces) == Reads(pieces[..i])
  {
    if i == |pieces| {
      assert pieces[..i] == pieces;
    } else {
      var before := pieces[..|pieces| - 1];
      assert before[..i] == pieces[..i];
      Frozen(before, i);
    }
  }

  // Any cut of a stream of short frames is as good as any other.
  lemma ShortFramesFaithful(pieces: seq<seq<bv8>>)
    requires ShortFrames(Joined(pieces))
    ensures Faithful(Reads(pieces), Scan(Joined(pieces)))
  {
    hide Scan, ShortFrames, TooLong, Faithful;
    ReadsScan(pieces);
    forall j | 0 <= j <= |pieces| ensures !TooLong(Joined(pieces[..j])) {
      var rest := JoinedPrefix(pieces, j);
      ShortTails(Joined(pieces[..j]), rest);
    }
  }

  // One byte at a time.
  function Singles(s: seq<bv8>): (pieces: seq<seq<bv8>>)
    ensures |pieces| == |s|
  {
    seq(|s|, i requires 0 <= i < |s| => [s[i]])
  }

  lemma {:induction false} SinglesJoin(s: seq<bv8>, k: nat)
    requires k <= |s|
    ensures Joined(Singles(s)[..k]) == s[..k]
  {
    if k > 0 {
      SinglesJoin(s, k - 1);
      JoinedNext(Singles(s), k - 1);
      assert s[..k] == s[..k - 1] + [s[k - 1]];
    }
  }

  // A longer frame, read byte by byte, closes the connection too early.
  lemma LongFrameCloses(s: seq<bv8>)
    requires !ShortFrames(s)
    ensures Joined(Singles(s)) == s && Reads(Singles(s)).closed && !Faithful(Reads(Singles(s)), Scan(s))
  {
    hide Scan, ShortFrames, Reads;
    var pieces := Singles(s);
    var k := LongTail(s);
    SinglesJoin(s, k);
    SinglesJoin(s, |s|);
    assert pieces[..|s|] == pieces && s[..|s|] == s;
    ReadsScan(pieces[..k]);
    Frozen(pieces, k);
  }

  // A stream means the same however it is cut into reads if and only if no frame in front of the first malformed
  // one is longer than 16385 bytes with both marks, and an unfinished one no longer than 16384.
  lemma CutsExactly(s: seq<bv8>)
    ensures ShortFrames(s) <==> forall pieces | Joined(pieces) == s :: Faithful(Reads(pieces), Scan(s))
  {
    hide Scan, ShortFrames, Reads, Faithful;
    if ShortFrames(s) {
      forall pieces | Joined(pieces) == s ensures Faithful(Reads(pieces), Scan(s)) {
        ShortFramesFaithful(pieces);
      }
    } else {
      LongFrameCloses(s);
    }
  }

  // ---------- Texts sent as frames ----------

  // A text as far as its first zero byte.
  predicate UpToZero(sent: seq<bv8>, text: seq<bv8>) {
    text <= sent && 0 !in text && (|text| < |sent| ==> sent[|text|] == 0)
  }

  lemma GivenText(sent: seq<bv8>, text: seq<bv8>)
    requires UpToZero(sent, text)
    ensures CString(sent) == text
  {
    assert sent[..|text|] == text;
    FindIs(sent, 0, |text|);
  }

  // What was sent, each between its marks.
  function Framed(sent: seq<seq<bv8>>): seq<bv8> {
    if sent == [] then [] else [0] + sent[0] + [0xff] + Framed(sent[1..])
  }

  // What was sent can be told apart, and these are the texts in it.
  ghost predicate TextsOf(sent: seq<seq<bv8>>, texts: seq<seq<bv8>>) {
    |texts| == |sent| && forall i | 0 <= i < |sent| :: 0xff !in sent[i] && UpToZero(sent[i], texts[i])
  }

  lemma FrameShape(text: seq<bv8>, more: seq<bv8>)
    ensures var s, rest := [0] + text + [0xff] + more, text + ([0xff] + more);
      && |s| > |text| + 1 && s[0] == 0 && s[1..] == rest && rest[..|text|] == text && rest[|text|] == 0xff
      && s[1..|text| + 1] == text && s[|text| + 2..] == more
  {
  }

  lemma FirstFramed(sent: seq<seq<bv8>>, tail: seq<bv8>)
    requires sent != [] && 0xff !in sent[0]
    ensures var s, e := Framed(sent) + tail, |sent[0]| + 1;
      && s != [] && s[0] == 0 && Find(s[1..], 0xff) + 1 == e < |s|
      && s[1..e] == sent[0] && s[e + 1..] == Framed(sent[1..]) + tail
  {
    hide Find, Framed;
    var text, more := sent[0], Framed(sent[1..]) + tail;
    FrameShape(text, more);
    assert Framed(sent) == [0] + text + [0xff] + Framed(sent[1..]) by { FramedStep(sent); }
    Concat([0] + text + [0xff], Framed(sent[1..]), tail);
    FindIs(text + ([0xff] + more), 0xff, |text|);
  }

  lemma FramedStep(sent: seq<seq<bv8>>)
    requires sent != []
    ensures Framed(sent) == [0] + sent[0] + [0xff] + Framed(sent[1..])
  {
  }

  // Behind the last frame comes nothing, the beginning of a frame, or something that begins no frame.
  ghost predicate NoFrame(tail: seq<bv8>) {
    tail == [] || tail[0] != 0 || 0xff !in tail[1..]
  }

  predicate BeginsNone(tail: seq<bv8>) {
    tail != [] && tail[0] != 0
  }

  lemma {:induction false} FramedMeans(sent: seq<seq<bv8>>, texts: seq<seq<bv8>>, tail: seq<bv8>)
    requires TextsOf(sent, texts) && NoFrame(tail)
    ensures Scan(Framed(sent) + tail) == Outcome(texts, if BeginsNone(tail) then Bad else Tail(tail))
    ensures ShortFrames(Framed(sent) + tail) <==>
      ((BeginsNone(tail) || |tail| <= MAX_MESSAGE_SIZE) && forall i | 0 <= i < |sent| :: |sent[i]| + 2 <= MAX_MESSAGE_SIZE + 1)
  {
    hide Scan, CString, UpToZero;
    if sent == [] {
      assert Framed(sent) + tail == tail;
      ScanEnds(tail);
      if tail != [] && tail[0] == 0 {
        NotFound(tail[1..], 0xff);
        ScanFrame(tail);
      }
    } else {
      FirstFramed(sent, tail);
      ScanFrame(Framed(sent) + tail);
      GivenText(sent[0], texts[0]);
      FramedMeans(sent[1..], texts[1..], tail);
      assert [texts[0]] + texts[1..] == texts;
      OrFirst(sent);
    }
  }

  lemma OrFirst(sent: seq<seq<bv8>>)
    requires sent != []
    ensures (forall i | 0 <= i < |sent| :: |sent[i]| + 2 <= MAX_MESSAGE_SIZE + 1) <==>
      (|sent[0]| + 2 <= MAX_MESSAGE_SIZE + 1 && forall i | 0 <= i < |sent[1..]| :: |sent[1..][i]| + 2 <= MAX_MESSAGE_SIZE + 1)
  {
    assert sent == [sent[0]] + sent[1..];
  }

  lemma NotFound(s: seq<bv8>, x: bv8)
    requires x !in s
    ensures Find(s, x) == |s|
  {
    assert s[..|s|] == s;
    FindIs(s, x, |s|);
  }

  // The connection has handed on these texts, and keeps the beginning of a frame; or it is closed if what follows
  // begins none.
  predicate HandsOn(r: Input, texts: seq<seq<bv8>>, tail: seq<bv8>) {
    r.messages == texts && (r.closed <==> BeginsNone(tail)) && (!r.closed ==> r.rest == tail)
  }

  // However the bytes are cut into reads, just the texts sent are handed on, each up to its first zero byte, if and
  // only if no frame is longer than 16385 bytes with its marks, and one that is begun no longer than 16384.
  lemma TextsExactly(sent: seq<seq<bv8>>, texts: seq<seq<bv8>>, tail: seq<bv8>)
    requires TextsOf(sent, texts) && NoFrame(tail)
    ensures (forall pieces | Joined(pieces) == Framed(sent) + tail :: HandsOn(Reads(pieces), texts, tail)) <==>
      ((BeginsNone(tail) || |tail| <= 16384) && forall i | 0 <= i < |sent| :: |sent[i]| + 2 <= 16385)
  {
    hide Scan, ShortFrames, Reads, TextsOf, NoFrame;
    var s := Framed(sent) + tail;
    FramedMeans(sent, texts, tail);
    CutsExactly(s);
    forall pieces | Joined(pieces) == s ensures HandsOn(Reads(pieces), texts, tail) <==> Faithful(Reads(pieces), Scan(s)) {
    }
  }
}
