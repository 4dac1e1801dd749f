/** Replies as a page handler makes them, with the calls of the response writer, and what the peer reads of them. */
module ServedReplies {
  import opened ChunkedCoding
  import opened ResponseWriter
  import opened Sequences

  // One reply: what `begin` is given, the header calls, the payload calls, and the argument of `finish`.
  datatype Field = Field(name: string, value: string)
  datatype Reply = Reply(common: seq<string>, encoding: Encoding, fields: seq<Field>, payloads: seq<string>, keepOpen: bool)

  function FieldCalls(fields: seq<Field>): seq<Call> {
    if fields == [] then [] else [Header(fields[0].name, fields[0].value)] + FieldCalls(fields[1..])
  }

  function PayloadCalls(payloads: seq<string>): seq<Call> {
    if payloads == [] then [] else [Payload(payloads[0])] + PayloadCalls(payloads[1..])
  }

  function CallsOf(r: Reply): seq<Call> {
    [Respond, Begin(r.common, r.encoding)] + (FieldCalls(r.fields) + (PayloadCalls(r.payloads) + [Finish(r.keepOpen)]))
  }

  function AllCalls(rs: seq<Reply>): seq<Call> {
    if rs == [] then [] else CallsOf(rs[0]) + AllCalls(rs[1..])
  }

  // ---------- What the peer is to read ----------

  function FieldLines(fields: seq<Field>): seq<string> {
    if fields == [] then [] else [fields[0].name + ": " + fields[0].value] + FieldLines(fields[1..])
  }

  // The lines of its head: what every response has, whether it is chunked, and the headers in the order of the calls.
  function HeadLines(r: Reply): seq<string> {
    r.common + (if r.encoding.Chunked? then ["Transfer-encoding: chunked"] else []) + FieldLines(r.fields)
  }

  // The replies up to the first that does not keep the connection open.
  function Answered(rs: seq<Reply>): seq<Reply> {
    if rs == [] then [] else if !rs[0].keepOpen then [rs[0]] else [rs[0]] + Answered(rs[1..])
  }

  function ReadAs(rs: seq<Reply>): seq<Content> {
    seq(|rs|, i requires 0 <= i < |rs| => Content(HeadLines(rs[i]), Joined(rs[i].payloads)))
  }

  // How the peer finds the end of each body.
  function FramingsOf(rs: seq<Reply>): seq<Framing> {
    seq(|rs|, i requires 0 <= i < |rs| => if rs[i].encoding.Chunked? then ByChunks else BySize(|Joined(rs[i].payloads)|))
  }

  // ---------- The calls of a reply ----------

  // Calls made one after the other.
  function AfterCalls(log: Log, calls: seq<Call>): Log
    decreases |calls|
  {
    if calls == [] then log else AfterCalls(Track(log, calls[0]), calls[1..])
  }

  lemma {:induction false} AfterConcat(log: Log, a: seq<Call>, b: seq<Call>)
    ensures AfterCalls(log, a + b) == AfterCalls(AfterCalls(log, a), b)
    decreases |a|
  {
    hide Track;
    if a == [] {
      assert a + b == b;
    } else {
      assert (a + b)[0] == a[0] && (a + b)[1..] == a[1..] + b;
      AfterConcat(Track(log, a[0]), a[1..], b);
    }
  }

  lemma {:induction false} TrackAfter(calls: seq<Call>)
    ensures TrackAll(calls) == AfterCalls(TrackAll([]), calls)
  {
    hide Track;
    if calls != [] {
      var n := |calls| - 1;
      TrackAfter(calls[..n]);
      assert calls == calls[..n] + [calls[n]];
      AfterConcat(TrackAll([]), calls[..n], [calls[n]]);
      OneCall(TrackAll(calls[..n]), calls[n]);
    }
  }

  lemma OneCall(log: Log, call: Call)
    ensures AfterCalls(log, [call]) == Track(log, call)
  {
    hide Track;
  }

  lemma FirstCall(log: Log, call: Call, more: seq<Call>)
    ensures AfterCalls(log, [call] + more) == AfterCalls(Track(log, call), more)
  {
    hide Track;
    AfterConcat(log, [call], more);
    OneCall(log, call);
  }

  lemma {:induction false} FieldsAdded(log: Log, fields: seq<Field>)
    requires log.phase.InHead?
    ensures AfterCalls(log, FieldCalls(fields)) == log.(phase := log.phase.(head := log.phase.head + FieldLines(fields)))
    decreases |fields|
  {
    if fields == [] {
      assert log.phase.head + [] == log.phase.head;
    } else {
      var call, line := Header(fields[0].name, fields[0].value), fields[0].name + ": " + fields[0].value;
      FirstCall(log, call, FieldCalls(fields[1..]));
      FieldsAdded(Track(log, call), fields[1..]);
      Concat(log.phase.head, [line], FieldLines(fields[1..]));
    }
  }

  lemma {:induction false} PayloadsAdded(log: Log, payloads: seq<string>)
    requires log.phase.InBody?
    ensures var r := log.phase.response;
      AfterCalls(log, PayloadCalls(payloads)) == log.(phase := InBody(r.(payloads := r.payloads + payloads)))
    decreases |payloads|
  {
    var r := log.phase.response;
    if payloads == [] {
      assert r.payloads + [] == r.payloads;
    } else {
      FirstCall(log, Payload(payloads[0]), PayloadCalls(payloads[1..]));
      PayloadsAdded(Track(log, Payload(payloads[0])), payloads[1..]);
      assert payloads == [payloads[0]] + payloads[1..];
      Concat(r.payloads, [payloads[0]], payloads[1..]);
    }
  }

  // The response a reply comes to.
  function ResponseOf(r: Reply): Response {
    Response(HeadLines(r), r.encoding, r.payloads)
  }

  lemma BodyMade(log: Log, r: Reply)
    requires log.phase == InHead(HeadLines(r), r.encoding)
    ensures AfterCalls(log, PayloadCalls(r.payloads) + [Finish(r.keepOpen)]) == Finished(log, ResponseOf(r), r.keepOpen)
  {
    hide HeadLines;
    AfterConcat(log, PayloadCalls(r.payloads), [Finish(r.keepOpen)]);
    if r.payloads == [] {
      OneCall(log, Finish(r.keepOpen));
    } else {
      var first := Track(log, Payload(r.payloads[0]));
      FirstCall(log, Payload(r.payloads[0]), PayloadCalls(r.payloads[1..]));
      PayloadsAdded(first, r.payloads[1..]);
      assert r.payloads == [r.payloads[0]] + r.payloads[1..];
      OneCall(first.(phase := InBody(ResponseOf(r))), Finish(r.keepOpen));
    }
  }

  lemma ReplyMade(log: Log, r: Reply)
    requires log.phase.NoResponse?
    ensures AfterCalls(log, CallsOf(r)) == Finished(log, ResponseOf(r), r.keepOpen)
  {
    hide FieldCalls, PayloadCalls, FieldLines;
    var fields, rest := FieldCalls(r.fields), PayloadCalls(r.payloads) + [Finish(r.keepOpen)];
    AfterConcat(log, [Respond, Begin(r.common, r.encoding)], fields + rest);
    assert [Respond, Begin(r.common, r.encoding)] == [Respond] + [Begin(r.common, r.encoding)];
    FirstCall(log, Respond, [Begin(r.common, r.encoding)]);
    OneCall(Track(log, Respond), Begin(r.common, r.encoding));
    var begun := Track(Track(log, Respond), Begin(r.common, r.encoding));
    AfterConcat(begun, fields, rest);
    FieldsAdded(begun, r.fields);
    assert r.common + [] == r.common;
    BodyMade(AfterCalls(begun, fields), r);
  }

  function Responses(rs: seq<Reply>): seq<Response> {
    seq(|rs|, i requires 0 <= i < |rs| => ResponseOf(rs[i]))
  }

  lemma NoResponses()
    ensures Responses([]) == []
  {
  }

  lemma FirstResponse(r: Reply, more: seq<Reply>)
    ensures Responses([r] + more) == [ResponseOf(r)] + Responses(more)
  {
    hide ResponseOf;
  }

  lemma {:induction false} RepliesMade(log: Log, rs: seq<Reply>)
    requires log.phase.NoResponse?
    ensures AfterCalls(log, AllCalls(rs)).phase.NoResponse?
    ensures AfterCalls(log, AllCalls(rs)).done == log.done + if log.closing then [] else Responses(Answered(rs))
    decreases |rs|
  {
    hide CallsOf, ResponseOf, Track, Responses;
    if rs == [] {
      NoResponses();
      assert log.done + [] == log.done;
    } else {
      AfterConcat(log, CallsOf(rs[0]), AllCalls(rs[1..]));
      ReplyMade(log, rs[0]);
      RepliesMade(Finished(log, ResponseOf(rs[0]), rs[0].keepOpen), rs[1..]);
      var more := if rs[0].keepOpen then Answered(rs[1..]) else [];
      assert Answered(rs) == [rs[0]] + more;
      NoResponses();
      FirstResponse(rs[0], more);
      Concat(log.done, [ResponseOf(rs[0])], Responses(more));
    }
  }

  // ---------- What is read ----------

  predicate CleanReply(r: Reply) {
    CleanHead(r.common) && forall i | 0 <= i < |r.fields| :: Clean(r.fields[i].name) && Clean(r.fields[i].value)
  }

  lemma {:induction false} FieldsClean(fields: seq<Field>)
    requires forall i | 0 <= i < |fields| :: Clean(fields[i].name) && Clean(fields[i].value)
    ensures CleanHead(FieldLines(fields))
  {
    if fields != [] {
      FieldsClean(fields[1..]);
      var line := fields[0].name + ": " + fields[0].value;
      assert |line| >= 2 && Clean(line);
    }
  }

  lemma HeadClean(r: Reply)
    requires CleanReply(r)
    ensures CleanHead(HeadLines(r))
  {
    FieldsClean(r.fields);
  }

  lemma {:induction false} AnsweredAmong(rs: seq<Reply>)
    ensures forall r | r in Answered(rs) :: r in rs
  {
    if rs != [] {
      AnsweredAmong(rs[1..]);
    }
  }

  lemma RepliesWritten(rs: seq<Reply>)
    ensures Written(TrackAll(AllCalls(rs))) == RenderAll(Responses(Answered(rs)))
  {
    hide AllCalls, RenderAll, Answered, Responses, AfterCalls;
    var made := Responses(Answered(rs));
    TrackAfter(AllCalls(rs));
    RepliesMade(TrackAll([]), rs);
    assert [] + made == made && RenderAll(made) + [] == RenderAll(made);
  }

  lemma ResponsesClean(rs: seq<Reply>)
    requires forall r | r in rs :: CleanReply(r)
    ensures forall x | x in Responses(rs) :: CleanHead(x.head)
  {
    hide CleanReply, CleanHead, HeadLines;
    forall x | x in Responses(rs) ensures CleanHead(x.head) {
      var i :| 0 <= i < |rs| && x == Responses(rs)[i];
      HeadClean(rs[i]);
    }
  }

  lemma SameReading(rs: seq<Reply>)
    ensures Framings(Responses(rs)) == FramingsOf(rs) && Contents(Responses(rs)) == ReadAs(rs)
  {
    hide HeadLines;
  }

  // Whatever replies a handler makes, the peer reads exactly their header lines and payloads, up to the first that
  // does not keep the connection open and nothing behind it, if and only if none that is chunked has 2^32 chunks or more.
  lemma RepliesRead(rs: seq<Reply>)
    requires forall r | r in rs :: CleanReply(r)
    ensures var read := Answered(rs);
      ParseAll(Written(TrackAll(AllCalls(rs))), FramingsOf(read)) == All(ReadAs(read), []) <==>
        forall r | r in read :: r.encoding.Chunked? ==> Chunks(r.payloads) < 0x1_0000_0000
  {
    hide AllCalls, ParseAll, RenderAll, CleanHead, CleanReply, Answered, Responses, Framings, Contents, FramingsOf, ReadAs,
      FewChunks, Written, TrackAll, Chunks;
    var read := Answered(rs);
    RepliesWritten(rs);
    AnsweredAmong(rs);
    ResponsesClean(read);
    AllParse(Responses(read));
    SameReading(read);
    SameChunks(read);
  }

  lemma SameChunks(rs: seq<Reply>)
    ensures (forall x | x in Responses(rs) :: FewChunks(x)) <==>
      forall r | r in rs :: r.encoding.Chunked? ==> Chunks(r.payloads) < 0x1_0000_0000
  {
    hide HeadLines;
    forall r | r in rs ensures ResponseOf(r) in Responses(rs) {
      var i :| 0 <= i < |rs| && r == rs[i];
      assert Responses(rs)[i] == ResponseOf(r);
    }
  }
}
