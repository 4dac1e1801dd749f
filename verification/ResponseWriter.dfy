/** The response-writer calls of Connection.cpp: one header block and one body for each finished response. */
module ResponseWriter {
  import opened ChunkedCoding
  import opened Sequences

  datatype Encoding = Raw | Chunked

  datatype Response = Response(head: seq<string>, encoding: Encoding, payloads: seq<string>)

  // What the server and a page handler may call, in any order. Respond is sendResponse, for a new request;
  // `common` holds the status line and the headers every response has.
  datatype Call =
    | Respond
    | Begin(common: seq<string>, encoding: Encoding)
    | Header(name: string, value: string)
    | Payload(data: string)
    | Finish(keepConnectionOpen: bool)

  // ---------- What the calls mean ----------

  datatype Phase = NoResponse | Awaiting | InHead(head: seq<string>, encoding: Encoding) | InBody(response: Response)

  // Once the connection is closing, nothing more reaches the peer.
  datatype Log = Log(done: seq<Response>, phase: Phase, closing: bool)

  function Finished(log: Log, r: Response, keepOpen: bool): Log {
    Log(if log.closing then log.done else log.done + [r], NoResponse, log.closing || !keepOpen)
  }

  const CHUNKED_LINE: string := "Transfer-encoding: chunked"

  // A call in the wrong state changes nothing.
  function Track(log: Log, call: Call): Log {
    match call
    case Respond => if log.phase.NoResponse? then log.(phase := Awaiting) else log
    case Begin(common, encoding) =>
      if log.phase.Awaiting?
        then log.(phase := InHead(if encoding.Chunked? then common + [CHUNKED_LINE] else common, encoding))
        else log
    case Header(name, value) =>
      if log.phase.InHead? then log.(phase := InHead(log.phase.head + [name + ": " + value], log.phase.encoding)) else log
    case Payload(data) =>
      (match log.phase
       case InHead(head, encoding) => log.(phase := InBody(Response(head, encoding, [data])))
       case InBody(r) => log.(phase := InBody(r.(payloads := r.payloads + [data])))
       case _ => log)
    case Finish(keepOpen) =>
      (match log.phase
       case InHead(head, encoding) => Finished(log, Response(head, encoding, []), keepOpen)
       case InBody(r) => Finished(log, r, keepOpen)
       case _ => log)
  }

  function TrackAll(calls: seq<Call>): Log {
    if calls == [] then Log([], NoResponse, false) else Track(TrackAll(calls[..|calls| - 1]), calls[|calls| - 1])
  }

  // ---------- How responses are written ----------

  function Lines(head: seq<string>): string {
    if head == [] then [] else Lines(head[..|head| - 1]) + (head[|head| - 1] + CRLF)
  }

  function BodyOf(r: Response): string {
    if r.encoding.Raw? then Joined(r.payloads) else Body(0, r.payloads)
  }

  function Render(r: Response): string {
    Lines(r.head) + CRLF + BodyOf(r)
  }

  function RenderAll(rs: seq<Response>): string {
    if rs == [] then [] else RenderAll(rs[..|rs| - 1]) + Render(rs[|rs| - 1])
  }

  function BodySoFar(r: Response): string {
    if r.encoding.Raw? then Joined(r.payloads) else SoFar(0, r.payloads)
  }

  function RenderPhase(phase: Phase): string {
    match phase
    case InHead(head, _) => Lines(head)
    case InBody(r) => Lines(r.head) + CRLF + BodySoFar(r)
    case _ => []
  }

  function Written(log: Log): string {
    RenderAll(log.done) + if log.closing then [] else RenderPhase(log.phase)
  }

  // ---------- Growing ----------

  lemma LinesMore(base: string, head: seq<string>, line: string)
    ensures (base + Lines(head)) + (line + CRLF) == base + Lines(head + [line])
  {
    assert (head + [line])[..|head|] == head;
    Concat(base, Lines(head), line + CRLF);
  }

  lemma NoLines(base: string)
    ensures base + Lines([]) == base && forall s: seq<string> :: s[..0] == []
  {
  }

  lemma HeadEnds(base: string, r: Response)
    requires r.payloads == []
    ensures (base + Lines(r.head)) + ("" + CRLF) == base + RenderPhase(InBody(r))
  {
    assert "" + CRLF == CRLF && Lines(r.head) + CRLF + [] == Lines(r.head) + CRLF;
    Concat(base, Lines(r.head), CRLF);
  }

  lemma BodyMore(base: string, r: Response, data: string)
    ensures var before, after := base + RenderPhase(InBody(r)), base + RenderPhase(InBody(r.(payloads := r.payloads + [data])));
      after == if r.encoding.Chunked? && data != [] then before + ChunkHeader(Counter(0, r.payloads), |data|) + data else before + data
  {
    hide ChunkHeader;
    var top, body := Lines(r.head) + CRLF, BodySoFar(r);
    var more := if r.encoding.Chunked? then Chunk(Counter(0, r.payloads), data) else data;
    if r.encoding.Raw? {
      JoinedAppend(r.payloads, data);
    } else {
      SoFarMore(0, r.payloads, data);
    }
    Concat(top, body, more);
    Concat(base, top + body, more);
    if r.encoding.Chunked? && data != [] {
      Concat(base + (top + body), ChunkHeader(Counter(0, r.payloads), |data|), data);
    }
  }

  lemma BodyEnds(done: seq<Response>, r: Response)
    ensures var before := RenderAll(done) + RenderPhase(InBody(r));
      RenderAll(done + [r]) == if r.encoding.Chunked? then before + ChunkHeader(Counter(0, r.payloads), 0) + CRLF else before
  {
    hide ChunkHeader;
    assert (done + [r])[..|done|] == done;
    if r.encoding.Chunked? {
      var top, body, header := Lines(r.head) + CRLF, SoFar(0, r.payloads), ChunkHeader(Counter(0, r.payloads), 0);
      BodyIs(0, r.payloads);
      Concat(top, body, header + CRLF);
      Concat(RenderAll(done), top + body, header + CRLF);
      Concat(RenderAll(done) + (top + body), header, CRLF);
    }
  }

  lemma CounterMore(payloads: seq<string>, data: string)
    ensures Counter(0, payloads + [data]) == After(Counter(0, payloads), data)
  {
    SoFarMore(0, payloads, data);
  }

  lemma NoPhase(base: string)
    ensures base + [] == base && base + RenderPhase(NoResponse) == base && base + RenderPhase(Awaiting) == base
  {
  }

  lemma HeadPhase(head: seq<string>, encoding: Encoding)
    ensures RenderPhase(InHead(head, encoding)) == Lines(head)
  {
  }

  // ---------- The writer ----------

  datatype State = READING_HEADERS | AWAITING_RESPONSE_BEGIN | SENDING_RESPONSE_HEADERS | SENDING_RESPONSE_BODY

  // The connection as the calls see it. `written` is what write took on; it takes nothing once closing.
  class Writer {
    var state: State
    var transferEncoding: Encoding
    var chunk: nat
    var closing: bool
    var written: string
    ghost var log: Log

    ghost predicate InStep()
      reads this
    {
      match log.phase
      case NoResponse => state == READING_HEADERS
      case Awaiting => state == AWAITING_RESPONSE_BEGIN && chunk == 0
      case InHead(_, encoding) => state == SENDING_RESPONSE_HEADERS && chunk == 0 && transferEncoding == encoding
      case InBody(r) =>
        state == SENDING_RESPONSE_BODY && transferEncoding == r.encoding
        && (r.encoding.Chunked? ==> chunk == Counter(0, r.payloads))
    }

    ghost predicate Valid()
      reads this
    {
      InStep() && closing == log.closing && written == Written(log)
    }

    constructor ()
      ensures Valid() && log == TrackAll([])
    {
      state, transferEncoding, chunk, closing, written := READING_HEADERS, Raw, 0, false, [];
      log := Log([], NoResponse, false);
    }

    method Write(s: string)
      modifies this`written
      ensures written == if closing then old(written) else old(written) + s
    {
      if !closing {
        written := written + s;
      }
    }

    method BufferLine(line: string)
      modifies this`written
      ensures written == if closing then old(written) else old(written) + (line + CRLF)
    {
      Write(line + CRLF);
    }

    // sendResponse, for the next request.
    method Respond()
      requires Valid()
      modifies this
      ensures Valid() && log == Track(old(log), Call.Respond)
    {
      if state != READING_HEADERS {
        return;
      }
      state := AWAITING_RESPONSE_BEGIN;
      transferEncoding := Raw;
      chunk := 0;
      log := Track(log, Call.Respond);
    }

    // begin
    method Begin(common: seq<string>, encoding: Encoding)
      requires Valid()
      modifies this
      ensures Valid() && log == Track(old(log), Call.Begin(common, encoding))
    {
      hide Lines, RenderPhase, RenderAll;
      if state != AWAITING_RESPONSE_BEGIN {
        return;
      }
      ghost var next := Track(log, Call.Begin(common, encoding));
      NoPhase(RenderAll(log.done));
      HeadPhase(next.phase.head, encoding);
      state := SENDING_RESPONSE_HEADERS;
      BufferLines(common);
      transferEncoding := encoding;
      if encoding.Chunked? {
        LinesMore(RenderAll(log.done), common, CHUNKED_LINE);
        BufferLine(CHUNKED_LINE);
      }
      log := next;
    }

    // bufferResponseAndCommonHeaders, given its lines.
    method BufferLines(common: seq<string>)
      modifies this`written
      ensures written == if closing then old(written) else old(written) + Lines(common)
    {
      hide Lines;
      ghost var before := written;
      NoLines(before);
      var i := 0;
      while i < |common|
        invariant i <= |common| && written == if closing then before else before + Lines(common[..i])
      {
        LinesMore(before, common[..i], common[i]);
        assert common[..i + 1] == common[..i] + [common[i]];
        BufferLine(common[i]);
        i := i + 1;
      }
      assert common[..|common|] == common;
    }

    // header
    method Header(name: string, value: string)
      requires Valid()
      modifies this
      ensures Valid() && log == Track(old(log), Call.Header(name, value))
    {
      hide Lines, RenderAll;
      if state != SENDING_RESPONSE_HEADERS {
        return;
      }
      LinesMore(RenderAll(log.done), log.phase.head, name + ": " + value);
      BufferLine(name + ": " + value);
      log := Track(log, Call.Header(name, value));
    }

    // The blank line behind the headers.
    method EndHead()
      requires Valid() && state == SENDING_RESPONSE_HEADERS
      modifies this
      ensures Valid() && log == old(log).(phase := InBody(Response(old(log).phase.head, old(log).phase.encoding, [])))
      ensures chunk == 0
    {
      hide Lines, RenderAll;
      ghost var r := Response(log.phase.head, log.phase.encoding, []);
      HeadEnds(RenderAll(log.done), r);
      BufferLine("");
      state := SENDING_RESPONSE_BODY;
      log := log.(phase := InBody(r));
    }

    // writeChunkHeader
    method WriteChunkHeader(size: nat)
      modifies this`written, this`chunk
      ensures written == if closing then old(written) else old(written) + ChunkHeader(old(chunk), size)
      ensures chunk == NextChunk(old(chunk))
    {
      var lengthStr := if chunk != 0 then CRLF else [];
      lengthStr := lengthStr + Hex(size) + CRLF;
      chunk := (chunk + 1) % CHUNK_LIMIT;
      Write(lengthStr);
    }

    // payload
    method Payload(data: string)
      requires Valid()
      modifies this
      ensures Valid() && log == Track(old(log), Call.Payload(data))
    {
      hide RenderPhase, Lines, ChunkHeader, RenderAll, Counter;
      ghost var next := Track(log, Call.Payload(data));
      if state == SENDING_RESPONSE_HEADERS {
        EndHead();
        assert [] + [data] == [data];
      } else if state != SENDING_RESPONSE_BODY {
        return;
      }
      BodyMore(RenderAll(log.done), log.phase.response, data);
      CounterMore(log.phase.response.payloads, data);
      if data != [] && transferEncoding.Chunked? {
        WriteChunkHeader(|data|);
      }
      Write(data);
      log := next;
    }

    // finish
    method Finish(keepConnectionOpen: bool)
      requires Valid()
      modifies this
      ensures Valid() && log == Track(old(log), Call.Finish(keepConnectionOpen))
    {
      hide RenderPhase, Lines, ChunkHeader, RenderAll, Counter, Render;
      ghost var next := Track(log, Call.Finish(keepConnectionOpen));
      NoPhase(RenderAll(next.done));
      if state == SENDING_RESPONSE_HEADERS {
        EndHead();
      } else if state != SENDING_RESPONSE_BODY {
        return;
      }
      BodyEnds(log.done, log.phase.response);
      if transferEncoding.Chunked? {
        WriteChunkHeader(0);
        Write(CRLF);
      }
      if !keepConnectionOpen {
        closing := true;
      }
      state := READING_HEADERS;
      log := next;
    }
  }

  // ---------- What the peer reads ----------

  predicate Clean(line: string) {
    forall c | c in line :: c != '\r' && c != '\n'
  }

  predicate CleanHead(head: seq<string>) {
    forall line | line in head :: line != [] && Clean(line)
  }

  datatype Parsed = NoHead | Head(lines: seq<string>, rest: string)

  // A line, up to the first CRLF, and what follows it.
  function TakeLine(s: string): (string, string) {
    if s == [] || StartsWith(s, CRLF) then ([], s)
    else
      var (line, rest) := TakeLine(s[1..]);
      ([s[0]] + line, rest)
  }

  // Header lines up to the blank line.
  function ParseHead(s: string): Parsed
    decreases |s|
  {
    var (line, rest) := TakeLine(s);
    TakeLineShrinks(s);
    if !StartsWith(rest, CRLF) then NoHead
    else if line == [] then Head([], rest[2..])
    else
      var p := ParseHead(rest[2..]);
      if p.NoHead? then p else Head([line] + p.lines, p.rest)
  }

  lemma {:induction false} TakeLineShrinks(s: string)
    ensures |TakeLine(s).1| <= |s|
  {
    if s != [] && !StartsWith(s, CRLF) {
      TakeLineShrinks(s[1..]);
    }
  }

  lemma {:induction false} LineParses(line: string, rest: string)
    requires Clean(line)
    ensures TakeLine(line + (CRLF + rest)) == (line, CRLF + rest)
  {
    var s := line + (CRLF + rest);
    if line == [] {
      assert s == CRLF + rest;
      EndOfChunk(rest);
    } else {
      assert s[0] == line[0] && line[0] in line && s[1..] == line[1..] + (CRLF + rest);
      assert Clean(line[1..]) by {
        assert forall c | c in line[1..] :: c in line;
      }
      LineParses(line[1..], rest);
      assert !StartsWith(s, CRLF) by {
        assert |s| >= 2 && s[..2][0] == s[0] != CRLF[0];
      }
      assert [s[0]] + line[1..] == line;
    }
  }

  lemma {:induction false} LinesFirst(head: seq<string>)
    requires head != []
    ensures Lines(head) == (head[0] + CRLF) + Lines(head[1..])
  {
    var n := |head| - 1;
    if n == 0 {
      assert head[..0] == [] && head[1..] == [];
      assert [] + (head[0] + CRLF) == head[0] + CRLF == (head[0] + CRLF) + [];
    } else {
      LinesFirst(head[..n]);
      assert head[..n][1..] == head[1..][..n - 1];
      Concat(head[0] + CRLF, Lines(head[1..][..n - 1]), head[n] + CRLF);
    }
  }

  lemma {:induction false} HeadParses(head: seq<string>, body: string)
    requires CleanHead(head)
    ensures ParseHead(Lines(head) + CRLF + body) == Head(head, body)
  {
    hide StartsWith, TakeLine;
    if head == [] {
      assert Lines(head) + CRLF + body == [] + (CRLF + body);
      LineParses([], body);
      EndOfChunk(body);
    } else {
      var rest := Lines(head[1..]) + CRLF + body;
      assert head[0] in head && CleanHead(head[1..]);
      LinesFirst(head);
      HeadRegroup(head[0], Lines(head[1..]), body);
      LineParses(head[0], rest);
      EndOfChunk(rest);
      HeadParses(head[1..], body);
      assert [head[0]] + head[1..] == head;
    }
  }

  lemma HeadRegroup(line: string, lines: string, body: string)
    ensures ((line + CRLF) + lines) + CRLF + body == line + (CRLF + (lines + CRLF + body))
  {
  }

  // A response is one header block and then one body; a chunked body decodes to exactly its payloads, with
  // the next response behind it.
  lemma ResponseParses(r: Response, next: string)
    requires CleanHead(r.head)
    ensures ParseHead(Render(r) + next) == Head(r.head, BodyOf(r) + next)
    ensures r.encoding.Raw? ==> BodyOf(r) == Joined(r.payloads)
    ensures r.encoding.Chunked? && Chunks(r.payloads) < CHUNK_LIMIT ==> Decode(BodyOf(r) + next) == Decoded(Joined(r.payloads), next)
    ensures r.encoding.Chunked? && Chunks(r.payloads) >= CHUNK_LIMIT ==> Decode(BodyOf(r) + next) == Malformed
  {
    hide ParseHead, Decode;
    Concat(Lines(r.head) + CRLF, BodyOf(r), next);
    HeadParses(r.head, BodyOf(r) + next);
    BodyDecodes(r.payloads, next);
  }

  // ---------- All responses on one connection ----------

  // How the peer finds the end of a body: by its chunks, or by a size it learns from the head.
  datatype Framing = ByChunks | BySize(size: nat)

  function FramingOf(r: Response): Framing {
    if r.encoding.Raw? then BySize(|Joined(r.payloads)|) else ByChunks
  }

  datatype Content = Content(head: seq<string>, body: string)

  function ContentOf(r: Response): Content {
    Content(r.head, Joined(r.payloads))
  }

  datatype AllParsed = Broken | All(contents: seq<Content>, rest: string)

  function ParseAll(s: string, framings: seq<Framing>): AllParsed
    decreases |framings|
  {
    if framings == [] then All([], s)
    else
      var p := ParseHead(s);
      if p.NoHead? then Broken
      else
        match framings[0]
        case BySize(size) =>
          if |p.rest| < size then Broken
          else Before(Content(p.lines, p.rest[..size]), ParseAll(p.rest[size..], framings[1..]))
        case ByChunks =>
          var body := Decode(p.rest);
          if body.Malformed? then Broken else Before(Content(p.lines, body.content), ParseAll(body.rest, framings[1..]))
  }

  function Before(c: Content, later: AllParsed): AllParsed {
    if later.Broken? then later else All([c] + later.contents, later.rest)
  }

  function Framings(rs: seq<Response>): seq<Framing> {
    seq(|rs|, i requires 0 <= i < |rs| => FramingOf(rs[i]))
  }

  function Contents(rs: seq<Response>): seq<Content> {
    seq(|rs|, i requires 0 <= i < |rs| => ContentOf(rs[i]))
  }

  predicate FewChunks(r: Response) {
    r.encoding.Chunked? ==> Chunks(r.payloads) < CHUNK_LIMIT
  }

  lemma {:induction false} RenderFirst(rs: seq<Response>)
    requires rs != []
    ensures RenderAll(rs) == Render(rs[0]) + RenderAll(rs[1..])
  {
    hide Render;
    var n := |rs| - 1;
    if n == 0 {
      assert rs[..0] == [] && rs[1..] == [];
      assert [] + Render(rs[0]) == Render(rs[0]) == Render(rs[0]) + [];
    } else {
      RenderFirst(rs[..n]);
      assert rs[..n][1..] == rs[1..][..n - 1];
      Concat(Render(rs[0]), RenderAll(rs[1..][..n - 1]), Render(rs[n]));
    }
  }

  lemma FirstParses(r: Response, next: string, framings: seq<Framing>)
    requires CleanHead(r.head) && framings != [] && framings[0] == FramingOf(r)
    ensures ParseAll(Render(r) + next, framings)
      == if FewChunks(r) then Before(ContentOf(r), ParseAll(next, framings[1..])) else Broken
  {
    hide ParseHead, Decode, Render, BodyOf, Chunks;
    ResponseParses(r, next);
    var rest := BodyOf(r) + next;
    if r.encoding.Raw? {
      var size := |Joined(r.payloads)|;
      assert rest[..size] == Joined(r.payloads) && rest[size..] == next;
    }
  }

  // All responses on a connection are read back in order, heads and bodies, with nothing left over, if and only
  // if none has so many chunks that the counter comes round.
  lemma {:induction false} AllParse(rs: seq<Response>)
    requires forall r | r in rs :: CleanHead(r.head)
    ensures ParseAll(RenderAll(rs), Framings(rs)) == All(Contents(rs), []) <==> forall r | r in rs :: FewChunks(r)
    ensures ParseAll(RenderAll(rs), Framings(rs)) == All(Contents(rs), []) || ParseAll(RenderAll(rs), Framings(rs)) == Broken
  {
    hide ParseAll, Render, FewChunks, FramingOf, ContentOf, CleanHead;
    if rs == [] {
      NothingParses();
    } else {
      var later := rs[1..];
      RenderFirst(rs);
      assert Framings(rs)[1..] == Framings(later) && Contents(rs) == [ContentOf(rs[0])] + Contents(later);
      assert rs[0] in rs && forall r | r in later :: r in rs;
      assert forall r | r in rs :: r == rs[0] || r in later;
      FirstParses(rs[0], RenderAll(later), Framings(rs));
      AllParse(later);
    }
  }

  lemma NothingParses()
    ensures ParseAll(RenderAll([]), Framings([])) == All([], []) && Contents([]) == []
  {
  }

  // Any sequence of calls.
  method Serve(calls: seq<Call>) returns (written: string)
    ensures written == Written(TrackAll(calls))
  {
    hide Track, Written;
    var w := new Writer();
    for i := 0 to |calls|
      invariant w.Valid() && fresh(w) && w.log == TrackAll(calls[..i])
    {
      assert calls[..i + 1][..i] == calls[..i];
      match calls[i] {
        case Respond => w.Respond();
        case Begin(common, encoding) => w.Begin(common, encoding);
        case Header(name, value) => w.Header(name, value);
        case Payload(data) => w.Payload(data);
        case Finish(keepOpen) => w.Finish(keepOpen);
      }
    }
    assert calls[..|calls|] == calls;
    written := w.written;
  }

  predicate CleanCall(call: Call) {
    match call
    case Begin(common, _) => CleanHead(common)
    case Header(name, value) => Clean(name) && Clean(value)
    case _ => true
  }

  predicate CleanLog(log: Log) {
    && (forall r | r in log.done :: CleanHead(r.head))
    && (log.phase.InHead? ==> CleanHead(log.phase.head))
    && (log.phase.InBody? ==> CleanHead(log.phase.response.head))
  }

  // Header text without line ends gives header blocks without line ends, in every run: so the lemma above
  // applies to each finished response.
  lemma {:induction false} HeadsStayClean(calls: seq<Call>)
    requires forall call | call in calls :: CleanCall(call)
    ensures CleanLog(TrackAll(calls))
  {
    if calls != [] {
      var n := |calls| - 1;
      HeadsStayClean(calls[..n]);
      assert CleanCall(calls[n]);
      TrackStaysClean(TrackAll(calls[..n]), calls[n]);
    }
  }

  lemma TrackStaysClean(log: Log, call: Call)
    requires CleanLog(log) && CleanCall(call)
    ensures CleanLog(Track(log, call))
  {
    match call
    case Header(name, value) =>
      if log.phase.InHead? {
        var line := name + ": " + value;
        assert |line| >= 2 && Clean(line);
      }
    case _ =>
  }
}
