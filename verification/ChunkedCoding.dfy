/** The chunked transfer coding: what the response writer produces, and the grammar of RFC 9112 section 7.1. */
module ChunkedCoding {
  import opened Sequences

  const CRLF: string := ['\r', '\n']

  // _chunk is a 32-bit counter.
  const CHUNK_LIMIT: nat := 0x1_0000_0000

  // ---------- Hexadecimal numbers ----------

  function Digit(d: nat): char
    requires d < 16
  {
    "0123456789abcdef"[d]
  }

  // std::hex: lower case, no leading zeros.
  function Hex(n: nat): (s: string)
    ensures |s| > 0
  {
    if n < 16 then [Digit(n)] else Hex(n / 16) + [Digit(n % 16)]
  }

  // HEXDIG of RFC 5234 takes upper case as well.
  predicate IsHex(c: char) {
    '0' <= c <= '9' || 'a' <= c <= 'f' || 'A' <= c <= 'F'
  }

  function DigitValue(c: char): nat
    requires IsHex(c)
  {
    if c <= '9' then (c - '0') as nat else if c <= 'F' then (c - 'A') as nat + 10 else (c - 'a') as nat + 10
  }

  lemma DigitRoundTrip(d: nat)
    requires d < 16
    ensures IsHex(Digit(d)) && DigitValue(Digit(d)) == d
  {
  }

  // The digits in front of a text, as a number on top of n, and what follows them.
  function Number(s: string, n: nat): (nat, string) {
    if s != [] && IsHex(s[0]) then Number(s[1..], n * 16 + DigitValue(s[0])) else (n, s)
  }

  predicate NoDigitFirst(s: string) {
    s == [] || !IsHex(s[0])
  }

  lemma {:induction false} NumberSteps(a: string, s: string, n: nat)
    requires forall c | c in a :: IsHex(c)
    ensures Number(a + s, n) == Number(s, Number(a, n).0) && Number(a, n).1 == []
  {
    if a == [] {
      assert a + s == s;
    } else {
      assert (a + s)[1..] == a[1..] + s;
      NumberSteps(a[1..], s, n * 16 + DigitValue(a[0]));
    }
  }

  lemma {:induction false} HexRoundTrip(n: nat, s: string)
    requires NoDigitFirst(s)
    ensures (forall c | c in Hex(n) :: IsHex(c)) && Number(Hex(n) + s, 0) == (n, s)
  {
    HexNumber(n);
    NumberSteps(Hex(n), s, 0);
  }

  lemma {:induction false} HexNumber(n: nat)
    ensures (forall c | c in Hex(n) :: IsHex(c)) && Number(Hex(n), 0) == (n, [])
  {
    if n < 16 {
      DigitRoundTrip(n);
      assert Number(Hex(n), 0) == Number([], n);
    } else {
      var last := [Digit(n % 16)];
      HexNumber(n / 16);
      DigitRoundTrip(n % 16);
      NumberSteps(Hex(n / 16), last, 0);
      assert Number(last, n / 16) == Number([], n / 16 * 16 + n % 16);
      assert Hex(n) == Hex(n / 16) + last;
    }
  }

  // ---------- Writing ----------

  // writeChunkHeader: the line end of a chunk is written with the header of the next.
  function ChunkHeader(chunk: nat, size: nat): string {
    (if chunk != 0 then CRLF else []) + Hex(size) + CRLF
  }

  function NextChunk(chunk: nat): nat {
    (chunk + 1) % CHUNK_LIMIT
  }

  // payload: an empty one is not a chunk.
  function Chunk(chunk: nat, data: string): string {
    if data == [] then [] else ChunkHeader(chunk, |data|) + data
  }

  function After(chunk: nat, data: string): nat {
    if data == [] then chunk else NextChunk(chunk)
  }

  // The rest of a body, from a value of the counter on.
  function Body(chunk: nat, payloads: seq<string>): string
    decreases payloads
  {
    if payloads == [] then ChunkHeader(chunk, 0) + CRLF
    else Chunk(chunk, payloads[0]) + Body(After(chunk, payloads[0]), payloads[1..])
  }

  function Chunks(payloads: seq<string>): nat {
    if payloads == [] then 0 else (if payloads[0] == [] then 0 else 1) + Chunks(payloads[1..])
  }

  // ---------- Reading ----------

  datatype Decoded = Malformed | Decoded(content: string, rest: string)

  // chunked-body = *chunk last-chunk trailer-section CRLF, without extensions and trailers.
  function Decode(s: string): Decoded
    decreases |s|
  {
    var (n, s1) := Number(s, 0);
    if NoDigitFirst(s) || !StartsWith(s1, CRLF) then Malformed
    else
      NumberShrinks(s, 0);
      var s2 := s1[2..];
      if n == 0 then (if StartsWith(s2, CRLF) then Decoded([], s2[2..]) else Malformed)
      else if |s2| < n || !StartsWith(s2[n..], CRLF) then Malformed
      else
        var d := Decode(s2[n..][2..]);
        if d.Malformed? then d else Decoded(s2[..n] + d.content, d.rest)
  }

  lemma {:induction false} NumberShrinks(s: string, n: nat)
    ensures |Number(s, n).1| <= |s|
    decreases |s|
  {
    if s != [] && IsHex(s[0]) {
      NumberShrinks(s[1..], n * 16 + DigitValue(s[0]));
    }
  }

  // ---------- Round trip ----------

  lemma DecodeLast(rest: string)
    ensures Decode((Hex(0) + CRLF) + CRLF + rest) == Decoded([], rest)
  {
    var s := (Hex(0) + CRLF) + CRLF + rest;
    assert s == Hex(0) + (CRLF + (CRLF + rest));
    HexRoundTrip(0, CRLF + (CRLF + rest));
    assert (CRLF + (CRLF + rest))[2..] == CRLF + rest && (CRLF + rest)[2..] == rest;
  }

  // One chunk, and whatever the next text is.
  lemma DecodeChunk(data: string, next: string)
    requires data != []
    ensures Decode((Hex(|data|) + CRLF) + data + next) ==
      if !StartsWith(next, CRLF) then Malformed
      else if Decode(next[2..]).Malformed? then Malformed
      else Decoded(data + Decode(next[2..]).content, Decode(next[2..]).rest)
  {
    hide Hex, Number;
    var s := (Hex(|data|) + CRLF) + data + next;
    assert s == Hex(|data|) + (CRLF + (data + next));
    HexRoundTrip(|data|, CRLF + (data + next));
    EndOfChunk(data + next);
    TakeDrop(data, next);
    assert s[0] == Hex(|data|)[0] && Hex(|data|)[0] in Hex(|data|);
  }

  lemma TakeDrop(data: string, next: string)
    ensures (data + next)[|data|..] == next && (data + next)[..|data|] == data
  {
  }

  // How a body begins: the end of the chunk before, if there was one, and then a chunk or the last one.
  lemma BodyBegins(chunk: nat, payloads: seq<string>, rest: string)
    ensures var before := if chunk != 0 then CRLF else [];
      Body(chunk, payloads) + rest ==
        if payloads == [] then before + ((Hex(0) + CRLF) + CRLF + rest)
        else if payloads[0] == [] then Body(chunk, payloads[1..]) + rest
        else before + ((Hex(|payloads[0]|) + CRLF) + payloads[0] + (Body(NextChunk(chunk), payloads[1..]) + rest))
  {
    hide Hex;
    var before := if chunk != 0 then CRLF else [];
    if payloads == [] {
      Regroup(before, Hex(0), CRLF, rest);
    } else if payloads[0] == [] {
      assert [] + Body(chunk, payloads[1..]) == Body(chunk, payloads[1..]);
    } else {
      RegroupChunk(before, Hex(|payloads[0]|), payloads[0], Body(NextChunk(chunk), payloads[1..]), rest);
    }
  }

  lemma Regroup(before: string, hex: string, end: string, rest: string)
    ensures before + hex + CRLF + end + rest == before + ((hex + CRLF) + end + rest)
  {
  }

  lemma RegroupChunk(before: string, hex: string, data: string, body: string, rest: string)
    ensures ((before + hex + CRLF) + data) + body + rest == before + ((hex + CRLF) + data + (body + rest))
  {
  }

  lemma EndOfChunk(s: string)
    ensures StartsWith(CRLF + s, CRLF) && (CRLF + s)[2..] == s
  {
  }

  lemma NothingJoined()
    ensures Joined<char>([]) == []
  {
  }

  lemma JoinedMore(payloads: seq<string>)
    requires payloads != []
    ensures Joined(payloads) == payloads[0] + Joined(payloads[1..])
    ensures payloads[0] == [] ==> Joined(payloads) == Joined(payloads[1..])
  {
    JoinedFirst(payloads);
  }

  // The text after the data of a chunk: it ends the chunk and goes on with the rest of the body, or, when the
  // counter has come round to 0, it does not end the chunk.
  lemma {:induction false} DecodeBody(chunk: nat, payloads: seq<string>, rest: string)
    requires 0 < chunk < CHUNK_LIMIT
    ensures var s := Body(chunk, payloads) + rest;
      && StartsWith(s, CRLF)
      && Decode(s[2..]) == if chunk + Chunks(payloads) < CHUNK_LIMIT then Decoded(Joined(payloads), rest) else Malformed
    decreases payloads
  {
    hide Decode, Hex, StartsWith, Body, Joined;
    BodyBegins(chunk, payloads, rest);
    if payloads == [] {
      NothingJoined();
      EndOfChunk((Hex(0) + CRLF) + CRLF + rest);
      DecodeLast(rest);
    } else if payloads[0] == [] {
      DecodeBody(chunk, payloads[1..], rest);
      JoinedMore(payloads);
    } else {
      var data, next := payloads[0], Body(NextChunk(chunk), payloads[1..]) + rest;
      EndOfChunk((Hex(|data|) + CRLF) + data + next);
      DecodeChunk(data, next);
      JoinedMore(payloads);
      if chunk + 1 < CHUNK_LIMIT {
        DecodeBody(chunk + 1, payloads[1..], rest);
      } else {
        ComesRound(payloads[1..], rest);
      }
    }
  }

  lemma {:induction false} ComesRound(payloads: seq<string>, rest: string)
    ensures !StartsWith(Body(0, payloads) + rest, CRLF)
  {
    hide Hex, Body;
    BodyBegins(0, payloads, rest);
    if payloads == [] {
      HexFirst(0, CRLF + CRLF + rest);
    } else if payloads[0] == [] {
      ComesRound(payloads[1..], rest);
    } else {
      HexFirst(|payloads[0]|, CRLF + payloads[0] + (Body(NextChunk(0), payloads[1..]) + rest));
    }
  }

  lemma HexFirst(n: nat, s: string)
    ensures !StartsWith(Hex(n) + s, CRLF)
  {
    HexRoundTrip(n, []);
    assert (Hex(n) + s)[0] == Hex(n)[0] && Hex(n)[0] in Hex(n);
  }

  // A whole body decodes to all payloads joined, whether they are empty or not, exactly when the chunks are
  // fewer than the counter can count.
  lemma {:induction false} BodyDecodes(payloads: seq<string>, rest: string)
    ensures Decode(Body(0, payloads) + rest)
      == if Chunks(payloads) < CHUNK_LIMIT then Decoded(Joined(payloads), rest) else Malformed
  {
    hide Decode, Hex, StartsWith, Body;
    BodyBegins(0, payloads, rest);
    if payloads == [] {
      var last := (Hex(0) + CRLF) + CRLF + rest;
      assert [] + last == last;
      DecodeLast(rest);
    } else if payloads[0] == [] {
      BodyDecodes(payloads[1..], rest);
      JoinedMore(payloads);
    } else {
      var first := (Hex(|payloads[0]|) + CRLF) + payloads[0] + (Body(1, payloads[1..]) + rest);
      assert [] + first == first;
      DecodeChunk(payloads[0], Body(1, payloads[1..]) + rest);
      DecodeBody(1, payloads[1..], rest);
      JoinedMore(payloads);
    }
  }

  // ---------- Bodies as they grow ----------

  // The counter after some payloads, and the text sent for them.
  function Counter(chunk: nat, payloads: seq<string>): nat
    decreases payloads
  {
    if payloads == [] then chunk else Counter(After(chunk, payloads[0]), payloads[1..])
  }

  function SoFar(chunk: nat, payloads: seq<string>): string
    decreases payloads
  {
    if payloads == [] then [] else Chunk(chunk, payloads[0]) + SoFar(After(chunk, payloads[0]), payloads[1..])
  }

  lemma {:induction false} SoFarMore(chunk: nat, payloads: seq<string>, data: string)
    ensures SoFar(chunk, payloads + [data]) == SoFar(chunk, payloads) + Chunk(Counter(chunk, payloads), data)
    ensures Counter(chunk, payloads + [data]) == After(Counter(chunk, payloads), data)
    decreases payloads
  {
    hide Chunk, After;
    var more := payloads + [data];
    if payloads == [] {
      assert more[1..] == [];
      assert Chunk(chunk, data) + [] == Chunk(chunk, data) == [] + Chunk(chunk, data);
    } else {
      assert more[1..] == payloads[1..] + [data];
      SoFarMore(After(chunk, payloads[0]), payloads[1..], data);
      Concat(Chunk(chunk, payloads[0]), SoFar(After(chunk, payloads[0]), payloads[1..]), Chunk(Counter(chunk, payloads), data));
    }
  }

  lemma {:induction false} BodyIs(chunk: nat, payloads: seq<string>)
    ensures Body(chunk, payloads) == SoFar(chunk, payloads) + (ChunkHeader(Counter(chunk, payloads), 0) + CRLF)
    decreases payloads
  {
    hide Chunk, After, ChunkHeader;
    var end := ChunkHeader(Counter(chunk, payloads), 0) + CRLF;
    if payloads == [] {
      assert [] + end == end;
    } else {
      BodyIs(After(chunk, payloads[0]), payloads[1..]);
      Concat(Chunk(chunk, payloads[0]), SoFar(After(chunk, payloads[0]), payloads[1..]), end);
    }
  }
}
