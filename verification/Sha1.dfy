/** The class of sha1.cpp, which takes a message in pieces of any size. */
module Sha1 {
  import opened ByteNumbers
  import opened HashBlocks
  import opened Sha1Spec
  import opened Sequences

  // The words of a message of n bytes are H and the length in bits, below 2^64.
  const LIMIT: nat := 0x2000_0000_0000_0000

  datatype Option<T> = None | Some(value: T)

  class Sha1 {
    const h: array<bv32>
    const messageBlock: array<bv8>
    var messageBlockIndex: nat
    var lengthLow: nat
    var lengthHigh: nat
    var computed: bool
    var corrupted: bool
    // What was fed since the last reset, while the object was neither computed nor corrupted.
    ghost var message: seq<bv8>

    ghost predicate Shaped()
      reads this
    {
      h.Length == 5 && messageBlock.Length == 64 && messageBlockIndex <= 64
    }

    function State(): Regs
      requires h.Length == 5
      reads h
    {
      Regs(h[0], h[1], h[2], h[3], h[4])
    }

    ghost predicate Valid()
      reads this, h, messageBlock
    {
      && Shaped() && messageBlockIndex < 64
      && lengthLow < WORD && lengthHigh < WORD
      && (!corrupted ==> |message| < LIMIT && lengthHigh * WORD + lengthLow == 8 * |message|)
      && (!corrupted && computed ==> State() == Digest(message))
      && (!corrupted && !computed ==> Holds(Compress, INITIAL, message, State(), messageBlock[..messageBlockIndex]))
    }

    constructor ()
      ensures Valid() && message == [] && !computed && !corrupted && fresh(h) && fresh(messageBlock)
    {
      h := new bv32[5];
      messageBlock := new bv8[64];
      messageBlockIndex, lengthLow, lengthHigh, computed, corrupted, message := 0, 0, 0, false, false, [];
      new;
      Reset();
    }

    method Reset()
      requires h.Length == 5 && messageBlock.Length == 64
      modifies this, h
      ensures Valid() && message == [] && !computed && !corrupted
    {
      lengthLow := 0;
      lengthHigh := 0;
      messageBlockIndex := 0;
      h[0] := 0x6745_2301;
      h[1] := 0xEFCD_AB89;
      h[2] := 0x98BA_DCFE;
      h[3] := 0x1032_5476;
      h[4] := 0xC3D2_E1F0;
      computed := false;
      corrupted := false;
      message := [];
      assert messageBlock[..0] == [];
    }

    // The first loops of ProcessMessageBlock: the sequence of 80 words.
    method Schedule() returns (w: array<bv32>)
      requires messageBlock.Length == 64
      ensures fresh(w) && w.Length == 80 && forall t | 0 <= t < 80 :: w[t] == Scheduled(messageBlock[..], t)
    {
      hide Shift, WordOf, Mixed;
      w := new bv32[80];
      ghost var block := messageBlock[..];
      for t := 0 to 16
        invariant forall i | 0 <= i < t :: w[i] == Scheduled(block, i)
      {
        w[t] := WordOf(messageBlock[t * 4], messageBlock[t * 4 + 1], messageBlock[t * 4 + 2], messageBlock[t * 4 + 3]);
      }
      for t := 16 to 80
        invariant forall i | 0 <= i < t :: w[i] == Scheduled(block, i)
      {
        w[t] := NextWord(w[t - 3], w[t - 8], w[t - 14], w[t - 16]);
      }
    }

    static method NextWord(w3: bv32, w8: bv32, w14: bv32, w16: bv32) returns (w: bv32)
      ensures w == Mixed(w3, w8, w14, w16)
    {
      hide Shift;
      w := Shift(1, w3 ^ w8 ^ w14 ^ w16);
    }

    // What the four loops of 20 rounds differ in: the function and the constant.
    static method RoundFunction(t: nat, b: bv32, c: bv32, d: bv32) returns (f: bv32, k: bv32)
      requires t < 80
      ensures f == Mix(t, b, c, d) && k == Constant(t)
    {
      hide Choose, Parity, Majority;
      if t < 20 {
        f, k := Choose(b, c, d), 0x5A82_7999;
      } else if t < 40 {
        f, k := Parity(b, c, d), 0x6ED9_EBA1;
      } else if t < 60 {
        f, k := Majority(b, c, d), 0x8F1B_BCDC;
      } else {
        f, k := Parity(b, c, d), 0xCA62_C1D6;
      }
    }

    // Their common body.
    static method OneRound(t: nat, r: Regs, word: bv32) returns (next: Regs)
      requires t < 80
      ensures next == Round(r, t, word)
    {
      hide Shift, Plus, Mix, Constant;
      var f, k := RoundFunction(t, r.b, r.c, r.d);
      var temp := Plus(Plus(Plus(Plus(Shift(5, r.a), f), r.e), word), k);
      next := Regs(temp, r.a, Shift(30, r.b), r.c, r.d);
    }

    method ProcessMessageBlock()
      requires Shaped()
      modifies h, this`messageBlockIndex
      ensures Shaped() && messageBlockIndex == 0
      ensures State() == Compress(old(State()), messageBlock[..])
    {
      hide Round, Scheduled, Added;
      ghost var h0, block := State(), messageBlock[..];
      var w := Schedule();
      var r := State();
      for t := 0 to 80
        invariant r == Rounds(h0, block, t)
        modifies {}
      {
        r := OneRound(t, r, w[t]);
      }
      Add(r);
      messageBlockIndex := 0;
    }

    // The five additions at the end.
    method Add(r: Regs)
      requires h.Length == 5
      modifies h
      ensures State() == Added(old(State()), r)
    {
      hide Plus;
      h[0] := Plus(h[0], r.a);
      h[1] := Plus(h[1], r.b);
      h[2] := Plus(h[2], r.c);
      h[3] := Plus(h[3], r.d);
      h[4] := Plus(h[4], r.e);
    }

    // Length_Low and Length_High are one 64-bit count of bits; running over 2^64 makes the object corrupted.
    method CountByte()
      requires lengthLow < WORD && lengthHigh < WORD && lengthLow % 8 == 0
      modifies this`lengthLow, this`lengthHigh, this`corrupted
      ensures lengthLow < WORD && lengthHigh < WORD
      ensures var bits := old(lengthHigh * WORD + lengthLow) + 8;
        if bits < WORD * WORD then lengthHigh * WORD + lengthLow == bits && corrupted == old(corrupted) else corrupted
    {
      lengthLow := (lengthLow + 8) % WORD;
      if lengthLow == 0 {
        lengthHigh := (lengthHigh + 1) % WORD;
        if lengthHigh == 0 {
          corrupted := true;
        }
      }
    }

    // One turn of the loop of Input.
    method InputByte(x: bv8)
      requires Valid() && !computed && !corrupted
      modifies this, h, messageBlock
      ensures Valid() && !computed && (corrupted <==> |old(message)| + 1 == LIMIT)
      ensures !corrupted ==> message == old(message) + [x]
    {
      hide Holds, Compress, Digest;
      ghost var rest, state := messageBlock[..messageBlockIndex], State();
      messageBlock[messageBlockIndex] := x;
      messageBlockIndex := messageBlockIndex + 1;
      assert messageBlock[..messageBlockIndex] == rest + [x];
      CountByte();
      if messageBlockIndex == 64 {
        assert messageBlock[..] == rest + [x];
        Filled(Compress, INITIAL, message, [x], state, rest);
        ProcessMessageBlock();
        assert messageBlock[..0] == [];
      } else {
        KeptFor(Compress, INITIAL, message, [x], state, rest);
      }
      if !corrupted {
        message := message + [x];
      }
    }

    // Input. Feeding bytes once the digest was taken, or past the limit, makes the object corrupted.
    method Input(bytes: seq<bv8>)
      requires Valid() && |bytes| < WORD
      modifies this, h, messageBlock
      ensures Valid() && computed == old(computed)
      ensures corrupted <==> old(corrupted) || (bytes != [] && (computed || |old(message)| + |bytes| >= LIMIT))
      ensures !corrupted ==> message == old(message) + bytes
    {
      if bytes == [] {
        return;
      }
      if computed || corrupted {
        corrupted := true;
        return;
      }
      hide Holds, Compress, Digest;
      var i := 0;
      while i < |bytes| && !corrupted
        invariant i <= |bytes| && Valid() && !computed
        invariant !corrupted ==> message == old(message) + bytes[..i]
        invariant corrupted ==> |old(message)| + i >= LIMIT
      {
        OneByteMore(old(message), bytes, i);
        InputByte(bytes[i]);
        i := i + 1;
      }
      assert bytes[..|bytes|] == bytes;
    }

    // The loops that write zeros.
    method PutZeros(limit: nat)
      requires Shaped() && messageBlockIndex <= limit <= 64
      modifies messageBlock, this`messageBlockIndex
      ensures messageBlockIndex == limit
      ensures messageBlock[..limit] == old(messageBlock[..messageBlockIndex]) + Zeros(limit - old(messageBlockIndex))
    {
      while messageBlockIndex < limit
        invariant old(messageBlockIndex) <= messageBlockIndex <= limit
        invariant forall i | 0 <= i < old(messageBlockIndex) :: messageBlock[i] == old(messageBlock[i])
        invariant forall i | old(messageBlockIndex) <= i < messageBlockIndex :: messageBlock[i] == 0
      {
        messageBlock[messageBlockIndex] := 0;
        messageBlockIndex := messageBlockIndex + 1;
      }
    }

    method PutMark()
      requires Shaped() && messageBlockIndex < 64
      modifies messageBlock, this`messageBlockIndex
      ensures messageBlockIndex == old(messageBlockIndex) + 1
      ensures messageBlock[..messageBlockIndex] == old(messageBlock[..messageBlockIndex]) + [0x80]
    {
      messageBlock[messageBlockIndex] := 0x80;
      messageBlockIndex := messageBlockIndex + 1;
    }

    // A word of the length, the highest byte first.
    method PutWord(at: nat, word: nat)
      requires messageBlock.Length == 64 && at <= 60
      modifies messageBlock
      ensures forall k | at <= k < at + 4 :: messageBlock[k] == ByteOfWord(word, at + 3 - k)
      ensures forall k | 0 <= k < 64 && !(at <= k < at + 4) :: messageBlock[k] == old(messageBlock[k])
    {
      hide ByteOfWord;
      messageBlock[at] := ByteOfWord(word, 3);
      messageBlock[at + 1] := ByteOfWord(word, 2);
      messageBlock[at + 2] := ByteOfWord(word, 1);
      messageBlock[at + 3] := ByteOfWord(word, 0);
    }

    // The last eight bytes of the last block.
    method PutLength()
      requires Shaped() && messageBlockIndex == 56 && lengthLow < WORD && lengthHigh < WORD
      modifies messageBlock
      ensures messageBlock[..] == old(messageBlock[..56]) + LengthBytes(lengthHigh * WORD + lengthLow)
    {
      hide LengthBytes, ByteOfWord;
      LengthInWords(lengthHigh, lengthLow);
      PutWord(56, lengthHigh);
      PutWord(60, lengthLow);
    }

    // PadMessage: with one block or two, it is the padding of the standard.
    method PadMessage()
      requires Valid() && !computed && !corrupted
      modifies h, messageBlock, this`messageBlockIndex
      ensures messageBlockIndex == 0 && State() == Digest(message)
    {
      hide Holds, Compress, Zeros, LengthBytes;
      ghost var rest, state, length := messageBlock[..messageBlockIndex], State(), LengthBytes(8 * |message|);
      ghost var n := messageBlockIndex;
      if messageBlockIndex > 55 {
        PutMark();
        PutZeros(64);
        assert messageBlock[..] == messageBlock[..64];
        ProcessMessageBlock();
        assert messageBlock[..0] == [];
        PutZeros(56);
        ghost var after := State();
        PutLength();
        TwoBlocks(message, state, rest, length);
      } else {
        PutMark();
        PutZeros(56);
        PutLength();
        OneBlock(message, state, rest, length);
      }
      ProcessMessageBlock();
    }

    // Result
    method Result() returns (digest: Option<Regs>)
      requires Valid()
      modifies this, h, messageBlock
      ensures Valid() && corrupted == old(corrupted) && message == old(message)
      ensures corrupted ==> digest == None && computed == old(computed)
      ensures !corrupted ==> digest == Some(Digest(message)) && computed
    {
      hide Holds, Digest;
      if corrupted {
        return None;
      }
      if !computed {
        PadMessage();
        computed := true;
      }
      digest := Some(State());
    }
  }

  lemma LengthInWords(high: nat, low: nat)
    requires high < WORD && low < WORD
    ensures var s := LengthBytes(high * WORD + low);
      forall j | 0 <= j < 8 :: s[j] == if j < 4 then ByteOfWord(high, 3 - j) else ByteOfWord(low, 7 - j)
  {
    hide LongByte, WordByte;
    var n := high * WORD + low;
    var s := LengthBytes(n);
    forall j | 0 <= j < 8 ensures s[j] == if j < 4 then ByteOfWord(high, 3 - j) else ByteOfWord(low, 7 - j) {
      TwoWords(high, low, 7 - j);
      assert s[j] == ByteOf(n, 7 - j);
    }
  }

  // The padding fits behind the rest of the message.
  lemma OneBlock(m: seq<bv8>, state: Regs, rest: seq<bv8>, length: seq<bv8>)
    requires Holds(Compress, INITIAL, m, state, rest) && |rest| <= 55 && length == LengthBytes(8 * |m|)
    ensures Compress(state, ((rest + [0x80]) + Zeros(55 - |rest|)) + length) == Digest(m)
  {
    hide Compress, Zeros, LengthBytes;
    var more := [0x80] + Zeros(55 - |rest|) + length;
    Filled(Compress, INITIAL, m, more, state, rest);
    assert rest + more == ((rest + [0x80]) + Zeros(55 - |rest|)) + length;
    assert more == Padding(|m|, length);
  }

  // Or it takes another block.
  lemma TwoBlocks(m: seq<bv8>, state: Regs, rest: seq<bv8>, length: seq<bv8>)
    requires Holds(Compress, INITIAL, m, state, rest) && 55 < |rest| < 64 && length == LengthBytes(8 * |m|)
    ensures var state1 := Compress(state, (rest + [0x80]) + Zeros(63 - |rest|));
      Compress(state1, ([] + Zeros(56)) + length) == Digest(m)
  {
    hide Compress, Zeros, LengthBytes;
    var more1, more2 := [0x80] + Zeros(63 - |rest|), Zeros(56) + length;
    Filled(Compress, INITIAL, m, more1, state, rest);
    assert rest + more1 == (rest + [0x80]) + Zeros(63 - |rest|);
    Filled(Compress, INITIAL, m + more1, more2, Compress(state, rest + more1), []);
    assert [] + more2 == ([] + Zeros(56)) + length == more2;
    ZerosJoin(63 - |rest|, 56);
    assert more1 + more2 == Padding(|m|, length);
    assert (m + more1) + more2 == m + (more1 + more2);
  }

  lemma OneByteMore(m: seq<bv8>, bytes: seq<bv8>, i: nat)
    requires i < |bytes|
    ensures (m + bytes[..i]) + [bytes[i]] == m + bytes[..i + 1]
  {
  }

  lemma ZerosJoin(a: nat, b: nat)
    ensures Zeros(a) + Zeros(b) == Zeros(a + b)
  {
  }

  // However a message below the limit is cut into pieces, Result gives the digest of the whole message.
  method DigestOfPieces(pieces: seq<seq<bv8>>) returns (digest: Option<Regs>)
    requires forall p | p in pieces :: |p| < WORD
    requires |Joined(pieces)| < LIMIT
    ensures digest == Some(Digest(Joined(pieces)))
  {
    hide Digest;
    var sha1 := new Sha1();
    var i := 0;
    while i < |pieces|
      invariant i <= |pieces| && sha1.Valid() && fresh(sha1) && fresh(sha1.h) && fresh(sha1.messageBlock)
      invariant !sha1.corrupted && !sha1.computed && sha1.message == Joined(pieces[..i])
    {
      PieceOf(pieces, i);
      sha1.Input(pieces[i]);
      i := i + 1;
    }
    assert pieces[..|pieces|] == pieces;
    digest := sha1.Result();
  }

  lemma PieceOf(pieces: seq<seq<bv8>>, i: nat)
    requires i < |pieces|
    ensures Joined(pieces[..i + 1]) == Joined(pieces[..i]) + pieces[i]
    ensures |Joined(pieces[..i + 1])| <= |Joined(pieces)|
    decreases |pieces| - i
  {
    assert pieces[..i + 1][..i] == pieces[..i];
    if i + 1 < |pieces| {
      PieceOf(pieces, i + 1);
    } else {
      assert pieces[..i + 1] == pieces;
    }
  }
}
