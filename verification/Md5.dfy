/** The streaming interface of md5.cpp. */
module Md5 {
  import opened Euclid
  import opened ByteNumbers
  import opened HashBlocks
  import opened Md5Spec
  import opened Md5Process
  import opened Sequences

  // nbytes is an int.
  const INT_LIMIT: nat := 0x8000_0000

  // md5_state_t
  class Md5State {
    var count0: nat
    var count1: nat
    const abcd: array<bv32>
    const buf: array<bv8>
    // Everything appended since md5_init.
    ghost var message: seq<bv8>

    ghost predicate Shaped()
      reads this
    {
      abcd.Length == 4 && buf.Length == 64
    }

    function State(): Regs
      requires abcd.Length == 4
      reads abcd
    {
      Regs(abcd[0], abcd[1], abcd[2], abcd[3])
    }

    // The two words count the bits modulo 2^64.
    ghost predicate Counted()
      reads this
    {
      count0 < WORD && count1 < WORD && count1 * WORD + count0 == 8 * |message| % (WORD * WORD)
    }

    ghost predicate Valid()
      reads this, abcd, buf
    {
      Shaped() && Counted() && Holds(Compress, INITIAL, message, State(), buf[..|message| % BLOCK])
    }

    // md5_init
    constructor ()
      ensures Valid() && message == [] && fresh(abcd) && fresh(buf)
    {
      abcd := new bv32[4];
      buf := new bv8[64];
      count0, count1, message := 0, 0, [];
      new;
      abcd[0] := 0x6745_2301;
      abcd[1] := T_MASK ^ 0x1032_5476;
      abcd[2] := T_MASK ^ 0x6745_2301;
      abcd[3] := 0x1032_5476;
      assert buf[..0] == [];
    }

    // md5_process
    method Process(block: Block)
      requires Shaped()
      modifies abcd
      ensures State() == Compress(old(State()), block)
    {
      hide Steps, Added, Words;
      var x := Words(block);
      ghost var h := State();
      var a, b, c, d := abcd[0], abcd[1], abcd[2], abcd[3];
      NoSteps(h, x);
      a, b, c, d := RoundOne(a, b, c, d, x, h);
      a, b, c, d := RoundTwo(a, b, c, d, x, h);
      a, b, c, d := RoundThree(a, b, c, d, x, h);
      a, b, c, d := RoundFour(a, b, c, d, x, h);
      Add(Regs(a, b, c, d));
    }

    // The additions at the end.
    method Add(r: Regs)
      requires Shaped()
      modifies abcd
      ensures State() == Added(old(State()), r)
    {
      hide Plus;
      abcd[0] := Plus(abcd[0], r.a);
      abcd[1] := Plus(abcd[1], r.b);
      abcd[2] := Plus(abcd[2], r.c);
      abcd[3] := Plus(abcd[3], r.d);
    }

    // memcpy into the buffer.
    method Copy(at: nat, bytes: seq<bv8>)
      requires Shaped() && at + |bytes| <= 64
      modifies buf
      ensures buf[..at + |bytes|] == old(buf[..at]) + bytes
    {
      for i := 0 to |bytes|
        invariant forall k | 0 <= k < at :: buf[k] == old(buf[k])
        invariant forall k | 0 <= k < i :: buf[at + k] == bytes[k]
      {
        buf[at + i] := bytes[i];
      }
      forall k | 0 <= k < at + |bytes| ensures buf[..at + |bytes|][k] == (old(buf[..at]) + bytes)[k] {
        if k >= at {
          assert buf[at + (k - at)] == bytes[k - at];
        }
      }
    }

    // The message length grows, modulo 2^64.
    method Count(nbytes: nat)
      requires count0 < WORD && count1 < WORD && 0 < nbytes < INT_LIMIT
      modifies this`count0, this`count1
      ensures count0 < WORD && count1 < WORD
      ensures count1 * WORD + count0 == (old(count1 * WORD + count0) + 8 * nbytes) % (WORD * WORD)
    {
      var nbits, high := (nbytes * 8) % WORD, nbytes / 0x2000_0000;
      Carry(count0, nbits);
      CountSum(count1, count0, nbytes);
      count1 := (count1 + high) % WORD;
      count0 := (count0 + nbits) % WORD;
      if count0 < nbits {
        count1 := (count1 + 1) % WORD;
      }
    }

    // md5_append. A sum of the source that would overflow int is left to the caller to avoid.
    method Append(data: seq<bv8>)
      requires Valid() && |data| < INT_LIMIT
      requires |message| % BLOCK == 0 || |message| % BLOCK + |data| < INT_LIMIT
      modifies this, abcd, buf
      ensures Valid() && message == old(message) + data
    {
      hide Holds, Compress;
      if data == [] {
        return;
      }
      OffsetOf(count1, count0, |message|);
      var offset := count0 / 8 % 64;
      CountMore(count1 * WORD + count0, |message|, |data|);
      Count(|data|);
      message := message + data;
      AppendBytes(old(message), data, offset);
    }

    // The copying and hashing half.
    method AppendBytes(ghost m: seq<bv8>, data: seq<bv8>, offset: nat)
      requires Shaped() && data != [] && offset == |m| % BLOCK
      requires Holds(Compress, INITIAL, m, State(), buf[..offset])
      modifies abcd, buf
      ensures Holds(Compress, INITIAL, m + data, State(), buf[..(|m| + |data|) % BLOCK])
    {
      hide Holds, Compress;
      if offset == 0 {
        assert m + data[..0] == m && buf[..0] == [];
        FullBlocks(m, data, 0);
      } else if offset + |data| < 64 {
        ghost var rest, state := buf[..offset], State();
        Copy(offset, data);
        KeptFor(Compress, INITIAL, m, data, state, rest);
      } else {
        FillBlock(m, data[..64 - offset], offset);
        FullBlocks(m, data, 64 - offset);
      }
    }

    // The first bytes complete the block begun before.
    method FillBlock(ghost m: seq<bv8>, partial: seq<bv8>, offset: nat)
      requires Shaped() && offset == |m| % BLOCK && offset + |partial| == 64
      requires Holds(Compress, INITIAL, m, State(), buf[..offset])
      modifies abcd, buf
      ensures Holds(Compress, INITIAL, m + partial, State(), [])
    {
      hide Holds, Compress;
      ghost var rest, state := buf[..offset], State();
      Copy(offset, partial);
      assert buf[..] == buf[..64];
      Filled(Compress, INITIAL, m, partial, state, rest);
      Process(buf[..]);
    }

    // The loop over full blocks, and the copy of what is left.
    method FullBlocks(ghost m: seq<bv8>, data: seq<bv8>, p0: nat)
      requires Shaped() && p0 <= |data| && (|m| + p0) % BLOCK == 0
      requires Holds(Compress, INITIAL, m + data[..p0], State(), [])
      modifies abcd, buf
      ensures Holds(Compress, INITIAL, m + data, State(), buf[..(|m| + |data|) % BLOCK])
    {
      hide Holds, Compress;
      var p := p0;
      while |data| - p >= 64
        invariant p <= |data| && (|m| + p) % BLOCK == 0
        invariant Holds(Compress, INITIAL, m + data[..p], State(), [])
      {
        var block := data[p..p + 64];
        Filled(Compress, INITIAL, m + data[..p], block, State(), []);
        Extended(m, data, p, 64);
        assert [] + block == block;
        Process(block);
        p := p + 64;
      }
      CopyTail(m + data[..p], data[p..]);
      assert (m + data[..p]) + data[p..] == m + data;
    }

    // The final partial block.
    method CopyTail(ghost m: seq<bv8>, tail: seq<bv8>)
      requires Shaped() && |m| % BLOCK == 0 && |tail| < BLOCK && Holds(Compress, INITIAL, m, State(), [])
      modifies buf
      ensures Holds(Compress, INITIAL, m + tail, State(), buf[..(|m| + |tail|) % BLOCK])
    {
      hide Holds, Compress;
      KeptFor(Compress, INITIAL, m, tail, State(), []);
      if tail != [] {
        Copy(0, tail);
      }
      assert buf[..|tail|] == [] + tail;
    }

    // md5_finish. In C the operands of & are unsigned words, for which the difference modulo 64 is the same.
    method Finish(digest: array<bv8>)
      requires Valid() && digest.Length == 16 && digest != buf
      modifies this, abcd, buf, digest
      ensures digest[..] == Digest(old(message))
    {
      hide Holds, Compress, Zeros, LengthBytes, ByteOfWord, Output;
      ghost var m, bits := message, count1 * WORD + count0;
      LengthInWords(count1, count0);
      PadLength(count1, count0, |m|);
      var low, high := count0, count1;
      var length := seq(8, i requires 0 <= i < 8 => if i < 4 then ByteOfWord(low, i) else ByteOfWord(high, i - 4));
      var pad := [0x80] + Zeros(63);
      var n := (55 - count0 / 8) % 64 + 1;
      assert pad[..n] == [0x80] + Zeros(n - 1) by { ZerosFirst(63, n - 1); }
      Append(pad[..n]);
      Append(length);
      assert message == (m + ([0x80] + Zeros(ZeroCount(|m|)))) + length;
      PaddedIs(m, [0x80] + Zeros(ZeroCount(|m|)), length);
      RegistersAre(m, State(), buf[..|message| % BLOCK]);
      WriteOut(digest);
    }

    // The registers as bytes.
    method WriteOut(digest: array<bv8>)
      requires Shaped() && digest.Length == 16 && digest != buf
      modifies digest
      ensures digest[..] == Output(State())
    {
      hide Output;
      for i := 0 to 16
        invariant forall k | 0 <= k < i :: digest[k] == Output(State())[k]
      {
        OutputAt(State(), i);
        digest[i] := ByteAt(abcd[i / 4], i % 4);
      }
    }
  }

  lemma PaddedIs(m: seq<bv8>, pad: seq<bv8>, length: seq<bv8>)
    requires pad == [0x80] + Zeros(ZeroCount(|m|)) && length == LengthBytes(8 * |m| % (WORD * WORD))
    ensures (m + pad) + length == Padded(m)
  {
  }

  lemma RegistersAre(m: seq<bv8>, state: Regs, rest: seq<bv8>)
    requires Holds(Compress, INITIAL, Padded(m), state, rest)
    ensures state == Registers(m)
  {
  }

  // The word shifted by (i & 3) << 3.
  function ByteAt(word: bv32, i: nat): bv8 {
    if i == 0 then Byte0(word) else if i == 1 then Byte1(word) else if i == 2 then Byte2(word) else Byte3(word)
  }

  lemma OutputAt(r: Regs, i: nat)
    requires i < 16
    ensures Output(r)[i] == ByteAt(if i < 4 then r.a else if i < 8 then r.b else if i < 12 then r.c else r.d, i % 4)
  {
    hide Byte0, Byte1, Byte2, Byte3;
  }

  // The count is of the whole message, before the padding.
  lemma LengthInWords(high: nat, low: nat)
    requires high < WORD && low < WORD
    ensures LengthBytes(high * WORD + low) ==
      seq(8, i requires 0 <= i < 8 => if i < 4 then ByteOfWord(low, i) else ByteOfWord(high, i - 4))
  {
    hide LongByte, WordByte;
    var n := high * WORD + low;
    forall i | 0 <= i < 8 ensures LengthBytes(n)[i] == if i < 4 then ByteOfWord(low, i) else ByteOfWord(high, i - 4) {
      TwoWords(high, low, i);
      assert LengthBytes(n)[i] == ByteOf(n, i);
    }
  }

  // The pad length of the source is the mark and the zeros of the standard.
  lemma PadLength(high: nat, low: nat, n: nat)
    requires high < WORD && low < WORD && high * WORD + low == 8 * n % (WORD * WORD)
    ensures (55 - low / 8) % 64 + 1 == 1 + ZeroCount(n)
  {
    OffsetOf(high, low, n);
    PadBy(low / 8);
  }

  lemma PadBy(x: nat)
    ensures (55 - x) % 64 == (119 - x % 64) % 64
  {
    var q, r := x / 64, x % 64;
    if r <= 55 {
      Reduce(55 - x, 0 - q, 55 - r, 64);
      Reduce(119 - r, 1, 55 - r, 64);
    } else {
      Reduce(55 - x, 0 - q - 1, 119 - r, 64);
    }
  }

  lemma ZerosFirst(n: nat, k: nat)
    requires k <= n
    ensures Zeros(n)[..k] == Zeros(k)
  {
  }

  lemma Extended(m: seq<bv8>, data: seq<bv8>, p: nat, n: nat)
    requires p + n <= |data|
    ensures (m + data[..p]) + data[p..p + n] == m + data[..p + n]
  {
  }

  // The low word of the count gives the place in the block.
  lemma OffsetOf(high: nat, low: nat, n: nat)
    requires high < WORD && low < WORD && high * WORD + low == 8 * n % (WORD * WORD)
    ensures low / 8 % 64 == n % 64
  {
    var q := 8 * n / (WORD * WORD);
    assert 8 * n == (q * WORD + high) * WORD + low;
    EighthOf(q * WORD + high, low, n);
  }

  lemma EighthOf(k: nat, low: nat, n: nat)
    requires 8 * n == k * WORD + low
    ensures low / 8 % 64 == n % 64
  {
    var m, q, r := k * 0x80_0000, low / 8, low % 8;
    Eights(n, m, q, r);
    Sum64(n, m, q);
  }

  lemma Eights(n: nat, m: nat, q: nat, r: nat)
    requires 8 * n == 512 * m + (8 * q + r) && r < 8
    ensures n == 64 * m + q
  {
  }

  lemma Sum64(n: nat, m: nat, q: nat)
    requires n == 64 * m + q
    ensures n % 64 == q % 64
  {
    Reduce(n, m + q / 64, q % 64, 64);
  }

  lemma CountMore(count: nat, n: nat, more: nat)
    requires count == 8 * n % (WORD * WORD)
    ensures (count + 8 * more) % (WORD * WORD) == 8 * (n + more) % (WORD * WORD)
  {
    var q, c := 8 * n / (WORD * WORD), count + 8 * more;
    var q2 := c / (WORD * WORD);
    Distribute(q, q2, WORD * WORD);
    Reduce(8 * (n + more), q + q2, c % (WORD * WORD), WORD * WORD);
  }

  // A sum modulo 2^32 is below an operand exactly when it wrapped around.
  lemma Carry(low: nat, nbits: nat)
    requires low < WORD && nbits < WORD
    ensures var sum := (low + nbits) % WORD;
      if low + nbits >= WORD then sum < nbits && low + nbits == WORD + sum else sum >= nbits && low + nbits == sum
  {
  }

  lemma CountSum(high: nat, low: nat, nbytes: nat)
    requires high < WORD && low < WORD && nbytes < INT_LIMIT
    ensures var nbits := (nbytes * 8) % WORD;
      var sum, high2 := (low + nbits) % WORD, (high + nbytes / 0x2000_0000) % WORD;
      (if sum < nbits then (high2 + 1) % WORD else high2) * WORD + sum == (high * WORD + low + 8 * nbytes) % (WORD * WORD)
  {
    var nbits, more := (nbytes * 8) % WORD, nbytes / 0x2000_0000;
    Carry(low, nbits);
    assert nbytes * 8 == more * WORD + nbits;
    var sum := (low + nbits) % WORD;
    if low + nbits >= WORD {
      OneMore(high + more);
      assert (high + more + 1) * WORD + sum == high * WORD + low + 8 * nbytes;
      TwoWordSum(high + more + 1, sum);
    } else {
      assert (high + more) * WORD + sum == high * WORD + low + 8 * nbytes;
      TwoWordSum(high + more, sum);
    }
  }

  lemma OneMore(a: nat)
    ensures (a % WORD + 1) % WORD == (a + 1) % WORD
  {
  }

  lemma TwoWordSum(high: nat, low: nat)
    requires high < 2 * WORD && low < WORD
    ensures (high % WORD) * WORD + low == (high * WORD + low) % (WORD * WORD)
  {
    var q := if high >= WORD then 1 else 0;
    Reduce(high, q, high - q * WORD, WORD);
    Reduce(high * WORD + low, q, (high - q * WORD) * WORD + low, WORD * WORD);
  }

  lemma NoSteps(h: Regs, x: seq<bv32>)
    requires |x| == 16
    ensures Steps(h, x, 0) == h
  {
  }

  // However a message is cut into pieces that int can measure, the digest is that of the whole message.
  method DigestOfPieces(pieces: seq<seq<bv8>>) returns (digest: array<bv8>)
    requires forall p | p in pieces :: |p| < INT_LIMIT - BLOCK
    ensures digest[..] == Digest(Joined(pieces))
  {
    hide Digest;
    var md5 := new Md5State();
    digest := new bv8[16];
    var i := 0;
    while i < |pieces|
      invariant i <= |pieces| && md5.Valid() && fresh(md5) && fresh(md5.abcd) && fresh(md5.buf) && digest != md5.buf
      invariant md5.message == Joined(pieces[..i])
    {
      assert pieces[..i + 1][..i] == pieces[..i];
      md5.Append(pieces[i]);
      i := i + 1;
    }
    assert pieces[..|pieces|] == pieces;
    md5.Finish(digest);
  }
}
