/** SHA-1 as FIPS PUB 180-1 defines it, for messages of whole bytes. */
module Sha1Spec {
  import opened ByteNumbers
  import opened HashBlocks

  datatype Regs = Regs(a: bv32, b: bv32, c: bv32, d: bv32, e: bv32)

  const INITIAL: Regs := Regs(0x6745_2301, 0xEFCD_AB89, 0x98BA_DCFE, 0x1032_5476, 0xC3D2_E1F0)

  // Section 3: the circular left shift. CircularShift masks to 32 bits, which changes nothing here.
  function Shift(bits: nat, word: bv32): bv32
    requires 1 <= bits <= 31
  {
    (word << bits) | (word >> (32 - bits))
  }

  // Section 2: addition modulo 2^32, which is what + does on 32-bit words.
  function Plus(x: bv32, y: bv32): bv32 {
    x + y
  }

  // Section 5.
  function Choose(b: bv32, c: bv32, d: bv32): bv32 {
    (b & c) | (!b & d)
  }

  function Parity(b: bv32, c: bv32, d: bv32): bv32 {
    b ^ c ^ d
  }

  function Majority(b: bv32, c: bv32, d: bv32): bv32 {
    (b & c) | (b & d) | (c & d)
  }

  function Mix(t: nat, b: bv32, c: bv32, d: bv32): bv32 {
    if t < 20 then Choose(b, c, d) else if 40 <= t < 60 then Majority(b, c, d) else Parity(b, c, d)
  }

  // Section 6.
  function Constant(t: nat): bv32 {
    if t < 20 then 0x5A82_7999 else if t < 40 then 0x6ED9_EBA1 else if t < 60 then 0x8F1B_BCDC else 0xCA62_C1D6
  }

  // Section 7, steps a and b.
  function Scheduled(block: Block, t: nat): bv32 {
    if t < 16 then WordOf(block[4 * t], block[4 * t + 1], block[4 * t + 2], block[4 * t + 3])
    else Mixed(Scheduled(block, t - 3), Scheduled(block, t - 8), Scheduled(block, t - 14), Scheduled(block, t - 16))
  }

  function Mixed(w3: bv32, w8: bv32, w14: bv32, w16: bv32): bv32 {
    Shift(1, w3 ^ w8 ^ w14 ^ w16)
  }

  // Step d.
  function Round(r: Regs, t: nat, word: bv32): Regs {
    Regs(Plus(Plus(Plus(Plus(Shift(5, r.a), Mix(t, r.b, r.c, r.d)), r.e), word), Constant(t)), r.a, Shift(30, r.b), r.c, r.d)
  }

  // Steps c and d, the first t rounds.
  function Rounds(h: Regs, block: Block, t: nat): Regs {
    if t == 0 then h else Round(Rounds(h, block, t - 1), t - 1, Scheduled(block, t - 1))
  }

  // Step e.
  function Added(h: Regs, r: Regs): Regs {
    Regs(Plus(h.a, r.a), Plus(h.b, r.b), Plus(h.c, r.c), Plus(h.d, r.d), Plus(h.e, r.e))
  }

  function Compress(h: Regs, block: Block): Regs {
    Added(h, Rounds(h, block, 80))
  }

  // Section 4: the length in bits, in eight bytes, the first the highest.
  function LengthBytes(bits: nat): (s: seq<bv8>)
    ensures |s| == 8
  {
    seq(8, i requires 0 <= i < 8 => ByteOf(bits, 7 - i))
  }

  function Padded(m: seq<bv8>): seq<bv8> {
    m + Padding(|m|, LengthBytes(8 * |m|))
  }

  // Section 7 over all blocks.
  function Digest(m: seq<bv8>): Regs {
    Fold(Compress, INITIAL, Padded(m))
  }
}
