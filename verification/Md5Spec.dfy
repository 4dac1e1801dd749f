/** MD5 as RFC 1321 defines it, for messages of whole bytes. */
module Md5Spec {
  import opened ByteNumbers
  import opened HashBlocks

  datatype Regs = Regs(a: bv32, b: bv32, c: bv32, d: bv32)

  // Section 3.3.
  const INITIAL: Regs := Regs(0x6745_2301, 0xEFCD_AB89, 0x98BA_DCFE, 0x1032_5476)

  // Section 3.4: the integer part of 2^32 times abs(sin(i)), for i from 1 to 64, counted from 0 here.
  function SinesOne(i: nat): bv32 {
    match i
    case 0 => 0xd76a_a478
    case 1 => 0xe8c7_b756
    case 2 => 0x2420_70db
    case 3 => 0xc1bd_ceee
    case 4 => 0xf57c_0faf
    case 5 => 0x4787_c62a
    case 6 => 0xa830_4613
    case 7 => 0xfd46_9501
    case 8 => 0x6980_98d8
    case 9 => 0x8b44_f7af
    case 10 => 0xffff_5bb1
    case 11 => 0x895c_d7be
    case 12 => 0x6b90_1122
    case 13 => 0xfd98_7193
    case 14 => 0xa679_438e
    case _ => 0x49b4_0821
  }

  function SinesTwo(i: nat): bv32 {
    match i
    case 0 => 0xf61e_2562
    case 1 => 0xc040_b340
    case 2 => 0x265e_5a51
    case 3 => 0xe9b6_c7aa
    case 4 => 0xd62f_105d
    case 5 => 0x0244_1453
    case 6 => 0xd8a1_e681
    case 7 => 0xe7d3_fbc8
    case 8 => 0x21e1_cde6
    case 9 => 0xc337_07d6
    case 10 => 0xf4d5_0d87
    case 11 => 0x455a_14ed
    case 12 => 0xa9e3_e905
    case 13 => 0xfcef_a3f8
    case 14 => 0x676f_02d9
    case _ => 0x8d2a_4c8a
  }

  function SinesThree(i: nat): bv32 {
    match i
    case 0 => 0xfffa_3942
    case 1 => 0x8771_f681
    case 2 => 0x6d9d_6122
    case 3 => 0xfde5_380c
    case 4 => 0xa4be_ea44
    case 5 => 0x4bde_cfa9
    case 6 => 0xf6bb_4b60
    case 7 => 0xbebf_bc70
    case 8 => 0x289b_7ec6
    case 9 => 0xeaa1_27fa
    case 10 => 0xd4ef_3085
    case 11 => 0x0488_1d05
    case 12 => 0xd9d4_d039
    case 13 => 0xe6db_99e5
    case 14 => 0x1fa2_7cf8
    case _ => 0xc4ac_5665
  }

  function SinesFour(i: nat): bv32 {
    match i
    case 0 => 0xf429_2244
    case 1 => 0x432a_ff97
    case 2 => 0xab94_23a7
    case 3 => 0xfc93_a039
    case 4 => 0x655b_59c3
    case 5 => 0x8f0c_cc92
    case 6 => 0xffef_f47d
    case 7 => 0x8584_5dd1
    case 8 => 0x6fa8_7e4f
    case 9 => 0xfe2c_e6e0
    case 10 => 0xa301_4314
    case 11 => 0x4e08_11a1
    case 12 => 0xf753_7e82
    case 13 => 0xbd3a_f235
    case 14 => 0x2ad7_d2bb
    case _ => 0xeb86_d391
  }

  function Sine(i: nat): bv32
    requires i < 64
  {
    if i < 16 then SinesOne(i) else if i < 32 then SinesTwo(i - 16) else if i < 48 then SinesThree(i - 32) else SinesFour(i - 48)
  }

  // Section 2: addition modulo 2^32, which is what + does on 32-bit words, and the circular shift.
  function Plus(x: bv32, y: bv32): bv32 {
    x + y
  }

  function Rotate(x: bv32, n: nat): bv32
    requires 0 < n < 32
  {
    (x << n) | (x >> (32 - n))
  }

  // A word from four bytes, the first the lowest.
  function WordOf(b0: bv8, b1: bv8, b2: bv8, b3: bv8): bv32 {
    ((b0 as bv32) | ((b1 as bv32) << 8)) | (((b2 as bv32) << 16) | ((b3 as bv32) << 24))
  }

  function Words(block: Block): (x: seq<bv32>)
    ensures |x| == 16
  {
    seq(16, i requires 0 <= i < 16 => WordOf(block[4 * i], block[4 * i + 1], block[4 * i + 2], block[4 * i + 3]))
  }

  // Section 3.4: the four auxiliary functions.
  function F(x: bv32, y: bv32, z: bv32): bv32 {
    (x & y) | (!x & z)
  }

  function G(x: bv32, y: bv32, z: bv32): bv32 {
    (x & z) | (y & !z)
  }

  function H(x: bv32, y: bv32, z: bv32): bv32 {
    x ^ y ^ z
  }

  function I(x: bv32, y: bv32, z: bv32): bv32 {
    y ^ (x | !z)
  }

  function Aux(i: nat, x: bv32, y: bv32, z: bv32): bv32 {
    if i < 16 then F(x, y, z) else if i < 32 then G(x, y, z) else if i < 48 then H(x, y, z) else I(x, y, z)
  }

  // Which word of the block operation i takes, and how far it shifts: the tables of the four rounds.
  function Index(i: nat): (k: nat)
    ensures k < 16
  {
    if i < 16 then i % 16 else if i < 32 then (5 * i + 1) % 16 else if i < 48 then (3 * i + 5) % 16 else (7 * i) % 16
  }

  function ShiftBy(i: nat): (s: nat)
    ensures 0 < s < 32
  {
    if i < 16 then [7, 12, 17, 22][i % 4]
    else if i < 32 then [5, 9, 14, 20][i % 4]
    else if i < 48 then [4, 11, 16, 23][i % 4]
    else [6, 10, 15, 21][i % 4]
  }

  // a = b + ((a + f + x + t) <<< s)
  function Set(a: bv32, b: bv32, f: bv32, x: bv32, s: nat, t: bv32): bv32
    requires 0 < s < 32
  {
    Plus(Rotate(Plus(Plus(Plus(a, f), x), t), s), b)
  }

  // One operation; the registers move on by one, so that the next one sets the next register.
  function Step(r: Regs, i: nat, x: seq<bv32>): Regs
    requires i < 64 && |x| == 16
  {
    Regs(r.d, Set(r.a, r.b, Aux(i, r.b, r.c, r.d), x[Index(i)], ShiftBy(i), Sine(i)), r.b, r.c)
  }

  function Steps(h: Regs, x: seq<bv32>, n: nat): Regs
    requires n <= 64 && |x| == 16
  {
    if n == 0 then h else Step(Steps(h, x, n - 1), n - 1, x)
  }

  function Added(h: Regs, r: Regs): Regs {
    Regs(Plus(h.a, r.a), Plus(h.b, r.b), Plus(h.c, r.c), Plus(h.d, r.d))
  }

  function Compress(h: Regs, block: Block): Regs {
    Added(h, Steps(h, Words(block), 64))
  }

  // Section 3.2: the low 64 bits of the length, the lowest byte first.
  function LengthBytes(bits: nat): (s: seq<bv8>)
    ensures |s| == 8
  {
    seq(8, i requires 0 <= i < 8 => ByteOf(bits, i))
  }

  // Sections 3.1 and 3.2.
  function Padded(m: seq<bv8>): seq<bv8> {
    m + Padding(|m|, LengthBytes(8 * |m| % (WORD * WORD)))
  }

  // Sections 3.3 and 3.4.
  function Registers(m: seq<bv8>): Regs {
    Fold(Compress, INITIAL, Padded(m))
  }

  function Bytes(word: bv32): (s: seq<bv8>)
    ensures |s| == 4
  {
    [Byte0(word), Byte1(word), Byte2(word), Byte3(word)]
  }

  // Reading these bytes as the words of a block are read gives the word back.
  lemma BytesRead(word: bv32)
    ensures var s := Bytes(word); WordOf(s[0], s[1], s[2], s[3]) == word
  {
  }

  // Section 3.5: the registers in order, each from its lowest byte to its highest.
  function Output(r: Regs): (s: seq<bv8>)
    ensures |s| == 16
  {
    Bytes(r.a) + Bytes(r.b) + Bytes(r.c) + Bytes(r.d)
  }

  function Digest(m: seq<bv8>): seq<bv8> {
    Output(Registers(m))
  }
}
