/** WebSocket frames as RFC 6455 sections 5.2 and 5.3 define them, and what the decoder makes of any bytes. */
module HybiFrames {
  import opened ByteNumbers
  import opened Sequences

  const FIN: bv8 := 0x80
  const MASKED: bv8 := 0x80

  datatype Opcode = Text | Binary | Close | Ping | Pong

  function CodeOf(op: Opcode): bv8 {
    match op
    case Text => 0x1
    case Binary => 0x2
    case Close => 0x8
    case Ping => 0x9
    case Pong => 0xa
  }

  datatype Mask = Unmasked | Key(k0: bv8, k1: bv8, k2: bv8, k3: bv8)

  datatype Frame = Frame(op: Opcode, payload: seq<bv8>, mask: Mask)

  // ---------- Encoding ----------

  // A number in so many bytes, the first the highest.
  function Big(n: nat, count: nat): (s: seq<bv8>)
    ensures |s| == count
  {
    seq(count, i requires 0 <= i < count => ByteOf(n, count - 1 - i))
  }

  // The 7-bit form, the 16-bit form and the 64-bit form of a length; `flag` is the mask bit.
  function LengthField(n: nat, flag: bv8): seq<bv8> {
    if n < 126 then [flag | ToByte(n)]
    else if n < 65536 then [flag | 126] + Big(n, 2)
    else [flag | 127] + Big(n, 8)
  }

  function KeyBytes(mask: Mask): seq<bv8> {
    match mask
    case Unmasked => []
    case Key(k0, k1, k2, k3) => [k0, k1, k2, k3]
  }

  // Byte i of the payload is combined with byte i modulo 4 of the key.
  function MaskByte(mask: Mask, i: nat): bv8 {
    match mask
    case Unmasked => 0
    case Key(k0, k1, k2, k3) => if i % 4 == 0 then k0 else if i % 4 == 1 then k1 else if i % 4 == 2 then k2 else k3
  }

  function Masked(payload: seq<bv8>, mask: Mask): (s: seq<bv8>)
    ensures |s| == |payload|
  {
    seq(|payload|, i requires 0 <= i < |payload| => payload[i] ^ MaskByte(mask, i))
  }

  function Header(f: Frame): seq<bv8> {
    [FIN | CodeOf(f.op)] + LengthField(|f.payload|, if f.mask.Unmasked? then 0 else MASKED) + KeyBytes(f.mask)
  }

  function Encode(f: Frame): seq<bv8> {
    Header(f) + Masked(f.payload, f.mask)
  }

  function EncodeAll(fs: seq<Frame>): seq<bv8> {
    if fs == [] then [] else Encode(fs[0]) + EncodeAll(fs[1..])
  }

  lemma {:induction false} EncodeAllFrom(fs: seq<Frame>, i: nat)
    requires i <= |fs|
    ensures EncodeAll(fs) == EncodeAll(fs[..i]) + EncodeAll(fs[i..])
  {
    hide Encode;
    if i == 0 {
      assert fs[..0] == [] && fs[0..] == fs;
    } else {
      EncodeAllFrom(fs[1..], i - 1);
      assert fs[1..][..i - 1] == fs[..i][1..] && fs[1..][i - 1..] == fs[i..];
      Concat(Encode(fs[0]), EncodeAll(fs[..i][1..]), EncodeAll(fs[i..]));
    }
  }

  // ---------- Decoding ----------

  // PastEnd stands for a read beyond the end of the buffer.
  datatype Outcome =
    | NoMessage
    | Error(next: nat)
    | Message(op: Opcode, payload: seq<bv8>, next: nat)
    | PastEnd

  function Next(o: Outcome, start: nat): nat {
    if o.Error? || o.Message? then o.next else start
  }

  // htons and __bswap_64 on the raw bytes.
  function Value(s: seq<bv8>): nat {
    if s == [] then 0 else Value(s[..|s| - 1]) * 256 + FromByte(s[|s| - 1])
  }

  // The byte of the mask word for byte i of the payload: the word shifted by (3 - i % 4) * 8.
  function KeyByte(mask: bv32, i: nat): bv8 {
    if i % 4 == 0 then Byte3(mask) else if i % 4 == 1 then Byte2(mask) else if i % 4 == 2 then Byte1(mask) else Byte0(mask)
  }

  function Unmask(bytes: seq<bv8>, mask: bv32): (s: seq<bv8>)
    ensures |s| == |bytes|
  {
    seq(|bytes|, i requires 0 <= i < |bytes| => bytes[i] ^ KeyByte(mask, i))
  }

  predicate Known(code: bv8) {
    code == 0x1 || code == 0x2 || code == 0x8 || code == 0x9 || code == 0xa
  }

  function OpcodeOf(code: bv8): Opcode
    requires Known(code)
  {
    if code == 0x1 then Text
    else if code == 0x2 then Binary
    else if code == 0x8 then Close
    else if code == 0x9 then Ping
    else Pong
  }

  function DecodePayload(buffer: seq<bv8>, code: bv8, length: nat, mask: bv32, ptr: nat): Outcome
    requires ptr <= |buffer|
  {
    if length > |buffer| - ptr then NoMessage
    else if !Known(code) then Error(ptr + length)
    else Message(OpcodeOf(code), Unmask(buffer[ptr..ptr + length], mask), ptr + length)
  }

  function DecodeMask(buffer: seq<bv8>, code: bv8, masked: bool, length: nat, ptr: nat): Outcome
    requires ptr <= |buffer|
  {
    if !masked then DecodePayload(buffer, code, length, 0, ptr)
    else if |buffer| < ptr + 4 then NoMessage
    else DecodePayload(buffer, code, length, WordOf(buffer[ptr], buffer[ptr + 1], buffer[ptr + 2], buffer[ptr + 3]), ptr + 4)
  }

  // The length checks compare the size of the whole buffer, not of what is left of it.
  function DecodeLength(buffer: seq<bv8>, code: bv8, masked: bool, short: bv8, ptr: nat): Outcome
    requires ptr <= |buffer|
  {
    if short == 126 then
      if |buffer| < 4 then NoMessage
      else if |buffer| < ptr + 2 then PastEnd
      else DecodeMask(buffer, code, masked, Value(buffer[ptr..ptr + 2]), ptr + 2)
    else if short == 127 then
      if |buffer| < 10 then NoMessage
      else if |buffer| < ptr + 8 then PastEnd
      else DecodeMask(buffer, code, masked, Value(buffer[ptr..ptr + 8]), ptr + 8)
    else DecodeMask(buffer, code, masked, FromByte(short), ptr)
  }

  function Decode(buffer: seq<bv8>, start: nat): Outcome {
    if start + 1 >= |buffer| then NoMessage
    else
      var b0, b1 := buffer[start], buffer[start + 1];
      if b0 & 0x80 == 0 || b0 & 0x30 != 0 then Error(start)
      else DecodeLength(buffer, b0 & 0xf, b1 & 0x80 != 0, b1 & 0x7f, start + 2)
  }

  // ---------- Lengths ----------

  function Power256(count: nat): (p: nat)
    ensures p > 0
  {
    if count == 0 then 1 else 256 * Power256(count - 1)
  }

  lemma LowestByte(n: nat)
    ensures FromByte(ByteOf(n, 0)) == n % 256
  {
    ThereAndBack(LongByte(n, 0));
  }

  lemma HigherByte(n: nat, i: nat)
    ensures ByteOf(n, i + 1) == ByteOf(n / 256, i)
  {
  }

  lemma {:induction false} ValueOfBig(n: nat, count: nat)
    requires n < Power256(count)
    ensures Value(Big(n, count)) == n
  {
    hide ByteOf;
    if count > 0 {
      var s := Big(n, count);
      var front := s[..count - 1];
      forall i | 0 <= i < count - 1 ensures front[i] == ByteOf(n / 256, count - 2 - i) {
        HigherByte(n, count - 2 - i);
      }
      assert front == Big(n / 256, count - 1);
      ValueOfBig(n / 256, count - 1);
      LowestByte(n);
    }
  }

  lemma Powers()
    ensures Power256(2) == 0x1_0000 && Power256(8) == 0x1_0000_0000_0000_0000
  {
    assert Power256(4) == 0x1_0000_0000;
    assert Power256(6) == 0x1_0000_0000_0000;
  }

  // ---------- Masks ----------

  lemma HighBytes(k0: bv8, k1: bv8, k2: bv8, k3: bv8)
    ensures Byte3(WordOf(k0, k1, k2, k3)) == k0 && Byte2(WordOf(k0, k1, k2, k3)) == k1
  {
  }

  lemma LowBytes(k0: bv8, k1: bv8, k2: bv8, k3: bv8)
    ensures Byte1(WordOf(k0, k1, k2, k3)) == k2 && Byte0(WordOf(k0, k1, k2, k3)) == k3
  {
  }

  lemma NoKey()
    ensures Byte3(0) == 0 && Byte2(0) == 0 && Byte1(0) == 0 && Byte0(0) == 0
  {
  }

  function WordOfMask(mask: Mask): bv32 {
    match mask
    case Unmasked => 0
    case Key(k0, k1, k2, k3) => WordOf(k0, k1, k2, k3)
  }

  lemma MaskByteIs(mask: Mask, i: nat)
    ensures KeyByte(WordOfMask(mask), i) == MaskByte(mask, i)
  {
    hide Byte3, Byte2, Byte1, Byte0, WordOf;
    NoKey();
    if mask.Key? {
      HighBytes(mask.k0, mask.k1, mask.k2, mask.k3);
      LowBytes(mask.k0, mask.k1, mask.k2, mask.k3);
    }
  }

  lemma Twice(x: bv8, k: bv8)
    ensures (x ^ k) ^ k == x
  {
  }

  lemma UnmaskMasked(payload: seq<bv8>, mask: Mask)
    ensures Unmask(Masked(payload, mask), WordOfMask(mask)) == payload
  {
    hide KeyByte, MaskByte, WordOfMask;
    forall i | 0 <= i < |payload| ensures Unmask(Masked(payload, mask), WordOfMask(mask))[i] == payload[i] {
      MaskByteIs(mask, i);
      Twice(payload[i], MaskByte(mask, i));
    }
  }

  // ---------- Round trip ----------

  // The bytes of s stand at a place of the buffer.
  predicate At(buffer: seq<bv8>, start: nat, s: seq<bv8>) {
    start + |s| <= |buffer| && buffer[start..start + |s|] == s
  }

  lemma AtParts(buffer: seq<bv8>, start: nat, a: seq<bv8>, b: seq<bv8>)
    requires At(buffer, start, a + b)
    ensures At(buffer, start, a) && At(buffer, start + |a|, b)
  {
    var s := a + b;
    assert buffer[start..start + |s|][..|a|] == a && buffer[start..start + |s|][|a|..] == b;
  }

  // The first byte gives back the opcode, with no reserved bit set.
  lemma FirstByte(op: Opcode)
    ensures var b := FIN | CodeOf(op);
      b & 0x80 != 0 && b & 0x30 == 0 && b & 0x40 == 0 && b & 0xf == CodeOf(op)
    ensures Known(CodeOf(op)) && OpcodeOf(CodeOf(op)) == op
  {
  }

  // The second byte gives back the mask bit and the 7-bit length.
  lemma SecondByte(flag: bv8, short: bv8)
    requires (flag == 0 || flag == MASKED) && short < 0x80
    ensures (flag | short) & 0x7f == short && ((flag | short) & 0x80 != 0 <==> flag == MASKED)
  {
  }

  function FlagOf(mask: Mask): bv8 {
    if mask.Unmasked? then 0 else MASKED
  }

  // The 7 bits that stand for a length.
  function Short(n: nat): bv8 {
    if n < 126 then ToByte(n) else if n < 65536 then 126 else 127
  }

  lemma ShortIs(n: nat)
    ensures Short(n) < 0x80 && (n < 126 ==> FromByte(Short(n)) == n && Short(n) != 126 && Short(n) != 127)
  {
    hide ToByte;
    if n < 126 {
      ThereAndBack(n);
      hide FromByte;
      Reserved();
    }
  }

  // The two values of the 7 bits that stand for longer forms.
  lemma Reserved()
    ensures FromByte(126) == 126 && FromByte(127) == 127
  {
  }

  function Extended(n: nat): seq<bv8> {
    if n < 126 then [] else if n < 65536 then Big(n, 2) else Big(n, 8)
  }

  lemma LengthParts(n: nat, flag: bv8)
    ensures LengthField(n, flag) == [flag | Short(n)] + Extended(n)
  {
    hide Big, ToByte;
    if n < 126 {
      assert [flag | Short(n)] + [] == [flag | Short(n)];
    }
  }

  // From the mask on.
  lemma DecodeFromMask(buffer: seq<bv8>, ptr: nat, f: Frame)
    requires At(buffer, ptr, KeyBytes(f.mask) + Masked(f.payload, f.mask))
    ensures DecodeMask(buffer, CodeOf(f.op), f.mask.Key?, |f.payload|, ptr)
      == Message(f.op, f.payload, ptr + |KeyBytes(f.mask)| + |f.payload|)
  {
    hide Masked, Unmask, WordOf, Known, OpcodeOf;
    var key, hidden := KeyBytes(f.mask), Masked(f.payload, f.mask);
    AtParts(buffer, ptr, key, hidden);
    UnmaskMasked(f.payload, f.mask);
    FirstByte(f.op);
    if f.mask.Key? {
      forall i | 0 <= i < 4 ensures buffer[ptr + i] == key[i] {
        assert buffer[ptr..ptr + 4][i] == key[i];
      }
    }
  }

  // From the extended length on.
  lemma DecodeFromLength(buffer: seq<bv8>, ptr: nat, f: Frame)
    requires ptr >= 2 && |f.payload| < 0x1_0000_0000_0000_0000
    requires At(buffer, ptr, Extended(|f.payload|) + (KeyBytes(f.mask) + Masked(f.payload, f.mask)))
    ensures DecodeLength(buffer, CodeOf(f.op), f.mask.Key?, Short(|f.payload|), ptr)
      == Message(f.op, f.payload, ptr + |Extended(|f.payload|)| + |KeyBytes(f.mask)| + |f.payload|)
  {
    hide Masked, DecodeMask, Big, Value, Short;
    var n := |f.payload|;
    ShortIs(n);
    Powers();
    AtParts(buffer, ptr, Extended(n), KeyBytes(f.mask) + Masked(f.payload, f.mask));
    DecodeFromMask(buffer, ptr + |Extended(n)|, f);
    if n >= 126 {
      ValueOfBig(n, if n < 65536 then 2 else 8);
      LongShort(n);
    }
  }

  lemma LongShort(n: nat)
    requires n >= 126
    ensures Short(n) == if n < 65536 then 126 else 127
  {
  }

  function SizeOf(f: Frame): nat {
    2 + |Extended(|f.payload|)| + |KeyBytes(f.mask)| + |f.payload|
  }

  lemma EncodeParts(f: Frame)
    ensures |FirstTwo(f)| == 2 && Encode(f) == FirstTwo(f)
      + (Extended(|f.payload|) + (KeyBytes(f.mask) + Masked(f.payload, f.mask)))
    ensures |Encode(f)| == SizeOf(f)
  {
    hide Masked, Big, Short, LengthField, Extended, KeyBytes;
    LengthParts(|f.payload|, FlagOf(f.mask));
    Regrouped(FIN | CodeOf(f.op), FlagOf(f.mask) | Short(|f.payload|), Extended(|f.payload|), KeyBytes(f.mask),
              Masked(f.payload, f.mask));
  }

  lemma Regrouped(b0: bv8, b1: bv8, x: seq<bv8>, k: seq<bv8>, p: seq<bv8>)
    ensures [b0] + ([b1] + x) + k + p == [b0, b1] + (x + (k + p))
  {
  }

  lemma KeySize(mask: Mask)
    ensures |KeyBytes(mask)| == (if mask.Key? then 4 else 0) && (FlagOf(mask) == MASKED <==> mask.Key?)
    ensures FlagOf(mask) == 0 || FlagOf(mask) == MASKED
  {
  }

  function FirstTwo(f: Frame): seq<bv8> {
    [FIN | CodeOf(f.op), FlagOf(f.mask) | Short(|f.payload|)]
  }

  // The first two bytes of a frame send the decoder on to the right length form.
  lemma DecodeFirstTwo(buffer: seq<bv8>, start: nat, f: Frame)
    requires start + 2 <= |buffer|
    requires buffer[start] == FirstTwo(f)[0] && buffer[start + 1] == FirstTwo(f)[1]
    ensures Decode(buffer, start) == DecodeLength(buffer, CodeOf(f.op), f.mask.Key?, Short(|f.payload|), start + 2)
    ensures buffer[start] & 0x40 == 0
  {
    hide DecodeLength, Short, CodeOf, FlagOf;
    FirstByte(f.op);
    ShortIs(|f.payload|);
    KeySize(f.mask);
    SecondByte(FlagOf(f.mask), Short(|f.payload|));
  }

  // A frame encoded anywhere in a buffer, whatever its length form, is decoded to what was encoded.
  lemma RoundTrip(buffer: seq<bv8>, start: nat, f: Frame)
    requires At(buffer, start, Encode(f)) && |f.payload| < 0x1_0000_0000_0000_0000
    ensures Decode(buffer, start) == Message(f.op, f.payload, start + |Encode(f)|)
    ensures buffer[start] & 0x40 == 0
  {
    hide Encode, Decode, Masked, DecodeLength, FirstTwo, Extended, KeyBytes;
    EncodeParts(f);
    AtParts(buffer, start, FirstTwo(f), Extended(|f.payload|) + (KeyBytes(f.mask) + Masked(f.payload, f.mask)));
    assert buffer[start] == buffer[start..start + 2][0] && buffer[start + 1] == buffer[start..start + 2][1];
    DecodeFirstTwo(buffer, start, f);
    DecodeFromLength(buffer, start + 2, f);
  }

  // ---------- Frames that have not arrived in full ----------

  // How many bytes the length field takes behind the 7 bits, and whether the check that should wait for
  // them lets the decoder go on: k bytes of the frame are there, at the end of a buffer of `size` bytes.
  predicate ReadsPast(n: nat, k: nat, size: nat) {
    k >= 2 && ((126 <= n < 65536 && k < 4 <= size) || (n >= 65536 && k < 10 <= size))
  }

  lemma ShortOfBytes(buffer: seq<bv8>, code: bv8, masked: bool, n: nat, ptr: nat)
    requires ptr <= |buffer| < ptr + n + if masked then 4 else 0
    ensures DecodeMask(buffer, code, masked, n, ptr) == NoMessage
  {
    hide WordOf, Unmask;
  }

  lemma ShortOfLength(buffer: seq<bv8>, ptr: nat, code: bv8, masked: bool, n: nat)
    requires 2 <= ptr <= |buffer| && n < 0x1_0000_0000_0000_0000
    requires |buffer| < ptr + |Extended(n)| + n + if masked then 4 else 0
    requires |buffer| >= ptr + |Extended(n)| ==> At(buffer, ptr, Extended(n))
    ensures DecodeLength(buffer, code, masked, Short(n), ptr)
      == if ReadsPast(n, |buffer| - ptr + 2, |buffer|) then PastEnd else NoMessage
  {
    hide DecodeMask, Big, Value, Short;
    ShortIs(n);
    if |buffer| >= ptr + |Extended(n)| {
      ShortOfBytes(buffer, code, masked, n, ptr + |Extended(n)|);
      Powers();
      if n >= 126 {
        ValueOfBig(n, if n < 65536 then 2 else 8);
      }
    }
    if n >= 126 {
      LongShort(n);
    }
  }

  // What a cut frame leaves in the buffer.
  lemma CutParts(buffer: seq<bv8>, start: nat, f: Frame, k: nat)
    requires 2 <= k < |Encode(f)| && At(buffer, start, Encode(f)[..k]) && start + k == |buffer|
    ensures |FirstTwo(f)| == 2 && buffer[start] == FirstTwo(f)[0] && buffer[start + 1] == FirstTwo(f)[1]
    ensures k >= 2 + |Extended(|f.payload|)| ==> At(buffer, start + 2, Extended(|f.payload|))
  {
    hide Encode, Masked, FirstTwo, Extended, KeyBytes;
    EncodeParts(f);
    var x, rest := Extended(|f.payload|), KeyBytes(f.mask) + Masked(f.payload, f.mask);
    var cut := Encode(f)[..k];
    assert cut == buffer[start..start + k];
    assert buffer[start] == cut[0] == Encode(f)[0] && buffer[start + 1] == cut[1] == Encode(f)[1];
    if k >= 2 + |x| {
      CutBehind(cut, FirstTwo(f), x, rest, k);
      AtParts(buffer, start, FirstTwo(f), x + rest[..k - 2 - |x|]);
      AtParts(buffer, start + 2, x, rest[..k - 2 - |x|]);
    }
  }

  lemma CutBehind(s: seq<bv8>, first: seq<bv8>, x: seq<bv8>, rest: seq<bv8>, k: nat)
    requires |first| + |x| <= k <= |first| + |x| + |rest| && s == (first + (x + rest))[..k]
    ensures s == first + (x + rest[..k - |first| - |x|])
  {
  }

  // Of the first frame in a buffer the decoder waits for the rest. Of a later one it waits too, unless the
  // long length is cut: then it reads past the end of the buffer, and exactly then.
  lemma Incomplete(buffer: seq<bv8>, start: nat, f: Frame, k: nat)
    requires k < |Encode(f)| && At(buffer, start, Encode(f)[..k]) && start + k == |buffer|
    requires |f.payload| < 0x1_0000_0000_0000_0000
    ensures Decode(buffer, start) == if ReadsPast(|f.payload|, k, |buffer|) then PastEnd else NoMessage
    ensures start == 0 ==> Decode(buffer, start) == NoMessage
  {
    hide Encode, Masked, DecodeLength, FirstTwo, Extended, KeyBytes;
    if k >= 2 {
      hide Decode, At;
      CutParts(buffer, start, f, k);
      DecodeFirstTwo(buffer, start, f);
      EncodeParts(f);
      KeySize(f.mask);
      ShortOfLength(buffer, start + 2, CodeOf(f.op), f.mask.Key?, |f.payload|);
    }
  }

  // On any bytes whatever, the decoder reads past the end of the buffer exactly when a whole frame header is
  // begun there, its length takes two or eight bytes more, and the buffer as a whole, but not what is left of
  // it, is long enough for them. At the start of a buffer that cannot be.
  lemma PastEndExactly(buffer: seq<bv8>, start: nat)
    ensures Decode(buffer, start).PastEnd? <==>
      && start + 1 < |buffer|
      && buffer[start] & 0x80 != 0 && buffer[start] & 0x30 == 0
      && ((buffer[start + 1] & 0x7f == 126 && 4 <= |buffer| < start + 4)
          || (buffer[start + 1] & 0x7f == 127 && 10 <= |buffer| < start + 10))
    ensures !Decode(buffer, 0).PastEnd?
  {
    hide Value, WordOf, Unmask, Known, OpcodeOf;
  }
}
