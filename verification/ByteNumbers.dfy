/** Numbers as bytes, and back. */
module ByteNumbers {
  import Euclid

  // A byte from its binary digits, the highest first.
  function Bits(b7: bool, b6: bool, b5: bool, b4: bool, b3: bool, b2: bool, b1: bool, b0: bool): bv8 {
    (((if b7 then 0x80 else 0) | (if b6 then 0x40 else 0)) | ((if b5 then 0x20 else 0) | (if b4 then 0x10 else 0)))
    | (((if b3 then 0x08 else 0) | (if b2 then 0x04 else 0)) | ((if b1 then 0x02 else 0) | (if b0 then 0x01 else 0)))
  }

  // Binary digit i of a number, counted from the low end.
  predicate HasBit(m: nat, i: nat) {
    if i == 0 then m % 2 == 1 else HasBit(m / 2, i - 1)
  }

  function ToByte(m: nat): bv8
    requires m < 256
  {
    Bits(HasBit(m, 7), HasBit(m, 6), HasBit(m, 5), HasBit(m, 4), HasBit(m, 3), HasBit(m, 2), HasBit(m, 1), HasBit(m, 0))
  }

  function One(b: bool): (d: nat)
    ensures d <= 1
  {
    if b then 1 else 0
  }

  // The number with these binary digits, the highest first.
  function Sum(b7: bool, b6: bool, b5: bool, b4: bool, b3: bool, b2: bool, b1: bool, b0: bool): (m: nat)
    ensures m < 256
  {
    128 * One(b7) + 64 * One(b6) + 32 * One(b5) + 16 * One(b4) + 8 * One(b3) + 4 * One(b2) + 2 * One(b1) + One(b0)
  }

  function FromByte(b: bv8): (m: nat)
    ensures m < 256
  {
    Sum(b & 0x80 != 0, b & 0x40 != 0, b & 0x20 != 0, b & 0x10 != 0, b & 0x08 != 0, b & 0x04 != 0, b & 0x02 != 0, b & 0x01 != 0)
  }

  lemma BitsRead(b7: bool, b6: bool, b5: bool, b4: bool, b3: bool, b2: bool, b1: bool, b0: bool)
    ensures var b := Bits(b7, b6, b5, b4, b3, b2, b1, b0);
      && (b & 0x80 != 0 <==> b7) && (b & 0x40 != 0 <==> b6) && (b & 0x20 != 0 <==> b5) && (b & 0x10 != 0 <==> b4)
      && (b & 0x08 != 0 <==> b3) && (b & 0x04 != 0 <==> b2) && (b & 0x02 != 0 <==> b1) && (b & 0x01 != 0 <==> b0)
      && (!b7 ==> b < 0x80)
  {
  }

  // A number without its lowest i digits.
  function Shifted(m: nat, i: nat): nat {
    if i == 0 then m else Shifted(m / 2, i - 1)
  }

  lemma {:induction false} NextDigit(m: nat, i: nat)
    ensures Shifted(m, i) == 2 * Shifted(m, i + 1) + One(HasBit(m, i))
  {
    if i == 0 {
      assert Shifted(m, 1) == Shifted(m / 2, 0);
    } else {
      NextDigit(m / 2, i - 1);
    }
  }

  // Four digits of a number.
  function Nibble(m: nat, i: nat): (d: nat)
    ensures d < 16
  {
    8 * One(HasBit(m, i + 3)) + 4 * One(HasBit(m, i + 2)) + 2 * One(HasBit(m, i + 1)) + One(HasBit(m, i))
  }

  lemma FourDigits(m: nat, i: nat)
    ensures Shifted(m, i) == 16 * Shifted(m, i + 4) + Nibble(m, i)
  {
    hide HasBit, Shifted, One;
    NextDigit(m, i);
    NextDigit(m, i + 1);
    NextDigit(m, i + 2);
    NextDigit(m, i + 3);
  }

  lemma TwoNibbles(m: nat)
    requires m < 256
    ensures m == 16 * Nibble(m, 4) + Nibble(m, 0)
  {
    assert Shifted(m, 0) == m;
    hide HasBit, Shifted, One, Nibble;
    FourDigits(m, 0);
    FourDigits(m, 4);
    NothingLeft(m, Shifted(m, 4), Shifted(m, 8), Nibble(m, 0), Nibble(m, 4));
  }

  lemma NothingLeft(m: nat, half: nat, rest: nat, low: nat, high: nat)
    requires m < 256 && m == 16 * half + low && half == 16 * rest + high
    ensures rest == 0 && m == 16 * high + low
  {
  }

  lemma DigitsSum(m: nat)
    ensures 16 * Nibble(m, 4) + Nibble(m, 0) ==
      Sum(HasBit(m, 7), HasBit(m, 6), HasBit(m, 5), HasBit(m, 4), HasBit(m, 3), HasBit(m, 2), HasBit(m, 1), HasBit(m, 0))
    ensures HasBit(m, 7) ==> Nibble(m, 4) >= 8
  {
    hide HasBit;
  }

  lemma ThereAndBack(m: nat)
    requires m < 256
    ensures FromByte(ToByte(m)) == m && (m < 128 ==> ToByte(m) < 0x80)
  {
    hide Bits, HasBit, Sum, Nibble;
    BitsRead(HasBit(m, 7), HasBit(m, 6), HasBit(m, 5), HasBit(m, 4), HasBit(m, 3), HasBit(m, 2), HasBit(m, 1), HasBit(m, 0));
    DigitsSum(m);
    TwoNibbles(m);
  }

  // A word from four bytes, the first the highest.
  function WordOf(b0: bv8, b1: bv8, b2: bv8, b3: bv8): bv32 {
    (((b0 as bv32) << 24) | ((b1 as bv32) << 16)) | ((b2 as bv32) << 8) | (b3 as bv32)
  }

  // The bytes of a word, byte 3 the highest.
  function Byte3(word: bv32): bv8 {
    ((word >> 24) & 0xff) as bv8
  }

  function Byte2(word: bv32): bv8 {
    ((word >> 16) & 0xff) as bv8
  }

  function Byte1(word: bv32): bv8 {
    ((word >> 8) & 0xff) as bv8
  }

  function Byte0(word: bv32): bv8 {
    (word & 0xff) as bv8
  }

  // Byte i of a 32-bit word, counted from the low end: the shifts of the source.
  function WordByte(word: nat, i: nat): (b: nat)
    ensures b < 256
  {
    (if i == 0 then word else if i == 1 then word / 0x100 else if i == 2 then word / 0x1_0000 else word / 0x100_0000) % 256
  }

  function ByteOfWord(word: nat, i: nat): bv8 {
    ToByte(WordByte(word, i))
  }

  // Byte i of a 64-bit number.
  function LongByte(n: nat, i: nat): (b: nat)
    ensures b < 256
  {
    if i == 0 then n % 256 else LongByte(n / 256, i - 1)
  }

  function ByteOf(n: nat, i: nat): bv8 {
    ToByte(LongByte(n, i))
  }

  const WORD: nat := 0x1_0000_0000

  lemma {:induction false} LongByteUnrolled(n: nat)
    ensures LongByte(n, 0) == n % 256
    ensures LongByte(n, 1) == n / 256 % 256
    ensures LongByte(n, 2) == n / 256 / 256 % 256
    ensures LongByte(n, 3) == n / 256 / 256 / 256 % 256
    ensures forall i | 4 <= i :: LongByte(n, i) == LongByte(n / 256 / 256 / 256 / 256, i - 4)
  {
    var n1, n2, n3 := n / 256, n / 256 / 256, n / 256 / 256 / 256;
    assert LongByte(n, 1) == LongByte(n1, 0);
    assert LongByte(n, 2) == LongByte(n1, 1) == LongByte(n2, 0);
    assert LongByte(n, 3) == LongByte(n1, 2) == LongByte(n2, 1) == LongByte(n3, 0);
    forall i | 4 <= i ensures LongByte(n, i) == LongByte(n / 256 / 256 / 256 / 256, i - 4) {
      assert LongByte(n, i) == LongByte(n1, i - 1) == LongByte(n2, i - 2) == LongByte(n3, i - 3);
    }
  }

  lemma Shifts(n: nat)
    ensures n / 256 / 256 == n / 0x1_0000 && n / 256 / 256 / 256 == n / 0x100_0000
    ensures n / 256 / 256 / 256 / 256 == n / WORD
  {
  }

  lemma LowByte(high: nat, low: nat, i: nat)
    requires i < 4
    ensures WordByte(high * WORD + low, i) == WordByte(low, i)
  {
    if i == 0 {
      Digit(high * 0x100_0000, low, high * WORD, 1);
    } else if i == 1 {
      Digit(high * 0x1_0000, low, high * 0x100_0000, 0x100);
    } else if i == 2 {
      Digit(high * 0x100, low, high * 0x1_0000, 0x1_0000);
    } else {
      Digit(high, low, high * 0x100, 0x100_0000);
    }
  }

  // A multiple of 256 * d does not change the digit above d.
  lemma Digit(k: nat, low: nat, m: nat, d: nat)
    requires d > 0 && m == k * 256
    ensures (m * d + low) / d % 256 == low / d % 256
  {
    var x := low / d;
    assert low == x * d + low % d;
    Euclid.Distribute(m, x, d);
    Euclid.Reduce(m * d + low, m + x, low % d, d);
    Euclid.Reduce(m + x, k + x / 256, x % 256, 256);
  }

  // A length kept in two words gives the eight bytes of the whole.
  lemma TwoWords(high: nat, low: nat, i: nat)
    requires low < WORD && high < WORD && i < 8
    ensures LongByte(high * WORD + low, i) == if i < 4 then WordByte(low, i) else WordByte(high, i - 4)
  {
    hide LongByte;
    var n := high * WORD + low;
    LongByteUnrolled(n);
    LongByteUnrolled(high);
    Shifts(n);
    Shifts(high);
    assert n / WORD == high;
    if i < 4 {
      LowByte(high, low, i);
    }
  }
}
