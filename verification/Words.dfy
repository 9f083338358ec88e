/**
 Conversion between the natural numbers that the allocators compute with and the 64-bit
 words in which page-table entries are packed.  A word is assembled byte by byte, so that
 the round trip is provable: a frame number below 2^52 (every 64-bit address shifted right
 by 12) survives the packing, reduced to the 40 bits that an entry keeps.
 */
module Words {

  const FRAME_LIMIT: nat := 0x100_0000_0000            // 2^40: frame numbers an entry can hold
  const SHIFTED_LIMIT: nat := 0x10_0000_0000_0000      // 2^52: a 64-bit address shifted right by 12
  const FRAME_MASK: bv64 := 0x000000ffffffffff

  /** The part of a shifted address that an entry keeps: its low 40 bits. */
  function KeptBits(n: nat): (g: nat)
    ensures n < FRAME_LIMIT ==> g == n
  {
    n % FRAME_LIMIT
  }

  /** Eight bits, most significant first, as a byte. */
  function Byte(b7: bool, b6: bool, b5: bool, b4: bool, b3: bool, b2: bool, b1: bool, b0: bool): bv8 {
    (if b7 then 0x80 else 0) | (if b6 then 0x40 else 0) | (if b5 then 0x20 else 0) | (if b4 then 0x10 else 0)
    | (if b3 then 8 else 0) | (if b2 then 4 else 0) | (if b1 then 2 else 0) | (if b0 then 1 else 0)
  }

  /** The number that eight bits spell out. */
  function Number(b7: bool, b6: bool, b5: bool, b4: bool, b3: bool, b2: bool, b1: bool, b0: bool): (n: nat)
    ensures n < 256
  {
    (if b7 then 128 else 0) + (if b6 then 64 else 0) + (if b5 then 32 else 0) + (if b4 then 16 else 0)
    + (if b3 then 8 else 0) + (if b2 then 4 else 0) + (if b1 then 2 else 0) + (if b0 then 1 else 0)
  }

  /** The value of a byte. */
  function Value(b: bv8): nat {
    Number(b & 0x80 != 0, b & 0x40 != 0, b & 0x20 != 0, b & 0x10 != 0, b & 8 != 0, b & 4 != 0, b & 2 != 0, b & 1 != 0)
  }

  /** The low byte of w as a number. */
  function ByteValue(w: bv64): nat {
    Value((w & 0xff) as bv8)
  }

  /** Seven bytes side by side, least significant first. */
  function Pack(b0: bv8, b1: bv8, b2: bv8, b3: bv8, b4: bv8, b5: bv8, b6: bv8): bv64 {
    (b0 as bv64) | ((b1 as bv64) << 8) | ((b2 as bv64) << 16) | ((b3 as bv64) << 24)
    | ((b4 as bv64) << 32) | ((b5 as bv64) << 40) | ((b6 as bv64) << 48)
  }

  predicate Odd(n: nat) { n % 2 == 1 }

  /** The low byte of n: its last eight binary digits. */
  function LowByte(n: nat): bv8 {
    var n1 := n / 2;
    var n2 := n1 / 2;
    var n3 := n2 / 2;
    var n4 := n3 / 2;
    var n5 := n4 / 2;
    var n6 := n5 / 2;
    Byte(Odd(n6 / 2), Odd(n6), Odd(n5), Odd(n4), Odd(n3), Odd(n2), Odd(n1), Odd(n))
  }

  function ToWord(n: nat): bv64
    requires n < SHIFTED_LIMIT
  {
    Pack(LowByte(n), LowByte(n / 0x100), LowByte(n / 0x1_0000), LowByte(n / 0x100_0000),
         LowByte(n / 0x1_0000_0000), LowByte(n / 0x100_0000_0000), LowByte(n / 0x1_0000_0000_0000))
  }

  /** The number held in the low 40 bits of w. */
  function FromWord(w: bv64): (n: nat) {
    ByteValue(w)
    + 0x100 * ByteValue(w >> 8)
    + 0x1_0000 * ByteValue(w >> 16)
    + 0x100_0000 * ByteValue(w >> 24)
    + 0x1_0000_0000 * ByteValue(w >> 32)
  }

  lemma ValueOfByte(b7: bool, b6: bool, b5: bool, b4: bool, b3: bool, b2: bool, b1: bool, b0: bool)
    ensures Value(Byte(b7, b6, b5, b4, b3, b2, b1, b0)) == Number(b7, b6, b5, b4, b3, b2, b1, b0)
  {
    var b := Byte(b7, b6, b5, b4, b3, b2, b1, b0);
    assert (b & 0x80 != 0) == b7 && (b & 0x40 != 0) == b6 && (b & 0x20 != 0) == b5 && (b & 0x10 != 0) == b4;
    assert (b & 8 != 0) == b3 && (b & 4 != 0) == b2 && (b & 2 != 0) == b1 && (b & 1 != 0) == b0;
  }

  lemma Halve(n: nat)
    ensures n == 2 * (n / 2) + if Odd(n) then 1 else 0
  {
  }

  lemma Assemble(n: nat, n1: nat, n2: nat, n3: nat, n4: nat, n5: nat, n6: nat, n7: nat, n8: nat,
                 b7: bool, b6: bool, b5: bool, b4: bool, b3: bool, b2: bool, b1: bool, b0: bool)
    requires n == 2 * n1 + (if b0 then 1 else 0) && n1 == 2 * n2 + (if b1 then 1 else 0)
    requires n2 == 2 * n3 + (if b2 then 1 else 0) && n3 == 2 * n4 + (if b3 then 1 else 0)
    requires n4 == 2 * n5 + (if b4 then 1 else 0) && n5 == 2 * n6 + (if b5 then 1 else 0)
    requires n6 == 2 * n7 + (if b6 then 1 else 0) && n7 == 2 * n8 + (if b7 then 1 else 0)
    ensures n == 256 * n8 + Number(b7, b6, b5, b4, b3, b2, b1, b0)
  {
  }

  lemma RemainderOf(n: nat, q: nat, r: nat)
    requires n == 256 * q + r && r < 256
    ensures n % 256 == r
  {
  }

  /** The last eight binary digits spell out the remainder modulo 256. */
  lemma NumberOfBits(n: nat, n1: nat, n2: nat, n3: nat, n4: nat, n5: nat, n6: nat, n7: nat)
    requires n1 == n / 2 && n2 == n1 / 2 && n3 == n2 / 2 && n4 == n3 / 2
    requires n5 == n4 / 2 && n6 == n5 / 2 && n7 == n6 / 2
    ensures Number(Odd(n7), Odd(n6), Odd(n5), Odd(n4), Odd(n3), Odd(n2), Odd(n1), Odd(n)) == n % 256
  {
    hide Odd, Number;
    Halve(n);
    Halve(n1);
    Halve(n2);
    Halve(n3);
    Halve(n4);
    Halve(n5);
    Halve(n6);
    Halve(n7);
    Assemble(n, n1, n2, n3, n4, n5, n6, n7, n7 / 2,
             Odd(n7), Odd(n6), Odd(n5), Odd(n4), Odd(n3), Odd(n2), Odd(n1), Odd(n));
    RemainderOf(n, n7 / 2, Number(Odd(n7), Odd(n6), Odd(n5), Odd(n4), Odd(n3), Odd(n2), Odd(n1), Odd(n)));
  }

  lemma ByteRoundTrip(n: nat)
    ensures Value(LowByte(n)) == n % 256
  {
    hide Value, Byte, Odd, Number;
    var n1 := n / 2;
    var n2 := n1 / 2;
    var n3 := n2 / 2;
    var n4 := n3 / 2;
    var n5 := n4 / 2;
    var n6 := n5 / 2;
    var n7 := n6 / 2;
    ValueOfByte(Odd(n7), Odd(n6), Odd(n5), Odd(n4), Odd(n3), Odd(n2), Odd(n1), Odd(n));
    NumberOfBits(n, n1, n2, n3, n4, n5, n6, n7);
  }

  /** Masking and shifting a packed word gives back the byte that was placed there. */
  lemma BytesOfWord(b0: bv8, b1: bv8, b2: bv8, b3: bv8, b4: bv8, b5: bv8, b6: bv8)
    ensures var w := Pack(b0, b1, b2, b3, b4, b5, b6) & FRAME_MASK;
            && (w & 0xff) as bv8 == b0
            && ((w >> 8) & 0xff) as bv8 == b1
            && ((w >> 16) & 0xff) as bv8 == b2
            && ((w >> 24) & 0xff) as bv8 == b3
            && ((w >> 32) & 0xff) as bv8 == b4
  {
  }

  lemma PackValue(b0: bv8, b1: bv8, b2: bv8, b3: bv8, b4: bv8, b5: bv8, b6: bv8)
    ensures FromWord(Pack(b0, b1, b2, b3, b4, b5, b6) & FRAME_MASK) ==
            Value(b0) + 0x100 * Value(b1) + 0x1_0000 * Value(b2) + 0x100_0000 * Value(b3) + 0x1_0000_0000 * Value(b4)
  {
    hide Value, Pack;
    BytesOfWord(b0, b1, b2, b3, b4, b5, b6);
  }

  lemma DigitsOfNumber(n: nat)
    requires n < SHIFTED_LIMIT
    ensures KeptBits(n) ==
            n % 256
            + 0x100 * (n / 0x100 % 256)
            + 0x1_0000 * (n / 0x1_0000 % 256)
            + 0x100_0000 * (n / 0x100_0000 % 256)
            + 0x1_0000_0000 * (n / 0x1_0000_0000 % 256)
  {
    var n1, n2, n3, n4 := n / 0x100, n / 0x1_0000, n / 0x100_0000, n / 0x1_0000_0000;
    assert n2 == n1 / 256;
    assert n3 == n2 / 256;
    assert n4 == n3 / 256;
    assert n / FRAME_LIMIT == n4 / 256;
  }

  /** Packing a shifted address and keeping 40 bits loses exactly the bits above them. */
  lemma WordRoundTrip(n: nat)
    requires n < SHIFTED_LIMIT
    ensures FromWord(ToWord(n) & FRAME_MASK) == KeptBits(n)
  {
    hide Value, LowByte, Pack, FromWord;
    PackValue(LowByte(n), LowByte(n / 0x100), LowByte(n / 0x1_0000), LowByte(n / 0x100_0000),
              LowByte(n / 0x1_0000_0000), LowByte(n / 0x100_0000_0000), LowByte(n / 0x1_0000_0000_0000));
    ByteRoundTrip(n);
    ByteRoundTrip(n / 0x100);
    ByteRoundTrip(n / 0x1_0000);
    ByteRoundTrip(n / 0x100_0000);
    ByteRoundTrip(n / 0x1_0000_0000);
    DigitsOfNumber(n);
  }

  // ---------- the word is the binary number ----------

  /** The top bit of a byte, as a number. */
  function Carry(b: bv8): nat { if b & 0x80 != 0 then 1 else 0 }

  /** A byte shifted left by one, the top bit of the byte below it coming in. */
  function Shifted(b: bv8, below: bv8): bv8 {
    (b << 1) | (below >> 7)
  }

  /** A word with a binary digit written behind it. */
  function Appended(w: bv64, digit: bv64): bv64 {
    (w << 1) | digit
  }

  lemma ShiftBits(b7: bool, b6: bool, b5: bool, b4: bool, b3: bool, b2: bool, b1: bool, b0: bool, below: bv8)
    ensures Byte(b6, b5, b4, b3, b2, b1, b0, Odd(Carry(below)))
            == Shifted(Byte(b7, b6, b5, b4, b3, b2, b1, b0), below)
    ensures Carry(Byte(b7, b6, b5, b4, b3, b2, b1, b0)) == if b7 then 1 else 0
  {
  }

  /** Twice n, with a bit brought in. */
  function Twice(n: nat, below: bv8): nat { 2 * n + Carry(below) }

  lemma Halved(n: nat, below: bv8)
    ensures Twice(n, below) / 2 == n && Odd(Twice(n, below)) == Odd(Carry(below))
  {
  }

  lemma ByteDoubles(n: nat, below: bv8)
    ensures LowByte(Twice(n, below)) == Shifted(LowByte(n), below)
  {
    hide Byte, Odd, Carry, Shifted, Twice;
    Halved(n, below);
    var n1 := n / 2;
    var n2 := n1 / 2;
    var n3 := n2 / 2;
    var n4 := n3 / 2;
    var n5 := n4 / 2;
    var n6 := n5 / 2;
    ShiftBits(Odd(n6 / 2), Odd(n6), Odd(n5), Odd(n4), Odd(n3), Odd(n2), Odd(n1), Odd(n), below);
  }

  /** The number without its low byte. */
  function Rest(n: nat): nat { n / 0x100 }

  /** The bit that leaves one byte enters the next. */
  lemma CarryDoubles(n: nat, below: bv8)
    ensures Rest(Twice(n, below)) == Twice(Rest(n), LowByte(n))
  {
    hide Byte, Odd, Shifted, Twice, Carry;
    var n1 := n / 2;
    var n2 := n1 / 2;
    var n3 := n2 / 2;
    var n4 := n3 / 2;
    var n5 := n4 / 2;
    var n6 := n5 / 2;
    var n7 := n6 / 2;
    ShiftBits(Odd(n7), Odd(n6), Odd(n5), Odd(n4), Odd(n3), Odd(n2), Odd(n1), Odd(n), below);
    Halve(n7);
    Halved(n, below);
    assert n7 == n / 0x80;
    assert n7 / 2 == Rest(n);
    assert Twice(n, below) / 0x100 == Twice(n, below) / 2 / 0x80;
    assert Rest(Twice(n, below)) == 2 * Rest(n) + Carry(LowByte(n));
    TwiceIs(Rest(n), LowByte(n));
  }

  lemma TwiceIs(n: nat, below: bv8)
    ensures Twice(n, below) == 2 * n + Carry(below)
  {
  }

  lemma PackShifts(b0: bv8, b1: bv8, b2: bv8, b3: bv8, b4: bv8, b5: bv8, b6: bv8, below: bv8)
    requires b6 & 0x80 == 0
    ensures Pack(Shifted(b0, below), Shifted(b1, b0), Shifted(b2, b1), Shifted(b3, b2),
                 Shifted(b4, b3), Shifted(b5, b4), Shifted(b6, b5))
            == Appended(Pack(b0, b1, b2, b3, b4, b5, b6), (below >> 7) as bv64)
  {
    hide Pack;
    PackMasks(b0, b1, b2, b3, b4, b5, b6, below >> 7);
  }

  lemma PackMasks(b0: bv8, b1: bv8, b2: bv8, b3: bv8, b4: bv8, b5: bv8, b6: bv8, z: bv8)
    requires b6 & 0x80 == 0
    ensures Pack((b0 << 1) | z, (b1 << 1) | (b0 >> 7), (b2 << 1) | (b1 >> 7), (b3 << 1) | (b2 >> 7),
                 (b4 << 1) | (b3 >> 7), (b5 << 1) | (b4 >> 7), (b6 << 1) | (b5 >> 7))
            == (Pack(b0, b1, b2, b3, b4, b5, b6) << 1) | z as bv64
  {
  }

  lemma ZeroByte()
    ensures LowByte(0) == 0
  {
  }

  lemma ZeroWord()
    ensures ToWord(0) == 0
  {
    hide LowByte;
    ZeroByte();
  }

  lemma NoCarryOut(n: nat)
    requires n < 0x10
    ensures LowByte(n) & 0x80 == 0
  {
    hide LowByte, Carry, Twice;
    CarryDoubles(n, 0);
    Digit(n);
    TwiceIs(Rest(n), LowByte(n));
    NoCarry(LowByte(n));
  }

  lemma NoCarry(b: bv8)
    ensures Carry(b) == 0 ==> b & 0x80 == 0
  {
  }

  /** The word, with the number taken apart byte by byte. */
  lemma ByteByByte(n: nat, n1: nat, n2: nat, n3: nat, n4: nat, n5: nat, n6: nat)
    requires n < SHIFTED_LIMIT
    requires n1 == Rest(n) && n2 == Rest(n1) && n3 == Rest(n2) && n4 == Rest(n3) && n5 == Rest(n4) && n6 == Rest(n5)
    ensures n6 < 0x10
    ensures ToWord(n) == Pack(LowByte(n), LowByte(n1), LowByte(n2), LowByte(n3), LowByte(n4), LowByte(n5), LowByte(n6))
  {
    hide LowByte, Pack;
    assert n2 == n / 0x1_0000;
    assert n3 == n / 0x100_0000;
    assert n4 == n / 0x1_0000_0000;
    assert n5 == n / 0x100_0000_0000;
    assert n6 == n / 0x1_0000_0000_0000;
  }

  lemma WordTwice(n: nat, below: bv8)
    requires n < SHIFTED_LIMIT && Twice(n, below) < SHIFTED_LIMIT
    ensures ToWord(Twice(n, below)) == Appended(ToWord(n), (below >> 7) as bv64)
  {
    hide *;
    var n1 := Rest(n);
    var n2 := Rest(n1);
    var n3 := Rest(n2);
    var n4 := Rest(n3);
    var n5 := Rest(n4);
    var n6 := Rest(n5);
    var b0, b1, b2, b3 := LowByte(n), LowByte(n1), LowByte(n2), LowByte(n3);
    var b4, b5, b6 := LowByte(n4), LowByte(n5), LowByte(n6);
    ByteDoubles(n, below);
    ByteDoubles(n1, b0);
    ByteDoubles(n2, b1);
    ByteDoubles(n3, b2);
    ByteDoubles(n4, b3);
    ByteDoubles(n5, b4);
    ByteDoubles(n6, b5);
    CarryDoubles(n, below);
    CarryDoubles(n1, b0);
    CarryDoubles(n2, b1);
    CarryDoubles(n3, b2);
    CarryDoubles(n4, b3);
    CarryDoubles(n5, b4);
    ByteByByte(n, n1, n2, n3, n4, n5, n6);
    ByteByByte(Twice(n, below), Twice(n1, b0), Twice(n2, b1), Twice(n3, b2),
               Twice(n4, b3), Twice(n5, b4), Twice(n6, b5));
    NoCarryOut(n6);
    PackShifts(b0, b1, b2, b3, b4, b5, b6, below);
  }

  lemma Digit(n: nat)
    ensures Twice(n, 0) == 2 * n && Twice(n, 0x80) == 2 * n + 1
    ensures (0 as bv8 >> 7) as bv64 == 0 && (0x80 as bv8 >> 7) as bv64 == 1
  {
  }

  /** The word is n in binary: zero is the zero word, and each binary digit of n is written behind those before it. */
  lemma WordDoubles(n: nat)
    requires 2 * n + 1 < SHIFTED_LIMIT
    ensures ToWord(0) == 0
    ensures ToWord(2 * n) == Appended(ToWord(n), 0)
    ensures ToWord(2 * n + 1) == Appended(ToWord(n), 1)
  {
    hide *;
    ZeroWord();
    Digit(n);
    WordTwice(n, 0);
    WordTwice(n, 0x80);
  }
}
