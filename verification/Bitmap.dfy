/**
 The packed bitmap of kernel/lib/bitmap.cpp: bit `offset` lives in byte `offset / 8`, most
 significant bit first.  `Bits` is its meaning as a plain sequence of booleans.
 */
module Bitmaps {

  /** Bit k of a byte, counted from the most significant end, as `Bitmap::get` extracts it. */
  function BitOf(b: bv8, k: nat): bool
    requires k < 8
  {
    (b << k) >> 7 != 0
  }

  /** The byte with only bit k set. */
  function BitIndexer(k: nat): bv8
    requires k < 8
  {
    0x80 >> k
  }

  /** Clear the selected bits, then set them if asked to. */
  function WithMask(b: bv8, mask: bv8, value: bool): bv8 {
    var cleared := b & !mask;
    if value then cleared | mask else cleared
  }

  /** The byte that `Bitmap::set` writes back. */
  function WithBit(b: bv8, k: nat, value: bool): bv8
    requires k < 8
  {
    WithMask(b, BitIndexer(k), value)
  }

  lemma BitOfIsMask(b: bv8, k: nat)
    requires k < 8
    ensures BitOf(b, k) == (b & BitIndexer(k) != 0)
  {
  }

  /** Bits are counted from the most significant end. */
  lemma BitPlaces(b: bv8)
    ensures BitOf(b, 0) <==> b & 0x80 != 0
    ensures BitOf(b, 1) <==> b & 0x40 != 0
    ensures BitOf(b, 2) <==> b & 0x20 != 0
    ensures BitOf(b, 3) <==> b & 0x10 != 0
    ensures BitOf(b, 4) <==> b & 8 != 0
    ensures BitOf(b, 5) <==> b & 4 != 0
    ensures BitOf(b, 6) <==> b & 2 != 0
    ensures BitOf(b, 7) <==> b & 1 != 0
  {
  }

  lemma IndexersDisjoint(k: nat, j: nat)
    requires k < 8 && j < 8
    ensures BitIndexer(k) != 0
    ensures j != k ==> BitIndexer(k) & BitIndexer(j) == 0
  {
  }

  lemma MaskWrite(b: bv8, mask: bv8, other: bv8, value: bool)
    requires mask != 0
    ensures (WithMask(b, mask, value) & mask != 0) == value
    ensures mask & other == 0 ==> WithMask(b, mask, value) & other == b & other
  {
  }

  /** Writing one bit of a byte changes that bit and no other. */
  lemma WithBitIsUpdate(b: bv8, k: nat, value: bool, j: nat)
    requires k < 8 && j < 8
    ensures BitOf(WithBit(b, k, value), j) == if j == k then value else BitOf(b, j)
  {
    hide BitOf, BitIndexer, WithMask;
    BitOfIsMask(WithBit(b, k, value), j);
    BitOfIsMask(b, j);
    IndexersDisjoint(k, j);
    MaskWrite(b, BitIndexer(k), BitIndexer(j), value);
  }

  function ByteBits(b: bv8): seq<bool> {
    seq(8, k requires 0 <= k < 8 => BitOf(b, k))
  }

  /** A sequence of bytes read as a sequence of bits. */
  ghost function Unpack(bytes: seq<bv8>): (bits: seq<bool>)
    ensures |bits| == 8 * |bytes|
  {
    if bytes == [] then [] else Unpack(bytes[..|bytes| - 1]) + ByteBits(bytes[|bytes| - 1])
  }

  lemma {:induction false} UnpackAt(bytes: seq<bv8>, i: nat)
    requires i < 8 * |bytes|
    ensures Unpack(bytes)[i] == BitOf(bytes[i / 8], i % 8)
  {
    var last := |bytes| - 1;
    if i < 8 * last {
      UnpackAt(bytes[..last], i);
    } else {
      assert Unpack(bytes)[i] == ByteBits(bytes[last])[i - 8 * last];
    }
  }

  class Bitmap {
    var Size: nat
    var Buffer: array<bv8>

    /** A bitmap over a fresh buffer whose contents are arbitrary. */
    constructor (size: nat)
      ensures Size == size && Buffer.Length == size && fresh(Buffer)
    {
      Size := size;
      Buffer := new bv8[size];
    }

    ghost predicate Valid()
      reads this
    {
      Size == Buffer.Length
    }

    ghost function Bits(): (bits: seq<bool>)
      requires Valid()
      reads this, Buffer
      ensures |bits| == 8 * Size
    {
      Unpack(Buffer[..])
    }

    /**
     Reads a bit; an offset above `Size * 8` reads as false.  The offset `Size * 8` itself passes
     the source's test and would read the byte after the buffer, so the caller must avoid it.
     */
    method Get(offset: nat) returns (r: bool)
      requires Valid()
      requires offset != Size * 8
      ensures r == (offset < Size * 8 && Bits()[offset])
    {
      if offset > Size * 8 {
        return false;
      }
      UnpackAt(Buffer[..], offset);
      var temp := Buffer[offset / 8];
      temp := temp << (offset % 8);
      temp := temp >> 7;
      return temp != 0;
    }

    /** Writes a bit: as a boolean array, exactly one position changes. */
    method Set(offset: nat, value: bool) returns (ok: bool)
      requires Valid()
      requires offset != Size * 8
      modifies Buffer
      ensures ok == (offset < Size * 8)
      ensures Bits() == if ok then old(Bits())[offset := value] else old(Bits())
    {
      if offset > Size * 8 {
        return false;
      }
      ghost var before := Buffer[..];
      WriteByte(Buffer, offset / 8, BitIndexer(offset % 8), value);
      assert Buffer[..] == before[offset / 8 := WithBit(before[offset / 8], offset % 8, value)];
      UnpackUpdate(before, offset, value);
      return true;
    }
  }

  /** The two stores of `Bitmap::set`. */
  method WriteByte(buffer: array<bv8>, off2: nat, bitIndexer: bv8, value: bool)
    requires off2 < buffer.Length
    modifies buffer
    ensures buffer[off2] == WithMask(old(buffer[off2]), bitIndexer, value)
    ensures forall i :: 0 <= i < buffer.Length && i != off2 ==> buffer[i] == old(buffer[i])
  {
    var cleared := buffer[off2] & !bitIndexer;
    buffer[off2] := cleared;
    if value {
      buffer[off2] := cleared | bitIndexer;
    }
  }

  lemma UnpackUpdate(bytes: seq<bv8>, offset: nat, value: bool)
    requires offset < 8 * |bytes|
    ensures Unpack(bytes[offset / 8 := WithBit(bytes[offset / 8], offset % 8, value)])
            == Unpack(bytes)[offset := value]
  {
    var bytes' := bytes[offset / 8 := WithBit(bytes[offset / 8], offset % 8, value)];
    forall i | 0 <= i < 8 * |bytes|
      ensures Unpack(bytes')[i] == Unpack(bytes)[offset := value][i]
    {
      UnpackAt(bytes, i);
      UnpackAt(bytes', i);
      if i / 8 == offset / 8 {
        WithBitIsUpdate(bytes[offset / 8], offset % 8, value, i % 8);
      }
    }
  }

  /**
   The bounds test of `get` and `set` lets one offset too many through: an offset that passes it
   stays inside the buffer exactly when it is not `8 * size`.
   */
  lemma GuardIsOffByOne(size: nat, offset: nat)
    requires !(offset > size * 8)
    ensures offset / 8 < size <==> offset != size * 8
  {
  }
}
