/**
 The 64-bit page-table entry of kernel/mem/paging.cpp: flags in the low and high bits, a 40-bit
 frame number in bits 12..51 (section 4.5, "4-Level Paging", of the Intel 64 and IA-32
 Architectures Software Developer's Manual, Volume 3A).  An entry is a value that the code copies
 out of a table, changes and stores back.
 */
module PageEntry {
  import opened Words

  datatype Flag =
    | Present | ReadWrite | UserSuper | WriteThrough | CacheDisabled | Accessed
    | LargerPages | Custom0 | Custom1 | Custom2 | NX

  function BitSelector(flag: Flag): bv64 {
    match flag
    case Present => 1
    case ReadWrite => 1 << 1
    case UserSuper => 1 << 2
    case WriteThrough => 1 << 3
    case CacheDisabled => 1 << 4
    case Accessed => 1 << 5
    case LargerPages => 1 << 7
    case Custom0 => 1 << 9
    case Custom1 => 1 << 10
    case Custom2 => 1 << 11
    case NX => 1 << 63
  }

  /** Clear the selected bits, then set them if asked to. */
  function SetMask(value: bv64, bitSelector: bv64, enabled: bool): bv64 {
    var cleared := value & !bitSelector;
    if enabled then cleared | bitSelector else cleared
  }

  function SetFlag(value: bv64, flag: Flag, enabled: bool): bv64 {
    SetMask(value, BitSelector(flag), enabled)
  }

  predicate HasMask(value: bv64, bitSelector: bv64) {
    value & bitSelector > 0
  }

  predicate GetFlag(value: bv64, flag: Flag) {
    HasMask(value, BitSelector(flag))
  }

  /** Each flag is the bit of the word that the hardware knows it by. */
  lemma FlagBits(value: bv64)
    ensures GetFlag(value, Present) <==> value & 1 != 0
    ensures GetFlag(value, ReadWrite) <==> value & 2 != 0
    ensures GetFlag(value, UserSuper) <==> value & 4 != 0
    ensures GetFlag(value, WriteThrough) <==> value & 8 != 0
    ensures GetFlag(value, CacheDisabled) <==> value & 0x10 != 0
    ensures GetFlag(value, Accessed) <==> value & 0x20 != 0
    ensures GetFlag(value, LargerPages) <==> value & 0x80 != 0
    ensures GetFlag(value, Custom0) <==> value & 0x200 != 0
    ensures GetFlag(value, Custom1) <==> value & 0x400 != 0
    ensures GetFlag(value, Custom2) <==> value & 0x800 != 0
    ensures GetFlag(value, NX) <==> value & 0x8000_0000_0000_0000 != 0
  {
    Selectors();
    hide BitSelector, HasMask;
    forall mask
      ensures HasMask(value, mask) <==> value & mask != 0
    {
      MaskTest(value, mask);
    }
  }

  lemma MaskTest(value: bv64, mask: bv64)
    ensures HasMask(value, mask) <==> value & mask != 0
  {
  }

  lemma Selectors()
    ensures BitSelector(Present) == 1 && BitSelector(ReadWrite) == 2 && BitSelector(UserSuper) == 4
    ensures BitSelector(WriteThrough) == 8 && BitSelector(CacheDisabled) == 0x10 && BitSelector(Accessed) == 0x20
    ensures BitSelector(LargerPages) == 0x80 && BitSelector(Custom0) == 0x200 && BitSelector(Custom1) == 0x400
    ensures BitSelector(Custom2) == 0x800 && BitSelector(NX) == 0x8000_0000_0000_0000
  {
  }

  function SetAddress(value: bv64, address: bv64): bv64 {
    var address := address & 0x000000ffffffffff;
    (value & 0xfff0000000000fff) | (address << 12)
  }

  function GetAddress(value: bv64): bv64 {
    (value & 0x000ffffffffff000) >> 12
  }

  /** The address field holds the low 40 bits of what was stored in it. */
  lemma AddressRoundTrip(value: bv64, address: bv64)
    ensures GetAddress(SetAddress(value, address)) == address & FRAME_MASK
  {
  }

  lemma SelectorOutsideAddress(flag: Flag)
    ensures BitSelector(flag) & 0x000ffffffffff000 == 0
    ensures BitSelector(flag) != 0
  {
    match flag
    case Present =>
    case ReadWrite =>
    case UserSuper =>
    case WriteThrough =>
    case CacheDisabled =>
    case Accessed =>
    case LargerPages =>
    case Custom0 =>
    case Custom1 =>
    case Custom2 =>
    case NX =>
  }

  lemma SelectorsDisjoint(f: Flag, g: Flag)
    requires f != g
    ensures BitSelector(f) & BitSelector(g) == 0
  {
  }

  lemma DisjointMasks(value: bv64, a: bv64, b: bv64, enabled: bool)
    requires a & b == 0
    ensures SetMask(value, a, enabled) & b == value & b
  {
  }

  lemma FlagWriteOwn(value: bv64, flag: Flag, enabled: bool)
    ensures GetFlag(SetFlag(value, flag, enabled), flag) == enabled
  {
    hide BitSelector, SetMask, HasMask;
    SelectorOutsideAddress(flag);
    WriteSelected(value, BitSelector(flag), enabled);
  }

  lemma FlagWriteOther(value: bv64, flag: Flag, enabled: bool, other: Flag)
    requires other != flag
    ensures GetFlag(SetFlag(value, flag, enabled), other) == GetFlag(value, other)
  {
    hide BitSelector, SetMask, HasMask;
    SelectorsDisjoint(flag, other);
    OtherMask(value, BitSelector(flag), enabled, BitSelector(other));
  }

  lemma OtherMask(value: bv64, bitSelector: bv64, enabled: bool, mask: bv64)
    requires bitSelector & mask == 0
    ensures HasMask(SetMask(value, bitSelector, enabled), mask) == HasMask(value, mask)
  {
    DisjointMasks(value, bitSelector, mask, enabled);
  }

  lemma FlagWriteAddress(value: bv64, flag: Flag, enabled: bool)
    ensures GetAddress(SetFlag(value, flag, enabled)) == GetAddress(value)
  {
    SelectorOutsideAddress(flag);
    DisjointMasks(value, BitSelector(flag), 0x000ffffffffff000, enabled);
  }

  /** A flag write changes that flag, no other flag and not the address. */
  lemma FlagWrite(value: bv64, flag: Flag, enabled: bool)
    ensures GetFlag(SetFlag(value, flag, enabled), flag) == enabled
    ensures forall g :: g != flag ==> GetFlag(SetFlag(value, flag, enabled), g) == GetFlag(value, g)
    ensures GetAddress(SetFlag(value, flag, enabled)) == GetAddress(value)
  {
    FlagWriteOwn(value, flag, enabled);
    FlagWriteAddress(value, flag, enabled);
    forall g | g != flag
      ensures GetFlag(SetFlag(value, flag, enabled), g) == GetFlag(value, g)
    {
      FlagWriteOther(value, flag, enabled, g);
    }
  }

  lemma WriteSelected(value: bv64, bitSelector: bv64, enabled: bool)
    requires bitSelector != 0
    ensures HasMask(SetMask(value, bitSelector, enabled), bitSelector) == enabled
  {
  }

  /** An address write changes no flag. */
  lemma AddressWriteKeepsFlags(value: bv64, address: bv64, flag: Flag)
    ensures GetFlag(SetAddress(value, address), flag) == GetFlag(value, flag)
  {
    SelectorOutsideAddress(flag);
    MaskedAddress(value, address, BitSelector(flag));
  }

  lemma MaskedAddress(value: bv64, address: bv64, a: bv64)
    requires a & 0x000ffffffffff000 == 0
    ensures SetAddress(value, address) & a == value & a
  {
  }

  // ---------- what the mapper stores ----------

  /** The entry that the mapper builds from the one it found: point it at a frame and enable it. */
  function Link(value: bv64, shifted: nat): bv64
    requires shifted < SHIFTED_LIMIT
  {
    SetFlag(SetFlag(SetFlag(SetAddress(value, ToWord(shifted)), Present, true), ReadWrite, true), NX, false)
  }

  function FrameOf(value: bv64): nat {
    FromWord(GetAddress(value))
  }

  /**
   A linked entry is present, writable and executable, holds the frame it was given (its low 40
   bits) and keeps every other flag of the entry it replaces.
   */
  lemma LinkedEntry(value: bv64, shifted: nat)
    requires shifted < SHIFTED_LIMIT
    ensures var e := Link(value, shifted);
            && FrameOf(e) == KeptBits(shifted)
            && GetFlag(e, Present) && GetFlag(e, ReadWrite) && !GetFlag(e, NX)
            && forall g :: g !in {Present, ReadWrite, NX} ==> GetFlag(e, g) == GetFlag(value, g)
  {
    var w := ToWord(shifted);
    var v0 := SetAddress(value, w);
    var v1 := SetFlag(v0, Present, true);
    var v2 := SetFlag(v1, ReadWrite, true);
    AddressRoundTrip(value, w);
    forall g
      ensures GetFlag(v0, g) == GetFlag(value, g)
    {
      AddressWriteKeepsFlags(value, w, g);
    }
    FlagWrite(v0, Present, true);
    FlagWrite(v1, ReadWrite, true);
    FlagWrite(v2, NX, false);
    WordRoundTrip(shifted);
  }

  /** The linked entry, word for word: bits 0 and 1 set, bit 63 clear, the frame from bit 12 on, the rest as it was. */
  lemma LinkedWord(value: bv64, shifted: nat)
    requires shifted < SHIFTED_LIMIT
    ensures Link(value, shifted) == (value & 0x7ff0_0000_0000_0ffc) | 3 | ((ToWord(shifted) & FRAME_MASK) << 12)
    ensures Link(value, shifted) & 0x8000_0000_0000_0003 == 3
  {
    hide ToWord;
    LinkedMasks(value, ToWord(shifted));
  }

  lemma LinkedMasks(value: bv64, address: bv64)
    ensures var e := SetFlag(SetFlag(SetFlag(SetAddress(value, address), Present, true), ReadWrite, true), NX, false);
            && e == (value & 0x7ff0_0000_0000_0ffc) | 3 | ((address & FRAME_MASK) << 12)
            && e & 0x8000_0000_0000_0003 == 3
  {
  }

  /** Of all bits outside the address field, exactly Present and ReadWrite are set. */
  predicate Writable(value: bv64) {
    value & 0xfff0_0000_0000_0fff == 3
  }

  /** What a table that started out zeroed may hold. */
  predicate ZeroOrWritable(value: bv64) {
    value == 0 || Writable(value)
  }

  /** A writable entry is present, executable, no large page, and free of every other flag. */
  lemma WritableFlags(value: bv64, flag: Flag)
    requires Writable(value)
    ensures GetFlag(value, flag) <==> flag in {Present, ReadWrite}
  {
    FlagBits(value);
    WritableMasks(value);
  }

  lemma WritableMasks(value: bv64)
    requires value & 0xfff0_0000_0000_0fff == 3
    ensures value & 1 != 0 && value & 2 != 0
    ensures value & 4 == 0 && value & 8 == 0 && value & 0x10 == 0 && value & 0x20 == 0 && value & 0x80 == 0
    ensures value & 0x200 == 0 && value & 0x400 == 0 && value & 0x800 == 0 && value & 0x8000_0000_0000_0000 == 0
  {
  }

  /** Linking keeps an entry that started out zero down to the two flags. */
  lemma LinkIsWritable(value: bv64, shifted: nat)
    requires ZeroOrWritable(value) && shifted < SHIFTED_LIMIT
    ensures Writable(Link(value, shifted))
  {
    hide ToWord, Link;
    LinkedWord(value, shifted);
    WritableMask(value, ToWord(shifted));
  }

  lemma WritableMask(value: bv64, address: bv64)
    requires ZeroOrWritable(value)
    ensures Writable((value & 0x7ff0_0000_0000_0ffc) | 3 | ((address & FRAME_MASK) << 12))
  {
  }

  /** A present entry is not zero. */
  lemma PresentIsWritable(value: bv64)
    requires ZeroOrWritable(value) && GetFlag(value, Present)
    ensures Writable(value)
  {
    ZeroEntryAbsent();
  }

  lemma ZeroEntryFrame()
    ensures FrameOf(0) == 0
  {
    assert GetAddress(0) == 0;
    assert ByteValue(0) == 0;
  }

  lemma ZeroEntryAbsent()
    ensures !GetFlag(0, Present)
  {
  }
}
