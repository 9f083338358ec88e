/**
 The page frame allocator of kernel/mem/pageframeallocator.cpp, updating its bitmap, hint and
 counters in place.  Each method is proved against the step of FrameSpec that it carries out.
 */
module FrameAllocator {
  import opened Outcomes
  import opened Bitmaps
  import opened FrameSpec
  import opened MemoryMap

  class PageFrameAllocator {
    var freeMemory: nat
    var usedMemory: nat
    var bitmapIdx: nat
    var end: nat
    var bitmap: Bitmap
    var oomPanics: bool

    ghost var boot: Boot
    ghost var obtained: set<nat>     // frames handed out and not yet freed

    constructor ()
      ensures Consistent() && fresh(bitmap) && fresh(bitmap.Buffer)
      ensures end == 0
    {
      freeMemory, usedMemory, bitmapIdx, end, oomPanics := 0, 0, 0, 0, false;
      bitmap := new Bitmap(0);
      boot, obtained := Boot(0, {}, {}, 0), {};
    }

    /** Enough for every access to stay inside the buffer. */
    ghost predicate Consistent()
      reads this, bitmap
    {
      bitmap.Valid() && bitmapIdx <= 8 * bitmap.Size
    }

    ghost function View(): (st: Frames)
      requires Consistent()
      reads this, bitmap, bitmap.Buffer
      ensures |st.bits| == 8 * bitmap.Size && st.hint <= |st.bits|
    {
      Frames(bitmap.Bits(), bitmapIdx, freeMemory, usedMemory, oomPanics)
    }

    ghost predicate Valid()
      reads this, bitmap, bitmap.Buffer
    {
      Consistent() && Inv(View(), boot, obtained)
    }

    // ---------- single frames ----------

    method LockPage(addr: nat)
      requires Consistent() && addr / 4096 != 8 * bitmap.Size
      modifies this`freeMemory, this`usedMemory, bitmap.Buffer
      ensures Consistent() && View() == Lock(old(View()), addr / 4096)
    {
      var index := addr / 4096;
      var taken := bitmap.Get(index);
      if taken {
        return;
      }
      var done := bitmap.Set(index, true);
      if done {
        freeMemory := Sub64(freeMemory, 4096);
        usedMemory := Add64(usedMemory, 4096);
      }
    }

    method FreePage(addr: nat)
      requires Consistent() && addr / 4096 != 8 * bitmap.Size
      modifies this`freeMemory, this`usedMemory, this`bitmapIdx, bitmap.Buffer
      ensures Consistent() && View() == Release(old(View()), addr / 4096)
    {
      var index := addr / 4096;
      var taken := bitmap.Get(index);
      if !taken {
        return;
      }
      var done := bitmap.Set(index, false);
      if done {
        freeMemory := Add64(freeMemory, 4096);
        usedMemory := Sub64(usedMemory, 4096);
        if bitmapIdx > index {
          bitmapIdx := index;
        }
      }
    }

    /** The search as the source runs it: the guard, then the scan that moves the hint. */
    method RequestPage() returns (r: Outcome<nat>)
      requires Consistent()
      modifies this`freeMemory, this`usedMemory, this`bitmapIdx, bitmap.Buffer
      ensures Consistent()
      ensures match Request(old(View()))
              case Panicked => r == Panicked
              case Returned((st', f)) => r == Returned(f) && View() == st'
    {
      ghost var st := View();
      if oomPanics && freeMemory < 16384 {
        return Panicked;
      }
      while bitmapIdx < bitmap.Size * 8
        invariant Consistent()
        invariant View() == st.(hint := bitmapIdx)
        invariant ScanFrom(st.bits, st.hint) == ScanFrom(st.bits, bitmapIdx)
      {
        var taken := bitmap.Get(bitmapIdx);
        if !taken {
          LockPage(bitmapIdx * 4096);
          return Returned(bitmapIdx);
        }
        bitmapIdx := bitmapIdx + 1;
      }
      return Panicked;
    }

    // ---------- single frames, as the rest of the kernel sees them after initialisation ----------

    /**
     A request in a valid state panics exactly when the guard trips; otherwise the frame is the
     lowest clear one, usable, not the bitmap's and not held by anybody.
     */
    method Obtain() returns (r: Outcome<nat>)
      requires Valid()
      modifies this`freeMemory, this`usedMemory, this`bitmapIdx, this`obtained, bitmap.Buffer
      ensures r.Panicked? <==> old(freeMemory) < GUARD
      ensures r.Returned? ==> Valid()
      ensures r.Returned? ==> r.value == ScanFrom(old(View().bits), 0)
      ensures r.Returned? ==> r.value < boot.total <= MAX_PAGES && r.value in Available(boot, old(obtained))
      ensures r.Returned? ==> freeMemory == old(freeMemory) - 4096
      ensures obtained == if r.Returned? then old(obtained) + {r.value} else old(obtained)
    {
      RequestCorrect(View(), boot, obtained);
      r := RequestPage();
      if r.Returned? {
        obtained := obtained + {r.value};
      }
    }

    /** Freeing a frame that was handed out makes it available again. */
    method GiveBack(addr: nat)
      requires Valid() && addr / 4096 in obtained
      modifies this`freeMemory, this`usedMemory, this`bitmapIdx, this`obtained, bitmap.Buffer
      ensures Valid()
      ensures obtained == old(obtained) - {addr / 4096}
      ensures freeMemory == old(freeMemory) + 4096
    {
      ReleaseCorrect(View(), boot, obtained, addr / 4096);
      FreePage(addr);
      obtained := obtained - {addr / 4096};
    }

    // ---------- ranges ----------

    /** The loop index of the source is an `int`, so the byte offset stays below 2^31. */
    method LockPages(addr: nat, pageCount: nat)
      requires Consistent() && pageCount <= MAX_PAGES
      requires addr / 4096 > 8 * bitmap.Size || addr / 4096 + pageCount <= 8 * bitmap.Size
      modifies this`freeMemory, this`usedMemory, bitmap.Buffer
      ensures Consistent() && View() == LockRange(old(View()), addr / 4096, pageCount)
    {
      hide Lock;
      ghost var st := View();
      for i := 0 to pageCount
        invariant Consistent() && View() == LockRange(st, addr / 4096, i)
      {
        var page := addr + i * 4096;
        FrameOfOffset(addr, i);
        LockPage(page);
      }
    }

    method FreePages(addr: nat, pageCount: nat)
      requires Consistent()
      requires addr / 4096 > 8 * bitmap.Size || addr / 4096 + pageCount <= 8 * bitmap.Size
      modifies this`freeMemory, this`usedMemory, this`bitmapIdx, bitmap.Buffer
      ensures Consistent() && View() == ReleaseRange(old(View()), addr / 4096, pageCount)
    {
      hide Release;
      ghost var st := View();
      for i := 0 to pageCount
        invariant Consistent() && View() == ReleaseRange(st, addr / 4096, i)
      {
        var page := addr + i * 4096;
        FrameOfOffset(addr, i);
        FreePage(page);
      }
    }

    // ---------- initialisation ----------

    method InitBitmap(bitmapSize: nat)
      modifies this`bitmap, this`bitmapIdx
      ensures fresh(bitmap) && fresh(bitmap.Buffer)
      ensures Consistent() && bitmap.Size == bitmapSize && bitmapIdx == 0
      ensures forall f :: 0 <= f < 8 * bitmapSize ==> !bitmap.Bits()[f]
    {
      bitmap := new Bitmap(bitmapSize);
      for i := 0 to bitmapSize
        invariant fresh(bitmap) && fresh(bitmap.Buffer) && bitmap.Valid() && bitmap.Size == bitmapSize
        invariant forall j :: 0 <= j < i ==> bitmap.Buffer[j] == 0
      {
        bitmap.Buffer[i] := 0;
      }
      forall f | 0 <= f < 8 * bitmapSize
        ensures !bitmap.Bits()[f]
      {
        UnpackAt(bitmap.Buffer[..], f);
      }
      bitmapIdx := 0;
    }

    /**
     Initialisation panics exactly when no usable entry was chosen (none, or one at address zero).
     Otherwise the bits in range are clear exactly on the usable frames that are not the bitmap's,
     the spare bits stay clear, and the reported RAM is the length of the chosen entry, of which the
     bytes of the bitmap, rounded up to frames, are used.
     */
    method Init(memmap: seq<Entry>) returns (r: Outcome<()>)
      requires end == 0 && Bootable(memmap)
      modifies this
      ensures r.Panicked? <==> Largest(memmap).0 == 0
      ensures end == ArealSize(memmap)
      ensures r.Returned? ==> fresh(bitmap) && fresh(bitmap.Buffer) && Valid()
      ensures r.Returned? ==> boot == BootOf(memmap) && obtained == {}
      ensures r.Returned? ==> CountsMap(freeMemory, usedMemory, memmap)
    {
      var largestFreeSegment, largestFreeSegmentSize := FindLargest(memmap);
      if largestFreeSegment == 0 {
        return Panicked;
      }
      ArealSizeSpans(memmap);
      BootIsGood(memmap);
      Build(memmap, largestFreeSegment, largestFreeSegmentSize, BootOf(memmap));
      CountersFromMap(View(), memmap);
      return Returned(());
    }

    /** The rest of initialisation, once an entry has been chosen. */
    method Build(memmap: seq<Entry>, base: nat, size: nat, ghost b: Boot)
      requires b.total == ArealSize(memmap) / 4096 && b.usable == UsableFrames(memmap) && Spans(memmap, b.total)
      requires GoodBoot(b) && b.own == Range(base / 4096, BitmapPages(b.total))
      requires 4096 * BitmapPages(b.total) <= size == b.ram
      modifies this`freeMemory, this`usedMemory, this`bitmapIdx, this`bitmap, this`oomPanics, this`boot, this`obtained
      ensures fresh(bitmap) && fresh(bitmap.Buffer) && Valid()
      ensures boot == b && obtained == {}
    {
      var totalMemorySize := GetMemoryArealSize(memmap);
      var totalMemorySizeInPages := totalMemorySize / 4096;
      var bitmapSize := totalMemorySize / 4096 / 8 + 1;
      var bitmapSizeInPages := bitmapSize / 4096 + 1;
      FillBitmap(memmap, bitmapSize, totalMemorySizeInPages);
      ReserveOwn(b, base, size, bitmapSizeInPages);
    }

    /** From an arbitrary state to one where exactly the usable frames and the spare bits are clear. */
    method FillBitmap(memmap: seq<Entry>, bitmapSize: nat, total: nat)
      requires bitmapSize == total / 8 + 1 && total <= MAX_PAGES && Spans(memmap, total)
      modifies this`freeMemory, this`usedMemory, this`bitmapIdx, this`bitmap
      ensures fresh(bitmap) && fresh(bitmap.Buffer)
      ensures Consistent() && bitmapIdx == 0 && bitmap.Size == bitmapSize
      ensures ClearExactly(bitmap.Bits(), total, UsableFrames(memmap))
    {
      InitBitmap(bitmapSize);
      LockRangeBits(View(), 0, total);
      LockPages(0, total);
      FreeUsable(memmap, total);
    }

    /** The counters start to mean something, and the bitmap's own frames are set aside. */
    method ReserveOwn(ghost b: Boot, base: nat, size: nat, pages: nat)
      requires GoodBoot(b) && b.own == Range(base / 4096, pages) && 4096 * pages <= size == b.ram
      requires Consistent() && bitmapIdx == 0 && bitmap.Size == b.total / 8 + 1
      requires 0 < pages <= MAX_PAGES
      requires ClearExactly(bitmap.Bits(), b.total, b.usable)
      modifies this`freeMemory, this`usedMemory, this`oomPanics, this`boot, this`obtained, bitmap.Buffer
      ensures Valid() && boot == b && obtained == {}
    {
      hide Inv, LockRange, ClearExactly, GoodBoot;
      usedMemory := 0;
      freeMemory := size;
      oomPanics := true;
      boot, obtained := b, {};
      LockOwn(View(), b, base / 4096, pages);
      LockPages(base, pages);
    }

    /** The first loop over the map: the chosen entry and the end of the map. */
    method FindLargest(memmap: seq<Entry>) returns (base: nat, size: nat)
      requires end == 0
      modifies this`end
      ensures (base, size) == Largest(memmap)
      ensures end == ArealSize(memmap)
    {
      base, size := 0, 0;
      for i := 0 to |memmap|
        invariant (base, size) == Largest(memmap[..i])
        invariant end == ArealSize(memmap[..i])
      {
        var entry := memmap[i];
        assert memmap[..i + 1][..i] == memmap[..i];
        if entry.kind == USABLE && entry.length > size {
          base := entry.base;
          size := entry.length;
        }
        if entry.base + entry.length > end {
          end := entry.base + entry.length;
        }
      }
      assert memmap[..|memmap|] == memmap;
    }

    /** The second loop over the map: everything in range is locked, and the usable entries are freed. */
    method FreeUsable(memmap: seq<Entry>, ghost total: nat)
      requires Consistent() && bitmapIdx == 0
      requires total <= 8 * bitmap.Size && Spans(memmap, total)
      requires ClearExactly(bitmap.Bits(), total, {})
      modifies this`freeMemory, this`usedMemory, this`bitmapIdx, bitmap.Buffer
      ensures Consistent() && bitmapIdx == 0
      ensures ClearExactly(bitmap.Bits(), total, UsableFrames(memmap))
    {
      for i := 0 to |memmap|
        invariant Consistent() && bitmapIdx == 0
        invariant ClearExactly(bitmap.Bits(), total, UsableFrames(memmap[..i]))
      {
        var entry := memmap[i];
        assert memmap[..i + 1][..i] == memmap[..i];
        if entry.kind == USABLE {
          FreeEntry(entry, total, UsableFrames(memmap[..i]));
        }
      }
      assert memmap[..|memmap|] == memmap;
    }

    method FreeEntry(entry: Entry, ghost total: nat, ghost frames: set<nat>)
      requires Consistent() && bitmapIdx == 0
      requires entry.base / 4096 + entry.length / 4096 <= total <= 8 * bitmap.Size
      requires ClearExactly(bitmap.Bits(), total, frames)
      modifies this`freeMemory, this`usedMemory, this`bitmapIdx, bitmap.Buffer
      ensures Consistent() && bitmapIdx == 0
      ensures ClearExactly(bitmap.Bits(), total, frames + FrameRange(entry))
    {
      var entrySizeInPages := entry.length / 4096;
      ReleaseRangeClears(View(), total, frames, entry.base / 4096, entrySizeInPages);
      ReleaseRangeBits(View(), entry.base / 4096, entrySizeInPages);
      FreePages(entry.base, entrySizeInPages);
    }

    /** No more frames can be held than the memory map spans. */
    lemma HeldFramesBounded()
      requires Valid()
      ensures |obtained| <= MAX_PAGES
    {
      SubsetSize(obtained, Range(0, boot.total));
    }

    // ---------- readers ----------

    method GetTotalRAM() returns (r: nat)
      requires Valid()
      ensures r == boot.ram
    {
      return Add64(freeMemory, usedMemory);
    }
  }

  lemma FrameOfOffset(addr: nat, i: nat)
    ensures (addr + i * 4096) / 4096 == addr / 4096 + i
  {
  }

  method GetMemoryArealSize(memmap: seq<Entry>) returns (size: nat)
    ensures size == ArealSize(memmap)
  {
    size := 0;
    for i := 0 to |memmap|
      invariant size == ArealSize(memmap[..i])
    {
      var entry := memmap[i];
      assert memmap[..i + 1][..i] == memmap[..i];
      if entry.base + entry.length > size {
        size := entry.base + entry.length;
      }
    }
    assert memmap[..|memmap|] == memmap;
  }
}
