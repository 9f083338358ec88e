/**
 The boot loader's memory map and what the page frame allocator reads off it
 (kernel/mem/pageframeallocator.cpp, kernel/mem/memutils.cpp).
 */
module MemoryMap {
  import opened FrameSpec

  const USABLE: nat := 0

  datatype Entry = Entry(base: nat, length: nat, kind: nat)

  function Max(x: nat, y: nat): nat { if y > x then y else x }

  /** The end of the highest entry, of whatever kind. */
  function ArealSize(es: seq<Entry>): nat {
    if es == [] then 0
    else
      var e := es[|es| - 1];
      Max(ArealSize(es[..|es| - 1]), e.base + e.length)
  }

  /** Base and length of the first usable entry of greatest length; (0, 0) if there is none. */
  function Largest(es: seq<Entry>): (nat, nat) {
    if es == [] then (0, 0)
    else
      var (base, size) := Largest(es[..|es| - 1]);
      var e := es[|es| - 1];
      if e.kind == USABLE && e.length > size then (e.base, e.length) else (base, size)
  }

  /** The n numbers from lo on. */
  function Range(lo: nat, n: nat): (r: set<nat>)
    ensures forall f :: f in r <==> lo <= f < lo + n
    ensures |r| == n
  {
    if n == 0 then {} else Range(lo, n - 1) + {lo + n - 1}
  }

  /** The frames that `freePages` visits for an entry. */
  function FrameRange(e: Entry): set<nat> {
    Range(e.base / PAGE, e.length / PAGE)
  }

  function UsableFrames(es: seq<Entry>): set<nat> {
    if es == [] then {}
    else
      var e := es[|es| - 1];
      UsableFrames(es[..|es| - 1]) + (if e.kind == USABLE then FrameRange(e) else {})
  }

  function BitmapSize(total: nat): nat { total / 8 + 1 }

  function BitmapPages(total: nat): nat { BitmapSize(total) / PAGE + 1 }

  function OwnFrames(es: seq<Entry>): set<nat> {
    Range(Largest(es).0 / PAGE, BitmapPages(ArealSize(es) / PAGE))
  }

  /** What initialisation makes of a memory map. */
  function BootOf(es: seq<Entry>): Boot {
    Boot(ArealSize(es) / PAGE, UsableFrames(es), OwnFrames(es), Largest(es).1)
  }

  /**
   What the code needs of the map: it spans at most 2^19 frames, and the entry chosen for the
   bitmap is long enough for the frames set aside for it.
   */
  ghost predicate Bootable(es: seq<Entry>) {
    && ArealSize(es) / PAGE <= MAX_PAGES
    && (Largest(es).0 != 0 ==> Largest(es).1 >= PAGE * BitmapPages(ArealSize(es) / PAGE))
  }

  lemma {:induction false} ArealSizeIsMax(es: seq<Entry>)
    ensures forall k :: 0 <= k < |es| ==> es[k].base + es[k].length <= ArealSize(es)
    ensures es == [] || exists k :: 0 <= k < |es| && es[k].base + es[k].length == ArealSize(es)
  {
    if es != [] {
      var init, e := es[..|es| - 1], es[|es| - 1];
      ArealSizeIsMax(init);
      assert forall k :: 0 <= k < |init| ==> es[k] == init[k];
      if e.base + e.length < ArealSize(init) {
        var k :| 0 <= k < |init| && init[k].base + init[k].length == ArealSize(init);
        assert es[k] == init[k];
      }
    }
  }

  /** The chosen entry is usable, no usable one is longer, and none before it is as long. */
  lemma {:induction false} LargestIsFirstMax(es: seq<Entry>)
    ensures var (base, size) := Largest(es);
            && (forall k :: 0 <= k < |es| && es[k].kind == 0 ==> es[k].length <= size)
            && (size == 0 ==> base == 0)
            && (size > 0 ==> exists k :: 0 <= k < |es| && es[k] == Entry(base, size, 0)
                                         && forall j :: 0 <= j < k && es[j].kind == 0 ==> es[j].length < size)
  {
    if es != [] {
      var init, e := es[..|es| - 1], es[|es| - 1];
      LargestIsFirstMax(init);
      var (base, size) := Largest(init);
      if e.kind == USABLE && e.length > size {
        assert es[|es| - 1] == Entry(e.base, e.length, USABLE);
        assert forall j :: 0 <= j < |es| - 1 ==> es[j] == init[j];
      } else if size > 0 {
        var k :| 0 <= k < |init| && init[k] == Entry(base, size, USABLE)
                 && forall j :: 0 <= j < k && init[j].kind == USABLE ==> init[j].length < size;
        assert es[k] == init[k];
        assert forall j :: 0 <= j < k ==> es[j] == init[j];
      }
    }
  }

  /** Every entry ends within the frames that the map spans. */
  ghost predicate Spans(es: seq<Entry>, total: nat) {
    forall k :: 0 <= k < |es| ==> es[k].base / PAGE + es[k].length / PAGE <= total
  }

  lemma ArealSizeSpans(es: seq<Entry>)
    ensures Spans(es, ArealSize(es) / PAGE)
  {
    ArealSizeIsMax(es);
  }

  predicate Frees(e: Entry, f: nat) {
    e.kind == 0 && f in FrameRange(e)
  }

  ghost predicate Covers(es: seq<Entry>, f: nat) {
    exists k :: 0 <= k < |es| && Frees(es[k], f)
  }

  lemma SomeInSnoc(init: seq<Entry>, last: Entry, p: Entry -> bool)
    ensures var es := init + [last];
            (exists k :: 0 <= k < |es| && p(es[k])) <==> (exists k :: 0 <= k < |init| && p(init[k])) || p(last)
  {
    var es := init + [last];
    if k :| 0 <= k < |init| && p(init[k]) {
      assert p(es[k]);
    }
    if p(last) {
      assert p(es[|init|]);
    }
  }

  /** The frames freed at initialisation are those of the usable entries, each and only. */
  lemma {:induction false} UsableFramesIsUnion(es: seq<Entry>, f: nat)
    ensures f in UsableFrames(es) <==> Covers(es, f)
  {
    if es != [] {
      var init, last := es[..|es| - 1], es[|es| - 1];
      UsableFramesIsUnion(init, f);
      SomeInSnoc(init, last, e => Frees(e, f));
      assert es == init + [last];
    }
  }

  /** For a page-aligned entry, the frames visited are those that lie entirely within it. */
  lemma FrameRangeIsContainment(e: Entry, f: nat)
    requires e.base % PAGE == 0
    ensures f in FrameRange(e) <==> e.base <= PAGE * f && PAGE * (f + 1) <= e.base + e.length
  {
  }

  lemma SubsetSize<T>(a: set<T>, b: set<T>)
    requires a <= b
    ensures |a| <= |b|
  {
    assert |b| == |a| + |b - a|;
  }

  /** A bootable map on which the allocator does not panic fixes sensible boot data. */
  lemma BootIsGood(es: seq<Entry>)
    requires Bootable(es) && Largest(es).0 != 0
    ensures GoodBoot(BootOf(es))
    ensures var b := BootOf(es);
            b.own == Range(Largest(es).0 / PAGE, BitmapPages(b.total)) && PAGE * BitmapPages(b.total) <= b.ram
  {
    var b := BootOf(es);
    var (base, size) := Largest(es);
    LargestIsFirstMax(es);
    ArealSizeIsMax(es);
    var k :| 0 <= k < |es| && es[k] == Entry(base, size, USABLE);
    forall f | f in b.usable
      ensures f < b.total
    {
      UsableFramesIsUnion(es, f);
    }
    forall f | f in FrameRange(es[k])
      ensures f in b.usable
    {
      UsableFramesIsUnion(es, f);
    }
    SubsetSize(FrameRange(es[k]), b.usable);
    assert b.own <= FrameRange(es[k]);
  }

  /**
   The RAM that the counters start from is one entry's: it accounts for all usable frames exactly
   when the chosen entry is the only one that contributes any.
   */
  lemma ReportedRamIsOneEntry(es: seq<Entry>)
    requires Bootable(es) && Largest(es).0 != 0
    ensures var (base, size) := Largest(es);
            BootOf(es).ram / PAGE == |UsableFrames(es)| <==> UsableFrames(es) == Range(base / PAGE, size / PAGE)
  {
    var (base, size) := Largest(es);
    var chosen := Range(base / PAGE, size / PAGE);
    LargestIsFirstMax(es);
    var k :| 0 <= k < |es| && es[k] == Entry(base, size, USABLE);
    forall f | f in chosen
      ensures f in UsableFrames(es)
    {
      assert Frees(es[k], f);
      UsableFramesIsUnion(es, f);
    }
    assert |UsableFrames(es)| == |chosen| + |UsableFrames(es) - chosen|;
  }

  /** With two usable entries of one page each, half of the usable memory is never accounted for. */
  lemma ReportedRamExample()
    ensures var es := [Entry(4096, 4096, 0), Entry(12288, 4096, 0)];
            BootOf(es).ram == 4096 && UsableFrames(es) == {1, 3}
  {
    var e0, e1 := Entry(4096, 4096, 0), Entry(12288, 4096, 0);
    var es := [e0, e1];
    assert es[..1] == [e0] && [e0][..0] == [];
    assert Largest([e0]) == (4096, 4096) && Largest(es) == (4096, 4096);
    assert FrameRange(e0) == {1} && FrameRange(e1) == {3};
    assert UsableFrames([e0]) == {1};
  }

  /** Every byte of the bitmap, stored from the base of the chosen entry on, lies in the frames set aside. */
  lemma OwnFramesHoldBitmap(es: seq<Entry>, k: nat)
    requires Largest(es).0 % PAGE == 0
    requires k < BitmapSize(ArealSize(es) / PAGE)
    ensures (Largest(es).0 + k) / PAGE in OwnFrames(es)
  {
    var base, size := Largest(es).0, BitmapSize(ArealSize(es) / PAGE);
    assert (base + k) / PAGE == base / PAGE + k / PAGE;
    assert k / PAGE <= size / PAGE;
  }

  /**
   The frames set aside are those from the chosen entry's first on, as many as the bitmap's bytes
   (one per eight frames of the map, and one more) fill, counting a last frame that is never full.
   */
  lemma OwnFramesExact(es: seq<Entry>)
    ensures 4096 * (|OwnFrames(es)| - 1) <= ArealSize(es) / 4096 / 8 + 1 < 4096 * |OwnFrames(es)|
    ensures forall f :: f in OwnFrames(es) <==>
                          0 <= 4096 * (f - Largest(es).0 / 4096) <= ArealSize(es) / 4096 / 8 + 1
  {
  }

  /** The counters right after initialisation, from the map alone. */
  ghost predicate CountsMap(free: nat, used: nat, es: seq<Entry>) {
    && used % 4096 == 0
    && used - 4096 <= ArealSize(es) / 4096 / 8 + 1 < used
    && free + used == Largest(es).1
  }

  lemma CountersFromMap(st: Frames, es: seq<Entry>)
    requires Inv(st, BootOf(es), {})
    ensures CountsMap(st.free, st.used, es)
  {
    hide GoodBoot, Placed, HintOk, OwnFrames, UsableFrames;
    OwnFramesExact(es);
  }

  /** Exactly the given frames, and whatever lies above the map, have a clear bit. */
  ghost predicate ClearExactly(bits: seq<bool>, total: nat, frames: set<nat>) {
    forall f :: 0 <= f < |bits| ==> (bits[f] <==> f < total && f !in frames)
  }

  lemma ReleaseRangeClears(st: Frames, total: nat, frames: set<nat>, f: nat, n: nat)
    requires f + n <= |st.bits| && ClearExactly(st.bits, total, frames)
    ensures ClearExactly(ReleaseRange(st, f, n).bits, total, frames + Range(f, n))
  {
    ReleaseRangeBits(st, f, n);
  }

  /** Setting the bitmap's own frames aside is the last step to the invariant. */
  lemma LockOwn(st: Frames, b: Boot, first: nat, n: nat)
    requires GoodBoot(b) && b.own == Range(first, n) && n > 0 && PAGE * n <= b.ram
    requires |st.bits| == 8 * (b.total / 8 + 1) && st.hint == 0 && st.oom
    requires st.used == 0 && st.free == b.ram
    requires ClearExactly(st.bits, b.total, b.usable)
    ensures first + n <= b.total
    ensures Inv(LockRange(st, first, n), b, {})
  {
    assert first + n - 1 in b.own;
    assert forall j :: first <= j < first + n ==> j in b.own;
    LockRangeBits(st, first, n);
    LockRangeCounters(st, first, n);
  }
}
