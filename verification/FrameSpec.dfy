/**
 The page frame allocator of kernel/mem/pageframeallocator.cpp as a value: the frame bitmap,
 the moving search hint and the two byte counters, with the steps that change them.  `Inv` is
 what holds after initialisation, and the lemmas say that every run of requests and frees keeps it.
 */
module FrameSpec {
  import opened Outcomes

  const PAGE: nat := 4096
  const GUARD: nat := 16384                       // requests panic below this many free bytes
  const U64: nat := 0x1_0000_0000_0000_0000
  const MAX_PAGES: nat := 0x8_0000                // 2^19: the `int` index times 4096 stays below 2^31

  function Add64(x: nat, y: nat): nat { (x + y) % U64 }

  function Sub64(x: nat, y: nat): nat { (x - y) % U64 }

  datatype Frames = Frames(bits: seq<bool>, hint: nat, free: nat, used: nat, oom: bool)

  /**
   What initialisation fixes for good: the number of frames the memory map spans, the usable ones
   among them, those that hold the bitmap itself, and the number of bytes reported as RAM.
   */
  datatype Boot = Boot(total: nat, usable: set<nat>, own: set<nat>, ram: nat)

  // ---------- the steps ----------

  /** The first clear position at or after `from`, or the length if there is none. */
  function ScanFrom(bits: seq<bool>, from: nat): (r: nat)
    requires from <= |bits|
    ensures from <= r <= |bits|
    ensures forall j :: from <= j < r ==> bits[j]
    ensures r < |bits| ==> !bits[r]
    decreases |bits| - from
  {
    if from == |bits| || !bits[from] then from else ScanFrom(bits, from + 1)
  }

  /** `lockPage`: a frame outside the bitmap, or already locked, changes nothing. */
  function Lock(st: Frames, f: nat): Frames {
    if f >= |st.bits| || st.bits[f] then st
    else st.(bits := st.bits[f := true], free := Sub64(st.free, PAGE), used := Add64(st.used, PAGE))
  }

  /** `freePage`: a frame outside the bitmap, or already free, changes nothing. */
  function Release(st: Frames, f: nat): Frames {
    if f >= |st.bits| || !st.bits[f] then st
    else st.(bits := st.bits[f := false], free := Add64(st.free, PAGE), used := Sub64(st.used, PAGE),
             hint := if st.hint > f then f else st.hint)
  }

  /** `lockPages`: n frames from f on, in order. */
  function LockRange(st: Frames, f: nat, n: nat): Frames {
    if n == 0 then st else Lock(LockRange(st, f, n - 1), f + n - 1)
  }

  /** `freePages`: n frames from f on, in order. */
  function ReleaseRange(st: Frames, f: nat, n: nat): Frames {
    if n == 0 then st else Release(ReleaseRange(st, f, n - 1), f + n - 1)
  }

  /** `requestPage`: the guard, the scan from the hint, the lock. */
  function Request(st: Frames): Outcome<(Frames, nat)>
    requires st.hint <= |st.bits|
  {
    if st.oom && st.free < GUARD then Panicked
    else
      var f := ScanFrom(st.bits, st.hint);
      if f == |st.bits| then Panicked
      else Returned((Lock(st.(hint := f), f), f))
  }

  // ---------- the invariant ----------

  /** The frames that may still be handed out. */
  function Available(b: Boot, obtained: set<nat>): set<nat> {
    b.usable - b.own - obtained
  }

  ghost predicate GoodBoot(b: Boot) {
    && b.total <= MAX_PAGES
    && (forall f :: f in b.usable ==> f < b.total)
    && b.own <= b.usable
    && b.ram / PAGE <= |b.usable|
    && b.ram < U64
  }

  /** In range, a bit is clear exactly on the available frames; the spare bits above are clear. */
  ghost predicate Placed(bits: seq<bool>, b: Boot, obtained: set<nat>) {
    && |bits| == 8 * (b.total / 8 + 1)
    && (forall f :: 0 <= f < b.total ==> (bits[f] <==> f !in Available(b, obtained)))
    && (forall f :: b.total <= f < |bits| ==> !bits[f])
  }

  /** Everything below the hint is taken. */
  ghost predicate HintOk(bits: seq<bool>, hint: nat) {
    hint <= |bits| && forall f :: 0 <= f < hint ==> bits[f]
  }

  /** The counters add up to the reported RAM, and the used one counts the frames held. */
  ghost predicate Accounted(st: Frames, b: Boot, obtained: set<nat>) {
    && st.free + st.used == b.ram
    && st.used == PAGE * (|b.own| + |obtained|)
  }

  ghost predicate Inv(st: Frames, b: Boot, obtained: set<nat>) {
    && GoodBoot(b)
    && obtained <= b.usable - b.own
    && st.oom
    && Placed(st.bits, b, obtained)
    && HintOk(st.bits, st.hint)
    && Accounted(st, b, obtained)
  }

  lemma AvailableCount(b: Boot, obtained: set<nat>)
    requires b.own <= b.usable && obtained <= b.usable - b.own
    ensures |Available(b, obtained)| == |b.usable| - |b.own| - |obtained|
  {
    assert |b.usable - b.own| == |b.usable| - |b.own|;
  }

  /** The free counter never promises more frames than there are available ones in range. */
  lemma FreeCounterIsBacked(st: Frames, b: Boot, obtained: set<nat>)
    requires Inv(st, b, obtained)
    ensures st.free / PAGE <= |Available(b, obtained)|
  {
    AvailableCount(b, obtained);
    var n := |b.own| + |obtained|;
    assert st.free == b.ram - PAGE * n;
    assert st.free / PAGE == b.ram / PAGE - n;
  }

  /** A scan from the hint finds what a scan from zero finds. */
  lemma {:induction false} HintAgreesWithScan(bits: seq<bool>, hint: nat)
    requires hint <= |bits|
    requires HintOk(bits, hint)
    ensures ScanFrom(bits, hint) == ScanFrom(bits, 0)
    decreases hint
  {
    if hint > 0 {
      assert bits[hint - 1];
      HintAgreesWithScan(bits, hint - 1);
    }
  }

  /**
   The out-of-memory guard is exact and sufficient: a request panics exactly when the guard trips,
   never at the end of the scan, and otherwise hands out the lowest clear frame, which is in range,
   usable, outside the bitmap's own frames and not already held.
   */
  lemma RequestCorrect(st: Frames, b: Boot, obtained: set<nat>)
    requires Inv(st, b, obtained)
    ensures Request(st).Panicked? <==> st.free < 16384
    ensures Request(st).Returned? ==>
              var (st', f) := Request(st).value;
              && f == ScanFrom(st.bits, 0)
              && f < b.total && f in Available(b, obtained)
              && st'.free == st.free - 4096 && st'.hint == f
              && Inv(st', b, obtained + {f})
  {
    HintAgreesWithScan(st.bits, st.hint);
    if st.free >= GUARD {
      FreeCounterIsBacked(st, b, obtained);
      assert |Available(b, obtained)| > 0;
      var g :| g in Available(b, obtained);
      var f := ScanFrom(st.bits, 0);
      assert g < b.total && !st.bits[g];
      assert f <= g;
      AfterLock(st.(hint := f), b, obtained, f);
    }
  }

  /** Between one and eight bits lie above the map; they are clear, and no request ever returns one. */
  lemma SpareBits(st: Frames, b: Boot, obtained: set<nat>, f: nat)
    requires Inv(st, b, obtained) && b.total <= f < |st.bits|
    ensures 1 <= |st.bits| - b.total <= 8 && !st.bits[f]
    ensures Request(st).Returned? ==> Request(st).value.1 != f
  {
    RequestCorrect(st, b, obtained);
  }

  lemma AfterLock(st: Frames, b: Boot, obtained: set<nat>, f: nat)
    requires Inv(st, b, obtained)
    requires f in Available(b, obtained) && st.free >= GUARD
    ensures Lock(st, f).free == st.free - PAGE
    ensures Inv(Lock(st, f), b, obtained + {f})
  {
    var o' := obtained + {f};
    assert f < b.total && !st.bits[f];
    assert Available(b, o') == Available(b, obtained) - {f};
    assert |o'| == |obtained| + 1;
  }

  /** Freeing an obtained frame gives it back: the invariant holds with that frame available again. */
  lemma ReleaseCorrect(st: Frames, b: Boot, obtained: set<nat>, f: nat)
    requires Inv(st, b, obtained)
    requires f in obtained
    ensures f < |st.bits|
    ensures Release(st, f).free == st.free + 4096
    ensures Release(st, f).hint == if f < st.hint then f else st.hint
    ensures Inv(Release(st, f), b, obtained - {f})
  {
    assert |obtained - {f}| == |obtained| - 1;
    assert f < b.total && st.bits[f];
    ReleasePlaced(st.bits, b, obtained, f);
    assert st.used >= PAGE;
  }

  lemma ReleasePlaced(bits: seq<bool>, b: Boot, obtained: set<nat>, f: nat)
    requires GoodBoot(b) && Placed(bits, b, obtained)
    requires obtained <= b.usable - b.own && f in obtained
    ensures f < |bits| && Placed(bits[f := false], b, obtained - {f})
  {
    assert Available(b, obtained - {f}) == Available(b, obtained) + {f};
  }

  // ---------- ranges ----------

  /** Locking a range sets exactly the bits of that range and leaves the rest of the state alone. */
  lemma {:induction false} LockRangeBits(st: Frames, f: nat, n: nat)
    requires f + n <= |st.bits|
    ensures var st' := LockRange(st, f, n);
            && |st'.bits| == |st.bits| && st'.hint == st.hint && st'.oom == st.oom
            && forall j :: 0 <= j < |st.bits| ==> (st'.bits[j] <==> st.bits[j] || f <= j < f + n)
  {
    if n > 0 {
      LockRangeBits(st, f, n - 1);
    }
  }

  /** Locking n clear frames moves 4096 n bytes from the free counter to the used one. */
  lemma {:induction false} LockRangeCounters(st: Frames, f: nat, n: nat)
    requires f + n <= |st.bits|
    requires forall j :: f <= j < f + n ==> !st.bits[j]
    requires PAGE * n <= st.free < U64 && st.used + PAGE * n < U64
    ensures LockRange(st, f, n).free == st.free - PAGE * n
    ensures LockRange(st, f, n).used == st.used + PAGE * n
  {
    if n > 0 {
      LockRangeCounters(st, f, n - 1);
      LockRangeBits(st, f, n - 1);
    }
  }

  /** Releasing a range clears exactly the bits of that range; a hint of zero stays zero. */
  lemma {:induction false} ReleaseRangeBits(st: Frames, f: nat, n: nat)
    requires f + n <= |st.bits|
    ensures var st' := ReleaseRange(st, f, n);
            && |st'.bits| == |st.bits| && st'.hint <= st.hint && st'.oom == st.oom
            && forall j :: 0 <= j < |st.bits| ==> (st'.bits[j] <==> st.bits[j] && !(f <= j < f + n))
  {
    if n > 0 {
      ReleaseRangeBits(st, f, n - 1);
    }
  }

  // ---------- whole runs ----------

  datatype FrameOp = Req | Free(frame: nat)

  /** A run of requests and frees in which only held frames are freed; it stops where one panics. */
  ghost function Run(st: Frames, b: Boot, obtained: set<nat>, ops: seq<FrameOp>)
    : (r: Outcome<(Frames, set<nat>)>)
    requires Inv(st, b, obtained)
    requires Legal(st, b, obtained, ops)
    decreases |ops|
  {
    if ops == [] then Returned((st, obtained))
    else
      match ops[0]
      case Req =>
        RequestCorrect(st, b, obtained);
        (match Request(st)
         case Panicked => Panicked
         case Returned((st', f)) => Run(st', b, obtained + {f}, ops[1..]))
      case Free(f) =>
        ReleaseCorrect(st, b, obtained, f);
        Run(Release(st, f), b, obtained - {f}, ops[1..])
  }

  ghost predicate Legal(st: Frames, b: Boot, obtained: set<nat>, ops: seq<FrameOp>)
    requires Inv(st, b, obtained)
    decreases |ops|
  {
    if ops == [] then true
    else
      match ops[0]
      case Req =>
        RequestCorrect(st, b, obtained);
        (match Request(st)
         case Panicked => true
         case Returned((st', f)) => Legal(st', b, obtained + {f}, ops[1..]))
      case Free(f) =>
        f in obtained && (
          ReleaseCorrect(st, b, obtained, f);
          Legal(Release(st, f), b, obtained - {f}, ops[1..]))
  }

  /** Every run keeps the invariant, and with it the accounting: nothing is lost and nothing wraps. */
  lemma {:induction false} RunKeepsInvariant(st: Frames, b: Boot, obtained: set<nat>, ops: seq<FrameOp>)
    requires Inv(st, b, obtained)
    requires Legal(st, b, obtained, ops)
    ensures Run(st, b, obtained, ops).Returned? ==>
              var (st', o') := Run(st, b, obtained, ops).value;
              && Inv(st', b, o')
              && st'.free + st'.used == st.free + st.used
              && st'.used - st.used == PAGE * (|o'| - |obtained|)
    decreases |ops|
  {
    if ops != [] {
      match ops[0]
      case Req =>
        RequestCorrect(st, b, obtained);
        if Request(st).Returned? {
          var (st', f) := Request(st).value;
          RunKeepsInvariant(st', b, obtained + {f}, ops[1..]);
        }
      case Free(f) =>
        ReleaseCorrect(st, b, obtained, f);
        RunKeepsInvariant(Release(st, f), b, obtained - {f}, ops[1..]);
    }
  }

  /** A held frame is handed out again only after a free of that very frame. */
  lemma {:induction false} NoDoubleGrant(st: Frames, b: Boot, obtained: set<nat>, ops: seq<FrameOp>, f: nat)
    requires Inv(st, b, obtained)
    requires Legal(st, b, obtained, ops)
    requires f in obtained
    requires Run(st, b, obtained, ops).Returned?
    requires var st' := Run(st, b, obtained, ops).value.0;
             st'.hint <= |st'.bits| && Request(st').Returned? && Request(st').value.1 == f
    ensures Free(f) in ops
    decreases |ops|
  {
    if ops == [] {
      RequestCorrect(st, b, obtained);
    } else if ops[0] != Free(f) {
      match ops[0]
      case Req =>
        RequestCorrect(st, b, obtained);
        var (st', g) := Request(st).value;
        NoDoubleGrant(st', b, obtained + {g}, ops[1..], f);
      case Free(g) =>
        ReleaseCorrect(st, b, obtained, g);
        NoDoubleGrant(Release(st, g), b, obtained - {g}, ops[1..], f);
    }
  }
}
