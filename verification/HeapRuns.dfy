/**
 Whole calls of `malloc` and `free` on the segment list, and whole runs of them, with frames always
 to be had: what a caller may rely on however the calls are ordered.
 */
module HeapRuns {
  import opened Outcomes
  import opened HeapSpec

  datatype HeapState = HeapState(segs: seq<Seg>, start: nat, end: nat)

  ghost predicate GoodState(h: HeapState) {
    Good(h.segs, h.start, h.end)
  }

  // ---------- malloc ----------

  function GrowOnce(h: HeapState, n: nat): HeapState
    requires n > 0
  {
    h.(segs := Extend(h.segs, h.end, RoundPage(n)), end := h.end + RoundPage(n))
  }

  lemma GrowOnceCorrect(h: HeapState, n: nat)
    requires GoodState(h) && n > 0 && n % 16 == 0 && Expansions(h.segs, n) > 0
    ensures GoodState(GrowOnce(h, n)) && Live(GrowOnce(h, n).segs) == Live(h.segs)
    ensures Expansions(GrowOnce(h, n).segs, n) == Expansions(h.segs, n) - 1
    ensures Total(GrowOnce(h, n).segs, false) == Total(h.segs, false)
  {
    ExtendUsed(h.segs, h.end, RoundPage(n));
    ExtendKeepsGood(h.segs, h.start, h.end, RoundPage(n));
    ExtendKeepsLive(h.segs, h.end, RoundPage(n));
    ExtendBringsCloser(h.segs, h.start, h.end, n);
  }

  /** The bytes that the expansions for a request of n bytes add. */
  function Growth(segs: seq<Seg>, n: nat): nat
    requires |segs| > 0
  {
    match Expansions(segs, n)
    case 0 => 0
    case 1 => RoundPage(n)
    case _ => 2 * RoundPage(n)
  }

  /** The retry recursion of `malloc`: expand until some segment fits. */
  ghost function Prepared(h: HeapState, n: nat): (g: HeapState)
    requires GoodState(h) && n > 0 && n % 16 == 0
    ensures GoodState(g) && g.start == h.start && Live(g.segs) == Live(h.segs)
    ensures FirstFit(g.segs, n, 0) < |g.segs|
    ensures g.end == h.end + Growth(h.segs, n)
    ensures Total(g.segs, false) == Total(h.segs, false)
    decreases Expansions(h.segs, n)
  {
    if FirstFit(h.segs, n, 0) < |h.segs| then h
    else
      GrowOnceCorrect(h, n);
      Prepared(GrowOnce(h, n), n)
  }

  ghost function AfterAlloc(h: HeapState, size: nat): HeapState
    requires GoodState(h)
  {
    var n := Round16(size);
    if n == 0 then h
    else
      var g := Prepared(h, n);
      g.(segs := Carve(g.segs, FirstFit(g.segs, n, 0), n))
  }

  /** The block that a request of nonzero size gets. */
  ghost function NewBlock(h: HeapState, size: nat): Seg
    requires GoodState(h) && size > 0
  {
    var n := Round16(size);
    var g := Prepared(h, n);
    Carve(g.segs, FirstFit(g.segs, n, 0), n)[FirstFit(g.segs, n, 0)]
  }

  lemma AllocNothing(h: HeapState)
    requires GoodState(h)
    ensures AfterAlloc(h, 0) == h
  {
  }

  /** The two ways through `malloc`: something fits, or the heap grows once and the call is repeated. */
  lemma AllocFits(h: HeapState, size: nat)
    requires GoodState(h) && size > 0
    ensures var n := Round16(size);
            var i := FirstFit(h.segs, n, 0);
            && n > 0
            && (Expansions(h.segs, n) == 0 <==> i < |h.segs|)
            && (i < |h.segs| ==>
                  && Growth(h.segs, n) == 0
                  && AfterAlloc(h, size) == h.(segs := Carve(h.segs, i, n))
                  && NewBlock(h, size) == Carve(h.segs, i, n)[i])
  {
  }

  lemma AllocRetries(h: HeapState, size: nat)
    requires GoodState(h) && size > 0 && FirstFit(h.segs, Round16(size), 0) == |h.segs|
    ensures var n := Round16(size);
            var g := GrowOnce(h, n);
            && n > 0 && Round16(n) == n && GoodState(g)
            && Expansions(h.segs, n) == Expansions(g.segs, n) + 1
            && Growth(h.segs, n) == Growth(g.segs, n) + RoundPage(n)
            && AfterAlloc(h, size) == AfterAlloc(g, n) && NewBlock(h, size) == NewBlock(g, n)
  {
    GrowOnceCorrect(h, Round16(size));
  }

  /**
   `malloc` meets its specification: one new live block, large enough and at most 44 bytes longer
   than the rounded request, disjoint from all live blocks, which stay where they are.
   */
  lemma AllocCorrect(h: HeapState, size: nat)
    requires GoodState(h) && size > 0
    ensures var h', block := AfterAlloc(h, size), NewBlock(h, size);
            && GoodState(h') && h'.start == h.start
            && h'.end == h.end + Growth(h.segs, Round16(size))
            && !block.free && Round16(size) <= block.len <= Round16(size) + 44
            && block !in Live(h.segs) && Live(h'.segs) == Live(h.segs) + {block}
            && h.start <= block.addr && block.End() <= h'.end
            && forall s :: s in Live(h.segs) ==> s.End() <= block.addr || block.End() <= s.addr
  {
    var n := Round16(size);
    var g := Prepared(h, n);
    var i := FirstFit(g.segs, n, 0);
    var h', block := AfterAlloc(h, size), NewBlock(h, size);
    CarveKeepsGood(g.segs, g.start, g.end, i, n);
    CarveLive(g.segs, g.start, g.end, i, n);
    assert h'.segs[i] == block;
    WithinHeap(h'.segs, h'.start, h'.end, i);
    forall s | s in Live(h.segs)
      ensures s.End() <= block.addr || block.End() <= s.addr
    {
      LiveBlocksDisjoint(h'.segs, h'.start, h'.end, s, block);
    }
  }

  lemma WithinHeap(segs: seq<Seg>, a: nat, b: nat, i: nat)
    requires Tiles(segs, a, b) && i < |segs|
    ensures a <= segs[i].addr && segs[i].End() <= b
  {
    if i > 0 {
      SegmentsDisjoint(segs, a, b, 0, i);
    }
    if i < |segs| - 1 {
      SegmentsDisjoint(segs, a, b, i, |segs| - 1);
    }
  }

  /** First fit: a request that some free segment can take gets the lowest-addressed such segment. */
  lemma LowestFit(h: HeapState, size: nat, s: Seg)
    requires GoodState(h) && size > 0 && s in h.segs && Fits(s, Round16(size))
    ensures Expansions(h.segs, Round16(size)) == 0 && AfterAlloc(h, size).end == h.end
    ensures NewBlock(h, size).addr <= s.addr
    ensures exists f :: f in h.segs && Fits(f, Round16(size)) && f.addr == NewBlock(h, size).addr
  {
    var n := Round16(size);
    var j :| 0 <= j < |h.segs| && h.segs[j] == s;
    SomeFit(h.segs, n, j);
    var i := FirstFit(h.segs, n, 0);
    assert i <= j;
    if i < j {
      SegmentsDisjoint(h.segs, h.start, h.end, i, j);
    }
    CarveLive(h.segs, h.start, h.end, i, n);
    assert h.segs[i] in h.segs;
  }

  /**
   First fit in general, expansions or not: the block is the lowest of the fitting segments of the heap
   once prepared, cut down to the rounded size exactly when the rest can hold a header and 16 bytes.
   */
  lemma BlockIsFirstFit(h: HeapState, size: nat) returns (f: Seg)
    requires GoodState(h) && size > 0
    ensures var n, block := Round16(size), NewBlock(h, size);
            var segs := Prepared(h, n).segs;
            && f in segs && Fits(f, n)
            && (forall s :: s in segs && Fits(s, n) ==> f.addr <= s.addr)
            && block == Seg(f.addr, if f.len >= n + 45 then n else f.len, false)
  {
    var n := Round16(size);
    var g := Prepared(h, n);
    var i := FirstFit(g.segs, n, 0);
    f := g.segs[i];
    TilesAscend(g.segs, g.start, g.end);
    CarveLength(g.segs, i, n);
    CarveLive(g.segs, g.start, g.end, i, n);
  }

  /** `malloc` raises the used bytes by the block and its header, and by nothing else. */
  lemma AllocUsed(h: HeapState, size: nat)
    requires GoodState(h) && size > 0
    ensures Total(AfterAlloc(h, size).segs, false) == Total(h.segs, false) + NewBlock(h, size).len + 29
  {
    hide Total, Carve;
    var n := Round16(size);
    var g := Prepared(h, n);
    CarveUsed(g.segs, FirstFit(g.segs, n, 0), n);
  }

  /** `free` lowers them by the same amount. */
  lemma FreeUsed(h: HeapState, p: nat, s: Seg)
    requires GoodState(h) && s in Live(h.segs) && s.Payload() == p
    ensures Outstanding(h, p)
    ensures Total(AfterFree(h, p).segs, false) == Total(h.segs, false) - s.len - 29
  {
    hide Total, Release;
    assert Outstanding(h, p);
    var i := BlockIndex(h, p, s);
    ReleaseUsed(h.segs, i);
  }

  /** At most two expansions, and the second exactly when the tail is in use and the header does not fit. */
  lemma AtMostTwoExpansions(h: HeapState, size: nat)
    requires GoodState(h) && size > 0
    ensures var n := Round16(size);
            && Expansions(h.segs, n) <= 2
            && (Expansions(h.segs, n) == 0 <==> exists s :: s in h.segs && Fits(s, n))
            && (Expansions(h.segs, n) == 2 <==>
                  (forall s :: s in h.segs ==> !Fits(s, n))
                  && !h.segs[|h.segs| - 1].free && n % 4096 in {0, 4080})
            && AfterAlloc(h, size).end == h.end + Growth(h.segs, n)
  {
    var n := Round16(size);
    AllocCorrect(h, size);
    if s :| s in h.segs && Fits(s, n) {
      LowestFit(h, size, s);
    }
    if Expansions(h.segs, n) == 0 {
      assert h.segs[FirstFit(h.segs, n, 0)] in h.segs;
    }
  }

  // ---------- free ----------

  /** The index of the live segment whose payload starts at p, or the number of segments. */
  function IndexOf(segs: seq<Seg>, p: nat, k: nat): (i: nat)
    requires k <= |segs|
    ensures k <= i <= |segs|
    ensures i < |segs| ==> segs[i].Payload() == p && !segs[i].free
    ensures i == |segs| ==> forall j :: k <= j < |segs| ==> segs[j].free || segs[j].Payload() != p
    decreases |segs| - k
  {
    if k == |segs| || (segs[k].Payload() == p && !segs[k].free) then k else IndexOf(segs, p, k + 1)
  }

  ghost predicate Outstanding(h: HeapState, p: nat) {
    exists s :: s in Live(h.segs) && s.Payload() == p
  }

  lemma OutstandingHasIndex(h: HeapState, p: nat)
    requires Outstanding(h, p)
    ensures IndexOf(h.segs, p, 0) < |h.segs|
  {
    var s :| s in Live(h.segs) && s.Payload() == p;
    var j :| 0 <= j < |h.segs| && h.segs[j] == s;
  }

  ghost function AfterFree(h: HeapState, p: nat): HeapState
    requires Outstanding(h, p)
  {
    OutstandingHasIndex(h, p);
    h.(segs := Release(h.segs, IndexOf(h.segs, p, 0)))
  }

  /** The search by payload finds the block. */
  lemma BlockIndex(h: HeapState, p: nat, s: Seg) returns (i: nat)
    requires GoodState(h) && s in Live(h.segs) && s.Payload() == p
    ensures i == IndexOf(h.segs, p, 0) < |h.segs| && h.segs[i] == s
  {
    assert Outstanding(h, p);
    OutstandingHasIndex(h, p);
    i := IndexOf(h.segs, p, 0);
    var j :| 0 <= j < |h.segs| && h.segs[j] == s;
    TilesAscend(h.segs, h.start, h.end);
    assert h.segs[i].addr == h.segs[j].addr;
  }

  /** `free` keeps the heap good and removes exactly the block it was given. */
  lemma FreeCorrect(h: HeapState, p: nat, s: Seg)
    requires GoodState(h) && s in Live(h.segs) && s.Payload() == p
    ensures Outstanding(h, p)
    ensures GoodState(AfterFree(h, p)) && Live(AfterFree(h, p).segs) == Live(h.segs) - {s}
    ensures AfterFree(h, p).start == h.start && AfterFree(h, p).end == h.end
  {
    assert Outstanding(h, p);
    var i := BlockIndex(h, p, s);
    ReleaseKeepsGood(h.segs, h.start, h.end, i);
    ReleaseLive(h.segs, h.start, h.end, i);
  }

  /**
   `sfree` zeroes the block after the segments have been merged.  As long as no more bytes are zeroed
   than the block has, no header of the new list is touched.
   */
  lemma ZeroingMissesHeaders(h: HeapState, p: nat, s: Seg, size: nat, t: Seg)
    requires GoodState(h) && s in Live(h.segs) && s.Payload() == p && size <= s.len
    requires Outstanding(h, p) && t in AfterFree(h, p).segs
    ensures t.addr + HDR <= p || p + size <= t.addr
  {
    hide Release, LongEnough, Coalesced;
    FreeCorrect(h, p, s);
    var i := BlockIndex(h, p, s);
    var h' := AfterFree(h, p);
    var m := ReleaseCovers(h.segs, h.start, h.end, i);
    var k :| 0 <= k < |h'.segs| && h'.segs[k] == t;
    if k < m {
      SegmentsDisjoint(h'.segs, h'.start, h'.end, k, m);
    } else if m < k {
      SegmentsDisjoint(h'.segs, h'.start, h'.end, m, k);
    }
  }

  /** Without an expansion, `free(malloc(n))` restores the exact heap. */
  lemma AllocThenFree(h: HeapState, size: nat)
    requires GoodState(h) && size > 0 && Expansions(h.segs, Round16(size)) == 0
    ensures Outstanding(AfterAlloc(h, size), NewBlock(h, size).Payload())
    ensures AfterFree(AfterAlloc(h, size), NewBlock(h, size).Payload()) == h
  {
    var n := Round16(size);
    var i := FirstFit(h.segs, n, 0);
    var h', block := AfterAlloc(h, size), NewBlock(h, size);
    AllocCorrect(h, size);
    CarveThenRelease(h.segs, h.start, h.end, i, n);
    TilesAscend(h'.segs, h'.start, h'.end);
    assert block in Live(h'.segs);
    OutstandingHasIndex(h', block.Payload());
    var j := IndexOf(h'.segs, block.Payload(), 0);
    assert h'.segs[i].addr == h'.segs[j].addr;
    assert i == j;
  }

  // ---------- runs ----------

  datatype HeapOp = Alloc(size: nat) | Free(payload: nat)

  ghost predicate Allowed(h: HeapState, op: HeapOp) {
    op.Free? ==> Outstanding(h, op.payload)
  }

  ghost function Step(h: HeapState, op: HeapOp): HeapState
    requires GoodState(h) && Allowed(h, op)
  {
    match op
    case Alloc(size) => AfterAlloc(h, size)
    case Free(p) => AfterFree(h, p)
  }

  lemma StepKeepsGood(h: HeapState, op: HeapOp)
    requires GoodState(h) && Allowed(h, op)
    ensures GoodState(Step(h, op)) && Step(h, op).start == h.start && Step(h, op).end >= h.end
  {
    match op
    case Alloc(size) =>
      if size > 0 {
        AllocCorrect(h, size);
      }
    case Free(p) =>
      var s :| s in Live(h.segs) && s.Payload() == p;
      FreeCorrect(h, p, s);
  }

  /** A run in which only outstanding blocks are freed. */
  ghost predicate Legal(h: HeapState, ops: seq<HeapOp>)
    requires GoodState(h)
    decreases |ops|
  {
    ops == [] || (Allowed(h, ops[0]) && (
                    StepKeepsGood(h, ops[0]);
                    Legal(Step(h, ops[0]), ops[1..])))
  }

  ghost function Run(h: HeapState, ops: seq<HeapOp>): HeapState
    requires GoodState(h) && Legal(h, ops)
    decreases |ops|
  {
    if ops == [] then h
    else
      StepKeepsGood(h, ops[0]);
      Run(Step(h, ops[0]), ops[1..])
  }

  /**
   Every legal run keeps the heap good: tiled, coalesced, no sliver segments, and with used and free
   bytes adding up to its size.
   */
  lemma {:induction false} RunKeepsGood(h: HeapState, ops: seq<HeapOp>)
    requires GoodState(h) && Legal(h, ops)
    ensures var h' := Run(h, ops);
            && GoodState(h') && h'.start == h.start && h'.end >= h.end
            && Total(h'.segs, false) + Total(h'.segs, true) == h'.end - h'.start
    decreases |ops|
  {
    if ops == [] {
      Conservation(h.segs, h.start, h.end);
    } else {
      StepKeepsGood(h, ops[0]);
      RunKeepsGood(Step(h, ops[0]), ops[1..]);
    }
  }

  /** Two runs that leave the same blocks live in a heap of the same size leave the same heap. */
  lemma RunsConverge(h: HeapState, x: seq<HeapOp>, y: seq<HeapOp>)
    requires GoodState(h) && Legal(h, x) && Legal(h, y)
    requires Live(Run(h, x).segs) == Live(Run(h, y).segs) && Run(h, x).end == Run(h, y).end
    ensures Run(h, x) == Run(h, y)
  {
    hide Run, Legal, Total;
    RunKeepsGood(h, x);
    RunKeepsGood(h, y);
    LiveDeterminesHeap(Run(h, x).segs, Run(h, y).segs, h.start, Run(h, x).end);
  }

  ghost predicate Distinct(order: seq<nat>) {
    forall i, j :: 0 <= i < j < |order| ==> order[i] != order[j]
  }

  function Frees(order: seq<nat>): seq<HeapOp> {
    seq(|order|, i requires 0 <= i < |order| => Free(order[i]))
  }

  /** The listed payloads are exactly the outstanding ones. */
  ghost predicate ListsAll(h: HeapState, order: seq<nat>) {
    Distinct(order) && forall p :: p in order <==> Outstanding(h, p)
  }

  /** Freeing every outstanding block, in any order, leaves one free segment and no used byte. */
  lemma {:induction false} FreeEverything(h: HeapState, order: seq<nat>)
    requires GoodState(h) && ListsAll(h, order)
    ensures Legal(h, Frees(order)) && h.end >= h.start + HDR
    ensures Run(h, Frees(order)).segs == [Seg(h.start, h.end - h.start - HDR, true)]
    ensures Total(Run(h, Frees(order)).segs, false) == 0
    decreases |order|
  {
    hide Good, AfterFree, ListsAll, Live, Legal, Run, Frees, Total;
    if order == [] {
      NothingListed(h);
    } else {
      var p, rest := order[0], order[1..];
      FirstListed(h, order);
      var s :| s in Live(h.segs) && s.Payload() == p;
      FreeCorrect(h, p, s);
      var h' := AfterFree(h, p);
      ListsRest(h, h', order, s);
      FreeEverything(h', rest);
      RunFirstFree(h, order);
    }
  }

  lemma NothingListed(h: HeapState)
    requires GoodState(h) && ListsAll(h, [])
    ensures Legal(h, Frees([])) && h.end >= h.start + HDR
    ensures Run(h, Frees([])).segs == [Seg(h.start, h.end - h.start - HDR, true)]
    ensures Total(Run(h, Frees([])).segs, false) == 0
  {
    NothingOutstanding(h);
    NothingLive(h.segs, h.start, h.end);
  }

  lemma NothingOutstanding(h: HeapState)
    requires ListsAll(h, [])
    ensures Live(h.segs) == {}
  {
    forall s | s in Live(h.segs)
      ensures s.Payload() in []
    {
      assert Outstanding(h, s.Payload());
    }
  }

  lemma RunFirstFree(h: HeapState, order: seq<nat>)
    requires GoodState(h) && order != [] && Outstanding(h, order[0]) && GoodState(AfterFree(h, order[0]))
    requires Legal(AfterFree(h, order[0]), Frees(order[1..]))
    ensures Legal(h, Frees(order)) && Run(h, Frees(order)) == Run(AfterFree(h, order[0]), Frees(order[1..]))
  {
    hide Good, AfterFree;
    assert Frees(order)[0] == Free(order[0]);
    assert Frees(order)[1..] == Frees(order[1..]);
  }

  lemma FirstListed(h: HeapState, order: seq<nat>)
    requires order != [] && ListsAll(h, order)
    ensures Outstanding(h, order[0])
  {
    assert order[0] in order;
  }

  lemma ListsRest(h: HeapState, h': HeapState, order: seq<nat>, s: Seg)
    requires GoodState(h) && order != [] && ListsAll(h, order)
    requires s in Live(h.segs) && s.Payload() == order[0] && Live(h'.segs) == Live(h.segs) - {s}
    ensures ListsAll(h', order[1..])
  {
    var rest := order[1..];
    forall p
      ensures p in rest <==> Outstanding(h', p)
    {
      if p in rest {
        assert p in order && p != order[0];
        var t :| t in Live(h.segs) && t.Payload() == p;
        assert t in Live(h'.segs);
      }
      if Outstanding(h', p) {
        var t :| t in Live(h'.segs) && t.Payload() == p;
        assert Outstanding(h, p);
        SamePayload(h, s, t);
      }
    }
  }

  lemma SamePayload(h: HeapState, s: Seg, t: Seg)
    requires GoodState(h) && s in Live(h.segs) && t in Live(h.segs) && s != t
    ensures s.Payload() != t.Payload()
  {
    LiveBlocksDisjoint(h.segs, h.start, h.end, s, t);
  }
}
