/**
 The kernel heap of kernel/mem/heap.cpp: headers in memory updated in place, on top of the page
 mapper and the page frame allocator.  Each method is proved against the segment-list step that it
 carries out; `Valid` adds that every heap page is backed by a frame of its own.
 */
module KernelHeap {
  import opened Outcomes
  import opened FrameSpec
  import opened PageTree
  import opened Paging
  import opened HeapLinks
  import HeapSpec
  import HeapRuns

  type Seg = HeapSpec.Seg

  const MAX_START: nat := 0x8000_0000_0000        // 2^47
  const MAX_SIZE: nat := 0xFFFF_FFFF_FFFF_F000    // 2^64 - 4096: rounding up to pages does not wrap

  /** Memory, the tail pointer and the segment list agree, and the list tiles [a, b). */
  ghost predicate Rep(mem: Memory, lastHdr: nat, segs: seq<Seg>, a: nat, b: nat) {
    && Linked(mem, segs) && HeapSpec.Tiles(segs, a, b) && HeapSpec.LongEnough(segs) && a > 0
    && lastHdr == segs[|segs| - 1].addr
  }

  /** What `combineForward` needs to know about a segment with a free successor, and what it achieves. */
  lemma MergeRep(mem: Memory, lastHdr: nat, segs: seq<Seg>, a: nat, b: nat, i: nat)
    requires Rep(mem, lastHdr, segs, a, b) && i + 1 < |segs| && segs[i + 1].free
    ensures var cur := segs[i].addr;
            && cur in mem && mem[cur].next in mem && mem[cur].next != cur
            && var nn := mem[mem[cur].next].next;
               && (nn != NULL ==> nn in mem && nn != cur && nn != mem[cur].next)
               && Rep(Absorbed(mem, cur), if mem[cur].next == lastHdr then cur else lastHdr,
                      HeapSpec.MergeAt(segs, i), a, b)
  {
    hide HeapSpec.MergeAt;
    MergeLinked(mem, segs, a, b, i);
    HeapSpec.MergeTiles(segs, a, b, i);
    HeapSpec.TilesAscend(segs, a, b);
    MergeElements(segs, i);
    LinkedAt(mem, segs, i);
    LinkedAt(mem, segs, i + 1);
  }

  /** The same for `split` on a segment that can be split. */
  lemma SplitRep(mem: Memory, lastHdr: nat, segs: seq<Seg>, a: nat, b: nat, i: nat, n: nat)
    requires Rep(mem, lastHdr, segs, a, b) && i < |segs| && HeapSpec.CanSplit(segs[i], n)
    ensures var cur, added, rest := segs[i].addr, segs[i].addr + n + HeapSpec.HDR, segs[i].len - n - HeapSpec.HDR;
            && cur in mem
            && (mem[cur].next != NULL ==> mem[cur].next in mem && mem[cur].next != cur && mem[cur].next != added)
            && Rep(Spliced(mem, cur, added, rest, n), if lastHdr == cur then added else lastHdr,
                   HeapSpec.SplitAt(segs, i, n), a, b)
  {
    hide HeapSpec.SplitAt;
    SplitLinked(mem, segs, a, b, i, n);
    HeapSpec.SplitTiles(segs, a, b, i, n);
    HeapSpec.TilesAscend(segs, a, b);
    HeapSpec.TilesAscend(HeapSpec.SplitAt(segs, i, n), a, b);
    SplitElements(segs, i, n);
    LinkedAt(mem, segs, i);
  }

  // ---------- the frames behind the heap ----------

  /** Page k of the heap translates to the k-th frame of the list. */
  ghost predicate BackedBy(st: PageState, start: nat, backing: seq<nat>) {
    forall k :: 0 <= k < |backing| ==> Walk(st.mem, st.root, PathOf(start + 4096 * k)) == Some(backing[k])
  }

  ghost predicate Distinct(s: seq<nat>) {
    forall i, j :: 0 <= i < j < |s| ==> s[i] != s[j]
  }

  ghost predicate AllIn(s: seq<nat>, frames: set<nat>) {
    forall i :: 0 <= i < |s| ==> s[i] in frames
  }

  ghost predicate NoneIn(s: seq<nat>, frames: set<nat>) {
    forall i :: 0 <= i < |s| ==> s[i] !in frames
  }

  lemma {:induction false} DistinctFits(s: seq<nat>, frames: set<nat>)
    requires Distinct(s) && AllIn(s, frames)
    ensures |s| <= |frames|
  {
    if s != [] {
      var n := |s| - 1;
      DistinctFits(s[..n], frames - {s[n]});
    }
  }

  /** Mapping the next page of the heap leaves the pages before it where they are. */
  lemma BackOneMore(s0: PageState, s1: PageState, start: nat, backing: seq<nat>, f: nat)
    requires BackedBy(s0, start, backing) && start % 4096 == 0 && start <= MAX_START && |backing| < MAX_PAGES
    requires UpdatesOne(s0, s1, PathOf(start + 4096 * |backing|), f)
    ensures BackedBy(s1, start, backing + [f])
  {
    hide PathOf;
    var page := PathOf(start + 4096 * |backing|);
    forall k | 0 <= k < |backing| + 1
      ensures Walk(s1.mem, s1.root, PathOf(start + 4096 * k)) == Some((backing + [f])[k])
    {
      PathOfIndexer(start + 4096 * k);
      if k < |backing| {
        OtherPage(start, k, |backing|);
        assert IsLeaf(PathOf(start + 4096 * k));
      }
    }
  }

  lemma OtherPage(start: nat, k: nat, n: nat)
    requires start % 4096 == 0 && start <= MAX_START && k < n < MAX_PAGES
    ensures PathOf(start + 4096 * k) != PathOf(start + 4096 * n)
  {
    hide PathOf;
    SamePath(start + 4096 * k, start + 4096 * n);
    assert (start + 4096 * k) / 0x1000 == start / 0x1000 + k;
    assert (start + 4096 * n) / 0x1000 == start / 0x1000 + n;
  }

  lemma TotalSnoc(segs: seq<Seg>, i: nat)
    requires i < |segs|
    ensures HeapSpec.Total(segs[..i + 1], false)
            == HeapSpec.Total(segs[..i], false) + if segs[i].free then 0 else segs[i].len + HeapSpec.HDR
  {
    assert segs[..i + 1] == segs[..i] + [segs[i]];
    HeapSpec.TotalConcat(segs[..i], [segs[i]], false);
  }

  /** The append of `expandHeap`, before the merge. */
  lemma AppendRep(mem: Memory, lastHdr: nat, segs: seq<Seg>, a: nat, b: nat, length: nat)
    requires Rep(mem, lastHdr, segs, a, b) && length >= HeapSpec.PAGE
    ensures lastHdr in mem && lastHdr != b
    ensures Rep(Appended(mem, lastHdr, b, length - HeapSpec.HDR), b,
                segs + [HeapSpec.Seg(b, length - HeapSpec.HDR, true)], a, b + length)
  {
    AppendLinked(mem, segs, a, b, length - HeapSpec.HDR);
  }

  lemma PageOfOffset(start: nat, v: nat, k: nat)
    requires start % 4096 == 0 && start <= v && k == (v - start) / 4096
    ensures PathOf(v) == PathOf(start + 4096 * k) && v / 4096 == start / 4096 + k
  {
    hide PathOf;
    assert (start + 4096 * k) / 0x1000 == start / 0x1000 + k == v / 0x1000;
    SamePath(v, start + 4096 * k);
  }

  /** The page at path t is none of the n pages from pos on. */
  ghost predicate Elsewhere(t: Path, pos: nat, n: nat) {
    forall k :: 0 <= k < n ==> t != PathOf(pos + 4096 * k)
  }

  /** Only n pages from pos on may have a new translation. */
  ghost predicate OnlyPages(s0: PageState, s1: PageState, pos: nat, n: nat) {
    forall t :: IsLeaf(t) && Elsewhere(t, pos, n) ==> Walk(s1.mem, s1.root, t) == Walk(s0.mem, s0.root, t)
  }

  lemma NoPages(s0: PageState, pos: nat)
    ensures OnlyPages(s0, s0, pos, 0)
  {
  }

  lemma OnePage(s0: PageState, s1: PageState, pos: nat, g: nat)
    requires UpdatesOne(s0, s1, PathOf(pos), g)
    ensures OnlyPages(s0, s1, pos, 1)
  {
    forall t | IsLeaf(t) && Elsewhere(t, pos, 1)
      ensures Walk(s1.mem, s1.root, t) == Walk(s0.mem, s0.root, t)
    {
      assert t != PathOf(pos + 4096 * 0);
    }
  }

  lemma ElsewhereSplits(t: Path, pos: nat, n: nat, m: nat)
    requires Elsewhere(t, pos, n + m)
    ensures Elsewhere(t, pos, n) && Elsewhere(t, pos + 4096 * n, m)
  {
    hide PathOf;
    forall k | 0 <= k < m
      ensures t != PathOf(pos + 4096 * n + 4096 * k)
    {
      assert pos + 4096 * n + 4096 * k == pos + 4096 * (n + k);
    }
  }

  lemma MorePages(s0: PageState, s1: PageState, s2: PageState, pos: nat, n: nat, m: nat)
    requires OnlyPages(s0, s1, pos, n) && OnlyPages(s1, s2, pos + 4096 * n, m)
    ensures OnlyPages(s0, s2, pos, n + m)
  {
    hide Elsewhere, Walk;
    forall t | IsLeaf(t) && Elsewhere(t, pos, n + m)
      ensures Walk(s2.mem, s2.root, t) == Walk(s0.mem, s0.root, t)
    {
      ElsewhereSplits(t, pos, n, m);
    }
  }

  lemma MissingAtMostThree(node: map<Path, nat>, t: Path)
    requires |t| == 4
    ensures Missing(node, t, 3) <= 3
  {
    assert Missing(node, t, 1) <= 1;
    assert Missing(node, t, 2) <= 2;
  }

  lemma StillApart(frames: seq<nat>, f: nat, o0: set<nat>, o1: set<nat>, n0: set<nat>, n1: set<nat>)
    requires Distinct(frames) && AllIn(frames, o0) && NoneIn(frames, n0)
    requires f !in o0 && o0 + {f} <= o1 && f !in n1
    requires forall g :: g in o0 && g in n1 ==> g in n0
    ensures Distinct(frames + [f]) && AllIn(frames + [f], o1) && NoneIn(frames + [f], n1)
  {
    forall i | 0 <= i < |frames|
      ensures frames[i] !in n1
    {
      assert frames[i] in o0 && frames[i] !in n0;
    }
  }

  lemma WritableAt(mem: map<nat, seq<bv64>>, st: PageState, t: Path)
    requires AllWritable(mem, st) && IsLeaf(t) && Walk(st.mem, st.root, t).Some?
    ensures WritableWalk(mem, st.root, t)
  {
  }

  class Heap {
    const mmu: PageMapper
    var heapStart: nat
    var heapEnd: nat
    var lastHdr: nat
    var mem: Memory

    ghost var segs: seq<Seg>
    ghost var backing: seq<nat>
    ghost var expansions: nat          // calls of expandHeap so far

    constructor (mmu: PageMapper)
      ensures this.mmu == mmu
    {
      this.mmu := mmu;
      heapStart, heapEnd, lastHdr, mem := 0, 0, NULL, map[];
      segs, backing, expansions := [], [], 0;
    }

    ghost function State(): HeapRuns.HeapState
      reads this`segs, this`heapStart, this`heapEnd
    {
      HeapRuns.HeapState(segs, heapStart, heapEnd)
    }

    /**
     Every page from start on has a frame of its own: the frames are pairwise distinct, handed out by
     the allocator (so none is the bitmap's) and none is a page-table frame.
     */
    ghost predicate Backed(start: nat, frames: seq<nat>)
      reads mmu, mmu.pfa, mmu.pfa.bitmap, mmu.pfa.bitmap.Buffer
    {
      && mmu.Valid()
      && start % 4096 == 0 && start <= MAX_START
      && BackedBy(mmu.st, start, frames)
      && Distinct(frames) && AllIn(frames, mmu.pfa.obtained) && NoneIn(frames, mmu.st.node.Values)
    }

    ghost predicate Valid()
      reads this, mmu, mmu.pfa, mmu.pfa.bitmap, mmu.pfa.bitmap.Buffer
    {
      && Rep(mem, lastHdr, segs, heapStart, heapEnd)
      && HeapSpec.Coalesced(segs)
      && Backed(heapStart, backing) && heapEnd == heapStart + 4096 * |backing|
    }

    // ---------- header operations ----------

    /** `HeapSegHdr::combineForward` on the i-th segment. */
    method CombineForward(cur: nat, ghost i: nat, ghost b: nat)
      requires Rep(mem, lastHdr, segs, heapStart, b) && i < |segs| && segs[i].addr == cur
      modifies this`mem, this`lastHdr, this`segs
      ensures Rep(mem, lastHdr, segs, heapStart, b) && segs == HeapSpec.MergeAt(old(segs), i)
    {
      hide HeapSpec.MergeAt, HeapSpec.Tiles, HeapSpec.LongEnough, Linked;
      LinksAreInverse(mem, segs, heapStart, b, i);
      var next := mem[cur].next;
      if next == NULL {
        NothingToMerge(segs, i);
        return;
      }
      LinksAreInverse(mem, segs, heapStart, b, i + 1);
      if !mem[next].free {
        NothingToMerge(segs, i);
        return;
      }
      MergeRep(mem, lastHdr, segs, heapStart, b, i);
      ghost var before := mem;
      if next == lastHdr {
        lastHdr := cur;
      }
      var nextNext := mem[next].next;
      if nextNext != NULL {
        mem := mem[nextNext := mem[nextNext].(last := cur)];
      }
      mem := mem[cur := mem[cur].(length := mem[cur].length + mem[next].length + 29)];
      mem := mem[cur := mem[cur].(next := mem[next].next)];
      assert mem == Absorbed(before, cur);
      segs := HeapSpec.MergeAt(segs, i);
    }

    /** `HeapSegHdr::combineBackward` on the i-th segment. */
    method CombineBackward(cur: nat, ghost i: nat, ghost b: nat)
      requires Rep(mem, lastHdr, segs, heapStart, b) && i < |segs| && segs[i].addr == cur
      modifies this`mem, this`lastHdr, this`segs
      ensures Rep(mem, lastHdr, segs, heapStart, b) && segs == HeapSpec.MergeBack(old(segs), i)
    {
      LinksAreInverse(mem, segs, heapStart, b, i);
      var last := mem[cur].last;
      if last != NULL {
        LinksAreInverse(mem, segs, heapStart, b, i - 1);
        if mem[last].free {
          CombineForward(last, i - 1, b);
        }
      }
    }

    /** `HeapSegHdr::split` on the i-th segment; nothing is stored through a NULL `next`. */
    method Split(cur: nat, splitLength: nat, ghost i: nat, ghost b: nat)
      requires Rep(mem, lastHdr, segs, heapStart, b) && i < |segs| && segs[i].addr == cur
      modifies this`mem, this`lastHdr, this`segs
      ensures Rep(mem, lastHdr, segs, heapStart, b) && segs == HeapSpec.SplitAt(old(segs), i, splitLength)
    {
      hide HeapSpec.SplitAt, HeapSpec.Tiles, HeapSpec.LongEnough, Linked;
      LinksAreInverse(mem, segs, heapStart, b, i);
      if splitLength < 0x10 {
        NothingToSplit(segs, i, splitLength);
        return;
      }
      var splitSegLength := mem[cur].length - splitLength - 29;
      if splitSegLength < 0x10 {
        NothingToSplit(segs, i, splitLength);
        return;
      }
      SplitRep(mem, lastHdr, segs, heapStart, b, i, splitLength);
      ghost var before := mem;
      var newSplitHdr := cur + splitLength + 29;
      var next := mem[cur].next;
      if next != NULL {
        mem := mem[next := mem[next].(last := newSplitHdr)];
      }
      mem := mem[newSplitHdr := Hdr(splitSegLength, next, cur, mem[cur].free)];
      mem := mem[cur := mem[cur].(next := newSplitHdr)];
      mem := mem[cur := mem[cur].(length := splitLength)];
      assert mem == Spliced(before, cur, newSplitHdr, splitSegLength, splitLength);
      if lastHdr == cur {
        lastHdr := newSplitHdr;
      }
      segs := HeapSpec.SplitAt(segs, i, splitLength);
    }

    /** Sets the `free` field of the i-th segment. */
    method Mark(cur: nat, free: bool, ghost i: nat, ghost b: nat)
      requires Rep(mem, lastHdr, segs, heapStart, b) && i < |segs| && segs[i].addr == cur
      modifies this`mem, this`segs
      ensures Rep(mem, lastHdr, segs, heapStart, b) && segs == HeapSpec.SetFree(old(segs), i, free)
    {
      HeapSpec.TilesAscend(segs, heapStart, b);
      SetFreeLinked(mem, segs, i, free);
      mem := mem[cur := mem[cur].(free := free)];
      segs := HeapSpec.SetFree(segs, i, free);
    }

    // ---------- pages ----------

    /** Maps the next page behind the ones already backed. */
    method MapPage(pos: nat, ghost start: nat, ghost frames: seq<nat>) returns (r: Outcome<nat>)
      requires Backed(start, frames) && pos == start + 4096 * |frames|
      modifies mmu`mem, mmu`st, mmu.pfa`freeMemory, mmu.pfa`usedMemory, mmu.pfa`bitmapIdx, mmu.pfa`obtained
      modifies mmu.pfa.bitmap.Buffer
      ensures r.Returned? ==> Backed(start, frames + [r.value]) && OnlyPages(old(mmu.st), mmu.st, pos, 1)
      ensures old(mmu.pfa.freeMemory) >= 12288 + 16384 ==> r.Returned?
      ensures r.Returned? ==> mmu.pfa.freeMemory >= old(mmu.pfa.freeMemory) - 16384
    {
      hide Inv, Tree, UnpackAll, GoodWords, PathOf, Needed, UpdatesOne, BackedBy, Missing, OnlyPages;
      mmu.pfa.HeldFramesBounded();
      DistinctFits(frames, mmu.pfa.obtained);
      MissingAtMostThree(mmu.st.node, PathOf(pos));
      ghost var s0, o0, n0 := mmu.st, mmu.pfa.obtained, mmu.st.node.Values;
      r := mmu.MapFresh(pos);
      if r.Returned? {
        mmu.pfa.HeldFramesBounded();
        StillApart(frames, r.value, o0, mmu.pfa.obtained, n0, mmu.st.node.Values);
        DistinctFits(frames + [r.value], mmu.pfa.obtained);
        BackOneMore(s0, mmu.st, start, frames, r.value);
        OnePage(s0, mmu.st, pos, r.value);
      }
    }

    /** The mapping loop that `initHeap` and `expandHeap` share. */
    method MapPages(pos: nat, pageCount: nat, ghost start: nat, ghost frames: seq<nat>)
        returns (r: Outcome<nat>, ghost more: seq<nat>)
      requires Backed(start, frames) && pos == start + 4096 * |frames|
      modifies mmu`mem, mmu`st, mmu.pfa`freeMemory, mmu.pfa`usedMemory, mmu.pfa`bitmapIdx, mmu.pfa`obtained
      modifies mmu.pfa.bitmap.Buffer
      ensures r.Returned? ==> Backed(start, more) && |more| == |frames| + pageCount && frames <= more
      ensures r.Returned? ==> r.value == pos + 4096 * pageCount && OnlyPages(old(mmu.st), mmu.st, pos, pageCount)
      ensures old(mmu.pfa.freeMemory) >= 12288 + 16384 * pageCount ==> r.Returned?
      ensures r.Returned? ==> mmu.pfa.freeMemory >= old(mmu.pfa.freeMemory) - 16384 * pageCount
    {
      hide Inv, Tree, UnpackAll, GoodWords, PathOf, Needed, BackedBy, Distinct, AllIn, NoneIn, OnlyPages;
      more := frames;
      ghost var s0 := mmu.st;
      NoPages(s0, pos);
      var p := pos;
      for i := 0 to pageCount
        invariant Backed(start, more) && |more| == |frames| + i && frames <= more && p == pos + 4096 * i
        invariant mmu.pfa.freeMemory >= old(mmu.pfa.freeMemory) - 16384 * i
        invariant OnlyPages(s0, mmu.st, pos, i)
      {
        ghost var s1 := mmu.st;
        r := MapPage(p, start, more);
        if r.Panicked? {
          return;
        }
        MorePages(s0, s1, mmu.st, pos, i, 1);
        more := more + [r.value];
        p := p + 0x1000;
      }
      r := Returned(p);
    }

    /**
     What stands behind the heap: every address in it is translated, two addresses to the same frame
     only if they lie in the same page, and never to a page-table frame or a frame of the bitmap.
     */
    lemma BackingIsInjective(v: nat, w: nat)
      requires Valid() && heapStart <= v < heapEnd && heapStart <= w < heapEnd
      ensures var st := mmu.st;
              var f, g := Walk(st.mem, st.root, PathOf(v)), Walk(st.mem, st.root, PathOf(w));
              && f.Some? && g.Some? && (f == g <==> v / 4096 == w / 4096)
              && f.value in mmu.pfa.obtained && f.value !in st.node.Values && f.value !in mmu.pfa.boot.own
    {
      hide Tree, UnpackAll, GoodWords, PathOf, Needed;
      var i, j := (v - heapStart) / 4096, (w - heapStart) / 4096;
      PageOfOffset(heapStart, v, i);
      PageOfOffset(heapStart, w, j);
      assert Walk(mmu.st.mem, mmu.st.root, PathOf(heapStart + 4096 * i)) == Some(backing[i]);
      assert Walk(mmu.st.mem, mmu.st.root, PathOf(heapStart + 4096 * j)) == Some(backing[j]);
      assert backing[i] in mmu.pfa.obtained;
    }

    /** Every heap address is reached through four writable entries, so headers and blocks can be stored to. */
    lemma HeapWritable(v: nat)
      requires Valid() && heapStart <= v < heapEnd
      ensures WritableWalk(mmu.mem, mmu.root, PathOf(v))
    {
      hide *;
      PathOfIndexer(v);
      BackingIsInjective(v, v);
      ValidParts();
      mmu.TranslatedPagesWritable();
      WritableAt(mmu.mem, mmu.st, PathOf(v));
    }

    lemma ValidParts()
      requires Valid()
      ensures mmu.Structured() && mmu.st.root == mmu.root
    {
    }

    /** One frame per page bounds the heap by 2 GB, so every length fits the signed arithmetic of `split`. */
    lemma HeapBounded(i: nat)
      requires Valid() && i < |segs|
      ensures heapEnd - heapStart <= 0x8000_0000
      ensures heapStart <= segs[i].addr && segs[i].End() <= heapEnd && segs[i].len < 0x8000_0000
    {
      hide Inv, Tree, UnpackAll, GoodWords, PathOf, Needed, BackedBy, Linked;
      mmu.pfa.HeldFramesBounded();
      DistinctFits(backing, mmu.pfa.obtained);
      HeapRuns.WithinHeap(segs, heapStart, heapEnd, i);
    }

    // ---------- growing ----------

    /** The pages added since the heap ended at b are the only ones with a new translation, and no backing is lost. */
    ghost predicate GrownInPlace(s0: PageState, frames: seq<nat>, b: nat)
      reads this`backing, mmu`st
    {
      frames <= backing && OnlyPages(s0, mmu.st, b, |backing| - |frames|)
    }

    /** `initHeap`: one free segment over freshly mapped pages. */
    method InitHeap(heapAddress: nat, pageCount: nat) returns (r: Outcome<()>)
      requires mmu.Valid() && heapAddress % 4096 == 0 && 0 < heapAddress <= MAX_START && pageCount > 0
      modifies this, mmu`mem, mmu`st, mmu.pfa`freeMemory, mmu.pfa`usedMemory, mmu.pfa`bitmapIdx, mmu.pfa`obtained
      modifies mmu.pfa.bitmap.Buffer
      ensures r.Returned? ==> Valid() && heapStart == heapAddress && heapEnd == heapAddress + 4096 * pageCount
      ensures r.Returned? ==> segs == [HeapSpec.Seg(heapAddress, 4096 * pageCount - HeapSpec.HDR, true)]
      ensures r.Returned? ==> OnlyPages(old(mmu.st), mmu.st, heapAddress, pageCount)
      ensures old(mmu.pfa.freeMemory) >= 12288 + 16384 * pageCount ==> r.Returned?
    {
      hide Inv, Tree, UnpackAll, GoodWords, PathOf, Needed, OnlyPages;
      ghost var frames: seq<nat>;
      var end;
      end, frames := MapPages(heapAddress, pageCount, heapAddress, []);
      if end.Panicked? {
        return Panicked;
      }
      var heapLength := pageCount * 0x1000;
      heapStart := heapAddress;
      heapEnd := heapStart + heapLength;
      mem := mem[heapAddress := Hdr(heapLength - 29, NULL, NULL, true)];
      lastHdr := heapAddress;
      segs, backing := [HeapSpec.Seg(heapAddress, heapLength - 29, true)], frames;
      return Returned(());
    }

    /** `expandHeap`: freshly mapped pages become a free segment at the end, merged with a free tail. */
    method ExpandHeap(length: nat) returns (r: Outcome<()>)
      requires Valid() && 0 < length <= MAX_SIZE
      modifies this`heapEnd, this`lastHdr, this`mem, this`segs, this`backing, this`expansions
      modifies mmu`mem, mmu`st, mmu.pfa`freeMemory, mmu.pfa`usedMemory, mmu.pfa`bitmapIdx, mmu.pfa`obtained
      modifies mmu.pfa.bitmap.Buffer
      ensures expansions == old(expansions) + 1
      ensures r.Returned? ==> Valid() && State() == HeapRuns.GrowOnce(old(State()), length)
      ensures r.Returned? ==> GrownInPlace(old(mmu.st), old(backing), old(heapEnd))
      ensures old(mmu.pfa.freeMemory) >= 12288 + 4 * HeapSpec.RoundPage(length) ==> r.Returned?
      ensures r.Returned? ==> mmu.pfa.freeMemory >= old(mmu.pfa.freeMemory) - 4 * HeapSpec.RoundPage(length)
    {
      hide Inv, Tree, UnpackAll, GoodWords, PathOf, Needed, BackedBy, Distinct, AllIn, NoneIn;
      hide Linked, HeapSpec.Tiles, HeapSpec.LongEnough, HeapSpec.Coalesced, HeapSpec.Extend, OnlyPages;
      expansions := expansions + 1;
      var len := length;
      if len % 0x1000 != 0 {
        len := len - len % 0x1000;
        len := len + 0x1000;
      }
      var pageCount := len / 0x1000;
      var align := heapEnd % 0x1000;
      var newSegment := if align > 0 then heapEnd + (0x1000 - align) else heapEnd;
      ghost var frames: seq<nat>;
      var end;
      end, frames := MapPages(newSegment, pageCount, heapStart, backing);
      if end.Panicked? {
        return Panicked;
      }
      heapEnd := end.value;
      backing := frames;
      AppendFree(newSegment, len);
      return Returned(());
    }

    /** The header part of `expandHeap`. */
    method AppendFree(newSegment: nat, length: nat)
      requires Rep(mem, lastHdr, segs, heapStart, newSegment) && HeapSpec.Coalesced(segs)
      requires length >= HeapSpec.PAGE
      modifies this`lastHdr, this`mem, this`segs
      ensures Rep(mem, lastHdr, segs, heapStart, newSegment + length) && HeapSpec.Coalesced(segs)
      ensures segs == HeapSpec.Extend(old(segs), newSegment, length)
    {
      hide Linked, HeapSpec.Tiles, HeapSpec.LongEnough, HeapSpec.Coalesced, HeapSpec.MergeBack;
      HeapSpec.ExtendKeepsGood(segs, heapStart, newSegment, length);
      AppendRep(mem, lastHdr, segs, heapStart, newSegment, length);
      ghost var before := mem;
      mem := mem[newSegment := Hdr(length - 29, NULL, lastHdr, true)];
      mem := mem[lastHdr := mem[lastHdr].(next := newSegment)];
      assert mem == Appended(before, lastHdr, newSegment, length - 29);
      lastHdr := newSegment;
      segs := segs + [HeapSpec.Seg(newSegment, length - HeapSpec.HDR, true)];
      CombineBackward(newSegment, |segs| - 1, newSegment + length);
    }

    // ---------- malloc and free ----------

    /**
     `malloc`: NULL for size zero; otherwise the payload of the block that the first-fit
     specification assigns, after exactly as many expansions as that needs.  It can panic only for
     want of frames, and not at all when a segment fits.
     */
    method Malloc(size: nat) returns (r: Outcome<nat>)
      requires Valid() && size <= MAX_SIZE
      modifies this`heapEnd, this`lastHdr, this`mem, this`segs, this`backing, this`expansions
      modifies mmu`mem, mmu`st, mmu.pfa`freeMemory, mmu.pfa`usedMemory, mmu.pfa`bitmapIdx, mmu.pfa`obtained
      modifies mmu.pfa.bitmap.Buffer
      ensures HeapRuns.GoodState(old(State()))
      ensures r.Returned? ==> Valid() && State() == HeapRuns.AfterAlloc(old(State()), size)
      ensures r.Returned? ==>
                r.value == if size == 0 then NULL else HeapRuns.NewBlock(old(State()), size).Payload()
      ensures r.Returned? ==> GrownInPlace(old(mmu.st), old(backing), old(heapEnd))
      ensures r.Returned? && size > 0 ==>
                expansions == old(expansions) + HeapSpec.Expansions(old(segs), HeapSpec.Round16(size))
      ensures size == 0 || HeapSpec.Expansions(old(segs), HeapSpec.Round16(size)) == 0 ==>
                r.Returned? && mmu.pfa.freeMemory == old(mmu.pfa.freeMemory) && expansions == old(expansions)
      ensures old(mmu.pfa.freeMemory) >= 12288 + 4 * HeapRuns.Growth(old(segs), HeapSpec.Round16(size)) ==> r.Returned?
      decreases HeapSpec.Expansions(segs, HeapSpec.Round16(size))
    {
      hide Inv, Tree, UnpackAll, GoodWords, PathOf, Needed, BackedBy, Distinct, AllIn, NoneIn;
      hide Linked, HeapSpec.Tiles, HeapSpec.LongEnough, HeapSpec.Coalesced, HeapSpec.Carve, OnlyPages;
      hide HeapSpec.Expansions, HeapRuns.Growth, HeapRuns.AfterAlloc, HeapRuns.NewBlock, HeapRuns.GrowOnce;
      ghost var h, s0, frames, b := State(), mmu.st, backing, heapEnd;
      NoPages(s0, b);
      var n := size;
      if n % 0x10 > 0 {
        n := n - n % 0x10;
        n := n + 0x10;
      }
      assert n == HeapSpec.Round16(size);
      if n == 0 {
        HeapRuns.AllocNothing(h);
        return Returned(NULL);
      }
      HeapRuns.AllocFits(h, size);
      var found := Take(n);
      if found != NULL {
        return Returned(found);
      }
      HeapRuns.AllocRetries(h, size);
      var grown := ExpandHeap(n);
      if grown.Panicked? {
        return Panicked;
      }
      ghost var s1, frames1 := mmu.st, backing;
      r := Malloc(n);
      if r.Returned? {
        MorePages(s0, s1, mmu.st, b, |frames1| - |frames|, |backing| - |frames1|);
      }
    }

    /** The search loop of `malloc`: takes the first fitting segment, or reports that none fits. */
    method Take(size: nat) returns (addr: nat)
      requires Rep(mem, lastHdr, segs, heapStart, heapEnd) && HeapSpec.Coalesced(segs) && size > 0
      modifies this`lastHdr, this`mem, this`segs
      ensures Rep(mem, lastHdr, segs, heapStart, heapEnd) && HeapSpec.Coalesced(segs)
      ensures var i := HeapSpec.FirstFit(old(segs), size, 0);
              if i == |old(segs)| then addr == NULL && segs == old(segs)
              else segs == HeapSpec.Carve(old(segs), i, size) && addr == segs[i].Payload()
    {
      var currentSeg := heapStart;
      ghost var i := 0;
      while true
        invariant 0 <= i < |segs| && segs[i].addr == currentSeg
        invariant mem == old(mem) && segs == old(segs) && lastHdr == old(lastHdr)
        invariant HeapSpec.FirstFit(segs, size, 0) == HeapSpec.FirstFit(segs, size, i)
        decreases |segs| - i
      {
        LinksAreInverse(mem, segs, heapStart, heapEnd, i);
        if mem[currentSeg].free {
          if mem[currentSeg].length > size {
            TakeAt(currentSeg, size, i);
            return currentSeg + 29;
          }
          if mem[currentSeg].length == size {
            TakeAt(currentSeg, size, i);
            return currentSeg + 29;
          }
        }
        if mem[currentSeg].next == NULL {
          return NULL;
        }
        currentSeg := mem[currentSeg].next;
        i := i + 1;
      }
    }

    method TakeAt(cur: nat, size: nat, ghost i: nat)
      requires Rep(mem, lastHdr, segs, heapStart, heapEnd) && HeapSpec.Coalesced(segs)
      requires i < |segs| && segs[i].addr == cur && HeapSpec.Fits(segs[i], size)
      modifies this`lastHdr, this`mem, this`segs
      ensures Rep(mem, lastHdr, segs, heapStart, heapEnd) && HeapSpec.Coalesced(segs)
      ensures segs == HeapSpec.Carve(old(segs), i, size) && segs[i].addr == cur
    {
      HeapSpec.CarveKeepsGood(segs, heapStart, heapEnd, i, size);
      Split(cur, size, i, heapEnd);
      Mark(cur, false, i, heapEnd);
    }

    /** `free` of an outstanding block. */
    method Free(address: nat)
      requires Valid() && HeapRuns.Outstanding(State(), address)
      modifies this`lastHdr, this`mem, this`segs
      ensures Valid() && State() == HeapRuns.AfterFree(old(State()), address)
    {
      hide Inv, Tree, UnpackAll, GoodWords, PathOf, Needed, BackedBy, Distinct, AllIn, NoneIn;
      hide Linked, HeapSpec.Tiles, HeapSpec.LongEnough, HeapSpec.Coalesced, HeapSpec.Release, HeapSpec.Live;
      HeapRuns.OutstandingHasIndex(State(), address);
      ghost var i := HeapRuns.IndexOf(segs, address, 0);
      ReleaseAt(address - 29, i);
    }

    method ReleaseAt(segment: nat, ghost i: nat)
      requires Rep(mem, lastHdr, segs, heapStart, heapEnd) && HeapSpec.Coalesced(segs)
      requires i < |segs| && segs[i].addr == segment
      modifies this`lastHdr, this`mem, this`segs
      ensures Rep(mem, lastHdr, segs, heapStart, heapEnd) && HeapSpec.Coalesced(segs)
      ensures segs == HeapSpec.Release(old(segs), i)
    {
      hide Linked, HeapSpec.Tiles, HeapSpec.LongEnough, HeapSpec.Coalesced, HeapSpec.MergeBack;
      HeapSpec.ReleaseKeepsGood(segs, heapStart, heapEnd, i);
      Mark(segment, true, i, heapEnd);
      CombineForward(segment, i, heapEnd);
      CombineBackward(segment, i, heapEnd);
    }

    /** `getUsedMem`: the bytes in used segments, headers included. */
    method GetUsedMem() returns (used: nat)
      requires Valid()
      ensures used == HeapSpec.Total(segs, false)
      ensures used + HeapSpec.Total(segs, true) == heapEnd - heapStart
    {
      hide Inv, Tree, UnpackAll, GoodWords, PathOf, Needed, BackedBy, Distinct, AllIn, NoneIn;
      HeapSpec.Conservation(segs, heapStart, heapEnd);
      used := 0;
      var currentSeg := heapStart;
      ghost var i := 0;
      while true
        invariant 0 <= i < |segs| && segs[i].addr == currentSeg
        invariant used == HeapSpec.Total(segs[..i], false)
        decreases |segs| - i
      {
        LinksAreInverse(mem, segs, heapStart, heapEnd, i);
        TotalSnoc(segs, i);
        if !mem[currentSeg].free {
          used := used + mem[currentSeg].length + 29;
        }
        if mem[currentSeg].next == NULL {
          assert segs[..i + 1] == segs;
          return;
        }
        currentSeg := mem[currentSeg].next;
        i := i + 1;
      }
    }
  }
}
