/**
 The heap of kernel/mem/heap.cpp as a list of segments in address order.  The functions are the
 steps that the allocator makes on that list; the lemmas say what each keeps: the segments tile the
 heap, none is shorter than 16 bytes, and no two neighbours are both free.
 */
module HeapSpec {

  const HDR: nat := 29          // sizeof(HeapSegHdr), packed
  const MIN: nat := 16          // the shortest payload a split leaves
  const PAGE: nat := 4096

  datatype Seg = Seg(addr: nat, len: nat, free: bool) {
    function End(): nat { addr + HDR + len }
    function Payload(): nat { addr + HDR }
  }

  // ---------- the invariant ----------

  /** The segments follow one another from a to b without gap or overlap. */
  ghost predicate Tiles(segs: seq<Seg>, a: nat, b: nat) {
    && |segs| > 0 && segs[0].addr == a && segs[|segs| - 1].End() == b
    && forall i, j :: 0 <= i && j == i + 1 && j < |segs| ==> segs[i].End() == segs[j].addr
  }

  ghost predicate LongEnough(segs: seq<Seg>) {
    forall i :: 0 <= i < |segs| ==> segs[i].len >= MIN
  }

  ghost predicate Coalesced(segs: seq<Seg>) {
    forall i, j :: 0 <= i && j == i + 1 && j < |segs| ==> !(segs[i].free && segs[j].free)
  }

  ghost predicate Good(segs: seq<Seg>, a: nat, b: nat) {
    Tiles(segs, a, b) && LongEnough(segs) && Coalesced(segs)
  }

  lemma {:induction false} SegmentsDisjoint(segs: seq<Seg>, a: nat, b: nat, i: nat, j: nat)
    requires Tiles(segs, a, b) && i < j < |segs|
    ensures segs[i].End() <= segs[j].addr
    decreases j
  {
    assert segs[j - 1].End() == segs[j].addr;
    if i < j - 1 {
      SegmentsDisjoint(segs, a, b, i, j - 1);
    }
  }

  /** Later segments have higher addresses. */
  ghost predicate Ascending(segs: seq<Seg>) {
    forall i, j :: 0 <= i < j < |segs| ==> segs[i].addr < segs[j].addr
  }

  lemma TilesAscend(segs: seq<Seg>, a: nat, b: nat)
    requires Tiles(segs, a, b)
    ensures Ascending(segs)
  {
    forall i, j | 0 <= i < j < |segs|
      ensures segs[i].addr < segs[j].addr
    {
      SegmentsDisjoint(segs, a, b, i, j);
    }
  }

  // ---------- sizes ----------

  /** Rounding a request up to 16 bytes, as `malloc` does it. */
  function Round16(size: nat): (s: nat)
    ensures s % 16 == 0 && size <= s < size + 16
  {
    if size % 0x10 > 0 then size - size % 0x10 + 0x10 else size
  }

  /** Rounding an expansion up to whole pages, as `expandHeap` does it. */
  function RoundPage(length: nat): (s: nat)
    ensures s % PAGE == 0 && length <= s < length + PAGE && (length > 0 ==> s >= PAGE)
  {
    if length % 0x1000 != 0 then length - length % 0x1000 + 0x1000 else length
  }

  // ---------- searching ----------

  predicate Fits(s: Seg, n: nat) { s.free && s.len >= n }

  /** The first segment from index k on that can take n bytes, or the number of segments. */
  function FirstFit(segs: seq<Seg>, n: nat, k: nat): (i: nat)
    requires k <= |segs|
    ensures k <= i <= |segs|
    ensures forall j :: k <= j < i ==> !Fits(segs[j], n)
    ensures i < |segs| ==> Fits(segs[i], n)
    decreases |segs| - k
  {
    if k == |segs| || Fits(segs[k], n) then k else FirstFit(segs, n, k + 1)
  }

  // ---------- the steps ----------

  predicate CanSplit(s: Seg, n: nat) { n >= 0x10 && s.len - n - HDR >= 0x10 }

  /** `split`: the segment at i is cut after n bytes if the rest can hold a header and 16 bytes. */
  function SplitAt(segs: seq<Seg>, i: nat, n: nat): seq<Seg>
    requires i < |segs|
  {
    var s := segs[i];
    if !CanSplit(s, n) then segs
    else segs[..i] + [Seg(s.addr, n, s.free), Seg(s.addr + HDR + n, s.len - n - HDR, s.free)] + segs[i + 1..]
  }

  function SetFree(segs: seq<Seg>, i: nat, free: bool): seq<Seg>
    requires i < |segs|
  {
    segs[i := segs[i].(free := free)]
  }

  /** Taking n bytes from the free segment at i. */
  function Carve(segs: seq<Seg>, i: nat, n: nat): (r: seq<Seg>)
    requires i < |segs|
    ensures i < |r|
  {
    SetFree(SplitAt(segs, i, n), i, false)
  }

  /** `combineForward`: the segment at i absorbs its successor if that one is free. */
  function MergeAt(segs: seq<Seg>, i: nat): (r: seq<Seg>)
    requires i < |segs|
    ensures i < |r|
  {
    if i + 1 < |segs| && segs[i + 1].free then
      segs[..i] + [segs[i].(len := segs[i].len + segs[i + 1].len + HDR)] + segs[i + 2..]
    else segs
  }

  /** `combineBackward`: a free predecessor of the segment at i absorbs it. */
  function MergeBack(segs: seq<Seg>, i: nat): seq<Seg>
    requires i < |segs|
  {
    if i > 0 && segs[i - 1].free then MergeAt(segs, i - 1) else segs
  }

  /** `free`. */
  function Release(segs: seq<Seg>, i: nat): seq<Seg>
    requires i < |segs|
  {
    MergeBack(MergeAt(SetFree(segs, i, true), i), i)
  }

  /** `expandHeap` by length bytes, at the end of the heap. */
  function Extend(segs: seq<Seg>, end: nat, length: nat): seq<Seg>
    requires length >= HDR
  {
    MergeBack(segs + [Seg(end, length - HDR, true)], |segs|)
  }

  // ---------- what the steps keep ----------

  lemma SplitTiles(segs: seq<Seg>, a: nat, b: nat, i: nat, n: nat)
    requires Tiles(segs, a, b) && LongEnough(segs) && i < |segs|
    ensures Tiles(SplitAt(segs, i, n), a, b) && LongEnough(SplitAt(segs, i, n))
  {
    var r := SplitAt(segs, i, n);
    if CanSplit(segs[i], n) {
      assert forall k :: 0 <= k < i ==> r[k] == segs[k];
      assert forall k :: i + 2 <= k < |r| ==> r[k] == segs[k - 1];
      assert r[i].addr == segs[i].addr && r[i].End() == r[i + 1].addr && r[i + 1].End() == segs[i].End();
    }
  }

  lemma MergeTiles(segs: seq<Seg>, a: nat, b: nat, i: nat)
    requires Tiles(segs, a, b) && LongEnough(segs) && i < |segs|
    ensures Tiles(MergeAt(segs, i), a, b) && LongEnough(MergeAt(segs, i))
  {
  }

  /** Taking bytes from a fitting segment keeps the heap good. */
  lemma CarveKeepsGood(segs: seq<Seg>, a: nat, b: nat, i: nat, n: nat)
    requires Good(segs, a, b) && i < |segs| && Fits(segs[i], n)
    ensures Good(Carve(segs, i, n), a, b)
  {
    SplitTiles(segs, a, b, i, n);
  }

  /** Neighbours are not both free, except perhaps the pairs starting at indices lo up to hi. */
  ghost predicate CoalescedExcept(segs: seq<Seg>, lo: int, hi: int) {
    forall i, j :: 0 <= i && j == i + 1 && j < |segs| && !(lo <= i < hi) ==> !(segs[i].free && segs[j].free)
  }

  lemma MergeCoalesces(segs: seq<Seg>, lo: int, i: nat)
    requires i < |segs| && lo <= i && CoalescedExcept(segs, lo, i + 1)
    ensures CoalescedExcept(MergeAt(segs, i), lo, i)
  {
    var r := MergeAt(segs, i);
    if i + 1 < |segs| && segs[i + 1].free {
      assert forall k :: 0 <= k < i ==> r[k] == segs[k];
      assert forall k :: i < k < |r| ==> r[k] == segs[k + 1];
      assert r[i].free == segs[i].free;
    }
  }

  lemma SetFreeTiles(segs: seq<Seg>, a: nat, b: nat, i: nat)
    requires Good(segs, a, b) && i < |segs|
    ensures var r := SetFree(segs, i, true);
            |r| == |segs| && Tiles(r, a, b) && LongEnough(r) && CoalescedExcept(r, i - 1, i + 1)
  {
  }

  /** Freeing a segment keeps the heap good: both neighbours are absorbed if they are free. */
  lemma ReleaseKeepsGood(segs: seq<Seg>, a: nat, b: nat, i: nat)
    requires Good(segs, a, b) && i < |segs|
    ensures Good(Release(segs, i), a, b)
  {
    hide MergeAt, SetFree, Tiles, LongEnough;
    var s1 := SetFree(segs, i, true);
    SetFreeTiles(segs, a, b, i);
    var s2 := MergeAt(s1, i);
    MergeTiles(s1, a, b, i);
    MergeCoalesces(s1, i - 1, i);
    if i > 0 {
      MergeTiles(s2, a, b, i - 1);
      MergeCoalesces(s2, i - 1, i - 1);
    }
  }

  /** Growing the heap keeps it good. */
  lemma ExtendKeepsGood(segs: seq<Seg>, a: nat, b: nat, length: nat)
    requires Good(segs, a, b) && length >= HDR + MIN
    ensures Good(Extend(segs, b, length), a, b + length)
  {
    var s1 := segs + [Seg(b, length - HDR, true)];
    assert Tiles(s1, a, b + length) && LongEnough(s1);
    MergeTiles(s1, a, b + length, |segs| - 1);
  }

  // ---------- live blocks ----------

  /** The segments in use: their addresses and lengths are what callers rely on. */
  function Live(segs: seq<Seg>): set<Seg> {
    set s | s in segs && !s.free
  }

  lemma SplitKeepsLive(segs: seq<Seg>, i: nat, n: nat)
    requires i < |segs| && segs[i].free
    ensures Live(SplitAt(segs, i, n)) == Live(segs)
  {
    var r := SplitAt(segs, i, n);
    if CanSplit(segs[i], n) {
      forall s
        ensures s in Live(r) <==> s in Live(segs)
      {
        assert segs == segs[..i] + [segs[i]] + segs[i + 1..];
      }
    }
  }

  lemma MergeKeepsLive(segs: seq<Seg>, i: nat)
    requires i < |segs| && segs[i].free
    ensures Live(MergeAt(segs, i)) == Live(segs)
  {
    var r := MergeAt(segs, i);
    if i + 1 < |segs| && segs[i + 1].free {
      forall s
        ensures s in Live(r) <==> s in Live(segs)
      {
        assert segs == segs[..i] + [segs[i], segs[i + 1]] + segs[i + 2..];
      }
    }
  }

  /** Taking bytes adds exactly one live block, at the segment's address, with at most 44 bytes to spare. */
  lemma CarveLive(segs: seq<Seg>, a: nat, b: nat, i: nat, n: nat)
    requires Good(segs, a, b) && i < |segs| && Fits(segs[i], n) && n >= MIN
    ensures var block := Carve(segs, i, n)[i];
            && block.addr == segs[i].addr && !block.free && n <= block.len <= n + 44
            && block !in Live(segs) && Live(Carve(segs, i, n)) == Live(segs) + {block}
  {
    var s1 := SplitAt(segs, i, n);
    var r := SetFree(s1, i, false);
    SplitKeepsLive(segs, i, n);
    SplitTiles(segs, a, b, i, n);
    TilesAscend(segs, a, b);
    forall s | s in r
      ensures s in s1 || s == r[i]
    {
      var k :| 0 <= k < |r| && r[k] == s;
    }
    forall s | s in s1 && !s.free
      ensures s in r
    {
      var k :| 0 <= k < |s1| && s1[k] == s;
      assert r[k] == s;
    }
    assert r[i] in r;
    forall k | 0 <= k < |segs| && !segs[k].free
      ensures segs[k] != r[i]
    {
      assert k < i ==> segs[k].addr < segs[i].addr;
      assert k > i ==> segs[i].addr < segs[k].addr;
    }
  }

  /** The block is the whole segment if what it leaves could not hold a header and 16 bytes, else exactly n bytes. */
  lemma CarveLength(segs: seq<Seg>, i: nat, n: nat)
    requires i < |segs| && n >= 16
    ensures Carve(segs, i, n)[i].len == if segs[i].len >= n + 45 then n else segs[i].len
  {
  }

  /** Freeing a block removes exactly that one from the live blocks. */
  lemma ReleaseLive(segs: seq<Seg>, a: nat, b: nat, i: nat)
    requires Good(segs, a, b) && i < |segs| && !segs[i].free
    ensures segs[i] in Live(segs) && Live(Release(segs, i)) == Live(segs) - {segs[i]}
  {
    var s1 := SetFree(segs, i, true);
    var s2 := MergeAt(s1, i);
    TilesAscend(segs, a, b);
    SetFreeLive(segs, i);
    MergeKeepsLive(s1, i);
    if i > 0 && s2[i - 1].free {
      MergeKeepsLive(s2, i - 1);
    }
  }

  lemma SetFreeLive(segs: seq<Seg>, i: nat)
    requires Ascending(segs) && i < |segs| && !segs[i].free
    ensures Live(SetFree(segs, i, true)) == Live(segs) - {segs[i]}
  {
    var r := SetFree(segs, i, true);
    forall s | s in Live(r)
      ensures s in Live(segs) && s != segs[i]
    {
      var k :| 0 <= k < |r| && r[k] == s;
      assert s == segs[k];
    }
    forall s | s in Live(segs) && s != segs[i]
      ensures s in Live(r)
    {
      var k :| 0 <= k < |segs| && segs[k] == s;
      assert r[k] == s;
    }
  }

  lemma ExtendKeepsLive(segs: seq<Seg>, end: nat, length: nat)
    requires |segs| > 0 && length >= HDR
    ensures Live(Extend(segs, end, length)) == Live(segs)
  {
    var s1 := segs + [Seg(end, length - HDR, true)];
    assert Live(s1) == Live(segs);
    if segs[|segs| - 1].free {
      MergeKeepsLive(s1, |segs| - 1);
    }
  }

  /** Two live blocks never overlap, headers included. */
  lemma LiveBlocksDisjoint(segs: seq<Seg>, a: nat, b: nat, s: Seg, t: Seg)
    requires Tiles(segs, a, b) && s in Live(segs) && t in Live(segs) && s != t
    ensures s.End() <= t.addr || t.End() <= s.addr
  {
    var i :| 0 <= i < |segs| && segs[i] == s;
    var j :| 0 <= j < |segs| && segs[j] == t;
    if i < j {
      SegmentsDisjoint(segs, a, b, i, j);
    } else {
      SegmentsDisjoint(segs, a, b, j, i);
    }
  }

  /** A good heap without live blocks is one free segment covering everything. */
  lemma NothingLive(segs: seq<Seg>, a: nat, b: nat)
    requires Good(segs, a, b) && Live(segs) == {}
    ensures b >= a + HDR && segs == [Seg(a, b - a - HDR, true)]
  {
    if |segs| > 1 {
      TwoHaveALive(segs);
    } else {
      assert segs[0] in segs && segs[0] !in Live(segs);
      assert segs == [segs[0]];
    }
  }

  lemma TwoHaveALive(segs: seq<Seg>)
    requires Coalesced(segs) && |segs| > 1
    ensures Live(segs) != {}
  {
    var i := if segs[0].free then 1 else 0;
    assert segs[i] in Live(segs);
  }

  /** The freed segment ends up inside one free segment of the new list. */
  lemma ReleaseCovers(segs: seq<Seg>, a: nat, b: nat, i: nat) returns (m: nat)
    requires Good(segs, a, b) && i < |segs|
    ensures m < |Release(segs, i)|
    ensures var r := Release(segs, i)[m]; r.free && r.addr <= segs[i].addr && segs[i].End() <= r.End()
  {
    var s1 := SetFree(segs, i, true);
    var s2 := MergeAt(s1, i);
    m := if i > 0 && s2[i - 1].free then i - 1 else i;
    if i > 0 {
      assert s2[i - 1] == segs[i - 1];
      assert segs[i - 1].End() == segs[i].addr;
    }
  }

  // ---------- accounting ----------

  /** Bytes in segments with the given flag, headers included. */
  function Total(segs: seq<Seg>, free: bool): nat {
    if segs == [] then 0
    else (if segs[0].free == free then segs[0].len + HDR else 0) + Total(segs[1..], free)
  }

  /** Used and free bytes always add up to the size of the heap. */
  lemma {:induction false} Conservation(segs: seq<Seg>, a: nat, b: nat)
    requires Tiles(segs, a, b)
    ensures Total(segs, false) + Total(segs, true) == b - a
    decreases |segs|
  {
    if |segs| > 1 {
      assert segs[0].End() == segs[1].addr;
      Conservation(segs[1..], segs[1].addr, b);
    }
  }

  lemma {:induction false} TotalConcat(x: seq<Seg>, y: seq<Seg>, free: bool)
    ensures Total(x + y, free) == Total(x, free) + Total(y, free)
  {
    if x == [] {
      assert x + y == y;
    } else {
      assert (x + y)[1..] == x[1..] + y;
      TotalConcat(x[1..], y, free);
    }
  }

  lemma UsedAt(segs: seq<Seg>, i: nat)
    requires i < |segs|
    ensures Total(segs, false)
            == Total(segs[..i], false) + (if segs[i].free then 0 else segs[i].len + 29) + Total(segs[i + 1..], false)
  {
    assert segs == segs[..i] + ([segs[i]] + segs[i + 1..]);
    TotalConcat(segs[..i], [segs[i]] + segs[i + 1..], false);
    TotalConcat([segs[i]], segs[i + 1..], false);
  }

  lemma SplitUsed(segs: seq<Seg>, i: nat, n: nat)
    requires i < |segs| && segs[i].free
    ensures Total(SplitAt(segs, i, n), false) == Total(segs, false)
  {
    hide Total;
    var r := SplitAt(segs, i, n);
    if CanSplit(segs[i], n) {
      UsedAt(segs, i);
      UsedAt(r, i);
      UsedAt(r[i + 1..], 0);
      assert r[..i] == segs[..i] && r[i + 1..][1..] == segs[i + 1..] && r[i + 1..][..0] == [];
      NoBytes();
    }
  }

  lemma MergeUsed(segs: seq<Seg>, i: nat)
    requires i < |segs| && segs[i].free
    ensures Total(MergeAt(segs, i), false) == Total(segs, false)
  {
    hide Total;
    var r := MergeAt(segs, i);
    if i + 1 < |segs| && segs[i + 1].free {
      UsedAt(r, i);
      UsedAt(segs, i);
      UsedAt(segs[i + 1..], 0);
      assert r[..i] == segs[..i] && segs[i + 1..][1..] == r[i + 1..] && segs[i + 1..][..0] == [];
      NoBytes();
    }
  }

  lemma NoBytes()
    ensures Total([], false) == 0
  {
  }

  lemma SetFreeUsed(segs: seq<Seg>, i: nat, free: bool)
    requires i < |segs| && segs[i].free != free
    ensures var own := segs[i].len + 29;
            Total(SetFree(segs, i, free), false) == if free then Total(segs, false) - own else Total(segs, false) + own
  {
    hide Total;
    var r := SetFree(segs, i, free);
    UsedAt(segs, i);
    UsedAt(r, i);
    assert r[..i] == segs[..i] && r[i + 1..] == segs[i + 1..];
  }

  /** Taking bytes adds the block and its header to the used bytes. */
  lemma CarveUsed(segs: seq<Seg>, i: nat, n: nat)
    requires i < |segs| && segs[i].free
    ensures Total(Carve(segs, i, n), false) == Total(segs, false) + Carve(segs, i, n)[i].len + 29
  {
    hide Total;
    SplitUsed(segs, i, n);
    SetFreeUsed(SplitAt(segs, i, n), i, false);
  }

  /** Freeing a block takes it and its header off the used bytes. */
  lemma ReleaseUsed(segs: seq<Seg>, i: nat)
    requires i < |segs| && !segs[i].free
    ensures Total(Release(segs, i), false) == Total(segs, false) - segs[i].len - 29
  {
    hide Total;
    var s1 := SetFree(segs, i, true);
    SetFreeUsed(segs, i, true);
    MergeUsed(s1, i);
    var s2 := MergeAt(s1, i);
    if i > 0 && s2[i - 1].free {
      MergeUsed(s2, i - 1);
    }
  }

  /** Growing the heap adds no used byte. */
  lemma ExtendUsed(segs: seq<Seg>, end: nat, length: nat)
    requires |segs| > 0 && length >= HDR
    ensures Total(Extend(segs, end, length), false) == Total(segs, false)
  {
    var added := [Seg(end, length - HDR, true)];
    TotalConcat(segs, added, false);
    assert Total(added, false) == 0;
    hide Total;
    if segs[|segs| - 1].free {
      MergeUsed(segs + added, |segs| - 1);
    }
  }

  // ---------- the live blocks determine the heap ----------

  lemma FirstAt(segs: seq<Seg>, a: nat, b: nat, s: Seg)
    requires Tiles(segs, a, b) && s in segs && s.addr == a
    ensures segs[0] == s
  {
    TilesAscend(segs, a, b);
  }

  lemma LiveTail(segs: seq<Seg>, a: nat, b: nat)
    requires Good(segs, a, b) && |segs| > 1
    ensures Good(segs[1..], segs[0].End(), b) && Live(segs[1..]) == Live(segs) - {segs[0]}
  {
    TilesAscend(segs, a, b);
    assert segs == [segs[0]] + segs[1..];
    assert segs[0] !in segs[1..];
  }

  /** Behind a free first segment comes the lowest live block. */
  lemma SecondIsLowest(segs: seq<Seg>, a: nat, b: nat, s: Seg)
    requires Good(segs, a, b) && segs[0].free && s in Live(segs)
    ensures |segs| > 1 && segs[1] in Live(segs) && segs[0].End() == segs[1].addr <= s.addr
  {
    var k :| 0 <= k < |segs| && segs[k] == s;
    TilesAscend(segs, a, b);
  }

  lemma SameFirst(x: seq<Seg>, y: seq<Seg>, a: nat, b: nat)
    requires Good(x, a, b) && Good(y, a, b) && Live(x) == Live(y)
    ensures x[0] == y[0]
  {
    if !x[0].free {
      assert x[0] in Live(x);
      FirstAt(y, a, b, x[0]);
    } else if !y[0].free {
      assert y[0] in Live(y);
      FirstAt(x, a, b, y[0]);
    } else if s :| s in Live(x) {
      SecondIsLowest(x, a, b, s);
      SecondIsLowest(y, a, b, s);
      SecondIsLowest(x, a, b, y[1]);
      SecondIsLowest(y, a, b, x[1]);
    } else {
      NothingLive(x, a, b);
      NothingLive(y, a, b);
    }
  }

  /**
   The whole segment list is a function of the live blocks and the bounds: two good heaps over the
   same range with the same live blocks are the same, whatever calls led to them.
   */
  lemma {:induction false} LiveDeterminesHeap(x: seq<Seg>, y: seq<Seg>, a: nat, b: nat)
    requires Good(x, a, b) && Good(y, a, b) && Live(x) == Live(y)
    ensures x == y
    decreases |x|
  {
    hide Live;
    SameFirst(x, y, a, b);
    OneSegment(x, a, b);
    OneSegment(y, a, b);
    if |x| > 1 && |y| > 1 {
      LiveTail(x, a, b);
      LiveTail(y, a, b);
      LiveDeterminesHeap(x[1..], y[1..], x[0].End(), b);
      assert x == [x[0]] + x[1..] && y == [y[0]] + y[1..];
    }
  }

  lemma OneSegment(segs: seq<Seg>, a: nat, b: nat)
    requires Tiles(segs, a, b)
    ensures |segs| == 1 <==> segs[0].End() == b
  {
    if |segs| > 1 {
      SegmentsDisjoint(segs, a, b, 0, |segs| - 1);
    }
  }

  // ---------- the round trip ----------

  lemma MergeUndoesSplit(segs: seq<Seg>, i: nat, n: nat)
    requires i < |segs| && segs[i].free && (i + 1 < |segs| ==> !segs[i + 1].free)
    ensures i < |SplitAt(segs, i, n)| && MergeAt(SplitAt(segs, i, n), i) == segs
  {
    var s, r := segs[i], SplitAt(segs, i, n);
    if CanSplit(s, n) {
      assert r[..i] == segs[..i] && r[i + 2..] == segs[i + 1..];
      assert r[i].(len := r[i].len + r[i + 1].len + HDR) == s;
      assert MergeAt(r, i) == r[..i] + [s] + r[i + 2..];
      assert segs == segs[..i] + [s] + segs[i + 1..];
    } else {
      assert r == segs;
    }
  }

  /** Freeing what was just taken restores the exact list of segments. */
  lemma CarveThenRelease(segs: seq<Seg>, a: nat, b: nat, i: nat, n: nat)
    requires Good(segs, a, b) && i < |segs| && Fits(segs[i], n)
    ensures Release(Carve(segs, i, n), i) == segs
  {
    assert i > 0 ==> !segs[i - 1].free;
    MergeUndoesSplit(segs, i, n);
    assert SetFree(Carve(segs, i, n), i, true) == SplitAt(segs, i, n);
  }

  // ---------- growing until a request fits ----------

  /** How many expansions a request of n bytes (a multiple of 16) needs. */
  function Expansions(segs: seq<Seg>, n: nat): nat
    requires |segs| > 0
  {
    if FirstFit(segs, n, 0) < |segs| then 0
    else if segs[|segs| - 1].free || n % PAGE !in {0, 4080} then 1
    else 2
  }

  lemma NoFit(segs: seq<Seg>, n: nat)
    requires FirstFit(segs, n, 0) == |segs|
    ensures forall j :: 0 <= j < |segs| ==> !Fits(segs[j], n)
  {
  }

  lemma SomeFit(segs: seq<Seg>, n: nat, j: nat)
    requires j < |segs| && Fits(segs[j], n)
    ensures FirstFit(segs, n, 0) < |segs|
  {
    if FirstFit(segs, n, 0) == |segs| {
      NoFit(segs, n);
    }
  }

  /**
   Each expansion by the page-rounded size brings the count down by one: the first is enough unless
   the tail is in use and the new segment is short by its header, and the second always is.
   */
  lemma ExtendBringsCloser(segs: seq<Seg>, a: nat, b: nat, n: nat)
    requires Good(segs, a, b) && n > 0 && n % 16 == 0 && Expansions(segs, n) > 0
    ensures Expansions(Extend(segs, b, RoundPage(n)), n) == Expansions(segs, n) - 1
  {
    var length := RoundPage(n);
    var r := Extend(segs, b, length);
    var tail := segs[|segs| - 1];
    NoFit(segs, n);
    if tail.free {
      assert r[|r| - 1].free && r[|r| - 1].len == tail.len + length;
      SomeFit(r, n, |r| - 1);
    } else {
      assert r == segs + [Seg(b, length - HDR, true)];
      PageRemainder(n);
      if n % PAGE !in {0, 4080} {
        SomeFit(r, n, |r| - 1);
      } else {
        assert forall j :: 0 <= j < |r| ==> !Fits(r[j], n);
      }
    }
  }

  lemma PageRemainder(n: nat)
    requires n > 0 && n % 16 == 0
    ensures RoundPage(n) - HDR >= n <==> n % PAGE !in {0, 4080}
  {
    var q, m := n / PAGE, n % PAGE;
    assert n == q * PAGE + m && m % 16 == 0;
  }
}
