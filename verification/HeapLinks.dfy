/**
 The heap in memory: packed headers at their addresses, doubly linked.  `Linked` says that memory
 spells out a list of segments; the lemmas say that the pointer updates of kernel/mem/heap.cpp
 turn it into memory that spells out the changed list.  Headers that were absorbed stay in memory
 and are never read again.
 */
module HeapLinks {
  import opened HeapSpec

  const NULL: nat := 0

  datatype Hdr = Hdr(length: nat, next: nat, last: nat, free: bool)

  type Memory = map<nat, Hdr>

  /** The header that segment i of the list must have. */
  function HdrAt(segs: seq<Seg>, i: nat): Hdr
    requires i < |segs|
  {
    Hdr(segs[i].len,
        if i + 1 < |segs| then segs[i + 1].addr else NULL,
        if i > 0 then segs[i - 1].addr else NULL,
        segs[i].free)
  }

  ghost predicate Linked(mem: Memory, segs: seq<Seg>) {
    forall i {:trigger HdrAt(segs, i)} ::
      0 <= i < |segs| ==> segs[i].addr in mem && mem[segs[i].addr] == HdrAt(segs, i)
  }

  lemma LinkedAt(mem: Memory, segs: seq<Seg>, i: nat)
    requires Linked(mem, segs) && i < |segs|
    ensures segs[i].addr in mem && mem[segs[i].addr] == HdrAt(segs, i)
  {
  }

  /** `next` and `last` are inverse to each other along the list, and NULL only at its ends. */
  lemma LinksAreInverse(mem: Memory, segs: seq<Seg>, a: nat, b: nat, i: nat)
    requires Linked(mem, segs) && Tiles(segs, a, b) && a > 0 && i < |segs|
    ensures segs[i].addr in mem && mem[segs[i].addr] == HdrAt(segs, i)
    ensures var h := mem[segs[i].addr];
            && (h.next == NULL <==> i == |segs| - 1)
            && (h.last == NULL <==> i == 0)
            && (h.next != NULL ==> h.next in mem && mem[h.next].last == segs[i].addr
                                   && h.next == segs[i].addr + HDR + h.length)
            && (h.last != NULL ==> h.last in mem && mem[h.last].next == segs[i].addr)
  {
    LinkedAt(mem, segs, i);
    TilesAscend(segs, a, b);
    if i + 1 < |segs| {
      assert segs[i].End() == segs[i + 1].addr;
      LinkedAt(mem, segs, i + 1);
    }
    if i > 0 {
      LinkedAt(mem, segs, i - 1);
      assert segs[0].addr <= segs[i - 1].addr;
    }
  }

  lemma SetFreeLinked(mem: Memory, segs: seq<Seg>, i: nat, free: bool)
    requires Linked(mem, segs) && Ascending(segs) && i < |segs|
    ensures segs[i].addr in mem
    ensures Linked(mem[segs[i].addr := mem[segs[i].addr].(free := free)], SetFree(segs, i, free))
  {
    LinkedAt(mem, segs, i);
    var mem', r := mem[segs[i].addr := mem[segs[i].addr].(free := free)], SetFree(segs, i, free);
    forall k | 0 <= k < |r|
      ensures r[k].addr in mem' && mem'[r[k].addr] == HdrAt(r, k)
    {
      LinkedAt(mem, segs, k);
    }
  }

  /** The stores of `split`; the one through `next` is made only where there is a next segment. */
  function Spliced(mem: Memory, cur: nat, added: nat, rest: nat, n: nat): Memory
    requires cur in mem && (mem[cur].next != NULL ==> mem[cur].next in mem)
  {
    var h := mem[cur];
    var m1 := if h.next != NULL then mem[h.next := mem[h.next].(last := added)] else mem;
    m1[added := Hdr(rest, h.next, cur, h.free)][cur := h.(next := added, length := n)]
  }

  lemma SplitLinked(mem: Memory, segs: seq<Seg>, a: nat, b: nat, i: nat, n: nat)
    requires Linked(mem, segs) && Tiles(segs, a, b) && LongEnough(segs) && a > 0
    requires i < |segs| && CanSplit(segs[i], n)
    ensures var s := segs[i];
            && s.addr in mem && (mem[s.addr].next != NULL ==> mem[s.addr].next in mem)
            && Linked(Spliced(mem, s.addr, s.addr + HDR + n, s.len - n - HDR, n), SplitAt(segs, i, n))
  {
    hide SplitAt, Tiles, LongEnough, Ascending, Spliced, HdrAt;
    var s, r := segs[i], SplitAt(segs, i, n);
    LinksAreInverse(mem, segs, a, b, i);
    SplitTiles(segs, a, b, i, n);
    TilesAscend(r, a, b);
    var mem' := Spliced(mem, s.addr, s.addr + HDR + n, s.len - n - HDR, n);
    forall k | 0 <= k < |r|
      ensures r[k].addr in mem' && mem'[r[k].addr] == HdrAt(r, k)
    {
      SplitHdr(mem, segs, r, mem', i, n, k);
    }
  }

  /**
   The source stores `next->last` without looking whether there is a next segment: a split that goes
   through makes that store at address NULL exactly when the segment is the last of the heap.
   */
  lemma UnguardedStore(mem: Memory, segs: seq<Seg>, a: nat, b: nat, i: nat)
    requires Linked(mem, segs) && Tiles(segs, a, b) && a > 0 && i < |segs|
    ensures segs[i].addr in mem
    ensures mem[segs[i].addr].next == NULL <==> segs[i].End() == b
  {
    LinksAreInverse(mem, segs, a, b, i);
    if i < |segs| - 1 {
      SegmentsDisjoint(segs, a, b, i, |segs| - 1);
    }
  }

  lemma NothingToMerge(segs: seq<Seg>, i: nat)
    requires i < |segs| && (i + 1 < |segs| ==> !segs[i + 1].free)
    ensures MergeAt(segs, i) == segs
  {
  }

  lemma NothingToSplit(segs: seq<Seg>, i: nat, n: nat)
    requires i < |segs| && !CanSplit(segs[i], n)
    ensures SplitAt(segs, i, n) == segs
  {
  }

  lemma SplitElements(segs: seq<Seg>, i: nat, n: nat)
    requires i < |segs| && CanSplit(segs[i], n)
    ensures var r, s := SplitAt(segs, i, n), segs[i];
            && |r| == |segs| + 1
            && (forall k :: 0 <= k < i ==> r[k] == segs[k])
            && r[i] == Seg(s.addr, n, s.free) && r[i + 1] == Seg(s.addr + HDR + n, s.len - n - HDR, s.free)
            && (forall k :: i + 2 <= k < |r| ==> r[k] == segs[k - 1])
  {
  }

  lemma SplitHdr(mem: Memory, segs: seq<Seg>, r: seq<Seg>, mem': Memory, i: nat, n: nat, k: nat)
    requires Linked(mem, segs) && i < |segs| && CanSplit(segs[i], n) && r == SplitAt(segs, i, n) && Ascending(r)
    requires segs[i].addr in mem && (mem[segs[i].addr].next == NULL <==> i + 1 == |segs|)
    requires mem[segs[i].addr].next != NULL ==> mem[segs[i].addr].next in mem
    requires mem' == Spliced(mem, segs[i].addr, segs[i].addr + HDR + n, segs[i].len - n - HDR, n)
    requires k < |r|
    ensures r[k].addr in mem' && mem'[r[k].addr] == HdrAt(r, k)
  {
    hide SplitAt;
    SplitElements(segs, i, n);
    LinkedAt(mem, segs, i);
    if k < i {
      assert r[k] == segs[k] && r[k].addr < r[i].addr < r[i + 1].addr;
      assert i + 2 < |r| ==> r[k].addr < r[i + 2].addr;
      LinkedAt(mem, segs, k);
    } else if k > i + 2 {
      assert r[k] == segs[k - 1] && r[i].addr < r[i + 1].addr < r[i + 2].addr < r[k].addr;
      LinkedAt(mem, segs, k - 1);
      assert r[k - 1] == segs[k - 2];
    } else if k == i + 2 {
      assert r[k] == segs[i + 1] && r[i].addr < r[i + 1].addr < r[k].addr;
      LinkedAt(mem, segs, i + 1);
    } else {
      assert r[i].addr < r[i + 1].addr;
      assert i + 2 < |r| ==> r[i + 2] == segs[i + 1] && r[i + 1].addr < r[i + 2].addr;
    }
  }

  /** The stores of `combineForward` on a segment with a free successor. */
  function Absorbed(mem: Memory, cur: nat): Memory
    requires cur in mem && mem[cur].next in mem
    requires mem[mem[cur].next].next != NULL ==> mem[mem[cur].next].next in mem
  {
    var h := mem[cur];
    var nx := mem[h.next];
    var m1 := if nx.next != NULL then mem[nx.next := mem[nx.next].(last := cur)] else mem;
    m1[cur := h.(length := h.length + nx.length + HDR, next := nx.next)]
  }

  lemma MergeLinked(mem: Memory, segs: seq<Seg>, a: nat, b: nat, i: nat)
    requires Linked(mem, segs) && Tiles(segs, a, b) && LongEnough(segs) && a > 0
    requires i + 1 < |segs| && segs[i + 1].free
    ensures var c := segs[i].addr;
            && c in mem && mem[c].next in mem
            && (mem[mem[c].next].next != NULL ==> mem[mem[c].next].next in mem)
            && Linked(Absorbed(mem, c), MergeAt(segs, i))
  {
    hide MergeAt, Tiles, LongEnough, Ascending, Absorbed;
    LinksAreInverse(mem, segs, a, b, i);
    LinksAreInverse(mem, segs, a, b, i + 1);
    LinkedAt(mem, segs, i);
    TilesAscend(segs, a, b);
    var mem', r := Absorbed(mem, segs[i].addr), MergeAt(segs, i);
    forall k | 0 <= k < |r|
      ensures r[k].addr in mem' && mem'[r[k].addr] == HdrAt(r, k)
    {
      MergeHdr(mem, segs, r, mem', i, k);
    }
  }

  lemma MergeElements(segs: seq<Seg>, i: nat)
    requires i + 1 < |segs| && segs[i + 1].free
    ensures var r := MergeAt(segs, i);
            && |r| == |segs| - 1
            && (forall k :: 0 <= k < i ==> r[k] == segs[k])
            && r[i] == Seg(segs[i].addr, segs[i].len + segs[i + 1].len + HDR, segs[i].free)
            && (forall k :: i < k < |r| ==> r[k] == segs[k + 1])
  {
  }

  lemma MergeHdr(mem: Memory, segs: seq<Seg>, r: seq<Seg>, mem': Memory, i: nat, k: nat)
    requires Linked(mem, segs) && Ascending(segs) && i + 1 < |segs| && segs[i + 1].free && r == MergeAt(segs, i)
    requires segs[i].addr in mem && mem[segs[i].addr].next in mem
    requires var nx := mem[mem[segs[i].addr].next].next; (nx == NULL <==> i + 2 == |segs|) && (nx != NULL ==> nx in mem)
    requires mem' == Absorbed(mem, segs[i].addr) && k < |r|
    ensures r[k].addr in mem' && mem'[r[k].addr] == HdrAt(r, k)
  {
    hide MergeAt;
    MergeElements(segs, i);
    LinkedAt(mem, segs, i);
    LinkedAt(mem, segs, i + 1);
    if k < i {
      assert r[k] == segs[k] && segs[k].addr < segs[i].addr;
      assert i + 2 < |segs| ==> segs[k].addr < segs[i + 2].addr;
      LinkedAt(mem, segs, k);
    } else if k > i + 1 {
      assert r[k] == segs[k + 1] && segs[i].addr < segs[i + 2].addr < segs[k + 1].addr;
      assert r[k - 1] == segs[k];
      LinkedAt(mem, segs, k + 1);
    } else if k == i + 1 {
      assert r[k] == segs[i + 2] && segs[i].addr < segs[i + 2].addr;
      LinkedAt(mem, segs, i + 2);
    } else {
      assert i + 2 < |segs| ==> segs[i].addr < segs[i + 2].addr && r[i + 1] == segs[i + 2];
      assert i > 0 ==> r[i - 1] == segs[i - 1];
    }
  }

  /** The stores of `expandHeap` that append a free segment at the end. */
  function Appended(mem: Memory, tail: nat, added: nat, length: nat): Memory
    requires tail in mem
  {
    mem[added := Hdr(length, NULL, tail, true)][tail := mem[tail].(next := added)]
  }

  lemma AppendLinked(mem: Memory, segs: seq<Seg>, a: nat, b: nat, length: nat)
    requires Linked(mem, segs) && Tiles(segs, a, b)
    ensures var tail := segs[|segs| - 1].addr;
            tail in mem && Linked(Appended(mem, tail, b, length), segs + [Seg(b, length, true)])
  {
    TilesAscend(segs, a, b);
    var n := |segs|;
    var tail, r := segs[n - 1].addr, segs + [Seg(b, length, true)];
    LinkedAt(mem, segs, n - 1);
    forall k | 0 <= k < n
      ensures segs[k].addr < b
    {
      assert segs[k].addr <= tail;
    }
    var mem' := Appended(mem, tail, b, length);
    forall k | 0 <= k < |r|
      ensures r[k].addr in mem' && mem'[r[k].addr] == HdrAt(r, k)
    {
      if k < n {
        LinkedAt(mem, segs, k);
      }
    }
  }
}
