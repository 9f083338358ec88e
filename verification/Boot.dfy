/**
 The memory part of the boot sequence in kernel/kernel.cpp: the page frame allocator is initialised
 from the memory map, the address space is built, the heap is set up on top.
 */
module BootSequence {
  import opened Outcomes
  import opened FrameSpec
  import opened MemoryMap
  import opened FrameAllocator
  import opened Paging
  import opened KernelHeap
  import opened PageTree
  import opened BootMaps
  import HeapSpec

  /** Outside n pages from pos on, the translation is what the requests ask for. */
  ghost predicate RealizesOutside(st: PageState, requests: seq<Paging.Request>, pos: nat, n: nat) {
    forall t :: IsLeaf(t) && Elsewhere(t, pos, n) ==> Walk(st.mem, st.root, t) == LastMap(requests, t)
  }

  lemma ExceptTheHeap(s0: PageState, s1: PageState, requests: seq<Paging.Request>, pos: nat, n: nat)
    requires Realizes(s0, requests) && OnlyPages(s0, s1, pos, n)
    ensures RealizesOutside(s1, requests, pos, n)
  {
  }

  /** Outside n pages from pos on, a page has a frame exactly when the memory map or the low 16 MB give it that one. */
  ghost predicate LaidOut(st: PageState, es: seq<Entry>, hhdm: nat, kernelBase: nat, pos: nat, n: nat) {
    forall t: Path, g: nat :: IsLeaf(t) && Elsewhere(t, pos, n) ==>
      (Walk(st.mem, st.root, t) == Some(g) <==> Expected(es, hhdm, kernelBase, t, g))
  }

  /** There, every page of an entry other than the kernel's is found at the higher-half offset. */
  ghost predicate HigherHalf(st: PageState, es: seq<Entry>, hhdm: nat, pos: nat, n: nat) {
    forall k: nat, i: nat ::
      && k < |es| && es[k].kind != 6 && HasPage(es[k], i)
      && Elsewhere(PathOf(hhdm + es[k].base + 4096 * i), pos, n)
      ==> Walk(st.mem, st.root, PathOf(hhdm + es[k].base + 4096 * i)) == Some((es[k].base + 4096 * i) / 4096)
  }

  /** And every page of the kernel, as of the last entry that has it, at the link address. */
  ghost predicate KernelInPlace(st: PageState, es: seq<Entry>, kernelBase: nat, pos: nat, n: nat) {
    forall k: nat, i: nat :: LastKernel(es, k, i) && Elsewhere(PathOf(kernelBase + 4096 * i), pos, n) ==>
      Walk(st.mem, st.root, PathOf(kernelBase + 4096 * i)) == Some((es[k].base + 4096 * i) / 4096)
  }

  lemma RequestsLayOut(st: PageState, es: seq<Entry>, hhdm: nat, kernelBase: nat, pos: nat, n: nat)
    requires Bootable(es) && RealizesOutside(st, BootRequests(es, hhdm, kernelBase), pos, n)
    ensures LaidOut(st, es, hhdm, kernelBase, pos, n)
  {
    hide Bootable, BootRequests, Elsewhere, Walk, LastMap, Expected;
    forall t: Path, g: nat | IsLeaf(t) && Elsewhere(t, pos, n)
      ensures Walk(st.mem, st.root, t) == Some(g) <==> Expected(es, hhdm, kernelBase, t, g)
    {
      BootServes(es, hhdm, kernelBase, t, g);
    }
  }

  lemma RequestsSplit(st: PageState, es: seq<Entry>, hhdm: nat, kernelBase: nat, pos: nat, n: nat)
    requires Bootable(es) && Layout(es, hhdm, kernelBase)
    requires RealizesOutside(st, BootRequests(es, hhdm, kernelBase), pos, n)
    ensures HigherHalf(st, es, hhdm, pos, n) && KernelInPlace(st, es, kernelBase, pos, n)
  {
    hide Bootable, Layout, BootRequests, Elsewhere, Walk, LastMap, PathOf;
    forall k: nat, i: nat |
      && k < |es| && es[k].kind != 6 && HasPage(es[k], i)
      && Elsewhere(PathOf(hhdm + es[k].base + 4096 * i), pos, n)
      ensures Walk(st.mem, st.root, PathOf(hhdm + es[k].base + 4096 * i)) == Some((es[k].base + 4096 * i) / 4096)
    {
      HigherHalfMapped(es, hhdm, kernelBase, k, i);
    }
    forall k: nat, i: nat | LastKernel(es, k, i) && Elsewhere(PathOf(kernelBase + 4096 * i), pos, n)
      ensures Walk(st.mem, st.root, PathOf(kernelBase + 4096 * i)) == Some((es[k].base + 4096 * i) / 4096)
    {
      KernelMapped(es, hhdm, kernelBase, k, i);
    }
  }

  /**
   If nothing panics, all three layers stand: the allocator reflects the memory map, every page outside
   the heap translates as the memory map says, through writable entries, and the heap is one free
   segment over pages of its own.
   */
  method Boot(memmap: seq<Entry>, hhdm: nat, kernelBase: nat, heapAddress: nat, pageCount: nat)
      returns (r: Outcome<Heap>)
    requires Bootable(memmap)
    requires heapAddress % 4096 == 0 && 0 < heapAddress <= MAX_START && pageCount > 0
    ensures r.Returned? ==> fresh(r.value) && r.value.Valid()
    ensures r.Returned? ==> r.value.mmu.pfa.boot == BootOf(memmap)
    ensures r.Returned? ==>
              r.value.segs == [HeapSpec.Seg(heapAddress, 4096 * pageCount - HeapSpec.HDR, true)]
    ensures r.Returned? ==>
              RealizesOutside(r.value.mmu.st, BootRequests(memmap, hhdm, kernelBase), heapAddress, pageCount)
    ensures r.Returned? ==> LaidOut(r.value.mmu.st, memmap, hhdm, kernelBase, heapAddress, pageCount)
    ensures r.Returned? && Layout(memmap, hhdm, kernelBase) ==>
              && HigherHalf(r.value.mmu.st, memmap, hhdm, heapAddress, pageCount)
              && KernelInPlace(r.value.mmu.st, memmap, kernelBase, heapAddress, pageCount)
    ensures r.Returned? ==> AllWritable(r.value.mmu.mem, r.value.mmu.st)
  {
    hide *;
    BootRequestsInWord(memmap, hhdm, kernelBase);
    var pfa := new PageFrameAllocator();
    var ready := pfa.Init(memmap);
    if ready.Panicked? {
      return Panicked;
    }
    var mmu := new PageMapper(pfa);
    var mapped := mmu.BuildAddressSpace(BootRequests(memmap, hhdm, kernelBase));
    if mapped.Panicked? {
      return Panicked;
    }
    ghost var s1 := mmu.st;
    var heap := new Heap(mmu);
    var done := heap.InitHeap(heapAddress, pageCount);
    if done.Panicked? {
      return Panicked;
    }
    ExceptTheHeap(s1, mmu.st, BootRequests(memmap, hhdm, kernelBase), heapAddress, pageCount);
    RequestsLayOut(mmu.st, memmap, hhdm, kernelBase, heapAddress, pageCount);
    if Layout(memmap, hhdm, kernelBase) {
      RequestsSplit(mmu.st, memmap, hhdm, kernelBase, heapAddress, pageCount);
    }
    heap.ValidParts();
    mmu.TranslatedPagesWritable();
    return Returned(heap);
  }
}
