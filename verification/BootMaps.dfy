/**
 What the boot code of kernel/kernel.cpp maps: every page of every memory-map entry at the higher-half
 offset or at the kernel's link address, and then the first 16 MB to themselves.  The lemmas say, for
 every page, which frame the last map call for it asks for.
 */
module BootMaps {
  import opened Outcomes
  import opened Words
  import opened FrameSpec
  import opened MemoryMap
  import opened Paging
  import opened PageTree

  const KERNEL_AND_MODULES: nat := 6
  const IDENTITY_PAGES: nat := 4096            // the first 16 MB

  // ---------- what the boot code maps ----------

  function PagesIn(e: Entry): nat {
    e.length / 4096 + if e.length % 4096 != 0 then 1 else 0
  }

  /** The pages of an entry: at the higher-half offset, or at the kernel's link address for the kernel itself. */
  function EntryRequests(e: Entry, hhdm: nat, kernelBase: nat): seq<Paging.Request> {
    seq(PagesIn(e), i requires 0 <= i < PagesIn(e) =>
      var phys := e.base + 4096 * i;
      Paging.Request(if e.kind == KERNEL_AND_MODULES then Add64(kernelBase, 4096 * i) else Add64(phys, hhdm), phys))
  }

  function MapRequests(es: seq<Entry>, hhdm: nat, kernelBase: nat): seq<Paging.Request> {
    if es == [] then []
    else MapRequests(es[..|es| - 1], hhdm, kernelBase) + EntryRequests(es[|es| - 1], hhdm, kernelBase)
  }

  function IdentityRequests(n: nat): seq<Paging.Request> {
    seq(n, i requires 0 <= i < n => Paging.Request(4096 * i, 4096 * i))
  }

  /** All map calls of the boot code, in order. */
  function BootRequests(es: seq<Entry>, hhdm: nat, kernelBase: nat): seq<Paging.Request> {
    MapRequests(es, hhdm, kernelBase) + IdentityRequests(IDENTITY_PAGES)
  }

  /** Later requests override earlier ones. */
  lemma {:induction false} LastMapConcat(x: seq<Paging.Request>, y: seq<Paging.Request>, t: Path)
    ensures LastMap(x + y, t) == if LastMap(y, t).Some? then LastMap(y, t) else LastMap(x, t)
    decreases |y|
  {
    hide PathOf;
    if y == [] {
      assert x + y == x;
    } else {
      var z := x + y;
      assert z[|z| - 1] == y[|y| - 1] && z[..|z| - 1] == x + y[..|y| - 1];
      LastMapConcat(x, y[..|y| - 1], t);
    }
  }

  lemma {:induction false} IdentityMaps(n: nat, a: nat)
    requires n <= IDENTITY_PAGES && a / 4096 < n
    ensures LastMap(IdentityRequests(n), PathOf(a)) == Some(a / 4096)
  {
    hide PathOf;
    var all := IdentityRequests(n);
    assert all[n - 1] == Paging.Request(4096 * (n - 1), 4096 * (n - 1));
    assert all[..n - 1] == IdentityRequests(n - 1);
    SamePath(4096 * (n - 1), a);
    if a / 4096 < n - 1 {
      IdentityMaps(n - 1, a);
    }
  }

  /** Whatever the memory map says, the boot code leaves every address below 16 MB mapped to itself. */
  lemma LowMemoryIsIdentity(es: seq<Entry>, hhdm: nat, kernelBase: nat, a: nat)
    requires a < 0x100_0000
    ensures LastMap(BootRequests(es, hhdm, kernelBase), PathOf(a)) == Some(a / 4096)
  {
    hide PathOf, LastMap, MapRequests, IdentityRequests;
    LastMapConcat(MapRequests(es, hhdm, kernelBase), IdentityRequests(IDENTITY_PAGES), PathOf(a));
    IdentityMaps(IDENTITY_PAGES, a);
  }

  lemma {:induction false} RequestsInWord(es: seq<Entry>, hhdm: nat, kernelBase: nat, limit: nat)
    requires limit < U64 && forall k :: 0 <= k < |es| ==> es[k].base + es[k].length <= limit
    ensures InWord(MapRequests(es, hhdm, kernelBase))
  {
    if es != [] {
      var init, e := es[..|es| - 1], es[|es| - 1];
      RequestsInWord(init, hhdm, kernelBase, limit);
      forall i | 0 <= i < PagesIn(e)
        ensures EntryRequests(e, hhdm, kernelBase)[i].phys < U64
      {
      }
    }
  }

  lemma BootRequestsInWord(es: seq<Entry>, hhdm: nat, kernelBase: nat)
    requires Bootable(es)
    ensures InWord(BootRequests(es, hhdm, kernelBase))
  {
    ArealSizeIsMax(es);
    RequestsInWord(es, hhdm, kernelBase, ArealSize(es));
  }

  // ---------- requests and the pages they are for ----------

  /** The last request for a page, by its position. */
  lemma {:induction false} LastMapAt(rs: seq<Paging.Request>, t: Path, k: nat)
    requires k < |rs| && PathOf(rs[k].virt) == t
    requires forall j :: k < j < |rs| ==> PathOf(rs[j].virt) != t
    ensures LastMap(rs, t) == Some(KeptBits(rs[k].phys / 4096))
    decreases |rs|
  {
    hide PathOf, KeptBits;
    if k < |rs| - 1 {
      LastMapAt(rs[..|rs| - 1], t, k);
    }
  }

  /** A page with a frame was requested. */
  lemma {:induction false} LastMapFrom(rs: seq<Paging.Request>, t: Path) returns (k: nat)
    requires LastMap(rs, t).Some?
    ensures k < |rs| && PathOf(rs[k].virt) == t && LastMap(rs, t) == Some(KeptBits(rs[k].phys / 4096))
    decreases |rs|
  {
    hide PathOf, KeptBits;
    if PathOf(rs[|rs| - 1].virt) == t {
      k := |rs| - 1;
    } else {
      k := LastMapFrom(rs[..|rs| - 1], t);
    }
  }

  // ---------- where a page of the memory map goes ----------

  /** The address that the first page of an entry is mapped at, before the wrap-around at 2^64. */
  function Home(e: Entry, hhdm: nat, kernelBase: nat): nat {
    if e.kind == 6 then kernelBase else hhdm + e.base
  }

  /** The entry reaches into its i-th page, the last one possibly in part only. */
  predicate HasPage(e: Entry, i: nat) {
    4096 * i < e.length
  }

  /** The boot code maps page i of the entry at path t. */
  ghost predicate Asks(e: Entry, hhdm: nat, kernelBase: nat, i: nat, t: Path) {
    HasPage(e, i) && t == PathOf(Home(e, hhdm, kernelBase) + 4096 * i)
  }

  /** Of all pages of all entries, page i of entry k is the last to be mapped at path t. */
  ghost predicate LastToAsk(es: seq<Entry>, hhdm: nat, kernelBase: nat, t: Path, k: nat, i: nat) {
    && k < |es| && Asks(es[k], hhdm, kernelBase, i, t)
    && forall j: nat, m: nat :: k < j < |es| ==> !Asks(es[j], hhdm, kernelBase, m, t)
  }

  /** The memory map sends path t to frame g. */
  ghost predicate Assigned(es: seq<Entry>, hhdm: nat, kernelBase: nat, t: Path, g: nat) {
    exists k: nat, i: nat :: LastToAsk(es, hhdm, kernelBase, t, k, i) && g == (es[k].base + 4096 * i) / 4096
  }

  /** The page lies below 16 MB. */
  ghost predicate Low(t: Path) {
    exists a :: 0 <= a < 0x100_0000 && t == PathOf(a)
  }

  /** What the boot code is to achieve: low pages map to themselves, others as the memory map says. */
  ghost predicate Expected(es: seq<Entry>, hhdm: nat, kernelBase: nat, t: Path, g: nat) {
    if Low(t) then g < 4096 && t == PathOf(4096 * g) else Assigned(es, hhdm, kernelBase, t, g)
  }

  const END: nat := 0x1_0000_0000        // a bound on physical addresses, well above 2^31

  lemma PageOfWrapped(z: nat)
    ensures PageOf(z % U64) == PageOf(z)
  {
    var q, r := z / U64, z % U64;
    assert z == U64 * q + r;
    assert z / 0x1000 == 0x10_0000_0000_0000 * q + r / 0x1000;
    PageModulo(r / 0x1000, q);
  }

  lemma PageModulo(x: nat, q: nat)
    ensures (0x10_0000_0000_0000 * q + x) % 0x10_0000_0000 == x % 0x10_0000_0000
  {
    assert 0x10_0000_0000_0000 * q == 0x10_0000_0000 * (0x1_0000 * q);
  }

  /** The wrap-around at 2^64 does not show in bits 47..12. */
  lemma PathOfSum(x: nat, y: nat)
    ensures PathOf(Add64(x, y)) == PathOf(x + y)
  {
    hide PathOf, PageOf;
    PageOfWrapped(x + y);
    SamePath(Add64(x, y), x + y);
  }

  lemma EntryRequestAt(e: Entry, hhdm: nat, kernelBase: nat, i: nat)
    requires e.base + e.length <= END && i < PagesIn(e)
    ensures var r := EntryRequests(e, hhdm, kernelBase)[i];
            && Asks(e, hhdm, kernelBase, i, PathOf(r.virt))
            && KeptBits(r.phys / 4096) == (e.base + 4096 * i) / 4096
  {
    hide PathOf, KeptBits, Add64;
    PathOfSum(kernelBase, 4096 * i);
    PathOfSum(e.base + 4096 * i, hhdm);
    assert e.base + 4096 * i + hhdm == hhdm + e.base + 4096 * i;
  }

  /** Within an entry, a path has one page. */
  lemma AsksOnce(e: Entry, hhdm: nat, kernelBase: nat, i: nat, j: nat, t: Path)
    requires e.length <= END && Asks(e, hhdm, kernelBase, i, t) && Asks(e, hhdm, kernelBase, j, t)
    ensures i == j
  {
    hide PathOf;
    var x := Home(e, hhdm, kernelBase);
    SamePath(x + 4096 * i, x + 4096 * j);
    PageAfter(x, i);
    PageAfter(x, j);
    SameModulo(x / 4096, i, j);
  }

  lemma PageAfter(x: nat, i: nat)
    ensures PageOf(x + 4096 * i) == (x / 4096 + i) % 0x10_0000_0000
  {
    assert (x + 4096 * i) / 0x1000 == x / 4096 + i;
  }

  lemma SameModulo(x: nat, i: nat, j: nat)
    requires i < 0x10_0000_0000 && j < 0x10_0000_0000
    requires (x + i) % 0x10_0000_0000 == (x + j) % 0x10_0000_0000
    ensures i == j
  {
    var m := 0x10_0000_0000;
    var p, q := (x + i) / m, (x + j) / m;
    assert i - j == m * (p - q);
  }

  /** A page of an entry gets the frame of that page. */
  lemma EntryServes(e: Entry, hhdm: nat, kernelBase: nat, i: nat, t: Path)
    requires e.base + e.length <= END && Asks(e, hhdm, kernelBase, i, t)
    ensures LastMap(EntryRequests(e, hhdm, kernelBase), t) == Some((e.base + 4096 * i) / 4096)
  {
    hide PathOf, KeptBits, LastMap, EntryRequests, Home;
    EntrySize(e, hhdm, kernelBase, i);
    var rs := EntryRequests(e, hhdm, kernelBase);
    EntryRequestAt(e, hhdm, kernelBase, i);
    forall j | i < j < |rs|
      ensures PathOf(rs[j].virt) != t
    {
      EntryRequestAt(e, hhdm, kernelBase, j);
      if PathOf(rs[j].virt) == t {
        AsksOnce(e, hhdm, kernelBase, i, j, t);
      }
    }
    LastMapAt(rs, t, i);
  }

  lemma EntrySize(e: Entry, hhdm: nat, kernelBase: nat, i: nat)
    ensures |EntryRequests(e, hhdm, kernelBase)| == PagesIn(e)
    ensures 4096 * i < e.length <==> i < PagesIn(e)
  {
  }

  /** A path that no page of an entry is mapped at gets nothing from it. */
  lemma EntrySilent(e: Entry, hhdm: nat, kernelBase: nat, t: Path)
    requires e.base + e.length <= END && forall i: nat :: !Asks(e, hhdm, kernelBase, i, t)
    ensures LastMap(EntryRequests(e, hhdm, kernelBase), t) == None
  {
    hide PathOf, KeptBits, LastMap, EntryRequests, Home, Asks;
    var rs := EntryRequests(e, hhdm, kernelBase);
    if LastMap(rs, t).Some? {
      var k := LastMapFrom(rs, t);
      EntrySize(e, hhdm, kernelBase, k);
      EntryRequestAt(e, hhdm, kernelBase, k);
    }
  }

  ghost predicate Within(es: seq<Entry>) {
    forall k :: 0 <= k < |es| ==> es[k].base + es[k].length <= END
  }

  lemma BootableWithin(es: seq<Entry>)
    requires Bootable(es)
    ensures Within(es)
  {
    ArealSizeIsMax(es);
  }

  /** The requests made for the memory map serve exactly the last page asking for each path. */
  lemma {:induction false} MapServes(es: seq<Entry>, hhdm: nat, kernelBase: nat, t: Path, g: nat)
    requires Within(es)
    ensures LastMap(MapRequests(es, hhdm, kernelBase), t) == Some(g) <==> Assigned(es, hhdm, kernelBase, t, g)
  {
    hide PathOf, LastMap, EntryRequests, Asks, Assigned;
    if es == [] {
      NothingAssigned(hhdm, kernelBase, t, g);
    } else {
      var init, e := es[..|es| - 1], es[|es| - 1];
      assert es == init + [e];
      MapServes(init, hhdm, kernelBase, t, g);
      LastMapConcat(MapRequests(init, hhdm, kernelBase), EntryRequests(e, hhdm, kernelBase), t);
      if i: nat :| Asks(e, hhdm, kernelBase, i, t) {
        EntryServes(e, hhdm, kernelBase, i, t);
        LastEntryDecides(init, e, hhdm, kernelBase, t, g, i);
      } else {
        EntrySilent(e, hhdm, kernelBase, t);
        EarlierEntryDecides(init, e, hhdm, kernelBase, t, g);
      }
    }
  }

  lemma NothingAssigned(hhdm: nat, kernelBase: nat, t: Path, g: nat)
    ensures LastMap([], t) == None && !Assigned([], hhdm, kernelBase, t, g)
  {
  }

  lemma LastEntryDecides(init: seq<Entry>, e: Entry, hhdm: nat, kernelBase: nat, t: Path, g: nat, i: nat)
    requires e.length <= END && Asks(e, hhdm, kernelBase, i, t)
    ensures Assigned(init + [e], hhdm, kernelBase, t, g) <==> g == (e.base + 4096 * i) / 4096
  {
    hide Asks;
    var es := init + [e];
    assert es[|init|] == e;
    assert LastToAsk(es, hhdm, kernelBase, t, |init|, i);
    if Assigned(es, hhdm, kernelBase, t, g) {
      var k: nat, j: nat :| LastToAsk(es, hhdm, kernelBase, t, k, j) && g == (es[k].base + 4096 * j) / 4096;
      assert k == |init|;
      AsksOnce(e, hhdm, kernelBase, i, j, t);
    }
  }

  lemma StillLast(init: seq<Entry>, e: Entry, hhdm: nat, kernelBase: nat, t: Path, k: nat, i: nat)
    requires forall m: nat :: !Asks(e, hhdm, kernelBase, m, t)
    ensures LastToAsk(init + [e], hhdm, kernelBase, t, k, i) <==> LastToAsk(init, hhdm, kernelBase, t, k, i)
  {
    hide Asks;
    var es := init + [e];
    assert forall j :: 0 <= j < |init| ==> es[j] == init[j];
    if LastToAsk(es, hhdm, kernelBase, t, k, i) {
      forall j: nat, m: nat | k < j < |init|
        ensures !Asks(init[j], hhdm, kernelBase, m, t)
      {
        assert !Asks(es[j], hhdm, kernelBase, m, t);
      }
    }
  }

  lemma EarlierEntryDecides(init: seq<Entry>, e: Entry, hhdm: nat, kernelBase: nat, t: Path, g: nat)
    requires forall i: nat :: !Asks(e, hhdm, kernelBase, i, t)
    ensures Assigned(init + [e], hhdm, kernelBase, t, g) <==> Assigned(init, hhdm, kernelBase, t, g)
  {
    hide Asks;
    var es := init + [e];
    forall k: nat, i: nat
      ensures LastToAsk(es, hhdm, kernelBase, t, k, i) <==> LastToAsk(init, hhdm, kernelBase, t, k, i)
    {
      StillLast(init, e, hhdm, kernelBase, t, k, i);
    }
    if Assigned(es, hhdm, kernelBase, t, g) {
      var k: nat, i: nat :| LastToAsk(es, hhdm, kernelBase, t, k, i) && g == (es[k].base + 4096 * i) / 4096;
      assert LastToAsk(init, hhdm, kernelBase, t, k, i) && init[k] == es[k];
    }
    if Assigned(init, hhdm, kernelBase, t, g) {
      var k: nat, i: nat :| LastToAsk(init, hhdm, kernelBase, t, k, i) && g == (init[k].base + 4096 * i) / 4096;
      assert LastToAsk(es, hhdm, kernelBase, t, k, i) && init[k] == es[k];
    }
  }

  // ---------- the whole of it ----------

  lemma LowPage(a: nat, g: nat)
    requires a < 0x100_0000
    ensures g < 4096 && PathOf(a) == PathOf(4096 * g) <==> g == a / 4096
  {
    hide PathOf;
    SamePath(a, 4096 * g);
    PageAfter(0, g);
  }

  lemma IdentityFrom(t: Path)
    requires LastMap(IdentityRequests(IDENTITY_PAGES), t).Some?
    ensures Low(t)
  {
    hide PathOf, LastMap;
    var k := LastMapFrom(IdentityRequests(IDENTITY_PAGES), t);
  }

  /**
   For every page, and for whatever addresses the boot loader hands over: the frame that the last map
   call asks for is its own number below 16 MB, and elsewhere that of the last page of the memory map
   that belongs there; no other page is mapped.
   */
  lemma BootServes(es: seq<Entry>, hhdm: nat, kernelBase: nat, t: Path, g: nat)
    requires Bootable(es)
    ensures LastMap(BootRequests(es, hhdm, kernelBase), t) == Some(g) <==> Expected(es, hhdm, kernelBase, t, g)
  {
    hide PathOf, LastMap, MapRequests, IdentityRequests, Assigned;
    var maps, ids := MapRequests(es, hhdm, kernelBase), IdentityRequests(IDENTITY_PAGES);
    LastMapConcat(maps, ids, t);
    if Low(t) {
      var a :| 0 <= a < 0x100_0000 && t == PathOf(a);
      IdentityMaps(IDENTITY_PAGES, a);
      LowPage(a, g);
    } else {
      if LastMap(ids, t).Some? {
        IdentityFrom(t);
      }
      BootableWithin(es);
      MapServes(es, hhdm, kernelBase, t, g);
    }
  }

  // ---------- higher half and kernel ----------

  /**
   The higher half (all of the memory map from hhdm on) and the kernel's link address lie above the
   first 16 MB, below 2^48 in bits 47..0, and apart from each other.
   */
  ghost predicate Layout(es: seq<Entry>, hhdm: nat, kernelBase: nat) {
    var high, base := 4096 * PageOf(hhdm), 4096 * PageOf(kernelBase);
    && hhdm % 4096 == 0 && 0x100_0000 <= high && high + ArealSize(es) <= 0x1_0000_0000_0000
    && forall k :: 0 <= k < |es| && es[k].kind == 6 ==>
         && 0x100_0000 <= base && base + es[k].length <= 0x1_0000_0000_0000
         && (base + es[k].length <= high || high + ArealSize(es) <= base)
  }

  /** The page number that page i of an entry has in the address space. */
  function PageFor(e: Entry, hhdm: nat, kernelBase: nat, i: nat): nat {
    if e.kind == 6 then PageOf(kernelBase) + i else PageOf(hhdm) + (e.base + 4096 * i) / 4096
  }

  lemma NoWrap(x: nat, i: nat)
    requires x % 0x10_0000_0000 + i < 0x10_0000_0000
    ensures (x + i) % 0x10_0000_0000 == x % 0x10_0000_0000 + i
  {
  }

  lemma PageNumber(x: nat, y: nat)
    requires 4096 * PageOf(x) + y < 0x1_0000_0000_0000 && (x % 4096 == 0 || y % 4096 == 0)
    ensures PageOf(x + y) == PageOf(x) + y / 4096
  {
    assert (x + y) / 0x1000 == x / 0x1000 + y / 4096;
    NoWrap(x / 0x1000, y / 4096);
  }

  lemma EntryPage(es: seq<Entry>, hhdm: nat, kernelBase: nat, k: nat, i: nat)
    requires Layout(es, hhdm, kernelBase) && k < |es| && HasPage(es[k], i)
    ensures var n := PageFor(es[k], hhdm, kernelBase, i);
            PageOf(Home(es[k], hhdm, kernelBase) + 4096 * i) == n && 4096 <= n
  {
    hide PageOf;
    ArealSizeIsMax(es);
    var e := es[k];
    if e.kind == 6 {
      PageNumber(kernelBase, 4096 * i);
    } else {
      PageNumber(hhdm, e.base + 4096 * i);
      assert Home(e, hhdm, kernelBase) + 4096 * i == hhdm + (e.base + 4096 * i);
    }
  }

  /** In such a layout two pages of the memory map share an address only if they share kind and place. */
  lemma SamePlace(es: seq<Entry>, hhdm: nat, kernelBase: nat, k: nat, i: nat, j: nat, m: nat)
    requires Layout(es, hhdm, kernelBase) && k < |es| && j < |es|
    requires HasPage(es[k], i) && HasPage(es[j], m)
    ensures PathOf(Home(es[k], hhdm, kernelBase) + 4096 * i) == PathOf(Home(es[j], hhdm, kernelBase) + 4096 * m)
            <==> if es[k].kind == 6 then es[j].kind == 6 && m == i
                 else es[j].kind != 6 && (es[j].base + 4096 * m) / 4096 == (es[k].base + 4096 * i) / 4096
  {
    hide PathOf, Home, PageOf;
    EntryPage(es, hhdm, kernelBase, k, i);
    EntryPage(es, hhdm, kernelBase, j, m);
    SamePath(Home(es[k], hhdm, kernelBase) + 4096 * i, Home(es[j], hhdm, kernelBase) + 4096 * m);
    ArealSizeIsMax(es);
  }

  lemma NotLow(es: seq<Entry>, hhdm: nat, kernelBase: nat, k: nat, i: nat)
    requires Layout(es, hhdm, kernelBase) && k < |es| && HasPage(es[k], i)
    ensures !Low(PathOf(Home(es[k], hhdm, kernelBase) + 4096 * i))
  {
    hide PathOf, Home;
    EntryPage(es, hhdm, kernelBase, k, i);
    var x := Home(es[k], hhdm, kernelBase) + 4096 * i;
    forall a | 0 <= a < 0x100_0000
      ensures PathOf(x) != PathOf(a)
    {
      SamePath(x, a);
    }
  }

  /** If a page asks for a path, some page is the last to do so. */
  lemma {:induction false} SomeLast(es: seq<Entry>, hhdm: nat, kernelBase: nat, t: Path, k: nat, i: nat)
      returns (j: nat, m: nat)
    requires k < |es| && Asks(es[k], hhdm, kernelBase, i, t)
    ensures LastToAsk(es, hhdm, kernelBase, t, j, m) && k <= j
    decreases |es| - k
  {
    hide Asks;
    if j': nat, m': nat :| k < j' < |es| && Asks(es[j'], hhdm, kernelBase, m', t) {
      j, m := SomeLast(es, hhdm, kernelBase, t, j', m');
    } else {
      j, m := k, i;
    }
  }

  lemma ServedBy(es: seq<Entry>, hhdm: nat, kernelBase: nat, t: Path, k: nat, i: nat)
    requires Bootable(es) && !Low(t) && LastToAsk(es, hhdm, kernelBase, t, k, i)
    ensures LastMap(BootRequests(es, hhdm, kernelBase), t) == Some((es[k].base + 4096 * i) / 4096)
  {
    hide LastMap, BootRequests, Asks, Bootable;
    BootServes(es, hhdm, kernelBase, t, (es[k].base + 4096 * i) / 4096);
  }

  /** Every page of an entry other than the kernel's is mapped at the higher-half offset. */
  lemma HigherHalfMapped(es: seq<Entry>, hhdm: nat, kernelBase: nat, k: nat, i: nat)
    requires Bootable(es) && Layout(es, hhdm, kernelBase)
    requires k < |es| && es[k].kind != 6 && HasPage(es[k], i)
    ensures LastMap(BootRequests(es, hhdm, kernelBase), PathOf(hhdm + es[k].base + 4096 * i))
            == Some((es[k].base + 4096 * i) / 4096)
  {
    hide LastMap, BootRequests, Layout, Bootable, PathOf;
    var t := PathOf(hhdm + es[k].base + 4096 * i);
    var j, m := SomeLast(es, hhdm, kernelBase, t, k, i);
    NotLow(es, hhdm, kernelBase, k, i);
    SamePlace(es, hhdm, kernelBase, k, i, j, m);
    ServedBy(es, hhdm, kernelBase, t, j, m);
  }

  /** Entry k is the last kernel entry that has a page i. */
  ghost predicate LastKernel(es: seq<Entry>, k: nat, i: nat) {
    && k < |es| && es[k].kind == 6 && HasPage(es[k], i)
    && forall j :: k < j < |es| && es[j].kind == 6 ==> es[j].length <= 4096 * i
  }

  /** Page i from the link address on is page i of the last kernel entry that has one. */
  lemma KernelMapped(es: seq<Entry>, hhdm: nat, kernelBase: nat, k: nat, i: nat)
    requires Bootable(es) && Layout(es, hhdm, kernelBase) && LastKernel(es, k, i)
    ensures LastMap(BootRequests(es, hhdm, kernelBase), PathOf(kernelBase + 4096 * i))
            == Some((es[k].base + 4096 * i) / 4096)
  {
    hide LastMap, BootRequests, Layout, Bootable, PathOf;
    var t := PathOf(kernelBase + 4096 * i);
    var j, m := SomeLast(es, hhdm, kernelBase, t, k, i);
    NotLow(es, hhdm, kernelBase, k, i);
    SamePlace(es, hhdm, kernelBase, k, i, j, m);
    ServedBy(es, hhdm, kernelBase, t, j, m);
  }

  lemma {:induction false} SomeLastKernel(es: seq<Entry>, k: nat, i: nat) returns (j: nat)
    requires k < |es| && es[k].kind == 6 && HasPage(es[k], i)
    ensures LastKernel(es, j, i)
    decreases |es| - k
  {
    if j' :| k < j' < |es| && es[j'].kind == 6 && HasPage(es[j'], i) {
      j := SomeLastKernel(es, j', i);
    } else {
      j := k;
    }
  }

  /**
   All entries of the kernel's kind are mapped from the same address on, so a page of one of them is
   found there exactly when the last such entry to have that page starts at the same frame.
   */
  lemma KernelKept(es: seq<Entry>, hhdm: nat, kernelBase: nat, k: nat, i: nat)
    requires Bootable(es) && Layout(es, hhdm, kernelBase)
    requires k < |es| && es[k].kind == 6 && HasPage(es[k], i)
    ensures LastMap(BootRequests(es, hhdm, kernelBase), PathOf(kernelBase + 4096 * i))
            == Some((es[k].base + 4096 * i) / 4096)
            <==> exists j: nat :: LastKernel(es, j, i) && es[j].base / 4096 == es[k].base / 4096
  {
    hide LastMap, BootRequests, Layout, Bootable, PathOf;
    var j := SomeLastKernel(es, k, i);
    KernelMapped(es, hhdm, kernelBase, j, i);
    assert forall e: Entry :: (e.base + 4096 * i) / 4096 == e.base / 4096 + i;
  }

  /** With the kernel and a module in entries of their own, the module's page hides the kernel's first. */
  lemma ModuleHidesKernel()
    ensures var es := [Entry(0x20_0000, 0x10_0000, 6), Entry(0x40_0000, 0x1000, 6)];
            LastMap(BootRequests(es, 0xffff_8000_0000_0000, 0xffff_ffff_8000_0000), PathOf(0xffff_ffff_8000_0000))
            == Some(0x400)
  {
    hide LastMap, BootRequests, PathOf;
    var e0, e1 := Entry(0x20_0000, 0x10_0000, 6), Entry(0x40_0000, 0x1000, 6);
    var es := [e0, e1];
    assert es[..1] == [e0] && [e0][..0] == [];
    assert ArealSize([e0]) == 0x30_0000 && ArealSize(es) == 0x40_1000;
    assert Largest([e0]) == (0, 0) && Largest(es) == (0, 0);
    assert LastKernel(es, 1, 0);
    KernelMapped(es, 0xffff_8000_0000_0000, 0xffff_ffff_8000_0000, 1, 0);
  }
}
