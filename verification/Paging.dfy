/**
 The page-table mapper of kernel/mem/paging.cpp over physical memory: a map from frame number to the
 512 packed entries in it.  Table frames come from the page frame allocator.
 */
module Paging {
  import opened Outcomes
  import opened Words
  import opened PageEntry
  import opened PageTree
  import opened FrameSpec
  import opened FrameAllocator

  // ---------- addresses ----------

  datatype PageMapIndexer = PageMapIndexer(PDP_i: nat, PD_i: nat, PT_i: nat, P_i: nat)

  /** `addr >>= 9` and `addr & 0x1ff` on an unsigned word, as quotient and remainder. */
  function IndexerFrom(addr: nat): PageMapIndexer {
    var a0 := addr / 0x1000;
    var a1 := a0 / 0x200;
    var a2 := a1 / 0x200;
    var a3 := a2 / 0x200;
    PageMapIndexer(a3 % 0x200, a2 % 0x200, a1 % 0x200, a0 % 0x200)
  }

  function PathOf(addr: nat): (t: Path)
    ensures IsLeaf(t)
  {
    var ix := IndexerFrom(addr);
    [ix.PDP_i, ix.PD_i, ix.PT_i, ix.P_i]
  }

  lemma PathOfIndexer(addr: nat)
    ensures var ix := IndexerFrom(addr);
            InRange(ix) && PathOf(addr) == [ix.PDP_i, ix.PD_i, ix.PT_i, ix.P_i]
  {
  }

  /** Bits 47..12 of an address. */
  function PageOf(addr: nat): nat {
    addr / 0x1000 % 0x10_0000_0000
  }

  /** The page number that four indices spell out in base 512. */
  function Compose(ix: PageMapIndexer): nat {
    ((ix.PDP_i * 0x200 + ix.PD_i) * 0x200 + ix.PT_i) * 0x200 + ix.P_i
  }

  predicate InRange(ix: PageMapIndexer) {
    ix.PDP_i < 0x200 && ix.PD_i < 0x200 && ix.PT_i < 0x200 && ix.P_i < 0x200
  }

  lemma ComposeInjective(i: PageMapIndexer, j: PageMapIndexer)
    requires InRange(i) && InRange(j)
    ensures Compose(i) == Compose(j) <==> i == j
  {
    LastDigit((i.PDP_i * 0x200 + i.PD_i) * 0x200 + i.PT_i, i.P_i, (j.PDP_i * 0x200 + j.PD_i) * 0x200 + j.PT_i, j.P_i);
    LastDigit(i.PDP_i * 0x200 + i.PD_i, i.PT_i, j.PDP_i * 0x200 + j.PD_i, j.PT_i);
    LastDigit(i.PDP_i, i.PD_i, j.PDP_i, j.PD_i);
  }

  lemma LastDigit(x: nat, a: nat, y: nat, b: nat)
    requires a < 0x200 && b < 0x200
    ensures x * 0x200 + a == y * 0x200 + b <==> x == y && a == b
  {
  }

  lemma PathIsIndexer(v: nat, w: nat)
    ensures PathOf(v) == PathOf(w) <==> IndexerFrom(v) == IndexerFrom(w)
  {
    var s, t := PathOf(v), PathOf(w);
    assert s == t ==> s[0] == t[0] && s[1] == t[1] && s[2] == t[2] && s[3] == t[3];
  }

  /** The four indices determine, and are determined by, bits 47..12 of the address. */
  lemma SamePath(v: nat, w: nat)
    ensures PathOf(v) == PathOf(w) <==> PageOf(v) == PageOf(w)
  {
    PathIsIndexer(v, w);
    PageFromIndices(v);
    PageFromIndices(w);
    ComposeInjective(IndexerFrom(v), IndexerFrom(w));
  }

  lemma PageFromIndices(v: nat)
    ensures PageOf(v) == Compose(IndexerFrom(v))
  {
    var a0 := v / 0x1000;
    var a1 := a0 / 0x200;
    var a2 := a1 / 0x200;
    var a3 := a2 / 0x200;
    assert a0 == ((a3 * 0x200 + a2 % 0x200) * 0x200 + a1 % 0x200) * 0x200 + a0 % 0x200;
    assert a0 / 0x10_0000_0000 == a3 / 0x200;
  }

  // ---------- packed tables as tables of slots ----------

  function Unpack(e: bv64): Slot {
    Slot(GetFlag(e, Present), FrameOf(e))
  }

  function UnpackTable(t: seq<bv64>): (s: seq<Slot>)
    ensures |s| == |t|
  {
    seq(|t|, i requires 0 <= i < |t| => Unpack(t[i]))
  }

  function UnpackAll(mem: map<nat, seq<bv64>>): Tables {
    map f | f in mem :: UnpackTable(mem[f])
  }

  function ZeroTable(): seq<bv64> {
    seq(SLOTS, _ => 0)
  }

  lemma UnpackZero()
    ensures UnpackTable(ZeroTable()) == EmptyTable()
  {
    ZeroEntryAbsent();
    ZeroEntryFrame();
  }

  lemma UnpackStore(mem: map<nat, seq<bv64>>, f: nat, i: nat, e: bv64)
    requires f in mem && i < |mem[f]|
    ensures UnpackAll(mem[f := mem[f][i := e]]) == WithSlot(UnpackAll(mem), f, i, Unpack(e))
  {
    assert UnpackTable(mem[f][i := e]) == UnpackTable(mem[f])[i := Unpack(e)];
  }

  lemma UnpackClear(mem: map<nat, seq<bv64>>, f: nat)
    ensures UnpackAll(mem[f := ZeroTable()]) == UnpackAll(mem)[f := EmptyTable()]
  {
    UnpackZero();
  }

  // ---------- the words that the hardware sees ----------

  /** The packed entries on the way along a path, from the table in frame f on, all exist and are writable. */
  predicate WritableWalk(mem: map<nat, seq<bv64>>, f: nat, path: Path)
    decreases |path|
  {
    path != [] ==>
      && f in mem && path[0] < |mem[f]| && Writable(mem[f][path[0]])
      && WritableWalk(mem, FrameOf(mem[f][path[0]]), path[1..])
  }

  /** A page is translated exactly when all four of its entries are writable, executable and no large page. */
  ghost predicate AllWritable(mem: map<nat, seq<bv64>>, st: PageState) {
    forall t :: IsLeaf(t) ==> (Walk(st.mem, st.root, t).Some? <==> WritableWalk(mem, st.root, t))
  }

  predicate GoodTable(t: seq<bv64>) {
    forall i :: 0 <= i < |t| ==> ZeroOrWritable(t[i])
  }

  /** Every word of every table is zero, or has exactly Present and ReadWrite set beside its address. */
  ghost predicate GoodWords(mem: map<nat, seq<bv64>>, node: map<Path, nat>) {
    forall p :: p in node ==> node[p] in mem && GoodTable(mem[node[p]])
  }

  lemma ClearGood(mem: map<nat, seq<bv64>>, node: map<Path, nat>, q: Path, child: nat)
    requires GoodWords(mem, node)
    ensures GoodWords(mem[child := ZeroTable()], node) && GoodWords(mem[child := ZeroTable()], node[q := child])
  {
    assert GoodTable(ZeroTable());
  }

  lemma OnlyRootGood(mem: map<nat, seq<bv64>>, root: nat)
    ensures GoodWords(mem[root := ZeroTable()], map[[] := root])
  {
  }

  lemma StoreGood(mem: map<nat, seq<bv64>>, node: map<Path, nat>, f: nat, i: nat, e: bv64)
    requires GoodWords(mem, node) && f in mem && i < |mem[f]| && ZeroOrWritable(e)
    ensures GoodWords(mem[f := mem[f][i := e]], node)
  {
  }

  lemma GoodAt(mem: map<nat, seq<bv64>>, node: map<Path, nat>, p: Path, i: nat)
    requires GoodWords(mem, node) && p in node && i < |mem[node[p]]|
    ensures ZeroOrWritable(mem[node[p]][i])
  {
  }

  /** Writable entries are present ones, so the hardware walk follows them. */
  lemma {:induction false} WritableIsTranslated(mem: map<nat, seq<bv64>>, f: nat, path: Path)
    requires WritableWalk(mem, f, path)
    ensures Walk(UnpackAll(mem), f, path).Some?
    decreases |path|
  {
    hide Writable, GetFlag, FrameOf;
    if path != [] {
      WritableFlags(mem[f][path[0]], Present);
      WritableIsTranslated(mem, FrameOf(mem[f][path[0]]), path[1..]);
    }
  }

  /** What the hardware walk follows in a good table is writable. */
  lemma {:induction false} TranslatedIsWritable(mem: map<nat, seq<bv64>>, st: PageState, p: Path, q: Path)
    requires Tree(st) && st.mem == UnpackAll(mem) && GoodWords(mem, st.node)
    requires p in st.node && |p| + |q| == 4 && IsPath(q)
    requires Walk(st.mem, st.node[p], q).Some?
    ensures WritableWalk(mem, st.node[p], q)
    decreases |q|
  {
    hide Writable, ZeroOrWritable, GetFlag, FrameOf, GoodWords;
    var f, i := st.node[p], q[0];
    SlotWord(mem, st, p, i);
    var e := mem[f][i];
    GoodAt(mem, st.node, p, i);
    PresentIsWritable(e);
    if |p| == 3 {
      assert WritableWalk(mem, FrameOf(e), q[1..]);
    } else {
      TranslatedIsWritable(mem, st, p + [i], q[1..]);
    }
  }

  lemma SlotWord(mem: map<nat, seq<bv64>>, st: PageState, p: Path, i: nat)
    requires Tree(st) && st.mem == UnpackAll(mem) && p in st.node && i < SLOTS
    ensures st.node[p] in mem && i < |mem[st.node[p]]|
    ensures st.mem[st.node[p]][i] == Slot(GetFlag(mem[st.node[p]][i], Present), FrameOf(mem[st.node[p]][i]))
    ensures |p| < 3 && st.mem[st.node[p]][i].present ==>
              p + [i] in st.node && st.mem[st.node[p]][i].frame == st.node[p + [i]]
  {
    hide GetFlag, FrameOf;
    assert SlotOk(st, p, i);
  }

  lemma PagesAreWritable(mem: map<nat, seq<bv64>>, st: PageState)
    requires Tree(st) && st.mem == UnpackAll(mem) && GoodWords(mem, st.node)
    ensures AllWritable(mem, st)
  {
    hide GoodWords, UnpackAll, Walk, WritableWalk;
    RootIsTable(st);
    forall t | IsLeaf(t)
      ensures Walk(st.mem, st.root, t).Some? <==> WritableWalk(mem, st.root, t)
    {
      if Walk(st.mem, st.root, t).Some? {
        TranslatedIsWritable(mem, st, [], t);
      }
      if WritableWalk(mem, st.root, t) {
        WritableIsTranslated(mem, st.root, t);
      }
    }
  }

  lemma UpdatedIsWritable(s0: PageState, s1: PageState, mem: map<nat, seq<bv64>>, t: Path, g: nat)
    requires Tree(s1) && s1.mem == UnpackAll(mem) && GoodWords(mem, s1.node)
    requires UpdatesOne(s0, s1, t, g) && IsLeaf(t)
    ensures WritableWalk(mem, s1.root, t)
  {
    hide Tree, UnpackAll, GoodWords, WritableWalk, Walk;
    PagesAreWritable(mem, s1);
  }

  lemma RootIsTable(st: PageState)
    requires Tree(st)
    ensures [] in st.node && st.node[[]] == st.root
  {
  }

  /** Writable, executable, and otherwise flagged as before. */
  predicate FlagsOfLink(e: bv64, before: bv64) {
    && GetFlag(e, ReadWrite) && !GetFlag(e, NX)
    && forall g :: g !in {Present, ReadWrite, NX} ==> GetFlag(e, g) == GetFlag(before, g)
  }

  /** The four calls by which the mapper turns the entry it found into the one it stores. */
  method LinkEntry(PDE: bv64, shifted: nat) returns (e: bv64)
    requires shifted < SHIFTED_LIMIT
    ensures Unpack(e) == Slot(true, KeptBits(shifted))
    ensures FlagsOfLink(e, PDE)
    ensures ZeroOrWritable(PDE) ==> Writable(e)
  {
    hide Writable, ZeroOrWritable, SetFlag, SetAddress, GetFlag, FrameOf, ToWord, KeptBits;
    e := SetAddress(PDE, ToWord(shifted));
    e := SetFlag(e, Present, true);
    e := SetFlag(e, ReadWrite, true);
    e := SetFlag(e, NX, false);
    assert e == Link(PDE, shifted);
    LinkedEntry(PDE, shifted);
    if ZeroOrWritable(PDE) {
      LinkIsWritable(PDE, shifted);
    }
  }

  /** What the packed entry at a table's slot says about the tree. */
  lemma ReadSlot(st: PageState, mem: map<nat, seq<bv64>>, p: Path, i: nat)
    requires Tree(st) && st.mem == UnpackAll(mem) && p in st.node && |p| < 3 && i < SLOTS
    ensures st.node[p] in mem && i < |mem[st.node[p]]|
    ensures var e := mem[st.node[p]][i];
            && (GetFlag(e, Present) <==> p + [i] in st.node)
            && (p + [i] in st.node ==> FrameOf(e) == st.node[p + [i]])
    ensures SameTranslation(st, st)
  {
    assert SlotOk(st, p, i);
  }

  /** How many of the tables at the first k levels below the root on the way to a page do not exist yet. */
  function Missing(node: map<Path, nat>, t: Path, k: nat): nat
    requires k <= |t|
  {
    if k == 0 then 0 else Missing(node, t, k - 1) + if t[..k] in node then 0 else 1
  }

  /** A page that is mapped already needs no further table. */
  lemma {:induction false} RemapCostsNothing(st: PageState, t: Path, k: nat)
    requires Tree(st) && t in st.mapped && k <= 3
    ensures Missing(st.node, t, k) == 0
  {
    if k > 0 {
      RemapCostsNothing(st, t, k - 1);
      assert t[..3][..k] == t[..k];
    }
  }

  /** Whether m frames can be requested one after the other: the guard holds before each. */
  predicate Affordable(free: nat, m: nat) {
    m == 0 || free >= 12288 + 4096 * m
  }

  /** What one level of the descent does to the tables and to the frames held. */
  ghost predicate AddsAtMost(s0: PageState, s1: PageState, o0: set<nat>, o1: set<nat>, p: Path) {
    && s1.mapped == s0.mapped && SameTranslation(s0, s1)
    && p in s1.node
    && if p in s0.node then s1.node == s0.node && o1 == o0
       else s1.node[p] !in o0 && s1.node == s0.node[p := s1.node[p]] && o1 == o0 + {s1.node[p]}
  }

  /** What k levels do: the missing tables are added, in new frames, and nothing else moves. */
  ghost predicate Grown(s0: PageState, s1: PageState, o0: set<nat>, o1: set<nat>, t: Path, k: nat)
    requires k <= |t|
  {
    && (forall p :: p in s0.node ==> p in s1.node && s1.node[p] == s0.node[p])
    && (forall p :: p in s1.node && p !in s0.node ==> 1 <= |p| <= k && p == t[..|p|] && s1.node[p] !in o0)
    && o1 == o0 + s1.node.Values
    && |s1.node| == |s0.node| + Missing(s0.node, t, k)
  }

  lemma GrowNothing(s0: PageState, o0: set<nat>, t: Path)
    requires s0.node.Values <= o0 && Tree(s0)
    ensures Grown(s0, s0, o0, o0, t, 0) && SameTranslation(s0, s0)
    ensures t[..0] in s0.node && s0.node[t[..0]] == s0.root
  {
  }

  lemma ValuesOfUpdate(m: map<Path, nat>, p: Path, f: nat)
    requires p !in m
    ensures m[p := f].Values == m.Values + {f}
  {
    var m' := m[p := f];
    forall v
      ensures v in m'.Values <==> v in m.Values + {f}
    {
      if v in m.Values {
        var q :| q in m && m[q] == v;
        assert m'[q] == v;
      }
      assert m'[p] == f;
    }
  }

  lemma GrowOneLevel(s0: PageState, s1: PageState, s2: PageState, o0: set<nat>, o1: set<nat>, o2: set<nat>,
                     t: Path, k: nat)
    requires k < |t| && s0.node.Values <= o0
    requires Grown(s0, s1, o0, o1, t, k) && SameTranslation(s0, s1)
    requires AddsAtMost(s1, s2, o1, o2, t[..k + 1])
    ensures t[..k + 1] in s1.node <==> t[..k + 1] in s0.node
    ensures Grown(s0, s2, o0, o2, t, k + 1) && SameTranslation(s0, s2)
  {
    SameTwice(s0, s1, s2);
    AlreadyThere(s0, s1, o0, o1, t, k);
    GrowNode(s0, s1, s2, o0, o1, o2, t, k);
    GrowCount(s0.node, s1.node, s2.node, o0, o1, o2, t, k);
  }

  lemma GrowNode(s0: PageState, s1: PageState, s2: PageState, o0: set<nat>, o1: set<nat>, o2: set<nat>,
                 t: Path, k: nat)
    requires k < |t| && Grown(s0, s1, o0, o1, t, k) && AddsAtMost(s1, s2, o1, o2, t[..k + 1])
    ensures forall p :: p in s0.node ==> p in s2.node && s2.node[p] == s0.node[p]
    ensures forall p :: p in s2.node && p !in s0.node ==> 1 <= |p| <= k + 1 && p == t[..|p|] && s2.node[p] !in o0
  {
    hide SameTranslation, Missing;
  }

  lemma GrowCount(n0: map<Path, nat>, n1: map<Path, nat>, n2: map<Path, nat>,
                  o0: set<nat>, o1: set<nat>, o2: set<nat>, t: Path, k: nat)
    requires k < |t| && (t[..k + 1] in n1 <==> t[..k + 1] in n0) && t[..k + 1] in n2
    requires var q := t[..k + 1];
             if q in n1 then n2 == n1 && o2 == o1 else n2 == n1[q := n2[q]] && o2 == o1 + {n2[q]}
    requires o1 == o0 + n1.Values && |n1| == |n0| + Missing(n0, t, k)
    ensures o2 == o0 + n2.Values
    ensures |n2| == |n0| + Missing(n0, t, k + 1)
  {
    var q := t[..k + 1];
    if q !in n1 {
      ValuesOfUpdate(n1, q, n2[q]);
      SizeOfUpdate(n1, q, n2[q]);
    }
  }

  lemma SizeOfUpdate(m: map<Path, nat>, p: Path, f: nat)
    requires p !in m
    ensures |m[p := f]| == |m| + 1
  {
    assert m[p := f].Keys == m.Keys + {p};
  }

  lemma AlreadyThere(s0: PageState, s1: PageState, o0: set<nat>, o1: set<nat>, t: Path, k: nat)
    requires k < |t| && Grown(s0, s1, o0, o1, t, k)
    ensures t[..k + 1] in s1.node <==> t[..k + 1] in s0.node
  {
  }

  lemma SameTwice(s0: PageState, s1: PageState, s2: PageState)
    requires SameTranslation(s0, s1) && SameTranslation(s1, s2)
    ensures SameTranslation(s0, s2)
  {
  }

  /** With the page itself mapped, every table added on the way to it is needed. */
  lemma NeededAgain(s0: PageState, s1: PageState, s2: PageState, o0: set<nat>, o1: set<nat>, t: Path, k: nat)
    requires k <= |t| && Needed(s0) && Grown(s0, s1, o0, o1, t, k)
    requires s2.node == s1.node && s2.mapped == s0.mapped + {t}
    ensures Needed(s2)
  {
    forall p | p in s2.node && p != []
      ensures exists u :: u in s2.mapped && p <= u
    {
      if p in s0.node {
        var u :| u in s0.mapped && p <= u;
        assert u in s2.mapped;
      } else {
        assert t in s2.mapped && p <= t;
      }
    }
  }

  lemma GrownByNode(s0: PageState, s1: PageState, s2: PageState, o0: set<nat>, o1: set<nat>, t: Path, k: nat)
    requires k <= |t| && Grown(s0, s1, o0, o1, t, k) && s2.node == s1.node
    ensures Grown(s0, s2, o0, o1, t, k)
  {
  }

  /** Frames held before a descent do not become table frames by it. */
  lemma NoOldFrame(s0: PageState, s1: PageState, o0: set<nat>, o1: set<nat>, t: Path, k: nat)
    requires k <= |t| && Grown(s0, s1, o0, o1, t, k)
    ensures forall g :: g in o0 && g in s1.node.Values ==> g in s0.node.Values
    ensures o0 <= o1
  {
    forall g | g in o0 && g in s1.node.Values
      ensures g in s0.node.Values
    {
      var p :| p in s1.node && s1.node[p] == g;
      assert p in s0.node && s0.node[p] == g;
    }
  }

  lemma UpdateAfterSame(s0: PageState, s1: PageState, s2: PageState, page: Path, g: nat)
    requires SameTranslation(s0, s1) && UpdatesOne(s1, s2, page, g)
    ensures UpdatesOne(s0, s2, page, g)
  {
  }

  lemma PathSteps(ix: PageMapIndexer, t: Path)
    requires InRange(ix) && t == [ix.PDP_i, ix.PD_i, ix.PT_i, ix.P_i]
    ensures t[..1] == [] + [ix.PDP_i] && t[..2] == t[..1] + [ix.PD_i]
    ensures t[..3] == t[..2] + [ix.PT_i] && t == t[..3] + [ix.P_i]
    ensures IsLeaf(t)
  {
  }

  // ---------- runs of map calls ----------

  datatype Request = Request(virt: nat, phys: nat)

  predicate InWord(requests: seq<Request>) {
    forall i :: 0 <= i < |requests| ==> requests[i].phys < U64
  }

  function PagesOf(requests: seq<Request>): set<Path> {
    set i | 0 <= i < |requests| :: PathOf(requests[i].virt)
  }

  /** The frame that the last request for a page asks for. */
  function LastMap(requests: seq<Request>, t: Path): Option<nat> {
    if requests == [] then None
    else
      var last := requests[|requests| - 1];
      if PathOf(last.virt) == t then Some(KeptBits(last.phys / 4096))
      else LastMap(requests[..|requests| - 1], t)
  }

  ghost predicate Replays(s0: PageState, s1: PageState, requests: seq<Request>) {
    forall t :: IsLeaf(t) ==>
      Walk(s1.mem, s1.root, t)
      == if LastMap(requests, t).Some? then LastMap(requests, t) else Walk(s0.mem, s0.root, t)
  }

  /** The translation is exactly what the requests ask for. */
  ghost predicate Realizes(st: PageState, requests: seq<Request>) {
    forall t :: IsLeaf(t) ==> Walk(st.mem, st.root, t) == LastMap(requests, t)
  }

  lemma ReplayNothing(s0: PageState)
    ensures Replays(s0, s0, [])
    ensures PagesOf([]) == {}
  {
  }

  lemma NextRequest(requests: seq<Request>, i: nat)
    requires i < |requests|
    ensures requests[..i + 1] == requests[..i] + [requests[i]]
  {
  }

  lemma ReplayOneMore(s0: PageState, s1: PageState, s2: PageState, requests: seq<Request>, last: Request)
    requires Replays(s0, s1, requests)
    requires UpdatesOne(s1, s2, PathOf(last.virt), KeptBits(last.phys / 4096))
    ensures Replays(s0, s2, requests + [last])
    ensures PagesOf(requests + [last]) == PagesOf(requests) + {PathOf(last.virt)}
  {
    var more := requests + [last];
    assert more[..|more| - 1] == requests;
    assert forall i :: 0 <= i < |requests| ==> more[i] == requests[i];
    assert more[|requests|] == last;
    forall p | p in PagesOf(requests) + {PathOf(last.virt)}
      ensures p in PagesOf(more)
    {
      if p in PagesOf(requests) {
        var i :| 0 <= i < |requests| && p == PathOf(requests[i].virt);
        assert p == PathOf(more[i].virt);
      }
    }
  }

  class PageMapper {
    const pfa: PageFrameAllocator
    var root: nat                        // the frame of the top-level table
    var mem: map<nat, seq<bv64>>
    ghost var st: PageState

    constructor (pfa: PageFrameAllocator)
      ensures this.pfa == pfa
    {
      this.pfa := pfa;
      root, mem := 0, map[];
      st := PageState(map[], 0, map[], {});
    }

    /** The tables form a tree of good words, and every table frame is one that the allocator handed out. */
    ghost predicate Structured()
      reads this, pfa, pfa.bitmap, pfa.bitmap.Buffer
    {
      && pfa.Valid()
      && st.root == root && st.mem == UnpackAll(mem)
      && Tree(st)
      && GoodWords(mem, st.node)
      && st.node.Values <= pfa.obtained
    }

    /** Between map calls there is moreover no table without a mapped page below it. */
    ghost predicate Valid()
      reads this, pfa, pfa.bitmap, pfa.bitmap.Buffer
    {
      Structured() && Needed(st)
    }

    /** Every table frame is marked as taken in the frame bitmap. */
    lemma TableFramesLocked(p: Path)
      requires Structured() && p in st.node
      ensures st.node[p] < 8 * pfa.bitmap.Size && pfa.bitmap.Bits()[st.node[p]]
    {
      hide Tree, UnpackAll, Unpack;
      assert st.node[p] in pfa.obtained;
      assert st.node[p] !in Available(pfa.boot, pfa.obtained);
      assert pfa.View().bits == pfa.bitmap.Bits();
    }

    /** A page is translated exactly when its entries on all four levels are writable and executable. */
    lemma TranslatedPagesWritable()
      requires Structured()
      ensures AllWritable(mem, st)
    {
      hide Tree, UnpackAll, GoodWords, AllWritable, Inv;
      PagesAreWritable(mem, st);
    }

    /** The kernel's first step: a zeroed top-level table in a frame of its own. */
    method InitPaging() returns (r: Outcome<()>)
      requires pfa.Valid()
      modifies this, pfa`freeMemory, pfa`usedMemory, pfa`bitmapIdx, pfa`obtained, pfa.bitmap.Buffer
      ensures r.Panicked? <==> old(pfa.freeMemory) < GUARD
      ensures r.Returned? ==> Valid() && st.mapped == {} && st.node == map[[] := root]
      ensures r.Returned? ==> root !in old(pfa.obtained) && pfa.obtained == old(pfa.obtained) + {root}
      ensures r.Returned? ==> pfa.freeMemory == old(pfa.freeMemory) - 4096
    {
      hide Inv, Tree, UnpackTable, EmptyTable, ZeroTable, GoodWords;
      var f := pfa.Obtain();
      if f.Panicked? {
        return Panicked;
      }
      root := f.value;
      UnpackClear(mem, root);
      OnlyRootGood(mem, root);
      mem := mem[root := ZeroTable()];
      st := PageState(UnpackAll(mem), root, map[[] := root], {});
      EmptyTree(UnpackAll(mem), root);
      return Returned(());
    }

    /**
     One level of the descent: the table that slot i of the table at path p points to, put there
     first if the slot is absent.  No translation changes either way, and the slot ends up writable.
     */
    method NextTable(table: nat, i: nat, ghost p: Path) returns (r: Outcome<nat>)
      requires Structured() && p in st.node && st.node[p] == table && |p| < 3 && i < SLOTS
      modifies this`mem, this`st, pfa`freeMemory, pfa`usedMemory, pfa`bitmapIdx, pfa`obtained, pfa.bitmap.Buffer
      ensures r.Panicked? <==> p + [i] !in old(st.node) && old(pfa.freeMemory) < GUARD
      ensures r.Returned? ==> Structured() && p + [i] in st.node && st.node[p + [i]] == r.value
      ensures r.Returned? ==> AddsAtMost(old(st), st, old(pfa.obtained), pfa.obtained, p + [i])
      ensures r.Returned? ==>
                pfa.freeMemory == old(pfa.freeMemory) - if p + [i] in old(st.node) then 0 else 4096
      ensures r.Returned? ==> table in mem && i < |mem[table]| && Writable(mem[table][i])
      ensures r.Panicked? ==> st == old(st)
    {
      hide Inv, Tree, UnpackAll, SameTranslation, FrameOf, GetFlag, GoodWords, Writable;
      ReadSlot(st, mem, p, i);
      GoodAt(mem, st.node, p, i);
      var PDE := mem[table][i];
      if !GetFlag(PDE, Present) {
        var f := pfa.Obtain();
        if f.Panicked? {
          return Panicked;
        }
        LinkTable(table, i, f.value, p);
        return Returned(f.value);
      } else {
        PresentIsWritable(PDE);
        return Returned(FrameOf(PDE));
      }
    }

    /** One level of the descent to the page at path t, on top of the k levels already done. */
    method Level(table: nat, i: nat, ghost t: Path, ghost k: nat,
                 ghost s0: PageState, ghost o0: set<nat>, ghost f0: nat)
        returns (r: Outcome<nat>)
      requires Structured() && k < 3 && k < |t| && i < SLOTS && t[..k + 1] == t[..k] + [i]
      requires t[..k] in st.node && st.node[t[..k]] == table && s0.node.Values <= o0
      requires Grown(s0, st, o0, pfa.obtained, t, k) && st.mapped == s0.mapped && SameTranslation(s0, st)
      requires f0 == pfa.freeMemory + 4096 * Missing(s0.node, t, k) && Affordable(f0, Missing(s0.node, t, k))
      modifies this`mem, this`st, pfa`freeMemory, pfa`usedMemory, pfa`bitmapIdx, pfa`obtained, pfa.bitmap.Buffer
      ensures r.Panicked? ==> t[..k + 1] !in s0.node && !Affordable(f0, Missing(s0.node, t, k + 1))
      ensures r.Returned? ==> Structured() && t[..k + 1] in st.node && st.node[t[..k + 1]] == r.value
      ensures r.Returned? ==> Grown(s0, st, o0, pfa.obtained, t, k + 1)
      ensures st.mapped == s0.mapped && SameTranslation(s0, st)
      ensures r.Returned? ==> f0 == pfa.freeMemory + 4096 * Missing(s0.node, t, k + 1)
                              && Affordable(f0, Missing(s0.node, t, k + 1))
    {
      hide Inv, Tree, UnpackAll, Grown, SameTranslation, GoodWords;
      ghost var s1, o1 := st, pfa.obtained;
      AlreadyThere(s0, s1, o0, o1, t, k);
      r := NextTable(table, i, t[..k]);
      if r.Returned? {
        GrowOneLevel(s0, s1, st, o0, o1, pfa.obtained, t, k);
      }
    }

    /** The three levels above the last: the frame of the last-level table for a page. */
    method Descend(ix: PageMapIndexer, ghost t: Path) returns (r: Outcome<nat>)
      requires Structured() && InRange(ix) && t == [ix.PDP_i, ix.PD_i, ix.PT_i, ix.P_i]
      modifies this`mem, this`st, pfa`freeMemory, pfa`usedMemory, pfa`bitmapIdx, pfa`obtained, pfa.bitmap.Buffer
      ensures r.Returned? <==> Affordable(old(pfa.freeMemory), Missing(old(st.node), t, 3))
      ensures st.mapped == old(st.mapped) && SameTranslation(old(st), st)
      ensures r.Returned? ==> Structured() && t[..3] in st.node && st.node[t[..3]] == r.value
      ensures r.Returned? ==> Grown(old(st), st, old(pfa.obtained), pfa.obtained, t, 3)
      ensures r.Returned? ==> pfa.freeMemory == old(pfa.freeMemory) - 4096 * Missing(old(st.node), t, 3)
    {
      hide Inv, Tree, Grown, SameTranslation, UnpackAll, GoodWords;
      ghost var s0, o0, f0 := st, pfa.obtained, pfa.freeMemory;
      PathSteps(ix, t);
      GrowNothing(s0, o0, t);
      var PDP := Level(root, ix.PDP_i, t, 0, s0, o0, f0);
      if PDP.Panicked? {
        return Panicked;
      }
      var PD := Level(PDP.value, ix.PD_i, t, 1, s0, o0, f0);
      if PD.Panicked? {
        return Panicked;
      }
      r := Level(PD.value, ix.PT_i, t, 2, s0, o0, f0);
    }

    /**
     Maps a page.  The translation afterwards is the old one with exactly the page of `virt` sent to
     the frame of `phys`; the tables on the way are created in frames nobody held, and one frame is
     spent on each that was missing.  All four entries of the page are then writable.  It panics exactly
     when those frames are not to be had.
     */
    method MapMemory(virt: nat, phys: nat) returns (r: Outcome<()>)
      requires Valid() && phys < U64
      modifies this`mem, this`st, pfa`freeMemory, pfa`usedMemory, pfa`bitmapIdx, pfa`obtained, pfa.bitmap.Buffer
      ensures r.Returned? <==> Affordable(old(pfa.freeMemory), Missing(old(st.node), PathOf(virt), 3))
      ensures r.Panicked? ==> SameTranslation(old(st), st)
      ensures r.Returned? ==> Valid() && st.mapped == old(st.mapped) + {PathOf(virt)}
      ensures r.Returned? ==> UpdatesOne(old(st), st, PathOf(virt), KeptBits(phys / 4096))
      ensures r.Returned? ==> Grown(old(st), st, old(pfa.obtained), pfa.obtained, PathOf(virt), 3)
      ensures r.Returned? ==> pfa.freeMemory == old(pfa.freeMemory) - 4096 * Missing(old(st.node), PathOf(virt), 3)
      ensures r.Returned? ==> WritableWalk(mem, root, PathOf(virt))
    {
      hide *;
      PathOfIndexer(virt);
      var indexer := IndexerFrom(virt);
      r := MapAt(indexer, phys, PathOf(virt));
    }

    /** Mapping, with the address already taken apart. */
    method MapAt(ix: PageMapIndexer, phys: nat, ghost t: Path) returns (r: Outcome<()>)
      requires Valid() && phys < U64 && InRange(ix) && t == [ix.PDP_i, ix.PD_i, ix.PT_i, ix.P_i]
      modifies this`mem, this`st, pfa`freeMemory, pfa`usedMemory, pfa`bitmapIdx, pfa`obtained, pfa.bitmap.Buffer
      ensures r.Returned? <==> Affordable(old(pfa.freeMemory), Missing(old(st.node), t, 3))
      ensures r.Panicked? ==> SameTranslation(old(st), st)
      ensures r.Returned? ==> Valid() && st.mapped == old(st.mapped) + {t}
      ensures r.Returned? ==> UpdatesOne(old(st), st, t, KeptBits(phys / 4096))
      ensures r.Returned? ==> Grown(old(st), st, old(pfa.obtained), pfa.obtained, t, 3)
      ensures r.Returned? ==> pfa.freeMemory == old(pfa.freeMemory) - 4096 * Missing(old(st.node), t, 3)
      ensures r.Returned? ==> WritableWalk(mem, root, t)
    {
      hide Inv, Tree, UnpackAll, UpdatesOne, SameTranslation, Grown, Needed, Missing, Affordable;
      hide FlagsOfLink, KeptBits, Store, GoodWords, Writable, WritableWalk, IsLeaf;
      ghost var s0, o0 := st, pfa.obtained;
      var PT := Descend(ix, t);
      if PT.Panicked? {
        return Panicked;
      }
      ghost var s1 := st;
      PathSteps(ix, t);
      WritePage(PT.value, ix.P_i, phys, t[..3]);
      UpdateAfterSame(s0, s1, st, t, KeptBits(phys / 4096));
      NeededAgain(s0, s1, st, o0, pfa.obtained, t, 3);
      GrownByNode(s0, s1, st, o0, pfa.obtained, t, 3);
      UpdatedIsWritable(s0, st, mem, t, KeptBits(phys / 4096));
      return Returned(());
    }

    /**
     A map call whose physical page is requested on the spot, as the heap makes it.  The page gets a
     frame that nobody held, which is not a page-table frame, and no frame held before becomes one.
     */
    method MapFresh(virt: nat) returns (r: Outcome<nat>)
      requires Valid()
      modifies this`mem, this`st, pfa`freeMemory, pfa`usedMemory, pfa`bitmapIdx, pfa`obtained, pfa.bitmap.Buffer
      ensures r.Returned? <==> Affordable(old(pfa.freeMemory), 1 + Missing(old(st.node), PathOf(virt), 3))
      ensures r.Returned? ==> Valid() && UpdatesOne(old(st), st, PathOf(virt), r.value)
      ensures r.Returned? ==> WritableWalk(mem, root, PathOf(virt))
      ensures r.Returned? ==> r.value !in old(pfa.obtained) && old(pfa.obtained) + {r.value} <= pfa.obtained
      ensures r.Returned? ==> r.value !in st.node.Values
      ensures r.Returned? ==> forall g :: g in old(pfa.obtained) && g in st.node.Values ==> g in old(st.node.Values)
      ensures r.Returned? ==>
                pfa.freeMemory == old(pfa.freeMemory) - 4096 * (1 + Missing(old(st.node), PathOf(virt), 3))
    {
      hide Inv, Tree, UnpackAll, UpdatesOne, Needed, PathOf, Missing, Grown, KeptBits, ScanFrom, GoodWords;
      hide WritableWalk;
      r := pfa.Obtain();
      if r.Panicked? {
        return;
      }
      ghost var s0, o0 := st, pfa.obtained;
      var done := MapMemory(virt, r.value * 4096);
      if done.Panicked? {
        return Panicked;
      }
      NoOldFrame(s0, st, o0, pfa.obtained, PathOf(virt), 3);
    }

    /** Any run of map calls: the last request for a page decides, and other pages keep their translation. */
    method MapAll(requests: seq<Request>) returns (r: Outcome<()>)
      requires Valid() && InWord(requests)
      modifies this`mem, this`st, pfa`freeMemory, pfa`usedMemory, pfa`bitmapIdx, pfa`obtained, pfa.bitmap.Buffer
      ensures r.Returned? ==> Valid() && st.mapped == old(st.mapped) + PagesOf(requests)
      ensures r.Returned? ==> Replays(old(st), st, requests)
      ensures r.Returned? ==> pfa.freeMemory == old(pfa.freeMemory) - 4096 * (|st.node| - |old(st.node)|)
    {
      hide Inv, Tree, UnpackAll, UpdatesOne, Replays, Needed, Missing, Affordable, PathOf, GoodWords, WritableWalk;
      ghost var s0 := st;
      ReplayNothing(s0);
      for i := 0 to |requests|
        invariant Valid() && st.mapped == s0.mapped + PagesOf(requests[..i])
        invariant Replays(s0, st, requests[..i])
        invariant pfa.freeMemory == old(pfa.freeMemory) - 4096 * (|st.node| - |s0.node|)
      {
        ghost var s1 := st;
        r := MapMemory(requests[i].virt, requests[i].phys);
        if r.Panicked? {
          return;
        }
        NextRequest(requests, i);
        ReplayOneMore(s0, s1, st, requests[..i], requests[i]);
      }
      assert requests[..|requests|] == requests;
      r := Returned(());
    }

    /**
     The kernel's address space, from nothing: a zeroed root and a run of map calls.  The frames
     spent are one for the root and one for each distinct 9-, 18- and 27-bit index prefix.  A page is
     translated exactly when all four of its entries are writable.
     */
    method BuildAddressSpace(requests: seq<Request>) returns (r: Outcome<()>)
      requires pfa.Valid() && InWord(requests)
      modifies this, pfa`freeMemory, pfa`usedMemory, pfa`bitmapIdx, pfa`obtained, pfa.bitmap.Buffer
      ensures r.Returned? ==> Valid() && st.mapped == PagesOf(requests)
      ensures r.Returned? ==> Realizes(st, requests)
      ensures r.Returned? ==>
                old(pfa.freeMemory) - pfa.freeMemory
                == 4096 * (1 + |Prefixes(PagesOf(requests), 1)| + |Prefixes(PagesOf(requests), 2)|
                             + |Prefixes(PagesOf(requests), 3)|)
      ensures r.Returned? ==> AllWritable(mem, st)
    {
      hide Inv, Tree, UnpackAll, Needed, PathOf, Prefixes, GoodWords, WritableWalk;
      r := InitPaging();
      if r.Panicked? {
        return;
      }
      ghost var s0 := st;
      r := MapAll(requests);
      if r.Returned? {
        TableCount(st);
        PagesAreWritable(mem, st);
        forall t | IsLeaf(t)
          ensures Walk(st.mem, st.root, t) == LastMap(requests, t)
        {
          WalkLeaf(s0, t);
        }
      }
    }

    /** The last-level store. */
    method WritePage(table: nat, i: nat, phys: nat, ghost p: Path)
      requires st.root == root && st.mem == UnpackAll(mem) && Tree(st) && GoodWords(mem, st.node) && phys < U64
      requires p in st.node && st.node[p] == table && |p| == 3 && i < SLOTS
      modifies this`mem, this`st
      ensures st == Store(old(st), p, i, KeptBits(phys / 4096)) && st.mem == UnpackAll(mem)
      ensures st.root == root && st.node == old(st.node) && st.mapped == old(st.mapped) + {p + [i]}
      ensures Tree(st) && UpdatesOne(old(st), st, p + [i], KeptBits(phys / 4096))
      ensures GoodWords(mem, st.node) && Writable(mem[table][i])
      ensures FlagsOfLink(mem[table][i], old(mem[table][i]))
    {
      hide GoodWords, Writable;
      GoodAt(mem, st.node, p, i);
      StoreKeepsTree(st, p, i, KeptBits(phys / 4096));
      StoreUpdatesOne(st, p, i, KeptBits(phys / 4096));
      var PDE := LinkEntry(mem[table][i], phys / 4096);
      UnpackStore(mem, table, i, PDE);
      StoreGood(mem, st.node, table, i, PDE);
      mem := mem[table := mem[table][i := PDE]];
      st := Store(st, p, i, KeptBits(phys / 4096));
      assert GetFlag(mem[table][i], Present);   // so the "mapping failure" panic cannot happen
    }

    /** Clears a new table and links it into an absent slot. */
    method LinkTable(table: nat, i: nat, child: nat, ghost p: Path)
      requires st.root == root && st.mem == UnpackAll(mem) && Tree(st) && GoodWords(mem, st.node)
      requires CanInstall(st, p, i, child) && st.node[p] == table && child < FRAME_LIMIT
      modifies this`mem, this`st
      ensures st == Install(old(st), p, i, child) && st.mem == UnpackAll(mem)
      ensures Tree(st) && SameTranslation(old(st), st)
      ensures GoodWords(mem, st.node) && table in mem && i < |mem[table]| && Writable(mem[table][i])
    {
      hide GoodWords, Writable;
      GoodAt(mem, st.node, p, i);
      InstallKeepsTree(st, p, i, child);
      InstallKeepsTranslation(st, p, i, child);
      var PDE := LinkEntry(mem[table][i], child);
      ghost var cleared := st.mem[child := EmptyTable()];
      UnpackClear(mem, child);
      ClearGood(mem, st.node, p + [i], child);
      mem := mem[child := ZeroTable()];
      assert UnpackAll(mem) == cleared;
      UnpackStore(mem, table, i, PDE);
      StoreGood(mem, st.node[p + [i] := child], table, i, PDE);
      mem := mem[table := mem[table][i := PDE]];
      assert UnpackAll(mem) == WithSlot(cleared, table, i, Slot(true, child));
      st := Install(st, p, i, child);
      assert GetFlag(mem[table][i], Present);   // so the "mapping failure" panic cannot happen
    }
  }
}
