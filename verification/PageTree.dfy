/**
 The four-level page table as a tree.  A table is 512 slots; a path is a list of slot indices from
 the root.  `node` says which frame holds the table at each path of length 0 to 3, and `mapped`
 which paths of length 4 have been given a page.  The lemmas say what the two kinds of store that
 the mapper makes do to the walk: hanging in an empty table changes no translation, and writing a
 last-level slot changes exactly one.
 */
module PageTree {
  import opened Outcomes

  const SLOTS: nat := 512

  datatype Slot = Slot(present: bool, frame: nat)

  type Path = seq<nat>

  type Tables = map<nat, seq<Slot>>

  datatype PageState = PageState(mem: Tables, root: nat, node: map<Path, nat>, mapped: set<Path>)

  predicate IsPath(p: Path) {
    forall k :: 0 <= k < |p| ==> p[k] < SLOTS
  }

  predicate IsLeaf(t: Path) {
    |t| == 4 && IsPath(t)
  }

  function EmptyTable(): seq<Slot> {
    seq(SLOTS, _ => Slot(false, 0))
  }

  /** The hardware walk: follow present slots from the table in frame f. */
  function Walk(mem: Tables, f: nat, path: Path): Option<nat>
    decreases |path|
  {
    if path == [] then Some(f)
    else if f in mem && path[0] < |mem[f]| && mem[f][path[0]].present
    then Walk(mem, mem[f][path[0]].frame, path[1..])
    else None
  }

  // ---------- the invariant ----------

  ghost predicate SlotOk(st: PageState, p: Path, i: nat)
    requires p in st.node && st.node[p] in st.mem && i < |st.mem[st.node[p]]|
  {
    var s := st.mem[st.node[p]][i];
    if |p| < 3 then
      (s.present <==> p + [i] in st.node) && (s.present ==> s.frame == st.node[p + [i]])
    else
      s.present <==> p + [i] in st.mapped
  }

  /** Tables sit at paths of length at most 3, one frame each, and every table on the way to a table exists. */
  ghost predicate Shaped(st: PageState) {
    && [] in st.node && st.node[[]] == st.root
    && (forall p :: p in st.node ==>
          |p| <= 3 && IsPath(p) && st.node[p] in st.mem && |st.mem[st.node[p]]| == SLOTS)
    && (forall p, k :: p in st.node && 0 <= k <= |p| ==> p[..k] in st.node)
    && (forall p, q :: p in st.node && q in st.node && st.node[p] == st.node[q] ==> p == q)
  }

  ghost predicate Tree(st: PageState) {
    && Shaped(st)
    && (forall p, i :: p in st.node && 0 <= i < SLOTS ==> SlotOk(st, p, i))
    && (forall t :: t in st.mapped ==> IsLeaf(t) && t[..3] in st.node)
  }

  /** A fresh zeroed root is a tree that maps nothing. */
  lemma EmptyTree(mem: Tables, root: nat)
    requires root in mem && mem[root] == EmptyTable()
    ensures Tree(PageState(mem, root, map[[] := root], {}))
  {
  }

  // ---------- what the walk computes ----------

  /** What a walk along a path of length at most 4 must give. */
  ghost function Target(st: PageState, t: Path): Option<nat>
    requires Tree(st)
  {
    if t in st.node then Some(st.node[t])
    else if t in st.mapped then Some(st.mem[st.node[t[..3]]][t[3]].frame)
    else None
  }

  lemma {:induction false} WalkFrom(st: PageState, p: Path, q: Path)
    requires Tree(st) && p in st.node && IsPath(q) && |p| + |q| <= 4
    ensures Walk(st.mem, st.node[p], q) == Target(st, p + q)
    decreases |q|
  {
    if q == [] {
      assert p + q == p;
    } else {
      var i, rest := q[0], q[1..];
      var t := p + q;
      assert SlotOk(st, p, i);
      assert t[..|p| + 1] == p + [i];
      if |p| == 3 {
        assert t == p + [i] && t[..3] == p;
      } else if st.mem[st.node[p]][i].present {
        assert (p + [i]) + rest == t;
        WalkFrom(st, p + [i], rest);
      } else {
        NothingBelow(st, t, |p| + 1);
      }
    }
  }

  /** Where a table is missing on the way, there is neither a table nor a mapped page further down. */
  lemma NothingBelow(st: PageState, t: Path, k: nat)
    requires Tree(st) && k <= |t| && k <= 3 && t[..k] !in st.node
    ensures t !in st.node && t !in st.mapped
  {
    if t in st.mapped {
      MappedPrefix(st, t, k);
    }
  }

  /** All tables on the way to a mapped page exist. */
  lemma MappedPrefix(st: PageState, t: Path, k: nat)
    requires Tree(st) && t in st.mapped && k <= 3
    ensures t[..k] in st.node
  {
    assert t[..3][..k] == t[..k];
  }

  /**
   Every table is reached by exactly one path: the walk along a path of length at most 3 arrives
   exactly when a table sits there, and no two such paths arrive at the same frame.
   */
  lemma TablesFormATree(st: PageState, p: Path, q: Path)
    requires Tree(st) && IsPath(p) && IsPath(q) && |p| <= 3 && |q| <= 3
    ensures Walk(st.mem, st.root, p) == if p in st.node then Some(st.node[p]) else None
    ensures Walk(st.mem, st.root, p).Some? && Walk(st.mem, st.root, p) == Walk(st.mem, st.root, q) ==> p == q
  {
    WalkFrom(st, [], p);
    WalkFrom(st, [], q);
    assert [] + p == p && [] + q == q;
  }

  /** A page is translated exactly when it is mapped, to the frame in its last-level slot. */
  lemma WalkLeaf(st: PageState, t: Path)
    requires Tree(st) && IsLeaf(t)
    ensures Walk(st.mem, st.root, t)
            == if t in st.mapped then Some(st.mem[st.node[t[..3]]][t[3]].frame) else None
  {
    WalkFrom(st, [], t);
    assert [] + t == t;
  }

  // ---------- the two stores ----------

  function WithSlot(mem: Tables, f: nat, i: nat, s: Slot): Tables
    requires f in mem && i < |mem[f]|
  {
    mem[f := mem[f][i := s]]
  }

  /** Frame f is cleared and becomes the table at path p + [i]. */
  ghost function Install(st: PageState, p: Path, i: nat, f: nat): PageState
    requires p in st.node && st.node[p] in st.mem && i < |st.mem[st.node[p]]| && f != st.node[p]
  {
    st.(mem := WithSlot(st.mem[f := EmptyTable()], st.node[p], i, Slot(true, f)), node := st.node[p + [i] := f])
  }

  /** The page at path p + [i] is given frame g. */
  ghost function Store(st: PageState, p: Path, i: nat, g: nat): PageState
    requires p in st.node && st.node[p] in st.mem && i < |st.mem[st.node[p]]|
  {
    st.(mem := WithSlot(st.mem, st.node[p], i, Slot(true, g)), mapped := st.mapped + {p + [i]})
  }

  ghost predicate CanInstall(st: PageState, p: Path, i: nat, f: nat) {
    p in st.node && |p| < 3 && i < SLOTS && p + [i] !in st.node && f !in st.node.Values
  }

  lemma SameStep(p: Path, i: nat, q: Path, j: nat)
    ensures p + [i] == q + [j] <==> p == q && i == j
  {
    if p + [i] == q + [j] {
      assert p == (p + [i])[..|p|] && q == (q + [j])[..|q|];
      assert i == (p + [i])[|p|];
    }
  }

  /** Hanging an empty table into an absent slot keeps the tree and grows it by that one table. */
  lemma InstallKeepsTree(st: PageState, p: Path, i: nat, f: nat)
    requires Tree(st) && CanInstall(st, p, i, f)
    ensures Tree(Install(st, p, i, f))
  {
    var st' := Install(st, p, i, f);
    InstallKeepsShape(st, p, i, f);
    forall q, j | q in st'.node && 0 <= j < SLOTS
      ensures SlotOk(st', q, j)
    {
      if q == p + [i] {
        FreshTableSlot(st, q, j);
      } else {
        assert SlotOk(st, q, j);
        InstallOldSlot(st, p, i, f, q, j);
      }
    }
  }

  lemma InstallOldSlot(st: PageState, p: Path, i: nat, f: nat, q: Path, j: nat)
    requires p in st.node && q in st.node && st.node[p] in st.mem && st.node[q] in st.mem
    requires |p| < 3 && i < |st.mem[st.node[p]]| && j < |st.mem[st.node[q]]|
    requires st.node[p] == st.node[q] ==> p == q
    requires f != st.node[p] && f != st.node[q] && p + [i] !in st.node
    requires SlotOk(st, q, j)
    ensures SlotOk(Install(st, p, i, f), q, j)
  {
    SameStep(p, i, q, j);
    assert q != p + [i];
  }

  lemma InstallKeepsShape(st: PageState, p: Path, i: nat, f: nat)
    requires Shaped(st) && CanInstall(st, p, i, f)
    ensures Shaped(Install(st, p, i, f))
  {
    var st' := Install(st, p, i, f);
    forall q, k | q in st'.node && 0 <= k <= |q|
      ensures q[..k] in st'.node
    {
      if q == p + [i] && k <= |p| {
        assert q[..k] == p[..k];
      } else if q == p + [i] {
        assert q[..k] == q;
      }
    }
  }

  /** Below a table that did not exist nothing was mapped. */
  lemma FreshTableSlot(st: PageState, q: Path, j: nat)
    requires Tree(st) && q !in st.node && |q| <= 3
    ensures q + [j] !in st.node && q + [j] !in st.mapped
  {
    assert (q + [j])[..|q|] == q;
    NothingBelow(st, q + [j], |q|);
  }

  ghost predicate SameTranslation(st: PageState, st': PageState) {
    forall t :: IsLeaf(t) ==> Walk(st'.mem, st'.root, t) == Walk(st.mem, st.root, t)
  }

  /** Hanging in an empty table changes no translation. */
  lemma InstallKeepsTranslation(st: PageState, p: Path, i: nat, f: nat)
    requires Tree(st) && CanInstall(st, p, i, f)
    ensures SameTranslation(st, Install(st, p, i, f))
  {
    var st' := Install(st, p, i, f);
    InstallKeepsTree(st, p, i, f);
    forall t | IsLeaf(t)
      ensures Walk(st'.mem, st'.root, t) == Walk(st.mem, st.root, t)
    {
      WalkLeaf(st, t);
      WalkLeaf(st', t);
    }
  }

  /** Writing a last-level slot keeps the tree and maps that one page. */
  lemma StoreKeepsTree(st: PageState, p: Path, i: nat, g: nat)
    requires Tree(st) && p in st.node && |p| == 3 && i < SLOTS
    ensures Tree(Store(st, p, i, g))
  {
    var st' := Store(st, p, i, g);
    assert (p + [i])[..3] == p;
    forall q, j | q in st'.node && 0 <= j < SLOTS
      ensures SlotOk(st', q, j)
    {
      StoreSlot(st, p, i, g, q, j);
    }
  }

  lemma StoreSlot(st: PageState, p: Path, i: nat, g: nat, q: Path, j: nat)
    requires Tree(st) && p in st.node && |p| == 3 && i < SLOTS && q in st.node && j < SLOTS
    ensures SlotOk(Store(st, p, i, g), q, j)
  {
    assert SlotOk(st, q, j);
    SameStep(p, i, q, j);
  }

  /** The translation of st' is that of st with one page changed. */
  ghost predicate UpdatesOne(st: PageState, st': PageState, page: Path, g: nat) {
    forall t :: IsLeaf(t) ==>
      Walk(st'.mem, st'.root, t) == if t == page then Some(g) else Walk(st.mem, st.root, t)
  }

  /** Writing a last-level slot changes the translation of that page and of no other. */
  lemma StoreUpdatesOne(st: PageState, p: Path, i: nat, g: nat)
    requires Tree(st) && p in st.node && |p| == 3 && i < SLOTS
    ensures UpdatesOne(st, Store(st, p, i, g), p + [i], g)
  {
    var st' := Store(st, p, i, g);
    StoreKeepsTree(st, p, i, g);
    assert (p + [i])[..3] == p;
    forall t | IsLeaf(t)
      ensures Walk(st'.mem, st'.root, t) == if t == p + [i] then Some(g) else Walk(st.mem, st.root, t)
    {
      WalkLeaf(st, t);
      WalkLeaf(st', t);
      if t in st'.mapped {
        StoredSlot(st, p, i, g, t);
      }
    }
  }

  lemma StoredSlot(st: PageState, p: Path, i: nat, g: nat, t: Path)
    requires Shaped(st) && p in st.node && |p| == 3 && i < SLOTS
    requires IsLeaf(t) && t[..3] in st.node
    ensures Store(st, p, i, g).mem[st.node[t[..3]]][t[3]]
            == if t == p + [i] then Slot(true, g) else st.mem[st.node[t[..3]]][t[3]]
  {
    assert t == t[..3] + [t[3]];
    SameStep(p, i, t[..3], t[3]);
  }

  // ---------- how many tables ----------

  /** Every table but the root lies on the way to a mapped page. */
  ghost predicate Needed(st: PageState) {
    forall p :: p in st.node && p != [] ==> exists t :: t in st.mapped && p <= t
  }

  /** The distinct prefixes of length k (9 k bits of the address) among the mapped pages. */
  ghost function Prefixes(mapped: set<Path>, k: nat): set<Path> {
    set t | t in mapped && k <= |t| :: t[..k]
  }

  /**
   The exact cost: with nothing but map calls, the tables below the root are as many as there are
   distinct one-, two- and three-index prefixes among the mapped pages.
   */
  lemma TableCount(st: PageState)
    requires Tree(st) && Needed(st)
    ensures |st.node| == 1 + |Prefixes(st.mapped, 1)| + |Prefixes(st.mapped, 2)| + |Prefixes(st.mapped, 3)|
  {
    forall t | t in st.mapped
      ensures HasPrefixes(st.node, t)
    {
      MappedPrefix(st, t, 1);
      MappedPrefix(st, t, 2);
    }
    CountByPrefix(st);
  }

  lemma TableIsPrefix(st: PageState, p: Path)
    requires Needed(st) && p in st.node && p != []
    ensures p in Prefixes(st.mapped, |p|)
  {
    var t :| t in st.mapped && p <= t;
    assert t[..|p|] == p;
  }

  ghost predicate HasPrefixes(node: map<Path, nat>, t: Path) {
    |t| == 4 && t[..1] in node && t[..2] in node && t[..3] in node
  }

  lemma CountByPrefix(st: PageState)
    requires [] in st.node && (forall p :: p in st.node ==> |p| <= 3) && Needed(st)
    requires forall t :: t in st.mapped ==> HasPrefixes(st.node, t)
    ensures |st.node| == 1 + |Prefixes(st.mapped, 1)| + |Prefixes(st.mapped, 2)| + |Prefixes(st.mapped, 3)|
  {
    var p0: set<Path> := {[]};
    var p1, p2, p3 := Prefixes(st.mapped, 1), Prefixes(st.mapped, 2), Prefixes(st.mapped, 3);
    var all := p0 + p1 + p2 + p3;
    forall p | p in st.node.Keys
      ensures p in all
    {
      if p != [] {
        TableIsPrefix(st, p);
        assert |p| == 1 || |p| == 2 || |p| == 3;
      }
    }
    assert p1 <= st.node.Keys && p2 <= st.node.Keys && p3 <= st.node.Keys;
    assert st.node.Keys == all;
    SizeByLength(p0, p1, p2, p3);
  }

  ghost predicate AllOfLength(s: set<Path>, n: nat) {
    forall p :: p in s ==> |p| == n
  }

  lemma SizeByLength(a: set<Path>, b: set<Path>, c: set<Path>, d: set<Path>)
    requires AllOfLength(a, 0) && AllOfLength(b, 1) && AllOfLength(c, 2) && AllOfLength(d, 3)
    ensures |a + b + c + d| == |a| + |b| + |c| + |d|
  {
    assert a !! b;
    assert a + b !! c;
    assert a + b + c !! d;
  }
}
