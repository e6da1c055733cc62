/** Physical memory as the kernel divides it up: free pages, page-table pages, and page
    frames in use, some of which belong to one page of one address space (vm.c, kalloc.c). */
module VmState {
  import opened PageTable
  type Byte = x: int | 0 <= x < 256
  type Frame = f: seq<Byte> | |f| == PGSIZE witness seq(PGSIZE, _ => 0)

  datatype Spot = Spot(root: int, v: int)

  /** frames holds every allocated page that is not a page table; uown says which of these
      are user memory, and of which page of which address space. */
  datatype Space = Space(free: seq<int>, tables: Tables, frames: map<int, Frame>,
                         own: map<int, Place>, uown: map<int, Spot>)

  // ----- conservation -------------------------------------------------------------------

  ghost predicate Unique(s: seq<int>) {
    forall i, j | 0 <= i < j < |s| :: s[i] != s[j]
  }

  ghost predicate IsFree(s: Space, p: int) { p in s.free }

  ghost predicate PartOk(s: Space, pages: set<int>, p: int) {
    && (p in pages <==> IsFree(s, p) || p in s.tables || p in s.frames)
    && (IsFree(s, p) ==> p !in s.tables && p !in s.frames)
    && (p in s.tables ==> p !in s.frames)
  }

  /** Free pages, table pages and frames partition the pages there are. */
  ghost predicate Partition(s: Space, pages: set<int>) {
    Unique(s.free) && 0 !in pages && forall p :: PartOk(s, pages, p)
  }

  // ----- user memory --------------------------------------------------------------------

  ghost predicate OwnedAt(s: Space, r: int, v: int) {
    LeafAt(s.tables, r, v).ppn in s.uown && s.uown[LeafAt(s.tables, r, v).ppn] == Spot(r, v)
  }

  ghost predicate SpotFits(s: Space, f: int, sp: Spot) {
    && IsRoot(s.own, sp.root) && 0 <= sp.v < MAXVPN
    && V(LeafAt(s.tables, sp.root, sp.v)) && LeafAt(s.tables, sp.root, sp.v).ppn == f
  }

  ghost predicate SpotOk(s: Space, f: int) {
    f in s.uown ==> f in s.frames && SpotFits(s, f, s.uown[f])
  }

  /** A page that user code can reach is user memory of that page alone. */
  ghost predicate PageOk(s: Space, r: int, v: int) {
    V(LeafAt(s.tables, r, v)) && U(LeafAt(s.tables, r, v)) ==> OwnedAt(s, r, v)
  }

  ghost predicate Users(s: Space) {
    && (forall f :: SpotOk(s, f))
    && (forall r, v | IsRoot(s.own, r) && 0 <= v < MAXVPN :: PageOk(s, r, v))
  }

  ghost predicate Inv(s: Space, pages: set<int>) {
    Partition(s, pages) && Tree(s.tables, s.own) && Users(s)
  }

  /** Pages [a, a + n) of r are user memory. */
  ghost predicate Backed(s: Space, r: int, a: int, n: int) {
    forall v | a <= v < a + n :: V(LeafAt(s.tables, r, v)) && OwnedAt(s, r, v)
  }

  ghost predicate Unmapped(s: Space, r: int, a: int, n: int) {
    forall v | a <= v < a + n :: LeafAt(s.tables, r, v) == NOPTE
  }

  /** No two user pages share a frame. */
  lemma NoSharedFrame(s: Space, r: int, v: int, r': int, v': int)
    requires Users(s) && IsRoot(s.own, r) && IsRoot(s.own, r') && 0 <= v < MAXVPN && 0 <= v' < MAXVPN
    requires V(LeafAt(s.tables, r, v)) && U(LeafAt(s.tables, r, v))
    requires V(LeafAt(s.tables, r', v')) && U(LeafAt(s.tables, r', v'))
    requires LeafAt(s.tables, r, v).ppn == LeafAt(s.tables, r', v').ppn
    ensures r == r' && v == v'
  {
    assert PageOk(s, r, v) && PageOk(s, r', v');
  }

  // ----- growing the tables ---------------------------------------------------------------

  /** The roots are the same, and so is what they map. */
  ghost predicate SameRoots(own: map<int, Place>, own': map<int, Place>) {
    forall r :: IsRoot(own, r) <==> IsRoot(own', r)
  }

  ghost predicate SameMaps(s: Space, t: Space) {
    && SameRoots(s.own, t.own)
    && forall r, v | IsRoot(s.own, r) && 0 <= v < MAXVPN :: LeafAt(t.tables, r, v) == LeafAt(s.tables, r, v)
  }

  lemma SameMapsTransitive(s: Space, t: Space, u: Space)
    requires SameMaps(s, t) && SameMaps(t, u)
    ensures SameMaps(s, u)
  {
    forall r, v | IsRoot(s.own, r) && 0 <= v < MAXVPN ensures LeafAt(u.tables, r, v) == LeafAt(s.tables, r, v) {
      assert LeafAt(t.tables, r, v) == LeafAt(s.tables, r, v);
    }
  }

  /** The same frames are in use, with the same contents and owners. */
  ghost predicate SameUse(s: Space, t: Space) {
    && (forall f :: f in t.frames <==> f in s.frames)
    && (forall f | f in s.frames :: t.frames[f] == s.frames[f])
    && (forall f :: f in t.uown <==> f in s.uown)
    && (forall f | f in s.uown :: t.uown[f] == s.uown[f])
  }

  lemma SameMapsUsers(s: Space, t: Space)
    requires Users(s) && SameMaps(s, t) && SameUse(s, t)
    ensures Users(t)
  {
    forall f ensures SpotOk(t, f) {
      assert SpotOk(s, f);
    }
    forall r, v | IsRoot(t.own, r) && 0 <= v < MAXVPN ensures PageOk(t, r, v) {
      assert PageOk(s, r, v);
    }
  }

  /** The page c, just allocated, becomes a cleared table under entry k of t. */
  function AddTable(s: Space, t: int, k: int, c: int): Space
    requires t in s.tables && t in s.own && 0 <= k < NPTE
  {
    Space(s.free, Grow(s.tables, t, k, c), s.frames - {c}, GrowOwn(s.own, t, k, c), s.uown)
  }

  lemma AddTableKept(s: Space, pages: set<int>, t: int, k: int, c: int)
    requires Partition(s, pages) && Growable(s.tables, s.own, t, k, c) && c in s.frames
    ensures Partition(AddTable(s, t, k, c), pages) && Tree(AddTable(s, t, k, c).tables, AddTable(s, t, k, c).own)
    ensures SameMaps(s, AddTable(s, t, k, c))
  {
    GrowTree(s.tables, s.own, t, k, c);
    var s' := AddTable(s, t, k, c);
    forall p ensures PartOk(s', pages, p) {
      assert PartOk(s, pages, p) && PartOk(s, pages, c);
    }
    assert PlaceOk(s.tables, s.own, t);
    assert SameRoots(s.own, s'.own);
    forall r, v | IsRoot(s.own, r) && 0 <= v < MAXVPN ensures LeafAt(s'.tables, r, v) == LeafAt(s.tables, r, v) {
      GrowLeaves(s.tables, s.own, t, k, c, r, v);
    }
  }

  // ----- writing an entry -----------------------------------------------------------------

  /** Only pages [a, a + n) of root are different, and they are mapped to pa, pa + 1, .. */
  ghost predicate Mapped(s: Space, t: Space, root: int, a: int, n: int, pa: int, flags: int) {
    && SameRoots(s.own, t.own)
    && forall r, v | IsRoot(s.own, r) && 0 <= v < MAXVPN ::
         LeafAt(t.tables, r, v) ==
         if r == root && a <= v < a + n then Pte(pa + v - a, flags) else LeafAt(s.tables, r, v)
  }

  lemma MappedGrown(s: Space, t: Space, u: Space, root: int, a: int, n: int, pa: int, flags: int)
    requires Mapped(s, t, root, a, n, pa, flags) && SameMaps(t, u)
    ensures Mapped(s, u, root, a, n, pa, flags)
  {
    forall r, v | IsRoot(s.own, r) && 0 <= v < MAXVPN
      ensures LeafAt(u.tables, r, v) ==
              if r == root && a <= v < a + n then Pte(pa + v - a, flags) else LeafAt(s.tables, r, v)
    {
      assert LeafAt(u.tables, r, v) == LeafAt(t.tables, r, v);
    }
  }

  function PutLeaf(s: Space, t: int, k: int, e: Pte): Space
    requires t in s.tables && 0 <= k < NPTE
  {
    Space(s.free, SetEntry(s.tables, t, k, e), s.frames, s.own, s.uown)
  }

  /** Entry k of the last-level table t, which the walk for page a + n found, is written. */
  lemma MappedOneMore(s: Space, t: Space, root: int, a: int, n: int, pa: int, flags: int, tab: int)
    requires Mapped(s, t, root, a, n, pa, flags) && Tree(t.tables, t.own) && 0 <= a && 0 <= n && a + n < MAXVPN
    requires tab in t.tables && tab in t.own && t.own[tab].level == 0
      && t.own[tab].root == root && t.own[tab].pre == (a + n) / 512
    requires V(Pte(pa, flags)) && Leaf(Pte(pa, flags))
    ensures var u := PutLeaf(t, tab, PX0(a + n), Pte(pa + n, flags));
            Tree(u.tables, u.own) && Mapped(s, u, root, a, n + 1, pa, flags)
  {
    var e, u := Pte(pa + n, flags), PutLeaf(t, tab, PX0(a + n), Pte(pa + n, flags));
    SetLeaf(t.tables, t.own, tab, PX0(a + n), e);
    Reached(t.tables, t.own, tab);
    assert t.own[tab].pre * 512 + PX0(a + n) == a + n;
    forall r, v | IsRoot(s.own, r) && 0 <= v < MAXVPN
      ensures LeafAt(u.tables, r, v) ==
              if r == root && a <= v < a + n + 1 then Pte(pa + v - a, flags) else LeafAt(s.tables, r, v)
    {
      assert IsRoot(t.own, r);
      assert LeafAt(t.tables, r, v) ==
             if r == root && a <= v < a + n then Pte(pa + v - a, flags) else LeafAt(s.tables, r, v);
    }
  }

  lemma SamePartition(s: Space, t: Space, pages: set<int>)
    requires Partition(s, pages) && t.free == s.free
    requires forall p :: p in t.tables <==> p in s.tables
    requires forall p :: p in t.frames <==> p in s.frames
    ensures Partition(t, pages)
  {
    forall p ensures PartOk(t, pages, p) {
      assert PartOk(s, pages, p);
    }
  }

  // ----- removing pages -------------------------------------------------------------------

  predicate Within(sp: Spot, root: int, a: int, n: int) {
    sp.root == root && a <= sp.v < a + n
  }

  ghost predicate Condemned(s: Space, root: int, a: int, n: int, f: int) {
    f in s.uown && Within(s.uown[f], root, a, n)
  }

  ghost predicate GoneMaps(s: Space, t: Space, root: int, a: int, n: int) {
    && t.own == s.own
    && forall r, v | IsRoot(s.own, r) && 0 <= v < MAXVPN ::
         LeafAt(t.tables, r, v) == if r == root && a <= v < a + n then NOPTE else LeafAt(s.tables, r, v)
  }

  ghost predicate Stays(s: Space, root: int, a: int, n: int, free: bool, f: int) {
    !(free && Condemned(s, root, a, n, f))
  }

  ghost predicate GoneFrames(s: Space, t: Space, root: int, a: int, n: int, free: bool) {
    && (forall f :: f in t.frames <==> f in s.frames && Stays(s, root, a, n, free, f))
    && (forall f | f in t.frames :: t.frames[f] == s.frames[f])
    && (forall f :: f in t.uown <==> f in s.uown && Stays(s, root, a, n, free, f))
    && (forall f | f in t.uown :: t.uown[f] == s.uown[f])
  }

  /** Pages [a, a + n) of root are mapped no more; if their frames were to be freed, then
      these and no others are not in use any more. */
  ghost predicate Gone(s: Space, t: Space, root: int, a: int, n: int, free: bool) {
    GoneMaps(s, t, root, a, n) && GoneFrames(s, t, root, a, n, free)
  }

  /** What uvmunmap needs of its pages: mapped, and user memory exactly if it is to free them. */
  ghost predicate Unmappable(s: Space, root: int, a: int, n: int, free: bool) {
    forall v | a <= v < a + n :: V(LeafAt(s.tables, root, v)) && OwnedAt(s, root, v) == free
  }

  function DropLeaf(s: Space, t: int, v: int, free: bool): Space
    requires t in s.tables
  {
    var f := s.tables[t][PX0(v)].ppn;
    if free then Space([f] + s.free, SetEntry(s.tables, t, PX0(v), NOPTE), s.frames - {f}, s.own, s.uown - {f})
    else Space(s.free, SetEntry(s.tables, t, PX0(v), NOPTE), s.frames, s.own, s.uown)
  }

  lemma DropLeafUsers(s: Space, t: int, v: int, free: bool)
    requires Tree(s.tables, s.own) && Users(s) && 0 <= v < MAXVPN
    requires t in s.tables && t in s.own && s.own[t].level == 0 && s.own[t].pre == v / 512
    requires V(LeafAt(s.tables, s.own[t].root, v)) && OwnedAt(s, s.own[t].root, v) == free
    ensures s.tables[t][PX0(v)] == LeafAt(s.tables, s.own[t].root, v)
    ensures var u, r := DropLeaf(s, t, v, free), s.own[t].root;
            && Tree(u.tables, u.own) && Users(u)
            && (forall x, w | IsRoot(s.own, x) && 0 <= w < MAXVPN ::
                  LeafAt(u.tables, x, w) == if x == r && w == v then NOPTE else LeafAt(s.tables, x, w))
            && forall f | f in s.uown && s.uown[f] == Spot(r, v) :: free && f == s.tables[t][PX0(v)].ppn
  {
    var u, r, e := DropLeaf(s, t, v, free), s.own[t].root, s.tables[t][PX0(v)];
    Reached(s.tables, s.own, t);
    assert s.own[t].pre * 512 + PX0(v) == v;
    SetLeaf(s.tables, s.own, t, PX0(v), NOPTE);
    forall f | f in s.uown && s.uown[f] == Spot(r, v) ensures free && f == e.ppn {
      assert SpotOk(s, f);
    }
    forall f ensures SpotOk(u, f) {
      assert SpotOk(s, f);
    }
    forall x, w | IsRoot(u.own, x) && 0 <= w < MAXVPN ensures PageOk(u, x, w) {
      assert PageOk(s, x, w);
    }
  }

  lemma FramesOneMore(s: Space, t: Space, u: Space, root: int, a: int, n: int, free: bool, p: int)
    requires GoneFrames(s, t, root, a, n, free)
    requires free ==> p in t.uown && t.uown[p] == Spot(root, a + n)
    requires forall f | f in t.uown && t.uown[f] == Spot(root, a + n) :: f == p
    requires u.frames == (if free then t.frames - {p} else t.frames)
      && u.uown == (if free then t.uown - {p} else t.uown)
    requires 0 <= n
    ensures GoneFrames(s, u, root, a, n + 1, free)
  {
    forall f ensures Condemned(s, root, a, n + 1, f) && free <==> free && (Condemned(s, root, a, n, f) || f == p) {
      if Condemned(s, root, a, n + 1, f) && !Condemned(s, root, a, n, f) {
        assert s.uown[f] == Spot(root, a + n);
        assert f in t.uown;
      }
    }
    forall f ensures f in u.frames <==> f in s.frames && Stays(s, root, a, n + 1, free, f) {
      assert f in t.frames <==> f in s.frames && Stays(s, root, a, n, free, f);
    }
    forall f ensures f in u.uown <==> f in s.uown && Stays(s, root, a, n + 1, free, f) {
      assert f in t.uown <==> f in s.uown && Stays(s, root, a, n, free, f);
    }
  }

  lemma GoneOneMore(s: Space, t: Space, root: int, a: int, n: int, free: bool, tab: int)
    requires Gone(s, t, root, a, n, free) && Tree(t.tables, t.own) && Users(t)
    requires 0 <= a && 0 <= n && a + n < MAXVPN
    requires tab in t.tables && tab in t.own && t.own[tab].level == 0
      && t.own[tab].root == root && t.own[tab].pre == (a + n) / 512
    requires V(LeafAt(t.tables, root, a + n)) && OwnedAt(t, root, a + n) == free
    ensures var u := DropLeaf(t, tab, a + n, free);
            Tree(u.tables, u.own) && Users(u) && Gone(s, u, root, a, n + 1, free)
  {
    DropLeafUsers(t, tab, a + n, free);
    var u := DropLeaf(t, tab, a + n, free);
    forall r, v | IsRoot(s.own, r) && 0 <= v < MAXVPN
      ensures LeafAt(u.tables, r, v) == if r == root && a <= v < a + n + 1 then NOPTE else LeafAt(s.tables, r, v)
    {
      assert LeafAt(t.tables, r, v) == if r == root && a <= v < a + n then NOPTE else LeafAt(s.tables, r, v);
    }
    FramesOneMore(s, t, u, root, a, n, free, t.tables[tab][PX0(a + n)].ppn);
  }

  // ----- adding pages ---------------------------------------------------------------------

  /** Page v of root is in a frame of its own that was free in s. */
  ghost predicate NewPage(s: Space, t: Space, root: int, v: int) {
    && V(LeafAt(t.tables, root, v)) && OwnedAt(t, root, v)
    && LeafAt(t.tables, root, v).ppn in t.frames && LeafAt(t.tables, root, v).ppn !in s.frames
  }

  /** Pages [a, a + n) of root have been added to s, each in a new frame; but for them, and
      for tables, nothing is different. */
  ghost predicate Added(s: Space, t: Space, root: int, a: int, n: int) {
    && SameRoots(s.own, t.own)
    && (forall r, v | IsRoot(s.own, r) && 0 <= v < MAXVPN && !(r == root && a <= v < a + n) ::
          LeafAt(t.tables, r, v) == LeafAt(s.tables, r, v))
    && (forall v | a <= v < a + n :: NewPage(s, t, root, v))
    && (forall f | f in s.frames :: f in t.frames && t.frames[f] == s.frames[f])
    && (forall f | f in s.uown :: f in t.uown && t.uown[f] == s.uown[f])
    && (forall f | f in t.frames :: f in s.frames || Condemned(t, root, a, n, f))
    && (forall f | f in t.uown :: f in s.uown || Condemned(t, root, a, n, f))
  }

  /** From t to u: page v of root is mapped to frame p, which was free, and which holds `data`. */
  ghost predicate OnePage(t: Space, u: Space, root: int, v: int, p: int, flags: int, data: Frame) {
    && Mapped(t, u, root, v, 1, p, flags)
    && p !in t.frames && p !in t.uown && u.frames == t.frames[p := data] && u.uown == t.uown[p := Spot(root, v)]
  }

  lemma OnePageUsers(t: Space, u: Space, root: int, v: int, p: int, flags: int, data: Frame)
    requires Users(t) && OnePage(t, u, root, v, p, flags, data) && V(Pte(p, flags))
    requires IsRoot(t.own, root) && 0 <= v < MAXVPN && LeafAt(t.tables, root, v) == NOPTE
    ensures Users(u)
  {
    assert LeafAt(u.tables, root, v) == Pte(p, flags);
    forall f ensures SpotOk(u, f) {
      assert SpotOk(t, f);
      if f != p && f in u.uown {
        assert t.uown[f] != Spot(root, v);
        assert LeafAt(u.tables, t.uown[f].root, t.uown[f].v) == LeafAt(t.tables, t.uown[f].root, t.uown[f].v);
      }
    }
    forall r, w | IsRoot(u.own, r) && 0 <= w < MAXVPN ensures PageOk(u, r, w) {
      assert PageOk(t, r, w);
      assert r != root || w != v ==> LeafAt(u.tables, r, w) == LeafAt(t.tables, r, w);
    }
  }

  lemma AddedOneMore(s: Space, t: Space, u: Space, root: int, a: int, n: int, p: int, flags: int, data: Frame)
    requires Added(s, t, root, a, n) && OnePage(t, u, root, a + n, p, flags, data) && V(Pte(p, flags))
    requires IsRoot(s.own, root) && 0 <= a && 0 <= n && a + n < MAXVPN
    ensures Added(s, u, root, a, n + 1)
  {
    assert LeafAt(u.tables, root, a + n) == Pte(p + (a + n) - (a + n), flags);
    forall r, v | IsRoot(s.own, r) && 0 <= v < MAXVPN && !(r == root && a <= v < a + n + 1)
      ensures LeafAt(u.tables, r, v) == LeafAt(s.tables, r, v)
    {
      assert LeafAt(t.tables, r, v) == LeafAt(s.tables, r, v);
    }
    forall v | a <= v < a + n + 1 ensures NewPage(s, u, root, v) {
      if v < a + n {
        assert NewPage(s, t, root, v);
        assert LeafAt(u.tables, root, v) == LeafAt(t.tables, root, v);
      }
    }
    forall f | f in u.frames ensures f in s.frames || Condemned(u, root, a, n + 1, f) {
      assert f != p ==> f in s.frames || Condemned(t, root, a, n, f);
    }
    forall f | f in u.uown ensures f in s.uown || Condemned(u, root, a, n + 1, f) {
      assert f != p ==> f in s.uown || Condemned(t, root, a, n, f);
    }
  }

  lemma AddedUnmappable(s: Space, t: Space, root: int, a: int, n: int)
    requires Added(s, t, root, a, n)
    ensures Unmappable(t, root, a, n, true)
  {
    forall v | a <= v < a + n ensures V(LeafAt(t.tables, root, v)) && OwnedAt(t, root, v) {
      assert NewPage(s, t, root, v);
    }
  }

  /** Removing the added pages again restores every map and frees every frame that was taken. */
  lemma AddedThenGone(s: Space, t: Space, u: Space, root: int, a: int, n: int)
    requires Users(s) && Users(t) && Added(s, t, root, a, n) && Unmapped(s, root, a, n)
    requires IsRoot(s.own, root) && 0 <= a && 0 <= n && a + n <= MAXVPN
    requires Gone(t, u, root, a, n, true) || (n == 0 && u == t)
    ensures SameMaps(s, u) && SameUse(s, u)
  {
    forall f | Condemned(t, root, a, n, f) ensures f !in s.frames && f !in s.uown {
      assert SpotOk(t, f) && SpotOk(s, f) && NewPage(s, t, root, t.uown[f].v);
    }
  }

  lemma AddedSame(s: Space, t: Space, u: Space, root: int, a: int, n: int)
    requires Added(s, t, root, a, n) && SameMaps(t, u) && SameUse(t, u) && IsRoot(s.own, root)
      && 0 <= a && a + n <= MAXVPN
    ensures Added(s, u, root, a, n)
  {
    forall r, v | IsRoot(s.own, r) && 0 <= v < MAXVPN && !(r == root && a <= v < a + n)
      ensures LeafAt(u.tables, r, v) == LeafAt(s.tables, r, v)
    {
      assert LeafAt(t.tables, r, v) == LeafAt(s.tables, r, v);
    }
    forall v | a <= v < a + n ensures NewPage(s, u, root, v) {
      assert NewPage(s, t, root, v);
      assert LeafAt(u.tables, root, v) == LeafAt(t.tables, root, v);
    }
    forall f | f in u.frames ensures f in s.frames || Condemned(u, root, a, n, f) {
      assert f in t.frames && (f in s.frames || Condemned(t, root, a, n, f));
    }
    forall f | f in u.uown ensures f in s.uown || Condemned(u, root, a, n, f) {
      assert f in t.uown && (f in s.uown || Condemned(t, root, a, n, f));
    }
  }

  // ----- what the new pages hold ------------------------------------------------------------

  /** New pages are either cleared, with these flags, or copies of the pages of another root. */
  datatype Fill = Zeroes(flags: int) | CopyOf(root: int)

  ghost function FillFlags(s: Space, w: Fill, v: int): int {
    match w
    case Zeroes(flags) => flags
    case CopyOf(r) => LeafAt(s.tables, r, v).flags
  }

  ghost predicate FillData(s: Space, w: Fill, v: int, data: Frame) {
    match w
    case Zeroes(_) => forall o | 0 <= o < PGSIZE :: data[o] == 0
    case CopyOf(r) => LeafAt(s.tables, r, v).ppn in s.frames && data == s.frames[LeafAt(s.tables, r, v).ppn]
  }

  ghost predicate Loaded(s: Space, t: Space, w: Fill, root: int, v: int) {
    && LeafAt(t.tables, root, v).flags == FillFlags(s, w, v)
    && LeafAt(t.tables, root, v).ppn in t.frames && FillData(s, w, v, t.frames[LeafAt(t.tables, root, v).ppn])
  }

  /** Pages [a, a + n) of root have been added to s and filled. */
  ghost predicate Filled(s: Space, t: Space, w: Fill, root: int, a: int, n: int) {
    && 0 <= a && 0 <= n && a + n <= MAXVPN && IsRoot(s.own, root) && Added(s, t, root, a, n)
    && forall v | a <= v < a + n :: Loaded(s, t, w, root, v)
  }

  lemma FilledStart(s: Space, w: Fill, root: int, a: int)
    requires 0 <= a <= MAXVPN && IsRoot(s.own, root)
    ensures Filled(s, s, w, root, a, 0)
  {}

  lemma FilledSame(s: Space, t: Space, u: Space, w: Fill, root: int, a: int, n: int)
    requires Filled(s, t, w, root, a, n) && SameMaps(t, u) && SameUse(t, u)
    ensures Filled(s, u, w, root, a, n)
  {
    AddedSame(s, t, u, root, a, n);
    forall v | a <= v < a + n ensures Loaded(s, u, w, root, v) {
      assert Loaded(s, t, w, root, v) && LeafAt(u.tables, root, v) == LeafAt(t.tables, root, v);
    }
  }

  lemma FilledOneMore(s: Space, t: Space, u: Space, w: Fill, root: int, a: int, n: int, p: int, flags: int, data: Frame)
    requires Filled(s, t, w, root, a, n) && OnePage(t, u, root, a + n, p, flags, data) && V(Pte(p, flags))
    requires a + n < MAXVPN && flags == FillFlags(s, w, a + n) && FillData(s, w, a + n, data)
    ensures Filled(s, u, w, root, a, n + 1)
  {
    AddedOneMore(s, t, u, root, a, n, p, flags, data);
    assert LeafAt(u.tables, root, a + n) == Pte(p + (a + n) - (a + n), flags);
    forall v | a <= v < a + n + 1 ensures Loaded(s, u, w, root, v) {
      if v < a + n {
        assert Loaded(s, t, w, root, v) && LeafAt(u.tables, root, v) == LeafAt(t.tables, root, v);
      }
    }
  }

  // ----- the end of an address space --------------------------------------------------------

  /** The tables and frames of root are gone, and no other address space has changed. */
  ghost predicate Destroyed(s: Space, t: Space, root: int) {
    && (forall x :: x in t.tables <==> x in s.tables && !(x in s.own && s.own[x].root == root))
    && (forall f :: f in t.frames <==> f in s.frames && !(f in s.uown && s.uown[f].root == root))
    && (forall f | f in t.frames :: t.frames[f] == s.frames[f])
    && (forall q :: IsRoot(t.own, q) <==> IsRoot(s.own, q) && q != root)
    && (forall q, v | IsRoot(t.own, q) && 0 <= v < MAXVPN :: LeafAt(t.tables, q, v) == LeafAt(s.tables, q, v))
  }

  lemma DestroyedUsers(s: Space, t: Space, u: Space, root: int, n: int)
    requires Tree(s.tables, s.own) && Users(s) && IsRoot(s.own, root) && 0 <= n <= MAXVPN
    requires Unmapped(s, root, n, MAXVPN - n) && Gone(s, t, root, 0, n, true)
    requires Tree(t.tables, t.own) && Users(t) && (forall x :: x in t.tables <==> x in s.tables)
    requires Removed(t.tables, t.own, u.tables, u.own, root) && u.frames == t.frames && u.uown == t.uown
    ensures Tree(u.tables, u.own) && Users(u) && Destroyed(s, u, root)
  {
    TreeRemoved(t.tables, t.own, u.tables, u.own, root);
    forall f | f in s.uown ensures Condemned(s, root, 0, n, f) <==> s.uown[f].root == root {
      assert SpotOk(s, f);
    }
    forall f | f in u.uown ensures u.uown[f].root != root {
      assert f in s.uown && Stays(s, root, 0, n, true, f);
    }
    forall f ensures SpotOk(u, f) {
      assert SpotOk(t, f);
    }
    forall r, v | IsRoot(u.own, r) && 0 <= v < MAXVPN ensures PageOk(u, r, v) {
      assert PageOk(t, r, v);
    }
    forall x ensures x in u.tables <==> x in s.tables && !(x in s.own && s.own[x].root == root) {
      assert RemovedAt(t.tables, t.own, u.tables, u.own, root, x);
      BelowRoot(t.tables, t.own, root, x);
    }
    forall f ensures f in u.frames <==> f in s.frames && !(f in s.uown && s.uown[f].root == root) {
      assert f in t.frames <==> f in s.frames && Stays(s, root, 0, n, true, f);
    }
    forall q, v | IsRoot(u.own, q) && 0 <= v < MAXVPN ensures LeafAt(u.tables, q, v) == LeafAt(s.tables, q, v) {
      assert LeafAt(t.tables, q, v) == LeafAt(s.tables, q, v);
    }
  }

  // ----- user addresses, byte by byte -------------------------------------------------------

  /** User code can use page v of root. */
  ghost predicate Reach(s: Space, r: int, v: int) {
    0 <= v < MAXVPN && V(LeafAt(s.tables, r, v)) && U(LeafAt(s.tables, r, v))
  }

  ghost predicate ReachAll(s: Space, r: int, a: int, n: int) {
    forall va | a <= va < a + n :: Reach(s, r, va / PGSIZE)
  }

  function FrameByte(frames: map<int, Frame>, f: int, o: int): Byte
    requires 0 <= o < PGSIZE
  {
    if f in frames then frames[f][o] else 0
  }

  /** The byte at a user address. */
  ghost function ByteAt(s: Space, r: int, va: int): Byte {
    FrameByte(s.frames, LeafAt(s.tables, r, va / PGSIZE).ppn, va % PGSIZE)
  }

  /** A reachable address is in a frame of its own page. */
  lemma ReachedFrame(s: Space, r: int, v: int)
    requires Users(s) && IsRoot(s.own, r) && Reach(s, r, v)
    ensures LeafAt(s.tables, r, v).ppn in s.frames && OwnedAt(s, r, v)
  {
    assert PageOk(s, r, v) && SpotOk(s, LeafAt(s.tables, r, v).ppn);
  }

  /** What uvmalloc adds, user code can use and reads as zeroes; what it could use before reads
      as it did. */
  lemma NewMemory(s: Space, t: Space, root: int, a: int, n: int, xperm: int)
    requires Filled(s, t, Zeroes(PTE_V + PTE_R + PTE_U + xperm), root, a, n) && Users(s)
    requires xperm in {0, PTE_W, PTE_X, PTE_W + PTE_X}
    ensures forall va | a * PGSIZE <= va < (a + n) * PGSIZE ::
              Reach(t, root, va / PGSIZE) && ByteAt(t, root, va) == 0
    ensures forall r, va | IsRoot(s.own, r) && Reach(s, r, va / PGSIZE) && !(r == root && a <= va / PGSIZE < a + n) ::
              Reach(t, r, va / PGSIZE) && ByteAt(t, r, va) == ByteAt(s, r, va)
  {
    forall va | a * PGSIZE <= va < (a + n) * PGSIZE
      ensures Reach(t, root, va / PGSIZE) && ByteAt(t, root, va) == 0
    {
      var v := va / PGSIZE;
      assert a <= v < a + n && NewPage(s, t, root, v) && Loaded(s, t, Zeroes(PTE_V + PTE_R + PTE_U + xperm), root, v);
    }
    forall r, va | IsRoot(s.own, r) && Reach(s, r, va / PGSIZE) && !(r == root && a <= va / PGSIZE < a + n)
      ensures Reach(t, r, va / PGSIZE) && ByteAt(t, r, va) == ByteAt(s, r, va)
    {
      ReachedFrame(s, r, va / PGSIZE);
    }
  }

  /** After uvmcopy the child can use the same addresses as the parent, and every byte there is
      the parent's. */
  lemma CopiedMemory(s: Space, t: Space, from: int, to: int, n: int)
    requires Filled(s, t, CopyOf(from), to, 0, n) && Users(s) && IsRoot(s.own, from) && from != to
    requires Backed(s, from, 0, n)
    ensures forall va | 0 <= va < n * PGSIZE ::
              && (Reach(t, to, va / PGSIZE) <==> Reach(s, from, va / PGSIZE))
              && ByteAt(t, to, va) == ByteAt(s, from, va) == ByteAt(t, from, va)
  {
    forall va | 0 <= va < n * PGSIZE
      ensures Reach(t, to, va / PGSIZE) <==> Reach(s, from, va / PGSIZE)
      ensures ByteAt(t, to, va) == ByteAt(s, from, va) == ByteAt(t, from, va)
    {
      var v := va / PGSIZE;
      assert 0 <= v < n && NewPage(s, t, to, v) && Loaded(s, t, CopyOf(from), to, v);
      assert LeafAt(t.tables, from, v) == LeafAt(s.tables, from, v);
    }
  }

  /** Every reachable byte of every address space is as it was, but for `bytes` at a of root. */
  ghost predicate Stored(s: Space, t: Space, root: int, a: int, bytes: seq<Byte>) {
    && t.free == s.free && t.tables == s.tables && t.own == s.own && t.uown == s.uown
    && (forall f :: f in t.frames <==> f in s.frames)
    && (forall f | f in s.frames && f !in s.uown :: t.frames[f] == s.frames[f])
    && forall r, va | IsRoot(s.own, r) && Reach(s, r, va / PGSIZE) ::
         ByteAt(t, r, va) == if r == root && a <= va < a + |bytes| then bytes[va - a] else ByteAt(s, r, va)
  }

  function Patch(f: Frame, o: int, bytes: seq<Byte>): Frame
    requires 0 <= o && o + |bytes| <= PGSIZE
  {
    f[..o] + bytes + f[o + |bytes|..]
  }

  lemma InOnePage(b: int, n: int, va: int)
    requires 0 <= b && 0 <= n && b % PGSIZE + n <= PGSIZE
    ensures b <= va < b + n <==> va / PGSIZE == b / PGSIZE && b % PGSIZE <= va % PGSIZE < b % PGSIZE + n
    ensures va / PGSIZE == b / PGSIZE ==> va - b == va % PGSIZE - b % PGSIZE
  {}

  /** dst is what user code sees at a, and it can see all of it. */
  ghost predicate Copied(s: Space, root: int, a: int, dst: seq<Byte>) {
    ReachAll(s, root, a, |dst|) && forall k | 0 <= k < |dst| :: dst[k] == ByteAt(s, root, a + k)
  }

  /** One memmove from the frame of the page that comes next. */
  lemma CopiedMore(s: Space, root: int, a: int, dst: seq<Byte>, f: int, bytes: seq<Byte>)
    requires Copied(s, root, a, dst) && 0 <= a && Reach(s, root, (a + |dst|) / PGSIZE)
    requires f == LeafAt(s.tables, root, (a + |dst|) / PGSIZE).ppn && f in s.frames
    requires (a + |dst|) % PGSIZE + |bytes| <= PGSIZE
    requires bytes == s.frames[f][(a + |dst|) % PGSIZE..(a + |dst|) % PGSIZE + |bytes|]
    ensures Copied(s, root, a, dst + bytes)
  {
    var b := a + |dst|;
    forall va | b <= va < b + |bytes| ensures va / PGSIZE == b / PGSIZE && va % PGSIZE == b % PGSIZE + va - b {
      InOnePage(b, |bytes|, va);
    }
  }

  /** One memmove to a frame: the bytes go to addresses of one page. */
  lemma StoredMore(s: Space, t: Space, u: Space, root: int, a: int, done: seq<Byte>, bytes: seq<Byte>, f: int)
    requires Users(s) && IsRoot(s.own, root) && Stored(s, t, root, a, done)
    requires 0 <= a && Reach(s, root, (a + |done|) / PGSIZE) && f == LeafAt(s.tables, root, (a + |done|) / PGSIZE).ppn
    requires (a + |done|) % PGSIZE + |bytes| <= PGSIZE && f in t.frames
    requires u == Space(t.free, t.tables, t.frames[f := Patch(t.frames[f], (a + |done|) % PGSIZE, bytes)],
               t.own, t.uown)
    ensures Stored(s, u, root, a, done + bytes)
  {
    var b := a + |done|;
    ReachedFrame(s, root, b / PGSIZE);
    forall r, va | IsRoot(s.own, r) && Reach(s, r, va / PGSIZE)
      ensures ByteAt(u, r, va) ==
              if r == root && a <= va < a + |done + bytes| then (done + bytes)[va - a] else ByteAt(s, r, va)
    {
      ReachedFrame(s, r, va / PGSIZE);
      assert ByteAt(t, r, va) == if r == root && a <= va < a + |done| then done[va - a] else ByteAt(s, r, va);
      InOnePage(b, |bytes|, va);
      if LeafAt(s.tables, r, va / PGSIZE).ppn == f {
        NoSharedFrame(s, r, va / PGSIZE, root, b / PGSIZE);
      }
    }
  }

  lemma StoredUsers(s: Space, t: Space, root: int, a: int, bytes: seq<Byte>, pages: set<int>)
    requires Inv(s, pages) && Stored(s, t, root, a, bytes)
    ensures Inv(t, pages)
  {
    SamePartition(s, t, pages);
    forall f ensures SpotOk(t, f) {
      assert SpotOk(s, f);
    }
    forall r, v | IsRoot(t.own, r) && 0 <= v < MAXVPN ensures PageOk(t, r, v) {
      assert PageOk(s, r, v);
    }
  }
}
