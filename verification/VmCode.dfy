/** The page allocator and the functions that build, change and copy address spaces
    (kalloc.c, vm.c). Addresses of pages are page numbers here, in both kinds of memory. */
module VmCode {
  import opened PageTable
  import opened VmState
  import opened Kalloc

  /** PX(level, va). */
  function PX(level: int, v: int): int {
    if level == 2 then PX2(v) else if level == 1 then PX1(v) else PX0(v)
  }

  /** The leading fields of v that lead to its table of this level. */
  function Pre(level: int, v: int): int {
    if level == 2 then 0 else if level == 1 then PX2(v) else v / 512
  }

  /** perm | PTE_V */
  function WithV(perm: int): int {
    if perm % 2 == 1 then perm else perm + PTE_V
  }

  ghost predicate Extends(own: map<int, Place>, own': map<int, Place>) {
    forall t | t in own :: t in own' && own'[t] == own[t]
  }

  lemma TakeHead(s: Space, pages: set<int>, f: Frame)
    requires Partition(s, pages) && s.free != []
    ensures var p := s.free[0];
            p != 0 && p !in s.frames && p !in s.tables
            && Partition(Space(s.free[1..], s.tables, s.frames[p := f], s.own, s.uown), pages)
  {
    var p := s.free[0];
    assert s.free == [p] + s.free[1..] && IsFree(s, p) && PartOk(s, pages, p);
    var t := Space(s.free[1..], s.tables, s.frames[p := f], s.own, s.uown);
    forall q ensures PartOk(t, pages, q) {
      assert PartOk(s, pages, q);
      assert IsFree(s, q) <==> q == p || IsFree(t, q);
      assert !IsFree(t, p);
    }
  }

  lemma PutHead(s: Space, pages: set<int>, p: int)
    requires Partition(s, pages) && p in s.frames
    ensures Partition(Space([p] + s.free, s.tables, s.frames - {p}, s.own, s.uown), pages)
  {
    var t := Space([p] + s.free, s.tables, s.frames - {p}, s.own, s.uown);
    assert PartOk(s, pages, p);
    forall q ensures PartOk(t, pages, q) {
      assert PartOk(s, pages, q);
      assert IsFree(t, q) <==> q == p || IsFree(s, q);
    }
  }

  lemma TakeTable(s: Space, t: Space, pages: set<int>, c: int)
    requires Partition(s, pages) && c in s.frames && c !in s.tables && t.free == s.free
    requires t.tables == s.tables[c := Cleared()] && t.frames == s.frames - {c}
    ensures Partition(t, pages)
  {
    forall p ensures PartOk(t, pages, p) {
      assert PartOk(s, pages, p);
    }
  }

  lemma NewRootUsers(s: Space, t: Space, c: int)
    requires Users(s) && SameUse(s, t) && MapsNothing(t.tables, c)
    requires forall r :: IsRoot(t.own, r) <==> IsRoot(s.own, r) || r == c
    requires forall r, v | IsRoot(s.own, r) && 0 <= v < MAXVPN :: LeafAt(t.tables, r, v) == LeafAt(s.tables, r, v)
    ensures Users(t)
  {
    forall f ensures SpotOk(t, f) {
      assert SpotOk(s, f);
    }
    forall r, v | IsRoot(t.own, r) && 0 <= v < MAXVPN ensures PageOk(t, r, v) {
      assert !V(NOPTE);
      assert r != c ==> PageOk(s, r, v);
    }
  }

  lemma ReleaseTable(s: Space, pages: set<int>, t: int)
    requires Partition(s, pages) && t in s.tables
    ensures Partition(Space(s.free, s.tables - {t}, s.frames[t := Bytes(5)], s.own - {t}, s.uown), pages)
  {
    var u := Space(s.free, s.tables - {t}, s.frames[t := Bytes(5)], s.own - {t}, s.uown);
    forall p ensures PartOk(u, pages, p) {
      assert PartOk(s, pages, p) && (IsFree(u, p) <==> IsFree(s, p));
    }
  }

  /** PGROUNDUP(sz) / PGSIZE */
  function Up(sz: int): int {
    (sz + PGSIZE - 1) / PGSIZE
  }

  lemma RoundUp(sz: int)
    ensures Up(sz) * PGSIZE - PGSIZE < sz <= Up(sz) * PGSIZE && Up(sz) * PGSIZE % PGSIZE == 0
    ensures Up(sz) * PGSIZE / PGSIZE == Up(sz) && (sz <= MAXVA ==> Up(sz) <= MAXVPN)
  {}

  lemma Exact(p: int)
    ensures Up(p * PGSIZE) == p
  {}

  lemma Aligned(p: int)
    ensures p * PGSIZE / PGSIZE == p && p * PGSIZE % PGSIZE == 0
  {}

  lemma OnePageRange(a: int)
    requires 0 <= a < MAXVPN
    ensures a * PGSIZE / PGSIZE == a && (a * PGSIZE + PGSIZE - 1) / PGSIZE == a && a * PGSIZE + PGSIZE <= MAXVA
  {}

  lemma StillOwned(s: Space, t: Space, root: int, a: int, n: int, free: bool)
    requires Gone(s, t, root, a, n, free) && IsRoot(s.own, root) && 0 <= a + n < MAXVPN
    requires OwnedAt(s, root, a + n) == free
    ensures LeafAt(t.tables, root, a + n) == LeafAt(s.tables, root, a + n) && OwnedAt(t, root, a + n) == free
  {
  }

  function WalkedTo(m: Tables, root: int, v: int, level: int): int {
    if level == 2 then root else if level == 1 then Next(m, root, PX2(v)) else Table0(m, root, v)
  }

  lemma LeafInTable(s: Space, t: int, v: int)
    requires Tree(s.tables, s.own) && t in s.tables && t in s.own
      && s.own[t].level == 0 && s.own[t].pre == v / 512 && 0 <= v < MAXVPN
    ensures LeafAt(s.tables, s.own[t].root, v) == s.tables[t][PX0(v)] && IsRoot(s.own, s.own[t].root)
  {
    Reached(s.tables, s.own, t);
    Fields(v);
  }

  /** The free pages that n pages from a on take: their frames, and the tables that are missing. */
  ghost function PagesFor(m: Tables, r: int, a: int, n: int): int {
    n + TablesFor(m, r, a, n)
  }

  /** A page that is to be copied is still in the frame it was in. */
  lemma SourceFrame(s: Space, t: Space, root: int, from: int, n: int)
    requires Filled(s, t, CopyOf(from), root, 0, n) && from != root && IsRoot(s.own, from) && 0 <= n < MAXVPN
    requires Users(s) && V(LeafAt(s.tables, from, n)) && OwnedAt(s, from, n)
    ensures var f := LeafAt(s.tables, from, n).ppn;
            IsRoot(t.own, from) && OwnedAt(t, from, n) && f in s.frames && f in t.frames && t.frames[f] == s.frames[f]
  {
    assert SpotOk(s, LeafAt(s.tables, from, n).ppn);
    assert LeafAt(t.tables, from, n) == LeafAt(s.tables, from, n);
  }

  ghost predicate BoughtBy(s: Space, t: Space, root: int, a0: int, n: int) {
    Laid(s.tables, t.tables, root, a0, n) && |t.free| == |s.free| - TablesFor(s.tables, root, a0, n)
  }

  /** If the tables for the next page cannot be had then there were too few free pages for all. */
  lemma BoughtShort(s: Space, u: Space, root: int, a0: int, n: int, a: int, total: int)
    requires 0 <= a0 && 0 <= n < total && a == a0 + n < MAXVPN && BoughtBy(s, u, root, a0, n)
    requires |u.free| < Missing(u.tables, root, a)
    ensures |s.free| < TablesFor(s.tables, root, a0, total)
  {
    MissingNext(s.tables, u.tables, root, a0, n);
    TablesMore(s.tables, root, a0, n + 1, total);
  }

  ghost predicate PaidBy(s: Space, t: Space, root: int, a0: int, n: int) {
    Laid(s.tables, t.tables, root, a0, n) && |t.free| == |s.free| - PagesFor(s.tables, root, a0, n)
  }

  lemma OneMissing(m: Tables, r: int, a: int)
    ensures TablesFor(m, r, a, 1) == Missing(m, r, a)
  {
    assert TablesFor(m, r, a, 0) == 0;
  }

  /** Where walk finds no table, one is missing. */
  lemma DeadEnd(m: Tables, m1: Tables, own: map<int, Place>, root: int, v: int, level: int, t: int)
    requires Tree(m1, own) && IsRoot(own, root) && 0 <= v < MAXVPN && 1 <= level <= 2 && Way(m, m1, root, v, level)
    requires t == WalkedTo(m1, root, v, level) && t != 0
    ensures Next(m1, t, PX(level, v)) == 0 ==> Made(m, root, v, level) < Missing(m, root, v)
    ensures Next(m1, t, PX(level, v)) == 0 ==> WalkedTo(m1, root, v, 0) == 0
  {
    assert forall i :: Entry(m1, 0, i) == NOPTE;
  }

  class Memory {
    var free: seq<int>            // kmem.freelist, first page first
    var tables: Tables
    var frames: map<int, Frame>
    ghost var own: map<int, Place>
    ghost var uown: map<int, Spot>
    ghost const pages: set<int>

    ghost function State(): Space
      reads this
    {
      Space(free, tables, frames, own, uown)
    }

    ghost predicate Valid()
      reads this
    {
      Inv(State(), pages)
    }

    /** kinit: all the pages there are, each given to kfree once. */
    constructor (all: seq<int>)
      requires Unique(all) && 0 !in all
      ensures Valid() && free == all && tables == map[] && frames == map[] && uown == map[]
    {
      free, tables, frames, own, uown := all, map[], map[], map[], map[];
      pages := set p | p in all;
    }

    /** What holds also while a page is being handed to an address space. */
    ghost predicate Sound()
      reads this
    {
      Partition(State(), pages) && Tree(tables, own)
    }

    // ----- kalloc.c -----------------------------------------------------------------------

    method Kalloc() returns (p: int)
      requires Partition(State(), pages)
      modifies this`free, this`frames
      ensures Partition(State(), pages) && (p == 0 <==> old(free) == []) && (p == 0 ==> State() == old(State()))
      ensures p != 0 ==>
                && p == old(free)[0] && free == old(free)[1..] && p !in old(frames) && p !in tables
                && frames == old(frames)[p := Bytes(5)]
    {
      if free == [] {
        return 0;
      }
      p := free[0];
      TakeHead(State(), pages, Bytes(5));
      free, frames := free[1..], frames[p := Bytes(5)];
    }

    method Kfree(p: int)
      requires Partition(State(), pages) && p in frames
      modifies this`free, this`frames
      ensures Partition(State(), pages) && free == [p] + old(free) && frames == old(frames) - {p}
    {
      PutHead(State(), pages, p);
      free, frames := [p] + free, frames - {p};
    }

    // ----- walk ---------------------------------------------------------------------------

    /** One level of walk: the table that entry PX(level, va) of t leads to; 0 if there is
        none, and none could be made. */
    method Descend(t: int, level: int, v: int, alloc: bool) returns (t': int)
      requires Sound() && 0 <= v < MAXVPN && 1 <= level <= 2
      requires t in tables && t in own && own[t].level == level && own[t].pre == Pre(level, v)
      modifies this`free, this`tables, this`frames, this`own
      ensures Sound() && SameMaps(old(State()), State()) && Extends(old(own), own) && frames == old(frames)
      ensures t' == 0 || (t' in tables && t' in own && own[t'] == Place(own[t].root, level - 1, Pre(level - 1, v), t))
      ensures !alloc || t' == 0 || Next(old(tables), t, PX(level, v)) != 0 ==> State() == old(State())
      ensures Next(old(tables), t, PX(level, v)) != 0 || !alloc ==> t' == Next(tables, t, PX(level, v))
      ensures alloc && t' == 0 ==> Next(old(tables), t, PX(level, v)) == 0 && old(free) == []
      ensures alloc && t' != 0 && Next(old(tables), t, PX(level, v)) == 0 ==>
                && |free| == |old(free)| - 1 && tables == Grow(old(tables), t, PX(level, v), t')
                && Growable(old(tables), old(own), t, PX(level, v), t')
    {
      Fields(v);
      var k := PX(level, v);
      assert EntryOk(tables, own, t, k);
      var pte := tables[t][k];
      if V(pte) {
        t' := pte.ppn;
      } else {
        if !alloc {
          return 0;
        }
        t' := Kalloc();
        if t' == 0 {
          return 0;
        }
        assert PlaceOk(tables, own, t');
        AddTableKept(State(), pages, t, k, t');
        tables, own, frames := Grow(tables, t, k, t'), GrowOwn(own, t, k, t'), frames - {t'};
        assert frames == old(frames);
      }
    }

    /** In walk for page v: the table t of this level has been reached. */
    ghost predicate Walking(s: Space, root: int, v: int, level: int, t: int)
      reads this
    {
      && Sound() && SameMaps(s, State()) && Extends(s.own, own) && frames == s.frames
      && t in tables && t in own && own[t].root == root && own[t].level == level && own[t].pre == Pre(level, v)
      && t == WalkedTo(tables, root, v, level)
      && Way(s.tables, tables, root, v, level) && |free| == |s.free| - Made(s.tables, root, v, level)
    }

    /** One round of walk. */
    method WalkDown(root: int, t: int, level: int, v: int, alloc: bool, ghost s: Space) returns (t': int)
      requires Walking(s, root, v, level, t) && IsRoot(s.own, root) && 0 <= v < MAXVPN && 1 <= level <= 2
      modifies this`free, this`tables, this`frames, this`own
      ensures t' != 0 ==> Walking(s, root, v, level - 1, t')
      ensures t' == 0 ==> Sound() && SameMaps(s, State()) && Extends(s.own, own) && frames == s.frames
      ensures !alloc ==> State() == old(State()) && t' == Next(tables, t, PX(level, v))
      ensures alloc && t' == 0 ==> |s.free| < Missing(s.tables, root, v)
    {
      ghost var u, k := State(), PX(level, v);
      Fields(v);
      assert PlaceOk(tables, own, t) && IsRoot(own, root);
      t' := Descend(t, level, v, alloc);
      SameMapsTransitive(s, u, State());
      if t' == 0 {
        DeadEnd(s.tables, u.tables, u.own, root, v, level, t);
      } else if Next(u.tables, t, k) != 0 {
        WayThere(s.tables, u.tables, u.own, root, v, level, t);
      } else {
        WayMade(s.tables, u.tables, u.own, root, v, level, t, k, t');
        assert Next(tables, t, k) == t';
      }
    }

    /** walk: the last-level table that has the entry for page v, or 0. It makes the tables that
        are missing, and fails to exactly if there are not as many free pages. */
    method Walk(root: int, v: int, alloc: bool) returns (t: int)
      requires Sound() && IsRoot(own, root) && 0 <= v < MAXVPN
      modifies this`free, this`tables, this`frames, this`own
      ensures Sound() && SameMaps(old(State()), State()) && Extends(old(own), own) && frames == old(frames)
      ensures t != 0 ==> t in tables && t in own && own[t].root == root && own[t].level == 0 && own[t].pre == v / 512
      ensures !alloc ==> State() == old(State()) && t == Table0(tables, root, v)
      ensures alloc ==> (t == 0 <==> |old(free)| < Missing(old(tables), root, v))
      ensures t != 0 ==> Took(old(tables), root, v, |old(free)|)
    {
      t := root;
      assert PlaceOk(tables, own, root);
      var level := 2;
      ghost var s := State();
      while level > 0
        invariant 0 <= level <= 2 && Walking(s, root, v, level, t)
        invariant !alloc ==> State() == s
      {
        t := WalkDown(root, t, level, v, alloc, s);
        if t == 0 {
          return;
        }
        level := level - 1;
      }
    }

    /** uvmcreate: a new address space, with nothing in it. */
    method Uvmcreate() returns (root: int)
      requires Valid()
      modifies this`free, this`tables, this`frames, this`own
      ensures Valid() && (root == 0 <==> old(free) == []) && (root == 0 ==> State() == old(State()))
      ensures root != 0 ==> IsRoot(own, root) && !IsRoot(old(own), root) && SameUse(old(State()), State())
      ensures root != 0 ==> MapsNothing(tables, root)
      ensures root != 0 ==> forall r, v | IsRoot(old(own), r) && 0 <= v < MAXVPN ::
                LeafAt(tables, r, v) == LeafAt(old(tables), r, v)
    {
      ghost var s := State();
      root := Kalloc();
      if root == 0 {
        return;
      }
      assert PlaceOk(tables, own, root);
      AddRoot(tables, own, root);
      ghost var t := State();
      tables, own, frames := tables[root := Cleared()], own[root := Place(root, 2, 0, root)], frames - {root};
      TakeTable(t, State(), pages, root);
      NewRootUsers(s, State(), root);
    }

    /** Page a of root has its tables, for which this many free pages of `before` were taken. */
    ghost predicate Took(m: Tables, root: int, a: int, before: int)
      reads this
    {
      Laid(m, tables, root, a, 1) && |free| == before - Missing(m, root, a)
    }

    /** The n pages from a0 on have their tables, at a free page each. */
    ghost predicate Bought(s: Space, root: int, a0: int, n: int)
      reads this
    {
      BoughtBy(s, State(), root, a0, n)
    }

    lemma BoughtNext(s: Space, u: Space, root: int, a0: int, n: int, a: int)
      requires 0 <= a0 && 0 <= n && a == a0 + n < MAXVPN && BoughtBy(s, u, root, a0, n)
      requires Took(u.tables, root, a, |u.free|)
      ensures Bought(s, root, a0, n + 1)
    {
      MissingNext(s.tables, u.tables, root, a0, n);
      LaidNext(s.tables, u.tables, tables, root, a0, n);
    }

    ghost predicate MapEnd(s: Space, root: int, a0: int, n: int, pa: int, flags: int)
      reads this
    {
      && Sound() && Extends(s.own, own) && frames == s.frames && uown == s.uown
      && IsRoot(s.own, root) && Mapped(s, State(), root, a0, n, pa, flags)
    }

    ghost predicate MapInv(s: Space, root: int, a0: int, n: int, pa: int, flags: int)
      reads this
    {
      MapEnd(s, root, a0, n, pa, flags) && Bought(s, root, a0, n)
    }

    method WriteLeaf(t: int, a: int, pte: Pte, ghost s: Space, ghost root: int, ghost a0: int, ghost n: int,
            ghost pa: int, ghost m: Tables, ghost before: int)
      requires MapEnd(s, root, a0, n, pa, pte.flags) && pte.ppn == pa + n && V(pte) && Leaf(pte)
      requires 0 <= a0 && 0 <= n && a == a0 + n < MAXVPN && LeafAt(s.tables, root, a) == NOPTE
      requires t in tables && t in own && own[t].root == root && own[t].level == 0 && own[t].pre == a / 512
      requires Took(m, root, a, before)
      modifies this`tables
      ensures MapEnd(s, root, a0, n + 1, pa, pte.flags) && Took(m, root, a, before)
    {
      LeafInTable(State(), t, a);
      assert !V(tables[t][PX0(a)]);      // otherwise: "mappages: remap"
      MappedOneMore(s, State(), root, a0, n, pa, pte.flags, t);
      ghost var u := PutLeaf(State(), t, PX0(a), pte);
      SamePartition(State(), u, pages);
      forall w | 0 <= w < MAXVPN
        ensures Has1(u.tables, root, w) == Has1(tables, root, w) && Has0(u.tables, root, w) == Has0(tables, root, w)
      {
        SetLeafHas(tables, own, t, PX0(a), pte, root, w);
      }
      tables := SetEntry(tables, t, PX0(a), pte);
      assert State() == u;
    }

    /** One round of mappages. */
    method MapRound(root: int, a: int, pa': int, perm: int, ghost s: Space, ghost a0: int, ghost n: int, ghost pa: int,
            ghost total: int)
      returns (ok: bool)
      requires MapInv(s, root, a0, n, pa, WithV(perm)) && n < total
      requires 0 <= a0 && 0 <= n && a == a0 + n < MAXVPN && pa' == pa + n && LeafAt(s.tables, root, a) == NOPTE
      requires Leaf(Pte(pa, WithV(perm)))
      modifies this`free, this`tables, this`frames, this`own
      ensures if ok then MapInv(s, root, a0, n + 1, pa, WithV(perm))
              else MapEnd(s, root, a0, n, pa, WithV(perm)) && |s.free| < TablesFor(s.tables, root, a0, total)
    {
      ghost var u := State();
      assert IsRoot(u.own, root);
      var t := Walk(root, a, true);
      MappedGrown(s, u, State(), root, a0, n, pa, WithV(perm));
      if t == 0 {
        BoughtShort(s, u, root, a0, n, a, total);
        return false;
      }
      WriteLeaf(t, a, Pte(pa', WithV(perm)), s, root, a0, n, pa, u.tables, |u.free|);
      BoughtNext(s, u, root, a0, n, a);
      return true;
    }

    // ----- mappages and uvmunmap ------------------------------------------------------------

    /** The loop of mappages, from page a to page last. */
    method MapLoop(root: int, a: int, last: int, pa: int, perm: int, ghost s: Space, ghost total: int)
      returns (ok: bool, ghost n: int)
      requires Sound() && s == State() && IsRoot(own, root) && 0 <= a <= last < MAXVPN && total == last - a + 1
      requires Unmapped(s, root, a, total) && Leaf(Pte(pa, WithV(perm)))
      modifies this`free, this`tables, this`frames, this`own
      ensures MapEnd(s, root, a, n, pa, WithV(perm)) && 0 <= n <= total
      ensures ok ==> n == total && Bought(s, root, a, n)
      ensures !ok ==> n < total && |s.free| < TablesFor(s.tables, root, a, total)
    {
      var a', pa' := a, pa;
      n := 0;
      while true
        invariant 0 <= n < total && a' == a + n && pa' == pa + n && MapInv(s, root, a, n, pa, WithV(perm))
        decreases last - a'
      {
        ok := MapRound(root, a', pa', perm, s, a, n, pa, total);
        if !ok {
          return;
        }
        n := n + 1;
        if a' == last {
          break;
        }
        a', pa' := a' + 1, pa' + 1;
      }
    }

    /** mappages, which panics if one of the pages is mapped. If a table cannot be made the
        pages before it stay mapped. */
    method Mappages(root: int, va: int, size: int, pa: int, perm: int) returns (ret: int, ghost n: int)
      requires Sound() && IsRoot(own, root) && 0 <= va && 0 < size && va + size <= MAXVA
      requires Unmapped(State(), root, va / PGSIZE, (va + size - 1) / PGSIZE - va / PGSIZE + 1)
      requires Leaf(Pte(pa, WithV(perm)))
      modifies this`free, this`tables, this`frames, this`own
      ensures Partition(State(), pages) && Tree(tables, own) && Extends(old(own), own) && frames == old(frames)
      ensures 0 <= n <= (va + size - 1) / PGSIZE - va / PGSIZE + 1
      ensures ret == if n == (va + size - 1) / PGSIZE - va / PGSIZE + 1 then 0 else -1
      ensures ret == 0 <==>
                TablesFor(old(tables), root, va / PGSIZE, (va + size - 1) / PGSIZE - va / PGSIZE + 1) <= |old(free)|
      ensures ret == 0 ==> Bought(old(State()), root, va / PGSIZE, n)
      ensures Mapped(old(State()), State(), root, va / PGSIZE, n, pa, WithV(perm))
    {
      var a, last := va / PGSIZE, (va + size - 1) / PGSIZE;
      var ok;
      ok, n := MapLoop(root, a, last, pa, perm, State(), last - a + 1);
      ret := if ok then 0 else -1;
    }

    method DropPage(ghost root: int, t: int, a: int, doFree: bool)
      requires Valid() && 0 <= a < MAXVPN && t in tables && t in own && own[t] == Place(root, 0, a / 512, own[t].parent)
      requires V(LeafAt(tables, root, a)) && OwnedAt(State(), root, a) == doFree
      modifies this`free, this`tables, this`frames, this`uown
      ensures State() == DropLeaf(old(State()), t, a, doFree) && Valid()
    {
      ghost var u := State();
      ghost var w := u;
      DropLeafUsers(u, t, a, doFree);
      var pte := tables[t][PX0(a)];
      assert V(pte);                          // otherwise: "uvmunmap: not mapped"
      assert EntryOk(tables, own, t, PX0(a));
      assert pte.flags != PTE_V;              // otherwise: "uvmunmap: not a leaf"
      if doFree {
        assert SpotOk(u, pte.ppn);
        Kfree(pte.ppn);
        w := State();
        uown := uown - {pte.ppn};
      }
      tables := SetEntry(tables, t, PX0(a), NOPTE);
      SamePartition(w, State(), pages);
    }

    method UnmapRound(root: int, a: int, doFree: bool, ghost s: Space, ghost a0: int, ghost n: int)
      requires Valid() && Gone(s, State(), root, a0, n, doFree) && IsRoot(s.own, root) && 0 <= a0 && 0 <= n
      requires a == a0 + n < MAXVPN && V(LeafAt(s.tables, root, a)) && OwnedAt(s, root, a) == doFree
      modifies this`free, this`tables, this`frames, this`uown, this`own
      ensures Valid() && Gone(s, State(), root, a0, n + 1, doFree)
    {
      ghost var u := State();
      var t := Walk(root, a, false);
      Chain(tables, own, root, a);
      StillOwned(s, u, root, a0, n, doFree);
      assert t != 0;                          // otherwise: "uvmunmap: walk"
      DropPage(root, t, a, doFree);
      GoneOneMore(s, u, root, a0, n, doFree, t);
    }

    /** uvmunmap, which panics unless every page is mapped. */
    method Uvmunmap(root: int, va: int, npages: int, doFree: bool)
      requires Valid() && IsRoot(own, root) && 0 <= va && va % PGSIZE == 0 && 0 <= npages
      requires va / PGSIZE + npages <= MAXVPN && Unmappable(State(), root, va / PGSIZE, npages, doFree)
      modifies this`free, this`tables, this`frames, this`uown, this`own
      ensures Valid() && Gone(old(State()), State(), root, va / PGSIZE, npages, doFree)
    {
      ghost var s, n := State(), 0;
      ghost var a0 := va / PGSIZE;
      var a := va / PGSIZE;
      while a < va / PGSIZE + npages
        invariant a == a0 + n && 0 <= n <= npages && own == s.own
        invariant Valid() && Gone(s, State(), root, a0, n, doFree)
      {
        UnmapRound(root, a, doFree, s, a0, n);
        n := n + 1;
        a := a + 1;
      }
    }

    /** mappages for one page. */
    method MapPage(root: int, a: int, mem: int, perm: int, ghost t: Space) returns (ret: int)
      requires Sound() && IsRoot(own, root) && 0 <= a < MAXVPN && LeafAt(tables, root, a) == NOPTE
      requires tables == t.tables && own == t.own
      requires Leaf(Pte(mem, WithV(perm)))
      modifies this`free, this`tables, this`frames, this`own
      ensures Sound() && frames == old(frames)
      ensures if ret == 0 then Mapped(t, State(), root, a, 1, mem, WithV(perm)) else SameMaps(t, State())
      ensures ret == 0 <==> Missing(t.tables, root, a) <= |old(free)|
      ensures ret == 0 ==> Took(t.tables, root, a, |old(free)|)
    {
      OnePageRange(a);
      OneMissing(tables, root, a);
      ghost var n;
      ret, n := Mappages(root, a * PGSIZE, PGSIZE, mem, perm);
    }

    // ----- uvmalloc and uvmdealloc ----------------------------------------------------------

    /** Frame mem has been allocated and filled, and nothing else has changed. */
    ghost predicate NewFrame(t: Space, mem: int)
      reads this
    {
      && mem !in t.frames && mem in frames && frames == t.frames[mem := frames[mem]]
      && tables == t.tables && own == t.own && uown == t.uown
    }

    /** Maps page a of root to the frame mem, which the caller has just allocated and filled;
        on failure the frame is freed again. */
    method GivePage(root: int, a: int, mem: int, perm: int, ghost t: Space) returns (ok: bool)
      requires Sound() && Inv(t, pages) && IsRoot(t.own, root) && 0 <= a < MAXVPN && LeafAt(t.tables, root, a) == NOPTE
      requires NewFrame(t, mem)
      requires Leaf(Pte(mem, WithV(perm)))
      modifies this`free, this`tables, this`frames, this`own, this`uown
      ensures Valid()
      ensures if ok then OnePage(t, State(), root, a, mem, WithV(perm), old(frames)[mem])
              else SameMaps(t, State()) && SameUse(t, State())
      ensures ok <==> Missing(t.tables, root, a) <= |old(free)|
      ensures ok ==> Took(t.tables, root, a, |old(free)|)
    {
      assert mem !in t.uown by {
        assert mem in t.uown ==> SpotOk(t, mem);
      }
      var ret := MapPage(root, a, mem, perm, t);
      if ret != 0 {
        Kfree(mem);
        SameMapsUsers(t, State());
        return false;
      }
      ghost var w := State();
      uown := uown[mem := Spot(root, a)];
      SamePartition(w, State(), pages);
      OnePageUsers(t, State(), root, a, mem, WithV(perm), frames[mem]);
      return true;
    }

    ghost predicate AllocInv(s: Space, w: Fill, root: int, a0: int, n: int)
      reads this
    {
      Valid() && Filled(s, State(), w, root, a0, n)
    }

    /** The n pages have cost one free page each, and one for each table that was missing. */
    ghost predicate Paid(s: Space, root: int, a0: int, n: int)
      reads this
    {
      PaidBy(s, State(), root, a0, n)
    }

    /** Page a0 + n: a frame, and the tables that were missing, or else there was not enough. */
    lemma PaidNext(s: Space, t: Space, root: int, a0: int, n: int, a: int, total: int, ok: bool)
      requires 0 <= a0 && 0 <= n < total && a == a0 + n < MAXVPN && PaidBy(s, t, root, a0, n)
      requires if ok then Took(t.tables, root, a, |t.free| - 1) else |t.free| < 1 + Missing(t.tables, root, a)
      ensures if ok then Paid(s, root, a0, n + 1) else |s.free| < PagesFor(s.tables, root, a0, total)
    {
      MissingNext(s.tables, t.tables, root, a0, n);
      if ok {
        LaidNext(s.tables, t.tables, tables, root, a0, n);
      } else {
        TablesMore(s.tables, root, a0, n + 1, total);
      }
    }

    method Give(root: int, a: int, mem: int, perm: int, ghost t: Space,
                ghost s: Space, ghost w: Fill, ghost a0: int, ghost n: int) returns (ok: bool)
      requires Sound() && Inv(t, pages) && Filled(s, t, w, root, a0, n)
      requires a == a0 + n < MAXVPN && LeafAt(s.tables, root, a) == NOPTE
      requires NewFrame(t, mem)
      requires Leaf(Pte(mem, WithV(perm)))
      requires WithV(perm) == FillFlags(s, w, a) && FillData(s, w, a, frames[mem])
      modifies this`free, this`tables, this`frames, this`own, this`uown
      ensures AllocInv(s, w, root, a0, if ok then n + 1 else n)
      ensures ok <==> Missing(t.tables, root, a) <= |old(free)|
      ensures ok ==> Took(t.tables, root, a, |old(free)|)
    {
      assert LeafAt(t.tables, root, a) == NOPTE;
      ok := GivePage(root, a, mem, perm, t);
      if ok {
        FilledOneMore(s, t, State(), w, root, a0, n, mem, WithV(perm), old(frames)[mem]);
      } else {
        FilledSame(s, t, State(), w, root, a0, n);
      }
    }

    /** A frame of zeroes. */
    method ZeroFrame() returns (mem: int)
      requires Valid()
      modifies this`free, this`frames
      ensures if mem == 0 then free == [] && State() == old(State())
              else Sound() && NewFrame(old(State()), mem) && |free| == |old(free)| - 1 && frames[mem] == Bytes(0)
    {
      mem := Kalloc();
      if mem != 0 {
        ghost var u := State();
        frames := frames[mem := Bytes(0)];
        SamePartition(u, State(), pages);
      }
    }

    /** n pages have been added, at that price. */
    ghost predicate Given(s: Space, w: Fill, root: int, a0: int, n: int)
      reads this
    {
      AllocInv(s, w, root, a0, n) && Paid(s, root, a0, n)
    }

    /** One round of uvmalloc. */
    method AllocRound(root: int, a: int, xperm: int,
            ghost s: Space, ghost w: Fill, ghost a0: int, ghost n: int, ghost total: int) returns (ok: bool)
      requires Given(s, w, root, a0, n) && a == a0 + n < MAXVPN && n < total
      requires xperm in {0, PTE_W, PTE_X, PTE_W + PTE_X} && w == Zeroes(PTE_V + PTE_R + PTE_U + xperm)
      requires LeafAt(s.tables, root, a) == NOPTE
      modifies this`free, this`tables, this`frames, this`own, this`uown
      ensures if ok then Given(s, w, root, a0, n + 1)
              else AllocInv(s, w, root, a0, n) && |s.free| < PagesFor(s.tables, root, a0, total)
    {
      ghost var t := State();
      var mem := ZeroFrame();
      ok := mem != 0;
      if ok {
        ok := Give(root, a, mem, PTE_R + PTE_U + xperm, t, s, w, a0, n);
      }
      PaidNext(s, t, root, a0, n, a, total, ok);
    }

    /** A frame with the bytes of page a of `from`, and the flags of that page. */
    method CopyFrame(from: int, a: int) returns (mem: int, flags: int)
      requires Valid() && IsRoot(own, from) && 0 <= a < MAXVPN && V(LeafAt(tables, from, a))
        && OwnedAt(State(), from, a)
      modifies this`free, this`tables, this`frames, this`own
      ensures flags == LeafAt(old(tables), from, a).flags && V(Pte(0, flags)) && Leaf(Pte(0, flags))
      ensures LeafAt(old(tables), from, a).ppn in old(frames)
      ensures if mem == 0 then free == [] && State() == old(State())
              else
                && Sound() && NewFrame(old(State()), mem) && |free| == |old(free)| - 1
                && frames[mem] == old(frames)[LeafAt(old(tables), from, a).ppn]
    {
      var tab := Walk(from, a, false);
      Chain(tables, own, from, a);
      assert tab != 0;                        // otherwise: "uvmcopy: pte should exist"
      LeafInTable(State(), tab, a);
      var pte := tables[tab][PX0(a)];
      assert V(pte);                          // otherwise: "uvmcopy: page not present"
      assert EntryOk(tables, own, tab, PX0(a)) && SpotOk(State(), pte.ppn);
      flags := pte.flags;
      mem := Kalloc();
      if mem != 0 {
        ghost var u := State();
        frames := frames[mem := frames[pte.ppn]];
        SamePartition(u, State(), pages);
      }
    }

    /** ... and of uvmcopy: page a of root is to be a copy of page a of `from`. */
    method CopyRound(from: int, root: int, a: int, ghost s: Space, ghost n: int, ghost total: int) returns (ok: bool)
      requires Given(s, CopyOf(from), root, 0, n) && a == n < MAXVPN && n < total && from != root && IsRoot(s.own, from)
      requires LeafAt(s.tables, root, a) == NOPTE && V(LeafAt(s.tables, from, a)) && OwnedAt(s, from, a) && Users(s)
      modifies this`free, this`tables, this`frames, this`own, this`uown
      ensures if ok then Given(s, CopyOf(from), root, 0, n + 1)
              else AllocInv(s, CopyOf(from), root, 0, n) && |s.free| < PagesFor(s.tables, root, 0, total)
    {
      ghost var t := State();
      assert LeafAt(tables, from, a) == LeafAt(s.tables, from, a);
      SourceFrame(s, t, root, from, n);
      var mem, flags := CopyFrame(from, a);
      ok := mem != 0;
      if ok {
        ok := Give(root, a, mem, flags, t, s, CopyOf(from), 0, n);
      }
      PaidNext(s, t, root, 0, n, a, total, ok);
    }

    /** Takes back the pages that uvmcopy has added. */
    method Rollback(root: int, npages: int, ghost s: Space, ghost w: Fill)
      requires Inv(s, pages) && AllocInv(s, w, root, 0, npages) && Unmapped(s, root, 0, npages)
      modifies this`free, this`tables, this`frames, this`own, this`uown
      ensures Valid() && SameMaps(s, State()) && SameUse(s, State())
    {
      ghost var t := State();
      AddedUnmappable(s, t, root, 0, npages);
      Uvmunmap(root, 0, npages, true);
      AddedThenGone(s, t, State(), root, 0, npages);
    }

    /** uvmdealloc: only whole pages above newsz go. */
    method Uvmdealloc(root: int, oldsz: int, newsz: int) returns (r: int)
      requires Valid() && IsRoot(own, root) && 0 <= newsz && 0 <= oldsz <= MAXVA
      requires newsz < oldsz ==> Unmappable(State(), root, Up(newsz), Up(oldsz) - Up(newsz), true)
      modifies this`free, this`tables, this`frames, this`own, this`uown
      ensures Valid() && r == if newsz >= oldsz then oldsz else newsz
      ensures if newsz >= oldsz then State() == old(State())
              else Gone(old(State()), State(), root, Up(newsz), Up(oldsz) - Up(newsz), true)
    {
      if newsz >= oldsz {
        return oldsz;
      }
      RoundUp(oldsz);
      RoundUp(newsz);
      if Up(newsz) < Up(oldsz) {
        var npages := (Up(oldsz) * PGSIZE - Up(newsz) * PGSIZE) / PGSIZE;
        Uvmunmap(root, Up(newsz) * PGSIZE, npages, true);
      }
      return newsz;
    }

    /** Takes back the n pages that uvmalloc has added from page a0 on. */
    method Undo(root: int, a: int, start: int, ghost a0: int, ghost s: Space, ghost w: Fill, ghost n: int)
      requires Inv(s, pages) && AllocInv(s, w, root, a0, n) && Unmapped(s, root, a0, n)
      requires start == a0 * PGSIZE && a == (a0 + n) * PGSIZE
      modifies this`free, this`tables, this`frames, this`own, this`uown
      ensures Valid() && SameMaps(s, State()) && SameUse(s, State())
    {
      ghost var t := State();
      AddedUnmappable(s, t, root, a0, n);
      Exact(a0);
      Exact(a0 + n);
      var r := Uvmdealloc(root, a, start);
      AddedThenGone(s, t, State(), root, a0, n);
    }

    /** The loop of uvmalloc: it stops at a if there is no memory for the page there. */
    method AllocPages(root: int, start: int, newsz: int, xperm: int,
            ghost s: Space, ghost w: Fill, ghost a0: int, ghost total: int) returns (a: int, ghost n: int)
      requires Valid() && s == State() && IsRoot(own, root) && newsz <= MAXVA
      requires xperm in {0, PTE_W, PTE_X, PTE_W + PTE_X} && w == Zeroes(PTE_V + PTE_R + PTE_U + xperm)
      requires 0 <= a0 && 0 <= total == Up(newsz) - a0 && start == a0 * PGSIZE && Unmapped(s, root, a0, total)
      modifies this`free, this`tables, this`frames, this`own, this`uown
      ensures 0 <= n <= total && a == (a0 + n) * PGSIZE && AllocInv(s, w, root, a0, n)
      ensures if a >= newsz then n == total && Paid(s, root, a0, n) else |s.free| < PagesFor(s.tables, root, a0, total)
    {
      RoundUp(newsz);
      n := 0;
      FilledStart(s, w, root, a0);
      a := start;
      while a < newsz
        invariant 0 <= n <= total && a == (a0 + n) * PGSIZE && Given(s, w, root, a0, n)
      {
        Aligned(a0 + n);
        var good := AllocRound(root, a / PGSIZE, xperm, s, w, a0, n, total);
        if !good {
          return;
        }
        n := n + 1;
        a := a + PGSIZE;
      }
    }

    /** uvmalloc: grows the address space by cleared pages, each in a frame of its own; if
        memory runs out everything that was there before is as it was, and every frame that
        was taken is free again. It needs a free page for each new one and for each missing table. */
    method Uvmalloc(root: int, oldsz: int, newsz: int, xperm: int) returns (r: int, ghost ok: bool)
      requires Valid() && IsRoot(own, root) && 0 <= oldsz && newsz <= MAXVA && xperm in {0, PTE_W, PTE_X, PTE_W + PTE_X}
      requires Unmapped(State(), root, Up(oldsz), Up(newsz) - Up(oldsz))
      modifies this`free, this`tables, this`frames, this`own, this`uown
      ensures Valid()
      ensures r == if newsz < oldsz then oldsz else if ok then newsz else 0
      ensures newsz < oldsz ==> State() == old(State())
      ensures newsz >= oldsz && ok ==>
                Filled(old(State()), State(), Zeroes(PTE_V + PTE_R + PTE_U + xperm), root, Up(oldsz),
                  Up(newsz) - Up(oldsz))
      ensures newsz >= oldsz && !ok ==> SameMaps(old(State()), State()) && SameUse(old(State()), State())
      ensures newsz >= oldsz ==>
                (ok <==> PagesFor(old(tables), root, Up(oldsz), Up(newsz) - Up(oldsz)) <= |old(free)|)
    {
      ok := true;
      if newsz < oldsz {
        return oldsz, true;
      }
      RoundUp(oldsz);
      RoundUp(newsz);
      ghost var s, a0 := State(), Up(oldsz);
      var start := Up(oldsz) * PGSIZE;
      var a;
      ghost var n;
      a, n := AllocPages(root, start, newsz, xperm, s, Zeroes(PTE_V + PTE_R + PTE_U + xperm), a0, Up(newsz) - a0);
      if a < newsz {
        Undo(root, a, start, a0, s, Zeroes(PTE_V + PTE_R + PTE_U + xperm), n);
        return 0, false;
      }
      return newsz, true;
    }

    /** The loop of uvmcopy: it stops at i if there is no memory for the page there. */
    method CopyPages(from: int, to: int, sz: int, ghost s: Space) returns (i: int, ghost n: int)
      requires Valid() && s == State() && IsRoot(own, from) && IsRoot(own, to) && from != to && 0 <= sz <= MAXVA
      requires Backed(s, from, 0, Up(sz)) && Unmapped(s, to, 0, Up(sz))
      modifies this`free, this`tables, this`frames, this`own, this`uown
      ensures 0 <= n <= Up(sz) && i == n * PGSIZE && AllocInv(s, CopyOf(from), to, 0, n)
      ensures if i >= sz then n == Up(sz) && Paid(s, to, 0, n) else |s.free| < PagesFor(s.tables, to, 0, Up(sz))
    {
      RoundUp(sz);
      n := 0;
      FilledStart(s, CopyOf(from), to, 0);
      i := 0;
      while i < sz
        invariant 0 <= n <= Up(sz) && i == n * PGSIZE
        invariant Given(s, CopyOf(from), to, 0, n)
      {
        Aligned(n);
        var ok := CopyRound(from, to, i / PGSIZE, s, n, Up(sz));
        if !ok {
          return;
        }
        n := n + 1;
        i := i + PGSIZE;
      }
    }

    /** uvmcopy: gives `to` a copy of every page below sz of `from`, or leaves it as it was. */
    method Uvmcopy(from: int, to: int, sz: int) returns (ret: int)
      requires Valid() && IsRoot(own, from) && IsRoot(own, to) && from != to && 0 <= sz <= MAXVA
      requires Backed(State(), from, 0, Up(sz)) && Unmapped(State(), to, 0, Up(sz))
      modifies this`free, this`tables, this`frames, this`own, this`uown
      ensures Valid() && (ret == 0 || ret == -1)
      ensures ret == 0 ==> Filled(old(State()), State(), CopyOf(from), to, 0, Up(sz))
      ensures ret == -1 ==> SameMaps(old(State()), State()) && SameUse(old(State()), State())
      ensures ret == 0 <==> PagesFor(old(tables), to, 0, Up(sz)) <= |old(free)|
    {
      ghost var s := State();
      var i;
      ghost var n;
      i, n := CopyPages(from, to, sz, s);
      if i < sz {
        Aligned(n);
        Rollback(to, i / PGSIZE, s, CopyOf(from));
        return -1;
      }
      return 0;
    }

    // ----- freewalk and uvmfree -------------------------------------------------------------

    /** The page of table t, which nothing leads to any more, goes back to the allocator. */
    method KfreeTable(t: int)
      requires Partition(State(), pages) && t in tables
      modifies this`free, this`tables, this`frames, this`own
      ensures Partition(State(), pages) && frames == old(frames)
      ensures tables == old(tables) - {t} && own == old(own) - {t} && free == [t] + old(free)
    {
      assert PartOk(State(), pages, t);
      ReleaseTable(State(), pages, t);
      tables, own, frames := tables - {t}, own - {t}, frames[t := Bytes(5)];
      Kfree(t);
      assert frames == old(frames);
    }

    method FreewalkEntry(t: int, i: int, ghost level: int, ghost m0: Tables, ghost own0: map<int, Place>)
      requires Sound() && Tree(m0, own0) && t in own0 && own0[t].level == level && NoLeaves(m0, own0, t)
      requires 0 <= i < NPTE && Pruned(m0, own0, tables, own, t, i)
      modifies this`free, this`tables, this`frames, this`own
      ensures Sound() && frames == old(frames) && Pruned(m0, own0, tables, own, t, i + 1)
      decreases level, 0
    {
      assert PlaceOk(m0, own0, t) && PrunedAt(m0, own0, tables, own, t, i, t) && PlaceOk(tables, own, t);
      assert EntryOk(tables, own, t, i);
      assert Entry(tables, t, i) == Entry(m0, t, i) && Under(own0, t, t);
      var pte := tables[t][i];
      if V(pte) && !Leaf(pte) {
        ghost var m1, own1 := tables, own;
        NoLeavesBelow(m0, own0, m1, own1, t, i);
        Freewalk(pte.ppn, level - 1);
        PruneStep(m0, own0, m1, own1, tables, own, t, i);
        CutTree(m1, own1, tables, own, t, i);
        ghost var s := State();
        tables := SetEntry(tables, t, i, NOPTE);
        SamePartition(s, State(), pages);
      } else {
        assert !V(pte);                       // otherwise: "freewalk: leaf"
        PruneSkip(m0, own0, tables, own, t, i);
      }
    }

    /** freewalk: gives back t and every table below it, each once. */
    method Freewalk(t: int, ghost level: int)
      requires Sound() && t in tables && t in own && own[t].level == level && NoLeaves(tables, own, t)
      modifies this`free, this`tables, this`frames, this`own
      ensures Partition(State(), pages) && frames == old(frames)
      ensures Removed(old(tables), old(own), tables, own, t)
      decreases level, 1
    {
      ghost var m0, own0 := tables, own;
      PruneStart(m0, own0, t);
      for i := 0 to NPTE
        invariant Sound() && frames == old(frames) && Pruned(m0, own0, tables, own, t, i)
      {
        FreewalkEntry(t, i, level, m0, own0);
      }
      PruneEnd(m0, own0, tables, own, t);
      KfreeTable(t);
    }

    method UnmapAll(root: int, sz: int)
      requires Valid() && IsRoot(own, root) && 0 <= sz <= MAXVA && 0 <= Up(sz) <= MAXVPN
      requires Unmappable(State(), root, 0, Up(sz), true) && Unmapped(State(), root, Up(sz), MAXVPN - Up(sz))
      modifies this`free, this`tables, this`frames, this`own, this`uown
      ensures Valid() && Gone(old(State()), State(), root, 0, Up(sz), true)
      ensures forall x :: x in tables <==> x in old(tables)
      ensures forall v | 0 <= v < MAXVPN :: LeafAt(tables, root, v) == NOPTE
    {
      ghost var s := State();
      if sz > 0 {
        Uvmunmap(root, 0, Up(sz) * PGSIZE / PGSIZE, true);
      }
      forall x ensures x in tables <==> x in old(tables) {
        assert PlaceOk(s.tables, s.own, x) && PlaceOk(tables, own, x);
      }
    }

    /** uvmfree: gives back every frame and every table page of an address space whose only
        pages lie below sz, and touches no other. */
    method Uvmfree(root: int, sz: int)
      requires Valid() && IsRoot(own, root) && 0 <= sz <= MAXVA
      requires Unmappable(State(), root, 0, Up(sz), true) && Unmapped(State(), root, Up(sz), MAXVPN - Up(sz))
      modifies this`free, this`tables, this`frames, this`own, this`uown
      ensures Valid() && Destroyed(old(State()), State(), root)
    {
      RoundUp(sz);
      ghost var s := State();
      UnmapAll(root, sz);
      ghost var t := State();
      EmptyMap(tables, own, root);
      assert PlaceOk(tables, own, root);
      Freewalk(root, 2);
      DestroyedUsers(s, t, State(), root, Up(sz));
    }

    // ----- copies to and from user memory -----------------------------------------------------

    /** walkaddr: the frame of a page that user code can use, or 0. */
    method Walkaddr(root: int, v: int) returns (f: int)
      requires Valid() && IsRoot(own, root) && 0 <= v
      modifies this`free, this`tables, this`frames, this`own
      ensures State() == old(State()) && Valid()
      ensures if Reach(State(), root, v) then f == LeafAt(tables, root, v).ppn && f in frames && f != 0 else f == 0
    {
      if v >= MAXVPN {
        return 0;
      }
      var t := Walk(root, v, false);
      if t == 0 {
        return 0;
      }
      Chain(tables, own, root, v);
      LeafInTable(State(), t, v);
      var pte := tables[t][PX0(v)];
      if !V(pte) || !U(pte) {
        return 0;
      }
      ReachedFrame(State(), root, v);
      assert PartOk(State(), pages, pte.ppn);
      return pte.ppn;
    }

    method StorePage(root: int, dst: int, bytes: seq<Byte>, ghost s: Space, ghost a: int, ghost before: seq<Byte>)
      returns (ok: bool)
      requires Valid() && IsRoot(own, root) && Inv(s, pages) && Stored(s, State(), root, a, before)
      requires 0 <= a && dst == a + |before| && dst % PGSIZE + |bytes| <= PGSIZE
      modifies this`free, this`tables, this`frames, this`own
      ensures Valid() && ok == Reach(State(), root, dst / PGSIZE)
      ensures Stored(s, State(), root, a, if ok then before + bytes else before)
    {
      var f := Walkaddr(root, dst / PGSIZE);
      ok := f != 0;
      if ok {
        ghost var t := State();
        frames := frames[f := Patch(frames[f], dst % PGSIZE, bytes)];
        StoredMore(s, t, State(), root, a, before, bytes, f);
        StoredUsers(s, State(), root, a, before + bytes, pages);
      }
    }

    /** copyout: stores src at dstva, up to the first page that is not user memory. */
    method Copyout(root: int, dstva: int, src: seq<Byte>) returns (ret: int, ghost done: int)
      requires Valid() && IsRoot(own, root) && 0 <= dstva
      modifies this`free, this`tables, this`frames, this`own
      ensures Valid() && 0 <= done <= |src| && Stored(old(State()), State(), root, dstva, src[..done])
      ensures ret == if done == |src| then 0 else -1
      ensures done < |src| ==> !Reach(State(), root, (dstva + done) / PGSIZE)
    {
      ghost var s := State();
      var len, dst := 0, dstva;
      done := 0;
      assert src[..0] == [];
      while len < |src|
        invariant 0 <= len <= |src| && dst == dstva + len && done == len
        invariant Valid() && Stored(s, State(), root, dstva, src[..len])
      {
        var n := PGSIZE - dst % PGSIZE;
        if n > |src| - len {
          n := |src| - len;
        }
        var ok := StorePage(root, dst, src[len..len + n], s, dstva, src[..len]);
        if !ok {
          return -1, len;
        }
        assert src[..len] + src[len..len + n] == src[..len + n];
        len, dst, done := len + n, dst + n, done + n;
      }
      ret := 0;
    }

    /** copyin: the len bytes at srcva, if all of them are user memory. */
    method Copyin(root: int, srcva: int, len: int) returns (ret: int, dst: seq<Byte>)
      requires Valid() && IsRoot(own, root) && 0 <= srcva && 0 <= len
      modifies this`free, this`tables, this`frames, this`own
      ensures State() == old(State())
      ensures ret == if |dst| == len then 0 else -1
      ensures |dst| <= len && Copied(State(), root, srcva, dst)
      ensures |dst| < len ==> !Reach(State(), root, (srcva + |dst|) / PGSIZE)
    {
      ghost var s := State();
      dst := [];
      while |dst| < len
        invariant State() == s && |dst| <= len && Copied(s, root, srcva, dst)
        decreases len - |dst|
      {
        var src := srcva + |dst|;
        var n := PGSIZE - src % PGSIZE;
        if n > len - |dst| {
          n := len - |dst|;
        }
        var f := Walkaddr(root, src / PGSIZE);
        if f == 0 {
          return -1, dst;
        }
        var bytes := frames[f][src % PGSIZE..src % PGSIZE + n];
        CopiedMore(s, root, srcva, dst, f, bytes);
        dst := dst + bytes;
      }
      ret := 0;
    }

    /** The inner loop of copyinstr: the bytes of a frame from o on, up to the first NUL. */
    method ScanFrame(f: int, o: int, n: int) returns (nul: bool, bytes: seq<Byte>)
      requires f in frames && 0 <= o && 0 < n && o + n <= PGSIZE
      ensures 0 < |bytes| <= n && bytes == frames[f][o..o + |bytes|] && 0 !in bytes[..|bytes| - 1]
      ensures if nul then bytes[|bytes| - 1] == 0 else |bytes| == n && 0 !in bytes
    {
      bytes := [];
      var p := 0;
      while p < n
        invariant 0 <= p <= n && |bytes| == p && bytes == frames[f][o..o + p]
        invariant 0 !in bytes
      {
        var c := frames[f][o + p];
        bytes := bytes + [c];
        if c == 0 {
          return true, bytes;
        }
        p := p + 1;
      }
      nul := false;
    }

    /** copyinstr: the bytes at srcva up to and with the first NUL, if there is one among the
        first max bytes and all of them are user memory. */
    method Copyinstr(root: int, srcva: int, max: int) returns (ret: int, dst: seq<Byte>)
      requires Valid() && IsRoot(own, root) && 0 <= srcva && 0 <= max
      modifies this`free, this`tables, this`frames, this`own
      ensures State() == old(State()) && |dst| <= max && Copied(State(), root, srcva, dst)
      ensures if ret == 0 then |dst| > 0 && dst[|dst| - 1] == 0 && 0 !in dst[..|dst| - 1]
              else ret == -1 && (0 !in dst) && (|dst| == max || !Reach(State(), root, (srcva + |dst|) / PGSIZE))
    {
      ghost var s := State();
      dst := [];
      while |dst| < max
        invariant State() == s && |dst| <= max && Copied(s, root, srcva, dst)
        invariant 0 !in dst
        decreases max - |dst|
      {
        var src := srcva + |dst|;
        var n := PGSIZE - src % PGSIZE;
        if n > max - |dst| {
          n := max - |dst|;
        }
        var f := Walkaddr(root, src / PGSIZE);
        if f == 0 {
          return -1, dst;
        }
        var nul, bytes := ScanFrame(f, src % PGSIZE, n);
        CopiedMore(s, root, srcva, dst, f, bytes);
        dst := dst + bytes;
        if nul {
          return 0, dst;
        }
      }
      ret := -1;
    }
  }
}
