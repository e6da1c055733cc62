/** Three-level page tables in physical memory (vm.c; the Sv39 scheme of section 4.4 of the
    RISC-V privileged architecture), as trees and as maps from page number to entry. */
module PageTable {
  const PGSIZE := 4096
  const NPTE := 512
  const MAXVPN := 0x400_0000         // MAXVA / PGSIZE
  const MAXVA := MAXVPN * PGSIZE
  const PTE_V := 1
  const PTE_R := 2
  const PTE_W := 4
  const PTE_X := 8
  const PTE_U := 16

  /** An entry: a physical page number and the ten flag bits. */
  datatype Pte = Pte(ppn: int, flags: int)

  const NOPTE := Pte(0, 0)

  predicate V(e: Pte) { e.flags % 2 == 1 }

  predicate U(e: Pte) { e.flags / 16 % 2 == 1 }

  predicate Leaf(e: Pte) { e.flags / 2 % 8 != 0 }    // PTE_R | PTE_W | PTE_X

  /** The flags are bits: V is bit 0, R, W and X are bits 1 to 3, U is bit 4. */
  lemma FlagBits(e: Pte, v: nat, r: nat, w: nat, x: nat, u: nat, more: nat)
    requires v < 2 && r < 2 && w < 2 && x < 2 && u < 2
    requires e.flags == v * PTE_V + r * PTE_R + w * PTE_W + x * PTE_X + u * PTE_U + 32 * more
    ensures (V(e) <==> v == 1) && (U(e) <==> u == 1) && (Leaf(e) <==> r == 1 || w == 1 || x == 1)
  {
    assert e.flags / 2 == r + 2 * w + 4 * x + 8 * (u + 2 * more);
    assert e.flags / 16 == u + 2 * more;
  }

  type Table = t: seq<Pte> | |t| == NPTE witness seq(NPTE, _ => Pte(0, 0))

  function Cleared(): (t: Table)
    ensures forall i | 0 <= i < NPTE :: t[i] == NOPTE
  {
    seq(NPTE, _ => NOPTE)
  }

  // ----- the 9-bit fields of a page number --------------------------------------------

  function PX2(v: int): int { v / 0x4_0000 }

  function PX1(v: int): int { v / 512 % 512 }

  function PX0(v: int): int { v % 512 }

  /** The three fields determine the page number. */
  lemma Fields(v: int)
    requires 0 <= v < MAXVPN
    ensures 0 <= PX2(v) < 256 && 0 <= PX1(v) < NPTE && 0 <= PX0(v) < NPTE
    ensures PX2(v) * 512 + PX1(v) == v / 512
    ensures (PX2(v) * 512 + PX1(v)) * 512 + PX0(v) == v
  {
  }

  // ----- following the tables -----------------------------------------------------------

  type Tables = map<int, Table>

  function Entry(m: Tables, t: int, i: int): Pte {
    if t in m && 0 <= i < NPTE then m[t][i] else NOPTE
  }

  /** The page an entry leads to, 0 if it is not valid. */
  function Next(m: Tables, t: int, i: int): int {
    if V(Entry(m, t, i)) then Entry(m, t, i).ppn else 0
  }

  /** The last-level table for page v. */
  function Table0(m: Tables, root: int, v: int): int {
    Next(m, Next(m, root, PX2(v)), PX1(v))
  }

  /** A page table as a map: the entry for page v, NOPTE where there is none. */
  function LeafAt(m: Tables, root: int, v: int): Pte {
    Entry(m, Table0(m, root, v), PX0(v))
  }

  // ----- the tables form trees ------------------------------------------------------------

  /** A table's root, its level, the page number's leading fields on the way to it, and the
      table above it. */
  datatype Place = Place(root: int, level: int, pre: int, parent: int)

  ghost predicate ParentFits(m: Tables, own: map<int, Place>, t: int, p: Place) {
    && p.parent in m && p.parent in own && Next(m, p.parent, p.pre % 512) == t
    && own[p.parent].root == p.root && own[p.parent].level == p.level + 1 && own[p.parent].pre == p.pre / 512
  }

  /** A table is its own root, or the table above has the entry that leads to it. */
  ghost predicate PlaceFits(m: Tables, own: map<int, Place>, t: int, p: Place) {
    && 0 <= p.level <= 2 && 0 <= p.pre
    && (p.level == 2 ==> p == Place(t, 2, 0, t))
    && (p.level < 2 ==> ParentFits(m, own, t, p))
  }

  ghost predicate PlaceOk(m: Tables, own: map<int, Place>, t: int) {
    && (t in own <==> t in m)
    && (t in own ==> PlaceFits(m, own, t, own[t]))
  }

  ghost predicate EntryFits(m: Tables, own: map<int, Place>, t: int, i: int, e: Pte, p: Place) {
    && (!V(e) ==> e == NOPTE)
    && (V(e) && p.level == 0 ==> Leaf(e))
    && (V(e) && p.level > 0 ==>
        e.flags == PTE_V && e.ppn in m && e.ppn in own && own[e.ppn] == Place(p.root, p.level - 1, p.pre * 512 + i, t))
    && (V(e) && p.level == 2 ==> i < 256)
  }

  ghost predicate EntryOk(m: Tables, own: map<int, Place>, t: int, i: int) {
    t in m && t in own && 0 <= i < NPTE ==> EntryFits(m, own, t, i, m[t][i], own[t])
  }

  ghost predicate Tree(m: Tables, own: map<int, Place>) {
    0 !in m && (forall t :: PlaceOk(m, own, t)) && (forall t, i :: EntryOk(m, own, t, i))
  }

  ghost predicate IsRoot(own: map<int, Place>, r: int) {
    r in own && own[r].level == 2
  }

  /** Where the walk for page v of root r goes, as far as it gets. */
  lemma Chain(m: Tables, own: map<int, Place>, r: int, v: int)
    requires Tree(m, own) && IsRoot(own, r) && 0 <= v < MAXVPN
    ensures own[r] == Place(r, 2, 0, r)
    ensures var t1 := Next(m, r, PX2(v));
            (t1 == 0 || (t1 in m && t1 in own && own[t1] == Place(r, 1, PX2(v), r)))
    ensures var t0 := Table0(m, r, v);
            (t0 == 0 || (t0 in m && t0 in own && own[t0] == Place(r, 0, v / 512, Next(m, r, PX2(v)))))
  {
    Fields(v);
    assert PlaceOk(m, own, r) && EntryOk(m, own, r, PX2(v));
    var t1 := Next(m, r, PX2(v));
    if t1 in m {
      assert EntryOk(m, own, t1, PX1(v));
    }
  }

  /** Two tables never stand in the same place. */
  lemma OnePlace(m: Tables, own: map<int, Place>, t: int, u: int)
    requires Tree(m, own) && t in own && u in own
    requires own[t].root == own[u].root && own[t].level == own[u].level && own[t].pre == own[u].pre
    ensures t == u
    decreases 2 - own[t].level
  {
    assert PlaceOk(m, own, t) && PlaceOk(m, own, u);
    if own[t].level < 2 {
      OnePlace(m, own, own[t].parent, own[u].parent);
    }
  }

  /** A last-level table is the one its page numbers lead to. */
  lemma Reached(m: Tables, own: map<int, Place>, t: int)
    requires Tree(m, own) && t in m && t in own && own[t].level == 0
    ensures IsRoot(own, own[t].root) && 0 <= own[t].pre < MAXVPN / 512
    ensures forall v | 0 <= v < MAXVPN && v / 512 == own[t].pre :: Table0(m, own[t].root, v) == t
  {
    var t1 := own[t].parent;
    assert PlaceOk(m, own, t) && PlaceOk(m, own, t1);
    var r := own[t1].parent;
    assert PlaceOk(m, own, r);
    var i := own[t1].pre % 512;
    assert EntryOk(m, own, r, i) && m[r][i] == Pte(t1, PTE_V) && i < 256;
    assert own[t1] == Place(r, 1, i, r) && own[t].pre / 512 == i;
    forall v | 0 <= v < MAXVPN && v / 512 == own[t].pre ensures Table0(m, own[t].root, v) == t {
      assert PX2(v) == own[t1].pre && PX1(v) == own[t].pre % 512;
    }
  }

  // ----- which tables there are -----------------------------------------------------------

  /** There is a second-level table for page v ... */
  ghost predicate Has1(m: Tables, r: int, v: int) {
    Next(m, r, PX2(v)) != 0
  }

  /** ... and a last-level one. */
  ghost predicate Has0(m: Tables, r: int, v: int) {
    Table0(m, r, v) != 0
  }

  /** The tables that walk has to make for page v. */
  ghost function Missing(m: Tables, r: int, v: int): int {
    (if Has1(m, r, v) then 0 else 1) + if Has0(m, r, v) then 0 else 1
  }

  /** The tables that walk has made on its way to page v of r, down to this level. */
  ghost predicate Way(m: Tables, m': Tables, r: int, v: int, level: int) {
    && (level == 2 ==> m' == m)
    && forall w | 0 <= w < MAXVPN ::
         && (Has1(m', r, w) <==> Has1(m, r, w) || (level < 2 && PX2(w) == PX2(v)))
         && (Has0(m', r, w) <==> Has0(m, r, w) || (level < 1 && w / 512 == v / 512))
  }

  /** The tables that walk has made down to this level. */
  ghost function Made(m: Tables, r: int, v: int, level: int): int {
    (if level < 2 && !Has1(m, r, v) then 1 else 0) + if level < 1 && !Has0(m, r, v) then 1 else 0
  }

  /** A table is counted at the first page of those from a on that need it. */
  ghost function NewAt(m: Tables, r: int, a: int, v: int): int {
    (if Has1(m, r, v) || (v > a && PX2(v - 1) == PX2(v)) then 0 else 1)
    + if Has0(m, r, v) || (v > a && (v - 1) / 512 == v / 512) then 0 else 1
  }

  /** The tables that are missing for the n pages from a on. */
  ghost function TablesFor(m: Tables, r: int, a: int, n: int): (k: nat) {
    if n <= 0 then 0 else TablesFor(m, r, a, n - 1) + NewAt(m, r, a, a + n - 1)
  }

  lemma {:induction false} TablesMore(m: Tables, r: int, a: int, n: int, n': int)
    requires n <= n'
    ensures TablesFor(m, r, a, n) <= TablesFor(m, r, a, n')
    decreases n' - n
  {
    if n < n' {
      TablesMore(m, r, a, n, n' - 1);
    }
  }

  /** One table for 512 pages, one for 512 of these, and at most one more of either kind. */
  lemma {:induction false} FewTables(m: Tables, r: int, a: int, n: int)
    requires 0 <= a && 0 < n
    ensures TablesFor(m, r, a, n) <= (a + n - 1) / 512 - a / 512 + PX2(a + n - 1) - PX2(a) + 2
  {
    if n > 1 {
      FewTables(m, r, a, n - 1);
    } else {
      assert TablesFor(m, r, a, 0) == 0;
    }
  }

  /** For pages past the n from a on, the tables are those there were and those these n needed. */
  ghost predicate Laid(m: Tables, m': Tables, r: int, a: int, n: int) {
    forall w | a + n <= w < MAXVPN ::
      && (Has1(m', r, w) <==> Has1(m, r, w) || (n > 0 && PX2(w) == PX2(a + n - 1)))
      && (Has0(m', r, w) <==> Has0(m, r, w) || (n > 0 && w / 512 == (a + n - 1) / 512))
  }

  /** What is missing for the next page. */
  lemma LaidNext(m: Tables, m1: Tables, m2: Tables, r: int, a: int, n: int)
    requires Laid(m, m1, r, a, n) && Laid(m1, m2, r, a + n, 1) && 0 <= a && 0 <= n && a + n < MAXVPN
    ensures Laid(m, m2, r, a, n + 1)
  {}

  lemma MissingNext(m: Tables, m1: Tables, r: int, a: int, n: int)
    requires Laid(m, m1, r, a, n) && 0 <= a && 0 <= n && a + n < MAXVPN
    ensures TablesFor(m, r, a, n + 1) == TablesFor(m, r, a, n) + Missing(m1, r, a + n)
  {}

  // ----- changing a tree ----------------------------------------------------------------

  function SetEntry(m: Tables, t: int, k: int, e: Pte): Tables
    requires t in m && 0 <= k < NPTE
  {
    m[t := m[t][k := e]]
  }

  /** Writing a last-level entry changes the map of one root at one page number. */
  lemma SetLeaf(m: Tables, own: map<int, Place>, t: int, k: int, e: Pte)
    requires Tree(m, own) && t in m && t in own && own[t].level == 0 && 0 <= k < NPTE
    requires e == NOPTE || (V(e) && Leaf(e))
    ensures Tree(SetEntry(m, t, k, e), own)
    ensures forall r, v | IsRoot(own, r) && 0 <= v < MAXVPN ::
              LeafAt(SetEntry(m, t, k, e), r, v) ==
              if r == own[t].root && v == own[t].pre * 512 + k then e else LeafAt(m, r, v)
  {
    var m' := SetEntry(m, t, k, e);
    forall x ensures PlaceOk(m', own, x) {
      assert PlaceOk(m, own, x);
    }
    forall x, i ensures EntryOk(m', own, x, i) {
      assert EntryOk(m, own, x, i);
    }
    forall r, v | IsRoot(own, r) && 0 <= v < MAXVPN
      ensures LeafAt(m', r, v) ==
              if r == own[t].root && v == own[t].pre * 512 + k then e else LeafAt(m, r, v)
    {
      Chain(m, own, r, v);
      Reached(m, own, t);
      Fields(v);
    }
  }

  /** The tables with a cleared table c put under entry k of t, and their places. */
  function Grow(m: Tables, t: int, k: int, c: int): Tables
    requires t in m && 0 <= k < NPTE
  {
    m[c := Cleared()][t := m[t][k := Pte(c, PTE_V)]]
  }

  function GrowOwn(own: map<int, Place>, t: int, k: int, c: int): map<int, Place>
    requires t in own
  {
    own[c := Place(own[t].root, own[t].level - 1, own[t].pre * 512 + k, t)]
  }

  ghost predicate Growable(m: Tables, own: map<int, Place>, t: int, k: int, c: int) {
    && Tree(m, own) && t in m && t in own && own[t].level > 0 && 0 <= k < NPTE && m[t][k] == NOPTE
    && (own[t].level == 2 ==> k < 256) && c !in m && c !in own && c != 0
  }

  lemma GrowTree(m: Tables, own: map<int, Place>, t: int, k: int, c: int)
    requires Growable(m, own, t, k, c)
    ensures Tree(Grow(m, t, k, c), GrowOwn(own, t, k, c))
  {
    var m', own' := Grow(m, t, k, c), GrowOwn(own, t, k, c);
    assert PlaceOk(m, own, t);
    assert Next(m', t, k) == c;
    forall x ensures PlaceOk(m', own', x) {
      assert PlaceOk(m, own, x);
    }
    forall x, i ensures EntryOk(m', own', x, i) {
      assert EntryOk(m, own, x, i);
    }
  }

  /** A cleared table put under an empty entry leaves every map as it was. */
  lemma GrowLeaves(m: Tables, own: map<int, Place>, t: int, k: int, c: int, r: int, v: int)
    requires Growable(m, own, t, k, c) && IsRoot(own, r) && 0 <= v < MAXVPN
    ensures LeafAt(Grow(m, t, k, c), r, v) == LeafAt(m, r, v)
  {
    var m' := Grow(m, t, k, c);
    Chain(m, own, r, v);
    Fields(v);
    assert forall x, i | x != c && (x != t || i != k) :: Entry(m', x, i) == Entry(m, x, i);
    assert forall i :: Entry(m', c, i) == NOPTE;
    assert r != c;
  }

  /** A new table is the one that was missing for its pages, and no other. */
  lemma GrowHas(m: Tables, own: map<int, Place>, t: int, k: int, c: int, r: int, w: int)
    requires Growable(m, own, t, k, c) && IsRoot(own, r) && 0 <= w < MAXVPN
    ensures var m' := Grow(m, t, k, c);
            && (Has1(m', r, w) <==> Has1(m, r, w) || (t == r && PX2(w) == k))
            && (Has0(m', r, w) <==> Has0(m, r, w) || (t == Next(m, r, PX2(w)) && PX1(w) == k))
  {
    var m' := Grow(m, t, k, c);
    Chain(m, own, r, w);
    Fields(w);
    assert PlaceOk(m, own, t);
    assert forall x, i | x != c && (x != t || i != k) :: Entry(m', x, i) == Entry(m, x, i);
    assert forall i :: Entry(m', c, i) == NOPTE;
    assert Entry(m', t, k) == Pte(c, PTE_V);
  }

  /** A last-level entry leads to no table. */
  lemma SetLeafHas(m: Tables, own: map<int, Place>, t: int, k: int, e: Pte, r: int, w: int)
    requires Tree(m, own) && t in m && t in own && own[t].level == 0 && 0 <= k < NPTE
    requires IsRoot(own, r) && 0 <= w < MAXVPN
    ensures Has1(SetEntry(m, t, k, e), r, w) == Has1(m, r, w) && Has0(SetEntry(m, t, k, e), r, w) == Has0(m, r, w)
  {
    Chain(m, own, r, w);
    assert PlaceOk(m, own, t);
  }

  /** The table that comes next on the way was there ... */
  lemma WayThere(m: Tables, m1: Tables, own: map<int, Place>, r: int, v: int, level: int, t: int)
    requires Tree(m1, own) && IsRoot(own, r) && 0 <= v < MAXVPN && 1 <= level <= 2 && Way(m, m1, r, v, level)
    requires t == if level == 2 then r else Next(m1, r, PX2(v))
    requires Next(m1, t, if level == 2 then PX2(v) else PX1(v)) != 0
    ensures Way(m, m1, r, v, level - 1) && Made(m, r, v, level - 1) == Made(m, r, v, level)
  {
    Fields(v);
    forall w | 0 <= w < MAXVPN && w / 512 == v / 512 ensures PX2(w) == PX2(v) && PX1(w) == PX1(v) {
      Fields(w);
    }
  }

  /** ... or has been made. */
  lemma WayMade(m: Tables, m1: Tables, own: map<int, Place>, r: int, v: int, level: int, t: int, k: int, c: int)
    requires Growable(m1, own, t, k, c) && IsRoot(own, r) && 0 <= v < MAXVPN && 1 <= level <= 2
    requires Way(m, m1, r, v, level) && t == (if level == 2 then r else Next(m1, r, PX2(v))) && t != 0
    requires k == if level == 2 then PX2(v) else PX1(v)
    ensures Way(m, Grow(m1, t, k, c), r, v, level - 1) && Made(m, r, v, level - 1) == Made(m, r, v, level) + 1
  {
    Chain(m1, own, r, v);
    Fields(v);
    assert !Has1(m1, r, v) ==> !Has0(m1, r, v) by { assert forall i :: Entry(m1, 0, i) == NOPTE; }
    forall w | 0 <= w < MAXVPN
      ensures var m2 := Grow(m1, t, k, c);
              && (Has1(m2, r, w) <==> Has1(m1, r, w) || (level == 2 && PX2(w) == PX2(v)))
              && (Has0(m2, r, w) <==> Has0(m1, r, w) || (level == 1 && w / 512 == v / 512))
    {
      GrowHas(m1, own, t, k, c, r, w);
      Chain(m1, own, r, w);
      Fields(w);
    }
  }

  ghost predicate MapsNothing(m: Tables, r: int) {
    forall v :: LeafAt(m, r, v) == NOPTE
  }

  /** A cleared table that nothing leads to is the root of an empty map. */
  lemma AddRoot(m: Tables, own: map<int, Place>, c: int)
    requires Tree(m, own) && c !in m && c != 0
    ensures Tree(m[c := Cleared()], own[c := Place(c, 2, 0, c)])
    ensures forall r, v | IsRoot(own, r) && 0 <= v < MAXVPN :: LeafAt(m[c := Cleared()], r, v) == LeafAt(m, r, v)
    ensures MapsNothing(m[c := Cleared()], c)
  {
    var m', own' := m[c := Cleared()], own[c := Place(c, 2, 0, c)];
    assert PlaceOk(m, own, c);
    forall x ensures PlaceOk(m', own', x) {
      assert PlaceOk(m, own, x);
    }
    forall x, i ensures EntryOk(m', own', x, i) {
      assert EntryOk(m, own, x, i);
    }
    forall r, v | IsRoot(own, r) && 0 <= v < MAXVPN ensures LeafAt(m', r, v) == LeafAt(m, r, v) {
      Chain(m, own, r, v);
    }
    assert forall i :: Entry(m', c, i) == NOPTE;
    assert forall v :: LeafAt(m', c, v) == NOPTE;
  }

  ghost predicate GrandParent(own: map<int, Place>, p: int, t: int) {
    p in own && own[p].level < 2 && own[p].parent == t
  }

  // ----- cutting off a subtree ------------------------------------------------------------

  /** x is t or a table below t. */
  ghost predicate Under(own: map<int, Place>, t: int, x: int) {
    x in own && (x == t || (own[x].level < 2 && (own[x].parent == t || GrandParent(own, own[x].parent, t))))
  }

  /** The entry of t that leads to x, which is below it. */
  ghost function Branch(own: map<int, Place>, t: int, x: int): int {
    if x !in own then 0 else if own[x].parent == t then own[x].pre % 512
    else if own[x].parent in own then own[own[x].parent].pre % 512 else 0
  }

  ghost predicate KeptUnless(m: Tables, own: map<int, Place>, m': Tables, own': map<int, Place>, t: int, x: int,
          dead: bool) {
    && (x in m' <==> x in m && !dead) && (x in own' <==> x in own && !dead)
    && (x in own' ==> own'[x] == own[x]) && (x in m' && x != t ==> m'[x] == m[x])
  }

  ghost predicate RemovedAt(m: Tables, own: map<int, Place>, m': Tables, own': map<int, Place>, t: int, x: int) {
    KeptUnless(m, own, m', own', t, x, Under(own, t, x))
  }

  /** t and everything below it is gone, and nothing else has changed. */
  ghost predicate Removed(m: Tables, own: map<int, Place>, m': Tables, own': map<int, Place>, t: int) {
    forall x :: RemovedAt(m, own, m', own', t, x)
  }

  ghost predicate DeadBranch(own: map<int, Place>, t: int, n: int, x: int) {
    Under(own, t, x) && x != t && Branch(own, t, x) < n
  }

  ghost predicate PrunedAt(m: Tables, own: map<int, Place>, m': Tables, own': map<int, Place>, t: int, n: int, x: int) {
    KeptUnless(m, own, m', own', t, x, DeadBranch(own, t, n, x))
  }

  /** What is below the first n entries of t is gone. */
  ghost predicate Pruned(m: Tables, own: map<int, Place>, m': Tables, own': map<int, Place>, t: int, n: int) {
    && t in m' && (forall x :: PrunedAt(m, own, m', own', t, n, x))
    && forall j | 0 <= j < NPTE :: Entry(m', t, j) == if j < n then NOPTE else Entry(m, t, j)
  }

  /** The page table below t maps nothing. */
  ghost predicate NoLeaves(m: Tables, own: map<int, Place>, t: int) {
    forall x, i | Under(own, t, x) && own[x].level == 0 && 0 <= i < NPTE :: Entry(m, x, i) == NOPTE
  }

  /** A table is below the child of t under entry i exactly if that entry leads to it. */
  lemma BelowChild(m: Tables, own: map<int, Place>, t: int, i: int, x: int)
    requires Tree(m, own) && t in own && own[t].level > 0 && 0 <= i < NPTE
    ensures V(Entry(m, t, i)) ==> (Under(own, Entry(m, t, i).ppn, x) <==>
              Under(own, t, x) && x != t && Branch(own, t, x) == i)
    ensures !V(Entry(m, t, i)) ==> !(Under(own, t, x) && x != t && Branch(own, t, x) == i)
  {
    assert PlaceOk(m, own, t) && EntryOk(m, own, t, i) && PlaceOk(m, own, x);
    if x in own && own[x].level < 2 {
      var p := own[x].parent;
      assert PlaceOk(m, own, p);
      if own[p].level < 2 {
        assert PlaceOk(m, own, own[p].parent);
      }
    }
  }

  lemma CutTree(m: Tables, own: map<int, Place>, m': Tables, own': map<int, Place>, t: int, i: int)
    requires Tree(m, own) && t in own && own[t].level > 0 && 0 <= i < NPTE && V(Entry(m, t, i))
    requires Removed(m, own, m', own', Entry(m, t, i).ppn) && t in m'
    ensures Tree(SetEntry(m', t, i, NOPTE), own')
  {
    var c, m'' := Entry(m, t, i).ppn, SetEntry(m', t, i, NOPTE);
    assert PlaceOk(m, own, t) && EntryOk(m, own, t, i);
    assert RemovedAt(m, own, m', own', c, 0);
    forall x ensures PlaceOk(m'', own', x) {
      assert PlaceOk(m, own, x) && RemovedAt(m, own, m', own', c, x);
      if x in own && own[x].level < 2 {
        var p := own[x].parent;
        assert PlaceOk(m, own, p) && RemovedAt(m, own, m', own', c, p);
        BelowChild(m, own, t, i, x);
        BelowChild(m, own, t, i, p);
      }
    }
    forall x, j ensures EntryOk(m'', own', x, j) {
      assert EntryOk(m, own, x, j) && RemovedAt(m, own, m', own', c, x) && PlaceOk(m, own, x);
      if x in own && 0 <= j < NPTE && V(Entry(m, x, j)) && own[x].level > 0 {
        var y := Entry(m, x, j).ppn;
        assert RemovedAt(m, own, m', own', c, y);
        BelowChild(m, own, t, i, x);
        BelowChild(m, own, t, i, y);
      }
    }
  }

  /** One more branch is cut off: entry i of t led to a table, or to nothing. */
  lemma PruneStep(m0: Tables, own0: map<int, Place>, m: Tables, own: map<int, Place>,
                  m': Tables, own': map<int, Place>, t: int, i: int)
    requires Tree(m0, own0) && Tree(m, own) && t in own0 && own0[t].level > 0 && 0 <= i < NPTE
    requires Pruned(m0, own0, m, own, t, i) && V(Entry(m, t, i))
    requires Removed(m, own, m', own', Entry(m, t, i).ppn)
    ensures t in m' && Pruned(m0, own0, SetEntry(m', t, i, NOPTE), own', t, i + 1)
  {
    var c := Entry(m, t, i).ppn;
    assert PrunedAt(m0, own0, m, own, t, i, t) && PlaceOk(m, own, t) && EntryOk(m, own, t, i);
    BelowChild(m, own, t, i, t);
    assert RemovedAt(m, own, m', own', c, t);
    var m'', n := SetEntry(m', t, i, NOPTE), i + 1;
    forall x ensures PrunedAt(m0, own0, m'', own', t, n, x) {
      assert PrunedAt(m0, own0, m, own, t, i, x) && PlaceOk(m, own, x);
      assert RemovedAt(m, own, m', own', c, x);
      BelowChild(m, own, t, i, x);
      if x in own {
        assert PrunedAt(m0, own0, m, own, t, i, own[x].parent);
      }
    }
    forall j | 0 <= j < NPTE ensures Entry(m'', t, j) == if j < n then NOPTE else Entry(m0, t, j) {
      assert Entry(m, t, j) == if j < i then NOPTE else Entry(m0, t, j);
    }
  }

  lemma NothingBelow(m: Tables, own: map<int, Place>, t: int, x: int)
    requires Tree(m, own) && t in own && own[t].level == 0
    ensures Under(own, t, x) <==> x == t
  {
    assert PlaceOk(m, own, x);
    if x in own {
      assert PlaceOk(m, own, own[x].parent);
    }
  }

  lemma PruneSkip(m0: Tables, own0: map<int, Place>, m: Tables, own: map<int, Place>, t: int, i: int)
    requires Tree(m0, own0) && t in own0 && 0 <= i < NPTE && Pruned(m0, own0, m, own, t, i)
    requires own0[t].level == 0 || !V(Entry(m, t, i))
    requires Entry(m, t, i) == NOPTE
    ensures Pruned(m0, own0, m, own, t, i + 1)
  {
    var n := i + 1;
    assert PlaceOk(m0, own0, t);
    forall x ensures PrunedAt(m0, own0, m, own, t, n, x) {
      assert PrunedAt(m0, own0, m, own, t, i, x);
      if own0[t].level > 0 {
        BelowChild(m0, own0, t, i, x);
      } else {
        NothingBelow(m0, own0, t, x);
      }
    }
  }

  lemma PruneStart(m: Tables, own: map<int, Place>, t: int)
    requires Tree(m, own) && t in m
    ensures Pruned(m, own, m, own, t, 0)
  {
    forall x ensures PrunedAt(m, own, m, own, t, 0, x) {
      assert PlaceOk(m, own, x);
    }
  }

  lemma PruneEnd(m0: Tables, own0: map<int, Place>, m: Tables, own: map<int, Place>, t: int)
    requires Tree(m0, own0) && t in own0 && Pruned(m0, own0, m, own, t, NPTE)
    ensures Removed(m0, own0, m - {t}, own - {t}, t)
  {
    forall x ensures RemovedAt(m0, own0, m - {t}, own - {t}, t, x) {
      assert PrunedAt(m0, own0, m, own, t, NPTE, x);
    }
  }

  /** A branch of a page table that maps nothing maps nothing. */
  lemma NoLeavesBelow(m0: Tables, own0: map<int, Place>, m: Tables, own: map<int, Place>, t: int, i: int)
    requires Tree(m0, own0) && Tree(m, own) && t in own && own[t].level > 0 && 0 <= i < NPTE && V(Entry(m, t, i))
    requires Pruned(m0, own0, m, own, t, i) && NoLeaves(m0, own0, t)
    ensures NoLeaves(m, own, Entry(m, t, i).ppn)
  {
    var c := Entry(m, t, i).ppn;
    forall x, j | Under(own, c, x) && own[x].level == 0 && 0 <= j < NPTE ensures Entry(m, x, j) == NOPTE {
      BelowChild(m, own, t, i, x);
      assert PlaceOk(m, own, x) && PrunedAt(m0, own0, m, own, t, i, x);
      assert PrunedAt(m0, own0, m, own, t, i, own[x].parent);
      assert Entry(m0, x, j) == NOPTE;
    }
  }

  /** What is below a root is what has that root. */
  lemma BelowRoot(m: Tables, own: map<int, Place>, r: int, x: int)
    requires Tree(m, own) && IsRoot(own, r)
    ensures Under(own, r, x) <==> x in own && own[x].root == r
  {
    assert PlaceOk(m, own, x) && PlaceOk(m, own, r);
    if x in own && own[x].level < 2 {
      var p := own[x].parent;
      assert PlaceOk(m, own, p);
      if own[p].level < 2 {
        assert PlaceOk(m, own, own[p].parent);
      }
    }
  }

  lemma RemovedPlace(m: Tables, own: map<int, Place>, m': Tables, own': map<int, Place>, r: int, x: int)
    requires Tree(m, own) && IsRoot(own, r) && Removed(m, own, m', own', r)
    ensures PlaceOk(m', own', x)
    ensures x in m && x in own && own[x].root != r ==> x in m' && m'[x] == m[x]
    ensures x in m' ==> x in m && x in own && own[x].root != r
  {
    assert RemovedAt(m, own, m', own', r, x) && PlaceOk(m, own, x) && PlaceOk(m, own, r);
    BelowRoot(m, own, r, x);
    if x in own {
      var p := own[x].parent;
      assert RemovedAt(m, own, m', own', r, p) && PlaceOk(m, own, p);
      BelowRoot(m, own, r, p);
    }
  }

  lemma RemovedEntry(m: Tables, own: map<int, Place>, m': Tables, own': map<int, Place>, r: int, x: int, j: int)
    requires Tree(m, own) && IsRoot(own, r) && Removed(m, own, m', own', r)
    ensures EntryOk(m', own', x, j)
  {
    assert EntryOk(m, own, x, j) && RemovedAt(m, own, m', own', r, x) && PlaceOk(m, own, x) && PlaceOk(m, own, r);
    BelowRoot(m, own, r, x);
    if x in own && 0 <= j < NPTE && V(Entry(m, x, j)) {
      var y := Entry(m, x, j).ppn;
      assert RemovedAt(m, own, m', own', r, y) && PlaceOk(m, own, y);
      BelowRoot(m, own, r, y);
    }
  }

  /** Taking a whole tree away leaves the others as they were. */
  lemma TreeRemoved(m: Tables, own: map<int, Place>, m': Tables, own': map<int, Place>, r: int)
    requires Tree(m, own) && IsRoot(own, r) && Removed(m, own, m', own', r)
    ensures Tree(m', own')
    ensures forall q :: IsRoot(own', q) <==> IsRoot(own, q) && q != r
    ensures forall q, v | IsRoot(own, q) && q != r && 0 <= v < MAXVPN :: LeafAt(m', q, v) == LeafAt(m, q, v)
  {
    assert RemovedAt(m, own, m', own', r, 0);
    forall x ensures PlaceOk(m', own', x) {
      RemovedPlace(m, own, m', own', r, x);
    }
    forall x, j ensures EntryOk(m', own', x, j) {
      RemovedEntry(m, own, m', own', r, x, j);
    }
    forall q ensures IsRoot(own', q) <==> IsRoot(own, q) && q != r {
      assert RemovedAt(m, own, m', own', r, q) && PlaceOk(m, own, q);
      BelowRoot(m, own, r, q);
    }
    forall q, v | IsRoot(own, q) && q != r && 0 <= v < MAXVPN ensures LeafAt(m', q, v) == LeafAt(m, q, v) {
      Chain(m, own, q, v);
      var t1, t0 := Next(m, q, PX2(v)), Table0(m, q, v);
      RemovedPlace(m, own, m', own', r, q);
      RemovedPlace(m, own, m', own', r, t1);
      RemovedPlace(m, own, m', own', r, t0);
      RemovedPlace(m, own, m', own', r, 0);
    }
  }

  /** A page table whose map is empty has no leaves. */
  lemma EmptyMap(m: Tables, own: map<int, Place>, r: int)
    requires Tree(m, own) && IsRoot(own, r)
    requires forall v | 0 <= v < MAXVPN :: LeafAt(m, r, v) == NOPTE
    ensures NoLeaves(m, own, r)
  {
    forall x, i | Under(own, r, x) && own[x].level == 0 && 0 <= i < NPTE ensures Entry(m, x, i) == NOPTE {
      BelowRoot(m, own, r, x);
      assert PlaceOk(m, own, x);
      Reached(m, own, x);
      var v := own[x].pre * 512 + i;
      assert v / 512 == own[x].pre && PX0(v) == i;
      assert LeafAt(m, r, v) == NOPTE;
    }
  }
}
