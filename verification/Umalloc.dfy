/** The user-level heap (umalloc.c): a circular list of free blocks in address
    order.  Addresses and sizes count Header units. */
module Umalloc {
  const HEADER := 16       // sizeof(Header)
  const MORECORE := 4096
  const BASE := 0          // &base; static data lies below the heap
  const NULL := -1

  datatype Hdr = Hdr(ptr: int, size: int)

  type Mem = map<int, Hdr>

  function Next(nodes: seq<int>, i: int): int
    requires 0 <= i < |nodes|
  {
    if i + 1 < |nodes| then nodes[i + 1] else nodes[0]
  }

  /** `nodes` is the list from base round to base: ascending addresses, one wrap
      point, no block overlapping the next. */
  ghost predicate NodeOk(mem: Mem, nodes: seq<int>, i: int)
    requires 0 <= i < |nodes|
  {
    && nodes[i] in mem && mem[nodes[i]].ptr == Next(nodes, i)
    && (if i == 0 then nodes[i] == BASE && mem[nodes[i]].size == 0 else BASE < nodes[i] && 1 <= mem[nodes[i]].size)
    && (i + 1 < |nodes| ==> nodes[i] + mem[nodes[i]].size <= Next(nodes, i) && nodes[i] < Next(nodes, i))
  }

  ghost predicate ListOk(mem: Mem, nodes: seq<int>) {
    0 < |nodes| && forall i | 0 <= i < |nodes| :: NodeOk(mem, nodes, i)
  }

  lemma {:induction false} Ascending(mem: Mem, nodes: seq<int>, i: int, j: int)
    requires ListOk(mem, nodes) && 0 <= i < j < |nodes|
    ensures nodes[i] in mem && nodes[i] + mem[nodes[i]].size <= nodes[j] && nodes[i] < nodes[j]
    decreases j - i
  {
    assert NodeOk(mem, nodes, i) && NodeOk(mem, nodes, j - 1);
    if i + 1 < j {
      Ascending(mem, nodes, i, j - 1);
    }
  }

  /** Node i ends exactly where the node after it begins. */
  ghost predicate Touch(mem: Mem, nodes: seq<int>, i: int) {
    0 < i && i + 1 < |nodes| && nodes[i] in mem && nodes[i + 1] in mem && nodes[i] + mem[nodes[i]].size == nodes[i + 1]
  }

  ghost predicate Coalesced(mem: Mem, nodes: seq<int>) {
    forall i :: !Touch(mem, nodes, i)
  }

  ghost predicate Covers(mem: Mem, a: int, u: int) {
    a in mem && a <= u < a + mem[a].size
  }

  ghost predicate IsFree(mem: Mem, nodes: seq<int>, u: int) {
    exists i | 0 <= i < |nodes| :: Covers(mem, nodes[i], u)
  }

  ghost predicate IsUsed(live: map<int, int>, u: int) {
    exists a | a in live :: a <= u < a + live[a]
  }

  // ----- inserting, joining and removing list nodes ---------------------------------

  function Insert(nodes: seq<int>, t: int, b: int): seq<int>
    requires 0 <= t < |nodes|
  {
    nodes[..t + 1] + [b] + nodes[t + 1..]
  }

  function Drop(nodes: seq<int>, i: int): seq<int>
    requires 0 <= i < |nodes|
  {
    nodes[..i] + nodes[i + 1..]
  }

  /** b fits between node t and the node after it. */
  ghost predicate Between(mem: Mem, nodes: seq<int>, t: int, b: int, size: int) {
    && 0 <= t < |nodes| && nodes[t] in mem
    && nodes[t] < b && nodes[t] + mem[nodes[t]].size <= b && 1 <= size
    && (t + 1 < |nodes| ==> b + size <= nodes[t + 1])
  }

  function Linked(mem: Mem, nodes: seq<int>, t: int, b: int, size: int): Mem
    requires 0 <= t < |nodes| && nodes[t] in mem
  {
    mem[b := Hdr(Next(nodes, t), size)][nodes[t] := Hdr(b, mem[nodes[t]].size)]
  }

  lemma OtherNode(mem: Mem, nodes: seq<int>, t: int, b: int, size: int, x: int)
    requires ListOk(mem, nodes) && Between(mem, nodes, t, b, size) && 0 <= x < |nodes|
    ensures nodes[x] != b && (x != t ==> nodes[x] != nodes[t])
  {
    if x < t {
      Ascending(mem, nodes, x, t);
    } else if t < x {
      Ascending(mem, nodes, t, x);
      if t + 1 < x { Ascending(mem, nodes, t + 1, x); }
    }
  }

  lemma InsertOk(mem: Mem, nodes: seq<int>, t: int, b: int, size: int)
    requires ListOk(mem, nodes) && Between(mem, nodes, t, b, size)
    ensures ListOk(Linked(mem, nodes, t, b, size), Insert(nodes, t, b))
  {
    var m, v := Linked(mem, nodes, t, b, size), Insert(nodes, t, b);
    forall i | 0 <= i < |v| ensures NodeOk(m, v, i) {
      if i != t && i != t + 1 {
        var x := if i < t then i else i - 1;
        assert v[i] == nodes[x] && Next(v, i) == Next(nodes, x);
        assert NodeOk(mem, nodes, x);
        OtherNode(mem, nodes, t, b, size, x);
      } else {
        assert NodeOk(mem, nodes, t);
      }
    }
  }

  lemma InsertCovers(mem: Mem, nodes: seq<int>, t: int, b: int, size: int, u: int)
    requires ListOk(mem, nodes) && Between(mem, nodes, t, b, size)
    ensures IsFree(Linked(mem, nodes, t, b, size), Insert(nodes, t, b), u) <==>
              IsFree(mem, nodes, u) || b <= u < b + size
  {
    var m, v := Linked(mem, nodes, t, b, size), Insert(nodes, t, b);
    if IsFree(mem, nodes, u) {
      var x :| 0 <= x < |nodes| && Covers(mem, nodes[x], u);
      OtherNode(mem, nodes, t, b, size, x);
      assert v[if x <= t then x else x + 1] == nodes[x] && Covers(m, nodes[x], u);
    }
    if b <= u < b + size {
      assert v[t + 1] == b && Covers(m, b, u);
    }
    if IsFree(m, v, u) {
      var i :| 0 <= i < |v| && Covers(m, v[i], u);
      if i != t + 1 {
        var x := if i <= t then i else i - 1;
        OtherNode(mem, nodes, t, b, size, x);
        assert nodes[x] == v[i] && NodeOk(mem, nodes, x) && Covers(mem, nodes[x], u);
      }
    }
  }

  /** Node i swallows the node after it, which it touches. */
  function Joined(mem: Mem, nodes: seq<int>, i: int): Mem
    requires 0 <= i && i + 1 < |nodes| && nodes[i] in mem && nodes[i + 1] in mem
  {
    mem[nodes[i] := Hdr(mem[nodes[i + 1]].ptr, mem[nodes[i]].size + mem[nodes[i + 1]].size)]
  }

  lemma DistinctNodes(mem: Mem, nodes: seq<int>, i: int, x: int)
    requires ListOk(mem, nodes) && 0 <= i < |nodes| && 0 <= x < |nodes| && i != x
    ensures nodes[i] != nodes[x]
  {
    if i < x { Ascending(mem, nodes, i, x); } else { Ascending(mem, nodes, x, i); }
  }

  lemma JoinOk(mem: Mem, nodes: seq<int>, i: int)
    requires ListOk(mem, nodes) && Touch(mem, nodes, i)
    ensures ListOk(Joined(mem, nodes, i), Drop(nodes, i + 1))
  {
    var m, v := Joined(mem, nodes, i), Drop(nodes, i + 1);
    assert NodeOk(mem, nodes, i) && NodeOk(mem, nodes, i + 1);
    forall k | 0 <= k < |v| ensures NodeOk(m, v, k) {
      if k != i {
        var x := if k < i then k else k + 1;
        assert v[k] == nodes[x] && Next(v, k) == Next(nodes, x) && NodeOk(mem, nodes, x);
        DistinctNodes(mem, nodes, i, x);
      }
    }
  }

  lemma JoinCovers(mem: Mem, nodes: seq<int>, i: int, u: int)
    requires ListOk(mem, nodes) && Touch(mem, nodes, i)
    ensures IsFree(Joined(mem, nodes, i), Drop(nodes, i + 1), u) <==> IsFree(mem, nodes, u)
  {
    var m, v := Joined(mem, nodes, i), Drop(nodes, i + 1);
    assert NodeOk(mem, nodes, i) && NodeOk(mem, nodes, i + 1);
    assert v[i] == nodes[i];
    if IsFree(mem, nodes, u) {
      var x :| 0 <= x < |nodes| && Covers(mem, nodes[x], u);
      if x == i || x == i + 1 {
        assert Covers(m, v[i], u);
      } else {
        DistinctNodes(mem, nodes, i, x);
        assert v[if x < i then x else x - 1] == nodes[x] && Covers(m, nodes[x], u);
      }
    }
    if IsFree(m, v, u) {
      var k :| 0 <= k < |v| && Covers(m, v[k], u);
      if k == i {
        assert Covers(mem, nodes[i], u) || Covers(mem, nodes[i + 1], u);
      } else {
        var x := if k < i then k else k + 1;
        DistinctNodes(mem, nodes, i, x);
        assert nodes[x] == v[k] && Covers(mem, nodes[x], u);
      }
    }
  }

  /** Node i leaves the list. */
  function Unlinked(mem: Mem, nodes: seq<int>, i: int): Mem
    requires 0 < i < |nodes| && nodes[i] in mem && nodes[i - 1] in mem
  {
    mem[nodes[i - 1] := Hdr(mem[nodes[i]].ptr, mem[nodes[i - 1]].size)]
  }

  lemma UnlinkOk(mem: Mem, nodes: seq<int>, i: int)
    requires ListOk(mem, nodes) && 0 < i < |nodes|
    ensures nodes[i] in mem && nodes[i - 1] in mem
    ensures ListOk(Unlinked(mem, nodes, i), Drop(nodes, i))
  {
    assert NodeOk(mem, nodes, i) && NodeOk(mem, nodes, i - 1);
    var m, v := Unlinked(mem, nodes, i), Drop(nodes, i);
    forall k | 0 <= k < |v| ensures NodeOk(m, v, k) {
      if k != i - 1 {
        var x := if k < i then k else k + 1;
        assert v[k] == nodes[x] && Next(v, k) == Next(nodes, x) && NodeOk(mem, nodes, x);
        DistinctNodes(mem, nodes, i - 1, x);
      }
    }
  }

  lemma DisjointNodes(mem: Mem, nodes: seq<int>, i: int, x: int, u: int)
    requires ListOk(mem, nodes) && 0 <= i < |nodes| && 0 <= x < |nodes|
    requires Covers(mem, nodes[i], u) && Covers(mem, nodes[x], u)
    ensures i == x
  {
    if i < x { Ascending(mem, nodes, i, x); } else if x < i { Ascending(mem, nodes, x, i); }
  }

  lemma UnlinkCovers(mem: Mem, nodes: seq<int>, i: int, u: int)
    requires ListOk(mem, nodes) && 0 < i < |nodes| && nodes[i] in mem && nodes[i - 1] in mem
    ensures IsFree(Unlinked(mem, nodes, i), Drop(nodes, i), u) <==> IsFree(mem, nodes, u) && !Covers(mem, nodes[i], u)
  {
    var m, v := Unlinked(mem, nodes, i), Drop(nodes, i);
    if IsFree(mem, nodes, u) && !Covers(mem, nodes[i], u) {
      var x :| 0 <= x < |nodes| && Covers(mem, nodes[x], u);
      assert v[if x < i then x else x - 1] == nodes[x] && Covers(m, nodes[x], u);
    }
    if IsFree(m, v, u) {
      var k :| 0 <= k < |v| && Covers(m, v[k], u);
      var x := if k < i then k else k + 1;
      assert nodes[x] == v[k] && Covers(mem, nodes[x], u);
      if Covers(mem, nodes[i], u) {
        DisjointNodes(mem, nodes, i, x, u);
      }
    }
  }

  /** Node i gives up its last `cut` units. */
  function Shrunk(mem: Mem, nodes: seq<int>, i: int, cut: int): Mem
    requires 0 <= i < |nodes| && nodes[i] in mem
  {
    mem[nodes[i] := mem[nodes[i]].(size := mem[nodes[i]].size - cut)]
  }

  lemma ShrinkOk(mem: Mem, nodes: seq<int>, i: int, cut: int)
    requires ListOk(mem, nodes) && 0 < i < |nodes| && nodes[i] in mem && 0 < cut < mem[nodes[i]].size
    ensures ListOk(Shrunk(mem, nodes, i, cut), nodes)
  {
    var m := Shrunk(mem, nodes, i, cut);
    assert NodeOk(mem, nodes, i);
    forall k | 0 <= k < |nodes| ensures NodeOk(m, nodes, k) {
      assert NodeOk(mem, nodes, k);
      if k != i { DistinctNodes(mem, nodes, i, k); }
    }
  }

  lemma ShrinkCovers(mem: Mem, nodes: seq<int>, i: int, cut: int, u: int)
    requires ListOk(mem, nodes) && 0 < i < |nodes| && nodes[i] in mem && 0 < cut < mem[nodes[i]].size
    ensures var end := nodes[i] + mem[nodes[i]].size;
      IsFree(Shrunk(mem, nodes, i, cut), nodes, u) <==> IsFree(mem, nodes, u) && !(end - cut <= u < end)
  {
    var m := Shrunk(mem, nodes, i, cut);
    var end := nodes[i] + mem[nodes[i]].size;
    if IsFree(mem, nodes, u) && !(end - cut <= u < end) {
      var x :| 0 <= x < |nodes| && Covers(mem, nodes[x], u);
      assert Covers(m, nodes[x], u);
    }
    if IsFree(m, nodes, u) {
      var x :| 0 <= x < |nodes| && Covers(m, nodes[x], u);
      assert Covers(mem, nodes[x], u);
      if end - cut <= u < end {
        assert Covers(mem, nodes[i], u);
        DisjointNodes(mem, nodes, i, x, u);
      }
    }
  }

  // ----- free: insert, then join with the neighbours it touches ----------------------

  /** Joining the new block with the block after it, if they touch. */
  ghost function JoinedAfter(m0: Mem, v0: seq<int>, t: int): (r: (Mem, seq<int>)) {
    if Touch(m0, v0, t + 1) then (Joined(m0, v0, t + 1), Drop(v0, t + 2)) else (m0, v0)
  }

  /** The list after free has linked block b behind node t. */
  ghost function FreedNodes(mem: Mem, nodes: seq<int>, t: int, b: int, size: int): (r: (Mem, seq<int>))
    requires 0 <= t < |nodes| && nodes[t] in mem
  {
    var m0, v0 := Linked(mem, nodes, t, b, size), Insert(nodes, t, b);
    var (m1, v1) := JoinedAfter(m0, v0, t);
    if Touch(m1, v1, t) then (Joined(m1, v1, t), Drop(v1, t + 1)) else (m1, v1)
  }

  lemma InsertTouches(mem: Mem, nodes: seq<int>, t: int, b: int, size: int, i: int)
    requires ListOk(mem, nodes) && Between(mem, nodes, t, b, size) && Coalesced(mem, nodes)
    requires i != t && i != t + 1
    ensures !Touch(Linked(mem, nodes, t, b, size), Insert(nodes, t, b), i)
  {
    var m, v := Linked(mem, nodes, t, b, size), Insert(nodes, t, b);
    if Touch(m, v, i) {
      var x := if i < t then i else i - 1;
      assert v[i] == nodes[x] && v[i + 1] == nodes[x + 1];
      OtherNode(mem, nodes, t, b, size, x);
      assert NodeOk(mem, nodes, x) && NodeOk(mem, nodes, x + 1);
      assert Touch(mem, nodes, x);
    }
  }

  lemma JoinTouches(mem: Mem, nodes: seq<int>, i: int, k: int)
    requires ListOk(mem, nodes) && Touch(mem, nodes, i)
    requires !Touch(mem, nodes, if k < i then k else k + 1)
    ensures !Touch(Joined(mem, nodes, i), Drop(nodes, i + 1), k)
  {
    var m, v := Joined(mem, nodes, i), Drop(nodes, i + 1);
    if Touch(m, v, k) {
      var x := if k < i then k else k + 1;
      assert NodeOk(mem, nodes, i) && NodeOk(mem, nodes, i + 1);
      assert NodeOk(mem, nodes, x) && NodeOk(mem, nodes, x + 1);
      assert v[k + 1] == nodes[x + 1];
      if k != i {
        assert v[k] == nodes[x];
        DistinctNodes(mem, nodes, i, x);
      }
      assert Touch(mem, nodes, x);
    }
  }

  lemma JoinedAfterOk(m0: Mem, v0: seq<int>, t: int)
    requires ListOk(m0, v0) && 0 <= t < |v0| && forall i | i != t && i != t + 1 :: !Touch(m0, v0, i)
    ensures var (m, v) := JoinedAfter(m0, v0, t);
            && ListOk(m, v) && t < |v| && v[t] == v0[t]
            && (forall u :: IsFree(m, v, u) <==> IsFree(m0, v0, u)) && forall i | i != t :: !Touch(m, v, i)
  {
    if Touch(m0, v0, t + 1) {
      JoinOk(m0, v0, t + 1);
      var (m, v) := JoinedAfter(m0, v0, t);
      forall u ensures IsFree(m, v, u) <==> IsFree(m0, v0, u) { JoinCovers(m0, v0, t + 1, u); }
      forall i | i != t ensures !Touch(m, v, i) { JoinTouches(m0, v0, t + 1, i); }
    }
  }

  lemma JoinedBeforeOk(m0: Mem, v0: seq<int>, t: int)
    requires ListOk(m0, v0) && Touch(m0, v0, t) && forall i | i != t :: !Touch(m0, v0, i)
    ensures var m, v := Joined(m0, v0, t), Drop(v0, t + 1);
            && ListOk(m, v) && Coalesced(m, v) && v[t] == v0[t] && forall u :: IsFree(m, v, u) <==> IsFree(m0, v0, u)
  {
    JoinOk(m0, v0, t);
    var m, v := Joined(m0, v0, t), Drop(v0, t + 1);
    forall u ensures IsFree(m, v, u) <==> IsFree(m0, v0, u) { JoinCovers(m0, v0, t, u); }
    forall i ensures !Touch(m, v, i) { JoinTouches(m0, v0, t, i); }
  }

  predicate Within(u: int, lo: int, hi: int) {
    lo <= u < hi
  }

  lemma FreedOk(mem: Mem, nodes: seq<int>, t: int, b: int, size: int)
    requires ListOk(mem, nodes) && Between(mem, nodes, t, b, size) && Coalesced(mem, nodes)
    ensures var (m, v) := FreedNodes(mem, nodes, t, b, size);
            && ListOk(m, v) && Coalesced(m, v)
            && t < |v| && v[t] == nodes[t]
            && forall u :: IsFree(m, v, u) <==> IsFree(mem, nodes, u) || Within(u, b, b + size)
  {
    var m0, v0 := Linked(mem, nodes, t, b, size), Insert(nodes, t, b);
    InsertOk(mem, nodes, t, b, size);
    forall u ensures IsFree(m0, v0, u) <==> IsFree(mem, nodes, u) || Within(u, b, b + size) {
      InsertCovers(mem, nodes, t, b, size, u);
    }
    forall i | i != t && i != t + 1 ensures !Touch(m0, v0, i) { InsertTouches(mem, nodes, t, b, size, i); }
    JoinedAfterOk(m0, v0, t);
    var (m1, v1) := JoinedAfter(m0, v0, t);
    if Touch(m1, v1, t) {
      JoinedBeforeOk(m1, v1, t);
    }
  }

  // ----- the allocated blocks ---------------------------------------------------------

  /** Allocated and free blocks are disjoint and together are exactly the arena. */
  ghost predicate Tiled(mem: Mem, nodes: seq<int>, live: map<int, int>, arena: iset<int>) {
    && (forall a | a in live :: BASE < a && 1 <= live[a] && a in mem && mem[a].size == live[a])
    && (forall a, b | a in live && b in live && a < b :: a + live[a] <= b)
    && (forall u :: !(IsFree(mem, nodes, u) && IsUsed(live, u)))
    && (forall u :: u in arena <==> IsFree(mem, nodes, u) || IsUsed(live, u))
  }

  /** nunits for a request of nbytes: enough for the header and the payload, and no more. */
  function Units(nbytes: nat): (n: int)
    ensures nbytes <= HEADER * (n - 1) < nbytes + HEADER
  {
    (nbytes + HEADER - 1) / HEADER + 1
  }

  ghost function Region(lo: int, hi: int): iset<int> {
    iset u | Within(u, lo, hi)
  }

  /** morecore asks for at least MORECORE units. */
  function Grown(nu: int): int {
    if nu < MORECORE then MORECORE else nu
  }

  /** Steps from position i forward to position j on a ring of k nodes. */
  function Dist(k: int, i: int, j: int): int {
    if i <= j then j - i else j - i + k
  }

  function After(nodes: seq<int>, i: int): (r: int)
    requires 0 <= i < |nodes|
    ensures 0 <= r < |nodes| && nodes[r] == Next(nodes, i)
  {
    if i + 1 < |nodes| then i + 1 else 0
  }

  ghost predicate NoneFits(mem: Mem, nodes: seq<int>, n: int) {
    forall i | 0 <= i < |nodes| :: nodes[i] in mem && mem[nodes[i]].size < n
  }

  /** malloc's search has looked at every block after freep up to position q, and none fits. */
  ghost predicate Visited(mem: Mem, nodes: seq<int>, f: int, q: int, n: int)
    requires 0 <= f < |nodes| && 0 <= q < |nodes|
  {
    forall i | 0 <= i < |nodes| && Dist(|nodes|, i, f) > Dist(|nodes|, After(nodes, q), f) ::
      nodes[i] in mem && mem[nodes[i]].size < n
  }

  /** Position j is the first, going round from freep, of a block with n units. */
  ghost predicate FirstFit(mem: Mem, nodes: seq<int>, freep: int, j: int, n: int) {
    && 0 < j < |nodes| && nodes[j] in mem && n <= mem[nodes[j]].size
    && exists f :: 0 <= f < |nodes| && nodes[f] == freep && Visited(mem, nodes, f, j - 1, n)
  }

  /** Block b is the tail of the first block that fits, and freep' the block before that one. */
  ghost predicate FromFirst(mem: Mem, nodes: seq<int>, freep: int, n: int, b: int, freep': int) {
    exists j :: FirstFit(mem, nodes, freep, j, n) && b == nodes[j] + mem[nodes[j]].size - n && freep' == nodes[j - 1]
  }

  /** The block after position q is neither freep nor large enough: the search moves on. */
  lemma SearchStep(mem: Mem, nodes: seq<int>, f: int, q: int, n: int)
    requires 0 <= f < |nodes| && 0 <= q < |nodes|
    requires nodes[After(nodes, q)] in mem && mem[nodes[After(nodes, q)]].size < n
    requires nodes[After(nodes, q)] != nodes[f] && Visited(mem, nodes, f, q, n)
    ensures Dist(|nodes|, After(nodes, After(nodes, q)), f) < Dist(|nodes|, After(nodes, q), f)
    ensures Visited(mem, nodes, f, After(nodes, q), n)
  {
  }

  lemma AllVisited(mem: Mem, nodes: seq<int>, f: int, q: int, n: int)
    requires 0 <= f < |nodes| && 0 <= q < |nodes| && After(nodes, q) == f
    requires Visited(mem, nodes, f, q, n) && nodes[f] in mem && mem[nodes[f]].size < n
    ensures NoneFits(mem, nodes, n)
  {
    forall i | 0 <= i < |nodes| ensures nodes[i] in mem && mem[nodes[i]].size < n {
      assert i == f || Dist(|nodes|, i, f) > 0;
    }
  }

  lemma SamePosition(mem: Mem, nodes: seq<int>, i: int, j: int)
    requires ListOk(mem, nodes) && 0 <= i < |nodes| && 0 <= j < |nodes| && nodes[i] == nodes[j]
    ensures i == j
  {
    if i != j { DistinctNodes(mem, nodes, i, j); }
  }

  lemma BaseNeverFits(mem: Mem, nodes: seq<int>, i: int, n: int)
    requires ListOk(mem, nodes) && 0 <= i < |nodes| && nodes[i] in mem && 1 <= n <= mem[nodes[i]].size
    ensures 0 < i
  {
    assert NodeOk(mem, nodes, 0);
  }

  lemma AddedBlock(live: map<int, int>, b: int, size: int)
    requires 1 <= size && forall u :: Within(u, b, b + size) ==> !IsUsed(live, u)
    requires forall a | a in live :: 1 <= live[a]
    ensures b !in live
    ensures forall u :: IsUsed(live[b := size], u) <==> IsUsed(live, u) || Within(u, b, b + size)
    ensures forall a | a in live :: a + live[a] <= b || b + size <= a
  {
    var l := live[b := size];
    assert Within(b, b, b + size) && !IsUsed(live, b);
    assert forall a | a in live :: a <= a < a + live[a];
    assert b !in live;
    forall u ensures IsUsed(l, u) <==> IsUsed(live, u) || Within(u, b, b + size) {
      if IsUsed(live, u) {
        var a :| a in live && a <= u < a + live[a];
        assert a in l && l[a] == live[a];
      }
      if Within(u, b, b + size) {
        assert b in l;
      }
    }
    forall a | a in live ensures a + live[a] <= b || b + size <= a {
      assert a <= a < a + live[a] && IsUsed(live, a);
      assert Within(a, b, b + size) ==> !IsUsed(live, a);
    }
  }

  /** The tiling after block b became an allocated one. */
  lemma Retile(mem: Mem, nodes: seq<int>, live: map<int, int>, arena: iset<int>,
               m: Mem, v: seq<int>, b: int, size: int, arena': iset<int>)
    requires Tiled(mem, nodes, live, arena) && BASE < b && 1 <= size
    requires b in m && m[b].size == size
    requires forall a | a in live && a != b :: a in m && m[a].size == live[a]
    requires forall u :: Within(u, b, b + size) ==> !IsUsed(live, u) && !IsFree(m, v, u)
    requires forall u :: IsFree(m, v, u) ==> IsFree(mem, nodes, u)
    requires forall u :: u in arena' <==> IsFree(m, v, u) || IsUsed(live, u) || Within(u, b, b + size)
    ensures b !in live && Tiled(m, v, live[b := size], arena')
  {
    AddedBlock(live, b, size);
  }

  /** Memory changed only at free blocks keeps the headers of the allocated ones. */
  lemma OthersKept(mem: Mem, nodes: seq<int>, live: map<int, int>, arena: iset<int>, m: Mem)
    requires ListOk(mem, nodes) && Tiled(mem, nodes, live, arena)
    requires forall a | a in mem && a != BASE && !IsFree(mem, nodes, a) :: a in m && m[a].size == mem[a].size
    ensures forall a | a in live :: a in m && m[a].size == live[a]
  {
    forall a | a in live ensures a in m && m[a].size == live[a] {
      assert IsUsed(live, a);
    }
  }

  ghost predicate HeapOk(mem: Mem, nodes: seq<int>, live: map<int, int>, arena: iset<int>) {
    ListOk(mem, nodes) && Coalesced(mem, nodes) && Tiled(mem, nodes, live, arena)
  }

  lemma TakeAllTiles(mem: Mem, nodes: seq<int>, live: map<int, int>, arena: iset<int>, j: int)
    requires ListOk(mem, nodes) && Coalesced(mem, nodes) && Tiled(mem, nodes, live, arena)
    requires 0 < j < |nodes| && nodes[j] in mem && nodes[j - 1] in mem
    requires ListOk(Unlinked(mem, nodes, j), Drop(nodes, j))
    ensures Coalesced(Unlinked(mem, nodes, j), Drop(nodes, j)) && nodes[j] !in live
    ensures Tiled(Unlinked(mem, nodes, j), Drop(nodes, j), live[nodes[j] := mem[nodes[j]].size], arena)
  {
    var m, v, b, size := Unlinked(mem, nodes, j), Drop(nodes, j), nodes[j], mem[nodes[j]].size;
    assert NodeOk(mem, nodes, j) && NodeOk(mem, nodes, j - 1);
    forall u ensures IsFree(m, v, u) <==> IsFree(mem, nodes, u) && !Covers(mem, b, u)
    {
      UnlinkCovers(mem, nodes, j, u);
    }
    forall i ensures !Touch(m, v, i) {
      var x := if i < j then i else i + 1;
      assert !Touch(mem, nodes, x);
      if 0 <= i && i + 1 < |v| {
        assert NodeOk(mem, nodes, x);
        assert v[i] == nodes[x] && v[i + 1] == nodes[if i + 1 < j then i + 1 else i + 2];
      }
    }
    forall u | Within(u, b, b + size) ensures !IsUsed(live, u) {
      assert Covers(mem, nodes[j], u) && IsFree(mem, nodes, u);
    }
    OthersKept(mem, nodes, live, arena, m);
    Retile(mem, nodes, live, arena, m, v, b, size, arena);
  }

  lemma SameFree(mem: Mem, m: Mem, nodes: seq<int>)
    requires forall i | 0 <= i < |nodes| :: nodes[i] in mem && nodes[i] in m && m[nodes[i]] == mem[nodes[i]]
    ensures forall u :: IsFree(m, nodes, u) <==> IsFree(mem, nodes, u)
  {
    forall u ensures IsFree(m, nodes, u) <==> IsFree(mem, nodes, u) {
      if IsFree(m, nodes, u) {
        var i :| 0 <= i < |nodes| && Covers(m, nodes[i], u);
        assert Covers(mem, nodes[i], u);
      }
      if IsFree(mem, nodes, u) {
        var i :| 0 <= i < |nodes| && Covers(mem, nodes[i], u);
        assert Covers(m, nodes[i], u);
      }
    }
  }

  /** Writing a header that is not on the list does not change the list. */
  lemma WriteElsewhere(mem: Mem, nodes: seq<int>, b: int, h: Hdr)
    requires ListOk(mem, nodes) && Coalesced(mem, nodes) && b !in nodes
    ensures ListOk(mem[b := h], nodes) && Coalesced(mem[b := h], nodes)
    ensures forall u :: IsFree(mem[b := h], nodes, u) <==> IsFree(mem, nodes, u)
  {
    var m := mem[b := h];
    forall i | 0 <= i < |nodes| ensures NodeOk(m, nodes, i) {
      assert NodeOk(mem, nodes, i) && nodes[i] != b;
    }
    forall i ensures !Touch(m, nodes, i) {
      assert !Touch(mem, nodes, i);
      assert 0 <= i < |nodes| - 1 ==> NodeOk(mem, nodes, i) && NodeOk(mem, nodes, i + 1);
    }
    assert forall i | 0 <= i < |nodes| :: NodeOk(mem, nodes, i) && nodes[i] != b;
    SameFree(mem, m, nodes);
  }

  lemma NodeIsFree(mem: Mem, nodes: seq<int>, i: int)
    requires ListOk(mem, nodes) && 0 < i < |nodes|
    ensures IsFree(mem, nodes, nodes[i])
  {
    assert NodeOk(mem, nodes, i);
    assert Covers(mem, nodes[i], nodes[i]);
  }

  lemma NotANode(mem: Mem, nodes: seq<int>, b: int, size: int)
    requires ListOk(mem, nodes) && BASE < b && 1 <= size
    requires forall u :: Within(u, b, b + size) ==> !IsFree(mem, nodes, u)
    ensures b !in nodes
  {
    assert !IsFree(mem, nodes, b);
    assert NodeOk(mem, nodes, 0);
    forall i | 0 < i < |nodes| ensures nodes[i] != b {
      NodeIsFree(mem, nodes, i);
    }
  }

  lemma TakeTailList(mem: Mem, nodes: seq<int>, j: int, n: int)
    requires ListOk(mem, nodes) && Coalesced(mem, nodes)
    requires 0 < j < |nodes| && nodes[j] in mem && 1 <= n < mem[nodes[j]].size
    ensures var b := nodes[j] + mem[nodes[j]].size - n;
            var m := Shrunk(mem, nodes, j, n)[b := Hdr(NULL, n)];
            && BASE < b && ListOk(m, nodes) && Coalesced(m, nodes)
            && forall u :: IsFree(m, nodes, u) <==> IsFree(mem, nodes, u) && !Within(u, b, b + n)
  {
    var b := nodes[j] + mem[nodes[j]].size - n;
    var m1 := Shrunk(mem, nodes, j, n);
    var m := m1[b := Hdr(NULL, n)];
    assert NodeOk(mem, nodes, j);
    ShrinkOk(mem, nodes, j, n);
    forall u ensures IsFree(m1, nodes, u) <==> IsFree(mem, nodes, u) && !Within(u, b, b + n)
    {
      ShrinkCovers(mem, nodes, j, n, u);
    }
    forall i ensures !Touch(m1, nodes, i) {
      assert !Touch(mem, nodes, i);
      assert 0 <= i < |nodes| - 1 ==> NodeOk(mem, nodes, i);
    }
    NotANode(m1, nodes, b, n);
    WriteElsewhere(m1, nodes, b, Hdr(NULL, n));
    assert forall u :: IsFree(m, nodes, u) <==> IsFree(m1, nodes, u);
  }

  lemma TakeTailTiles(mem: Mem, nodes: seq<int>, live: map<int, int>, arena: iset<int>, j: int, n: int, b: int,
          m: Mem)
    requires ListOk(mem, nodes) && Coalesced(mem, nodes) && Tiled(mem, nodes, live, arena)
    requires 0 < j < |nodes| && nodes[j] in mem && 1 <= n < mem[nodes[j]].size
    requires b == nodes[j] + mem[nodes[j]].size - n && m == Shrunk(mem, nodes, j, n)[b := Hdr(NULL, n)]
    ensures b !in live && ListOk(m, nodes) && Coalesced(m, nodes) && Tiled(m, nodes, live[b := n], arena)
  {
    TakeTailList(mem, nodes, j, n);
    assert NodeOk(mem, nodes, j);
    forall u | Within(u, b, b + n) ensures IsFree(mem, nodes, u) && !IsUsed(live, u) {
      assert Covers(mem, nodes[j], u);
    }
    NodeIsFree(mem, nodes, j);
    forall a | a in live && a != b ensures a in m && m[a].size == live[a] {
      assert IsUsed(live, a) && a != nodes[j];
    }
    Retile(mem, nodes, live, arena, m, nodes, b, n, arena);
  }

  /** The last node below b. */
  lemma LastBelow(mem: Mem, nodes: seq<int>, b: int) returns (t: int)
    requires ListOk(mem, nodes) && BASE < b && b !in nodes
    ensures 0 <= t < |nodes| && nodes[t] < b && (t + 1 < |nodes| ==> b < nodes[t + 1])
  {
    t := 0;
    assert NodeOk(mem, nodes, 0);
    while t + 1 < |nodes| && nodes[t + 1] < b
      invariant 0 <= t < |nodes| && nodes[t] < b
    {
      t := t + 1;
    }
  }

  lemma NotTheSlot(mem: Mem, nodes: seq<int>, b: int, t: int, i: int)
    requires ListOk(mem, nodes) && 0 <= t < |nodes| && nodes[t] < b && (t + 1 < |nodes| ==> b < nodes[t + 1])
    requires 0 <= i < |nodes| && BASE < b && nodes[i] in mem
    requires !(nodes[i] < b < mem[nodes[i]].ptr)
    requires !(nodes[i] >= mem[nodes[i]].ptr && (b > nodes[i] || b < mem[nodes[i]].ptr))
    ensures i != t
  {
    assert NodeOk(mem, nodes, i) && NodeOk(mem, nodes, 0);
    if i == t && i + 1 == |nodes| && i > 0 {
      Ascending(mem, nodes, 0, i);
    }
  }

  lemma TheSlot(mem: Mem, nodes: seq<int>, b: int, t: int, i: int)
    requires ListOk(mem, nodes) && 0 <= t < |nodes| && nodes[t] < b && (t + 1 < |nodes| ==> b < nodes[t + 1])
    requires 0 <= i < |nodes| && BASE < b && nodes[i] in mem
    requires (nodes[i] < b < mem[nodes[i]].ptr)
      || (nodes[i] >= mem[nodes[i]].ptr && (b > nodes[i] || b < mem[nodes[i]].ptr))
    ensures i == t
  {
    assert NodeOk(mem, nodes, i) && NodeOk(mem, nodes, 0);
    if i < t {
      if i + 1 < t { Ascending(mem, nodes, i + 1, t); }
    } else if t < i {
      if t + 1 < i { Ascending(mem, nodes, t + 1, i); }
    }
  }

  lemma FitsBetween(mem: Mem, nodes: seq<int>, t: int, b: int, size: int)
    requires ListOk(mem, nodes) && BASE < b && 1 <= size
    requires forall u :: Within(u, b, b + size) ==> !IsFree(mem, nodes, u)
    requires 0 <= t < |nodes| && nodes[t] < b && (t + 1 < |nodes| ==> b < nodes[t + 1])
    ensures Between(mem, nodes, t, b, size)
  {
    assert NodeOk(mem, nodes, t);
    assert !IsFree(mem, nodes, b) && !Covers(mem, nodes[t], b);
    if t + 1 < |nodes| {
      var n := nodes[t + 1];
      assert NodeOk(mem, nodes, t + 1);
      assert Covers(mem, nodes[t + 1], n) && IsFree(mem, nodes, n);
    }
  }

  /** The assignments of free leave the memory FreedNodes describes. */
  lemma LinkedAsFreed(mem: Mem, nodes: seq<int>, t: int, b: int, size: int, m: Mem)
    requires ListOk(mem, nodes) && Between(mem, nodes, t, b, size) && b !in nodes
    requires b in mem && mem[b].size == size
    requires var p := nodes[t];
             var next := mem[p].ptr;
             next in mem &&
             var h := if b + size == next then Hdr(mem[next].ptr, size + mem[next].size) else Hdr(next, size);
             m == mem[b := h][p := if p + mem[p].size == b then Hdr(h.ptr, mem[p].size + h.size)
               else Hdr(b, mem[p].size)]
    ensures m == FreedNodes(mem, nodes, t, b, size).0
  {
    var m0, v0 := Linked(mem, nodes, t, b, size), Insert(nodes, t, b);
    assert NodeOk(mem, nodes, t) && NodeOk(mem, nodes, 0);
    assert v0[t] == nodes[t] && v0[t + 1] == b;
    if t + 2 < |v0| {
      assert v0[t + 2] == nodes[t + 1] && NodeOk(mem, nodes, t + 1);
    }
  }

  lemma UsedIsNotFree(mem: Mem, nodes: seq<int>, live: map<int, int>, arena: iset<int>, b: int)
    requires Tiled(mem, nodes, live, arena) && b in live
    ensures forall u :: Within(u, b, b + live[b]) ==> !IsFree(mem, nodes, u)
  {
    forall u | Within(u, b, b + live[b]) ensures !IsFree(mem, nodes, u) {
      assert IsUsed(live, u);
    }
  }

  /** An allocated block other than b is still there, and is not a list node. */
  lemma FreeingTiles(mem: Mem, nodes: seq<int>, live: map<int, int>, arena: iset<int>, b: int, m: Mem, v: seq<int>)
    requires ListOk(mem, nodes) && Tiled(mem, nodes, live, arena) && b in live
    requires forall u :: IsFree(m, v, u) <==> IsFree(mem, nodes, u) || Within(u, b, b + live[b])
    requires forall a | a in mem && a != b && a !in nodes :: a in m && m[a] == mem[a]
    ensures Tiled(m, v, live - {b}, arena)
  {
    var l := live - {b};
    forall a | a in l ensures BASE < a && 1 <= l[a] && a in m && m[a].size == l[a] {
      assert IsUsed(live, a);
      assert NodeOk(mem, nodes, 0);
      forall i | 0 < i < |nodes| ensures nodes[i] != a {
        NodeIsFree(mem, nodes, i);
      }
    }
    forall u ensures IsUsed(live, u) <==> IsUsed(l, u) || Within(u, b, b + live[b]) {
      if IsUsed(live, u) {
        var a :| a in live && a <= u < a + live[a];
        assert a != b ==> a in l;
      }
      if IsUsed(l, u) {
        var a :| a in l && a <= u < a + l[a];
        assert a in live;
      }
    }
    forall u ensures !(Within(u, b, b + live[b]) && IsUsed(l, u)) {
      if IsUsed(l, u) {
        var a :| a in l && a <= u < a + l[a];
        assert a in live && a != b;
        assert a < b || b < a;
      }
    }
  }

  // ----- what the blocks in use hold -----------------------------------------------------

  ghost predicate Kept(mem: Mem, m: Mem, live: map<int, int>, u: int) {
    u in mem && IsUsed(live, u) ==> u in m && m[u] == mem[u]
  }

  /** The units of live blocks hold what they held. */
  ghost predicate Untouched(mem: Mem, m: Mem, live: map<int, int>) {
    forall u :: Kept(mem, m, live, u)
  }

  lemma UsedIsNoNode(mem: Mem, nodes: seq<int>, live: map<int, int>, arena: iset<int>, u: int)
    requires HeapOk(mem, nodes, live, arena) && IsUsed(live, u)
    ensures u !in nodes && !IsFree(mem, nodes, u) && BASE < u
  {
    assert NodeOk(mem, nodes, 0);
    forall i | 0 < i < |nodes| ensures nodes[i] != u {
      NodeIsFree(mem, nodes, i);
    }
  }

  /** Stores to list nodes, and to the first unit b of a block that is not in use, keep it so. */
  lemma NodesOnly(mem: Mem, nodes: seq<int>, live: map<int, int>, arena: iset<int>, b: int, m: Mem)
    requires HeapOk(mem, nodes, live, arena) && !IsUsed(live, b)
    requires forall u | u in mem && u != b && u !in nodes :: u in m && m[u] == mem[u]
    ensures Untouched(mem, m, live)
  {
    forall u ensures Kept(mem, m, live, u) {
      if IsUsed(live, u) {
        UsedIsNoNode(mem, nodes, live, arena, u);
      }
    }
  }

  /** The same for free: what is in use afterwards was in use before. */
  lemma FreeKeeps(mem: Mem, nodes: seq<int>, live: map<int, int>, arena: iset<int>, b: int, m: Mem)
    requires HeapOk(mem, nodes, live, arena) && b in live
    requires forall u | u in mem && u != b && u !in nodes :: u in m && m[u] == mem[u]
    ensures Untouched(mem, m, live - {b})
  {
    var l := live - {b};
    forall u ensures Kept(mem, m, l, u) {
      if IsUsed(l, u) {
        var a :| a in l && a <= u < a + l[a];
        assert a in live && IsUsed(live, u) && u != b;
        UsedIsNoNode(mem, nodes, live, arena, u);
      }
    }
  }

  lemma UntouchedTwice(mem: Mem, m1: Mem, m2: Mem, live: map<int, int>)
    requires Untouched(mem, m1, live) && Untouched(m1, m2, live)
    ensures Untouched(mem, m2, live)
  {
    forall u ensures Kept(mem, m2, live, u) {
      assert Kept(mem, m1, live, u) && Kept(m1, m2, live, u);
    }
  }

  /** The new region as one allocated block, which morecore then frees. */
  lemma GrowingTiles(mem: Mem, nodes: seq<int>, live: map<int, int>, arena: iset<int>, b: int, size: int,
                     m: Mem, l: map<int, int>, a: iset<int>)
    requires HeapOk(mem, nodes, live, arena) && BASE < b && 1 <= size
    requires forall u :: Within(u, b, b + size) ==> u !in arena
    requires m == mem[b := Hdr(NULL, size)] && l == live[b := size] && a == arena + Region(b, b + size)
    ensures b !in live && HeapOk(m, nodes, l, a) && Untouched(mem, m, live)
  {
    assert Within(b, b, b + size);
    forall u | Within(u, b, b + size) ensures !IsFree(mem, nodes, u) && !IsUsed(live, u) {
      assert u !in arena;
    }
    NotANode(mem, nodes, b, size);
    WriteElsewhere(mem, nodes, b, Hdr(NULL, size));
    NodesOnly(mem, nodes, live, arena, b, m);
    Retile(mem, nodes, live, arena, m, nodes, b, size, arena + Region(b, b + size));
  }

  lemma PutAndRemoved(live: map<int, int>, b: int, size: int)
    requires b !in live
    ensures live[b := size] - {b} == live
  {}

  /** A stretch of free space lies inside a single free block. */
  lemma {:induction false} BigNode(mem: Mem, nodes: seq<int>, b: int, size: int) returns (g: int)
    requires ListOk(mem, nodes) && Coalesced(mem, nodes) && 1 <= size
    requires forall u :: Within(u, b, b + size) ==> IsFree(mem, nodes, u)
    ensures 0 <= g < |nodes| && nodes[g] in mem && size <= mem[nodes[g]].size
    ensures nodes[g] <= b && b + size <= nodes[g] + mem[nodes[g]].size
    decreases size
  {
    if size == 1 {
      assert Within(b, b, b + 1) && IsFree(mem, nodes, b);
      g :| 0 <= g < |nodes| && Covers(mem, nodes[g], b);
    } else {
      forall u | Within(u, b, b + size - 1) ensures IsFree(mem, nodes, u) {
        assert Within(u, b, b + size);
      }
      g := BigNode(mem, nodes, b, size - 1);
      var last := b + size - 1;
      assert Within(last, b, b + size) && IsFree(mem, nodes, last);
      var h :| 0 <= h < |nodes| && Covers(mem, nodes[h], last);
      assert NodeOk(mem, nodes, g) && NodeOk(mem, nodes, h) && !Touch(mem, nodes, g);
      assert g + 1 < |nodes| ==> NodeOk(mem, nodes, g + 1);
      if h < g {
        Ascending(mem, nodes, h, g);
      } else if g < h {
        Ascending(mem, nodes, g, h);
        if g + 1 < h { Ascending(mem, nodes, g + 1, h); }
      }
    }
  }

  /** What the assignments of free come to, for a block of used units behind node t. */
  lemma FreedByCode(mem: Mem, nodes: seq<int>, t: int, b: int, size: int, m: Mem)
    requires ListOk(mem, nodes) && Coalesced(mem, nodes) && Between(mem, nodes, t, b, size) && b !in nodes
    requires b in mem && mem[b].size == size && mem[nodes[t]].ptr in mem
    requires var p := nodes[t];
             var next := mem[p].ptr;
             var h := if b + size == next then Hdr(mem[next].ptr, size + mem[next].size) else Hdr(next, size);
             m == mem[b := h][p := if p + mem[p].size == b then Hdr(h.ptr, mem[p].size + h.size)
               else Hdr(b, mem[p].size)]
    ensures var v := FreedNodes(mem, nodes, t, b, size).1;
            && ListOk(m, v) && Coalesced(m, v) && nodes[t] in v
            && forall u :: IsFree(m, v, u) <==> IsFree(mem, nodes, u) || Within(u, b, b + size)
    ensures forall a | a in mem && a != b && a !in nodes :: a in m && m[a] == mem[a]
  {
    FreedOk(mem, nodes, t, b, size);
    LinkedAsFreed(mem, nodes, t, b, size, m);
    var v := FreedNodes(mem, nodes, t, b, size).1;
    assert nodes[t] == v[t];
  }

  /** The assignments of malloc when the block fits exactly. */
  lemma TakeAllOk(mem: Mem, nodes: seq<int>, live: map<int, int>, arena: iset<int>, j: int, n: int, m: Mem)
    requires HeapOk(mem, nodes, live, arena) && 0 < j < |nodes| && nodes[j] in mem && mem[nodes[j]].size == n
    requires nodes[j - 1] in mem && m == mem[nodes[j - 1] := Hdr(mem[nodes[j]].ptr, mem[nodes[j - 1]].size)]
    ensures nodes[j] !in live && BASE < nodes[j] && HeapOk(m, Drop(nodes, j), live[nodes[j] := n], arena)
    ensures Untouched(mem, m, live)
  {
    assert NodeOk(mem, nodes, j);
    NodeIsFree(mem, nodes, j);
    NodesOnly(mem, nodes, live, arena, nodes[j], m);
    UnlinkOk(mem, nodes, j);
    TakeAllTiles(mem, nodes, live, arena, j);
  }

  /** The assignments of malloc when there is more. */
  lemma TakeTailOk(mem: Mem, nodes: seq<int>, live: map<int, int>, arena: iset<int>, j: int, n: int, b: int, m: Mem)
    requires HeapOk(mem, nodes, live, arena) && 0 < j < |nodes| && nodes[j] in mem && 1 <= n < mem[nodes[j]].size
    requires b == nodes[j] + mem[nodes[j]].size - n && m == Shrunk(mem, nodes, j, n)[b := Hdr(NULL, n)]
    ensures b !in live && BASE < b && HeapOk(m, nodes, live[b := n], arena)
    ensures Untouched(mem, m, live)
  {
    assert NodeOk(mem, nodes, j);
    assert Covers(mem, nodes[j], b) && IsFree(mem, nodes, b);
    NodesOnly(mem, nodes, live, arena, b, m);
    TakeTailTiles(mem, nodes, live, arena, j, n, b, m);
  }

  class Heap {
    var mem: Mem
    var freep: int
    ghost var nodes: seq<int>
    ghost var live: map<int, int>
    ghost var arena: iset<int>

    /** Before the first malloc there is no list; afterwards it is well formed,
        coalesced, and tiles the arena together with the allocated blocks. */
    ghost predicate Valid()
      reads this
    {
      if freep == NULL then live == map[] && arena == iset{} else freep in nodes && HeapOk(mem, nodes, live, arena)
    }

    constructor ()
      ensures Valid() && freep == NULL
    {
      mem, freep, nodes, live, arena := map[], NULL, [], map[], iset{};
    }

    /** free's search loop: the node after which block b belongs. */
    method FindSlot(b: int) returns (p: int, ghost t: int)
      requires freep != NULL && ListOk(mem, nodes) && freep in nodes && BASE < b && b !in nodes
      ensures 0 <= t < |nodes| && p == nodes[t] < b && (t + 1 < |nodes| ==> b < nodes[t + 1])
    {
      ghost var k := |nodes|;
      t := LastBelow(mem, nodes, b);
      p := freep;
      ghost var i :| 0 <= i < k && nodes[i] == p;
      assert NodeOk(mem, nodes, i);
      while !(p < b < mem[p].ptr) && !(p >= mem[p].ptr && (b > p || b < mem[p].ptr))
        invariant 0 <= i < k && p == nodes[i] && p in mem
        decreases Dist(k, i, t)
      {
        assert NodeOk(mem, nodes, i);
        NotTheSlot(mem, nodes, b, t, i);
        p := mem[p].ptr;
        i := if i + 1 < k then i + 1 else 0;
        assert NodeOk(mem, nodes, i);
      }
      assert NodeOk(mem, nodes, i);
      TheSlot(mem, nodes, b, t, i);
    }

    /** The linking half of free: block b, of the size its header says, joins the free list. */
    method Link(b: int)
      requires freep != NULL && ListOk(mem, nodes) && Coalesced(mem, nodes) && freep in nodes
      requires BASE < b && b in mem && 1 <= mem[b].size
      requires forall u :: Within(u, b, b + mem[b].size) ==> !IsFree(mem, nodes, u)
      modifies this`mem, this`nodes, this`freep
      ensures ListOk(mem, nodes) && Coalesced(mem, nodes) && freep in nodes && freep != NULL
      ensures forall u :: IsFree(mem, nodes, u) <==>
                IsFree(old(mem), old(nodes), u) || Within(u, b, b + old(mem)[b].size)
      ensures forall a | a in old(mem) && a != b && a !in old(nodes) :: a in mem && mem[a] == old(mem)[a]
    {
      ghost var size := mem[b].size;
      NotANode(mem, nodes, b, size);
      ghost var t;
      var p;
      p, t := FindSlot(b);
      FitsBetween(mem, nodes, t, b, size);
      ghost var freed := FreedNodes(mem, nodes, t, b, size).1;
      assert NodeOk(mem, nodes, t) && NodeOk(mem, nodes, if t + 1 < |nodes| then t + 1 else 0);
      var next := mem[p].ptr;
      if b + mem[b].size == next {
        mem := mem[b := Hdr(mem[next].ptr, mem[b].size + mem[next].size)];
      } else {
        mem := mem[b := Hdr(next, mem[b].size)];
      }
      if p + mem[p].size == b {
        mem := mem[p := Hdr(mem[b].ptr, mem[p].size + mem[b].size)];
      } else {
        mem := mem[p := Hdr(b, mem[p].size)];
      }
      FreedByCode(old(mem), nodes, t, b, size, mem);
      nodes := freed;
      freep := p;
    }

    /** free(ap): the block becomes free space and nothing else changes. */
    method Free(ap: int)
      requires Valid() && ap - 1 in live
      modifies this`mem, this`nodes, this`freep, this`live
      ensures Valid() && freep != NULL && live == old(live) - {ap - 1} && arena == old(arena)
      ensures forall u :: IsFree(mem, nodes, u) <==>
        IsFree(old(mem), old(nodes), u) || Within(u, ap - 1, ap - 1 + old(live)[ap - 1])
      ensures Untouched(old(mem), mem, live)
    {
      var b := ap - 1;
      UsedIsNotFree(mem, nodes, live, arena, b);
      Link(b);
      FreeKeeps(old(mem), old(nodes), live, arena, b, mem);
      live := live - {b};
      FreeingTiles(old(mem), old(nodes), old(live), arena, b, mem, nodes);
    }

    /** morecore(nu), where sbrk returns brk (NULL if it fails): the new region is
        one block, freed.  The list then holds a block of at least nu units. */
    method Morecore(nu: int, brk: int) returns (p: int, ghost g: int)
      requires Valid() && freep != NULL && 1 <= nu
      requires brk != NULL ==> BASE < brk && forall u :: Within(u, brk, brk + Grown(nu)) ==> u !in arena
      modifies this
      ensures Valid() && freep != NULL && live == old(live) && Untouched(old(mem), mem, live)
      ensures brk == NULL ==>
                p == NULL && mem == old(mem) && nodes == old(nodes) && arena == old(arena) && freep == old(freep)
      ensures brk != NULL ==> p == freep && arena == old(arena) + Region(brk, brk + Grown(nu))
      ensures brk != NULL ==> 0 <= g < |nodes| && nodes[g] in mem && nu <= mem[nodes[g]].size
    {
      g := 0;
      if brk == NULL {
        return NULL, 0;
      }
      ghost var was, size := live, Grown(nu);
      mem := mem[brk := Hdr(NULL, Grown(nu))];
      arena := arena + Region(brk, brk + size);
      live := live[brk := size];
      GrowingTiles(old(mem), nodes, was, old(arena), brk, size, mem, live, arena);
      PutAndRemoved(was, brk, size);
      ghost var grown := mem;
      Free(brk + 1);
      UntouchedTwice(old(mem), grown, mem, was);
      g := BigNode(mem, nodes, brk, size);
      p := freep;
    }

    /** The first malloc makes base a list by itself. */
    method StartList()
      requires Valid() && freep == NULL
      modifies this`mem, this`nodes, this`freep
      ensures Valid() && freep == BASE && nodes == [BASE]
    {
      mem := mem[BASE := Hdr(BASE, 0)];
      nodes := [BASE];
      freep := BASE;
      assert NodeOk(mem, nodes, 0);
      assert forall u :: !Covers(mem, BASE, u);
    }

    /** malloc takes n units from free block p, whose predecessor is prevp: the
        whole block if it fits exactly, its tail end otherwise. */
    method Take(prevp: int, p: int, ghost j: int, n: int) returns (b: int)
      requires Valid() && freep != NULL && 0 < j < |nodes| && prevp == nodes[j - 1] && p == nodes[j]
      requires p in mem && 1 <= n <= mem[p].size
      modifies this`mem, this`nodes, this`freep, this`live
      ensures Valid() && freep == prevp && freep != NULL && arena == old(arena)
      ensures b !in old(live) && live == old(live)[b := n] && b > BASE && b == p + old(mem)[p].size - n
      ensures Untouched(old(mem), mem, old(live))
    {
      assert NodeOk(mem, nodes, j) && NodeOk(mem, nodes, j - 1);
      if mem[p].size == n {
        b := p;
        mem := mem[prevp := Hdr(mem[p].ptr, mem[prevp].size)];
        TakeAllOk(old(mem), nodes, live, arena, j, n, mem);
        nodes := Drop(nodes, j);
        assert nodes[j - 1] == prevp;
      } else {
        mem := mem[p := mem[p].(size := mem[p].size - n)];
        b := p + mem[p].size;
        mem := mem[b := Hdr(NULL, n)];
        TakeTailOk(old(mem), nodes, live, arena, j, n, b, mem);
      }
      live := live[b := n];
      freep := prevp;
    }

    /** malloc's search, from freep round to freep: a block of at least n units
        and its predecessor, or none. */
    method Search(n: int) returns (found: bool, prevp: int, p: int, ghost j: int)
      requires freep != NULL && ListOk(mem, nodes) && freep in nodes && 1 <= n
      ensures found ==> 0 < j < |nodes| && prevp == nodes[j - 1] && p == nodes[j] && p in mem && n <= mem[p].size
      ensures found ==> FirstFit(mem, nodes, freep, j, n)
      ensures !found ==> NoneFits(mem, nodes, n)
    {
      ghost var f :| 0 <= f < |nodes| && nodes[f] == freep;   // freep's position
      ghost var q := f;                                       // prevp's position
      assert NodeOk(mem, nodes, f) && NodeOk(mem, nodes, After(nodes, f));
      prevp := freep;
      p := mem[prevp].ptr;
      while true
        invariant 0 <= q < |nodes| && prevp == nodes[q] && p == nodes[After(nodes, q)] && p in mem
        invariant Visited(mem, nodes, f, q, n)
        decreases Dist(|nodes|, After(nodes, q), f)
      {
        j := After(nodes, q);
        if mem[p].size >= n {
          BaseNeverFits(mem, nodes, j, n);
          return true, prevp, p, j;
        }
        if p == freep {
          SamePosition(mem, nodes, j, f);
          AllVisited(mem, nodes, f, q, n);
          return false, prevp, p, j;
        }
        SearchStep(mem, nodes, f, q, n);
        assert NodeOk(mem, nodes, j) && NodeOk(mem, nodes, After(nodes, j));
        prevp, p, q := p, mem[p].ptr, j;
      }
    }

    /** malloc(nbytes), where sbrk returns brk if it is called.  It is called only
        when no free block is large enough, and then just once: the search that
        resumes at freep finds the new space, wherever free merged it. */
    method Malloc(nbytes: nat, brk: int) returns (ap: int)
      requires Valid()
      requires brk != NULL ==> BASE < brk && forall u :: Within(u, brk, brk + Grown(Units(nbytes))) ==> u !in arena
      modifies this
      ensures Valid() && freep != NULL
      ensures ap != NULL ==> BASE < ap - 1 && ap - 1 !in old(live) && live == old(live)[ap - 1 := Units(nbytes)]
      ensures Untouched(old(mem), mem, old(live))
      ensures ap == NULL ==> brk == NULL && live == old(live) && NoneFits(mem, nodes, Units(nbytes))
      ensures old(freep) != NULL && !NoneFits(old(mem), old(nodes), Units(nbytes)) ==>
                arena == old(arena) && FromFirst(old(mem), old(nodes), old(freep), Units(nbytes), ap - 1, freep)
      ensures arena == old(arena) || (brk != NULL && arena == old(arena) + Region(brk, brk + Grown(Units(nbytes))))
    {
      var n := Units(nbytes);
      if freep == NULL {
        StartList();
      }
      ghost var m0, v0, grown := mem, nodes, false;
      while true
        invariant Valid() && freep != NULL && live == old(live) && Untouched(old(mem), mem, live)
        invariant !grown ==> mem == m0 && nodes == v0 && arena == old(arena)
        invariant old(freep) != NULL ==> m0 == old(mem) && v0 == old(nodes) && (grown || freep == old(freep))
        invariant grown ==> NoneFits(m0, v0, n) && brk != NULL && arena == old(arena) + Region(brk, brk + Grown(n))
        invariant grown ==> exists g :: 0 <= g < |nodes| && nodes[g] in mem && n <= mem[nodes[g]].size
        decreases !grown
      {
        ghost var j;
        var found, prevp, p;
        found, prevp, p, j := Search(n);
        if found {
          ghost var before := mem;
          var b := Take(prevp, p, j, n);
          UntouchedTwice(old(mem), before, mem, old(live));
          return b + 1;
        }
        ghost var g;
        ghost var before := mem;
        p, g := Morecore(n, brk);
        UntouchedTwice(old(mem), before, mem, live);
        if p == NULL {
          return NULL;
        }
        grown := true;
      }
    }
  }
}
