/** The buffer cache (bio.c): NBUF buffers on a circular doubly linked list kept
    in order of use, most recently released first. */
module BufferCache {
  import opened RedoLog
  import opened Pigeonhole
  const NBUF := 30
  const HEAD := NBUF        // the list head, kept as one more element of the array
  const ROOTDEV := 1

  datatype Buf = Buf(valid: bool, dev: int, blockno: int, locked: bool, refcnt: int, prev: int, next: int, data: Block)

  const ZEROES: Block := seq(WORDS, _ => 0)

  /** The list as one walk from the head round to the head. */
  function Walk(ring: seq<int>): seq<int> {
    [HEAD] + ring + [HEAD]
  }

  /** The prev and next fields link exactly the buffers of `ring`, in that order, through the head. */
  ghost predicate Linked(bs: seq<Buf>, ring: seq<int>) {
    && |bs| == NBUF + 1
    && (forall k | 0 <= k < |ring| :: 0 <= ring[k] < NBUF)
    && (forall j, k | 0 <= j < k < |ring| :: ring[j] != ring[k])
    && (forall k | 0 <= k <= |ring| :: bs[Walk(ring)[k]].next == Walk(ring)[k + 1])
    && (forall k | 0 <= k <= |ring| :: bs[Walk(ring)[k + 1]].prev == Walk(ring)[k])
  }

  function Without(ring: seq<int>, b: int): (r: seq<int>)
    ensures b !in ring ==> r == ring
    ensures forall x :: x in r <==> x in ring && x != b
  {
    if ring == [] then []
    else (if ring[0] == b then [] else [ring[0]]) + Without(ring[1..], b)
  }

  lemma DropFromTail(ring: seq<int>, k: nat)
    requires 0 < k < |ring|
    ensures [ring[0]] + (ring[1..][..k - 1] + ring[1..][k..]) == ring[..k] + ring[k + 1..]
  {}

  lemma {:induction false} WithoutAt(ring: seq<int>, k: nat)
    requires k < |ring| && forall i, j | 0 <= i < j < |ring| :: ring[i] != ring[j]
    ensures Without(ring, ring[k]) == ring[..k] + ring[k + 1..]
  {
    if k == 0 {
      assert ring[0] !in ring[1..];
    } else {
      WithoutAt(ring[1..], k - 1);
      DropFromTail(ring, k);
    }
  }

  /** Every one of the NBUF buffers is on the list, however often it was relinked. */
  ghost predicate Complete(ring: seq<int>) {
    forall i | 0 <= i < NBUF :: i in ring
  }

  /** The buffers with b taken out of the list: its neighbours are linked to each other. */
  function Unlink(bs: seq<Buf>, b: int): seq<Buf>
    requires |bs| == NBUF + 1 && 0 <= b < NBUF && 0 <= bs[b].next <= NBUF && 0 <= bs[b].prev <= NBUF
  {
    var c := bs[bs[b].next := bs[bs[b].next].(prev := bs[b].prev)];
    c[c[b].prev := c[c[b].prev].(next := c[b].next)]
  }

  /** The buffers with b put between the head and what was first. */
  function LinkFirst(bs: seq<Buf>, b: int): seq<Buf>
    requires |bs| == NBUF + 1 && 0 <= b < NBUF && 0 <= bs[HEAD].next <= NBUF
  {
    var c := bs[b := bs[b].(next := bs[HEAD].next, prev := HEAD)];
    var d := c[c[HEAD].next := c[c[HEAD].next].(prev := b)];
    d[HEAD := d[HEAD].(next := b)]
  }

  /** After the k-th buffer of the walk w is unlinked, its neighbours are linked to each other. */
  lemma UnlinkAt(bs: seq<Buf>, ring: seq<int>, k: nat)
    requires Linked(bs, ring) && k < |ring|
    ensures bs[ring[k]].next == Walk(ring)[k + 2] && bs[ring[k]].prev == Walk(ring)[k]
    ensures var w, c := Walk(ring), Unlink(bs, ring[k]);
            && (forall i | 0 <= i <= |ring| && i != k && i != k + 1 :: c[w[i]].next == w[i + 1])
            && (forall i | 0 <= i <= |ring| && i != k && i != k + 1 :: c[w[i + 1]].prev == w[i])
            && c[w[k]].next == w[k + 2] && c[w[k + 2]].prev == w[k]
  {
    var w := Walk(ring);
    assert w[k + 1] == ring[k];
    assert bs[w[k]].next == w[k + 1] && bs[w[k + 1]].next == w[k + 2] && bs[w[k + 1]].prev == w[k];
  }

  /** The walk without the k-th buffer: both ways round it goes from the k-th place to the next but one. */
  lemma WalkWithout(ring: seq<int>, k: nat, j: nat)
    requires k < |ring| && j < |ring|
    ensures var w, v := Walk(ring), Walk(ring[..k] + ring[k + 1..]);
            && |v| == |w| - 1
            && v[j] == (if j <= k then w[j] else w[j + 1])
            && v[j + 1] == (if j < k then w[j + 1] else w[j + 2])
  {}

  lemma UnlinkKeepsList(bs: seq<Buf>, ring: seq<int>, k: nat)
    requires Linked(bs, ring) && k < |ring|
    ensures 0 <= bs[ring[k]].next <= NBUF && 0 <= bs[ring[k]].prev <= NBUF
    ensures Linked(Unlink(bs, ring[k]), ring[..k] + ring[k + 1..])
  {
    UnlinkAt(bs, ring, k);
    var w, c, r := Walk(ring), Unlink(bs, ring[k]), ring[..k] + ring[k + 1..];
    var v := Walk(r);
    forall j | 0 <= j <= |r| ensures c[v[j]].next == v[j + 1] && c[v[j + 1]].prev == v[j] {
      WalkWithout(ring, k, j);
      var i := if j <= k then j else j + 1;
      assert j != k ==> v[j] == w[i] && v[j + 1] == w[i + 1];
    }
  }

  lemma LinkFirstKeepsList(bs: seq<Buf>, ring: seq<int>, b: int)
    requires Linked(bs, ring) && 0 <= b < NBUF && b !in ring
    ensures 0 <= bs[HEAD].next <= NBUF
    ensures Linked(LinkFirst(bs, b), [b] + ring)
  {
    var w := Walk(ring);
    assert w[0] == HEAD && bs[HEAD].next == w[1];
    var c := LinkFirst(bs, b);
    var v := Walk([b] + ring);
    forall j | 0 <= j <= |ring| + 1 ensures c[v[j]].next == v[j + 1] && c[v[j + 1]].prev == v[j] {
      if j == 0 {
        assert v[0] == HEAD && v[1] == b;
      } else if j == 1 {
        assert v[1] == b && v[2] == w[1];
      } else {
        assert v[j] == w[j - 1] && v[j + 1] == w[j];
      }
    }
  }

  /** Relinking touches no field but prev and next. */
  ghost predicate SameContents(bs: seq<Buf>, cs: seq<Buf>) {
    && |bs| == |cs|
    && forall i | 0 <= i < |bs| :: cs[i] == bs[i].(prev := cs[i].prev, next := cs[i].next)
  }

  lemma RelinkUnchanged(bs: seq<Buf>, ring: seq<int>, b: int, x: Buf)
    requires Linked(bs, ring) && 0 <= b < |bs| && x.prev == bs[b].prev && x.next == bs[b].next
    ensures Linked(bs[b := x], ring)
  {
    assert forall k | 0 <= k <= |ring| + 1 :: 0 <= Walk(ring)[k] < |bs|;
  }

  /** What the buffers mean, block by block: `cur` is the data a reader gets,
      `refs` the reference counts, `held` the blocks whose sleep lock is taken,
      `slot` the buffer of each block or -1. */
  ghost predicate Represents(bs: seq<Buf>, disk: Disk, cur: Disk, refs: seq<int>, held: set<int>, slot: seq<int>) {
    && |bs| == NBUF + 1 && |cur| == |disk| == |refs| == |slot|
    && (forall i | 0 <= i < NBUF && bs[i].dev == ROOTDEV ::
          && 0 <= bs[i].blockno < |disk| && slot[bs[i].blockno] == i
          && refs[bs[i].blockno] == bs[i].refcnt && (bs[i].locked <==> bs[i].blockno in held)
          && (bs[i].locked ==> bs[i].valid)
          && cur[bs[i].blockno] == (if bs[i].valid then bs[i].data else disk[bs[i].blockno]))
    && (forall i | 0 <= i < NBUF && bs[i].dev != ROOTDEV ::
          bs[i].dev == 0 && bs[i].blockno == 0 && bs[i].refcnt == 0 && !bs[i].locked)
    && (forall n | 0 <= n < |disk| && slot[n] != -1 ::
          0 <= slot[n] < NBUF && bs[slot[n]].dev == ROOTDEV && bs[slot[n]].blockno == n)
    && (forall n | 0 <= n < |disk| && slot[n] == -1 :: refs[n] == 0 && cur[n] == disk[n])
    && (forall n | n in held :: 0 <= n < |disk| && 0 < refs[n])
    && (forall n | 0 <= n < |disk| :: 0 <= refs[n])
    // what recycling relies on: a block nobody refers to is clean
    && (forall n | 0 <= n < |disk| && refs[n] == 0 :: cur[n] == disk[n])
  }

  lemma RefcntNonNegative(bs: seq<Buf>, disk: Disk, cur: Disk, refs: seq<int>, held: set<int>, slot: seq<int>, b: int)
    requires Represents(bs, disk, cur, refs, held, slot) && 0 <= b < NBUF
    ensures 0 <= bs[b].refcnt
  {}

  lemma ReuseRepresents(bs: seq<Buf>, b: int, n: int, disk: Disk, cur: Disk, refs: seq<int>, held: set<int>,
          slot: seq<int>)
    requires Represents(bs, disk, cur, refs, held, slot)
    requires 0 <= n < |disk| && slot[n] == -1 && 0 <= b < NBUF && bs[b].refcnt == 0
    ensures Represents(bs[b := bs[b].(dev := ROOTDEV, blockno := n, valid := false, refcnt := 1)], disk, cur,
              refs[n := 1], held, (if bs[b].dev == ROOTDEV then slot[bs[b].blockno := -1] else slot)[n := b])
  {
  }

  lemma RecountRepresents(bs: seq<Buf>, b: int, d: int, disk: Disk, cur: Disk, refs: seq<int>, held: set<int>,
          slot: seq<int>)
    requires Represents(bs, disk, cur, refs, held, slot)
    requires 0 <= b < NBUF && bs[b].dev == ROOTDEV && 0 <= bs[b].refcnt + d
    requires bs[b].refcnt + d == 0 ==> cur[bs[b].blockno] == disk[bs[b].blockno] && !bs[b].locked
    ensures Represents(bs[b := bs[b].(refcnt := bs[b].refcnt + d)], disk, cur,
              refs[bs[b].blockno := bs[b].refcnt + d], held, slot)
  {
  }

  lemma SetRepresents(bs: seq<Buf>, b: int, m: int, data: Block,
                      disk: Disk, cur: Disk, refs: seq<int>, held: set<int>, slot: seq<int>)
    requires Represents(bs, disk, cur, refs, held, slot)
    requires 0 <= m < |disk| && slot[m] == b && m in held
    ensures Represents(bs[b := bs[b].(data := data)], disk, cur[m := data], refs, held, slot)
  {
  }

  lemma LockRepresents(bs: seq<Buf>, b: int, disk: Disk, cur: Disk, refs: seq<int>, held: set<int>, slot: seq<int>)
    requires Represents(bs, disk, cur, refs, held, slot)
    requires 0 <= b < NBUF && bs[b].dev == ROOTDEV && 0 < bs[b].refcnt
    ensures var n := bs[b].blockno;
            Represents(bs[b := bs[b].(locked := true, valid := true,
                data := if bs[b].valid then bs[b].data else disk[n])],
              disk, cur, refs, held + {n}, slot)
  {
  }

  lemma UnlockRepresents(bs: seq<Buf>, b: int, disk: Disk, cur: Disk, refs: seq<int>, held: set<int>, slot: seq<int>)
    requires Represents(bs, disk, cur, refs, held, slot)
    requires 0 <= b < NBUF && bs[b].dev == ROOTDEV
    ensures Represents(bs[b := bs[b].(locked := false)], disk, cur, refs, held - {bs[b].blockno}, slot)
  {
  }

  lemma SameRepresents(bs: seq<Buf>, cs: seq<Buf>, disk: Disk, cur: Disk, refs: seq<int>, held: set<int>,
          slot: seq<int>)
    requires Represents(bs, disk, cur, refs, held, slot) && SameContents(bs, cs)
    ensures Represents(cs, disk, cur, refs, held, slot)
  {
  }

  /** The blocks that somebody refers to. */
  ghost function Referred(refs: seq<int>): set<int> {
    set m | 0 <= m < |refs| && refs[m] > 0
  }

  /** Blocks that are referred to and lie in different places, all in t, are no more than t has. */
  lemma {:induction false} PlacesFit(refs: seq<int>, slot: seq<int>, t: set<int>)
    requires |refs| <= |slot| && forall m | 0 <= m < |refs| && refs[m] > 0 :: slot[m] in t
    requires forall m, n | 0 <= m < n < |refs| && refs[m] > 0 && refs[n] > 0 :: slot[m] != slot[n]
    ensures |Referred(refs)| <= |t|
  {
    if refs != [] {
      var k := |refs| - 1;
      var r := refs[..k];
      if refs[k] > 0 {
        PlacesFit(r, slot, t - {slot[k]});
        assert Referred(refs) == Referred(r) + {k};
      } else {
        PlacesFit(r, slot, t);
        assert Referred(refs) == Referred(r);
      }
    }
  }

  /** Blocks that are referred to have buffers that are, each its own. */
  ghost predicate Spread(bs: seq<Buf>, refs: seq<int>, slot: seq<int>, n: nat) {
    && |refs| == |slot| && n <= |bs|
    && (forall m | 0 <= m < |refs| && refs[m] > 0 :: 0 <= slot[m] < n && bs[slot[m]].refcnt > 0)
    && forall m, k | 0 <= m < k < |refs| && refs[m] > 0 && refs[k] > 0 :: slot[m] != slot[k]
  }

  lemma SlotsApart(bs: seq<Buf>, disk: Disk, cur: Disk, refs: seq<int>, held: set<int>, slot: seq<int>)
    requires Represents(bs, disk, cur, refs, held, slot)
    ensures Spread(bs, refs, slot, NBUF)
  {
    forall m, k | 0 <= m < k < |refs| && refs[m] > 0 && refs[k] > 0 ensures slot[m] != slot[k] {
      assert bs[slot[m]].blockno == m && bs[slot[k]].blockno == k;
    }
  }

  /** Never more blocks are referred to than there are buffers, and fewer if buffer i is unused. */
  lemma ReferredFit(bs: seq<Buf>, refs: seq<int>, slot: seq<int>, n: nat, i: int)
    requires Spread(bs, refs, slot, n)
    ensures |Referred(refs)| <= n
    ensures 0 <= i < n && bs[i].refcnt <= 0 ==> |Referred(refs)| < n
  {
    var all := Below(n);
    PlacesFit(refs, slot, all);
    if 0 <= i < n && bs[i].refcnt <= 0 {
      PlacesFit(refs, slot, all - {i});
    }
  }

  /** If all buffers are referred to, so are that many blocks. */
  lemma AllReferred(bs: seq<Buf>, disk: Disk, cur: Disk, refs: seq<int>, held: set<int>, slot: seq<int>)
    requires Represents(bs, disk, cur, refs, held, slot) && forall i | 0 <= i < NBUF :: bs[i].refcnt > 0
    ensures NBUF <= |Referred(refs)|
  {
    var s := seq(NBUF, i requires 0 <= i < NBUF => bs[i].blockno);
    assert forall i | 0 <= i < NBUF :: bs[i].dev == ROOTDEV;
    forall i, j | 0 <= i < j < |s| ensures s[i] != s[j] {
      assert slot[bs[i].blockno] == i && slot[bs[j].blockno] == j;
    }
    DistinctFit(s, Referred(refs));
  }

  /** bget finds no buffer to recycle exactly if NBUF blocks are referred to; there are never more. */
  lemma NoneUnused(bs: seq<Buf>, disk: Disk, cur: Disk, refs: seq<int>, held: set<int>, slot: seq<int>)
    requires Represents(bs, disk, cur, refs, held, slot)
    ensures |Referred(refs)| <= NBUF
    ensures |Referred(refs)| == NBUF <==> forall i | 0 <= i < NBUF :: bs[i].refcnt > 0
  {
    SlotsApart(bs, disk, cur, refs, held, slot);
    forall i ensures |Referred(refs)| <= NBUF && (0 <= i < NBUF && bs[i].refcnt <= 0 ==> |Referred(refs)| < NBUF) {
      ReferredFit(bs, refs, slot, NBUF, i);
    }
    if forall i | 0 <= i < NBUF :: bs[i].refcnt > 0 {
      AllReferred(bs, disk, cur, refs, held, slot);
    }
  }

  lemma NoneForBlock(bs: seq<Buf>, disk: Disk, cur: Disk, refs: seq<int>, held: set<int>, slot: seq<int>, n: int)
    requires Represents(bs, disk, cur, refs, held, slot) && 0 <= n < |disk|
    ensures slot[n] == -1 && (forall i | 0 <= i < NBUF :: bs[i].refcnt > 0) <==>
              refs[n] == 0 && |Referred(refs)| == NBUF
  {
    NoneUnused(bs, disk, cur, refs, held, slot);
  }

  class Bcache {
    const bufs: array<Buf>
    var disk: Disk
    ghost var trace: seq<Disk>    // the disk after each block write
    ghost var ring: seq<int>      // the buffers in list order
    ghost var cur: Disk
    ghost var refs: seq<int>
    ghost var held: set<int>
    ghost var slot: seq<int>

    ghost predicate Valid()
      reads this, bufs
    {
      && Linked(bufs[..], ring) && Complete(ring)
      && Represents(bufs[..], disk, cur, refs, held, slot)
    }

    /** The four assignments that put b at the front of the list. */
    method InsertFirst(b: int)
      requires Linked(bufs[..], ring) && 0 <= b < NBUF && b !in ring
      modifies bufs, this`ring
      ensures ring == [b] + old(ring) && Linked(bufs[..], ring)
      ensures SameContents(old(bufs[..]), bufs[..])
    {
      LinkFirstKeepsList(bufs[..], ring, b);
      bufs[b] := bufs[b].(next := bufs[HEAD].next, prev := HEAD);
      bufs[bufs[HEAD].next] := bufs[bufs[HEAD].next].(prev := b);
      bufs[HEAD] := bufs[HEAD].(next := b);
      assert bufs[..] == LinkFirst(old(bufs[..]), b);
      ring := [b] + ring;
    }

    /** binit */
    constructor (disk: Disk)
      ensures Valid() && fresh(bufs) && this.disk == disk == cur && trace == []
      ensures refs == seq(|disk|, _ => 0) && held == {}
    {
      this.disk, trace, cur := disk, [], disk;
      refs, held, slot := seq(|disk|, _ => 0), {}, seq(|disk|, _ => -1);
      bufs := new Buf[NBUF + 1](_ => Buf(false, 0, 0, false, 0, HEAD, HEAD, ZEROES));
      ring := [];
      new;
      var b := 0;
      while b < NBUF
        invariant 0 <= b <= NBUF
        invariant fresh(bufs) && bufs.Length == NBUF + 1
        invariant Linked(bufs[..], ring)
        invariant forall i :: i in ring <==> 0 <= i < b
        invariant forall i | 0 <= i <= NBUF ::
          bufs[i].dev == 0 && bufs[i].blockno == 0 && bufs[i].refcnt == 0 && !bufs[i].locked
        invariant this.disk == disk == cur && trace == []
        invariant refs == seq(|disk|, _ => 0) && held == {} && slot == seq(|disk|, _ => -1)
      {
        InsertFirst(b);
        b := b + 1;
      }
    }

    method Remove(b: int)
      requires Linked(bufs[..], ring) && b in ring
      modifies bufs, this`ring
      ensures ring == Without(old(ring), b) && Linked(bufs[..], ring)
      ensures SameContents(old(bufs[..]), bufs[..])
    {
      ghost var k :| 0 <= k < |ring| && ring[k] == b;
      UnlinkKeepsList(bufs[..], ring, k);
      bufs[bufs[b].next] := bufs[bufs[b].next].(prev := bufs[b].prev);
      bufs[bufs[b].prev] := bufs[bufs[b].prev].(next := bufs[b].next);
      assert bufs[..] == Unlink(old(bufs[..]), b);
      WithoutAt(ring, k);
      ring := Without(ring, b);
    }

    /** bget's first loop: the buffer caching block n, or HEAD. */
    method FindCached(n: int) returns (b: int)
      requires Valid() && 0 <= n < |disk|
      ensures slot[n] == -1 ==> b == HEAD
      ensures slot[n] != -1 ==> b == slot[n]
    {
      assert slot[n] != -1 ==> slot[n] in ring;
      ghost var k := 1;
      b := bufs[HEAD].next;
      assert bufs[Walk(ring)[0]].next == Walk(ring)[1];
      while b != HEAD
        invariant 1 <= k <= |ring| + 1 && b == Walk(ring)[k]
        invariant forall j | 0 <= j < k - 1 :: !(bufs[ring[j]].dev == ROOTDEV && bufs[ring[j]].blockno == n)
        decreases |ring| + 1 - k
      {
        if bufs[b].dev == ROOTDEV && bufs[b].blockno == n {
          return;
        }
        assert bufs[Walk(ring)[k]].next == Walk(ring)[k + 1];
        b := bufs[b].next;
        k := k + 1;
      }
    }

    /** bget's second loop: the least recently used buffer nobody refers to, or HEAD. */
    method FindUnused() returns (b: int)
      requires Valid()
      ensures b == HEAD <==> forall i | 0 <= i < NBUF :: bufs[i].refcnt > 0
      ensures b != HEAD ==> 0 <= b < NBUF && bufs[b].refcnt == 0
      ensures b != HEAD ==> exists k :: 0 <= k < |ring| && ring[k] == b && forall j | k < j < |ring| ::
                bufs[ring[j]].refcnt > 0
    {
      ghost var k := |ring|;
      b := bufs[HEAD].prev;
      assert b == Walk(ring)[|ring|] by {
        assert bufs[Walk(ring)[|ring| + 1]].prev == Walk(ring)[|ring|];
      }
      while b != HEAD
        invariant 0 <= k <= |ring| && b == Walk(ring)[k]
        invariant forall j | k <= j < |ring| :: bufs[ring[j]].refcnt > 0
        decreases k
      {
        assert b == ring[k - 1];
        if bufs[b].refcnt == 0 {
          return;
        }
        assert 0 < bufs[b].refcnt by {
          RefcntNonNegative(bufs[..], disk, cur, refs, held, slot, b);
        }
        assert bufs[Walk(ring)[k]].prev == Walk(ring)[k - 1];
        b := bufs[b].prev;
        k := k - 1;
      }
      forall i | 0 <= i < NBUF ensures bufs[i].refcnt > 0 {
        assert i in ring;
      }
    }

    /** A buffer nobody refers to is given to block n, which is not cached. */
    method Reuse(b: int, n: int)
      requires Valid() && 0 <= n < |disk| && slot[n] == -1
      requires 0 <= b < NBUF && bufs[b].refcnt == 0
      modifies bufs, this`refs, this`slot
      ensures Valid() && slot[n] == b && refs == old(refs)[n := 1]
      ensures forall m | 0 <= m < |disk| && old(refs)[m] > 0 :: slot[m] == old(slot)[m]
      ensures bufs[b].refcnt == 1 && !bufs[b].valid && !bufs[b].locked
    {
      var was := bufs[b];
      bufs[b] := bufs[b].(dev := ROOTDEV, blockno := n, valid := false, refcnt := 1);
      if was.dev == ROOTDEV {
        slot := slot[was.blockno := -1];
      }
      slot := slot[n := b];
      refs := refs[n := 1];
      assert bufs[..] == old(bufs[..])[b := bufs[b]];
      RelinkUnchanged(old(bufs[..]), ring, b, bufs[b]);
      ReuseRepresents(old(bufs[..]), b, n, disk, cur, old(refs), held, old(slot));
    }

    /** Counts d more references, for a buffer that stays referred to or is clean. */
    method AddRef(b: int, d: int)
      requires Valid() && 0 <= b < NBUF && bufs[b].dev == ROOTDEV
      requires 0 <= bufs[b].refcnt + d
      requires bufs[b].refcnt + d == 0 ==> cur[bufs[b].blockno] == disk[bufs[b].blockno] && !bufs[b].locked
      modifies bufs, this`refs
      ensures Valid() && refs == old(refs)[bufs[b].blockno := old(refs)[bufs[b].blockno] + d]
      ensures bufs[..] == old(bufs[..])[b := old(bufs[b]).(refcnt := old(bufs[b].refcnt) + d)]
    {
      bufs[b] := bufs[b].(refcnt := bufs[b].refcnt + d);
      refs := refs[bufs[b].blockno := bufs[b].refcnt];
      assert bufs[..] == old(bufs[..])[b := bufs[b]];
      RelinkUnchanged(old(bufs[..]), ring, b, bufs[b]);
      RecountRepresents(old(bufs[..]), b, d, disk, cur, old(refs), held, slot);
    }

    /** bget without its final acquiresleep: the buffer of block n with one more
        reference, or HEAD where the code panics because every buffer is in use. */
    method Bget(n: int) returns (b: int)
      requires Valid() && 0 <= n < |disk|
      modifies bufs, this`refs, this`slot
      ensures Valid()
      ensures b == HEAD <==> old(slot[n]) == -1 && forall i | 0 <= i < NBUF :: old(bufs[i].refcnt) > 0
      ensures b == HEAD ==> bufs[..] == old(bufs[..]) && refs == old(refs) && slot == old(slot)
      ensures b != HEAD ==> 0 <= b < NBUF && slot[n] == b && refs == old(refs)[n := old(refs)[n] + 1]
      ensures forall m | 0 <= m < |disk| && old(refs)[m] > 0 :: slot[m] == old(slot)[m]
      // otherwise the buffer is the least recently used one that nobody refers to
      ensures b != HEAD && old(slot[n]) == -1 ==> old(bufs[b].refcnt) == 0
      ensures b != HEAD && old(slot[n]) == -1 ==>
        exists k :: 0 <= k < |ring| && ring[k] == b && forall j | k < j < |ring| :: old(bufs[..])[ring[j]].refcnt > 0
    {
      b := FindCached(n);
      if b != HEAD {
        AddRef(b, 1);
        return;
      }
      b := FindUnused();
      if b != HEAD {
        Reuse(b, n);
      }
    }

    /** acquiresleep, and the disk read if the buffer is not valid. */
    method LockAndRead(b: int)
      requires Valid() && 0 <= b < NBUF && bufs[b].dev == ROOTDEV && 0 < bufs[b].refcnt
      modifies bufs, this`held
      ensures Valid() && held == old(held) + {old(bufs[b].blockno)}
      ensures bufs[b].valid && bufs[b].data == cur[old(bufs[b].blockno)]
    {
      var n := bufs[b].blockno;
      bufs[b] := bufs[b].(locked := true);
      if !bufs[b].valid {
        bufs[b] := bufs[b].(data := disk[n], valid := true);
      }
      held := held + {n};
      assert bufs[..] == old(bufs[..])[b := bufs[b]];
      RelinkUnchanged(old(bufs[..]), ring, b, bufs[b]);
      LockRepresents(old(bufs[..]), b, disk, cur, refs, old(held), slot);
    }

    /** bread: the locked buffer with block n's contents.  The block's sleep lock
        must be free, as it is when acquiresleep returns. */
    method Bread(n: int) returns (b: int)
      requires Valid() && 0 <= n < |disk| && n !in held
      modifies bufs, this`refs, this`slot, this`held
      ensures Valid() && cur == old(cur)
      ensures b == HEAD <==> old(refs)[n] == 0 && |Referred(old(refs))| == NBUF
      ensures b == HEAD ==> bufs[..] == old(bufs[..]) && refs == old(refs) && slot == old(slot) && held == old(held)
      ensures b != HEAD ==> 0 <= b < NBUF && slot[n] == b && bufs[b].valid && bufs[b].data == old(cur)[n]
      ensures b != HEAD ==> refs == old(refs)[n := old(refs)[n] + 1] && held == old(held) + {n}
      ensures forall m | 0 <= m < |disk| && old(refs)[m] > 0 :: slot[m] == old(slot)[m]
    {
      NoneForBlock(bufs[..], disk, cur, refs, held, slot, n);
      b := Bget(n);
      if b != HEAD {
        LockAndRead(b);
      }
    }

    /** The data of the buffer of block m. */
    method Data(b: int, ghost m: int) returns (data: Block)
      requires Valid() && 0 <= m < |disk| && slot[m] == b && m in held
      ensures data == cur[m]
    {
      data := bufs[b].data;
    }

    /** The holder of a buffer overwrites its data. */
    method SetData(b: int, data: Block, ghost m: int)
      requires Valid() && 0 <= m < |disk| && slot[m] == b && m in held
      modifies bufs, this`cur
      ensures Valid() && cur == old(cur)[m := data]
    {
      RelinkUnchanged(bufs[..], ring, b, bufs[b].(data := data));
      SetRepresents(bufs[..], b, m, data, disk, cur, refs, held, slot);
      bufs[b] := bufs[b].(data := data);
      cur := cur[m := data];
    }

    /** bwrite: one block write. */
    method Bwrite(b: int, ghost m: int)
      requires Valid() && 0 <= m < |disk| && slot[m] == b && m in held
      modifies this`disk, this`trace
      ensures Valid() && disk == old(disk)[m := cur[m]] && trace == old(trace) + [disk]
    {
      disk := disk[bufs[b].blockno := bufs[b].data];
      trace := trace + [disk];
    }

    method MoveToFront(b: int)
      requires Valid() && 0 <= b < NBUF
      modifies bufs, this`ring
      ensures Valid() && ring == [b] + Without(old(ring), b)
      ensures SameContents(old(bufs[..]), bufs[..])
    {
      Remove(b);
      InsertFirst(b);
      SameRepresents(old(bufs[..]), bufs[..], disk, cur, refs, held, slot);
    }

    /** brelse after releasesleep. */
    method DropRef(b: int)
      requires Valid() && 0 <= b < NBUF && bufs[b].dev == ROOTDEV && 0 < bufs[b].refcnt
      requires bufs[b].refcnt == 1 ==> cur[bufs[b].blockno] == disk[bufs[b].blockno] && !bufs[b].locked
      modifies bufs, this`refs, this`ring
      ensures Valid() && refs == old(refs)[old(bufs[b].blockno) := old(bufs[b].refcnt) - 1]
      ensures ring == if old(bufs[b].refcnt) == 1 then [b] + Without(old(ring), b) else old(ring)
    {
      AddRef(b, -1);
      if bufs[b].refcnt == 0 {
        MoveToFront(b);
      }
    }

    /** releasesleep */
    method Unlock(b: int)
      requires Valid() && 0 <= b < NBUF && bufs[b].dev == ROOTDEV && bufs[b].locked
      modifies bufs, this`held
      ensures Valid() && held == old(held) - {old(bufs[b].blockno)}
      ensures bufs[..] == old(bufs[..])[b := old(bufs[b]).(locked := false)]
    {
      bufs[b] := bufs[b].(locked := false);
      held := held - {bufs[b].blockno};
      assert bufs[..] == old(bufs[..])[b := bufs[b]];
      RelinkUnchanged(old(bufs[..]), ring, b, bufs[b]);
      UnlockRepresents(old(bufs[..]), b, disk, cur, refs, old(held), slot);
    }

    /** brelse: the buffer goes to the front of the list once nobody refers to it.
        Whoever drops the last reference must have written or logged its changes. */
    method Brelse(b: int, ghost m: int)
      requires Valid() && 0 <= m < |disk| && slot[m] == b && m in held
      requires refs[m] == 1 ==> cur[m] == disk[m]
      modifies bufs, this`refs, this`held, this`ring
      ensures Valid() && held == old(held) - {m} && refs == old(refs)[m := old(refs)[m] - 1]
      ensures ring == if old(refs)[m] == 1 then [b] + Without(old(ring), b) else old(ring)
    {
      Unlock(b);
      DropRef(b);
    }

    /** bpin and bunpin */
    method Bpin(b: int, ghost m: int)
      requires Valid() && 0 <= m < |disk| && slot[m] == b && 0 < refs[m]
      modifies bufs, this`refs
      ensures Valid() && refs == old(refs)[m := old(refs)[m] + 1]
    {
      AddRef(b, 1);
    }

    method Bunpin(b: int, ghost m: int)
      requires Valid() && 0 <= m < |disk| && slot[m] == b && 1 < refs[m]
      modifies bufs, this`refs
      ensures Valid() && refs == old(refs)[m := old(refs)[m] - 1]
    {
      AddRef(b, -1);
    }
  }
}
