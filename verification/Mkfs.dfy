/** The program that builds the first image (mkfs.c): its own block map code, its own free map. */
module Mkfs {
  import opened FsBlocks
  import opened FsState
  import opened FsCode

  /** The blocks below freeblock are in use. */
  function UsedBelow(n: int, freeblock: int): (bits: seq<bool>)
    requires 0 <= n
    ensures |bits| == n && forall b | 0 <= b < n :: bits[b] == (b < freeblock)
  {
    seq(n, b => b < freeblock)
  }

  /** There are no blocks from the limit on. */
  ghost predicate Bare(f: Fs, i: int, limit: int)
    requires Wf(f) && 0 <= i < |f.ino|
  {
    forall bn | 0 <= bn < MAXFILE && bn * BSIZE >= limit :: Addr(f, i, SlotOf(bn)) == 0
  }

  /** The file has exactly the blocks its size calls for. */
  ghost predicate Tight(f: Fs, i: int, size: int)
    requires Wf(f) && 0 <= i < |f.ino|
  {
    Covered(f, i, size) && Bare(f, i, size)
  }

  /** Only the size of inode i differs: it is the next multiple of the block size. */
  ghost predicate FixedSize(f: Fs, g: Fs, i: int) {
    && Wf(f) && Wf(g) && |g.ino| == |f.ino| && 0 <= i < |f.ino| && OthersKept(f, g, i)
    && g.ino[i].size == (f.ino[i].size / BSIZE + 1) * BSIZE
    && (forall k | 0 <= k < NSLOT :: Addr(g, i, k) == Addr(f, i, k))
    && (forall x, o | InFile(f, x, o) :: DataAt(g, x, o) == DataAt(f, x, o))
  }

  lemma FixedSizeOwned(f: Fs, owner: map<int, Slot>, i: int, size: int)
    requires Owned(f, owner) && 0 <= i < |f.ino| && size == (f.ino[i].size / BSIZE + 1) * BSIZE <= MAXFILE * BSIZE
    ensures Owned(Sized(f, i, size), owner) && FixedSize(f, Sized(f, i, size), i)
  {
    WfSize(f, i);
    SizedOwned(f, owner, i, size);
  }

  /** One block is lacking if this slot is empty. */
  ghost function Lack(f: Fs, i: int, k: int): int
    requires Wf(f) && IsSlot(f, i, k)
  {
    if Addr(f, i, k) == 0 then 1 else 0
  }

  /** What it takes to put the fbn-th block of the file in place. */
  ghost function Cost(f: Fs, i: int, fbn: int): int
    requires Wf(f) && 0 <= i < |f.ino| && 0 <= fbn < MAXFILE
  {
    Lack(f, i, SlotOf(fbn)) + if fbn < NDIRECT then 0 else Lack(f, i, INDIRECT)
  }

  /** How many of the blocks lo .. hi - 1 of the file are missing. */
  ghost function Missing(f: Fs, i: int, lo: int, hi: int): (m: int)
    requires Wf(f) && 0 <= i < |f.ino| && 0 <= lo <= hi <= MAXFILE
    ensures 0 <= m
    decreases hi - lo
  {
    if lo == hi then 0 else Lack(f, i, SlotOf(lo)) + Missing(f, i, lo + 1, hi)
  }

  /** How many blocks n bytes at off need beyond those that are there. */
  ghost function Needed(f: Fs, i: int, off: int, n: int): (m: int)
    requires Wf(f) && 0 <= i < |f.ino| && 0 <= off && 0 <= n && off + n <= MAXFILE * BSIZE
    ensures 0 <= m
  {
    if n == 0 then 0
    else
      var hi := (off + n - 1) / BSIZE + 1;
      Missing(f, i, off / BSIZE, hi) + if hi <= NDIRECT then 0 else Lack(f, i, INDIRECT)
  }

  /** Of n bytes at off0 those from tot on are still to come, and leave `total` as the first free
      block, unless they are too many for a file. */
  ghost predicate Left(f: Fs, freeblock: int, i: int, off0: int, n: int, tot: int, total: int)
    requires Wf(f) && 0 <= i < |f.ino| && 0 <= off0 && 0 <= tot <= n
  {
    off0 + n <= MAXFILE * BSIZE ==> freeblock + Needed(f, i, off0 + tot, n - tot) == total
  }

  /** The blocks of the file other than the fbn-th are as they were. */
  ghost predicate KeptBut(f: Fs, g: Fs, i: int, fbn: int)
    requires Wf(f) && Wf(g) && 0 <= i < |f.ino| && |g.ino| == |f.ino|
  {
    forall bn | 0 <= bn < MAXFILE && bn != fbn :: Addr(g, i, SlotOf(bn)) == Addr(f, i, SlotOf(bn))
  }

  lemma BothPlaced(f: Fs, g: Fs, h: Fs, i: int, fbn: int)
    requires GrownFor(f, g, i) && GrownFor(g, h, i) && 0 <= i < |f.ino| && NDIRECT <= fbn < MAXFILE
    requires forall y | 0 <= y < NSLOT && y != INDIRECT :: Addr(g, i, y) == Addr(f, i, y)
    requires forall y | 0 <= y < NSLOT && y != SlotOf(fbn) :: Addr(h, i, y) == Addr(g, i, y)
    ensures GrownFor(f, h, i) && KeptBut(f, h, i, fbn)
  {
    GrownForTransitive(f, g, h, i);
  }

  /** x is the fbn-th block of the file in g, and what it took has come out of nowhere else. */
  ghost predicate InPlace(f: Fs, g: Fs, i: int, fbn: int, x: int) {
    && GrownFor(f, g, i) && 0 <= i < |f.ino| && 0 <= fbn < MAXFILE && x == Addr(g, i, SlotOf(fbn)) != 0
    && KeptBut(f, g, i, fbn)
    && if fbn < NDIRECT then Addr(g, i, INDIRECT) == Addr(f, i, INDIRECT) else Addr(g, i, INDIRECT) != 0
  }

  lemma {:induction false} MissingSame(f: Fs, g: Fs, i: int, lo: int, hi: int)
    requires Wf(f) && Wf(g) && |f.ino| == |g.ino| && 0 <= i < |f.ino| && 0 <= lo <= hi <= MAXFILE
    requires forall bn | lo <= bn < hi :: Addr(g, i, SlotOf(bn)) == Addr(f, i, SlotOf(bn))
    ensures Missing(g, i, lo, hi) == Missing(f, i, lo, hi)
    decreases hi - lo
  {
    if lo < hi {
      MissingSame(f, g, i, lo + 1, hi);
    }
  }

  lemma NextBlock(off: int, n: int, m: int)
    requires 0 <= off && 0 < n && m == Min(n, BSIZE - off % BSIZE)
    ensures 0 < m <= n && off / BSIZE <= (off + n - 1) / BSIZE
    ensures if m < n then (off + m) / BSIZE == off / BSIZE + 1 else (off + n - 1) / BSIZE == off / BSIZE
  {}

  /** A round of m bytes, in a block that has been put in place, leaves the rest of the n bytes
      needing what is left. */
  lemma NeededNext(f: Fs, g: Fs, h: Fs, i: int, off: int, n: int, m: int, x: int)
    requires Wf(f) && 0 <= i < |f.ino| && 0 <= off && off + n <= MAXFILE * BSIZE
    requires 0 < n && m == Min(n, BSIZE - off % BSIZE) && InPlace(f, g, i, off / BSIZE, x)
    requires Wf(h) && |h.ino| == |g.ino| && forall k | 0 <= k < NSLOT :: Addr(h, i, k) == Addr(g, i, k)
    ensures 0 < m <= n && Needed(f, i, off, n) == Cost(f, i, off / BSIZE) + Needed(h, i, off + m, n - m)
  {
    var lo, hi := off / BSIZE, (off + n - 1) / BSIZE + 1;
    NextBlock(off, n, m);
    MissingSame(f, h, i, lo + 1, hi);
  }

  lemma CostFirst(f: Fs, i: int, off: int, n: int)
    requires Wf(f) && 0 <= i < |f.ino| && 0 <= off && 0 < n && off + n <= MAXFILE * BSIZE
    ensures Cost(f, i, off / BSIZE) <= Needed(f, i, off, n)
  {
    assert off / BSIZE <= (off + n - 1) / BSIZE;
  }

  lemma StillBare(f: Fs, e: Fs, g: Fs, h: Fs, i: int, off0: int, off: int, n1: int)
    requires Wf(f) && Wf(e) && Wf(g) && Wf(h) && 0 <= i < |f.ino| && |f.ino| == |e.ino| == |g.ino| == |h.ino|
    requires KeptBut(e, g, i, off / BSIZE) && 0 < n1 && 0 <= off
    requires forall k | 0 <= k < NSLOT :: Addr(h, i, k) == Addr(g, i, k)
    requires Bare(f, i, off0) ==> Bare(e, i, off)
    ensures Bare(f, i, off0) ==> Bare(h, i, off + n1)
  {
    forall bn | 0 <= bn < MAXFILE && bn * BSIZE >= off + n1
      ensures bn != off / BSIZE && Addr(h, i, SlotOf(bn)) == Addr(g, i, SlotOf(bn))
    {
    }
  }

  lemma SameInode(ino: seq<Inode>, i: int)
    requires 0 <= i < |ino|
    ensures ino[i := Inode(ino[i].size, ino[i].addrs)] == ino
  {}

  /** The end of iappend: the inode is written back with the new size. */
  lemma WholeAppended(f: Fs, g: Fs, h: Fs, owner: map<int, Slot>, i: int, off: int, p: seq<Byte>)
    requires Wf(f) && Owned(g, owner) && Writing(f, g, i, off, p) && off == f.ino[i].size
    requires 0 <= off && off + |p| <= MAXFILE * BSIZE && (Bare(f, i, off) ==> Bare(g, i, off + |p|))
    requires h == Sized(g, i, off + |p|)
    ensures Owned(h, owner) && WroteFile(f, h, i, off, p) && (Tight(f, i, off) ==> Tight(h, i, off + |p|))
  {
    if p == [] {
      SameInode(g.ino, i);
    }
    Resized(f, g, h, owner, i, off, p, |p|);
    if Tight(f, i, off) {
      assert Covered(g, i, off + |p|);
    }
  }

  /** One round of iappend: Place has made g out of e, and the block x has been patched in h. */
  lemma AppendNext(f: Fs, e: Fs, g: Fs, h: Fs, i: int, off0: int, p: seq<Byte>, tot: int, off: int, tot': int, x: int)
    requires 0 <= tot < tot' <= |p| && Wf(f) && Wf(e) && Writing(f, e, i, off0, p[..tot])
    requires off == off0 + tot && 0 <= off && InPlace(e, g, i, off / BSIZE, x) && InFile(g, i, off)
    requires off % BSIZE + tot' - tot <= BSIZE && Wrote(g, h, i, off, p[tot..tot'])
    requires (Bare(f, i, off0) ==> Bare(e, i, off))
    ensures Wf(h) && Writing(f, h, i, off0, p[..tot']) && (Bare(f, i, off0) ==> Bare(h, i, off0 + tot'))
  {
    assert p[..tot] + p[tot..tot'] == p[..tot'];
    WriteNext(f, e, g, h, i, off0, p[..tot], off, p[tot..tot'], x);
    StillBare(f, e, g, h, i, off0, off, tot' - tot);
  }

  /** What one round has made of e and `room`: its block x lies past the end, or x is in place in g,
      and h has the same block map. */
  ghost predicate Round(e: Fs, room: int, g: Fs, h: Fs, freeblock: int, i: int, off: int, x: int, died: bool) {
    && Wf(e) && 0 <= i < |e.ino| && 0 <= off && off / BSIZE < MAXFILE
    && (died <==> room + Cost(e, i, off / BSIZE) > |e.store|)
    && (!died ==>
      && InPlace(e, g, i, off / BSIZE, x) && freeblock == room + Cost(e, i, off / BSIZE)
      && Wf(h) && |h.ino| == |g.ino| && forall k | 0 <= k < NSLOT :: Addr(h, i, k) == Addr(g, i, k))
  }

  /** A round leaves the total as it is; if its block lies past the end, so does the total. */
  lemma RoundLeft(e: Fs, room: int, g: Fs, h: Fs, freeblock: int, i: int, off0: int, n: int, tot: int, off: int,
          tot': int, x: int, total: int, died: bool)
    requires Round(e, room, g, h, freeblock, i, off, x, died) && 0 <= off0 && 0 <= tot < n && off == off0 + tot
    requires tot' == tot + Min(n - tot, BSIZE - off % BSIZE) && Left(e, room, i, off0, n, tot, total)
    ensures died ==> off0 + n > MAXFILE * BSIZE || total > |e.store|
    ensures tot < tot' <= n && off0 + tot' <= MAXFILE * BSIZE
    ensures !died ==> Left(h, freeblock, i, off0, n, tot', total)
  {
    if off0 + n <= MAXFILE * BSIZE {
      CostFirst(e, i, off, n - tot);
      if !died {
        NeededNext(e, g, h, i, off, n - tot, tot' - tot, x);
      }
    }
  }

  /** Equal field by field. */
  lemma SameImage(f: Fs, g: Fs, h: Fs)
    requires g.store == h.store && g.bits == h.bits && g.ino == h.ino && g.nmeta == h.nmeta
    ensures g == h
  {}

  class Image {
    var store: seq<Block>
    var ino: seq<Inode>
    var freeblock: int
    const nmeta: int
    ghost var owner: map<int, Slot>

    /** The image as it would be if inode i were written back with these addresses. */
    ghost function With(i: int, addrs: seq<int>): Fs
      requires 0 <= i < |ino|
      reads this
    {
      Fs(store, UsedBelow(|store|, freeblock), ino[i := Inode(ino[i].size, addrs)], nmeta)
    }

    ghost function State(): Fs
      reads this
    {
      Fs(store, UsedBelow(|store|, freeblock), ino, nmeta)
    }

    ghost predicate Fresh()
      reads this
    {
      0 < freeblock <= |store| < UINT && forall b | freeblock <= b < |store| :: store[b] == Zeroes()
    }

    ghost predicate Valid()
      reads this
    {
      Fresh() && Owned(State(), owner)
    }

    /** An image with empty files: all blocks zeroed, and only the metadata in use. */
    constructor (size: int, nmeta: int, ninodes: int)
      requires 0 < nmeta <= size < UINT && 0 <= ninodes
      ensures Valid() && |store| == size && freeblock == this.nmeta == nmeta && |ino| == ninodes
      ensures forall i | 0 <= i < ninodes :: ino[i].size == 0 && Tight(State(), i, 0)
    {
      store := seq(size, _ => Zeroes());
      ino := seq(ninodes, _ => Inode(0, seq(NDIRECT + 1, _ => 0)));
      freeblock, this.nmeta, owner := nmeta, nmeta, map[];
    }

    // ----- the block map, as iappend has it ----------------------------------------------

    /** Slot k of inode i is not empty any more, and no other slot has changed. */
    ghost predicate Placed(f: Fs, g: Fs, i: int, k: int, room: int)
      reads this
    {
      && Fresh() && Owned(g, owner) && GrownFor(f, g, i) && IsSlot(f, i, k) && Addr(g, i, k) != 0
      && freeblock == room + Lack(f, i, k)
      && forall y | 0 <= y < NSLOT && y != k :: Addr(g, i, y) == Addr(f, i, y)
    }

    /** The block number in a direct slot, or of the indirect block: the next free number if there
        was none. That number may lie past the end of the image. */
    method PlaceSlot(i: int, addrs: seq<int>, k: int) returns (addrs': seq<int>)
      requires Fresh() && 0 <= i < |ino| && 0 <= k <= INDIRECT && Owned(With(i, addrs), owner)
      modifies this`freeblock, this`owner
      ensures k < |addrs'|
      ensures addrs'[k] < |store| <==> old(freeblock + Lack(With(i, addrs), i, k)) <= |store|
      ensures addrs'[k] < |store| ==> Placed(old(With(i, addrs)), With(i, addrs'), i, k, old(freeblock))
    {
      addrs' := addrs;
      WfSize(With(i, addrs), i);
      if addrs[k] == 0 {
        ghost var f, b := With(i, addrs), freeblock;
        addrs' := addrs[k := freeblock];
        freeblock := freeblock + 1;
        if b < |store| {
          PutDirectFilled(f, owner, i, k, b);
          PutDirectKept(f, owner, i, k, b);
          owner := owner[b := Slot(i, k)];
          SameImage(f, With(i, addrs'), PutDirect(f, i, k, b));
        }
      }
    }

    /** The block number in entry j of the indirect block, in the same way. */
    method PlaceEntry(i: int, addrs: seq<int>, j: int) returns (x: int)
      requires Fresh() && 0 <= i < |ino| && 0 <= j < NINDIRECT && Owned(With(i, addrs), owner)
      requires Addr(With(i, addrs), i, INDIRECT) != 0
      modifies this`freeblock, this`owner, this`store
      ensures |store| == |old(store)|
      ensures x < |store| <==> old(freeblock + Lack(With(i, addrs), i, INDIRECT + 1 + j)) <= |store|
      ensures x < |store| ==> Placed(old(With(i, addrs)), With(i, addrs), i, INDIRECT + 1 + j, old(freeblock))
      ensures x < |store| ==> x == Addr(With(i, addrs), i, INDIRECT + 1 + j)
    {
      WfSize(With(i, addrs), i);
      var ind := addrs[INDIRECT];
      x := GetWord(store[ind], j);
      if x == 0 {
        ghost var f, b := With(i, addrs), freeblock;
        x := freeblock;
        store := store[ind := SetWord(store[ind], j, freeblock)];
        freeblock := freeblock + 1;
        if b < |store| {
          FreeBlock(f, owner, 0, 0, b);
          PutEntryFilled(f, owner, i, j, b);
          PutEntryKept(f, owner, i, j, b);
          assert SlotOwned(f, owner, i, INDIRECT) && BlockOwned(f, owner, ind);
          owner := owner[b := Slot(i, INDIRECT + 1 + j)];
          SameImage(f, With(i, addrs), PutEntry(f, ind, j, b));
        }
      } else {
        assert SlotOwned(With(i, addrs), owner, i, INDIRECT + 1 + j) && BlockOwned(With(i, addrs), owner, x);
      }
    }

    /** The block of the fbn-th block of the file, by way of the indirect block. If it is the
        indirect block that lies past the end, then the program ends when it reads that. */
    method PlaceIndirect(i: int, addrs: seq<int>, fbn: int) returns (x: int, addrs': seq<int>)
      requires Fresh() && 0 <= i < |ino| && NDIRECT <= fbn < MAXFILE && Owned(With(i, addrs), owner)
      modifies this`freeblock, this`owner, this`store
      ensures |store| == |old(store)|
      ensures x < |store| <==> old(freeblock + Cost(With(i, addrs), i, fbn)) <= |store|
      ensures x < |store| ==>
                && Fresh() && Owned(With(i, addrs'), owner) && InPlace(old(With(i, addrs)), With(i, addrs'), i, fbn, x)
                && freeblock == old(freeblock + Cost(With(i, addrs), i, fbn))
    {
      ghost var f := With(i, addrs);
      addrs' := PlaceSlot(i, addrs, INDIRECT);
      if addrs'[INDIRECT] >= |store| {
        return addrs'[INDIRECT], addrs';
      }
      ghost var g := With(i, addrs');
      x := PlaceEntry(i, addrs', fbn - NDIRECT);
      if x < |store| {
        BothPlaced(f, g, With(i, addrs'), i, fbn);
      }
    }

    /** The block of the fbn-th block of the file, taken from freeblock on if it was not there. */
    method Place(i: int, addrs: seq<int>, fbn: int) returns (x: int, addrs': seq<int>)
      requires Fresh() && 0 <= i < |ino| && 0 <= fbn < MAXFILE && Owned(With(i, addrs), owner)
      modifies this`freeblock, this`owner, this`store
      ensures |store| == |old(store)|
      ensures x < |store| <==> old(freeblock + Cost(With(i, addrs), i, fbn)) <= |store|
      ensures x < |store| ==>
                && Fresh() && Owned(With(i, addrs'), owner) && InPlace(old(With(i, addrs)), With(i, addrs'), i, fbn, x)
                && freeblock == old(freeblock + Cost(With(i, addrs), i, fbn))
    {
      if fbn < NDIRECT {
        addrs' := PlaceSlot(i, addrs, fbn);
        x := addrs'[fbn];
      } else {
        x, addrs' := PlaceIndirect(i, addrs, fbn);
      }
    }

    // ----- iappend ----------------------------------------------------------------------

    /** iappend has stored the first tot bytes of p. */
    ghost predicate Appending(f: Fs, i: int, addrs: seq<int>, p: seq<Byte>, off0: int, tot: int)
      reads this
    {
      && Fresh() && 0 <= i < |ino| && |f.ino| == |ino| && Owned(With(i, addrs), owner) && 0 <= off0 && 0 <= tot <= |p|
      && Wf(f) && Writing(f, With(i, addrs), i, off0, p[..tot])
      && (Bare(f, i, off0) ==> Bare(With(i, addrs), i, off0 + tot))
    }

    /** rsect, bcopy and wsect: the bytes at offset off of the file, which begin at o in block x. */
    method StoreBytes(i: int, ghost addrs: seq<int>, x: int, ghost off: int, o: int, bytes: seq<Byte>)
      requires Fresh() && 0 <= i < |ino| && Owned(With(i, addrs), owner)
      requires InFile(With(i, addrs), i, off) && o == off % BSIZE && o + |bytes| <= BSIZE
      requires x == Addr(With(i, addrs), i, SlotOf(off / BSIZE)) != 0
      modifies this`store
      ensures |store| == |old(store)| && Fresh() && Owned(With(i, addrs), owner)
      ensures Wrote(old(With(i, addrs)), With(i, addrs), i, off, bytes)
    {
      ghost var g := With(i, addrs);
      PutWrote(g, owner, i, off, bytes);
      ghost var k := SlotOf(off / BSIZE);
      assert SlotOwned(g, owner, i, k) && BlockOwned(g, owner, x);
      store := store[x := Patch(store[x], o, bytes)];
      SameImage(g, With(i, addrs), Put(g, x, o, bytes));
    }

    /** The bytes of p from tot to tot' go to their block, if the image has it. */
    method PutBytes(i: int, addrs: seq<int>, p: seq<Byte>, ghost off0: int, tot: int, off: int, tot': int, ghost f: Fs)
      returns (died: bool, addrs': seq<int>, ghost g: Fs, ghost x: int)
      requires Appending(f, i, addrs, p, off0, tot) && tot < |p| && off == off0 + tot && off / BSIZE < MAXFILE
      requires tot' == tot + Min(|p| - tot, BSIZE - off % BSIZE)
      modifies this`freeblock, this`owner, this`store
      ensures |store| == |old(store)|
      ensures Round(old(With(i, addrs)), old(freeblock), g, With(i, addrs'), freeblock, i, off, x, died)
      ensures !died ==> Appending(f, i, addrs', p, off0, tot')
    {
      ghost var e := With(i, addrs);
      var fbn := off / BSIZE;
      var b;
      b, addrs' := Place(i, addrs, fbn);
      died, g, x := b >= |store|, With(i, addrs'), b;
      if !died {
        StoreBytes(i, addrs', b, off, off - fbn * BSIZE, p[tot..tot']);
        AppendNext(f, e, g, With(i, addrs'), i, off0, p, tot, off, tot', b);
        assert forall k | 0 <= k < NSLOT :: IsSlot(g, i, k);
      }
    }

    /** One round of iappend. The read of a block past the end fails, and so does the assert for
        a block past the longest file: both end the program. */
    method AppendRound(i: int, addrs: seq<int>, p: seq<Byte>, ghost off0: int, tot: int, off: int, ghost f: Fs,
            ghost total: int)
      returns (died: bool, addrs': seq<int>, tot': int)
      requires Appending(f, i, addrs, p, off0, tot) && tot < |p| && off == off0 + tot
      requires Left(With(i, addrs), freeblock, i, off0, |p|, tot, total)
      modifies this`freeblock, this`owner, this`store
      ensures |store| == |old(store)|
      ensures died ==> off0 + |p| > MAXFILE * BSIZE || total > |store|
      ensures !died ==>
                && tot' == tot + Min(|p| - tot, BSIZE - off % BSIZE) && Appending(f, i, addrs', p, off0, tot')
                && off0 + tot' <= MAXFILE * BSIZE && Left(With(i, addrs'), freeblock, i, off0, |p|, tot', total)
    {
      var fbn := off / BSIZE;
      if fbn >= MAXFILE {
        return true, addrs, tot;
      }
      tot' := tot + Min(|p| - tot, (fbn + 1) * BSIZE - off);
      ghost var e, room := With(i, addrs), freeblock;
      ghost var g, x;
      died, addrs', g, x := PutBytes(i, addrs, p, off0, tot, off, tot', f);
      RoundLeft(e, room, g, With(i, addrs'), freeblock, i, off0, |p|, tot, off, tot', x, total, died);
    }

    /** The loop is where it should be, and so is the total. */
    ghost predicate AppendLoop(f: Fs, i: int, addrs: seq<int>, p: seq<Byte>, off0: int, tot: int, total: int)
      reads this
    {
      && Appending(f, i, addrs, p, off0, tot) && AtBoundary(off0, |p|, tot) && off0 + tot <= MAXFILE * BSIZE
      && Left(With(i, addrs), freeblock, i, off0, |p|, tot, total)
    }

    method AppendStep(i: int, addrs: seq<int>, p: seq<Byte>, ghost off0: int, tot: int, off: int, ghost f: Fs,
            ghost total: int)
      returns (died: bool, addrs': seq<int>, tot': int)
      requires AppendLoop(f, i, addrs, p, off0, tot, total) && tot < |p| && off == off0 + tot
      modifies this`freeblock, this`owner, this`store
      ensures |store| == |old(store)|
      ensures died ==> off0 + |p| > MAXFILE * BSIZE || total > |store|
      ensures !died ==> tot < tot' <= |p| && AppendLoop(f, i, addrs', p, off0, tot', total)
    {
      OneRound(off0, |p|, tot, Min(|p| - tot, BSIZE - off % BSIZE));
      died, addrs', tot' := AppendRound(i, addrs, p, off0, tot, off, f, total);
    }

    /** Where freeblock will be after p, if p is not too long for the file. */
    ghost function Total(i: int, p: seq<Byte>): int
      requires Owned(State(), owner) && 0 <= i < |ino| && 0 <= ino[i].size
      reads this
    {
      if ino[i].size + |p| > MAXFILE * BSIZE then freeblock else freeblock + Needed(State(), i, ino[i].size, |p|)
    }

    lemma AppendStart(i: int, p: seq<Byte>)
      requires Valid() && 0 <= i < |ino|
      ensures 0 <= ino[i].size <= MAXFILE * BSIZE
      ensures AppendLoop(State(), i, ino[i].addrs, p, ino[i].size, 0, Total(i, p))
    {
      SameInode(ino, i);
      WfSize(State(), i);
      assert p[..0] == [];
    }

    /** The loop of iappend. */
    method AppendBlocks(i: int, addrs0: seq<int>, p: seq<Byte>, off0: int, ghost f: Fs, ghost total: int)
      returns (died: bool, addrs: seq<int>, off: int)
      requires AppendLoop(f, i, addrs0, p, off0, 0, total)
      modifies this`freeblock, this`owner, this`store
      ensures |store| == |old(store)|
      ensures died <==> off0 + |p| > MAXFILE * BSIZE || total > |store|
      ensures !died ==> off == off0 + |p| && Appending(f, i, addrs, p, off0, |p|) && freeblock == total
    {
      var tot := 0;
      died, addrs, off := false, addrs0, off0;
      while tot < |p|
        invariant off == off0 + tot && AppendLoop(f, i, addrs, p, off0, tot, total) && |store| == |old(store)|
      {
        died, addrs, tot := AppendStep(i, addrs, p, off0, tot, off, f, total);
        if died {
          return;
        }
        off := off0 + tot;
      }
    }

    method WriteInode(i: int, addrs: seq<int>, off: int, ghost p: seq<Byte>, ghost off0: int, ghost f: Fs)
      requires Appending(f, i, addrs, p, off0, |p|) && off == off0 + |p| <= MAXFILE * BSIZE && off0 == f.ino[i].size
      modifies this`ino
      ensures Valid() && WroteFile(f, State(), i, off0, p)
      ensures ino[i].size == off && (Tight(f, i, off0) ==> Tight(State(), i, off))
    {
      assert p[..|p|] == p;
      ghost var g := With(i, addrs);
      ino := ino[i := Inode(off, addrs)];
      assert State().ino == g.ino[i := Inode(off, addrs)];
      WholeAppended(f, g, State(), owner, i, off0, p);
    }

    /** iappend: the file has p at its end, no other file has changed, and just the blocks that were
        missing have been taken; or the program ends, exactly if the file would get too long or the
        image too short for them. */
    method Iappend(i: int, p: seq<Byte>) returns (died: bool)
      requires Valid() && 0 <= i < |ino|
      modifies this
      ensures 0 <= old(ino[i].size)
      ensures died <==> old(ino[i].size) + |p| > MAXFILE * BSIZE || old(Total(i, p)) > |old(store)|
      ensures !died ==> Valid() && WroteFile(old(State()), State(), i, old(ino[i].size), p)
      ensures !died ==> freeblock == old(Total(i, p))
      ensures !died && old(Tight(State(), i, ino[i].size)) ==> Tight(State(), i, ino[i].size)
    {
      ghost var f, total := State(), Total(i, p);
      var off0 := ino[i].size;
      AppendStart(i, p);
      var addrs, off;
      died, addrs, off := AppendBlocks(i, ino[i].addrs, p, off0, f, total);
      if !died {
        WriteInode(i, addrs, off, p, off0, f);
      }
    }

    /** The end of main: the size of the root directory goes up to a multiple of the block size. */
    method FixRootSize(root: int)
      requires Valid() && 0 <= root < |ino| && ino[root].size < MAXFILE * BSIZE
      modifies this`ino
      ensures Valid() && FixedSize(old(State()), State(), root)
    {
      ghost var f := State();
      var off := ino[root].size;
      off := (off / BSIZE + 1) * BSIZE;
      FixedSizeOwned(f, owner, root, off);
      ino := ino[root := Inode(off, ino[root].addrs)];
      SameImage(State(), Fs(f.store, f.bits, f.ino[root := Inode(off, f.ino[root].addrs)], f.nmeta), State());
    }
  }

  /** Rounding the size up leaves a block missing exactly if the directory filled its last block. */
  lemma {:induction false} RoundedSizeHole(f: Fs, g: Fs, i: int)
    requires FixedSize(f, g, i) && Tight(f, i, f.ino[i].size)
    ensures NoHoles(g, i) <==> f.ino[i].size % BSIZE != 0
  {
    WfSize(g, i);
    var bn := f.ino[i].size / BSIZE;
    assert Addr(g, i, SlotOf(bn)) == Addr(f, i, SlotOf(bn));
    if f.ino[i].size % BSIZE == 0 {
      assert bn * BSIZE == f.ino[i].size;
    } else {
      forall n | 0 <= n < MAXFILE && n * BSIZE < g.ino[i].size ensures Addr(g, i, SlotOf(n)) != 0 {
        assert n * BSIZE < f.ino[i].size;
      }
    }
  }

  /** An image whose root directory fills one block exactly: mkfs leaves it with a size of two. */
  method FullRoot() returns (m: Image)
    ensures fresh(m) && m.Valid() && |m.store| == 2000 && |m.ino| == 2 && m.nmeta == 46 && m.freeblock == 47
    ensures m.ino[0].size == 0
    ensures m.ino[1].size == 2 * BSIZE && Addr(m.State(), 1, 0) != 0 && Addr(m.State(), 1, 1) == 0
      && !NoHoles(m.State(), 1)
  {
    m := new Image(2000, 46, 2);
    assert Needed(m.State(), 1, 0, BSIZE) == 1;
    var died := m.Iappend(1, seq(BSIZE, _ => 0));
    ghost var f := m.State();
    assert Addr(f, 1, SlotOf(0)) != 0 && Addr(f, 1, SlotOf(1)) == 0;
    m.FixRootSize(1);
    RoundedSizeHole(f, m.State(), 1);
  }

  lemma ZeroBit(k: int)
    requires 0 <= k < 8
    ensures !Bit(0, k)
  {}

  lemma NoBits(bytes: seq<bv8>)
    requires |bytes| == BSIZE && forall k | 0 <= k < BSIZE :: bytes[k] == 0
    ensures IsBitmap(bytes, UsedBelow(BPB, 0))
  {
    forall b | 0 <= b < BPB ensures !Bit(bytes[b / 8], b % 8) {
      assert bytes[b / 8] == 0;
      ZeroBit(b % 8);
    }
  }

  // ----- the image as the kernel finds it ----------------------------------------------

  /** balloc of mkfs.c: the first `used` bits of the one bitmap block are set. */
  method WriteBitmap(used: int) returns (buf: array<bv8>)
    requires 0 <= used < BSIZE * 8
    ensures fresh(buf) && buf.Length == BSIZE
    ensures forall n | 0 <= n <= BPB :: IsBitmap(buf[..], UsedBelow(n, used))
  {
    buf := new bv8[BSIZE](_ => 0);
    NoBits(buf[..]);
    for i := 0 to used
      invariant IsBitmap(buf[..], UsedBelow(BPB, i))
    {
      ghost var bytes := buf[..];
      var y := SetBit(buf[i / 8], i % 8);
      buf[i / 8] := y;
      assert buf[..] == bytes[i / 8 := WithBit(bytes[i / 8], i % 8)];
      MarkByte(bytes, UsedBelow(BPB, i), i, WithBit(bytes[i / 8], i % 8), true);
      assert UsedBelow(BPB, i)[i := true] == UsedBelow(BPB, i + 1);
    }
    forall n | 0 <= n <= BPB ensures IsBitmap(buf[..], UsedBelow(n, used)) {
      assert forall b | 0 <= b < n :: UsedBelow(n, used)[b] == UsedBelow(BPB, used)[b];
    }
  }

  /** A kernel that starts on the image finds every invariant it needs, and reads back
      from a file without missing blocks exactly the bytes that were put in it. Without an open
      operation it panics exactly if a block is missing and the disk is not full. */
  method Mount(m: Image, bmapstart: int, inodestart: int, i: int, inOp: bool)
    returns (d: Disk, data: seq<Byte>, panicked: bool)
    requires m.Valid() && m.freeblock < BSIZE * 8 && |m.store| <= BPB
    requires 0 <= i < |m.ino|
    ensures d.Valid() && fresh(d) && fresh(d.free)
    ensures panicked <==> !inOp && !NoHoles(m.State(), i) && m.freeblock < |m.store|
    ensures !inOp || NoHoles(m.State(), i) ==> d.State() == m.State() && d.logged == {}
    ensures NoHoles(m.State(), i) ==> data == Contents(m.State(), i)
    ensures GrownFor(m.State(), d.State(), i) && data <= Contents(m.State(), i)
    ensures Present(d.State(), i, 0, |data|) && (|data| < |Contents(m.State(), i)| ==> panicked || Full(d.bits))
    ensures d.NoInodeLogged({}) && |d.store| == |m.store| && d.nmeta == m.nmeta
    ensures d.bmapstart == bmapstart && d.inodestart == inodestart
  {
    var buf := WriteBitmap(m.freeblock);
    d := new Disk(m.store, buf[..], m.ino, m.nmeta, bmapstart, inodestart, m.State().bits, m.owner);
    WfSize(m.State(), i);
    assert d.State() == m.State();
    ghost var s := Contents(m.State(), i);
    assert Full(d.bits) <==> m.freeblock == |m.store| by {
      assert m.freeblock < |m.store| ==> !d.bits[m.freeblock];
    }
    var ret;
    ret, data, panicked := d.Readi(i, 0, m.ino[i].size, m.ino[i].size, inOp);
    assert Wanted(s, 0, |s|) == s;
  }

  /** The kernel that reads such a root directory to its end allocates the missing block if it is
      in an operation, and panics if it is not. The inode's new address is in memory only: the
      block with the inode is not passed to log_write, though the bitmap block with the new bit is. */
  method ReadFullRoot(inOp: bool) returns (d: Disk, data: seq<Byte>, panicked: bool)
    ensures fresh(d) && d.Valid() && |d.ino| == 2 && (panicked <==> !inOp)
    ensures inOp ==> |data| == 2 * BSIZE && Addr(d.State(), 1, 1) != 0 && d.IBlock(1) !in d.logged
    ensures !inOp ==> Addr(d.State(), 1, 1) == 0
  {
    var m := FullRoot();
    d, data, panicked := Mount(m, 45, 32, 1, inOp);
    NeverFull(d.State(), d.owner);
    assert inOp ==> Addr(d.State(), 1, SlotOf(1)) != 0;
  }

  /** A write of two bytes of which the second cannot be copied: none is counted, the first is in the
      file, and the block that it is in has not been passed to log_write. */
  method UnloggedChange() returns (d: Disk, r: int)
    ensures fresh(d) && d.Valid() && |d.ino| == 2 && r == 0
    ensures DataAt(d.State(), 1, 0) == 7 && Addr(d.State(), 1, 0) !in d.logged
  {
    var m := FullRoot();
    var data, panicked;
    d, data, panicked := Mount(m, 45, 32, 0, true);
    ghost var f := d.State();
    ghost var put, blocks, stray;
    r, put, blocks, stray := d.Writei(1, [7, 7], 0, 1);
    NeverFull(d.State(), d.owner);
    assert InFile(f, 1, 0) && SlotOwned(d.State(), d.owner, 1, 0);
  }
}
