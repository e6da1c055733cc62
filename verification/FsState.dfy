/** Which block belongs to which inode (fs.c): the block maps, their owners, and
    the flat array of bytes each inode stands for. */
module FsState {
  import opened FsBlocks
  const INDIRECT := NDIRECT            // the slot of the indirect block
  const NSLOT := NDIRECT + 1 + NINDIRECT

  datatype Inode = Inode(size: int, addrs: seq<int>)

  /** The disk's blocks, the free map, the inodes, and the number of metadata blocks. */
  datatype Fs = Fs(store: seq<Block>, bits: seq<bool>, ino: seq<Inode>, nmeta: int)

  /** Slots 0 .. 11 are the direct blocks, 12 the indirect block, 13 .. its entries. */
  datatype Slot = Slot(inum: int, k: int)

  ghost predicate WfInode(f: Fs, d: Inode) {
    && |d.addrs| == NDIRECT + 1 && 0 <= d.size <= MAXFILE * BSIZE
    && forall k | 0 <= k <= NDIRECT :: 0 <= d.addrs[k] < |f.store|
  }

  ghost predicate Wf(f: Fs) {
    && |f.bits| == |f.store| < UINT && 0 < f.nmeta <= |f.store|
    && forall i | 0 <= i < |f.ino| :: WfInode(f, f.ino[i])
  }

  ghost predicate IsSlot(f: Fs, i: int, k: int) {
    0 <= i < |f.ino| && 0 <= k < NSLOT
  }

  /** The block number in a slot, 0 if there is none. */
  ghost function Addr(f: Fs, i: int, k: int): int
    requires Wf(f) && IsSlot(f, i, k)
  {
    if k <= INDIRECT then f.ino[i].addrs[k]
    else if f.ino[i].addrs[INDIRECT] == 0 then 0
    else GetWord(f.store[f.ino[i].addrs[INDIRECT]], k - INDIRECT - 1)
  }

  // ----- ownership ------------------------------------------------------------------

  /** The block in slot (i, k) belongs to that slot alone. */
  ghost predicate SlotOwned(f: Fs, owner: map<int, Slot>, i: int, k: int)
    requires Wf(f) && IsSlot(f, i, k)
  {
    Addr(f, i, k) != 0 ==> Addr(f, i, k) in owner && owner[Addr(f, i, k)] == Slot(i, k)
  }

  /** An owned block is an allocated data block and is where its owner says. */
  ghost predicate BlockOwned(f: Fs, owner: map<int, Slot>, b: int)
    requires Wf(f) && b in owner
  {
    && f.nmeta <= b < |f.store| && f.bits[b]
    && IsSlot(f, owner[b].inum, owner[b].k) && Addr(f, owner[b].inum, owner[b].k) == b
  }

  /** Slots of `dead` entries of inode i that itrunc has already freed but not forgotten. */
  predicate Exempt(i: int, k: int, inum: int, dead: int) {
    i == inum && INDIRECT < k <= INDIRECT + dead
  }

  /** The free map marks exactly the metadata blocks and the owned blocks, and no
      block has two owners; the first `dead` indirect entries of inode inum do not count. */
  ghost predicate OwnedBut(f: Fs, owner: map<int, Slot>, inum: int, dead: int) {
    && Wf(f)
    && (forall i, k | IsSlot(f, i, k) && !Exempt(i, k, inum, dead) :: SlotOwned(f, owner, i, k))
    && (forall b | b in owner :: BlockOwned(f, owner, b) && !Exempt(owner[b].inum, owner[b].k, inum, dead))
    && (forall b | 0 <= b < |f.bits| && f.bits[b] :: b < f.nmeta || b in owner)
    && (forall b | 0 <= b < f.nmeta :: f.bits[b])
  }

  ghost predicate Owned(f: Fs, owner: map<int, Slot>) {
    OwnedBut(f, owner, 0, 0)
  }

  /** Two inodes, or two slots of one, never share a block. */
  lemma NoSharing(f: Fs, owner: map<int, Slot>, i: int, k: int, i': int, k': int)
    requires Owned(f, owner) && IsSlot(f, i, k) && IsSlot(f, i', k')
    requires Addr(f, i, k) == Addr(f, i', k') != 0
    ensures i == i' && k == k'
  {
    assert SlotOwned(f, owner, i, k) && SlotOwned(f, owner, i', k');
  }

  /** A block the free map calls free is in no slot, and is not metadata. */
  lemma FreeBlock(f: Fs, owner: map<int, Slot>, inum: int, dead: int, b: int)
    requires OwnedBut(f, owner, inum, dead) && 0 <= b < |f.bits| && !f.bits[b]
    ensures b !in owner && f.nmeta <= b
    ensures forall i, k | IsSlot(f, i, k) && !Exempt(i, k, inum, dead) :: Addr(f, i, k) != b
  {
    forall i, k | IsSlot(f, i, k) && !Exempt(i, k, inum, dead) ensures Addr(f, i, k) != b {
      assert SlotOwned(f, owner, i, k);
    }
  }

  // ----- allocating and freeing, slot by slot -----------------------------------------

  /** f' is f with the free block b put into the empty slot (i, k). */
  ghost predicate Filled(f: Fs, f': Fs, i: int, k: int, b: int) {
    && Wf(f) && Wf(f') && IsSlot(f, i, k) && |f'.store| == |f.store| && |f'.ino| == |f.ino| && f'.nmeta == f.nmeta
    && 0 < b < |f.bits| && !f.bits[b] && f'.bits == f.bits[b := true]
    && Addr(f, i, k) == 0
    && forall x, y | IsSlot(f, x, y) :: Addr(f', x, y) == if x == i && y == k then b else Addr(f, x, y)
  }

  lemma FilledOwned(f: Fs, f': Fs, owner: map<int, Slot>, i: int, k: int, b: int)
    requires Owned(f, owner) && Filled(f, f', i, k, b)
    ensures Owned(f', owner[b := Slot(i, k)])
  {
    var o := owner[b := Slot(i, k)];
    FreeBlock(f, owner, 0, 0, b);
    forall x, y | IsSlot(f', x, y) && !Exempt(x, y, 0, 0) ensures SlotOwned(f', o, x, y) {
      assert SlotOwned(f, owner, x, y);
    }
    forall c | c in o ensures BlockOwned(f', o, c) {
      assert c != b ==> BlockOwned(f, owner, c);
    }
  }

  /** f' is f with slot (i, k) emptied and its block returned to the free map. */
  ghost predicate Emptied(f: Fs, f': Fs, i: int, k: int, b: int) {
    && Wf(f) && Wf(f') && IsSlot(f, i, k) && |f'.store| == |f.store| && |f'.ino| == |f.ino| && f'.nmeta == f.nmeta
    && Addr(f, i, k) == b && 0 < b < |f.bits| && f'.bits == f.bits[b := false]
    && forall x, y | IsSlot(f, x, y) :: Addr(f', x, y) == if x == i && y == k then 0 else Addr(f, x, y)
  }

  lemma EmptiedOwned(f: Fs, f': Fs, owner: map<int, Slot>, i: int, k: int, b: int)
    requires Owned(f, owner) && Emptied(f, f', i, k, b)
    ensures f.bits[b] && Owned(f', owner - {b})
  {
    assert SlotOwned(f, owner, i, k) && BlockOwned(f, owner, b);
    var o := owner - {b};
    forall x, y | IsSlot(f', x, y) && !Exempt(x, y, 0, 0) ensures SlotOwned(f', o, x, y) {
      assert SlotOwned(f, owner, x, y);
    }
    forall c | c in o ensures BlockOwned(f', o, c) {
      assert BlockOwned(f, owner, c);
    }
  }

  function SetAddr(ino: seq<Inode>, i: int, k: int, b: int): seq<Inode>
    requires 0 <= i < |ino| && 0 <= k < |ino[i].addrs|
  {
    ino[i := Inode(ino[i].size, ino[i].addrs[k := b])]
  }

  /** The code's assignments when bmap puts block b in a direct slot or the indirect slot. */
  function PutDirect(f: Fs, i: int, k: int, b: int): Fs
    requires 0 <= i < |f.ino| && 0 <= k < |f.ino[i].addrs| && 0 <= b < |f.store| && b < |f.bits|
  {
    Fs(f.store[b := Zeroes()], f.bits[b := true], SetAddr(f.ino, i, k, b), f.nmeta)
  }

  lemma GetZero(j: int)
    requires 0 <= j < NINDIRECT
    ensures GetWord(Zeroes(), j) == 0
  {}

  lemma PutDirectFilled(f: Fs, owner: map<int, Slot>, i: int, k: int, b: int)
    requires Owned(f, owner) && IsSlot(f, i, k) && k <= INDIRECT && Addr(f, i, k) == 0
    requires 0 <= b < |f.bits| && !f.bits[b]
    ensures Filled(f, PutDirect(f, i, k, b), i, k, b)
  {
    var f' := PutDirect(f, i, k, b);
    FreeBlock(f, owner, 0, 0, b);
    forall x | 0 <= x < |f'.ino| ensures WfInode(f', f'.ino[x]) {
      assert WfInode(f, f.ino[x]);
    }
    forall x, y | IsSlot(f, x, y) ensures Addr(f', x, y) == if x == i && y == k then b else Addr(f, x, y) {
      assert WfInode(f, f.ino[x]);
      assert Addr(f, x, INDIRECT) != b;
      if y > INDIRECT && x == i && k == INDIRECT { GetZero(y - INDIRECT - 1); }
    }
  }

  /** The indirect block `ind` with entry j set to b, once b has been zeroed. */
  function SetEntry(store: seq<Block>, ind: int, j: int, b: int): seq<Block>
    requires 0 <= ind < |store| && 0 <= j < NINDIRECT && 0 <= b < |store| < UINT
  {
    store[b := Zeroes()][ind := SetWord(store[b := Zeroes()][ind], j, b)]
  }

  /** ... and when it puts block b in entry j of the indirect block. */
  function PutEntry(f: Fs, ind: int, j: int, b: int): Fs
    requires 0 <= ind < |f.store| && 0 <= j < NINDIRECT && 0 <= b < |f.store| < UINT && b < |f.bits|
  {
    Fs(SetEntry(f.store, ind, j, b), f.bits[b := true], f.ino, f.nmeta)
  }

  lemma PutEntryFilled(f: Fs, owner: map<int, Slot>, i: int, j: int, b: int)
    requires Owned(f, owner) && 0 <= i < |f.ino| && 0 <= j < NINDIRECT
    requires Addr(f, i, INDIRECT) != 0 && Addr(f, i, INDIRECT + 1 + j) == 0
    requires 0 <= b < |f.bits| && !f.bits[b]
    ensures Filled(f, PutEntry(f, Addr(f, i, INDIRECT), j, b), i, INDIRECT + 1 + j, b)
  {
    var ind := Addr(f, i, INDIRECT);
    var f' := PutEntry(f, ind, j, b);
    FreeBlock(f, owner, 0, 0, b);
    forall x | 0 <= x < |f'.ino| ensures WfInode(f', f'.ino[x]) {
      assert WfInode(f, f.ino[x]);
    }
    forall x, y | IsSlot(f, x, y)
      ensures Addr(f', x, y) == if x == i && y == INDIRECT + 1 + j then b else Addr(f, x, y)
    {
      assert WfInode(f, f.ino[x]);
      assert Addr(f, x, INDIRECT) != b;
      if y > INDIRECT && Addr(f, x, INDIRECT) != 0 {
        if x == i {
          WordRoundTrip(f.store[ind], j, b);
          if y != INDIRECT + 1 + j { WordFrame(f.store[ind], j, b, y - INDIRECT - 1); }
        } else if Addr(f, x, INDIRECT) == ind {
          NoSharing(f, owner, x, INDIRECT, i, INDIRECT);
        }
      }
    }
  }

  // ----- itrunc ---------------------------------------------------------------------

  /** itrunc returns direct block k. */
  function DropDirect(f: Fs, i: int, k: int): Fs
    requires 0 <= i < |f.ino| && 0 <= k < |f.ino[i].addrs| && 0 <= f.ino[i].addrs[k] < |f.bits|
  {
    Fs(f.store, f.bits[f.ino[i].addrs[k] := false], SetAddr(f.ino, i, k, 0), f.nmeta)
  }

  lemma DropDirectOwned(f: Fs, owner: map<int, Slot>, i: int, k: int)
    requires Owned(f, owner) && 0 <= i < |f.ino| && 0 <= k < NDIRECT && Addr(f, i, k) != 0
    ensures f.bits[Addr(f, i, k)] && Owned(DropDirect(f, i, k), owner - {Addr(f, i, k)})
  {
    var f' := DropDirect(f, i, k);
    forall x | 0 <= x < |f'.ino| ensures WfInode(f', f'.ino[x]) {
      assert WfInode(f, f.ino[x]);
    }
    assert Emptied(f, f', i, k, Addr(f, i, k));
    EmptiedOwned(f, f', owner, i, k, Addr(f, i, k));
  }

  /** itrunc returns the block of indirect entry j, leaving the entry in place. */
  lemma DropEntryOwned(f: Fs, owner: map<int, Slot>, i: int, j: int)
    requires OwnedBut(f, owner, i, j) && 0 <= i < |f.ino| && 0 <= j < NINDIRECT
    ensures var b := Addr(f, i, INDIRECT + 1 + j);
            if b == 0 then OwnedBut(f, owner, i, j + 1)
            else
              b < |f.bits| && f.bits[b]
              && OwnedBut(Fs(f.store, f.bits[b := false], f.ino, f.nmeta), owner - {b}, i, j + 1)
  {
    var b := Addr(f, i, INDIRECT + 1 + j);
    assert SlotOwned(f, owner, i, INDIRECT + 1 + j);
    if b == 0 {
      forall c | c in owner ensures !Exempt(owner[c].inum, owner[c].k, i, j + 1) {
        assert BlockOwned(f, owner, c);
      }
    } else {
      assert BlockOwned(f, owner, b);
      var f' := Fs(f.store, f.bits[b := false], f.ino, f.nmeta);
      var o := owner - {b};
      forall x | 0 <= x < |f'.ino| ensures WfInode(f', f'.ino[x]) {
        assert WfInode(f, f.ino[x]);
      }
      assert forall x, y | IsSlot(f, x, y) :: Addr(f', x, y) == Addr(f, x, y);
      forall x, y | IsSlot(f', x, y) && !Exempt(x, y, i, j + 1) ensures SlotOwned(f', o, x, y) {
        assert SlotOwned(f, owner, x, y);
      }
      forall c | c in o ensures BlockOwned(f', o, c) && !Exempt(o[c].inum, o[c].k, i, j + 1) {
        assert BlockOwned(f, owner, c);
      }
    }
  }

  /** ... and finally the indirect block itself. */
  lemma DropIndirectOwned(f: Fs, owner: map<int, Slot>, i: int)
    requires OwnedBut(f, owner, i, NINDIRECT) && 0 <= i < |f.ino| && Addr(f, i, INDIRECT) != 0
    ensures f.bits[Addr(f, i, INDIRECT)] && Owned(DropDirect(f, i, INDIRECT), owner - {Addr(f, i, INDIRECT)})
  {
    var f', b := DropDirect(f, i, INDIRECT), Addr(f, i, INDIRECT);
    var o := owner - {b};
    assert SlotOwned(f, owner, i, INDIRECT) && BlockOwned(f, owner, b);
    forall x | 0 <= x < |f'.ino| ensures WfInode(f', f'.ino[x]) {
      assert WfInode(f, f.ino[x]);
    }
    forall x, y | IsSlot(f', x, y) ensures SlotOwned(f', o, x, y) {
      if !Exempt(x, y, i, NINDIRECT) {
        assert SlotOwned(f, owner, x, y);
      }
    }
    forall c | c in o ensures BlockOwned(f', o, c) {
      assert BlockOwned(f, owner, c);
    }
  }

  // ----- the bytes of a file ----------------------------------------------------------

  /** The slot of the bn-th block of a file. */
  function SlotOf(bn: int): int {
    if bn < NDIRECT then bn else bn + 1
  }

  ghost predicate InFile(f: Fs, i: int, o: int) {
    0 <= i < |f.ino| && 0 <= o < MAXFILE * BSIZE
  }

  lemma AddrInRange(f: Fs, i: int, k: int)
    requires Wf(f) && IsSlot(f, i, k)
    ensures 0 <= Addr(f, i, k)
  {
    assert WfInode(f, f.ino[i]);
  }

  ghost function SlotByte(f: Fs, i: int, k: int, o: int): Byte
    requires Wf(f) && IsSlot(f, i, k) && 0 <= o < BSIZE
  {
    AddrInRange(f, i, k);
    if Addr(f, i, k) == 0 || |f.store| <= Addr(f, i, k) then 0 else f.store[Addr(f, i, k)][o]
  }

  /** The byte at offset o of inode i; a block that is not there reads as zeroes. */
  ghost function DataAt(f: Fs, i: int, o: int): Byte
    requires Wf(f) && InFile(f, i, o)
  {
    SlotByte(f, i, SlotOf(o / BSIZE), o % BSIZE)
  }

  /** The bytes of inode i. */
  ghost function Contents(f: Fs, i: int): (s: seq<Byte>)
    requires Wf(f) && 0 <= i < |f.ino|
    ensures |s| == f.ino[i].size && forall o | 0 <= o < |s| :: s[o] == DataAt(f, i, o)
  {
    assert WfInode(f, f.ino[i]);
    seq(f.ino[i].size, o requires 0 <= o < f.ino[i].size => DataAt(f, i, o))
  }

  /** f' has the same files as f, and at least the blocks. */
  ghost predicate Grown(f: Fs, f': Fs) {
    && Wf(f) && Wf(f') && |f'.store| == |f.store| && |f'.ino| == |f.ino| && f'.nmeta == f.nmeta
    && (forall i | 0 <= i < |f.ino| :: f'.ino[i].size == f.ino[i].size)
    && (forall i, k | IsSlot(f, i, k) && Addr(f, i, k) != 0 :: Addr(f', i, k) == Addr(f, i, k))
    && (forall b | 0 <= b < |f.bits| && f.bits[b] :: f'.bits[b])
    && (forall i, o | InFile(f, i, o) :: DataAt(f', i, o) == DataAt(f, i, o))
  }

  lemma GrownTransitive(f: Fs, g: Fs, h: Fs)
    requires Grown(f, g) && Grown(g, h)
    ensures Grown(f, h)
  {
    forall i | 0 <= i < |f.ino| ensures h.ino[i].size == f.ino[i].size {
      assert g.ino[i].size == f.ino[i].size;
    }
    forall i, k | IsSlot(f, i, k) && Addr(f, i, k) != 0 ensures Addr(h, i, k) == Addr(f, i, k) {
      assert Addr(g, i, k) == Addr(f, i, k);
    }
    forall i, o | InFile(f, i, o) ensures DataAt(h, i, o) == DataAt(f, i, o) {
      assert DataAt(g, i, o) == DataAt(f, i, o);
    }
  }

  lemma GrownContents(f: Fs, f': Fs, i: int)
    requires Grown(f, f') && 0 <= i < |f.ino|
    ensures Contents(f', i) == Contents(f, i)
  {
    forall o | 0 <= o < f.ino[i].size ensures Contents(f', i)[o] == Contents(f, i)[o] {
      assert WfInode(f, f.ino[i]);
      assert InFile(f, i, o);
      assert DataAt(f', i, o) == DataAt(f, i, o);
    }
  }

  ghost predicate IsIndirect(f: Fs, i: int, c: int)
    requires Wf(f) && 0 <= i < |f.ino|
  {
    c != 0 && Addr(f, i, INDIRECT) == c
  }

  /** A new block that was all zeroes when it was put in its slot leaves every file as it was. */
  lemma FilledGrown(f: Fs, f': Fs, owner: map<int, Slot>, i: int, k: int, b: int)
    requires Owned(f, owner) && Filled(f, f', i, k, b) && f'.store[b] == Zeroes()
    requires forall x | 0 <= x < |f.ino| :: f'.ino[x].size == f.ino[x].size
    requires forall c | 0 <= c < |f.store| && c != b && f'.store[c] != f.store[c] :: IsIndirect(f, i, c)
    ensures Grown(f, f')
  {
    FreeBlock(f, owner, 0, 0, b);
    forall x, o | InFile(f, x, o) ensures DataAt(f', x, o) == DataAt(f, x, o) {
      var y := SlotOf(o / BSIZE);
      assert IsSlot(f, x, y) && y != INDIRECT;
      AddrInRange(f, x, y);
      assert SlotOwned(f, owner, x, y);
      var a := Addr(f, x, y);
      if a != 0 {
        assert BlockOwned(f, owner, a);
        assert a != b;
        if f'.store[a] != f.store[a] {
          NoSharing(f, owner, x, y, i, INDIRECT);
        }
      }
    }
  }

  // ----- writing bytes into a block -----------------------------------------------------

  function Patch(b: Block, o: int, bytes: seq<Byte>): Block
    requires 0 <= o && o + |bytes| <= BSIZE
  {
    b[..o] + bytes + b[o + |bytes|..]
  }

  /** The bytes written at o, which lie in one block, go to the block in slot k. */
  function Put(f: Fs, b: int, o: int, bytes: seq<Byte>): Fs
    requires 0 <= b < |f.store| && 0 <= o && o + |bytes| <= BSIZE
  {
    Fs(f.store[b := Patch(f.store[b], o, bytes)], f.bits, f.ino, f.nmeta)
  }

  /** Only the bytes [off, off + m) of inode i changed, and the map of blocks did not. */
  ghost predicate Wrote(f: Fs, f': Fs, i: int, off: int, bytes: seq<Byte>) {
    && Wf(f) && Wf(f') && |f'.store| == |f.store| && f'.ino == f.ino && f'.nmeta == f.nmeta && f'.bits == f.bits
    && (forall x, k | IsSlot(f, x, k) :: Addr(f', x, k) == Addr(f, x, k))
    && (forall x, o | InFile(f, x, o) :: DataAt(f', x, o) ==
          if x == i && off <= o < off + |bytes| then bytes[o - off] else DataAt(f, x, o))
  }

  lemma SameMapOwned(f: Fs, f': Fs, owner: map<int, Slot>)
    requires Owned(f, owner) && Wf(f') && f'.ino == f.ino && f'.nmeta == f.nmeta && f'.bits == f.bits
    requires forall x, k | IsSlot(f, x, k) :: Addr(f', x, k) == Addr(f, x, k)
    ensures Owned(f', owner)
  {
    forall x, k | IsSlot(f', x, k) ensures SlotOwned(f', owner, x, k) {
      assert IsSlot(f, x, k) && !Exempt(x, k, 0, 0);
      assert SlotOwned(f, owner, x, k);
    }
    forall c | c in owner ensures BlockOwned(f', owner, c) {
      assert BlockOwned(f, owner, c);
    }
  }

  lemma PutByte(f: Fs, owner: map<int, Slot>, i: int, off: int, bytes: seq<Byte>, x: int, o: int)
    requires Owned(f, owner) && InFile(f, i, off) && off % BSIZE + |bytes| <= BSIZE
    requires 0 < Addr(f, i, SlotOf(off / BSIZE)) < |f.store|
    requires InFile(f, x, o)
    requires var f' := Put(f, Addr(f, i, SlotOf(off / BSIZE)), off % BSIZE, bytes);
             Wf(f') && forall x, k | IsSlot(f, x, k) :: Addr(f', x, k) == Addr(f, x, k)
    ensures DataAt(Put(f, Addr(f, i, SlotOf(off / BSIZE)), off % BSIZE, bytes), x, o) ==
            if x == i && off <= o < off + |bytes| then bytes[o - off] else DataAt(f, x, o)
  {
    var s, t := SlotOf(off / BSIZE), SlotOf(o / BSIZE);
    var b := Addr(f, i, s);
    assert IsSlot(f, i, s) && IsSlot(f, x, t);
    AddrInRange(f, x, t);
    assert off <= o < off + |bytes| ==> o / BSIZE == off / BSIZE;
    if Addr(f, x, t) == b {
      NoSharing(f, owner, x, t, i, s);
      assert o - off == o % BSIZE - off % BSIZE;
    }
  }

  lemma PutWrote(f: Fs, owner: map<int, Slot>, i: int, off: int, bytes: seq<Byte>)
    requires Owned(f, owner) && InFile(f, i, off) && off % BSIZE + |bytes| <= BSIZE
    requires Addr(f, i, SlotOf(off / BSIZE)) != 0
    ensures 0 <= Addr(f, i, SlotOf(off / BSIZE)) < |f.store|
    ensures var f' := Put(f, Addr(f, i, SlotOf(off / BSIZE)), off % BSIZE, bytes);
            Owned(f', owner) && Wrote(f, f', i, off, bytes)
  {
    var s := SlotOf(off / BSIZE);
    var b := Addr(f, i, s);
    assert IsSlot(f, i, s) && SlotOwned(f, owner, i, s) && BlockOwned(f, owner, b);
    var f' := Put(f, b, off % BSIZE, bytes);
    forall x | 0 <= x < |f'.ino| ensures WfInode(f', f'.ino[x]) {
      assert WfInode(f, f.ino[x]);
    }
    forall x, k | IsSlot(f, x, k) ensures Addr(f', x, k) == Addr(f, x, k) {
      assert WfInode(f, f.ino[x]);
      if Addr(f, x, INDIRECT) == b {
        NoSharing(f, owner, x, INDIRECT, i, s);
      }
    }
    SameMapOwned(f, f', owner);
    forall x, o | InFile(f, x, o) ensures DataAt(f', x, o) ==
          if x == i && off <= o < off + |bytes| then bytes[o - off] else DataAt(f, x, o)
    {
      PutByte(f, owner, i, off, bytes, x, o);
    }
  }
}
