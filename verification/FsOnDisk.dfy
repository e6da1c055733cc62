/** The inode layer's blocks, inodes and free map as they lie on the disk, and what a crash leaves
    of them. */
module FsOnDisk {
  import opened FsBlocks
  import opened FsState
  import RedoLog
  import LogProtocol
  import LogTheorems
  import FsCode

  type Disk = RedoLog.Disk
  type Words = RedoLog.Block

  const INODEWORDS := 16     // sizeof(struct dinode) / 4; the size is word 2, the addresses follow

  /** What the superblock says of the places of things. */
  datatype Layout = Layout(log: RedoLog.LogArea, inodestart: nat, bmapstart: nat, nmeta: nat, ninodes: nat)

  /** The k-th byte of a 32-bit word, lowest first. */
  function ByteOf(w: int, k: int): Byte
    requires 0 <= k < 4
  {
    if k == 0 then w % 0x100
    else if k == 1 then w / 0x100 % 0x100
    else if k == 2 then w / 0x1_0000 % 0x100
    else w / 0x100_0000 % 0x100
  }

  function ToBytes(b: Words): Block {
    seq(BSIZE, k requires 0 <= k < BSIZE => ByteOf(b[k / 4], k % 4))
  }

  lemma ByteAt(b: Words, j: int, k: int)
    requires 0 <= j < NINDIRECT && 0 <= k < 4
    ensures ToBytes(b)[4 * j + k] == ByteOf(b[j], k)
  {
    assert (4 * j + k) / 4 == j && (4 * j + k) % 4 == k;
  }

  lemma BytesAt(b: Words, j: int, t: Block, w: int)
    requires 0 <= j < NINDIRECT && w == b[j] && 0 <= w < UINT && t == ToBytes(b)
    ensures t[4 * j] == w % 0x100 && t[4 * j + 1] == w / 0x100 % 0x100
    ensures t[4 * j + 2] == w / 0x1_0000 % 0x100 && t[4 * j + 3] == w / 0x100_0000
  {
    ByteAt(b, j, 0);
    ByteAt(b, j, 1);
    ByteAt(b, j, 2);
    ByteAt(b, j, 3);
  }

  /** An address in an indirect block is the word that lies there. */
  lemma WordOf(b: Words, j: int)
    requires 0 <= j < NINDIRECT && 0 <= b[j] < UINT
    ensures GetWord(ToBytes(b), j) == b[j]
  {
    BytesAt(b, j, ToBytes(b), b[j]);
    FourBytes(b[j]);
  }

  /** The s-th inode of a block of inodes. */
  function InodeAt(b: Words, s: int): Inode
    requires 0 <= s < FsCode.IPB
  {
    Inode(b[INODEWORDS * s + 2] % UINT,
      seq(NDIRECT + 1, k requires 0 <= k <= NDIRECT => b[INODEWORDS * s + 3 + k] % UINT))
  }

  /** The block with inode s as iupdate leaves it. */
  function StoreInode(b: Words, s: int, n: Inode): Words
    requires 0 <= s < FsCode.IPB && |n.addrs| == NDIRECT + 1
  {
    var at := INODEWORDS * s;
    seq(RedoLog.WORDS, j requires 0 <= j < RedoLog.WORDS =>
      if j == at + 2 then n.size else if at + 3 <= j < at + INODEWORDS then n.addrs[j - at - 3] else b[j])
  }

  lemma InodeStored(b: Words, s: int, n: Inode, t: int)
    requires 0 <= s < FsCode.IPB && 0 <= t < FsCode.IPB && |n.addrs| == NDIRECT + 1
    requires 0 <= n.size < UINT && forall k | 0 <= k <= NDIRECT :: 0 <= n.addrs[k] < UINT
    ensures InodeAt(StoreInode(b, s, n), t) == if t == s then n else InodeAt(b, t)
  {
    var c := StoreInode(b, s, n);
    forall k | 0 <= k <= NDIRECT
      ensures c[INODEWORDS * t + 3 + k] == if t == s then n.addrs[k] else b[INODEWORDS * t + 3 + k]
    {}
    assert InodeAt(c, t).addrs == if t == s then n.addrs else InodeAt(b, t).addrs;
  }

  /** Home block x; what lies in the log is no part of the file system. */
  function Home(d: Disk, l: Layout, x: int): Words {
    if 0 <= x < |d| && !RedoLog.InLog(l.log, x) then d[x] else seq(RedoLog.WORDS, _ => 0)
  }

  function BitAt(b: Words, k: int): bool
    requires 0 <= k < BPB
  {
    Bit(ToBytes(b)[k / 8] as bv8, k % 8)
  }

  /** The file system that the home blocks of a disk make up. */
  function Decode(d: Disk, l: Layout): Fs {
    Fs(seq(|d|, x => ToBytes(Home(d, l, x))),
      seq(|d|, b requires 0 <= b < |d| => BitAt(Home(d, l, b / BPB + l.bmapstart), b % BPB)),
      seq(l.ninodes, i requires 0 <= i < l.ninodes =>
        InodeAt(Home(d, l, i / FsCode.IPB + l.inodestart), i % FsCode.IPB)),
      l.nmeta)
  }

  lemma SameHomeDecodes(d: Disk, e: Disk, l: Layout)
    requires RedoLog.SameHome(d, e, l.log)
    ensures Decode(d, l) == Decode(e, l)
  {
    assert forall x :: Home(d, l, x) == Home(e, l, x);
    assert Decode(d, l).store == Decode(e, l).store && Decode(d, l).bits == Decode(e, l).bits;
    assert Decode(d, l).ino == Decode(e, l).ino;
  }

  /** No block is in two files or in none of them and yet in use, and no block in a file is free. */
  ghost predicate Consistent(d: Disk, l: Layout) {
    exists owner :: Owned(Decode(d, l), owner)
  }

  /** If every operation leaves the block maps and the free map consistent, then recovery finds them
      so after a crash at any point of any run. */
  lemma ConsistentAfterCrash(l: Layout, ss: seq<LogProtocol.State>, steps: seq<LogProtocol.Step>, j: nat)
    requires LogTheorems.IsRun(l.log, ss, steps) && j <= |steps|
    requires forall k | 0 <= k <= |steps| && LogTheorems.Quiet(ss[k]) :: Consistent(LogProtocol.Logical(ss[k]), l)
    ensures RedoLog.ValidLog(ss[j].disk, l.log) && Consistent(RedoLog.Recover(ss[j].disk, l.log), l)
  {
    forall d, e | RedoLog.SameHome(d, e, l.log) ensures Consistent(d, l) == Consistent(e, l) {
      SameHomeDecodes(d, e, l);
    }
    LogTheorems.InvariantAfterCrash(l.log, ss, steps, d => Consistent(d, l), j);
  }

  /** iupdate's store changes one inode of the decoded file system, one block of its store and
      nothing else. */
  lemma IupdateDecodes(d: Disk, l: Layout, i: int, n: Inode, x: int, e: Disk)
    requires 0 <= i < l.ninodes && x == i / FsCode.IPB + l.inodestart < |d| && !RedoLog.InLog(l.log, x)
    requires forall b | 0 <= b < |d| :: b / BPB + l.bmapstart != x
    requires |n.addrs| == NDIRECT + 1 && 0 <= n.size < UINT && forall k | 0 <= k <= NDIRECT :: 0 <= n.addrs[k] < UINT
    requires e == d[x := StoreInode(d[x], i % FsCode.IPB, n)]
    ensures Decode(e, l).ino == Decode(d, l).ino[i := n] && Decode(e, l).bits == Decode(d, l).bits
    ensures forall y | 0 <= y < |d| && y != x :: Decode(e, l).store[y] == Decode(d, l).store[y]
  {
    forall t | 0 <= t < l.ninodes ensures Decode(e, l).ino[t] == Decode(d, l).ino[i := n][t] {
      if t / FsCode.IPB == i / FsCode.IPB {
        InodeStored(d[x], i % FsCode.IPB, n, t % FsCode.IPB);
      }
    }
  }
}
