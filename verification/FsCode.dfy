/** The inode layer as the kernel runs it (fs.c, file.c): block allocation, block maps,
    and reading and writing through them. */
module FsCode {
  import opened FsBlocks
  import opened FsState
  import opened Pigeonhole
  const IPB := 16           // inodes per block
  const MAXOPBLOCKS := 10
  const CHUNK := (MAXOPBLOCKS - 1 - 1 - 2) / 2 * BSIZE

  function NonZero(a: int): set<int> {
    if a == 0 then {} else {a}
  }

  ghost predicate Full(bits: seq<bool>) {
    forall b | 0 <= b < |bits| :: bits[b]
  }

  /** The number of the slot that owns block b, among all slots of all inodes. */
  ghost function SlotNumber(owner: map<int, Slot>, b: int): int
    requires b in owner
  {
    owner[b].inum * NSLOT + owner[b].k
  }

  lemma SlotNumbers(f: Fs, owner: map<int, Slot>, b: int, c: int)
    requires Owned(f, owner) && b in owner && c in owner
    ensures 0 <= SlotNumber(owner, b) < NSLOT * |f.ino| && (b != c ==> SlotNumber(owner, b) != SlotNumber(owner, c))
  {
    assert BlockOwned(f, owner, b) && BlockOwned(f, owner, c);
  }

  /** A disk with more data blocks than there are slots is never full. */
  lemma NeverFull(f: Fs, owner: map<int, Slot>)
    requires Owned(f, owner) && NSLOT * |f.ino| < |f.bits| - f.nmeta
    ensures !Full(f.bits)
  {
    if Full(f.bits) {
      var m := f.nmeta;
      forall b | m <= b < |f.bits| ensures b in owner { assert f.bits[b]; }
      var s := seq(|f.bits| - m, j requires 0 <= j < |f.bits| - m => SlotNumber(owner, m + j));
      forall j | 0 <= j < |s| ensures 0 <= s[j] < NSLOT * |f.ino| { SlotNumbers(f, owner, m + j, m + j); }
      forall j, k | 0 <= j < k < |s| ensures s[j] != s[k] { SlotNumbers(f, owner, m + j, m + k); }
      DistinctBelow(s, NSLOT * |f.ino|);
    }
  }

  /** What a write of t at off makes of the bytes s. */
  function Overlay(s: seq<Byte>, off: int, t: seq<Byte>): seq<Byte>
    requires 0 <= off <= |s|
  {
    s[..off] + t + if off + |t| < |s| then s[off + |t|..] else []
  }

  /** Every block below the limit is there. */
  ghost predicate Covered(f: Fs, i: int, limit: int)
    requires Wf(f) && 0 <= i < |f.ino|
  {
    forall bn | 0 <= bn < MAXFILE && bn * BSIZE < limit :: Addr(f, i, SlotOf(bn)) != 0
  }

  /** Every block below the size is there. */
  ghost predicate NoHoles(f: Fs, i: int)
    requires Wf(f) && 0 <= i < |f.ino|
  {
    Covered(f, i, f.ino[i].size)
  }

  lemma WfSize(f: Fs, i: int)
    requires Wf(f) && 0 <= i < |f.ino|
    ensures WfInode(f, f.ino[i])
  {}

  /** Inodes other than i are as they were. */
  ghost predicate OthersKept(f: Fs, f': Fs, i: int)
    requires Wf(f) && Wf(f') && |f'.ino| == |f.ino|
  {
    && (forall x, k | IsSlot(f, x, k) && x != i :: Addr(f', x, k) == Addr(f, x, k))
    && (forall x | 0 <= x < |f.ino| && x != i :: f'.ino[x] == f.ino[x])
  }

  /** What bmap may do on behalf of inode i: add blocks of zeroes. */
  ghost predicate GrownFor(f: Fs, f': Fs, i: int) {
    Grown(f, f') && OthersKept(f, f', i)
  }

  lemma GrownForTransitive(f: Fs, g: Fs, h: Fs, i: int)
    requires GrownFor(f, g, i) && GrownFor(g, h, i)
    ensures GrownFor(f, h, i)
  {
    GrownTransitive(f, g, h);
    forall x, k | IsSlot(f, x, k) && x != i ensures Addr(h, x, k) == Addr(f, x, k) {
      assert Addr(g, x, k) == Addr(f, x, k);
    }
  }

  lemma BitOf(b: int, bi: int)
    requires 0 <= b && b % BPB == 0 && 0 <= bi < BPB
    ensures b / BPB * BSIZE + bi / 8 == (b + bi) / 8 && bi % 8 == (b + bi) % 8
    ensures (b + bi) / BPB == b / BPB
  {
  }

  ghost predicate SmallOps(ops: seq<set<int>>) {
    forall k | 0 <= k < |ops| :: |ops[k]| <= 7
  }

  function Max(a: int, b: int): int {
    if a < b then b else a
  }

  /** The bytes of inode i at off .. are now `bytes`, its size is at least the end of the first n
      of them, and that is the only difference any file shows. */
  ghost predicate Patched(f: Fs, f': Fs, i: int, off: int, bytes: seq<Byte>, n: int) {
    && Wf(f) && Wf(f') && |f'.store| == |f.store| && |f'.ino| == |f.ino| && 0 <= i < |f.ino| && OthersKept(f, f', i)
    && off <= f.ino[i].size && 0 <= n <= |bytes| && f'.ino[i].size == Max(f.ino[i].size, off + n)
    && (forall x, o | InFile(f, x, o) :: DataAt(f', x, o) ==
          if x == i && off <= o < off + |bytes| then bytes[o - off] else DataAt(f, x, o))
  }

  /** ... and its size is at least the end of them all. */
  ghost predicate WroteFile(f: Fs, f': Fs, i: int, off: int, bytes: seq<Byte>) {
    Patched(f, f', i, off, bytes, |bytes|)
  }

  /** What filewrite may leave behind when it has moved the offset by n. */
  ghost predicate Sent(f: Fs, g: Fs, i: int, off: int, bytes: seq<Byte>, n: int) {
    && Wf(f) && Wf(g) && |f.store| == |g.store| && |f.ino| == |g.ino| && 0 <= i < |f.ino|
    && if off <= f.ino[i].size then Patched(f, g, i, off, bytes, n) else bytes == [] && n == 0 && g == f
  }

  /** A change to block b or to its bit in the free map has been passed to log_write, unless b is
      in `stray`. */
  ghost predicate ChangeLogged(f: Fs, g: Fs, logged: set<int>, stray: set<int>, bmapstart: int, b: int)
    requires 0 <= b < |f.store| && |f.store| == |g.store| == |f.bits| == |g.bits|
  {
    && (g.store[b] != f.store[b] ==> b in logged || b in stray)
    && (g.bits[b] != f.bits[b] ==> b / BPB + bmapstart in logged)
  }

  ghost predicate AllLogged(f: Fs, g: Fs, logged: set<int>, stray: set<int>, bmapstart: int) {
    && |f.store| == |g.store| == |f.bits| == |g.bits|
    && forall b | 0 <= b < |f.store| :: ChangeLogged(f, g, logged, stray, bmapstart, b)
  }

  lemma LoggedThen(f: Fs, g: Fs, h: Fs, s: set<int>, t: set<int>, stray: set<int>, bmapstart: int)
    requires AllLogged(f, g, s, {}, bmapstart) && AllLogged(g, h, t, stray, bmapstart) && s <= t
    ensures AllLogged(f, h, t, stray, bmapstart)
  {
    forall b | 0 <= b < |f.store| ensures ChangeLogged(f, h, t, stray, bmapstart, b) {
      assert ChangeLogged(f, g, s, {}, bmapstart, b) && ChangeLogged(g, h, t, stray, bmapstart, b);
    }
  }

  /** One more block is free, and the block of its bit is logged. */
  lemma LoggedBit(f: Fs, g: Fs, h: Fs, s: set<int>, t: set<int>, bmapstart: int, b: int)
    requires AllLogged(f, g, s, {}, bmapstart) && 0 <= b < |g.bits| && h.store == g.store
      && h.bits == g.bits[b := false]
    requires t == s + {b / BPB + bmapstart}
    ensures AllLogged(f, h, t, {}, bmapstart)
  {
    forall c | 0 <= c < |f.store| ensures ChangeLogged(f, h, t, {}, bmapstart, c) {
      assert ChangeLogged(f, g, s, {}, bmapstart, c);
    }
  }

  lemma OthersKeptTransitive(f: Fs, g: Fs, h: Fs, i: int)
    requires Wf(f) && Wf(g) && Wf(h) && |f.ino| == |g.ino| == |h.ino|
    requires OthersKept(f, g, i) && OthersKept(g, h, i)
    ensures OthersKept(f, h, i)
  {
    forall x, k | IsSlot(f, x, k) && x != i ensures Addr(h, x, k) == Addr(f, x, k) {
      assert Addr(g, x, k) == Addr(f, x, k);
    }
  }

  lemma WroteMore(f: Fs, g: Fs, h: Fs, i: int, off: int, a: seq<Byte>, b: seq<Byte>, n: int)
    requires WroteFile(f, g, i, off, a) && Patched(g, h, i, off + |a|, b, n)
    ensures Patched(f, h, i, off, a + b, |a| + n)
  {
    OthersKeptTransitive(f, g, h, i);
    forall x, o | InFile(f, x, o) ensures DataAt(h, x, o) ==
          if x == i && off <= o < off + |a + b| then (a + b)[o - off] else DataAt(f, x, o)
    {
      assert DataAt(g, x, o) == if x == i && off <= o < off + |a| then a[o - off] else DataAt(f, x, o);
    }
  }

  lemma SentMore(f: Fs, g: Fs, h: Fs, i: int, off: int, src: seq<Byte>, done: int, n1: int, r: int, put: int)
    requires 0 <= done && 0 < n1 && done + n1 <= |src| && Wf(h) && 0 <= off
    requires Sent(f, g, i, off, src[..done], done)
    requires if r == -1 then h == g && put == 0
             else 0 <= r <= put <= n1 && Patched(g, h, i, off + done, src[done..done + n1][..put], r)
    ensures Sent(f, h, i, off, src[..done + put], if r == -1 then done else done + r)
    ensures r != -1 ==> off + done + r <= MAXFILE * BSIZE
  {
    if r != -1 {
      WroteMore(f, g, h, i, off, src[..done], src[done..done + n1][..put], r);
      assert src[..done] + src[done..done + n1][..put] == src[..done + put];
      WfSize(h, i);
    }
  }

  /** If the blocks up to off were there, those up to off + n now are. */
  ghost predicate MoreCovered(f: Fs, f': Fs, i: int, off: int, n: int)
    requires Wf(f) && Wf(f') && 0 <= i < |f.ino| && |f'.ino| == |f.ino|
  {
    && (forall limit | Covered(f, i, limit) :: Covered(f', i, limit))
    && (Covered(f, i, off) ==> Covered(f', i, off + n))
  }

  /** The files are those of f, except that the bytes of inode i at off .. are now `done`. */
  ghost predicate WroteTo(f: Fs, f': Fs, i: int, off: int, done: seq<Byte>)
    requires Wf(f) && Wf(f')
  {
    && |f'.store| == |f.store| && |f'.ino| == |f.ino| && f'.nmeta == f.nmeta
    && (forall x | 0 <= x < |f.ino| :: f'.ino[x].size == f.ino[x].size)
    && (forall x, o | InFile(f, x, o) :: DataAt(f', x, o) ==
          if x == i && off <= o < off + |done| then done[o - off] else DataAt(f, x, o))
  }

  /** In the middle of a write to inode i: `done` has been written at off. */
  ghost predicate Writing(f: Fs, g: Fs, i: int, off: int, done: seq<Byte>)
    requires Wf(f) && Wf(g)
  {
    0 <= i < |f.ino| && WroteTo(f, g, i, off, done) && OthersKept(f, g, i) && MoreCovered(f, g, i, off, |done|)
  }

  function Sized(f: Fs, i: int, size: int): Fs
    requires 0 <= i < |f.ino|
  {
    Fs(f.store, f.bits, f.ino[i := Inode(size, f.ino[i].addrs)], f.nmeta)
  }

  /** A change of an inode's size is no change to any block map. */
  lemma SizedOwned(f: Fs, owner: map<int, Slot>, i: int, size: int)
    requires Owned(f, owner) && 0 <= i < |f.ino| && 0 <= size <= MAXFILE * BSIZE
    ensures Owned(Sized(f, i, size), owner)
    ensures forall x, k | IsSlot(f, x, k) :: Addr(Sized(f, i, size), x, k) == Addr(f, x, k)
    ensures forall x, o | InFile(f, x, o) :: DataAt(Sized(f, i, size), x, o) == DataAt(f, x, o)
  {
    var g := Sized(f, i, size);
    forall x | 0 <= x < |g.ino| ensures WfInode(g, g.ino[x]) {
      assert WfInode(f, f.ino[x]);
    }
    assert forall x, k | IsSlot(f, x, k) :: Addr(g, x, k) == Addr(f, x, k);
    forall x, k | IsSlot(g, x, k) && !Exempt(x, k, 0, 0) ensures SlotOwned(g, owner, x, k) {
      assert SlotOwned(f, owner, x, k);
    }
    forall b | b in owner ensures BlockOwned(g, owner, b) {
      assert BlockOwned(f, owner, b);
    }
    forall x, o | InFile(f, x, o) ensures DataAt(g, x, o) == DataAt(f, x, o) {
      assert IsSlot(f, x, SlotOf(o / BSIZE));
    }
  }

  /** g and h have the same blocks in the same slots. */
  ghost predicate SameMap(g: Fs, h: Fs) {
    && Wf(g) && Wf(h) && |h.store| == |g.store| && |h.ino| == |g.ino|
    && (forall x, k | IsSlot(g, x, k) :: Addr(h, x, k) == Addr(g, x, k))
    && (forall x, o | InFile(g, x, o) :: DataAt(h, x, o) == DataAt(g, x, o))
  }

  lemma SameMapPatched(f: Fs, g: Fs, h: Fs, i: int, off: int, bytes: seq<Byte>, n: int)
    requires Wf(f) && Wf(g) && Writing(f, g, i, off, bytes) && SameMap(g, h)
    requires off <= f.ino[i].size && 0 <= n <= |bytes| && h.ino[i].size == Max(f.ino[i].size, off + n)
    requires forall x | 0 <= x < |g.ino| && x != i :: h.ino[x] == g.ino[x]
    ensures Patched(f, h, i, off, bytes, n)
  {
    forall x, k | IsSlot(f, x, k) && x != i ensures Addr(h, x, k) == Addr(f, x, k) {
      assert IsSlot(g, x, k);
    }
    forall x, o | InFile(f, x, o) ensures DataAt(h, x, o) == DataAt(g, x, o) {
      assert InFile(g, x, o);
    }
  }

  lemma SameMapHoles(f: Fs, g: Fs, h: Fs, i: int, off: int, n: int)
    requires Wf(f) && Wf(g) && 0 <= i < |f.ino| == |g.ino| && MoreCovered(f, g, i, off, n) && SameMap(g, h)
    requires 0 <= off <= f.ino[i].size && h.ino[i].size <= Max(f.ino[i].size, off + n)
    ensures NoHoles(f, i) ==> NoHoles(h, i)
  {
    if NoHoles(f, i) {
      assert Covered(f, i, off);
      assert Covered(g, i, f.ino[i].size);
      assert Covered(g, i, off + n);
      forall bn | 0 <= bn < MAXFILE && bn * BSIZE < h.ino[i].size ensures Addr(h, i, SlotOf(bn)) != 0 {
        assert IsSlot(g, i, SlotOf(bn));
      }
    }
  }

  /** The end of writei: the size is raised to the end of what was written. */
  lemma Resized(f: Fs, g: Fs, h: Fs, owner: map<int, Slot>, i: int, off: int, bytes: seq<Byte>, n: int)
    requires Wf(f) && Owned(g, owner) && Writing(f, g, i, off, bytes)
    requires 0 <= off <= f.ino[i].size && off + |bytes| <= MAXFILE * BSIZE && 0 <= n <= |bytes|
    requires h == if off + n > g.ino[i].size then Sized(g, i, off + n) else g
    ensures Owned(h, owner) && Patched(f, h, i, off, bytes, n) && (NoHoles(f, i) ==> NoHoles(h, i))
    ensures forall x, k | IsSlot(g, x, k) :: Addr(h, x, k) == Addr(g, x, k)
  {
    SizedOwned(g, owner, i, off + n);
    SameMapPatched(f, g, h, i, off, bytes, n);
    SameMapHoles(f, g, h, i, off, |bytes|);
  }

  lemma Sizes(s: set<int>, a: int, b: set<int>, c: set<int>, d: int)
    requires s <= {a} + b + (c + {d})
    ensures |s| <= |b| + |c| + 2
  {
    var t := {a} + b + (c + {d});
    assert t == s + (t - s);
  }

  lemma WroteThenGrown(f: Fs, g: Fs, h: Fs, i: int, off: int, done: seq<Byte>)
    requires Wf(f) && Grown(g, h) && WroteTo(f, g, i, off, done)
    ensures WroteTo(f, h, i, off, done)
  {
    forall x, o | InFile(f, x, o) ensures DataAt(h, x, o) ==
          if x == i && off <= o < off + |done| then done[o - off] else DataAt(f, x, o)
    {
      assert DataAt(h, x, o) == DataAt(g, x, o);
    }
    forall x | 0 <= x < |f.ino| ensures h.ino[x].size == f.ino[x].size {
      assert h.ino[x].size == g.ino[x].size;
    }
  }

  lemma GrownCovered(f: Fs, f': Fs, i: int, off: int)
    requires Grown(f, f') && 0 <= i < |f.ino|
    ensures MoreCovered(f, f', i, off, 0)
  {
    forall limit | Covered(f, i, limit) ensures Covered(f', i, limit) {
      forall bn | 0 <= bn < MAXFILE && bn * BSIZE < limit ensures Addr(f', i, SlotOf(bn)) != 0 {
        assert IsSlot(f, i, SlotOf(bn));
      }
    }
  }

  lemma WritingGrown(f: Fs, g: Fs, h: Fs, i: int, off: int, done: seq<Byte>)
    requires Wf(f) && GrownFor(g, h, i) && Writing(f, g, i, off, done)
    ensures Writing(f, h, i, off, done)
    ensures NonZero(Addr(g, i, INDIRECT)) <= NonZero(Addr(h, i, INDIRECT))
  {
    WroteThenGrown(f, g, h, i, off, done);
    OthersKeptTransitive(f, g, h, i);
    GrownCovered(g, h, i, off + |done|);
  }

  lemma LoggedNext(before: set<int>, s: set<int>, t: set<int>, bitmap: set<int>, ind: set<int>, ind': set<int>,
                   data: set<int>, addr: int)
    requires s <= before + bitmap + ind + data && ind <= ind' && t <= s + bitmap + NonZero(addr) + ind'
    ensures t <= before + bitmap + ind' + (data + NonZero(addr))
    ensures |data + NonZero(addr)| <= if addr == 0 then |data| else |data| + 1
  {}

  /** The number of blocks that n bytes at off lie in. */
  function Span(off: int, n: int): (k: int)
    requires 0 <= off && 0 <= n
  {
    if n == 0 then 0 else (off + n - 1) / BSIZE - off / BSIZE + 1
  }

  function Min(a: int, b: int): int {
    if a < b then a else b
  }

  /** The loop over n bytes at off0 has not begun, is at a block boundary, or has come to the end. */
  predicate AtBoundary(off0: int, n: int, tot: int) {
    0 <= off0 && 0 <= tot <= n && (tot == 0 || tot == n || (off0 + tot) % BSIZE == 0)
  }

  lemma OneRound(off0: int, n: int, tot: int, m: int)
    requires AtBoundary(off0, n, tot) && tot < n && m == Min(n - tot, BSIZE - (off0 + tot) % BSIZE)
    ensures 0 < m <= n - tot && (off0 + tot) % BSIZE + m <= BSIZE && AtBoundary(off0, n, tot + m)
    ensures Span(off0, tot + m) == Span(off0, tot) + 1 <= Span(off0, n)
  {
    var off := off0 + tot;
    assert (off + m - 1) / BSIZE == off / BSIZE;
    assert tot > 0 ==> (off - 1) / BSIZE == off / BSIZE - 1;
    if m == BSIZE - off % BSIZE {
      assert off + m == (off / BSIZE + 1) * BSIZE;
    }
    assert off / BSIZE <= (off0 + n - 1) / BSIZE;
  }

  /** The n bytes of a round of m that can be copied, if byte number `bad` cannot. */
  lemma OneWrite(off0: int, len: int, tot: int, off: int, m: int, n: int, bad: int)
    requires AtBoundary(off0, len, tot) && tot < len && off == off0 + tot && m == Min(len - tot, BSIZE - off % BSIZE)
    requires tot <= bad && n == Min(m, bad - tot)
    ensures 0 < m <= len - tot && 0 <= n <= m && off % BSIZE + n <= BSIZE && AtBoundary(off0, len, tot + m)
    ensures Span(off0, tot + m) == Span(off0, tot) + 1 <= Span(off0, len)
    ensures if n == m then tot + m <= bad else tot + n == bad < len && bad < tot + BSIZE
  {
    OneRound(off0, len, tot, m);
  }

  lemma WroteThenPut(f: Fs, g: Fs, h: Fs, i: int, off: int, done: seq<Byte>, bytes: seq<Byte>)
    requires Wf(f) && Wrote(g, h, i, off + |done|, bytes) && WroteTo(f, g, i, off, done)
    ensures WroteTo(f, h, i, off, done + bytes)
  {
    forall x, o | InFile(f, x, o) ensures DataAt(h, x, o) ==
          if x == i && off <= o < off + |done + bytes| then (done + bytes)[o - off] else DataAt(f, x, o)
    {
      assert DataAt(g, x, o) == if x == i && off <= o < off + |done| then done[o - off] else DataAt(f, x, o);
    }
  }

  lemma CoveredNext(f: Fs, f': Fs, i: int, off: int, bytes: seq<Byte>)
    requires Wrote(f, f', i, off, bytes) && InFile(f, i, off) && off % BSIZE + |bytes| <= BSIZE
    requires Addr(f, i, SlotOf(off / BSIZE)) != 0
    ensures MoreCovered(f, f', i, off, |bytes|)
  {
    forall limit | Covered(f, i, limit) ensures Covered(f', i, limit) {
      forall bn | 0 <= bn < MAXFILE && bn * BSIZE < limit ensures Addr(f', i, SlotOf(bn)) != 0 {
        assert IsSlot(f, i, SlotOf(bn));
      }
    }
    if Covered(f, i, off) {
      forall bn | 0 <= bn < MAXFILE && bn * BSIZE < off + |bytes| ensures Addr(f', i, SlotOf(bn)) != 0 {
        assert IsSlot(f, i, SlotOf(bn));
        assert bn == off / BSIZE || bn * BSIZE < off;
      }
    }
  }

  lemma WritingPut(f: Fs, h: Fs, h': Fs, i: int, off0: int, done: seq<Byte>, bytes: seq<Byte>)
    requires Wf(f) && Wf(h) && Writing(f, h, i, off0, done) && InFile(h, i, off0 + |done|)
    requires var off := off0 + |done|;
             && off % BSIZE + |bytes| <= BSIZE && Wrote(h, h', i, off, bytes) && Addr(h, i, SlotOf(off / BSIZE)) != 0
    ensures Writing(f, h', i, off0, done + bytes)
  {
    WroteThenPut(f, h, h', i, off0, done, bytes);
    OthersKeptTransitive(f, h, h', i);
    CoveredNext(h, h', i, off0 + |done|, bytes);
  }

  /** One round of writei: bmap has made h out of g, and if it found a block, addr, then that
      has been patched in h'. */
  lemma WriteNext(f: Fs, g: Fs, h: Fs, h': Fs, i: int, off0: int, done: seq<Byte>, off: int, bytes: seq<Byte>,
          addr: int)
    requires Wf(f) && GrownFor(g, h, i) && Writing(f, g, i, off0, done) && off == off0 + |done|
    requires InFile(h, i, off) && off % BSIZE + |bytes| <= BSIZE && addr == Addr(h, i, SlotOf(off / BSIZE))
    requires if addr == 0 then h' == h else Wrote(h, h', i, off, bytes)
    ensures Wf(h') && Writing(f, h', i, off0, if addr == 0 then done else done + bytes)
    ensures NonZero(Addr(g, i, INDIRECT)) <= NonZero(Addr(h', i, INDIRECT))
  {
    WritingGrown(f, g, h, i, off0, done);
    if addr != 0 {
      WritingPut(f, h, h', i, off0, done, bytes);
      assert IsSlot(h, i, INDIRECT);
    }
  }

  /** t is the n bytes of s at off. */
  predicate Piece(t: seq<Byte>, s: seq<Byte>, off: int, n: int) {
    0 <= off <= off + n <= |s| && t == s[off..off + n]
  }

  lemma PieceNext(t: seq<Byte>, u: seq<Byte>, s: seq<Byte>, off: int, n: int, m: int)
    requires Piece(t, s, off, n) && Piece(u, s, off + n, m)
    ensures Piece(t + u, s, off, n + m)
  {}

  lemma Wraps(off: int, n: int)
    requires 0 <= off < UINT && 0 <= n < UINT
    ensures (off + n) % UINT < off <==> off + n >= UINT
  {}

  /** What readi should return of the file s: nothing past its end, and nothing at all if
      off is past the end or off + n wraps around. */
  function Wanted(s: seq<Byte>, off: int, n: int): seq<Byte>
    requires 0 <= off && 0 <= n
  {
    if off > |s| || off + n >= UINT then [] else s[off..Min(off + n, |s|)]
  }

  lemma PieceWanted(s: seq<Byte>, off: int, n0: int, n: int, data: seq<Byte>)
    requires 0 <= off <= |s| && 0 <= n0 && off + n0 < UINT && n == Min(n0, |s| - off)
    requires |data| <= n && Piece(data, s, off, |data|)
    ensures data <= Wanted(s, off, n0) && |Wanted(s, off, n0)| == n && (|data| == n ==> data == Wanted(s, off, n0))
  {}

  /** The part of a file in one block, as that block has it. */
  lemma BlockBytes(f: Fs, owner: map<int, Slot>, i: int, off: int, m: int)
    requires Owned(f, owner) && 0 <= i < |f.ino| && 0 <= off && 0 < m && off + m <= f.ino[i].size
    requires off % BSIZE + m <= BSIZE && off + m <= MAXFILE * BSIZE
    requires Addr(f, i, SlotOf(off / BSIZE)) != 0
    ensures var b := Addr(f, i, SlotOf(off / BSIZE));
            0 <= b < |f.store| && f.store[b][off % BSIZE..off % BSIZE + m] == Contents(f, i)[off..off + m]
  {
    var k := SlotOf(off / BSIZE);
    var b := Addr(f, i, k);
    assert IsSlot(f, i, k) && SlotOwned(f, owner, i, k) && BlockOwned(f, owner, b);
    forall o | off <= o < off + m ensures DataAt(f, i, o) == f.store[b][o - off + off % BSIZE] {
      assert o / BSIZE == off / BSIZE && o % BSIZE == off % BSIZE + o - off;
    }
  }

  /** The blocks that bytes lo .. hi - 1 of inode i lie in are there. */
  ghost predicate Present(f: Fs, i: int, lo: int, hi: int)
    requires Wf(f) && 0 <= i < |f.ino|
  {
    lo < hi ==> forall bn | 0 <= bn < MAXFILE && lo < (bn + 1) * BSIZE && bn * BSIZE < hi :: Addr(f, i, SlotOf(bn)) != 0
  }

  /** readi has `data` of the file's bytes s, and the blocks of inode i that they lie in are there. */
  ghost predicate ReadSoFar(s: seq<Byte>, g: Fs, i: int, off0: int, n: int, data: seq<Byte>)
    requires Wf(g) && 0 <= i < |g.ino|
  {
    |data| <= n && 0 <= off0 && off0 + n <= |s| && Piece(data, s, off0, |data|) && Present(g, i, off0, off0 + |data|)
  }

  lemma OneBlock(f: Fs, i: int, off: int, m: int)
    requires Wf(f) && 0 <= i < |f.ino| && 0 <= off < MAXFILE * BSIZE && 0 < m && off % BSIZE + m <= BSIZE
    ensures Present(f, i, off, off + m) <==> Addr(f, i, SlotOf(off / BSIZE)) != 0
  {
    forall bn | 0 <= bn < MAXFILE && off < (bn + 1) * BSIZE && bn * BSIZE < off + m ensures bn == off / BSIZE {}
    assert off < (off / BSIZE + 1) * BSIZE && off / BSIZE * BSIZE < off + m;
  }

  /** A missing block of a part is a missing block of the whole. */
  lemma MissingPart(f: Fs, i: int, lo: int, hi: int, lo': int, hi': int)
    requires Wf(f) && 0 <= i < |f.ino| && lo <= lo' && hi' <= hi
    ensures !Present(f, i, lo', hi') ==> !Present(f, i, lo, hi)
  {}

  lemma PresentNext(g: Fs, h: Fs, i: int, lo: int, off: int, m: int)
    requires Grown(g, h) && 0 <= i < |g.ino| && Present(g, i, lo, off) && 0 <= lo <= off && 0 <= m
    requires off % BSIZE + m <= BSIZE && off < MAXFILE * BSIZE && (m > 0 ==> Addr(h, i, SlotOf(off / BSIZE)) != 0)
    ensures Present(h, i, lo, off + m)
  {
    forall bn | lo < off + m && 0 <= bn < MAXFILE && lo < (bn + 1) * BSIZE && bn * BSIZE < off + m
      ensures Addr(h, i, SlotOf(bn)) != 0 {
      assert IsSlot(g, i, SlotOf(bn));
      assert bn == off / BSIZE || bn * BSIZE < off;
    }
  }

  /** One round of readi has taken `bytes` out of one block of h, or found no block. */
  lemma ReadNext(s: seq<Byte>, g: Fs, h: Fs, i: int, off0: int, n: int, data: seq<Byte>, bytes: seq<Byte>)
    requires Grown(g, h) && 0 <= i < |g.ino| && ReadSoFar(s, g, i, off0, n, data) && |data| + |bytes| <= n
    requires var off := off0 + |data|;
             && Piece(bytes, s, off, |bytes|) && off % BSIZE + |bytes| <= BSIZE && off < MAXFILE * BSIZE
             && (bytes != [] ==> Addr(h, i, SlotOf(off / BSIZE)) != 0)
    ensures ReadSoFar(s, h, i, off0, n, data + bytes)
  {
    PieceNext(data, bytes, s, off0, |data|, |bytes|);
    PresentNext(g, h, i, off0, off0 + |data|, |bytes|);
  }

  lemma ReadLess(s: seq<Byte>, g: Fs, i: int, off0: int, n: int, data: seq<Byte>, m: int)
    requires Wf(g) && 0 <= i < |g.ino| && ReadSoFar(s, g, i, off0, n, data) && 0 <= m <= |data|
    ensures ReadSoFar(s, g, i, off0, n, data[..m])
  {}

  lemma ReadRoundKeeps(s: seq<Byte>, f: Fs, g: Fs, h: Fs, i: int, off0: int, n: int,
          data: seq<Byte>, off: int, bytes: seq<Byte>)
    requires GrownFor(f, g, i) && GrownFor(g, h, i) && 0 <= i < |f.ino|
    requires ReadSoFar(s, g, i, off0, n, data) && off == off0 + |data| && |data| + |bytes| <= n
    requires Piece(bytes, s, off, |bytes|) && off % BSIZE + |bytes| <= BSIZE && off < MAXFILE * BSIZE
    requires bytes != [] ==> Addr(h, i, SlotOf(off / BSIZE)) != 0
    ensures GrownFor(f, h, i) && ReadSoFar(s, h, i, off0, n, data + bytes)
  {
    ReadNext(s, g, h, i, off0, n, data, bytes);
    GrownForTransitive(f, g, h, i);
  }

  /** Inode i has no blocks and no bytes; the blocks it had are free; nothing else changed. */
  ghost predicate Truncated(f: Fs, owner: map<int, Slot>, f': Fs, i: int) {
    && Wf(f) && Wf(f') && |f'.ino| == |f.ino| && OthersKept(f, f', i) && 0 <= i < |f.ino| && |f'.bits| == |f.bits|
    && (forall k | 0 <= k < NSLOT :: Addr(f', i, k) == 0) && f'.ino[i].size == 0
    && (forall b | 0 <= b < |f.bits| :: f'.bits[b] == (f.bits[b] && !(b in owner && owner[b].inum == i)))
    && (forall x, o | InFile(f, x, o) && x != i :: DataAt(f', x, o) == DataAt(f, x, o))
  }

  /** The slots of inode i that itrunc has emptied: the first k, and j entries of the indirect block. */
  predicate Freed(s: Slot, i: int, k: int, j: int) {
    s.inum == i && (s.k < k || INDIRECT < s.k <= INDIRECT + j)
  }

  ghost predicate Dropped(f: Fs, owner: map<int, Slot>, f': Fs, owner': map<int, Slot>, i: int, k: int, j: int) {
    && Wf(f) && Wf(f') && 0 <= i < |f.ino| && 0 <= k <= NDIRECT + 1
    && f'.store == f.store && f'.nmeta == f.nmeta && |f'.ino| == |f.ino|
    && (forall x | 0 <= x < |f.ino| && x != i :: f'.ino[x] == f.ino[x])
    && (forall x | 0 <= x < k :: f'.ino[i].addrs[x] == 0)
    && (forall b | b in owner' :: b in owner && owner'[b] == owner[b] && !Freed(owner[b], i, k, j))
    && (forall b | b in owner && !Freed(owner[b], i, k, j) :: b in owner')
  }

  lemma DropDirectStep(f0: Fs, owner0: map<int, Slot>, f: Fs, owner: map<int, Slot>, i: int, k: int)
    requires Dropped(f0, owner0, f, owner, i, k, 0) && Owned(f, owner) && 0 <= k < NDIRECT
    ensures var a := Addr(f, i, k);
            if a == 0 then Dropped(f0, owner0, f, owner, i, k + 1, 0)
            else a < |f.bits| && f.bits[a] && Owned(DropDirect(f, i, k), owner - {a})
                 && Dropped(f0, owner0, DropDirect(f, i, k), owner - {a}, i, k + 1, 0)
  {
    var a := Addr(f, i, k);
    assert SlotOwned(f, owner, i, k);
    if a != 0 {
      DropDirectOwned(f, owner, i, k);
    }
    forall b | b in owner && b != a ensures owner[b] != Slot(i, k) {
      assert BlockOwned(f, owner, b);
    }
    assert forall b | b in owner :: BlockOwned(f, owner, b) && b != 0;
  }

  lemma DropEntryStep(f0: Fs, owner0: map<int, Slot>, f: Fs, owner: map<int, Slot>, i: int, j: int)
    requires Dropped(f0, owner0, f, owner, i, NDIRECT, j) && OwnedBut(f, owner, i, j) && 0 <= j < NINDIRECT
    ensures var a, k := Addr(f, i, INDIRECT + 1 + j), NDIRECT;
            if a == 0 then OwnedBut(f, owner, i, j + 1) && Dropped(f0, owner0, f, owner, i, k, j + 1)
            else a < |f.bits| && f.bits[a]
                 && OwnedBut(Fs(f.store, f.bits[a := false], f.ino, f.nmeta), owner - {a}, i, j + 1)
                 && Dropped(f0, owner0, Fs(f.store, f.bits[a := false], f.ino, f.nmeta), owner - {a}, i, k, j + 1)
  {
    var a := Addr(f, i, INDIRECT + 1 + j);
    assert SlotOwned(f, owner, i, INDIRECT + 1 + j);
    DropEntryOwned(f, owner, i, j);
    forall b | b in owner && b != a ensures owner[b] != Slot(i, INDIRECT + 1 + j) {
      assert BlockOwned(f, owner, b);
    }
    assert forall b | b in owner :: BlockOwned(f, owner, b) && b != 0;
  }

  lemma DropIndirectStep(f0: Fs, owner0: map<int, Slot>, f: Fs, owner: map<int, Slot>, i: int)
    requires Dropped(f0, owner0, f, owner, i, NDIRECT, NINDIRECT) && OwnedBut(f, owner, i, NINDIRECT)
    requires Addr(f, i, INDIRECT) != 0
    ensures var a, f' := Addr(f, i, INDIRECT), DropDirect(f, i, INDIRECT);
            && 0 <= a < |f.bits| && f.bits[a] && Owned(f', owner - {a})
            && Dropped(f0, owner0, f', owner - {a}, i, NDIRECT + 1, NINDIRECT)
  {
    var a := Addr(f, i, INDIRECT);
    assert SlotOwned(f, owner, i, INDIRECT);
    DropIndirectOwned(f, owner, i);
    forall b | b in owner && b != a ensures owner[b] != Slot(i, INDIRECT) {
      assert BlockOwned(f, owner, b);
    }
  }

  /** Without an indirect block there are no entries to free. */
  lemma NoIndirect(f0: Fs, owner0: map<int, Slot>, f: Fs, owner: map<int, Slot>, i: int)
    requires Dropped(f0, owner0, f, owner, i, NDIRECT, 0) && Owned(f, owner) && Addr(f, i, INDIRECT) == 0
    ensures Dropped(f0, owner0, f, owner, i, NDIRECT + 1, NINDIRECT)
  {
    forall b | b in owner ensures owner[b].inum != i || owner[b].k < NDIRECT {
      assert BlockOwned(f, owner, b);
    }
  }

  lemma DroppedAll(f: Fs, owner: map<int, Slot>, f': Fs, owner': map<int, Slot>, i: int, g: Fs)
    requires Owned(f, owner) && Owned(f', owner') && Dropped(f, owner, f', owner', i, NDIRECT + 1, NINDIRECT)
    requires g == Sized(f', i, 0)
    ensures Owned(g, owner') && Truncated(f, owner, g, i)
  {
    SizedOwned(f', owner', i, 0);
    forall b | 0 <= b < |f.bits| ensures g.bits[b] == (f.bits[b] && !(b in owner && owner[b].inum == i)) {
      if b in owner {
        assert BlockOwned(f, owner, b);
      }
      if b in owner' {
        assert BlockOwned(f', owner', b);
      }
    }
    forall x, o | InFile(f, x, o) && x != i ensures DataAt(g, x, o) == DataAt(f, x, o) {
      assert IsSlot(f, x, SlotOf(o / BSIZE));
    }
  }

  lemma PutDirectKept(f: Fs, owner: map<int, Slot>, i: int, k: int, b: int)
    requires Owned(f, owner) && IsSlot(f, i, k) && k <= INDIRECT && Addr(f, i, k) == 0
    requires 0 <= b < |f.bits| && !f.bits[b]
    ensures var f' := PutDirect(f, i, k, b);
            Owned(f', owner[b := Slot(i, k)]) && GrownFor(f, f', i) && Addr(f', i, k) == b
  {
    var f' := PutDirect(f, i, k, b);
    PutDirectFilled(f, owner, i, k, b);
    FilledOwned(f, f', owner, i, k, b);
    FilledGrown(f, f', owner, i, k, b);
  }

  lemma PutEntryKept(f: Fs, owner: map<int, Slot>, i: int, j: int, b: int)
    requires Owned(f, owner) && 0 <= i < |f.ino| && 0 <= j < NINDIRECT
    requires Addr(f, i, INDIRECT) != 0 && Addr(f, i, INDIRECT + 1 + j) == 0
    requires 0 <= b < |f.bits| && !f.bits[b]
    ensures var f' := PutEntry(f, Addr(f, i, INDIRECT), j, b);
            Owned(f', owner[b := Slot(i, INDIRECT + 1 + j)]) && GrownFor(f, f', i)
            && Addr(f', i, INDIRECT + 1 + j) == b
  {
    var f' := PutEntry(f, Addr(f, i, INDIRECT), j, b);
    PutEntryFilled(f, owner, i, j, b);
    FilledOwned(f, f', owner, i, INDIRECT + 1 + j, b);
    FreeBlock(f, owner, 0, 0, b);
    FilledGrown(f, f', owner, i, INDIRECT + 1 + j, b);
  }

  lemma PutDirectLogged(f: Fs, i: int, k: int, b: int, logged: set<int>, bmapstart: int)
    requires Wf(f) && 0 <= i < |f.ino| && 0 <= k < |f.ino[i].addrs| && 0 <= b < |f.store|
    requires b in logged && b / BPB + bmapstart in logged
    ensures AllLogged(f, PutDirect(f, i, k, b), logged, {}, bmapstart)
  {}

  lemma PutLogged(f: Fs, b: int, o: int, bytes: seq<Byte>, logged: set<int>, stray: set<int>, bmapstart: int)
    requires Wf(f) && 0 <= b < |f.store| && 0 <= o && o + |bytes| <= BSIZE && (b in logged || b in stray)
    ensures AllLogged(f, Put(f, b, o, bytes), logged, stray, bmapstart)
  {}

  lemma PutEntryLogged(f: Fs, ind: int, j: int, b: int, logged: set<int>, bmapstart: int)
    requires Wf(f) && 0 <= ind < |f.store| && 0 <= j < NINDIRECT && 0 <= b < |f.store|
    requires b in logged && ind in logged && b / BPB + bmapstart in logged
    ensures AllLogged(f, PutEntry(f, ind, j, b), logged, {}, bmapstart)
  {}

  class Disk {
    var store: seq<Block>
    var free: array<bv8>      // the bitmap blocks, one after another
    var ino: seq<Inode>
    const nmeta: int
    const bmapstart: int
    const inodestart: int

    ghost var bits: seq<bool>
    ghost var owner: map<int, Slot>
    ghost var logged: set<int>      // the blocks passed to log_write in this operation

    ghost function State(): Fs
      reads this
    {
      Fs(store, bits, ino, nmeta)
    }

    ghost predicate Mapped()
      reads this, free
    {
      IsBitmap(free[..], bits)
    }

    ghost predicate Valid()
      reads this, free
    {
      Mapped() && Owned(State(), owner)
    }

    /** A disk image with its files, block map and owners in order. */
    constructor (store: seq<Block>, bytes: seq<bv8>, ino: seq<Inode>, nmeta: int, bmapstart: int, inodestart: int,
                 ghost bits: seq<bool>, ghost owner: map<int, Slot>)
      requires IsBitmap(bytes, bits) && Owned(Fs(store, bits, ino, nmeta), owner)
      ensures Valid() && State() == Fs(store, bits, ino, nmeta) && this.owner == owner && logged == {}
      ensures fresh(free) && this.bmapstart == bmapstart && this.inodestart == inodestart
    {
      this.store, this.ino, this.nmeta, this.bmapstart, this.inodestart := store, ino, nmeta, bmapstart, inodestart;
      this.bits, this.owner, this.logged := bits, owner, {};
      free := new bv8[|bytes|](k requires 0 <= k < |bytes| => bytes[k]);
      new;
      assert free[..] == bytes;
    }

    /** The bitmap block with the bit of block b. */
    function BBlock(b: int): int {
      b / BPB + bmapstart
    }

    function IBlock(i: int): int {
      i / IPB + inodestart
    }

    ghost function BitmapBlocks(): set<int>
      reads this
    {
      set b | 0 <= b < |store| :: BBlock(b)
    }

    /** Besides `before`, only bitmap blocks and data blocks are in the log: no inode's block. */
    ghost predicate NoInodeLogged(before: set<int>)
      reads this
    {
      forall b | b in logged :: b in before || b in BitmapBlocks() || nmeta <= b
    }

    /** The inner loop of balloc: the first clear bit in the bitmap block that starts at bit b. */
    method ScanBlock(b: int) returns (bi: int)
      requires Mapped() && |bits| == |store| && 0 <= b < |store| && b % BPB == 0
      ensures 0 <= bi <= BPB && (bi == BPB || b + bi >= |bits| || !bits[b + bi])
      ensures forall c | b <= c < b + bi && c < |bits| :: bits[c]
    {
      bi := 0;
      while bi < BPB && b + bi < |store|
        invariant 0 <= bi <= BPB
        invariant forall c | b <= c < b + bi && c < |bits| :: bits[c]
      {
        BitOf(b, bi);
        var used := TestBit(free[b / BPB * BSIZE + bi / 8], bi % 8);
        if !used {
          return;
        }
        bi := bi + 1;
      }
    }

    /** The store of one byte y of the bitmap, which marks block b used or free. */
    method SetByte(b: int, y: bv8, v: bool)
      requires Mapped() && 0 <= b < |bits|
      requires forall k | 0 <= k < 8 :: Bit(y, k) == if k == b % 8 then v else Bit(free[b / 8], k)
      modifies this`bits, free
      ensures Mapped() && bits == old(bits)[b := v]
    {
      ghost var bytes := free[..];
      free[b / 8] := y;
      assert free[..] == bytes[b / 8 := y];
      MarkByte(bytes, bits, b, y, v);
      bits := bits[b := v];
    }

    method Bzero(b: int)
      requires 0 <= b < |store|
      modifies this`store, this`logged
      ensures store == old(store)[b := Zeroes()] && logged == old(logged) + {b}
    {
      store := store[b := Zeroes()];
      logged := logged + {b};
    }

    method Take(b: int, bi: int)
      requires Mapped() && |bits| == |store| && 0 <= b && b % BPB == 0 && 0 <= bi < BPB
      requires b + bi < |store| && !bits[b + bi]
      modifies this`store, this`bits, this`logged, free
      ensures Mapped() && bits == old(bits)[b + bi := true] && store == old(store)[b + bi := Zeroes()]
      ensures logged == old(logged) + {BBlock(b + bi), b + bi}
    {
      BitOf(b, bi);
      var y := SetBit(free[b / BPB * BSIZE + bi / 8], bi % 8);
      SetByte(b + bi, y, true);
      logged := logged + {BBlock(b)};
      Bzero(b + bi);
    }

    /** The outer loop of balloc: the first clear bit of the map, as its place in a bitmap block,
        or bi == BPB if there is none. */
    method ScanMap() returns (b: int, bi: int)
      requires Mapped() && |bits| == |store|
      ensures 0 <= b && b % BPB == 0 && 0 <= bi <= BPB && (bi == BPB ==> Full(bits))
      ensures bi < BPB ==> b + bi < |store| && !bits[b + bi] && forall c | 0 <= c < b + bi :: bits[c]
    {
      b := 0;
      while b < |store|
        invariant 0 <= b && b % BPB == 0
        invariant forall c | 0 <= c < b && c < |bits| :: bits[c]
      {
        bi := ScanBlock(b);
        if bi < BPB && b + bi < |store| {
          return;
        }
        b := b + BPB;
      }
      bi := BPB;
    }

    /** balloc: the first free block, zeroed, or 0. If no operation is open then log_write panics
        on the bitmap block; what balloc has done by then is in memory and ends with the panic. */
    method Balloc(inOp: bool) returns (r: int, panicked: bool)
      requires Valid()
      modifies this`store, this`bits, this`logged, free
      ensures Mapped()
      ensures panicked <==> !inOp && !old(Full(bits))
      ensures r == 0 ==> (panicked || Full(bits)) && Valid() && State() == old(State()) && logged == old(logged)
      ensures r != 0 ==> !panicked
      ensures r != 0 ==>
                && nmeta <= r && 0 < r < |old(bits)| && !old(bits[r]) && (forall c | 0 <= c < r :: old(bits[c]))
                && bits == old(bits)[r := true] && store == old(store)[r := Zeroes()]
                && logged == old(logged) + {BBlock(r), r}
    {
      var b, bi := ScanMap();
      if bi == BPB {
        return 0, false;
      }
      if !inOp {
        return 0, true;     // "log_write outside of trans"
      }
      FreeBlock(State(), owner, 0, 0, b + bi);
      Take(b, bi);
      return b + bi, false;
    }

    /** bfree: panics if the block is already free. */
    method Bfree(b: int)
      requires Mapped() && 0 <= b < |bits| && bits[b]
      modifies this`bits, this`logged, free
      ensures Mapped() && bits == old(bits)[b := false] && logged == old(logged) + {BBlock(b)}
    {
      var bi := b % BPB;
      BitOf(b - bi, bi);
      var at := b / BPB * BSIZE + bi / 8;
      assert bits[b] == Bit(free[..][at], bi % 8);
      var used := TestBit(free[at], bi % 8);
      assert used;     // otherwise: "freeing free block"
      var y := ClearBit(free[at], bi % 8);
      SetByte(b, y, false);
      logged := logged + {BBlock(b)};
    }

    /** The block in a direct slot, or the indirect block. */
    method BmapSlot(i: int, k: int, inOp: bool) returns (addr: int, panicked: bool)
      requires Valid() && 0 <= i < |ino| && 0 <= k <= INDIRECT
      modifies this`store, this`bits, this`logged, this`ino, this`owner, free
      ensures Valid() && GrownFor(old(State()), State(), i)
      ensures panicked <==> !inOp && !old(Full(bits)) && old(Addr(State(), i, k)) == 0
      ensures addr == Addr(State(), i, k) && (addr == 0 ==> (panicked || Full(bits)) && State() == old(State()))
      ensures logged <= old(logged) + BitmapBlocks() + NonZero(addr)
      ensures old(logged) <= logged && AllLogged(old(State()), State(), logged, {}, bmapstart)
      ensures NoInodeLogged(old(logged)) && |store| == |old(store)|
      ensures !inOp || old(Addr(State(), i, k)) != 0 ==> State() == old(State()) && logged == old(logged)
    {
      WfSize(State(), i);
      addr, panicked := ino[i].addrs[k], false;
      if addr == 0 {
        addr, panicked := Balloc(inOp);
        if addr == 0 {
          return;
        }
        ino := ino[i := Inode(ino[i].size, ino[i].addrs[k := addr])];
        owner := owner[addr := Slot(i, k)];
        PutDirectKept(old(State()), old(owner), i, k, addr);
        PutDirectLogged(old(State()), i, k, addr, logged, bmapstart);
        assert BBlock(addr) in BitmapBlocks();
      }
    }

    /** The block in entry j of the indirect block. */
    method BmapEntry(i: int, j: int, inOp: bool) returns (addr: int, panicked: bool)
      requires Valid() && 0 <= i < |ino| && 0 <= j < NINDIRECT && Addr(State(), i, INDIRECT) != 0
      modifies this`store, this`bits, this`logged, this`owner, free
      ensures Valid() && GrownFor(old(State()), State(), i)
      ensures panicked <==> !inOp && !old(Full(bits)) && old(Addr(State(), i, INDIRECT + 1 + j)) == 0
      ensures addr == Addr(State(), i, INDIRECT + 1 + j) && (addr == 0 ==> panicked || Full(bits))
      ensures logged <= old(logged) + BitmapBlocks() + NonZero(addr) + NonZero(Addr(State(), i, INDIRECT))
      ensures old(logged) <= logged && AllLogged(old(State()), State(), logged, {}, bmapstart)
      ensures NoInodeLogged(old(logged)) && |store| == |old(store)|
      ensures !inOp || old(Addr(State(), i, INDIRECT + 1 + j)) != 0 ==> State() == old(State()) && logged == old(logged)
    {
      WfSize(State(), i);
      var ind := ino[i].addrs[INDIRECT];
      assert SlotOwned(State(), owner, i, INDIRECT) && BlockOwned(State(), owner, ind);
      addr, panicked := GetWord(store[ind], j), false;
      if addr == 0 {
        addr, panicked := Balloc(inOp);
        if addr != 0 {
          store := store[ind := SetWord(store[ind], j, addr)];
          logged := logged + {ind};
          owner := owner[addr := Slot(i, INDIRECT + 1 + j)];
          PutEntryKept(old(State()), old(owner), i, j, addr);
          PutEntryLogged(old(State()), ind, j, addr, logged, bmapstart);
          assert BBlock(addr) in BitmapBlocks();
        }
      }
    }

    // ----- bmap -----------------------------------------------------------------------

    /** bmap: the block of the bn-th block of the file, allocated if it was not there;
        0 if the disk is full. If no operation is open it panics exactly where it would allocate. */
    method Bmap(i: int, bn: int, inOp: bool) returns (addr: int, panicked: bool)
      requires Valid() && 0 <= i < |ino| && 0 <= bn < MAXFILE
      modifies this`store, this`bits, this`logged, this`ino, this`owner, free
      ensures Valid() && GrownFor(old(State()), State(), i)
      ensures panicked <==> !inOp && !old(Full(bits)) && old(Addr(State(), i, SlotOf(bn))) == 0
      ensures addr == Addr(State(), i, SlotOf(bn)) && (addr == 0 ==> panicked || Full(bits))
      ensures logged <= old(logged) + BitmapBlocks() + NonZero(addr) + NonZero(Addr(State(), i, INDIRECT))
      ensures old(logged) <= logged && AllLogged(old(State()), State(), logged, {}, bmapstart)
      ensures NoInodeLogged(old(logged)) && |store| == |old(store)|
      ensures !inOp || old(Addr(State(), i, SlotOf(bn))) != 0 ==> State() == old(State()) && logged == old(logged)
    {
      WfSize(State(), i);
      if bn < NDIRECT {
        addr, panicked := BmapSlot(i, bn, inOp);
        return;
      }
      addr, panicked := BmapSlot(i, INDIRECT, inOp);
      if addr != 0 {
        ghost var g, s := State(), logged;
        addr, panicked := BmapEntry(i, bn - NDIRECT, inOp);
        LoggedThen(old(State()), g, State(), s, logged, {}, bmapstart);
      }
    }

    // ----- itrunc ---------------------------------------------------------------------

    /** Since f, only blocks of the free map have been passed to log_write, and all that had to be. */
    ghost predicate MapLogged(f: Fs, before: set<int>)
      reads this
    {
      before <= logged <= before + BitmapBlocks() && AllLogged(f, State(), logged, {}, bmapstart)
    }

    lemma MapLoggedNext(f: Fs, before: set<int>, g: Fs, s: set<int>, b: int)
      requires before <= s <= before + BitmapBlocks() && AllLogged(f, g, s, {}, bmapstart) && 0 <= b < |g.bits|
      requires store == g.store && bits == g.bits[b := false] && logged == s + {BBlock(b)}
      ensures MapLogged(f, before)
    {
      LoggedBit(f, g, State(), s, logged, bmapstart, b);
      assert BBlock(b) in BitmapBlocks();
    }

    method FreeDirect(i: int, k: int, ghost f0: Fs, ghost owner0: map<int, Slot>, ghost before: set<int>)
      requires Valid() && 0 <= i < |ino| && 0 <= k < NDIRECT
      requires Dropped(f0, owner0, State(), owner, i, k, 0) && MapLogged(f0, before)
      modifies this`bits, this`logged, this`ino, this`owner, free
      ensures Valid() && Dropped(f0, owner0, State(), owner, i, k + 1, 0) && MapLogged(f0, before)
    {
      WfSize(State(), i);
      var a := ino[i].addrs[k];
      DropDirectStep(f0, owner0, State(), owner, i, k);
      if a != 0 {
        Bfree(a);
        ino := ino[i := Inode(ino[i].size, ino[i].addrs[k := 0])];
        owner := owner - {a};
        MapLoggedNext(f0, before, old(State()), old(logged), a);
      }
    }

    method FreeEntry(i: int, j: int, ghost f0: Fs, ghost owner0: map<int, Slot>, ghost before: set<int>)
      requires Mapped() && OwnedBut(State(), owner, i, j) && 0 <= i < |ino| && 0 <= j < NINDIRECT
      requires Addr(State(), i, INDIRECT) != 0 && Dropped(f0, owner0, State(), owner, i, NDIRECT, j)
      requires MapLogged(f0, before)
      modifies this`bits, this`logged, this`owner, free
      ensures |bits| == |old(bits)| && Mapped() && OwnedBut(State(), owner, i, j + 1)
      ensures Dropped(f0, owner0, State(), owner, i, NDIRECT, j + 1) && MapLogged(f0, before)
    {
      WfSize(State(), i);
      var a := GetWord(store[ino[i].addrs[INDIRECT]], j);
      DropEntryStep(f0, owner0, State(), owner, i, j);
      if a != 0 {
        Bfree(a);
        owner := owner - {a};
        MapLoggedNext(f0, before, old(State()), old(logged), a);
      }
    }

    /** The loop of itrunc over the entries of the indirect block. */
    method FreeEntries(i: int, ghost f0: Fs, ghost owner0: map<int, Slot>, ghost before: set<int>)
      requires Valid() && 0 <= i < |ino| && Addr(State(), i, INDIRECT) != 0
      requires Dropped(f0, owner0, State(), owner, i, NDIRECT, 0) && MapLogged(f0, before)
      modifies this`bits, this`logged, this`owner, free
      ensures |bits| == |old(bits)| && Mapped() && OwnedBut(State(), owner, i, NINDIRECT)
      ensures Dropped(f0, owner0, State(), owner, i, NDIRECT, NINDIRECT) && MapLogged(f0, before)
    {
      for j := 0 to NINDIRECT
        invariant |bits| == |old(bits)| && Mapped() && OwnedBut(State(), owner, i, j)
        invariant Dropped(f0, owner0, State(), owner, i, NDIRECT, j) && MapLogged(f0, before)
      {
        FreeEntry(i, j, f0, owner0, before);
      }
    }

    /** The part of itrunc that frees the indirect block and the blocks it lists. */
    method FreeIndirect(i: int, ghost f0: Fs, ghost owner0: map<int, Slot>, ghost before: set<int>)
      requires Valid() && 0 <= i < |ino| && Addr(State(), i, INDIRECT) != 0
      requires Dropped(f0, owner0, State(), owner, i, NDIRECT, 0) && MapLogged(f0, before)
      modifies this`bits, this`logged, this`ino, this`owner, free
      ensures Valid() && Dropped(f0, owner0, State(), owner, i, NDIRECT + 1, NINDIRECT) && MapLogged(f0, before)
    {
      FreeEntries(i, f0, owner0, before);
      WfSize(State(), i);
      DropIndirectStep(f0, owner0, State(), owner, i);
      ghost var g, s := State(), logged;
      var ind := ino[i].addrs[INDIRECT];
      Bfree(ind);
      ino := ino[i := Inode(ino[i].size, ino[i].addrs[INDIRECT := 0])];
      owner := owner - {ind};
      MapLoggedNext(f0, before, g, s, ind);
    }

    /** All that itrunc does but for the size. */
    method FreeBlocks(i: int)
      requires Valid() && 0 <= i < |ino|
      modifies this`bits, this`logged, this`ino, this`owner, free
      ensures Valid() && Dropped(old(State()), old(owner), State(), owner, i, NDIRECT + 1, NINDIRECT)
      ensures MapLogged(old(State()), old(logged))
    {
      WfSize(State(), i);
      for k := 0 to NDIRECT
        invariant |ino| == |old(ino)| && |bits| == |old(bits)| && Valid()
        invariant Dropped(old(State()), old(owner), State(), owner, i, k, 0) && MapLogged(old(State()), old(logged))
      {
        FreeDirect(i, k, old(State()), old(owner), old(logged));
      }
      WfSize(State(), i);
      if ino[i].addrs[INDIRECT] == 0 {
        NoIndirect(old(State()), old(owner), State(), owner, i);
      } else {
        FreeIndirect(i, old(State()), old(owner), old(logged));
      }
    }

    /** itrunc: every block of inode i goes back to the free map, and no other; what has changed,
        and the inode's block, has been passed to log_write, and nothing else. */
    method Itrunc(i: int)
      requires Valid() && 0 <= i < |ino|
      modifies this`bits, this`logged, this`ino, this`owner, free
      ensures Valid() && Truncated(old(State()), old(owner), State(), i)
      ensures old(logged) <= logged && IBlock(i) in logged && AllLogged(old(State()), State(), logged, {}, bmapstart)
      ensures logged <= old(logged) + BitmapBlocks() + {IBlock(i)}
    {
      FreeBlocks(i);
      ghost var g, s := State(), logged;
      ino := ino[i := Inode(0, ino[i].addrs)];
      DroppedAll(old(State()), old(owner), g, owner, i, State());
      logged := logged + {IBlock(i)};
      LoggedThen(old(State()), g, State(), s, logged, {}, bmapstart);
    }

    // ----- readi and writei -------------------------------------------------------------

    /** One round of readi: the m bytes at off, which lie in one block. */
    method ReadBlock(i: int, off: int, m: int, inOp: bool) returns (ok: bool, bytes: seq<Byte>, panicked: bool)
      requires Valid() && 0 <= i < |ino| && 0 <= off && 0 < m && off + m <= ino[i].size && off % BSIZE + m <= BSIZE
      modifies this`store, this`bits, this`logged, this`ino, this`owner, free
      ensures Valid() && GrownFor(old(State()), State(), i)
      ensures Piece(bytes, old(Contents(State(), i)), off, |bytes|) && |bytes| == (if ok then m else 0)
      ensures off < MAXFILE * BSIZE && ok == (Addr(State(), i, SlotOf(off / BSIZE)) != 0)
        && (ok || panicked || Full(bits))
      ensures panicked <==> !inOp && !old(Full(bits)) && !old(Present(State(), i, off, off + m))
      ensures !inOp || old(NoHoles(State(), i)) ==> State() == old(State()) && logged == old(logged)
      ensures old(NoHoles(State(), i)) ==> ok
      ensures NoInodeLogged(old(logged)) && |store| == |old(store)|
    {
      WfSize(State(), i);
      OneBlock(State(), i, off, m);
      var addr;
      addr, panicked := Bmap(i, off / BSIZE, inOp);
      WfSize(State(), i);
      GrownContents(old(State()), State(), i);
      ok := addr != 0;
      if ok {
        BlockBytes(State(), owner, i, off, m);
        bytes := store[addr][off % BSIZE..off % BSIZE + m];
      } else {
        bytes := [];
      }
    }

    method ReadRound(i: int, off0: int, n: int, data: seq<Byte>, inOp: bool, ghost f: Fs, ghost s: seq<Byte>)
      returns (ok: bool, data': seq<Byte>, panicked: bool)
      requires Valid() && 0 <= i < |ino| && GrownFor(f, State(), i) && s == Contents(f, i)
      requires ReadSoFar(s, State(), i, off0, n, data) && |data| < n
      modifies this`store, this`bits, this`logged, this`ino, this`owner, free
      ensures Valid() && GrownFor(f, State(), i) && ReadSoFar(s, State(), i, off0, n, data')
      ensures if ok then !panicked && |data| < |data'| else data' == data && (panicked || Full(bits))
      ensures panicked <==>
                !inOp && !old(Full(bits)) && !old(Present(State(), i, off0 + |data|, off0 + |data| + 1))
      ensures !inOp || old(NoHoles(State(), i)) ==> State() == old(State()) && logged == old(logged)
      ensures old(NoHoles(State(), i)) ==> ok
      ensures NoInodeLogged(old(logged)) && |store| == |old(store)|
    {
      ghost var g := State();
      GrownContents(f, g, i);
      WfSize(g, i);
      var off := off0 + |data|;
      var m := Min(n - |data|, BSIZE - off % BSIZE);
      OneBlock(g, i, off, m);
      OneBlock(g, i, off, 1);
      var bytes;
      ok, bytes, panicked := ReadBlock(i, off, m, inOp);
      ReadRoundKeeps(s, f, g, State(), i, off0, n, data, off, bytes);
      data' := data + bytes;
    }

    /** The loop of readi. */
    method ReadBlocks(i: int, off0: int, n: int, bad: nat, inOp: bool)
      returns (data: seq<Byte>, failed: bool, panicked: bool)
      requires Valid() && 0 <= i < |ino| && 0 <= off0 && 0 <= n && off0 + n <= ino[i].size
      modifies this`store, this`bits, this`logged, this`ino, this`owner, free
      ensures Valid() && GrownFor(old(State()), State(), i)
      ensures ReadSoFar(old(Contents(State(), i)), State(), i, off0, n, data)
      ensures if failed then |data| == bad < n && !panicked else |data| <= bad
      ensures !failed && |data| < n ==> panicked || Full(bits)
      ensures panicked <==> !inOp && !old(Full(bits)) && !old(Present(State(), i, off0, off0 + Min(n, bad + 1)))
      ensures !inOp || old(NoHoles(State(), i)) ==> State() == old(State()) && logged == old(logged)
      ensures old(NoHoles(State(), i)) ==> failed || |data| == n
      ensures NoInodeLogged(old(logged)) && |store| == |old(store)|
    {
      ghost var f, s, before, solid := State(), Contents(State(), i), logged, NoHoles(State(), i);
      data, failed, panicked := [], false, false;
      while |data| < n
        invariant Valid() && GrownFor(f, State(), i) && ReadSoFar(s, State(), i, off0, n, data)
        invariant |data| <= bad && !panicked && !failed && NoInodeLogged(before) && |store| == |old(store)|
        invariant !inOp || solid ==> State() == f && logged == before
        decreases n - |data|
      {
        MissingPart(State(), i, off0, off0 + Min(n, bad + 1), off0 + |data|, off0 + |data| + 1);
        var ok;
        ok, data, panicked := ReadRound(i, off0, n, data, inOp, f, s);
        if !ok {
          return;
        }
        if bad < |data| {
          MissingPart(State(), i, off0, off0 + |data|, off0, off0 + bad + 1);
          ReadLess(s, State(), i, off0, n, data, bad);
          data, failed := data[..bad], true;
          return;
        }
      }
    }

    /** readi: exactly the bytes asked for that the file has. A block that is not there is
        allocated on the way, so that afterwards every block of what was read is there; and if
        the disk is full then the read stops short. So it is if an operation is open, which fileread
        does not see to; if none is, in any process, then a read that would allocate panics.
        If byte number `bad` cannot be copied to the user, readi returns -1 when it comes to it,
        and the bytes before it have been copied. */
    method Readi(i: int, off0: int, n0: int, bad: nat, inOp: bool) returns (ret: int, data: seq<Byte>, panicked: bool)
      requires Valid() && 0 <= i < |ino| && 0 <= off0 < UINT && 0 <= n0 < UINT
      modifies this`store, this`bits, this`logged, this`ino, this`owner, free
      ensures Valid() && GrownFor(old(State()), State(), i)
      ensures data <= Wanted(old(Contents(State(), i)), off0, n0)
      ensures Present(State(), i, off0, off0 + |data|)
      ensures if ret == -1 then |data| == bad < |Wanted(old(Contents(State(), i)), off0, n0)| && !panicked
              else ret == |data| <= bad
      ensures ret != -1 && |data| < |Wanted(old(Contents(State(), i)), off0, n0)| ==> panicked || Full(bits)
      ensures panicked <==>
                !inOp && !old(Full(bits))
                && !old(Present(State(), i, off0, off0 + Min(|Wanted(Contents(State(), i), off0, n0)|, bad + 1)))
      ensures !inOp || old(NoHoles(State(), i)) ==> State() == old(State()) && logged == old(logged)
      ensures old(NoHoles(State(), i)) ==> ret == -1 || data == Wanted(old(Contents(State(), i)), off0, n0)
      ensures NoInodeLogged(old(logged)) && |store| == |old(store)|
    {
      WfSize(State(), i);
      Wraps(off0, n0);
      if off0 > ino[i].size || (off0 + n0) % UINT < off0 {
        return 0, [], false;
      }
      var n := if off0 + n0 > ino[i].size then ino[i].size - off0 else n0;
      var failed;
      data, failed, panicked := ReadBlocks(i, off0, n, bad, inOp);
      PieceWanted(old(Contents(State(), i)), off0, n0, n, data);
      ret := if failed then -1 else |data|;
    }

    // writei ----------------------------------------------------------------------------

    /** Besides `before`, only bitmap blocks, the indirect block of i and `data` are in the log. */
    ghost predicate OnlyLogged(before: set<int>, i: int, data: set<int>)
      requires Wf(State()) && 0 <= i < |ino|
      reads this
    {
      logged <= before + BitmapBlocks() + NonZero(Addr(State(), i, INDIRECT)) + data
    }

    /** One round of writei: `bytes`, which lie in one block, at off. If not the whole of what
        should have been copied could be, then the block is not passed to log_write. */
    method WriteBlock(i: int, off: int, bytes: seq<Byte>, whole: bool) returns (addr: int, ghost h: Fs)
      requires Valid() && InFile(State(), i, off) && off % BSIZE + |bytes| <= BSIZE
      modifies this`store, this`bits, this`logged, this`ino, this`owner, free
      ensures Valid() && GrownFor(old(State()), h, i) && addr == Addr(h, i, SlotOf(off / BSIZE))
      ensures if addr == 0 then State() == h && Full(bits) else Wrote(h, State(), i, off, bytes)
      ensures Addr(State(), i, INDIRECT) == Addr(h, i, INDIRECT)
      ensures logged <= old(logged) + BitmapBlocks() + NonZero(addr) + NonZero(Addr(State(), i, INDIRECT))
      ensures old(logged) <= logged
      ensures AllLogged(old(State()), State(), logged, if whole then {} else NonZero(addr), bmapstart)
      ensures !whole && old(Addr(State(), i, SlotOf(off / BSIZE))) != 0 ==> logged == old(logged)
    {
      var panicked;
      addr, panicked := Bmap(i, off / BSIZE, true);
      h := State();
      assert IsSlot(h, i, INDIRECT);
      if addr != 0 {
        ghost var s := logged;
        PutWrote(h, owner, i, off, bytes);
        store := store[addr := Patch(store[addr], off % BSIZE, bytes)];
        if whole {
          logged := logged + {addr};
        }
        PutLogged(h, addr, off % BSIZE, bytes, logged, if whole then {} else NonZero(addr), bmapstart);
        LoggedThen(old(State()), h, State(), s, logged, if whole then {} else NonZero(addr), bmapstart);
      }
    }

    /** What writei has done when it has put the first `put` bytes of src into their blocks, which
        are among `data`. */
    ghost predicate WriteEnd(f: Fs, before: set<int>, i: int, src: seq<Byte>, off0: int, put: int, data: set<int>,
            stray: set<int>)
      reads this
      requires Wf(f) && Wf(State())
    {
      && 0 <= put <= |src| && Writing(f, State(), i, off0, src[..put]) && OnlyLogged(before, i, data) && 0 <= off0
      && AllLogged(f, State(), logged, stray, bmapstart)
    }

    /** Why writei has stopped at byte tot: the disk is full, or byte number `bad` could not be
        copied. The bytes between are in their block, addr, which is not logged for them. */
    ghost predicate Stopped(n: int, tot: int, put: int, bad: int, stray: set<int>, addr: int)
      reads this
    {
      || (put == tot && stray == {} && addr == 0 && Full(bits))
      || (tot <= put == bad < n && put < tot + BSIZE && stray == {addr})
    }

    ghost function AddrOf(i: int, off: int): int
      requires Wf(State()) && 0 <= i < |ino| && 0 <= off < MAXFILE * BSIZE
      reads this
    {
      Addr(State(), i, SlotOf(off / BSIZE))
    }

    /** The loop of writei has come to byte tot. */
    ghost predicate WriteLoop(f: Fs, before: set<int>, i: int, src: seq<Byte>, off0: int, tot: int, bad: int,
            data: set<int>)
      reads this, free
    {
      && Wf(f) && Valid() && |ino| == |f.ino| && WriteEnd(f, before, i, src, off0, tot, data, {})
      && |data| <= Span(off0, tot) && AtBoundary(off0, |src|, tot) && tot <= bad
      && (tot == 0 ==> State() == f && logged == before)
    }

    /** It has stopped there. */
    ghost predicate WriteStop(f: Fs, before: set<int>, i: int, src: seq<Byte>, off0: int, tot: int, put: int, bad: int,
            data: set<int>, stray: set<int>)
      reads this, free
    {
      && Wf(f) && Valid() && |ino| == |f.ino| && WriteEnd(f, before, i, src, off0, put, data, stray)
      && |data| <= Span(off0, |src|) && AtBoundary(off0, |src|, tot) && tot < |src| && tot <= bad
      && 0 <= off0 + tot < MAXFILE * BSIZE && Stopped(|src|, tot, put, bad, stray, AddrOf(i, off0 + tot))
      && (tot == 0 < put && Addr(f, i, SlotOf(off0 / BSIZE)) != 0 ==> logged == before)
    }

    /** One round: the n bytes of src at tot, which are the whole of what should be copied or not. */
    method WritePart(i: int, src: seq<Byte>, off0: int, tot: int, off: int, n: int, whole: bool,
            ghost f: Fs, ghost before: set<int>, ghost data: set<int>)
      returns (addr: int, ghost data': set<int>)
      requires Wf(f) && Valid() && WriteEnd(f, before, i, src, off0, tot, data, {})
      requires 0 <= n <= |src| - tot && off == off0 + tot && InFile(State(), i, off) && off % BSIZE + n <= BSIZE
      modifies this`store, this`bits, this`logged, this`ino, this`owner, free
      ensures Valid() && |ino| == |old(ino)| && (addr == 0 ==> Full(bits))
      ensures addr == Addr(State(), i, SlotOf(off / BSIZE))
      ensures WriteEnd(f, before, i, src, off0, if addr != 0 then tot + n else tot, data',
                if whole then {} else NonZero(addr))
      ensures |data'| <= if addr != 0 then |data| + 1 else |data|
      ensures !whole && old(Addr(State(), i, SlotOf(off / BSIZE))) != 0 ==> addr != 0 && logged == old(logged)
    {
      ghost var g := State();
      ghost var h;
      assert IsSlot(g, i, SlotOf(off / BSIZE));
      assert src[..tot] + src[tot..tot + n] == src[..tot + n];
      addr, h := WriteBlock(i, off, src[tot..tot + n], whole);
      data' := data + NonZero(addr);
      WriteNext(f, g, h, State(), i, off0, src[..tot], off, src[tot..tot + n], addr);
      LoggedThen(f, g, State(), old(logged), logged, if whole then {} else NonZero(addr), bmapstart);
      LoggedNext(before, old(logged), logged, BitmapBlocks(), NonZero(Addr(g, i, INDIRECT)),
        NonZero(Addr(State(), i, INDIRECT)), data, addr);
      assert IsSlot(h, i, SlotOf(off / BSIZE));
    }

    method WriteRound(i: int, src: seq<Byte>, off0: int, tot: int, off: int, bad: int,
            ghost f: Fs, ghost before: set<int>, ghost data: set<int>)
      returns (ok: bool, tot': int, ghost put: int, ghost data': set<int>, ghost stray: set<int>)
      requires Wf(f) && Valid() && WriteEnd(f, before, i, src, off0, tot, data, {}) && AtBoundary(off0, |src|, tot)
      requires |data| <= Span(off0, tot) && tot <= bad
      requires tot < |src| && off == off0 + tot && off0 + |src| <= MAXFILE * BSIZE
      modifies this`store, this`bits, this`logged, this`ino, this`owner, free
      ensures Valid() && |ino| == |old(ino)| && WriteEnd(f, before, i, src, off0, put, data', stray)
      ensures ok ==> tot < tot' == put <= bad && stray == {}
      ensures ok ==> |data'| <= Span(off0, tot') && AtBoundary(off0, |src|, tot')
      ensures !ok ==> tot' == tot && |data'| <= Span(off0, |src|)
      ensures !ok ==> Stopped(|src|, tot, put, bad, stray, AddrOf(i, off))
      ensures !ok && put > tot && old(AddrOf(i, off)) != 0 ==> logged == old(logged)
    {
      var m := Min(|src| - tot, BSIZE - off % BSIZE);
      var n := Min(m, bad - tot);
      var whole := n == m;
      OneWrite(off0, |src|, tot, off, m, n, bad);
      var addr;
      addr, data' := WritePart(i, src, off0, tot, off, n, whole, f, before, data);
      ok := addr != 0 && whole;
      tot' := if ok then tot + m else tot;
      put, stray := if addr != 0 then tot + n else tot, if whole then {} else NonZero(addr);
    }

    method WriteStep(i: int, src: seq<Byte>, off0: int, tot: int, off: int, bad: int,
            ghost f: Fs, ghost before: set<int>, ghost data: set<int>)
      returns (ok: bool, tot': int, ghost put: int, ghost data': set<int>, ghost stray: set<int>)
      requires WriteLoop(f, before, i, src, off0, tot, bad, data)
      requires tot < |src| && off == off0 + tot && off0 + |src| <= MAXFILE * BSIZE
      modifies this`store, this`bits, this`logged, this`ino, this`owner, free
      ensures ok ==> tot < tot' == put && stray == {} && WriteLoop(f, before, i, src, off0, tot', bad, data')
      ensures !ok ==> tot' == tot && WriteStop(f, before, i, src, off0, tot', put, bad, data', stray)
    {
      ok, tot', put, data', stray := WriteRound(i, src, off0, tot, off, bad, f, before, data);
    }

    /** The loop of writei. */
    method WriteBlocks(i: int, src: seq<Byte>, off0: int, bad: nat)
      returns (tot: int, ghost put: int, ghost data: set<int>, ghost stray: set<int>)
      requires Valid() && 0 <= i < |ino| && 0 <= off0 && off0 + |src| <= MAXFILE * BSIZE
      modifies this`store, this`bits, this`logged, this`ino, this`owner, free
      ensures tot < |src| ==> WriteStop(old(State()), old(logged), i, src, off0, tot, put, bad, data, stray)
      ensures tot >= |src| ==> tot == |src| == put && stray == {}
      ensures tot >= |src| ==> WriteLoop(old(State()), old(logged), i, src, off0, tot, bad, data)
    {
      ghost var f, before := State(), logged;
      var off := off0;
      tot, put, data, stray := 0, 0, {}, {};
      while tot < |src|
        invariant tot <= |src| && off == off0 + tot && put == tot && stray == {}
        invariant WriteLoop(f, before, i, src, off0, tot, bad, data)
      {
        var ok;
        ok, tot, put, data, stray := WriteStep(i, src, off0, tot, off, bad, f, before, data);
        if !ok {
          return;
        }
        off := off0 + tot;
      }
    }

    /** The end of writei: the size goes up to the end of what was written, and the inode is
        written back. */
    method Resize(i: int, end: int, ghost f: Fs, ghost off0: int, ghost bytes: seq<Byte>, ghost n: int,
            ghost stray: set<int>)
      requires Wf(f) && Valid() && Writing(f, State(), i, off0, bytes)
      requires AllLogged(f, State(), logged, stray, bmapstart)
      requires 0 <= off0 <= f.ino[i].size && 0 <= n <= |bytes| && end == off0 + n && off0 + |bytes| <= MAXFILE * BSIZE
      modifies this`ino, this`logged
      ensures Valid() && Patched(f, State(), i, off0, bytes, n) && (NoHoles(f, i) ==> NoHoles(State(), i))
      ensures forall k | 0 <= k < NSLOT :: Addr(State(), i, k) == old(Addr(State(), i, k))
      ensures logged == old(logged) + {IBlock(i)} && AllLogged(f, State(), logged, stray, bmapstart)
    {
      ghost var g := State();
      if end > ino[i].size {
        ino := ino[i := Inode(end, ino[i].addrs)];
      }
      Resized(f, g, State(), owner, i, off0, bytes, n);
      logged := logged + {IBlock(i)};
      forall b | 0 <= b < |f.store| ensures ChangeLogged(f, State(), logged, stray, bmapstart, b) {
        assert ChangeLogged(f, g, old(logged), stray, bmapstart, b);
      }
    }

    /** All of writei after its tests. */
    method WriteAll(i: int, src: seq<Byte>, off0: int, bad: nat)
      returns (r: int, ghost put: int, ghost data: set<int>, ghost stray: set<int>)
      requires Valid() && 0 <= i < |ino| && 0 <= off0 <= ino[i].size && off0 + |src| <= MAXFILE * BSIZE
      modifies this`store, this`bits, this`logged, this`ino, this`owner, free
      ensures Valid() && 0 <= r <= put <= |src| && r <= bad && AtBoundary(off0, |src|, r)
      ensures Patched(old(State()), State(), i, off0, src[..put], r)
      ensures if r < |src| then Stopped(|src|, r, put, bad, stray, AddrOf(i, off0 + r)) else put == r && stray == {}
      ensures IBlock(i) in logged && AllLogged(old(State()), State(), logged, stray, bmapstart)
      ensures r == 0 < put && old(Addr(State(), i, SlotOf(off0 / BSIZE))) != 0 ==> logged == old(logged) + {IBlock(i)}
      ensures old(NoHoles(State(), i)) ==> NoHoles(State(), i)
      ensures |data| <= Span(off0, |src|) && OnlyLogged(old(logged), i, data + {IBlock(i)})
    {
      ghost var f := State();
      r, put, data, stray := WriteBlocks(i, src, off0, bad);
      Resize(i, off0 + r, f, off0, src[..put], r, stray);
    }

    /** writei: overwrites and extends the file by exactly the returned prefix of src, unless byte
        number `bad` of it cannot be copied from the user. Then the bytes before that one in the same
        block, `put - r` of them, have gone into the block's buffer all the same: they are not counted,
        and that block is the only one changed without log_write, which would have to keep the buffer
        until the change is on the disk. */
    method Writei(i: int, src: seq<Byte>, off0: int, bad: nat)
      returns (r: int, ghost put: int, ghost data: set<int>, ghost stray: set<int>)
      requires Valid() && 0 <= i < |ino| && 0 <= off0 < UINT && |src| < UINT
      modifies this`store, this`bits, this`logged, this`ino, this`owner, free
      ensures Valid()
      ensures r == -1 <==> off0 > old(ino[i].size) || off0 + |src| > MAXFILE * BSIZE
      ensures r == -1 ==> State() == old(State()) && logged == old(logged) && put == 0
      ensures r != -1 ==> 0 <= r <= put <= |src| && r <= bad && Patched(old(State()), State(), i, off0, src[..put], r)
      ensures 0 <= r < |src| ==> Stopped(|src|, r, put, bad, stray, AddrOf(i, off0 + r))
      ensures r == |src| ==> put == r && stray == {}
      ensures r != -1 ==> IBlock(i) in logged && AllLogged(old(State()), State(), logged, stray, bmapstart)
      ensures r != -1 ==> AtBoundary(off0, |src|, r)
      ensures r == 0 < put && old(Addr(State(), i, SlotOf(off0 / BSIZE))) != 0 ==> logged == old(logged) + {IBlock(i)}
      ensures old(NoHoles(State(), i)) ==> NoHoles(State(), i)
      ensures |data| <= Span(off0, |src|) && OnlyLogged(old(logged), i, data + {IBlock(i)})
    {
      Wraps(off0, |src|);
      if off0 > ino[i].size || (off0 + |src|) % UINT < off0 {
        return -1, 0, {}, {};
      }
      if off0 + |src| > MAXFILE * BSIZE {
        return -1, 0, {}, {};
      }
      r, put, data, stray := WriteAll(i, src, off0, bad);
    }

    // ----- filewrite --------------------------------------------------------------------

    lemma OneBitmapBlock()
      requires |store| <= BPB
      ensures BitmapBlocks() <= {bmapstart}
    {}

    /** One chunk of filewrite, in a transaction of its own: with the bitmap in one block
        it logs at most seven blocks. */
    method WriteChunk(i: int, src: seq<Byte>, off: int, bad: nat) returns (r: int, ghost put: int)
      requires Valid() && 0 <= i < |ino| && 0 <= off < UINT && |src| <= CHUNK
      modifies this`store, this`bits, this`logged, this`ino, this`owner, free
      ensures Valid()
      ensures r == -1 <==> off > old(ino[i].size) || off + |src| > MAXFILE * BSIZE
      ensures r == -1 ==> State() == old(State()) && put == 0
      ensures r != -1 ==> 0 <= r <= put <= |src| && Patched(old(State()), State(), i, off, src[..put], r)
      ensures r <= bad && (0 <= r < |src| ==> Full(bits) || bad < |src|)
      ensures 0 <= r < put ==> put == bad < |src| && put < r + BSIZE
      ensures 0 < |store| <= BPB ==> |logged| <= 7
    {
      logged := {};      // begin_op
      ghost var data, stray;
      r, put, data, stray := Writei(i, src, off, bad);
      assert Span(off, |src|) <= 4;
      if 0 < |store| <= BPB {
        OneBitmapBlock();
        Sizes(logged, bmapstart, NonZero(Addr(State(), i, INDIRECT)), data, IBlock(i));
      }
    }

    method SendChunk(i: int, src: seq<Byte>, off: int, done: int, n1: int, bad: nat, ghost f: Fs)
      returns (r: int, ghost put: int)
      requires Valid() && 0 <= off && 0 <= done < |src| && off + done < UINT && done <= bad
      requires n1 == Min(|src| - done, CHUNK) && Sent(f, State(), i, off, src[..done], done)
      modifies this`store, this`bits, this`logged, this`ino, this`owner, free
      ensures Valid() && (r == -1 || (0 <= r <= n1 && off + done + r < UINT))
      ensures 0 <= put <= n1 && Sent(f, State(), i, off, src[..done + put], if r == -1 then done else done + r)
      ensures r < n1 ==> off > f.ino[i].size || off + |src| > MAXFILE * BSIZE || Full(bits) || bad < |src|
      ensures r == n1 ==> put == r && done + r <= bad
      ensures put != 0 && put != r ==> r != -1 && done + put == bad < |src| && put < r + BSIZE
      ensures 0 < |f.store| <= BPB ==> |logged| <= 7
    {
      ghost var g := State();
      r, put := WriteChunk(i, src[done..done + n1], off + done, bad - done);
      SentMore(f, g, State(), i, off, src, done, n1, r, put);
    }

    /** filewrite to an inode: the file gets the prefix of src by which the offset moved;
        that is all of src, or the call fails. If that is because byte number `bad` cannot be copied
        from the user, the bytes before it in the same block are in the file too. */
    method Filewrite(i: int, src: seq<Byte>, off: int, bad: nat)
      returns (ret: int, off': int, ghost put: int, ghost ops: seq<set<int>>)
      requires Valid() && 0 <= i < |ino| && 0 <= off < UINT
      modifies this`store, this`bits, this`logged, this`ino, this`owner, free
      ensures Valid() && off <= off' <= off + put <= off + |src|
      ensures ret == if off' == off + |src| then |src| else -1
      ensures Sent(old(State()), State(), i, off, src[..put], off' - off)
      ensures put > off' - off ==> put == bad < |src| && off + put < off' + BSIZE
      ensures ret == -1 ==> off > old(ino[i].size) || off + |src| > MAXFILE * BSIZE || Full(bits) || bad < |src|
      ensures 0 < |store| <= BPB ==> SmallOps(ops)
    {
      ghost var f := State();
      var done := 0;
      off', put, ops := off, 0, [];
      while done < |src|
        invariant Valid() && 0 <= done <= |src| && off' == off + done && off' < UINT && put == done <= bad
        invariant Sent(f, State(), i, off, src[..done], done)
        invariant 0 < |f.store| <= BPB ==> SmallOps(ops)
      {
        var n1 := Min(|src| - done, CHUNK);
        var r;
        ghost var more;
        r, more := SendChunk(i, src, off, done, n1, bad, f);
        ops, put := ops + [logged], done + more;
        if r > 0 {
          off' := off' + r;
        }
        if r != n1 {
          break;
        }
        done := done + r;
      }
      ret := if done == |src| then |src| else -1;
    }
  }

  lemma OverlayAt(s: seq<Byte>, off: int, t: seq<Byte>, o: int)
    requires 0 <= off <= |s| && 0 <= o < |Overlay(s, off, t)|
    ensures Overlay(s, off, t)[o] == if off <= o < off + |t| then t[o - off] else s[o]
  {}

  /** What it comes to for a reader of the file, and of any other. */
  lemma PatchedContents(f: Fs, f': Fs, i: int, off: int, bytes: seq<Byte>, n: int, x: int)
    requires Patched(f, f', i, off, bytes, n) && 0 <= off && 0 <= x < |f.ino|
    ensures Contents(f', x) ==
            if x == i then Overlay(Contents(f, i), off, bytes)[..Max(f.ino[i].size, off + n)] else Contents(f, x)
  {
    WfSize(f, x);
    WfSize(f', x);
    var all := if x == i then Overlay(Contents(f, i), off, bytes) else Contents(f, x);
    forall o | 0 <= o < f'.ino[x].size ensures DataAt(f', x, o) == all[o] {
      assert InFile(f, x, o);
      if x == i {
        OverlayAt(Contents(f, i), off, bytes, o);
      }
    }
  }

  lemma WroteFileContents(f: Fs, f': Fs, i: int, off: int, bytes: seq<Byte>, x: int)
    requires WroteFile(f, f', i, off, bytes) && 0 <= off && 0 <= x < |f.ino|
    ensures Contents(f', x) == if x == i then Overlay(Contents(f, i), off, bytes) else Contents(f, x)
  {
    WfSize(f, i);
    PatchedContents(f, f', i, off, bytes, |bytes|, x);
  }
}
