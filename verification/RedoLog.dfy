/** The on-disk redo log of the xv6 kernel (log.c): what a disk image means
    to crash recovery.  A block is 256 words of 32 bits; the header block
    holds the count in word 0 and the home block numbers in the words after it. */
module RedoLog {
  const WORDS := 256
  const MAXOPBLOCKS := 10
  const LOGSIZE := 30
  type Block = b: seq<int> | |b| == WORDS witness seq(WORDS, _ => 0)
  type Disk = seq<Block>

  /** The superblock's logstart and nlog: the header is block `start`. */
  datatype LogArea = LogArea(start: nat, size: nat)

  predicate InLog(a: LogArea, i: int) {
    a.start <= i < a.start + a.size
  }

  /** Where the log keeps its copy of the transaction's j-th block. */
  function Slot(a: LogArea, j: int): int {
    a.start + 1 + j
  }

  predicate Fits(d: Disk, a: LogArea) {
    0 < a.size && a.start + a.size <= |d|
  }

  /** A transaction the log area can hold: distinct home blocks, at most one per log slot. */
  ghost predicate ValidTxn(size: nat, a: LogArea, bs: seq<int>) {
    && |bs| <= LOGSIZE && |bs| < a.size
    && (forall i | 0 <= i < |bs| :: 0 <= bs[i] < size && !InLog(a, bs[i]))
    && (forall i, j | 0 <= i < j < |bs| :: bs[i] != bs[j])
  }

  // ----- the header block ------------------------------------------------

  /** read_head: the block numbers a header names. */
  function DecodeHead(b: Block): (bs: seq<int>)
    requires 0 <= b[0] <= LOGSIZE
    ensures |bs| == b[0]
  {
    b[1..1 + b[0]]
  }

  /** write_head: only the count and the first |bs| entries are overwritten. */
  function EncodeHead(b: Block, bs: seq<int>): (r: Block)
    requires |bs| <= LOGSIZE
    ensures r[0] == |bs|
    ensures forall i | 0 <= i < |bs| :: r[1 + i] == bs[i]
    ensures forall i | 1 + |bs| <= i < WORDS :: r[i] == b[i]
  {
    [|bs|] + bs + b[1 + |bs|..]
  }

  lemma HeadRoundTrip(b: Block, bs: seq<int>)
    requires |bs| <= LOGSIZE
    ensures DecodeHead(EncodeHead(b, bs)) == bs
  {
    assert EncodeHead(b, bs)[1..1 + |bs|] == bs;
  }

  /** A disk whose header decodes to a valid transaction (possibly the empty one). */
  ghost predicate ValidLog(d: Disk, a: LogArea) {
    && Fits(d, a)
    && 0 <= d[a.start][0] <= LOGSIZE
    && ValidTxn(|d|, a, DecodeHead(d[a.start]))
  }

  ghost function Txn(d: Disk, a: LogArea): seq<int>
    requires ValidLog(d, a)
  {
    DecodeHead(d[a.start])
  }

  // ----- installing and recovering ----------------------------------------

  /** The disk after install_trans has written the first k home blocks. */
  ghost function Install(d: Disk, a: LogArea, bs: seq<int>, k: nat): (r: Disk)
    requires Fits(d, a) && ValidTxn(|d|, a, bs) && k <= |bs|
    ensures |r| == |d|
  {
    if k == 0 then d else Install(d, a, bs, k - 1)[bs[k - 1] := d[Slot(a, k - 1)]]
  }

  /** The disk after a complete recover_from_log. */
  ghost function Recover(d: Disk, a: LogArea): (r: Disk)
    requires ValidLog(d, a)
    ensures |r| == |d|
  {
    var bs := Txn(d, a);
    Install(d, a, bs, |bs|)[a.start := EncodeHead(d[a.start], [])]
  }

  /** Every block of a partly installed disk. */
  lemma {:induction false} InstallAt(d: Disk, a: LogArea, bs: seq<int>, k: nat, i: nat)
    requires Fits(d, a) && ValidTxn(|d|, a, bs) && k <= |bs| && i < |d|
    ensures (forall j | 0 <= j < k :: bs[j] != i) ==> Install(d, a, bs, k)[i] == d[i]
    ensures forall j | 0 <= j < k :: bs[j] == i ==> Install(d, a, bs, k)[i] == d[Slot(a, j)]
  {
    if k > 0 {
      InstallAt(d, a, bs, k - 1, i);
    }
  }

  lemma InstallAll(d: Disk, a: LogArea, bs: seq<int>, k: nat)
    requires Fits(d, a) && ValidTxn(|d|, a, bs) && k <= |bs|
    ensures forall i | 0 <= i < |d| && (forall j | 0 <= j < k :: bs[j] != i) :: Install(d, a, bs, k)[i] == d[i]
    ensures forall j | 0 <= j < k :: Install(d, a, bs, k)[bs[j]] == d[Slot(a, j)]
  {
    forall i | 0 <= i < |d|
      ensures (forall j | 0 <= j < k :: bs[j] != i) ==> Install(d, a, bs, k)[i] == d[i]
      ensures forall j | 0 <= j < k :: bs[j] == i ==> Install(d, a, bs, k)[i] == d[Slot(a, j)]
    {
      InstallAt(d, a, bs, k, i);
    }
  }

  /** Recovery, block by block: the committed copy for every block the header
      names, the header emptied, everything else untouched. */
  lemma RecoverAt(d: Disk, a: LogArea)
    requires ValidLog(d, a)
    ensures Recover(d, a)[a.start] == EncodeHead(d[a.start], [])
    ensures forall j | 0 <= j < |Txn(d, a)| :: Recover(d, a)[Txn(d, a)[j]] == d[Slot(a, j)]
    ensures forall i | 0 <= i < |d| && i != a.start && i !in Txn(d, a) :: Recover(d, a)[i] == d[i]
  {
    var bs := Txn(d, a);
    InstallAll(d, a, bs, |bs|);
    forall j | 0 <= j < |bs| ensures Recover(d, a)[bs[j]] == d[Slot(a, j)] {
      assert !InLog(a, bs[j]);
    }
  }

  /** Two disks with the same log area that agree wherever the log does not
      name the block recover to the same disk. */
  lemma RecoverSame(d: Disk, e: Disk, a: LogArea)
    requires ValidLog(d, a) && |e| == |d|
    requires forall i | 0 <= i < |d| && (InLog(a, i) || i !in Txn(d, a)) :: e[i] == d[i]
    ensures ValidLog(e, a) && Recover(e, a) == Recover(d, a)
  {
    assert InLog(a, a.start);
    assert e[a.start] == d[a.start];
    RecoverAt(d, a);
    RecoverAt(e, a);
    var bs := Txn(d, a);
    forall i | 0 <= i < |d| ensures Recover(e, a)[i] == Recover(d, a)[i] {
      if i in bs {
        var j :| 0 <= j < |bs| && bs[j] == i;
        assert InLog(a, Slot(a, j));
      }
    }
  }

  // ----- recovery is idempotent, however often it crashes -------------------

  /** The disk after the first w of recovery's block writes
      (|Txn| installs, then the header). */
  ghost function RecoverySteps(d: Disk, a: LogArea, w: nat): (r: Disk)
    requires ValidLog(d, a) && w <= |Txn(d, a)| + 1
  {
    if w <= |Txn(d, a)| then Install(d, a, Txn(d, a), w) else Recover(d, a)
  }

  lemma CrashInRecovery(d: Disk, a: LogArea, w: nat)
    requires ValidLog(d, a) && w <= |Txn(d, a)| + 1
    ensures ValidLog(RecoverySteps(d, a, w), a)
    ensures Recover(RecoverySteps(d, a, w), a) == Recover(d, a)
  {
    var bs := Txn(d, a);
    var e := RecoverySteps(d, a, w);
    if w <= |bs| {
      InstallAll(d, a, bs, w);
      RecoverSame(d, e, a);
    } else {
      RecoverAt(d, a);
      assert e[a.start][0] == 0;
      assert DecodeHead(e[a.start]) == [];
      RecoverAt(e, a);
      assert EncodeHead(e[a.start], []) == e[a.start];
      assert Recover(e, a) == e;
    }
  }

  /** Recovery restarted after each of the crashes ws, crash c striking after ws[c] writes. */
  ghost predicate Crashes(d: Disk, a: LogArea, ws: seq<nat>, e: Disk)
    decreases |ws|
  {
    if ws == [] then e == d
    else
      && ValidLog(d, a) && ws[0] <= |Txn(d, a)| + 1
      && Crashes(RecoverySteps(d, a, ws[0]), a, ws[1..], e)
  }

  lemma {:induction false} AnyNumberOfCrashes(d: Disk, a: LogArea, ws: seq<nat>, e: Disk)
    requires ValidLog(d, a) && Crashes(d, a, ws, e)
    ensures ValidLog(e, a) && Recover(e, a) == Recover(d, a)
    decreases |ws|
  {
    if ws != [] {
      CrashInRecovery(d, a, ws[0]);
      AnyNumberOfCrashes(RecoverySteps(d, a, ws[0]), a, ws[1..], e);
    }
  }

  // ----- commit is atomic ---------------------------------------------------

  /** The disk with the transaction's blocks at their homes. */
  ghost predicate Updated(d: Disk, bs: seq<int>, data: seq<Block>, e: Disk, a: LogArea) {
    && |e| == |d| && |data| == |bs|
    && (forall j | 0 <= j < |bs| :: 0 <= bs[j] < |d| && e[bs[j]] == data[j])
    && (forall i | 0 <= i < |d| && !InLog(a, i) && i !in bs :: e[i] == d[i])
  }

  ghost predicate SameHome(d: Disk, e: Disk, a: LogArea) {
    |d| == |e| && forall i | 0 <= i < |d| && !InLog(a, i) :: d[i] == e[i]
  }

  /** write_log: the first k cached blocks copied into the log slots. */
  ghost function WriteLog(d: Disk, a: LogArea, data: seq<Block>, k: nat): (r: Disk)
    requires Fits(d, a) && k <= |data| < a.size
  {
    seq(|d|, i requires 0 <= i < |d| => if a.start < i <= a.start + k then data[i - a.start - 1] else d[i])
  }

  /** The disk after the first w of commit's 2 * |bs| + 2 block writes. */
  ghost function CommitSteps(d: Disk, a: LogArea, bs: seq<int>, data: seq<Block>, w: nat): (r: Disk)
    requires Fits(d, a) && ValidTxn(|d|, a, bs) && |data| == |bs| && w <= 2 * |bs| + 2
    ensures |r| == |d|
  {
    if w <= |bs| then WriteLog(d, a, data, w)
    else
      var h := WriteLog(d, a, data, |bs|)[a.start := EncodeHead(d[a.start], bs)];
      if w <= 2 * |bs| + 1 then Install(h, a, bs, w - |bs| - 1)
      else Install(h, a, bs, |bs|)[a.start := EncodeHead(h[a.start], [])]
  }

  /** Before the header is written, recovery sees an empty log. */
  lemma CrashBeforeHead(d: Disk, a: LogArea, data: seq<Block>, w: nat)
    requires ValidLog(d, a) && Txn(d, a) == [] && w <= |data| < a.size
    ensures ValidLog(WriteLog(d, a, data, w), a)
    ensures SameHome(d, Recover(WriteLog(d, a, data, w), a), a)
  {
    var e := WriteLog(d, a, data, w);
    assert e[a.start] == d[a.start];
    RecoverAt(e, a);
  }

  lemma HeadWritten(d: Disk, a: LogArea, bs: seq<int>)
    requires Fits(d, a) && ValidTxn(|d|, a, bs)
    ensures ValidLog(d[a.start := EncodeHead(d[a.start], bs)], a)
    ensures Txn(d[a.start := EncodeHead(d[a.start], bs)], a) == bs
  {
    HeadRoundTrip(d[a.start], bs);
  }

  lemma RecoverUpdates(d: Disk, a: LogArea, data: seq<Block>, h: Disk)
    requires ValidLog(h, a) && |h| == |d| && |data| == |Txn(h, a)|
    requires forall j | 0 <= j < |data| :: h[Slot(a, j)] == data[j]
    requires forall i | 0 <= i < |d| && !InLog(a, i) :: h[i] == d[i]
    ensures Updated(d, Txn(h, a), data, Recover(h, a), a)
  {
    RecoverAt(h, a);
    assert InLog(a, a.start);
  }

  /** The header write is the commit point: it makes the whole log count. */
  lemma CrashAfterHead(d: Disk, a: LogArea, bs: seq<int>, data: seq<Block>, h: Disk)
    requires Fits(d, a) && ValidTxn(|d|, a, bs) && |data| == |bs|
    requires h == WriteLog(d, a, data, |bs|)[a.start := EncodeHead(d[a.start], bs)]
    ensures ValidLog(h, a) && Txn(h, a) == bs
    ensures Updated(d, bs, data, Recover(h, a), a)
  {
    var l := WriteLog(d, a, data, |bs|);
    assert l[a.start] == d[a.start];
    HeadWritten(l, a, bs);
    RecoverUpdates(d, a, data, h);
  }

  /** Recovery from e yields the old home blocks, or all the new ones. */
  ghost predicate AllOrNothing(d: Disk, a: LogArea, bs: seq<int>, data: seq<Block>, committed: bool, e: Disk) {
    && ValidLog(e, a)
    && (if committed then Updated(d, bs, data, Recover(e, a), a) else SameHome(d, Recover(e, a), a))
  }

  lemma AtomicBefore(d: Disk, a: LogArea, bs: seq<int>, data: seq<Block>, w: nat)
    requires ValidLog(d, a) && Txn(d, a) == []
    requires ValidTxn(|d|, a, bs) && |data| == |bs| && w <= |bs|
    ensures AllOrNothing(d, a, bs, data, false, CommitSteps(d, a, bs, data, w))
  {
    var e := WriteLog(d, a, data, w);
    assert e == CommitSteps(d, a, bs, data, w);
    CrashBeforeHead(d, a, data, w);
  }

  /** From the header write on, commit makes the writes that recovery would. */
  lemma AfterHead(d: Disk, a: LogArea, bs: seq<int>, data: seq<Block>, k: nat, h: Disk, e: Disk)
    requires Fits(d, a) && ValidTxn(|d|, a, bs) && |data| == |bs| && k <= |bs| + 1
    requires h == WriteLog(d, a, data, |bs|)[a.start := EncodeHead(d[a.start], bs)]
    requires e == if k <= |bs| then Install(h, a, bs, k)
      else Install(h, a, bs, |bs|)[a.start := EncodeHead(h[a.start], [])]
    ensures AllOrNothing(d, a, bs, data, true, e)
  {
    CrashAfterHead(d, a, bs, data, h);
    assert e == RecoverySteps(h, a, k);
    CrashInRecovery(h, a, k);
  }

  lemma AtomicAfter(d: Disk, a: LogArea, bs: seq<int>, data: seq<Block>, w: nat)
    requires Fits(d, a) && ValidTxn(|d|, a, bs) && |data| == |bs| < w <= 2 * |bs| + 2
    ensures AllOrNothing(d, a, bs, data, true, CommitSteps(d, a, bs, data, w))
  {
    var h := WriteLog(d, a, data, |bs|)[a.start := EncodeHead(d[a.start], bs)];
    AfterHead(d, a, bs, data, w - |bs| - 1, h, CommitSteps(d, a, bs, data, w));
  }

  /** Crash atomicity of commit: whatever number of its writes reached the disk,
      recovery yields the old home blocks if the header was not yet written and
      all the new ones if it was. */
  lemma CommitAtomic(d: Disk, a: LogArea, bs: seq<int>, data: seq<Block>, w: nat)
    requires ValidLog(d, a) && Txn(d, a) == []
    requires ValidTxn(|d|, a, bs) && |data| == |bs| && w <= 2 * |bs| + 2
    ensures AllOrNothing(d, a, bs, data, |bs| < w, CommitSteps(d, a, bs, data, w))
  {
    if w <= |bs| {
      AtomicBefore(d, a, bs, data, w);
    } else {
      AtomicAfter(d, a, bs, data, w);
    }
  }

  /** ... and the recovery after that crash may itself crash any number of times. */
  lemma CommitAtomicUnderCrashes(d: Disk, a: LogArea, bs: seq<int>, data: seq<Block>, w: nat, ws: seq<nat>, e: Disk)
    requires ValidLog(d, a) && Txn(d, a) == []
    requires ValidTxn(|d|, a, bs) && |data| == |bs| && w <= 2 * |bs| + 2
    requires Crashes(CommitSteps(d, a, bs, data, w), a, ws, e)
    ensures AllOrNothing(d, a, bs, data, |bs| < w, e)
  {
    CommitAtomic(d, a, bs, data, w);
    AnyNumberOfCrashes(CommitSteps(d, a, bs, data, w), a, ws, e);
  }
}
