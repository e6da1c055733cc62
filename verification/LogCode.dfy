/** log.c over the buffer cache: the loops and calls of commit and recovery, and
    the disk they leave after every single block write. */
module LogCode {
  import opened RedoLog
  import opened BufferCache

  // ----- how many blocks are referred to ------------------------------------------

  /** The blocks that are referred to are no more than a set they are all in has. */
  lemma ReferredWithin(refs: seq<int>, t: set<int>)
    requires forall m | 0 <= m < |refs| && refs[m] > 0 :: m in t
    ensures |Referred(refs)| <= |t|
  {
    PlacesFit(refs, seq(|refs|, m => m), t);
  }

  lemma FewerReferred(refs: seq<int>, r: seq<int>)
    requires |r| == |refs| && forall m | 0 <= m < |r| && r[m] > 0 :: refs[m] > 0
    ensures |Referred(r)| <= |Referred(refs)|
  {
    ReferredWithin(r, Referred(refs));
  }

  lemma OneMoreReferred(refs: seq<int>, x: int, r: seq<int>)
    requires |r| == |refs| && forall m | 0 <= m < |r| && m != x && r[m] > 0 :: refs[m] > 0
    ensures |Referred(r)| <= |Referred(refs)| + 1
  {
    ReferredWithin(r, Referred(refs) + {x});
  }

  /** The processes that are not committing: their references and the locks they hold. */
  datatype Others = Others(refs: seq<int>, held: set<int>)

  function Nobody(n: nat): Others { Others(seq(n, _ => 0), {}) }

  /** log_write has pinned the blocks of bs, once each; all other references are those of o. */
  ghost predicate Pins(refs: seq<int>, bs: seq<int>, o: Others) {
    && |o.refs| == |refs|
    && forall m | 0 <= m < |refs| :: 0 <= o.refs[m] && refs[m] == o.refs[m] + if m in bs then 1 else 0
  }

  /** Nobody else refers to a block of the log, or has locked a block of the transaction. */
  ghost predicate Apart(o: Others, a: LogArea, bs: seq<int>) {
    && (forall m | 0 <= m < |o.refs| && InLog(a, m) :: o.refs[m] == 0)
    && (forall m | m in o.held :: !InLog(a, m) && m !in bs)
  }

  /** Installing the k-th block takes its pin. */
  lemma PinsNext(refs: seq<int>, bs: seq<int>, k: nat, unpin: bool, o: Others, r: seq<int>)
    requires k < |bs| && 0 <= bs[k] < |refs| && bs[k] !in bs[k + 1..]
    requires Pins(refs, if unpin then bs[k..] else [], o)
    requires r == refs[bs[k] := refs[bs[k]] - if unpin then 1 else 0]
    ensures Pins(r, if unpin then bs[k + 1..] else [], o) && |Referred(r)| <= |Referred(refs)|
  {
    assert bs[k..] == [bs[k]] + bs[k + 1..];
    FewerReferred(refs, r);
  }

  /** bread and brelse of x. */
  lemma OneBack(refs: seq<int>, held: set<int>, x: int, refs': seq<int>, held': set<int>)
    requires 0 <= x < |refs| && x !in held && held' == held + {x} - {x}
    requires |refs'| == |refs| && refs'[x] == refs[x] && forall m | 0 <= m < |refs| && m != x :: refs'[m] == refs[m]
    ensures refs' == refs && held' == held
  {}

  /** bread of x and y, and brelse of both, with d more references of y dropped. */
  lemma BothBack(refs: seq<int>, held: set<int>, x: int, y: int, d: int, refs': seq<int>, held': set<int>)
    requires 0 <= x < |refs| && 0 <= y < |refs| && x != y && x !in held && y !in held
    requires held' == held + {x, y} - {x, y}
    requires |refs'| == |refs| && refs'[x] == refs[x] && refs'[y] == refs[y] - d
    requires forall m | 0 <= m < |refs| && m != x && m != y :: refs'[m] == refs[m]
    ensures refs' == refs[y := refs[y] - d] && held' == held
  {}

  /** log_write's bpin of one more block. */
  lemma PinsMore(refs: seq<int>, bs: seq<int>, m: int, o: Others)
    requires 0 <= m < |refs| && m !in bs
    ensures Pins(refs, bs, o) ==> Pins(refs[m := refs[m] + 1], bs + [m], o)
  {}

  // ----- the block writes of commit and recovery, in order ------------------------

  /** The current contents of the transaction's blocks. */
  ghost function Picked(cur: Disk, bs: seq<int>): (data: seq<Block>)
    requires forall i | 0 <= i < |bs| :: 0 <= bs[i] < |cur|
    ensures |data| == |bs|
  {
    seq(|bs|, i requires 0 <= i < |bs| => cur[bs[i]])
  }

  /** The disks write_log leaves after each of its first k writes. */
  ghost function LogWrites(d: Disk, a: LogArea, data: seq<Block>, k: nat): (t: seq<Disk>)
    requires Fits(d, a) && k <= |data| < a.size
  {
    seq(k, w requires 0 <= w < k => WriteLog(d, a, data, w + 1))
  }

  /** The disks install_trans leaves after each of its first k writes. */
  ghost function InstallWrites(d: Disk, a: LogArea, bs: seq<int>, k: nat): (t: seq<Disk>)
    requires Fits(d, a) && ValidTxn(|d|, a, bs) && k <= |bs|
  {
    seq(k, w requires 0 <= w < k => Install(d, a, bs, w + 1))
  }

  lemma NextLogWrite(d: Disk, a: LogArea, data: seq<Block>, k: nat)
    requires Fits(d, a) && k < |data| < a.size
    ensures WriteLog(d, a, data, k)[Slot(a, k) := data[k]] == WriteLog(d, a, data, k + 1)
    ensures LogWrites(d, a, data, k) + [WriteLog(d, a, data, k + 1)] == LogWrites(d, a, data, k + 1)
  {}

  /** One more iteration of install_trans: the disk goes from e to e', and the writes from t to t'. */
  lemma NextInstallWrite(d: Disk, a: LogArea, bs: seq<int>, k: nat, e: Disk, e': Disk,
          tr: seq<Disk>, t: seq<Disk>, t': seq<Disk>)
    requires Fits(d, a) && ValidTxn(|d|, a, bs) && k < |bs| && e == Install(d, a, bs, k)
      && t == tr + InstallWrites(d, a, bs, k)
    requires e' == e[bs[k] := e[Slot(a, k)]] && t' == t + [e']
    ensures e' == Install(d, a, bs, k + 1) && t' == tr + InstallWrites(d, a, bs, k + 1)
  {
    InstallAt(d, a, bs, k, Slot(a, k));
    assert InstallWrites(d, a, bs, k) + [Install(d, a, bs, k + 1)] == InstallWrites(d, a, bs, k + 1);
  }

  /** The disk after commit has written the header. */
  ghost function Headed(d: Disk, a: LogArea, bs: seq<int>, data: seq<Block>): (h: Disk)
    requires Fits(d, a) && ValidTxn(|d|, a, bs) && |data| == |bs|
    ensures |h| == |d|
  {
    WriteLog(d, a, data, |bs|)[a.start := EncodeHead(d[a.start], bs)]
  }

  ghost function LogEmptied(h: Disk, a: LogArea, bs: seq<int>): (d: Disk)
    requires Fits(h, a) && ValidTxn(|h|, a, bs)
  {
    Install(h, a, bs, |bs|)[a.start := EncodeHead(h[a.start], [])]
  }

  /** The disks that the crash-atomicity theorem is about: after each write of a commit, and of a recovery. */
  ghost function CommitWrites(d: Disk, a: LogArea, bs: seq<int>, data: seq<Block>): (t: seq<Disk>)
    requires Fits(d, a) && ValidTxn(|d|, a, bs) && |data| == |bs|
  {
    seq(2 * |bs| + 2, w requires 0 <= w < 2 * |bs| + 2 => CommitSteps(d, a, bs, data, w + 1))
  }

  ghost function RecoveryWrites(d: Disk, a: LogArea): (t: seq<Disk>)
    requires ValidLog(d, a)
  {
    seq(|Txn(d, a)| + 1, w requires 0 <= w <= |Txn(d, a)| => RecoverySteps(d, a, w + 1))
  }

  /** The disks all are those of x, then h, those of y, and z. */
  ghost predicate Parts(all: seq<Disk>, x: seq<Disk>, h: Disk, y: seq<Disk>, z: Disk) {
    && |all| == |x| + |y| + 2 && all[|x|] == h && all[|x| + |y| + 1] == z
    && (forall w | 0 <= w < |x| :: all[w] == x[w])
    && (forall k | 0 <= k < |y| :: all[|x| + 1 + k] == y[k])
  }

  lemma JoinedIs(t: seq<Disk>, x: seq<Disk>, h: Disk, y: seq<Disk>, z: Disk, all: seq<Disk>)
    requires Parts(all, x, h, y, z)
    ensures t + x + [h] + y + [z] == t + all
  {
    assert x + [h] + y + [z] == all by {
      assert forall w | |x| < w <= |x| + |y| :: all[w] == y[w - |x| - 1] by {
        forall w | |x| < w <= |x| + |y| ensures all[w] == y[w - |x| - 1] { assert w == |x| + 1 + (w - |x| - 1); }
      }
    }
    assert t + x + [h] + y + [z] == t + (x + [h] + y + [z]);
  }

  lemma LogStepIs(d: Disk, a: LogArea, bs: seq<int>, data: seq<Block>, w: nat)
    requires Fits(d, a) && ValidTxn(|d|, a, bs) && |data| == |bs| && w < |bs|
    ensures CommitWrites(d, a, bs, data)[w] == LogWrites(d, a, data, |bs|)[w]
  {}

  lemma InstallStepIs(d: Disk, a: LogArea, bs: seq<int>, data: seq<Block>, h: Disk, k: nat)
    requires Fits(d, a) && ValidTxn(|d|, a, bs) && |data| == |bs| && k < |bs| && h == Headed(d, a, bs, data)
    ensures CommitWrites(d, a, bs, data)[|bs| + 1 + k] == InstallWrites(h, a, bs, |bs|)[k]
  {
    var e := Install(h, a, bs, k + 1);
    assert CommitSteps(d, a, bs, data, |bs| + k + 2) == e;
    assert InstallWrites(h, a, bs, |bs|)[k] == e;
  }

  lemma HeadStepsAre(d: Disk, a: LogArea, bs: seq<int>, data: seq<Block>, h: Disk)
    requires Fits(d, a) && ValidTxn(|d|, a, bs) && |data| == |bs| && h == Headed(d, a, bs, data)
    ensures CommitWrites(d, a, bs, data)[|bs|] == h
    ensures CommitWrites(d, a, bs, data)[2 * |bs| + 1] == LogEmptied(h, a, bs)
  {}

  lemma LogPart(d: Disk, a: LogArea, bs: seq<int>, data: seq<Block>, all: seq<Disk>, x: seq<Disk>)
    requires Fits(d, a) && ValidTxn(|d|, a, bs) && |data| == |bs|
    requires all == CommitWrites(d, a, bs, data) && x == LogWrites(d, a, data, |bs|)
    ensures |x| == |bs| <= |all| && forall w | 0 <= w < |x| :: all[w] == x[w]
  {
    forall w | 0 <= w < |x| ensures all[w] == x[w] { LogStepIs(d, a, bs, data, w); }
  }

  lemma InstallPart(d: Disk, a: LogArea, bs: seq<int>, data: seq<Block>, h: Disk, all: seq<Disk>, y: seq<Disk>, m: int)
    requires Fits(d, a) && ValidTxn(|d|, a, bs) && |data| == |bs| == m && h == Headed(d, a, bs, data)
    requires all == CommitWrites(d, a, bs, data) && y == InstallWrites(h, a, bs, |bs|)
    ensures |y| == m && |all| == 2 * m + 2 && forall k | 0 <= k < |y| :: all[m + 1 + k] == y[k]
  {
    forall k | 0 <= k < |y| ensures all[m + 1 + k] == y[k] { InstallStepIs(d, a, bs, data, h, k); }
  }

  lemma CommitParts(d: Disk, a: LogArea, bs: seq<int>, data: seq<Block>, h: Disk, all: seq<Disk>, x: seq<Disk>,
          y: seq<Disk>)
    requires Fits(d, a) && ValidTxn(|d|, a, bs) && |data| == |bs| && h == Headed(d, a, bs, data)
    requires all == CommitWrites(d, a, bs, data) && x == LogWrites(d, a, data, |bs|)
      && y == InstallWrites(h, a, bs, |bs|)
    ensures Parts(all, x, h, y, LogEmptied(h, a, bs))
  {
    HeadStepsAre(d, a, bs, data, h);
    LogPart(d, a, bs, data, all, x);
    InstallPart(d, a, bs, data, h, all, y, |x|);
  }

  /** The writes of write_log, write_head, install_trans and write_head again are, one by one,
      the crash points of the crash-atomicity theorem. */
  lemma CommitJoins(d: Disk, a: LogArea, bs: seq<int>, data: seq<Block>, tr: seq<Disk>, h: Disk, t: seq<Disk>)
    requires Fits(d, a) && ValidTxn(|d|, a, bs) && |data| == |bs| && h == Headed(d, a, bs, data)
    requires t == tr + LogWrites(d, a, data, |bs|) + [h] + InstallWrites(h, a, bs, |bs|) + [LogEmptied(h, a, bs)]
    ensures t == tr + CommitWrites(d, a, bs, data)
  {
    var x, y, all := LogWrites(d, a, data, |bs|), InstallWrites(h, a, bs, |bs|), CommitWrites(d, a, bs, data);
    CommitParts(d, a, bs, data, h, all, x, y);
    JoinedIs(tr, x, h, y, LogEmptied(h, a, bs), all);
  }

  /** The writes of install_trans and write_head are those of recovery. */
  lemma RecoveryJoins(d: Disk, a: LogArea, tr: seq<Disk>, tr': seq<Disk>)
    requires ValidLog(d, a)
    requires tr' == tr + InstallWrites(d, a, Txn(d, a), |Txn(d, a)|) + [LogEmptied(d, a, Txn(d, a))]
    ensures LogEmptied(d, a, Txn(d, a)) == Recover(d, a) && tr' == tr + RecoveryWrites(d, a)
  {
    assert forall w | 0 <= w <= |Txn(d, a)| :: tr'[|tr| + w] == RecoveryWrites(d, a)[w];
  }

  /** A crash after any of these writes, and any crashes of the recoveries that follow, leave the
      home blocks all old or all new: new if the header write was among them. */
  ghost predicate CrashAtomic(d: Disk, a: LogArea, bs: seq<int>, data: seq<Block>, writes: seq<Disk>) {
    forall w, ws, e | 0 <= w < |writes| && Crashes(writes[w], a, ws, e) ::
      AllOrNothing(d, a, bs, data, |bs| < w + 1, e)
  }

  lemma CrashAt(d: Disk, a: LogArea, bs: seq<int>, data: seq<Block>, w: nat, c: Disk, ws: seq<nat>, e: Disk)
    requires ValidLog(d, a) && Txn(d, a) == [] && ValidTxn(|d|, a, bs) && |data| == |bs| && w < 2 * |bs| + 2
    requires c == CommitSteps(d, a, bs, data, w + 1) && Crashes(c, a, ws, e)
    ensures AllOrNothing(d, a, bs, data, |bs| < w + 1, e)
  {
    CommitAtomicUnderCrashes(d, a, bs, data, w + 1, ws, e);
  }

  lemma WriteIs(d: Disk, a: LogArea, bs: seq<int>, data: seq<Block>, writes: seq<Disk>, w: nat)
    requires Fits(d, a) && ValidTxn(|d|, a, bs) && |data| == |bs| && writes == CommitWrites(d, a, bs, data)
      && w < |writes|
    ensures |writes| == 2 * |bs| + 2 && writes[w] == CommitSteps(d, a, bs, data, w + 1)
  {}

  lemma CommitCodeAtomic(d: Disk, a: LogArea, bs: seq<int>, data: seq<Block>)
    requires ValidLog(d, a) && Txn(d, a) == [] && ValidTxn(|d|, a, bs) && |data| == |bs|
    ensures CrashAtomic(d, a, bs, data, CommitWrites(d, a, bs, data))
  {
    var writes := CommitWrites(d, a, bs, data);
    forall w, ws, e | 0 <= w < |writes| && Crashes(writes[w], a, ws, e)
      ensures AllOrNothing(d, a, bs, data, |bs| < w + 1, e)
    {
      WriteIs(d, a, bs, data, writes, w);
      CrashAt(d, a, bs, data, w, writes[w], ws, e);
    }
  }

  /** What a commit of the blocks bs does: its writes, in order, each a safe point to crash. */
  ghost predicate Committed(d: Disk, a: LogArea, bs: seq<int>, data: seq<Block>, tr: seq<Disk>, d': Disk,
          tr': seq<Disk>)
    requires Fits(d, a) && ValidTxn(|d|, a, bs) && |data| == |bs|
  {
    var writes := CommitWrites(d, a, bs, data);
    && tr' == tr + (if bs == [] then [] else writes)
    && d' == (if bs == [] then d else writes[|writes| - 1])
    && CrashAtomic(d, a, bs, data, writes)
  }

  lemma CommitIsAtomic(d: Disk, a: LogArea, bs: seq<int>, data: seq<Block>, tr: seq<Disk>, h: Disk, t: seq<Disk>)
    requires ValidLog(d, a) && Txn(d, a) == [] && ValidTxn(|d|, a, bs) && |data| == |bs| > 0
      && h == Headed(d, a, bs, data)
    requires t == tr + LogWrites(d, a, data, |bs|) + [h] + InstallWrites(h, a, bs, |bs|) + [LogEmptied(h, a, bs)]
    ensures Committed(d, a, bs, data, tr, LogEmptied(h, a, bs), t)
  {
    CommitJoins(d, a, bs, data, tr, h, t);
    HeadStepsAre(d, a, bs, data, h);
    CommitCodeAtomic(d, a, bs, data);
  }

  /** commit ends, and so does recovery, with a valid and empty log. */
  lemma EndsCleared(h: Disk, a: LogArea, bs: seq<int>)
    requires Fits(h, a) && ValidTxn(|h|, a, bs)
    ensures ValidLog(LogEmptied(h, a, bs), a) && Txn(LogEmptied(h, a, bs), a) == []
  {
    InstallAt(h, a, bs, |bs|, a.start);
    HeadWritten(Install(h, a, bs, |bs|), a, []);
  }

  // ----- the budgets of the open operations ----------------------------------------

  function Sum(left: seq<int>): int {
    if left == [] then 0 else Sum(left[..|left| - 1]) + left[|left| - 1]
  }

  predicate Budgets(left: seq<int>) {
    forall k | 0 <= k < |left| :: 0 <= left[k] <= MAXOPBLOCKS
  }

  /** Operation k uses one more block of its budget. */
  function Spend(left: seq<int>, k: int): seq<int> {
    if 0 <= k < |left| then left[k := left[k] - 1] else left
  }

  lemma {:induction false} SumBounds(left: seq<int>)
    requires Budgets(left)
    ensures 0 <= Sum(left) <= |left| * MAXOPBLOCKS
  {
    if left != [] {
      SumBounds(left[..|left| - 1]);
    }
  }

  lemma {:induction false} SumJoins(s: seq<int>, t: seq<int>)
    ensures Sum(s + t) == Sum(s) + Sum(t)
    decreases |t|
  {
    if t == [] {
      assert s + t == s;
    } else {
      assert (s + t)[..|s + t| - 1] == s + t[..|t| - 1];
      SumJoins(s, t[..|t| - 1]);
    }
  }

  /** Whatever others have left, one more whole budget takes no more than whole budgets all round. */
  lemma BudgetMore(left: seq<int>)
    requires Budgets(left)
    ensures Budgets(left + [MAXOPBLOCKS]) && Sum(left + [MAXOPBLOCKS]) <= (|left| + 1) * MAXOPBLOCKS
  {
    SumBounds(left);
    SumJoins(left, [MAXOPBLOCKS]);
  }

  lemma SumAt(left: seq<int>, k: nat)
    requires k < |left|
    ensures Sum(left) == Sum(left[..k]) + left[k] + Sum(left[k + 1..])
  {
    var s, t := left[..k], left[k + 1..];
    assert left == s + ([left[k]] + t);
    SumJoins(s, [left[k]] + t);
    SumJoins([left[k]], t);
  }

  lemma DropSum(left: seq<int>, k: int)
    ensures Budgets(left) && 0 <= k < |left| ==>
              && Budgets(left[..k] + left[k + 1..]) && 0 <= Sum(left[..k] + left[k + 1..])
              && Sum(left) == Sum(left[..k] + left[k + 1..]) + left[k]
  {
    if Budgets(left) && 0 <= k < |left| {
      SumAt(left, k);
      SumJoins(left[..k], left[k + 1..]);
      SumBounds(left[..k] + left[k + 1..]);
    }
  }

  lemma SpendSum(left: seq<int>, k: int)
    ensures Budgets(left) && 0 <= k < |left| && left[k] > 0 ==>
              Budgets(Spend(left, k)) && Sum(Spend(left, k)) == Sum(left) - 1 && 0 <= Sum(Spend(left, k))
  {
    if Budgets(left) && 0 <= k < |left| && left[k] > 0 {
      var s := Spend(left, k);
      SumAt(left, k);
      SumAt(s, k);
      assert s[..k] == left[..k] && s[k + 1..] == left[k + 1..];
      SumBounds(s);
    }
  }

  datatype Outcome = Done | TooBig | OutsideTransaction | Committing | NoBuffers

  class Log {
    const cache: Bcache
    const start: nat
    const size: nat
    var n: int              // lh.n
    const block: array<int> // lh.block
    var outstanding: int
    var committing: bool

    function Area(): LogArea {
      LogArea(start, size)
    }

    ghost predicate Valid()
      reads this, block, cache, cache.bufs
    {
      && cache.Valid() && block.Length == LOGSIZE && 0 <= n <= LOGSIZE
      && Fits(cache.disk, Area()) && ValidTxn(|cache.disk|, Area(), block[..n])
    }

    /** initlog, before it calls recover_from_log. */
    constructor (cache: Bcache, start: nat, size: nat)
      requires cache.Valid() && Fits(cache.disk, LogArea(start, size))
      ensures this.cache == cache && this.start == start && this.size == size
      ensures Valid() && n == 0 && outstanding == 0 && !committing && fresh(block)
    {
      this.cache, this.start, this.size := cache, start, size;
      block := new int[LOGSIZE];
      n, outstanding, committing := 0, 0, false;
    }

    /** The log on disk is empty: so it is whenever no commit is under way. */
    ghost predicate Cleared()
      reads this, cache
    {
      ValidLog(cache.disk, Area()) && Txn(cache.disk, Area()) == []
    }

    /** How many blocks are referred to, of the NBUF that can be. */
    ghost function Busy(): nat
      reads cache
    {
      |Referred(cache.refs)|
    }

    /** Of the transaction's blocks bs those of `pins` are pinned, and the commit can take the
        locks that it needs beside those of the other processes. */
    ghost predicate Beside(o: Others, bs: seq<int>, pins: seq<int>)
      reads this, cache
    {
      Pins(cache.refs, pins, o) && cache.held == o.held && Apart(o, Area(), bs)
    }

    /** bread, where the block is referred to already or fewer than NBUF blocks are. */
    method ReadOne(x: int) returns (b: int)
      requires cache.Valid() && 0 <= x < |cache.disk| && x !in cache.held
      requires cache.refs[x] > 0 || Busy() < NBUF
      modifies cache.bufs, cache`refs, cache`slot, cache`held
      ensures cache.Valid() && cache.held == old(cache.held) + {x} && cache.cur == old(cache.cur)
      ensures cache.slot[x] == b && cache.refs == old(cache.refs)[x := old(cache.refs)[x] + 1]
      ensures forall m | 0 <= m < |cache.disk| && old(cache.refs)[m] > 0 :: cache.slot[m] == old(cache.slot)[m]
    {
      b := cache.Bread(x);
    }

    /** bread of a block that nobody refers to. */
    method ReadNew(x: int) returns (b: int)
      requires cache.Valid() && 0 <= x < |cache.disk| && x !in cache.held && cache.refs[x] == 0
      modifies cache.bufs, cache`refs, cache`slot, cache`held
      ensures cache.Valid() && cache.cur == old(cache.cur) && (b == HEAD <==> old(Busy()) >= NBUF)
      ensures b == HEAD ==> cache.held == old(cache.held) && cache.refs == old(cache.refs)
      ensures b != HEAD ==> cache.held == old(cache.held) + {x} && cache.slot[x] == b
      ensures b != HEAD ==> cache.refs == old(cache.refs)[x := 1] && Busy() <= old(Busy()) + 1
      ensures forall m | 0 <= m < |cache.disk| && old(cache.refs)[m] > 0 :: cache.slot[m] == old(cache.slot)[m]
    {
      NoneUnused(cache.bufs[..], cache.disk, cache.cur, cache.refs, cache.held, cache.slot);
      OneMoreReferred(cache.refs, x, cache.refs[x := 1]);
      b := cache.Bread(x);
    }

    /** bread of two blocks. If there is no buffer for the first one, the kernel panics. */
    method ReadBoth(x: int, y: int) returns (ok: bool, xb: int, yb: int)
      requires cache.Valid() && 0 <= x < |cache.disk| && 0 <= y < |cache.disk| && x != y
      requires x !in cache.held && y !in cache.held && cache.refs[x] == 0
      requires cache.refs[y] > 0 || Busy() + 1 < NBUF
      modifies cache.bufs, cache`refs, cache`slot, cache`held
      ensures cache.Valid() && cache.cur == old(cache.cur) && (ok <==> old(Busy()) < NBUF)
      ensures !ok ==> cache.held == old(cache.held) && cache.refs == old(cache.refs)
      ensures ok ==> cache.held == old(cache.held) + {x, y} && cache.slot[x] == xb && cache.slot[y] == yb
      ensures ok ==> cache.refs == old(cache.refs)[x := old(cache.refs)[x] + 1][y := old(cache.refs)[y] + 1]
    {
      xb := ReadNew(x);
      ok, yb := xb != HEAD, HEAD;
      if ok {
        yb := ReadOne(y);
      }
    }

    /** memmove, bwrite, and the bunpin of a commit: block dst becomes a copy of
        block src, in its buffer and on the disk. */
    method CopyAndWrite(src: int, bsrc: int, dst: int, bdst: int, unpin: bool)
      requires cache.Valid() && 0 <= src < |cache.disk| && 0 <= dst < |cache.disk| && src != dst
      requires src in cache.held && dst in cache.held && cache.slot[src] == bsrc && cache.slot[dst] == bdst
      requires unpin ==> cache.refs[dst] > 1
      modifies cache.bufs, cache`refs, cache`cur, cache`disk, cache`trace
      ensures cache.Valid()
      ensures cache.disk == old(cache.disk)[dst := old(cache.cur)[src]]
      ensures cache.cur == old(cache.cur)[dst := old(cache.cur)[src]]
      ensures cache.trace == old(cache.trace) + [cache.disk]
      ensures cache.refs == old(cache.refs)[dst := old(cache.refs)[dst] - if unpin then 1 else 0]
    {
      var data := cache.Data(bsrc, src);
      cache.SetData(bdst, data, dst);
      cache.Bwrite(bdst, dst);
      if unpin {
        cache.Bunpin(bdst, dst);
      }
    }

    /** The two brelse. */
    method ReleaseBoth(x: int, xb: int, y: int, yb: int)
      requires cache.Valid() && 0 <= x < |cache.disk| && 0 <= y < |cache.disk| && x != y
      requires x in cache.held && y in cache.held && cache.slot[x] == xb && cache.slot[y] == yb
      requires cache.refs[x] == 1 ==> cache.cur[x] == cache.disk[x]
      requires cache.refs[y] == 1 ==> cache.cur[y] == cache.disk[y]
      modifies cache.bufs, cache`refs, cache`held, cache`ring
      ensures cache.Valid() && cache.held == old(cache.held) - {x, y}
      ensures cache.refs == old(cache.refs)[x := old(cache.refs)[x] - 1][y := old(cache.refs)[y] - 1]
    {
      cache.Brelse(xb, x);
      cache.Brelse(yb, y);
    }

    /** The body of both loops but for the bread calls, whose order differs. */
    method CopyAndRelease(src: int, bsrc: int, dst: int, bdst: int, unpin: bool)
      requires cache.Valid() && 0 <= src < |cache.disk| && 0 <= dst < |cache.disk| && src != dst
      requires src in cache.held && dst in cache.held && cache.slot[src] == bsrc && cache.slot[dst] == bdst
      requires (unpin ==> cache.refs[dst] > 1) && (cache.refs[src] == 1 ==> cache.cur[src] == cache.disk[src])
      modifies cache.bufs, cache`refs, cache`cur, cache`disk, cache`trace, cache`held, cache`ring
      ensures cache.Valid() && cache.held == old(cache.held) - {src, dst}
      ensures cache.disk == old(cache.disk)[dst := old(cache.cur)[src]]
      ensures cache.cur == old(cache.cur)[dst := old(cache.cur)[src]]
      ensures cache.trace == old(cache.trace) + [cache.disk]
      ensures cache.refs == old(cache.refs)[src := old(cache.refs)[src] - 1]
                                           [dst := old(cache.refs)[dst] - if unpin then 2 else 1]
    {
      CopyAndWrite(src, bsrc, dst, bdst, unpin);
      ReleaseBoth(src, bsrc, dst, bdst);
    }

    /** The body of write_log's loop: the slot is read first, then the cached block. */
    method CopyToLog(slot: int, home: int) returns (ok: bool)
      requires cache.Valid() && 0 <= slot < |cache.disk| && 0 <= home < |cache.disk| && slot != home
      requires slot !in cache.held && home !in cache.held && cache.refs[home] > 0 && cache.refs[slot] == 0
      modifies cache.bufs, cache
      ensures cache.Valid() && cache.held == old(cache.held) && cache.refs == old(cache.refs)
      ensures ok <==> old(Busy()) < NBUF
      ensures !ok ==> cache.disk == old(cache.disk) && cache.cur == old(cache.cur) && cache.trace == old(cache.trace)
      ensures ok ==> cache.disk == old(cache.disk)[slot := old(cache.cur)[home]]
      ensures ok ==> cache.cur == old(cache.cur)[slot := old(cache.cur)[home]]
      ensures ok ==> cache.trace == old(cache.trace) + [cache.disk]
    {
      var to, from;
      ok, to, from := ReadBoth(slot, home);
      if ok {
        CopyAndRelease(home, from, slot, to, false);
        BothBack(old(cache.refs), old(cache.held), home, slot, 0, cache.refs, cache.held);
      }
    }

    /** The body of install_trans's loop: the log slot is read first, then the home block. */
    method CopyHome(slot: int, home: int, unpin: bool)
      requires cache.Valid() && 0 <= slot < |cache.disk| && 0 <= home < |cache.disk| && slot != home
      requires slot !in cache.held && home !in cache.held && cache.cur[slot] == cache.disk[slot]
        && cache.refs[slot] == 0
      requires if unpin then cache.refs[home] > 0 && Busy() < NBUF else Busy() + 1 < NBUF
      modifies cache.bufs, cache
      ensures cache.Valid() && cache.held == old(cache.held)
      ensures cache.refs == old(cache.refs)[home := old(cache.refs)[home] - if unpin then 1 else 0]
      ensures cache.disk == old(cache.disk)[home := old(cache.disk)[slot]]
      ensures cache.trace == old(cache.trace) + [cache.disk]
    {
      var ok, lbuf, dbuf := ReadBoth(slot, home);
      CopyAndRelease(slot, lbuf, home, dbuf, unpin);
      BothBack(old(cache.refs), old(cache.held), slot, home, if unpin then 1 else 0, cache.refs, cache.held);
    }

    /** The loop of write_head over the header buffer. */
    method FillHead(before: Block) returns (hb: Block)
      requires block.Length == LOGSIZE && 0 <= n <= LOGSIZE
      ensures hb == EncodeHead(before, block[..n])
    {
      hb := before[0 := n];
      var i := 0;
      while i < n
        invariant 0 <= i <= n && hb[0] == n
        invariant forall j | 0 <= j < i :: hb[1 + j] == block[j]
        invariant forall j | 1 + i <= j < WORDS :: hb[j] == before[j]
      {
        hb := hb[1 + i := block[i]];
        i := i + 1;
      }
    }

    method FillAndWrite(buf: int)
      requires Valid() && start in cache.held && cache.slot[start] == buf
      modifies cache.bufs, cache
      ensures cache.Valid() && cache.held == old(cache.held) && cache.refs == old(cache.refs)
      ensures cache.slot == old(cache.slot) && |cache.cur| == |cache.disk| == |old(cache.disk)|
      ensures cache.cur[start] == cache.disk[start]
      ensures cache.disk == old(cache.disk)[start := EncodeHead(old(cache.cur)[start], block[..n])]
      ensures cache.cur == old(cache.cur)[start := EncodeHead(old(cache.cur)[start], block[..n])]
      ensures cache.trace == old(cache.trace) + [cache.disk]
    {
      var hb := cache.Data(buf, start);
      hb := FillHead(hb);
      cache.SetData(buf, hb, start);
      cache.Bwrite(buf, start);
    }

    method WriteAndRelease(buf: int)
      requires Valid() && start in cache.held && cache.slot[start] == buf
      modifies cache.bufs, cache
      ensures cache.Valid() && cache.held == old(cache.held) - {start}
      ensures cache.refs == old(cache.refs)[start := old(cache.refs)[start] - 1]
      ensures cache.disk == old(cache.disk)[start := EncodeHead(old(cache.cur)[start], block[..n])]
      ensures cache.cur == old(cache.cur)[start := EncodeHead(old(cache.cur)[start], block[..n])]
      ensures cache.trace == old(cache.trace) + [cache.disk]
    {
      FillAndWrite(buf);
      cache.Brelse(buf, start);
    }

    /** write_head */
    method WriteHead()
      requires Valid() && start !in cache.held && cache.refs[start] == 0 && Busy() < NBUF
      modifies cache.bufs, cache
      ensures cache.Valid() && cache.held == old(cache.held) && cache.refs == old(cache.refs)
      ensures cache.disk == old(cache.disk)[start := EncodeHead(old(cache.cur)[start], block[..n])]
      ensures cache.cur == old(cache.cur)[start := EncodeHead(old(cache.cur)[start], block[..n])]
      ensures cache.trace == old(cache.trace) + [cache.disk]
    {
      var buf := ReadOne(start);
      WriteAndRelease(buf);
      OneBack(old(cache.refs), old(cache.held), start, cache.refs, cache.held);
    }

    /** write_log has written the first `tail` slots of the log. */
    ghost predicate LogWritten(d: Disk, tr: seq<Disk>, cur: seq<Block>, tail: int, o: Others)
      reads this, cache, cache.bufs, block
    {
      && Valid() && Beside(o, block[..n], block[..n])
      && 0 <= tail <= n && |cache.disk| == |d| == |cur|
      && cache.disk == RedoLog.WriteLog(d, Area(), Picked(cur, block[..n]), tail)
      && cache.trace == tr + LogWrites(d, Area(), Picked(cur, block[..n]), tail)
      && forall m | 0 <= m < |d| && !InLog(Area(), m) :: cache.cur[m] == cur[m]
    }

    /** A log slot holds on disk what a bread of it returns; its lock is free, and that of its home. */
    ghost predicate SlotReady(slot: int, home: int)
      reads cache
    {
      && slot != home && 0 <= slot < |cache.disk| && 0 <= home < |cache.disk|
      && slot !in cache.held && home !in cache.held && |cache.cur| == |cache.disk|
        && cache.cur[slot] == cache.disk[slot]
    }

    lemma SlotClean(o: Others, pins: seq<int>, tail: int, slot: int, home: int)
      requires Valid() && 0 <= tail < n && Beside(o, block[..n], pins) && forall x | x in pins :: x in block[..n]
      requires slot == Slot(Area(), tail) && home == block[tail]
      ensures SlotReady(slot, home) && block[..n][tail] == home && home !in block[..n][tail + 1..]
      ensures cache.refs[slot] == 0 && (home in pins ==> cache.refs[home] > 0)
    {
      assert InLog(Area(), slot);
      assert block[..n][tail] == home;
    }

    /** One iteration of write_log. */
    method CopySlot(tail: int, ghost o: Others) returns (ok: bool)
      requires Valid() && Beside(o, block[..n], block[..n]) && 0 <= tail < n
      modifies cache.bufs, cache
      ensures Valid() && Beside(o, block[..n], block[..n]) && cache.refs == old(cache.refs)
      ensures ok <==> old(Busy()) < NBUF
      ensures !ok ==> cache.disk == old(cache.disk) && cache.cur == old(cache.cur) && cache.trace == old(cache.trace)
      ensures ok ==> cache.disk == old(cache.disk)[Slot(Area(), tail) := old(cache.cur)[block[tail]]]
      ensures ok ==> cache.cur == old(cache.cur)[Slot(Area(), tail) := old(cache.cur)[block[tail]]]
      ensures ok ==> cache.trace == old(cache.trace) + [cache.disk]
    {
      var slot, home := start + tail + 1, block[tail];
      SlotClean(o, block[..n], tail, slot, home);
      ok := CopyToLog(slot, home);
    }

    method WriteSlot(tail: int, ghost d: Disk, ghost tr: seq<Disk>, ghost cur: seq<Block>, ghost o: Others)
      returns (ok: bool)
      requires LogWritten(d, tr, cur, tail, o) && tail < n
      modifies cache.bufs, cache
      ensures LogWritten(d, tr, cur, if ok then tail + 1 else tail, o) && cache.refs == old(cache.refs)
      ensures ok <==> old(Busy()) < NBUF
    {
      ok := CopySlot(tail, o);
      if ok {
        NextLogWrite(d, Area(), Picked(cur, block[..n]), tail);
      }
    }

    /** write_log: every pinned block to its slot, one block write each. The first bread panics,
        and nothing has been written, exactly if NBUF blocks are referred to. */
    method WriteLog(ghost o: Others) returns (ok: bool)
      requires Valid() && Beside(o, block[..n], block[..n])
      modifies cache.bufs, cache
      ensures Valid() && Beside(o, block[..n], block[..n]) && cache.refs == old(cache.refs)
      ensures |cache.disk| == |old(cache.disk)| && (ok <==> n == 0 || old(Busy()) < NBUF)
      ensures !ok ==> cache.disk == old(cache.disk) && cache.trace == old(cache.trace)
      ensures ok ==>
                var data := Picked(old(cache.cur), block[..n]);
                && cache.disk == RedoLog.WriteLog(old(cache.disk), Area(), data, n)
                && cache.trace == old(cache.trace) + LogWrites(old(cache.disk), Area(), data, n)
      ensures forall m | 0 <= m < |cache.disk| && !InLog(Area(), m) :: cache.cur[m] == old(cache.cur)[m]
    {
      ghost var d, tr, cur, refs := cache.disk, cache.trace, cache.cur, cache.refs;
      assert cache.disk == RedoLog.WriteLog(d, Area(), Picked(cur, block[..n]), 0);
      var tail := 0;
      while tail < n
        invariant LogWritten(d, tr, cur, tail, o) && cache.refs == refs && (tail > 0 ==> Busy() < NBUF)
      {
        ok := WriteSlot(tail, d, tr, cur, o);
        if !ok {
          return;
        }
        tail := tail + 1;
      }
      ok := true;
    }

    /** There is a buffer to recycle, and in recovery a second one, since no block is pinned there. */
    ghost predicate Roomy(recovering: bool)
      reads cache
    {
      if recovering then Busy() + 1 < NBUF else Busy() < NBUF
    }

    /** install_trans has written the home blocks of the first `tail` slots. */
    ghost predicate Installed(d: Disk, tr: seq<Disk>, bs: seq<int>, recovering: bool, tail: int, o: Others)
      reads this, cache, cache.bufs, block
    {
      && Valid() && block[..n] == bs && 0 <= tail <= n && |cache.disk| == |d|
      && Beside(o, bs, if recovering then [] else bs[tail..]) && Roomy(recovering)
      && cache.disk == Install(d, Area(), bs, tail)
      && cache.trace == tr + InstallWrites(d, Area(), bs, tail)
    }

    method InstallOne(slot: int, home: int, recovering: bool, ghost bs: seq<int>, ghost tail: nat, ghost o: Others)
      requires Valid() && block[..n] == bs && tail < |bs| && Roomy(recovering)
      requires Beside(o, bs, if recovering then [] else bs[tail..]) && SlotReady(slot, home) && cache.refs[slot] == 0
      requires home == bs[tail] && home !in bs[tail + 1..] && (recovering || cache.refs[home] > 0)
      modifies cache.bufs, cache
      ensures Valid() && Beside(o, bs, if recovering then [] else bs[tail + 1..]) && Roomy(recovering)
      ensures |cache.disk| == |old(cache.disk)|
      ensures cache.disk == old(cache.disk)[home := old(cache.disk)[slot]]
        && cache.trace == old(cache.trace) + [cache.disk]
    {
      ghost var refs := cache.refs;
      CopyHome(slot, home, !recovering);
      PinsNext(refs, bs, tail, !recovering, o, cache.refs);
    }

    /** One iteration of install_trans. */
    method InstallSlot(tail: int, recovering: bool, ghost d: Disk, ghost tr: seq<Disk>, ghost bs: seq<int>,
            ghost o: Others)
      requires Installed(d, tr, bs, recovering, tail, o) && tail < n
      modifies cache.bufs, cache
      ensures Installed(d, tr, bs, recovering, tail + 1, o)
    {
      ghost var e, t := cache.disk, cache.trace;
      var slot, home := start + tail + 1, block[tail];
      SlotClean(o, if recovering then [] else bs[tail..], tail, slot, home);
      InstallOne(slot, home, recovering, bs, tail, o);
      NextInstallWrite(d, Area(), bs, tail, e, cache.disk, tr, t, cache.trace);
    }

    /** install_trans: every log slot to its home block, one block write each; a
        commit also unpins the home blocks. */
    method InstallTrans(recovering: bool, ghost o: Others)
      requires Valid() && Beside(o, block[..n], if recovering then [] else block[..n]) && Roomy(recovering)
      modifies cache.bufs, cache
      ensures Valid() && Beside(o, block[..n], []) && Busy() < NBUF
      ensures cache.disk == Install(old(cache.disk), Area(), block[..n], n)
      ensures cache.trace == old(cache.trace) + InstallWrites(old(cache.disk), Area(), block[..n], n)
    {
      ghost var d, tr, bs := cache.disk, cache.trace, block[..n];
      assert bs[0..] == bs && bs[n..] == [];
      var tail := 0;
      while tail < n
        invariant Installed(d, tr, bs, recovering, tail, o)
      {
        InstallSlot(tail, recovering, d, tr, bs, o);
        tail := tail + 1;
      }
    }

    /** bread of one block, a copy of its data, brelse. */
    method ReadBlock(x: int) returns (data: Block)
      requires cache.Valid() && 0 <= x < |cache.disk| && x !in cache.held && cache.refs[x] == 0 && Busy() < NBUF
      modifies cache.bufs, cache`refs, cache`slot, cache`held, cache`ring
      ensures cache.Valid() && cache.held == old(cache.held) && cache.refs == old(cache.refs)
      ensures cache.cur == old(cache.cur) && data == cache.cur[x]
    {
      var buf := ReadOne(x);
      data := cache.Data(buf, x);
      cache.Brelse(buf, x);
      OneBack(old(cache.refs), old(cache.held), x, cache.refs, cache.held);
    }

    /** The loop of read_head. */
    method LoadHead(lh: Block)
      requires block.Length == LOGSIZE && 0 <= lh[0] <= LOGSIZE
      modifies this`n, block
      ensures n == lh[0] && block[..n] == DecodeHead(lh)
    {
      n := lh[0];
      var i := 0;
      while i < n
        invariant 0 <= i <= n == lh[0] <= LOGSIZE
        invariant forall j | 0 <= j < i :: block[j] == lh[1 + j]
      {
        block[i] := lh[1 + i];
        i := i + 1;
      }
    }

    lemma NobodyBusy()
      requires cache.refs == seq(|cache.disk|, _ => 0)
      ensures Busy() == 0
    {
      ReferredWithin(cache.refs, {});
    }

    /** read_head */
    method ReadHead()
      requires Valid() && cache.held == {} && cache.refs == seq(|cache.disk|, _ => 0) && ValidLog(cache.disk, Area())
      modifies cache.bufs, cache`refs, cache`slot, cache`held, cache`ring, this`n, block
      ensures Valid() && cache.held == {} && cache.refs == old(cache.refs)
      ensures block[..n] == Txn(cache.disk, Area())
    {
      NobodyBusy();
      var lh := ReadBlock(start);
      LoadHead(lh);
    }

    /** The in-memory list is emptied, and the header written. */
    method EmptyLog(ghost o: Others)
      requires Valid() && Beside(o, block[..n], []) && Busy() < NBUF
      modifies cache.bufs, cache, this`n
      ensures Valid() && Beside(o, [], []) && n == 0
      ensures cache.disk == old(cache.disk)[start := EncodeHead(old(cache.disk)[start], [])]
      ensures cache.trace == old(cache.trace) + [cache.disk]
    {
      assert InLog(Area(), start);
      n := 0;
      assert cache.refs[start] == 0 && block[..0] == [];
      WriteHead();
    }

    /** install_trans, then the header write that empties the log: the second half of commit,
        and all of recovery after read_head. */
    method InstallAndClear(recovering: bool, ghost o: Others)
      requires Valid() && Beside(o, block[..n], if recovering then [] else block[..n]) && Roomy(recovering)
      modifies cache.bufs, cache, this`n
      ensures Valid() && Beside(o, [], []) && n == 0 && Cleared()
      ensures var h, bs := old(cache.disk), old(block[..n]);
              && cache.disk == LogEmptied(h, Area(), bs)
              && cache.trace == old(cache.trace) + InstallWrites(h, Area(), bs, |bs|) + [cache.disk]
    {
      ghost var h, bs := cache.disk, block[..n];
      InstallTrans(recovering, o);
      assert InLog(Area(), start);
      InstallAt(h, Area(), bs, |bs|, start);
      EmptyLog(o);
      EndsCleared(h, Area(), bs);
    }

    /** recover_from_log, at boot: the block writes are those of the crash-tolerant recovery. */
    method RecoverFromLog()
      requires Valid() && cache.held == {} && cache.refs == seq(|cache.disk|, _ => 0) && ValidLog(cache.disk, Area())
      modifies cache.bufs, cache, this`n, block
      ensures Valid() && Cleared() && n == 0 && Beside(Nobody(|cache.disk|), [], [])
      ensures cache.disk == Recover(old(cache.disk), Area())
      ensures cache.trace == old(cache.trace) + RecoveryWrites(old(cache.disk), Area())
    {
      ghost var d, tr := cache.disk, cache.trace;
      ReadHead();
      NobodyBusy();
      InstallAndClear(true, Nobody(|cache.disk|));
      RecoveryJoins(d, Area(), tr, cache.trace);
    }

    /** commit's first half: write_log and the header write that makes it count. */
    method WriteLogAndHead(ghost o: Others) returns (ok: bool)
      requires Valid() && Beside(o, block[..n], block[..n]) && n > 0
      modifies cache.bufs, cache
      ensures Valid() && Beside(o, block[..n], block[..n]) && cache.refs == old(cache.refs)
      ensures ok <==> old(Busy()) < NBUF
      ensures !ok ==> cache.disk == old(cache.disk) && cache.trace == old(cache.trace)
      ensures ok ==>
                var data := Picked(old(cache.cur), block[..n]);
                && cache.disk == Headed(old(cache.disk), Area(), block[..n], data)
                && cache.trace == old(cache.trace) + LogWrites(old(cache.disk), Area(), data, n) + [cache.disk]
    {
      assert InLog(Area(), start) && start !in block[..n];
      ok := WriteLog(o);
      if ok {
        assert cache.cur[start] == cache.disk[start] == old(cache.disk)[start];
        WriteHead();
      }
    }

    /** commit, from a disk whose log is empty. Its first bread panics exactly if NBUF blocks are
        referred to, and then the disk is as it was. Otherwise it makes exactly the writes of
        CommitWrites, and a crash at any of them is all or nothing; it finds a buffer every time,
        leaves nothing pinned, and leaves the log empty again. */
    method Commit(ghost o: Others) returns (r: Outcome)
      requires Valid() && Cleared() && Beside(o, block[..n], block[..n])
      requires committing && outstanding == 0          // so that begin_op admits nobody
      modifies cache.bufs, cache, this`n
      ensures Valid() && Cleared()
      ensures r == if old(n) > 0 && old(Busy()) == NBUF then NoBuffers else Done
      ensures r == NoBuffers ==> cache.disk == old(cache.disk) && cache.trace == old(cache.trace) && n == old(n)
      ensures r == Done ==> Beside(o, [], []) && n == 0
      ensures r == Done ==> Committed(old(cache.disk), Area(), old(block[..n]), Picked(old(cache.cur), old(block[..n])),
                              old(cache.trace), cache.disk, cache.trace)
    {
      ghost var d, bs, data, tr := cache.disk, block[..n], Picked(cache.cur, block[..n]), cache.trace;
      NoneUnused(cache.bufs[..], cache.disk, cache.cur, cache.refs, cache.held, cache.slot);
      if n > 0 {
        var ok := WriteLogAndHead(o);
        if !ok {
          return NoBuffers;
        }
        ghost var h := cache.disk;
        InstallAndClear(false, o);
        CommitIsAtomic(d, Area(), bs, data, tr, h, cache.trace);
      } else {
        assert block[..n] == [];
        CommitCodeAtomic(d, Area(), bs, data);
      }
      r := Done;
    }

    /** The loop of log_write. */
    method FindLogged(m: int) returns (i: int)
      requires block.Length == LOGSIZE && 0 <= n <= LOGSIZE
      ensures 0 <= i <= n && (i < n <==> m in block[..n]) && (i < n ==> block[i] == m)
    {
      i := 0;
      while i < n && block[i] != m
        invariant 0 <= i <= n
        invariant forall j | 0 <= j < i :: block[j] != m
      {
        i := i + 1;
      }
      if i < n { assert block[..n][i] == m; }
    }

    method SetBlock(i: int, m: int)
      requires block.Length == LOGSIZE && 0 <= i <= n < LOGSIZE && (i < n ==> block[i] == m)
      modifies block
      ensures block[..n] == old(block[..n]) && (i == n ==> block[..n + 1] == old(block[..n]) + [m])
    {
      block[i] := m;
    }

    /** The block m, which is in place behind the list, is pinned and counted. */
    method CountBlock(b: int, m: int, ghost bs: seq<int>, ghost o: Others)
      requires cache.Valid() && 0 <= m < |cache.disk| && cache.slot[m] == b && cache.refs[m] > 0
      requires block.Length == LOGSIZE && 0 <= n < LOGSIZE && bs == block[..n] && block[..n + 1] == bs + [m] && m !in bs
      modifies cache.bufs, cache`refs, this`n
      ensures cache.Valid() && n == old(n) + 1 && cache.refs == old(cache.refs)[m := old(cache.refs)[m] + 1]
      ensures Pins(old(cache.refs), bs, o) ==> Pins(cache.refs, bs + [m], o)
    {
      cache.Bpin(b, m);
      n := n + 1;
      PinsMore(old(cache.refs), bs, m, o);
    }

    /** Every open operation has so many blocks left of its budget, and the log has room for all
        of them: what begin_op is for. */
    ghost predicate Reserves(left: seq<int>)
      reads this
    {
      |left| == outstanding && Budgets(left) && n + Sum(left) <= LOGSIZE
    }

    /** The rest of log_write once its tests have passed: the block is in the list once, and pinned
        if it was not there. */
    method Record(b: int, m: int, ghost o: Others)
      requires Valid() && 0 <= m < |cache.disk| && !InLog(Area(), m) && n < LOGSIZE && n < size - 1
      requires cache.slot[m] == b && cache.refs[m] > 0
      modifies cache.bufs, cache`refs, this`n, block
      ensures Valid()
      ensures block[..n] == if m !in old(block[..n]) then old(block[..n]) + [m] else old(block[..n])
      ensures cache.refs == if m !in old(block[..n]) then old(cache.refs)[m := old(cache.refs)[m] + 1]
        else old(cache.refs)
      ensures old(Pins(cache.refs, block[..n], o)) ==> Pins(cache.refs, block[..n], o)
    {
      var i := FindLogged(m);
      SetBlock(i, m);
      if i == n {
        CountBlock(b, m, old(block[..n]), o);
      }
    }

    /** log_write of the buffer b of block m, by the k-th open operation. Where the code panics,
        nothing changes. A new block comes off the operation's budget. */
    method LogWrite(b: int, m: int, ghost o: Others, ghost left: seq<int>, ghost k: int) returns (r: Outcome)
      requires Valid() && 0 <= m < |cache.disk| && !InLog(Area(), m)
      requires cache.slot[m] == b && cache.refs[m] > 0
      modifies cache.bufs, cache`refs, this`n, block
      ensures Valid()
      ensures r == if old(n) >= LOGSIZE || old(n) >= size - 1 then TooBig
                   else if outstanding < 1 then OutsideTransaction else Done
      ensures block[..n] == if r == Done && m !in old(block[..n]) then old(block[..n]) + [m] else old(block[..n])
      ensures cache.refs == if r == Done && m !in old(block[..n]) then old(cache.refs)[m := old(cache.refs)[m] + 1]
                            else old(cache.refs)
      ensures old(Cleared()) ==> Cleared()
      ensures old(Pins(cache.refs, block[..n], o)) ==> Pins(cache.refs, block[..n], o)
      ensures old(Reserves(left)) && 0 <= k < |left| && left[k] > 0 ==>
                (r == Done || (size <= LOGSIZE && r == TooBig)) && Reserves(if n > old(n) then Spend(left, k) else left)
    {
      SpendSum(left, k);
      if n >= LOGSIZE || n >= size - 1 {
        return TooBig;
      }
      if outstanding < 1 {
        return OutsideTransaction;
      }
      Record(b, m, o);
      r := Done;
    }

    /** One round of begin_op's loop: admitted, or it sleeps and tries again. It is admitted exactly
        if no commit is under way and there is room even if no open operation has used any of its
        budget; so whatever they have left, there is room for that and one more whole budget. */
    method TryBeginOp() returns (admitted: bool)
      modifies this`outstanding
      ensures admitted <==> !committing && n + (old(outstanding) + 1) * MAXOPBLOCKS <= LOGSIZE
      ensures outstanding == old(outstanding) + if admitted then 1 else 0
      ensures admitted ==> forall left | |left| == old(outstanding) && Budgets(left) :: Reserves(left + [MAXOPBLOCKS])
      ensures !admitted ==> forall left :: Reserves(left) <==> old(Reserves(left))
    {
      if committing {
        admitted := false;
      } else if n + (outstanding + 1) * MAXOPBLOCKS > LOGSIZE {
        admitted := false;
      } else {
        outstanding := outstanding + 1;
        admitted := true;
        forall left | |left| == old(outstanding) && Budgets(left) ensures Reserves(left + [MAXOPBLOCKS]) {
          BudgetMore(left);
        }
      }
    }

    /** end_op of the k-th open operation; the last one to end commits. */
    method EndOp(ghost o: Others, ghost left: seq<int>, ghost k: int) returns (r: Outcome)
      requires Valid() && Cleared() && 0 < outstanding
      requires outstanding == 1 ==> Beside(o, block[..n], block[..n])
      modifies cache.bufs, cache, this
      ensures Valid() && Cleared() && outstanding == old(outstanding) - 1
      ensures r == if old(committing) then Committing
                   else if old(outstanding) == 1 && old(n) > 0 && old(Busy()) == NBUF then NoBuffers else Done
      ensures r != Done ==> cache.disk == old(cache.disk) && cache.trace == old(cache.trace) && n == old(n)
      ensures r == Done && outstanding > 0 ==>
                unchanged(cache) && unchanged(cache.bufs) && unchanged(block) && n == old(n)
      ensures r == Done && outstanding > 0 ==> !committing
      ensures r == Done && outstanding == 0 ==> n == 0 && !committing && Beside(o, [], [])
      ensures r == Done && outstanding == 0 ==>
                Committed(old(cache.disk), Area(), old(block[..n]), Picked(old(cache.cur), old(block[..n])),
                  old(cache.trace), cache.disk, cache.trace)
      ensures r == Done && old(Reserves(left)) && 0 <= k < |left| ==> Reserves(left[..k] + left[k + 1..])
    {
      DropSum(left, k);
      outstanding := outstanding - 1;
      if committing {
        return Committing;
      }
      if outstanding == 0 {
        committing := true;
        r := Commit(o);
        if r != Done {
          return;
        }
        committing := false;
      }
      r := Done;
    }
  }
}
