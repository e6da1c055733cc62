/** The log and the buffer cache as one concurrent system: any number of
    processes run begin_op, bread, log_write, brelse and end_op in any
    interleaving, unreferenced buffers are recycled at any time, the commit
    proceeds one block write at a time, and the machine may crash between any
    two steps, recovery included. */
module LogProtocol {
  import opened RedoLog

  type Pid = p: int | 0 < p witness 1

  /** A cached block.  `users` are the processes between bget and brelse
      (ghost bookkeeping for refcnt); `holder` is the sleep lock's owner, 0 if free. */
  datatype Buf = Buf(valid: bool, data: Block, refcnt: int, holder: int, users: set<Pid>)

  datatype Phase =
    | Idle
    | Logging(k: nat)     // write_log has copied k blocks
    | Installing(k: nat)  // the header is written, install_trans has written k blocks
    | Finishing           // the log is cleared, committing is still set
    | Booting             // after a crash, before read_head
    | Recovering(k: nat)  // install_trans(1) has written k blocks

  /** `ops` maps each open operation to the blocks it has logged. */
  datatype State = State(
    disk: Disk, cache: map<int, Buf>, lh: seq<int>,
    outstanding: int, committing: bool, phase: Phase, ops: map<Pid, set<int>>)

  datatype Step =
    | BeginOp(p: Pid)
    | Get(p: Pid, b: int)               // bget: find or allocate, refcnt + 1
    | Lock(p: Pid, b: int)              // acquiresleep, then read if not valid
    | Modify(p: Pid, b: int, data: Block)
    | LogWrite(p: Pid, b: int)
    | Release(p: Pid, b: int)           // brelse
    | Recycle(b: int)                   // the buffer is reused for another block
    | EndOp(p: Pid)
    | CommitLog                         // one iteration of write_log
    | CommitHead                        // write_head with lh.n > 0
    | CommitInstall                     // one iteration of install_trans(0)
    | CommitClear                       // lh.n = 0; write_head
    | CommitDone                        // committing = 0; wakeup
    | Crash
    | ReadHead
    | RecoverInstall                    // one iteration of install_trans(1)
    | RecoverClear

  /** log_write's first panic test. */
  predicate TooBig(s: State, a: LogArea) {
    |s.lh| >= LOGSIZE || |s.lh| >= a.size - 1
  }

  predicate Running(s: State) {
    !s.phase.Booting? && !s.phase.Recovering?
  }

  /** The buffers whose refcnt log_write raised and install_trans has not lowered. */
  function Pinned(s: State): seq<int>
    requires s.phase.Installing? ==> s.phase.k <= |s.lh|
  {
    match s.phase
    case Idle => s.lh
    case Logging(_) => s.lh
    case Installing(k) => s.lh[k..]
    case _ => []
  }

  predicate Holds(s: State, p: Pid, b: int) {
    b in s.cache && s.cache[b].holder == p
  }

  predicate Unlocked(s: State, b: int) {
    b in s.cache ==> s.cache[b].holder == 0
  }

  /** The log slot and the home block of the j-th logged block exist. */
  predicate InRange(s: State, a: LogArea, j: nat) {
    Fits(s.disk, a) && j + 1 < a.size && j < |s.lh| && 0 <= s.lh[j] < |s.disk|
  }

  /** When a step may be taken: the code's own waiting conditions, and the
      callers' obligations (modify only under the buffer's lock inside an
      operation, log every modified buffer before releasing it, at most
      MAXOPBLOCKS distinct blocks an operation). */
  ghost predicate Enabled(s: State, a: LogArea, step: Step) {
    match step
    case BeginOp(p) =>
      Running(s) && p !in s.ops && !s.committing
      && |s.lh| + (s.outstanding + 1) * MAXOPBLOCKS <= LOGSIZE
    case Get(p, b) =>
      Running(s) && 0 <= b < |s.disk| && !InLog(a, b) && (b in s.cache ==> p !in s.cache[b].users)
    case Lock(p, b) =>
      b in s.cache && 0 <= b < |s.disk| && p in s.cache[b].users && s.cache[b].holder == 0
    case Modify(p, b, data) =>
      Holds(s, p, b) && p in s.ops
    case LogWrite(p, b) =>
      Holds(s, p, b) && p in s.ops && !TooBig(s, a) && |s.ops[p] + {b}| <= MAXOPBLOCKS
    case Release(p, b) =>
      Holds(s, p, b) && 0 <= b < |s.disk| && (s.cache[b].data == s.disk[b] || b in s.lh)
    case Recycle(b) =>
      b in s.cache && s.cache[b].refcnt == 0
    case EndOp(p) =>
      p in s.ops && forall b | b in s.cache && s.cache[b].holder == p ::
        0 <= b < |s.disk| && (s.cache[b].data == s.disk[b] || b in s.lh)
    case CommitLog =>
      s.phase.Logging? && InRange(s, a, s.phase.k) && Unlocked(s, s.lh[s.phase.k])
    case CommitHead =>
      s.phase.Logging? && s.phase.k == |s.lh| <= LOGSIZE && Fits(s.disk, a)
    case CommitInstall =>
      s.phase.Installing? && InRange(s, a, s.phase.k) && Unlocked(s, s.lh[s.phase.k])
    case CommitClear =>
      s.phase.Installing? && s.phase.k == |s.lh| && Fits(s.disk, a)
    case CommitDone => s.phase.Finishing?
    case Crash => true
    case ReadHead => s.phase.Booting? && ValidLog(s.disk, a)
    case RecoverInstall => s.phase.Recovering? && InRange(s, a, s.phase.k)
    case RecoverClear => s.phase.Recovering? && s.phase.k == |s.lh| && Fits(s.disk, a)
  }

  /** The buffer bread returns: the cached one, or one just read from the disk. */
  function Loaded(s: State, b: int): Buf
    requires 0 <= b < |s.disk|
  {
    if b in s.cache && s.cache[b].valid then s.cache[b]
    else if b in s.cache then s.cache[b].(valid := true, data := s.disk[b])
    else Buf(true, s.disk[b], 0, 0, {})
  }

  function DoBeginOp(s: State, p: Pid): State {
    s.(outstanding := s.outstanding + 1, ops := s.ops[p := {}])
  }

  function DoGet(s: State, p: Pid, b: int): State
    requires 0 <= b < |s.disk|
  {
    var e := if b in s.cache then s.cache[b] else Buf(false, s.disk[b], 0, 0, {});
    s.(cache := s.cache[b := e.(refcnt := e.refcnt + 1, users := e.users + {p})])
  }

  function DoLock(s: State, p: Pid, b: int): State
    requires 0 <= b < |s.disk|
  {
    s.(cache := s.cache[b := Loaded(s, b).(holder := p)])
  }

  function DoModify(s: State, b: int, data: Block): State
    requires b in s.cache
  {
    s.(cache := s.cache[b := s.cache[b].(data := data)])
  }

  function DoLogWrite(s: State, p: Pid, b: int): State
    requires b in s.cache && p in s.ops
  {
    var t := s.(ops := s.ops[p := s.ops[p] + {b}]);
    if b in s.lh then t   // log absorption
    else t.(lh := s.lh + [b], cache := s.cache[b := s.cache[b].(refcnt := s.cache[b].refcnt + 1)])
  }

  function DoRelease(s: State, p: Pid, b: int): State
    requires b in s.cache
  {
    var e := s.cache[b];
    s.(cache := s.cache[b := e.(holder := 0, refcnt := e.refcnt - 1, users := e.users - {p})])
  }

  function DoRecycle(s: State, b: int): State {
    s.(cache := s.cache - {b})
  }

  function DoEndOp(s: State, p: Pid): State {
    var t := s.(outstanding := s.outstanding - 1, ops := s.ops - {p});
    if t.outstanding != 0 then t
    else t.(committing := true, phase := if s.lh == [] then Finishing else Logging(0))
  }

  function DoCommitLog(s: State, a: LogArea): State
    requires s.phase.Logging? && InRange(s, a, s.phase.k)
  {
    var k := s.phase.k;
    var slot := Slot(a, k);
    var from := Loaded(s, s.lh[k]);
    s.(disk := s.disk[slot := from.data],
       cache := s.cache[slot := Loaded(s, slot).(data := from.data)],
       phase := Logging(k + 1))
  }

  /** write_head, through the cached header block. */
  function WriteHead(s: State, a: LogArea, bs: seq<int>): State
    requires Fits(s.disk, a) && |bs| <= LOGSIZE
  {
    var head := EncodeHead(Loaded(s, a.start).data, bs);
    s.(disk := s.disk[a.start := head],
       cache := s.cache[a.start := Loaded(s, a.start).(data := head)])
  }

  /** One iteration of install_trans; `unpin` is 1 at commit and 0 at recovery. */
  function InstallOne(s: State, a: LogArea, k: nat, unpin: int): State
    requires InRange(s, a, k)
  {
    var data := Loaded(s, Slot(a, k)).data;
    var dst := Loaded(s, s.lh[k]);
    s.(disk := s.disk[s.lh[k] := data],
       cache := s.cache[s.lh[k] := dst.(data := data, refcnt := dst.refcnt - unpin)])
  }

  ghost function Do(s: State, a: LogArea, step: Step): State
    requires Enabled(s, a, step)
  {
    match step
    case BeginOp(p) => DoBeginOp(s, p)
    case Get(p, b) => DoGet(s, p, b)
    case Lock(p, b) => DoLock(s, p, b)
    case Modify(p, b, data) => DoModify(s, b, data)
    case LogWrite(p, b) => DoLogWrite(s, p, b)
    case Release(p, b) => DoRelease(s, p, b)
    case Recycle(b) => DoRecycle(s, b)
    case EndOp(p) => DoEndOp(s, p)
    case CommitLog => DoCommitLog(s, a)
    case CommitHead => WriteHead(s, a, s.lh).(phase := Installing(0))
    case CommitInstall => InstallOne(s, a, s.phase.k, 1).(phase := Installing(s.phase.k + 1))
    case CommitClear => WriteHead(s, a, []).(lh := [], phase := Finishing)
    case CommitDone => s.(committing := false, phase := Idle)
    case Crash => State(s.disk, map[], [], 0, false, Booting, map[])
    case ReadHead => s.(lh := Txn(s.disk, a), phase := Recovering(0))
    case RecoverInstall => InstallOne(s, a, s.phase.k, 0).(phase := Recovering(s.phase.k + 1))
    case RecoverClear => WriteHead(s, a, []).(lh := [], phase := Idle)
  }

  // ----- the invariant -------------------------------------------------------

  /** Log space set aside for the open operations: what each has not used yet. */
  ghost function Reserved(ops: map<Pid, set<int>>): int {
    if ops == map[] then 0
    else var p :| p in ops; MAXOPBLOCKS - |ops[p]| + Reserved(ops - {p})
  }

  ghost predicate BufOk(s: State, a: LogArea, b: int)
    requires b in s.cache && (s.phase.Installing? ==> s.phase.k <= |s.lh|)
  {
    var e := s.cache[b];
    && 0 <= b < |s.disk|
    && e.refcnt == |e.users| + (if b in Pinned(s) then 1 else 0)
    && (e.holder != 0 ==> e.valid && e.holder in e.users)
    && (InLog(a, b) ==> e.users == {})
    && (e.valid ==> e.data == s.disk[b] || b in Pinned(s) || (e.holder in s.ops && !s.committing))
  }

  ghost predicate BufsOk(s: State, a: LogArea)
    requires s.phase.Installing? ==> s.phase.k <= |s.lh|
  {
    && (forall b | b in s.cache :: BufOk(s, a, b))
    && (forall b | b in Pinned(s) :: b in s.cache && s.cache[b].valid)
  }

  ghost predicate Installed(d: Disk, a: LogArea, bs: seq<int>, k: nat)
    requires Fits(d, a) && ValidTxn(|d|, a, bs) && k <= |bs|
  {
    forall j | 0 <= j < k :: d[Slot(a, j)] == d[bs[j]]
  }

  ghost predicate PhaseOk(s: State, a: LogArea)
    requires ValidLog(s.disk, a) && ValidTxn(|s.disk|, a, s.lh)
  {
    match s.phase
    case Idle =>
      !s.committing && Txn(s.disk, a) == []
    case Logging(k) =>
      && s.committing && Txn(s.disk, a) == [] && k <= |s.lh|
      && s.ops == map[]
      && (forall j | 0 <= j < k :: s.lh[j] in s.cache ==> s.disk[Slot(a, j)] == s.cache[s.lh[j]].data)
    case Installing(k) =>
      && s.committing && Txn(s.disk, a) == s.lh && k <= |s.lh|
      && s.ops == map[]
      && (forall j | k <= j < |s.lh| :: s.lh[j] in s.cache ==> s.disk[Slot(a, j)] == s.cache[s.lh[j]].data)
      && Installed(s.disk, a, s.lh, k)
    case Finishing =>
      s.committing && Txn(s.disk, a) == [] && s.ops == map[] && s.lh == []
    case Booting =>
      !s.committing && s.ops == map[] && s.lh == [] && s.cache == map[]
    case Recovering(k) =>
      && !s.committing && s.ops == map[] && Txn(s.disk, a) == s.lh && k <= |s.lh|
      && Installed(s.disk, a, s.lh, k)
  }

  ghost predicate OpsOk(s: State) {
    && s.outstanding == |s.ops|
    && (forall p | p in s.ops :: |s.ops[p]| <= MAXOPBLOCKS && forall b | b in s.ops[p] :: b in s.lh)
    && |s.lh| + Reserved(s.ops) <= LOGSIZE
  }

  ghost predicate Inv(s: State, a: LogArea) {
    && ValidLog(s.disk, a)
    && ValidTxn(|s.disk|, a, s.lh)
    && PhaseOk(s, a)
    && BufsOk(s, a)
    && OpsOk(s)
  }

  /** A file system as mkfs leaves it: the log header is all zeroes. */
  ghost predicate Init(s: State, a: LogArea) {
    ValidLog(s.disk, a) && Txn(s.disk, a) == [] && s == State(s.disk, map[], [], 0, false, Idle, map[])
  }

  lemma InitInv(s: State, a: LogArea)
    requires Init(s, a)
    ensures Inv(s, a)
  {}

  lemma ReservedRemove(ops: map<Pid, set<int>>, p: Pid)
    requires p in ops
    ensures Reserved(ops) == MAXOPBLOCKS - |ops[p]| + Reserved(ops - {p})
    decreases |ops|
  {
    var q :| q in ops && Reserved(ops) == MAXOPBLOCKS - |ops[q]| + Reserved(ops - {q});
    if q != p {
      ReservedRemove(ops - {q}, p);
      ReservedRemove(ops - {p}, q);
      assert ops - {q} - {p} == ops - {p} - {q};
    }
  }

  lemma ReservedUpdate(ops: map<Pid, set<int>>, p: Pid, bs: set<int>)
    ensures Reserved(ops[p := bs]) == MAXOPBLOCKS - |bs| + Reserved(ops - {p})
  {
    ReservedRemove(ops[p := bs], p);
    assert ops[p := bs] - {p} == ops - {p};
  }

  lemma ReservedNonNegative(ops: map<Pid, set<int>>)
    requires forall p | p in ops :: |ops[p]| <= MAXOPBLOCKS
    ensures 0 <= Reserved(ops)
    decreases |ops|
  {
    if ops != map[] {
      var p :| p in ops && Reserved(ops) == MAXOPBLOCKS - |ops[p]| + Reserved(ops - {p});
      ReservedNonNegative(ops - {p});
    }
  }

  lemma ReservedAtMost(ops: map<Pid, set<int>>)
    ensures Reserved(ops) <= MAXOPBLOCKS * |ops|
    decreases |ops|
  {
    if ops != map[] {
      var p :| p in ops && Reserved(ops) == MAXOPBLOCKS - |ops[p]| + Reserved(ops - {p});
      ReservedAtMost(ops - {p});
    }
  }

  // ----- one step --------------------------------------------------------------

  /** What a bread of each block would return now. */
  ghost function Logical(s: State): (v: Disk)
  {
    seq(|s.disk|, i requires 0 <= i < |s.disk| =>
      if i in s.cache && s.cache[i].valid then s.cache[i].data else s.disk[i])
  }

  lemma ReservedBegin(ops: map<Pid, set<int>>, p: Pid)
    requires p !in ops
    ensures Reserved(ops[p := {}]) <= MAXOPBLOCKS * (|ops| + 1)
    ensures |ops[p := {}]| == |ops| + 1
  {
    ReservedUpdate(ops, p, {});
    assert ops - {p} == ops;
    ReservedAtMost(ops);
  }

  lemma BeginOpKeepsBufs(s: State, a: LogArea, p: Pid)
    requires Inv(s, a) && Enabled(s, a, BeginOp(p))
    ensures BufsOk(DoBeginOp(s, p), a)
  {
    forall c | c in s.cache ensures BufOk(DoBeginOp(s, p), a, c) {
      assert BufOk(s, a, c);
    }
  }

  lemma KeepBeginOp(s: State, a: LogArea, p: Pid)
    requires Inv(s, a) && Enabled(s, a, BeginOp(p))
    ensures Inv(DoBeginOp(s, p), a)
  {
    ReservedBegin(s.ops, p);
    assert OpsOk(DoBeginOp(s, p));
    BeginOpKeepsBufs(s, a, p);
  }

  /** A step that only changes cached buffers, and no pinned contents. */
  lemma CacheFrame(s: State, a: LogArea, t: State)
    requires Inv(s, a) && t == s.(cache := t.cache) && !s.phase.Booting?
    requires BufsOk(t, a)
    requires forall b | b in Pinned(s) :: t.cache[b].data == s.cache[b].data
    ensures Inv(t, a)
  {
    if s.phase.Installing? {
      forall j | s.phase.k <= j < |s.lh| ensures s.lh[j] in Pinned(s) {
        assert s.lh[j] == Pinned(s)[j - s.phase.k];
      }
    }
  }

  lemma GetKeepsBufs(s: State, a: LogArea, p: Pid, b: int)
    requires (s.phase.Installing? ==> s.phase.k <= |s.lh|) && BufsOk(s, a) && Enabled(s, a, Get(p, b))
    ensures BufsOk(DoGet(s, p, b), a)
  {
    var t := DoGet(s, p, b);
    var users := if b in s.cache then s.cache[b].users else {};
    assert |users + {p}| == |users| + 1;
    assert Pinned(t) == Pinned(s);
    forall c | c in t.cache ensures BufOk(t, a, c) {
      assert c in s.cache ==> BufOk(s, a, c);
    }
  }

  lemma KeepGet(s: State, a: LogArea, p: Pid, b: int)
    requires Inv(s, a) && Enabled(s, a, Get(p, b))
    ensures Inv(DoGet(s, p, b), a)
  {
    GetKeepsBufs(s, a, p, b);
    CacheFrame(s, a, DoGet(s, p, b));
  }

  lemma KeepLock(s: State, a: LogArea, p: Pid, b: int)
    requires Inv(s, a) && Enabled(s, a, Lock(p, b))
    ensures Inv(DoLock(s, p, b), a)
  {
    var t := DoLock(s, p, b);
    assert BufsOk(t, a) by {
      forall c | c in t.cache ensures BufOk(t, a, c) {
        assert BufOk(s, a, c);
      }
    }
    CacheFrame(s, a, t);
  }

  lemma KeepModify(s: State, a: LogArea, p: Pid, b: int, data: Block)
    requires Inv(s, a) && Enabled(s, a, Modify(p, b, data))
    ensures Inv(DoModify(s, b, data), a)
  {
    var t := DoModify(s, b, data);
    assert s.phase.Idle?;
    forall c | c in t.cache ensures BufOk(t, a, c) {
      assert BufOk(s, a, c);
    }
  }

  lemma LogWriteKeepsBufs(s: State, a: LogArea, p: Pid, b: int)
    requires Inv(s, a) && Enabled(s, a, LogWrite(p, b))
    ensures BufsOk(DoLogWrite(s, p, b), a)
  {
    var t := DoLogWrite(s, p, b);
    assert s.phase.Idle?;
    forall c | c in t.cache ensures BufOk(t, a, c) {
      assert BufOk(s, a, c);
    }
  }

  lemma LogWriteKeepsOps(s: State, a: LogArea, p: Pid, b: int)
    requires Inv(s, a) && Enabled(s, a, LogWrite(p, b))
    ensures OpsOk(DoLogWrite(s, p, b))
  {
    ReservedRemove(s.ops, p);
    ReservedUpdate(s.ops, p, s.ops[p] + {b});
    if b in s.ops[p] {
      assert s.ops[p] + {b} == s.ops[p];
    } else {
      assert |s.ops[p] + {b}| == |s.ops[p]| + 1;
    }
  }

  lemma LogWriteKeepsPhase(s: State, a: LogArea, p: Pid, b: int)
    requires Inv(s, a) && Enabled(s, a, LogWrite(p, b))
    ensures ValidTxn(|s.disk|, a, DoLogWrite(s, p, b).lh) && PhaseOk(DoLogWrite(s, p, b), a)
  {
    assert BufOk(s, a, b);
    assert s.phase.Idle?;
  }

  lemma KeepLogWrite(s: State, a: LogArea, p: Pid, b: int)
    requires Inv(s, a) && Enabled(s, a, LogWrite(p, b))
    ensures Inv(DoLogWrite(s, p, b), a)
  {
    LogWriteKeepsBufs(s, a, p, b);
    LogWriteKeepsOps(s, a, p, b);
    LogWriteKeepsPhase(s, a, p, b);
  }

  lemma KeepRelease(s: State, a: LogArea, p: Pid, b: int)
    requires Inv(s, a) && Enabled(s, a, Release(p, b))
    ensures Inv(DoRelease(s, p, b), a)
  {
    var t := DoRelease(s, p, b);
    assert BufsOk(t, a) by {
      forall c | c in t.cache ensures BufOk(t, a, c) {
        assert BufOk(s, a, c);
      }
    }
    CacheFrame(s, a, t);
  }

  lemma RecycleKeepsBufs(s: State, a: LogArea, b: int)
    requires (s.phase.Installing? ==> s.phase.k <= |s.lh|) && BufsOk(s, a) && Enabled(s, a, Recycle(b))
    ensures BufsOk(DoRecycle(s, b), a) && b !in Pinned(s)
  {
    assert BufOk(s, a, b);
    forall c | c in DoRecycle(s, b).cache ensures BufOk(DoRecycle(s, b), a, c) {
      assert BufOk(s, a, c);
    }
  }

  lemma KeepRecycle(s: State, a: LogArea, b: int)
    requires Inv(s, a) && Enabled(s, a, Recycle(b))
    ensures Inv(DoRecycle(s, b), a)
  {
    RecycleKeepsBufs(s, a, b);
    CacheFrame(s, a, DoRecycle(s, b));
  }

  lemma KeepEndOp(s: State, a: LogArea, p: Pid)
    requires Inv(s, a) && Enabled(s, a, EndOp(p))
    ensures Inv(DoEndOp(s, p), a)
  {
    var t := DoEndOp(s, p);
    ReservedRemove(s.ops, p);
    ReservedNonNegative(s.ops - {p});
    assert |s.ops - {p}| == |s.ops| - 1;
    if t.outstanding == 0 {
      assert t.ops == map[];
    }
    assert BufsOk(t, a) by {
      forall c | c in t.cache ensures BufOk(t, a, c) {
        assert BufOk(s, a, c);
      }
    }
  }

  /** A log block in the cache is always clean. */
  lemma LogBlockClean(s: State, a: LogArea, slot: int)
    requires Inv(s, a) && InLog(a, slot)
    ensures Loaded(s, slot).data == s.disk[slot]
  {
    if slot in s.cache {
      assert BufOk(s, a, slot);
    }
  }

  /** Writing a block of the log area and its cached copy together. */
  lemma LogAreaBufs(s: State, a: LogArea, slot: int, data: Block, t: State)
    requires Inv(s, a) && InLog(a, slot) && !s.phase.Booting?
    requires t == s.(disk := s.disk[slot := data], cache := s.cache[slot := Loaded(s, slot).(data := data)],
                     phase := t.phase, lh := t.lh)
    requires t.phase.Installing? ==> t.phase.k <= |t.lh|
    requires Pinned(t) == Pinned(s)
    ensures BufsOk(t, a)
  {
    assert slot !in Pinned(s);
    forall c | c in t.cache ensures BufOk(t, a, c) {
      assert c in s.cache ==> BufOk(s, a, c);
    }
  }

  lemma KeepCommitLog(s: State, a: LogArea)
    requires Inv(s, a) && Enabled(s, a, CommitLog)
    ensures Inv(DoCommitLog(s, a), a)
  {
    var t := DoCommitLog(s, a);
    LogAreaBufs(s, a, Slot(a, s.phase.k), Loaded(s, s.lh[s.phase.k]).data, t);
    assert t.disk[a.start] == s.disk[a.start];
  }

  lemma KeepCommitHead(s: State, a: LogArea)
    requires Inv(s, a) && Enabled(s, a, CommitHead)
    ensures Inv(WriteHead(s, a, s.lh).(phase := Installing(0)), a)
    ensures WriteHead(s, a, s.lh).disk == s.disk[a.start := EncodeHead(s.disk[a.start], s.lh)]
  {
    var t := WriteHead(s, a, s.lh).(phase := Installing(0));
    LogBlockClean(s, a, a.start);
    LogAreaBufs(s, a, a.start, t.disk[a.start], t);
    HeadWritten(s.disk, a, s.lh);
  }

  /** Writing a logged block to its home does not change what recovery yields,
      and the blocks installed so far equal their log copies. */
  lemma InstallDisk(d: Disk, a: LogArea, k: nat, e: Disk)
    requires ValidLog(d, a) && k < |Txn(d, a)|
    requires e == d[Txn(d, a)[k] := d[Slot(a, k)]]
    requires Installed(d, a, Txn(d, a), k)
    ensures ValidLog(e, a) && Txn(e, a) == Txn(d, a) && Recover(e, a) == Recover(d, a)
    ensures Installed(e, a, Txn(d, a), k + 1)
    ensures forall i | InLog(a, i) :: e[i] == d[i]
  {
    var bs := Txn(d, a);
    assert forall i | InLog(a, i) :: i != bs[k];
    assert InLog(a, a.start);
    RecoverSame(d, e, a);
  }

  /** Installing the next block takes it, and no other, off the pinned ones. */
  lemma PinnedNext(s: State, a: LogArea, k: nat)
    requires ValidTxn(|s.disk|, a, s.lh) && s.phase == Installing(k) && k < |s.lh|
    ensures s.lh[k] in Pinned(s) && s.lh[k] !in s.lh[k + 1..]
    ensures forall c | c != s.lh[k] :: c in s.lh[k + 1..] <==> c in Pinned(s)
  {
    assert Pinned(s)[0] == s.lh[k] && Pinned(s)[1..] == s.lh[k + 1..];
  }

  lemma InstallKeepsBuf(s: State, a: LogArea, k: nat, c: int, t: State)
    requires s.phase == Installing(k) && InRange(s, a, k) && Unlocked(s, s.lh[k]) && c in s.cache && BufOk(s, a, c)
    requires s.lh[k] in Pinned(s) && s.lh[k] !in s.lh[k + 1..]
    requires c != s.lh[k] ==> (c in s.lh[k + 1..] <==> c in Pinned(s))
    requires t == InstallOne(s, a, k, 1).(phase := Installing(k + 1))
    ensures BufOk(t, a, c)
  {}

  lemma InstallKeepsBufs(s: State, a: LogArea)
    requires Enabled(s, a, CommitInstall) && ValidTxn(|s.disk|, a, s.lh) && BufsOk(s, a)
    ensures BufsOk(InstallOne(s, a, s.phase.k, 1).(phase := Installing(s.phase.k + 1)), a)
  {
    var k := s.phase.k;
    var t := InstallOne(s, a, k, 1).(phase := Installing(k + 1));
    PinnedNext(s, a, k);
    forall c | c in t.cache ensures BufOk(t, a, c) {
      assert BufOk(s, a, c);
      InstallKeepsBuf(s, a, k, c, t);
    }
  }

  lemma InstallKeepsPhase(s: State, a: LogArea)
    requires ValidLog(s.disk, a) && ValidTxn(|s.disk|, a, s.lh) && PhaseOk(s, a)
    requires s.phase.Installing? && s.phase.k < |s.lh|
    requires Loaded(s, Slot(a, s.phase.k)).data == s.disk[Slot(a, s.phase.k)]
    ensures ValidLog(InstallOne(s, a, s.phase.k, 1).disk, a)
    ensures PhaseOk(InstallOne(s, a, s.phase.k, 1).(phase := Installing(s.phase.k + 1)), a)
    ensures Recover(InstallOne(s, a, s.phase.k, 1).disk, a) == Recover(s.disk, a)
  {
    InstallDisk(s.disk, a, s.phase.k, InstallOne(s, a, s.phase.k, 1).disk);
    assert forall j | 0 <= j < |s.lh| :: InLog(a, Slot(a, j));
  }

  lemma KeepCommitInstall(s: State, a: LogArea)
    requires Inv(s, a) && Enabled(s, a, CommitInstall)
    ensures Inv(InstallOne(s, a, s.phase.k, 1).(phase := Installing(s.phase.k + 1)), a)
    ensures Recover(InstallOne(s, a, s.phase.k, 1).disk, a) == Recover(s.disk, a)
  {
    InstallKeepsBufs(s, a);
    LogBlockClean(s, a, Slot(a, s.phase.k));
    InstallKeepsPhase(s, a);
  }

  lemma KeepCommitClear(s: State, a: LogArea)
    requires Inv(s, a) && Enabled(s, a, CommitClear)
    ensures Inv(WriteHead(s, a, []).(lh := [], phase := Finishing), a)
  {
    var t := WriteHead(s, a, []).(lh := [], phase := Finishing);
    LogAreaBufs(s, a, a.start, t.disk[a.start], t);
    HeadWritten(s.disk, a, []);
    LogBlockClean(s, a, a.start);
  }

  lemma RecoverKeepsBufs(s: State, a: LogArea)
    requires Inv(s, a) && Enabled(s, a, RecoverInstall)
    ensures BufsOk(InstallOne(s, a, s.phase.k, 0).(phase := Recovering(s.phase.k + 1)), a)
  {
    var t := InstallOne(s, a, s.phase.k, 0).(phase := Recovering(s.phase.k + 1));
    forall c | c in t.cache ensures BufOk(t, a, c) {
      assert c in s.cache ==> BufOk(s, a, c);
    }
  }

  lemma RecoverKeepsPhase(s: State, a: LogArea)
    requires ValidLog(s.disk, a) && ValidTxn(|s.disk|, a, s.lh) && PhaseOk(s, a)
    requires s.phase.Recovering? && s.phase.k < |s.lh|
    requires Loaded(s, Slot(a, s.phase.k)).data == s.disk[Slot(a, s.phase.k)]
    ensures ValidLog(InstallOne(s, a, s.phase.k, 0).disk, a)
    ensures PhaseOk(InstallOne(s, a, s.phase.k, 0).(phase := Recovering(s.phase.k + 1)), a)
    ensures Recover(InstallOne(s, a, s.phase.k, 0).disk, a) == Recover(s.disk, a)
  {
    InstallDisk(s.disk, a, s.phase.k, InstallOne(s, a, s.phase.k, 0).disk);
  }

  lemma KeepRecoverInstall(s: State, a: LogArea)
    requires Inv(s, a) && Enabled(s, a, RecoverInstall)
    ensures Inv(InstallOne(s, a, s.phase.k, 0).(phase := Recovering(s.phase.k + 1)), a)
    ensures Recover(InstallOne(s, a, s.phase.k, 0).disk, a) == Recover(s.disk, a)
  {
    RecoverKeepsBufs(s, a);
    LogBlockClean(s, a, Slot(a, s.phase.k));
    RecoverKeepsPhase(s, a);
  }

  lemma KeepRecoverClear(s: State, a: LogArea)
    requires Inv(s, a) && Enabled(s, a, RecoverClear)
    ensures Inv(WriteHead(s, a, []).(lh := [], phase := Idle), a)
  {
    var t := WriteHead(s, a, []).(lh := [], phase := Idle);
    LogAreaBufs(s, a, a.start, t.disk[a.start], t);
    HeadWritten(s.disk, a, []);
    LogBlockClean(s, a, a.start);
  }

  lemma KeepCommitDone(s: State, a: LogArea)
    requires Inv(s, a) && Enabled(s, a, CommitDone)
    ensures Inv(s.(committing := false, phase := Idle), a)
  {
    var t := s.(committing := false, phase := Idle);
    forall c | c in t.cache ensures BufOk(t, a, c) { assert BufOk(s, a, c); }
  }

  lemma KeepCrash(s: State, a: LogArea)
    requires Inv(s, a)
    ensures Inv(State(s.disk, map[], [], 0, false, Booting, map[]), a)
  {}

  lemma KeepReadHead(s: State, a: LogArea)
    requires Inv(s, a) && Enabled(s, a, ReadHead)
    ensures Inv(s.(lh := Txn(s.disk, a), phase := Recovering(0)), a)
  {}

  lemma KeepInvProcess(s: State, a: LogArea, step: Step)
    requires Inv(s, a) && Enabled(s, a, step)
    requires step.BeginOp? || step.Get? || step.Lock? || step.Modify? || step.LogWrite? || step.Release?
      || step.Recycle?
    ensures Inv(Do(s, a, step), a)
  {
    match step
    case BeginOp(p) => KeepBeginOp(s, a, p);
    case Get(p, b) => KeepGet(s, a, p, b);
    case Lock(p, b) => KeepLock(s, a, p, b);
    case Modify(p, b, data) => KeepModify(s, a, p, b, data);
    case LogWrite(p, b) => KeepLogWrite(s, a, p, b);
    case Release(p, b) => KeepRelease(s, a, p, b);
    case Recycle(b) => KeepRecycle(s, a, b);
  }

  lemma KeepInvCommit(s: State, a: LogArea, step: Step)
    requires Inv(s, a) && Enabled(s, a, step)
    requires step.EndOp? || step.CommitLog? || step.CommitHead? || step.CommitInstall? || step.CommitClear?
    ensures Inv(Do(s, a, step), a)
  {
    match step
    case EndOp(p) => KeepEndOp(s, a, p);
    case CommitLog => KeepCommitLog(s, a);
    case CommitHead => KeepCommitHead(s, a);
    case CommitInstall => KeepCommitInstall(s, a);
    case CommitClear => KeepCommitClear(s, a);
  }

  lemma KeepInvRecovery(s: State, a: LogArea, step: Step)
    requires Inv(s, a) && Enabled(s, a, step)
    requires step in {CommitDone, Crash, ReadHead, RecoverInstall, RecoverClear}
    ensures Inv(Do(s, a, step), a)
  {
    match step
    case RecoverInstall => KeepRecoverInstall(s, a);
    case RecoverClear => KeepRecoverClear(s, a);
    case CommitDone => KeepCommitDone(s, a);
    case Crash => KeepCrash(s, a);
    case ReadHead => KeepReadHead(s, a);
  }

  /** Every step of every process, of the commit and of recovery keeps the invariant. */
  lemma KeepInv(s: State, a: LogArea, step: Step)
    requires Inv(s, a) && Enabled(s, a, step)
    ensures Inv(Do(s, a, step), a)
  {
    if step.BeginOp? || step.Get? || step.Lock? || step.Modify? || step.LogWrite? || step.Release? || step.Recycle? {
      KeepInvProcess(s, a, step);
    } else if step.EndOp? || step.CommitLog? || step.CommitHead? || step.CommitInstall? || step.CommitClear? {
      KeepInvCommit(s, a, step);
    } else {
      KeepInvRecovery(s, a, step);
    }
  }
}
