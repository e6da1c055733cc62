/** What the log promises, over every interleaving and every crash. */
module LogTheorems {
  import opened RedoLog
  import opened LogProtocol

  // ----- one step, seen through recovery and through bread ---------------------

  /** Writing one log block leaves what recovery would yield unchanged while the header is empty. */
  lemma EmptyLogRecovers(d: Disk, e: Disk, a: LogArea)
    requires ValidLog(d, a) && Txn(d, a) == [] && ValidLog(e, a) && Txn(e, a) == []
    requires SameHome(d, e, a)
    ensures SameHome(Recover(d, a), Recover(e, a), a)
    ensures SameHome(d, Recover(d, a), a)
  {
    RecoverAt(d, a);
    RecoverAt(e, a);
    assert InLog(a, a.start);
  }

  /** Once every block is installed, clearing the header changes nothing recovery yields. */
  lemma ClearRecovers(d: Disk, e: Disk, a: LogArea)
    requires ValidLog(d, a) && Installed(d, a, Txn(d, a), |Txn(d, a)|)
    requires e == d[a.start := EncodeHead(d[a.start], [])]
    ensures ValidLog(e, a) && Txn(e, a) == []
    ensures SameHome(Recover(d, a), Recover(e, a), a) && SameHome(e, Recover(d, a), a)
  {
    HeadWritten(d, a, []);
    RecoverAt(d, a);
    RecoverAt(e, a);
    assert InLog(a, a.start);
    var bs := Txn(d, a);
    forall i | 0 <= i < |d| && !InLog(a, i) ensures Recover(d, a)[i] == d[i] {
      if i in bs {
        var j :| 0 <= j < |bs| && bs[j] == i;
      }
    }
  }

  lemma LogWriteRecovers(s: State, a: LogArea)
    requires Inv(s, a) && Enabled(s, a, CommitLog)
    ensures ValidLog(DoCommitLog(s, a).disk, a)
    ensures SameHome(Recover(s.disk, a), Recover(DoCommitLog(s, a).disk, a), a)
  {
    KeepCommitLog(s, a);
    EmptyLogRecovers(s.disk, DoCommitLog(s, a).disk, a);
  }

  /** Before the header is cleared, every block of the log is installed. */
  lemma AllInstalled(s: State, a: LogArea)
    requires ValidLog(s.disk, a) && ValidTxn(|s.disk|, a, s.lh) && PhaseOk(s, a)
    requires (s.phase.Installing? || s.phase.Recovering?) && s.phase.k == |s.lh|
    ensures Installed(s.disk, a, Txn(s.disk, a), |Txn(s.disk, a)|)
  {}

  lemma HeadClearRecovers(s: State, a: LogArea)
    requires ValidLog(s.disk, a) && Loaded(s, a.start).data == s.disk[a.start]
    requires Installed(s.disk, a, Txn(s.disk, a), |Txn(s.disk, a)|)
    ensures ValidLog(WriteHead(s, a, []).disk, a)
    ensures SameHome(Recover(s.disk, a), Recover(WriteHead(s, a, []).disk, a), a)
  {
    ClearRecovers(s.disk, WriteHead(s, a, []).disk, a);
  }

  lemma ClearUnseen(s: State, a: LogArea)
    requires Inv(s, a) && (s.phase.Installing? || s.phase.Recovering?) && s.phase.k == |s.lh|
    ensures ValidLog(WriteHead(s, a, []).disk, a)
    ensures SameHome(Recover(s.disk, a), Recover(WriteHead(s, a, []).disk, a), a)
  {
    AllInstalled(s, a);
    LogBlockClean(s, a, a.start);
    HeadClearRecovers(s, a);
  }

  /** No step but the header write of a commit changes what a crash would recover to. */
  lemma RecoveredUnchanged(s: State, a: LogArea, step: Step)
    requires Inv(s, a) && Enabled(s, a, step) && step != CommitHead
    ensures ValidLog(Do(s, a, step).disk, a)
    ensures SameHome(Recover(s.disk, a), Recover(Do(s, a, step).disk, a), a)
  {
    match step
    case CommitLog => LogWriteRecovers(s, a);
    case CommitInstall => KeepCommitInstall(s, a);
    case RecoverInstall => KeepRecoverInstall(s, a);
    case CommitClear => ClearUnseen(s, a);
    case RecoverClear => ClearUnseen(s, a);
    case _ =>
  }

  /** What every process sees in a home block when the header is about to be
      written: the log copy if the block is logged, the disk's block if not. */
  lemma SeenAtCommit(s: State, a: LogArea, i: int)
    requires Inv(s, a) && Enabled(s, a, CommitHead) && 0 <= i < |s.disk| && !InLog(a, i)
    ensures i !in s.lh ==> Logical(s)[i] == s.disk[i]
    ensures forall j | 0 <= j < |s.lh| :: s.lh[j] == i ==> Logical(s)[i] == s.disk[Slot(a, j)]
  {
    if i in s.lh {
      assert i in Pinned(s);
    } else if i in s.cache {
      assert BufOk(s, a, i);
    }
  }

  lemma RecoveredAtCommit(d: Disk, a: LogArea, bs: seq<int>, i: int)
    requires Fits(d, a) && ValidTxn(|d|, a, bs) && 0 <= i < |d| && !InLog(a, i)
    ensures ValidLog(d[a.start := EncodeHead(d[a.start], bs)], a)
    ensures i !in bs ==> Recover(d[a.start := EncodeHead(d[a.start], bs)], a)[i] == d[i]
    ensures forall j | 0 <= j < |bs| :: bs[j] == i ==>
      Recover(d[a.start := EncodeHead(d[a.start], bs)], a)[i] == d[Slot(a, j)]
  {
    HeadWritten(d, a, bs);
    RecoverAt(d[a.start := EncodeHead(d[a.start], bs)], a);
    assert InLog(a, a.start);
  }

  lemma RecoveredAllAtCommit(s: State, a: LogArea, e: Disk)
    requires Inv(s, a) && Enabled(s, a, CommitHead)
    requires e == s.disk[a.start := EncodeHead(s.disk[a.start], s.lh)]
    ensures ValidLog(e, a) && Txn(e, a) == s.lh
    ensures SameHome(Logical(s), Recover(e, a), a)
  {
    HeadWritten(s.disk, a, s.lh);
    forall i | 0 <= i < |e| && !InLog(a, i) ensures Logical(s)[i] == Recover(e, a)[i] {
      SeenAtCommit(s, a, i);
      RecoveredAtCommit(s.disk, a, s.lh, i);
    }
  }

  /** The header write makes recovery yield exactly the blocks every process
      sees at that moment, when no operation is open. */
  lemma CommitPointStep(s: State, a: LogArea)
    requires Inv(s, a) && Enabled(s, a, CommitHead)
    ensures s.ops == map[] && s.committing
    ensures ValidLog(Do(s, a, CommitHead).disk, a)
    ensures Txn(Do(s, a, CommitHead).disk, a) == s.lh
    ensures SameHome(Logical(s), Recover(Do(s, a, CommitHead).disk, a), a)
  {
    LogBlockClean(s, a, a.start);
    RecoveredAllAtCommit(s, a, Do(s, a, CommitHead).disk);
  }

  predicate IsRecovery(step: Step) {
    step.ReadHead? || step.RecoverInstall? || step.RecoverClear?
  }

  lemma RecycleUnseen(s: State, a: LogArea, b: int)
    requires (s.phase.Installing? ==> s.phase.k <= |s.lh|) && Enabled(s, a, Recycle(b)) && BufOk(s, a, b)
    ensures Logical(s) == Logical(DoRecycle(s, b))
  {
    assert s.cache[b].valid ==> s.cache[b].data == s.disk[b];
  }

  lemma InstallUnseen(s: State, a: LogArea, k: nat)
    requires InRange(s, a, k) && s.lh[k] in s.cache && s.cache[s.lh[k]].valid
    requires Loaded(s, Slot(a, k)).data == s.cache[s.lh[k]].data
    ensures Logical(s) == Logical(InstallOne(s, a, k, 1))
  {}

  /** The block that is installed next is pinned, and its buffer holds what its log slot holds. */
  lemma AboutToInstall(s: State, a: LogArea)
    requires Inv(s, a) && Enabled(s, a, CommitInstall)
    ensures s.lh[s.phase.k] in s.cache && s.cache[s.lh[s.phase.k]].valid
    ensures Loaded(s, Slot(a, s.phase.k)).data == s.cache[s.lh[s.phase.k]].data
  {
    LogBlockClean(s, a, Slot(a, s.phase.k));
    assert s.lh[s.phase.k] == Pinned(s)[0];
  }

  lemma LogAreaUnseen(s: State, a: LogArea, slot: int, t: State)
    requires InLog(a, slot) && |t.disk| == |s.disk|
    requires forall i | 0 <= i < |s.disk| && i != slot :: t.disk[i] == s.disk[i]
    requires forall i | i != slot :: (i in t.cache <==> i in s.cache)
    requires forall i | i in s.cache && i != slot :: t.cache[i] == s.cache[i]
    ensures SameHome(Logical(s), Logical(t), a)
  {
  }

  lemma ProcessUnseen(s: State, a: LogArea, step: Step)
    requires Enabled(s, a, step)
    requires step.BeginOp? || step.Get? || step.LogWrite? || step.Release? || step.EndOp? || step.CommitDone?
    ensures Logical(s) == Logical(Do(s, a, step))
  {}

  lemma LockUnseen(s: State, a: LogArea, p: Pid, b: int)
    requires Enabled(s, a, Lock(p, b))
    ensures Logical(s) == Logical(DoLock(s, p, b))
  {}

  lemma CommitInstallUnseen(s: State, a: LogArea)
    requires Inv(s, a) && Enabled(s, a, CommitInstall)
    ensures Logical(s) == Logical(InstallOne(s, a, s.phase.k, 1))
  {
    AboutToInstall(s, a);
    InstallUnseen(s, a, s.phase.k);
  }

  lemma LogAreaWriteUnseen(s: State, a: LogArea, step: Step)
    requires Enabled(s, a, step) && (step.CommitHead? || step.CommitClear? || step.CommitLog?)
    ensures SameHome(Logical(s), Logical(Do(s, a, step)), a)
  {
    LogAreaUnseen(s, a, if step.CommitLog? then Slot(a, s.phase.k) else a.start, Do(s, a, step));
  }

  /** Recycling a buffer, locking it, logging it and committing it change no
      block any process sees: only a modification does. */
  lemma LogicalUnchanged(s: State, a: LogArea, step: Step)
    requires Inv(s, a) && Enabled(s, a, step)
    requires !step.Modify? && !step.Crash? && !IsRecovery(step)
    ensures SameHome(Logical(s), Logical(Do(s, a, step)), a)
  {
    match step
    case Recycle(b) => RecycleUnseen(s, a, b);
    case Lock(p, b) => LockUnseen(s, a, p, b);
    case CommitInstall => CommitInstallUnseen(s, a);
    case CommitHead => LogAreaWriteUnseen(s, a, step);
    case CommitClear => LogAreaWriteUnseen(s, a, step);
    case CommitLog => LogAreaWriteUnseen(s, a, step);
    case _ => ProcessUnseen(s, a, step);
  }

  /** bread returns what the block was last set to, whether it was cached,
      recycled since, or never read. */
  lemma ReadLogical(s: State, a: LogArea, p: Pid, b: int)
    requires Enabled(s, a, Lock(p, b))
    ensures Do(s, a, Lock(p, b)).cache[b].data == Logical(s)[b]
  {
  }

  /** With no operation open and nothing pinned (a commit has just finished, or
      recovery has), what the processes see is what a crash would recover to. */
  lemma QuietIsDurable(s: State, a: LogArea)
    requires Inv(s, a) && s.ops == map[] && Txn(s.disk, a) == []
    requires !s.phase.Installing? && Pinned(s) == []
    ensures SameHome(Logical(s), Recover(s.disk, a), a)
  {
    EmptyLogRecovers(s.disk, s.disk, a);
    forall i | 0 <= i < |s.disk| ensures Logical(s)[i] == s.disk[i] {
      if i in s.cache {
        assert BufOk(s, a, i);
      }
    }
  }

  // ----- whole runs ----------------------------------------------------------

  ghost predicate StepAt(a: LogArea, ss: seq<State>, steps: seq<Step>, i: int) {
    0 <= i < |steps| && i + 1 < |ss| && Enabled(ss[i], a, steps[i]) && ss[i + 1] == Do(ss[i], a, steps[i])
  }

  /** States ss joined by steps, from a file system as mkfs leaves it. */
  ghost predicate IsRun(a: LogArea, ss: seq<State>, steps: seq<Step>) {
    && |ss| == |steps| + 1 && Init(ss[0], a)
    && forall i | 0 <= i < |steps| :: StepAt(a, ss, steps, i)
  }

  lemma {:induction false} RunInv(a: LogArea, ss: seq<State>, steps: seq<Step>, i: nat)
    requires IsRun(a, ss, steps) && i < |ss|
    ensures Inv(ss[i], a)
  {
    if i == 0 {
      InitInv(ss[0], a);
    } else {
      RunInv(a, ss, steps, i - 1);
      assert StepAt(a, ss, steps, i - 1);
      KeepInv(ss[i - 1], a, steps[i - 1]);
    }
  }

  lemma RunStep(a: LogArea, ss: seq<State>, steps: seq<Step>, i: nat)
    requires IsRun(a, ss, steps) && i < |steps|
    ensures Inv(ss[i], a) && Enabled(ss[i], a, steps[i]) && ss[i + 1] == Do(ss[i], a, steps[i])
  {
    RunInv(a, ss, steps, i);
    assert StepAt(a, ss, steps, i);
  }

  /** The index of the state in which the last commit of a run wrote its header;
      0 if none did. */
  function CommitPoint(steps: seq<Step>): (c: nat)
    ensures c <= |steps|
    ensures c == |steps| ==> steps == []
    ensures forall i | 0 <= i < |steps| && steps[i] == CommitHead :: i <= c
  {
    if steps == [] then 0
    else if steps[|steps| - 1] == CommitHead then |steps| - 1
    else CommitPoint(steps[..|steps| - 1])
  }

  lemma SameHomeTransitive(d: Disk, e: Disk, f: Disk, a: LogArea)
    requires SameHome(d, e, a) && SameHome(e, f, a)
    ensures SameHome(d, f, a) && SameHome(e, d, a)
  {}

  lemma RecoveredStill(s: State, a: LogArea, step: Step, view: Disk)
    requires Inv(s, a) && Enabled(s, a, step) && step != CommitHead
    requires SameHome(view, Recover(s.disk, a), a)
    ensures ValidLog(Do(s, a, step).disk, a) && SameHome(view, Recover(Do(s, a, step).disk, a), a)
  {
    RecoveredUnchanged(s, a, step);
    SameHomeTransitive(view, Recover(s.disk, a), Recover(Do(s, a, step).disk, a), a);
  }

  lemma PrefixRun(a: LogArea, ss: seq<State>, steps: seq<Step>, n: nat)
    requires IsRun(a, ss, steps) && n <= |steps|
    ensures IsRun(a, ss[..n + 1], steps[..n])
  {
    var ss', steps' := ss[..n + 1], steps[..n];
    forall i | 0 <= i < n ensures StepAt(a, ss', steps', i) { assert StepAt(a, ss, steps, i); }
  }

  lemma CommitsAt(a: LogArea, ss: seq<State>, steps: seq<Step>, n: nat)
    requires IsRun(a, ss, steps) && n < |steps| && steps[n] == CommitHead
    ensures ss[n].ops == map[] && ValidLog(ss[n + 1].disk, a)
    ensures SameHome(Logical(ss[n]), Recover(ss[n + 1].disk, a), a)
  {
    RunStep(a, ss, steps, n);
    CommitPointStep(ss[n], a);
  }

  lemma StillDurable(a: LogArea, ss: seq<State>, steps: seq<Step>, n: nat, view: Disk)
    requires IsRun(a, ss, steps) && n < |steps| && steps[n] != CommitHead
    requires ValidLog(ss[n].disk, a) && SameHome(view, Recover(ss[n].disk, a), a)
    ensures ValidLog(ss[n + 1].disk, a) && SameHome(view, Recover(ss[n + 1].disk, a), a)
  {
    RunStep(a, ss, steps, n);
    RecoveredStill(ss[n], a, steps[n], view);
  }

  /** Crash consistency of every run, crashes and interrupted recoveries
      included: at any point, recovering the disk yields exactly what the
      processes saw at the last commit point, and there no operation was open.
      CommitPoint's contract adds durability: no committed transaction is lost. */
  lemma {:induction false} CrashConsistency(a: LogArea, ss: seq<State>, steps: seq<Step>)
    requires IsRun(a, ss, steps)
    ensures ValidLog(ss[|steps|].disk, a)
    ensures ss[CommitPoint(steps)].ops == map[]
    ensures SameHome(Logical(ss[CommitPoint(steps)]), Recover(ss[|steps|].disk, a), a)
    decreases |steps|
  {
    if steps == [] {
      RunInv(a, ss, steps, 0);
      EmptyLogRecovers(ss[0].disk, ss[0].disk, a);
    } else {
      var n := |steps| - 1;
      if steps[n] == CommitHead {
        CommitsAt(a, ss, steps, n);
      } else {
        PrefixRun(a, ss, steps, n);
        CrashConsistency(a, ss[..n + 1], steps[..n]);
        StillDurable(a, ss, steps, n, Logical(ss[CommitPoint(steps)]));
      }
    }
  }

  /** No operation is open, and the kernel is past recovery. */
  predicate Quiet(s: State) {
    s.ops == map[] && Running(s)
  }

  lemma {:induction false} CommitPointRuns(a: LogArea, ss: seq<State>, steps: seq<Step>)
    requires IsRun(a, ss, steps)
    ensures Running(ss[CommitPoint(steps)])
    decreases |steps|
  {
    if steps != [] {
      var n := |steps| - 1;
      if steps[n] == CommitHead {
        assert StepAt(a, ss, steps, n);
      } else {
        PrefixRun(a, ss, steps, n);
        CommitPointRuns(a, ss[..n + 1], steps[..n]);
      }
    }
  }

  /** An invariant of the home blocks that operations keep, so that it holds of what processes see
      whenever no operation is open, holds of what recovery makes of the disk at any time: in the
      middle of operations, commits and recoveries too. */
  lemma InvariantAfterCrash(a: LogArea, ss: seq<State>, steps: seq<Step>, holds: Disk -> bool, j: nat)
    requires IsRun(a, ss, steps) && j <= |steps|
    requires forall d, e | SameHome(d, e, a) :: holds(d) == holds(e)
    requires forall k | 0 <= k <= |steps| && Quiet(ss[k]) :: holds(Logical(ss[k]))
    ensures ValidLog(ss[j].disk, a) && holds(Recover(ss[j].disk, a))
  {
    PrefixRun(a, ss, steps, j);
    CrashConsistency(a, ss[..j + 1], steps[..j]);
    CommitPointRuns(a, ss[..j + 1], steps[..j]);
    var c := CommitPoint(steps[..j]);
    assert ss[..j + 1][c] == ss[c] && Quiet(ss[c]);
  }

  /** Steps i .. j - 1 neither modify block b nor crash or recover. */
  predicate LeftAlone(steps: seq<Step>, i: nat, j: nat, b: int)
    requires i <= j <= |steps|
  {
    forall k | i <= k < j ::
      !steps[k].Crash? && !IsRecovery(steps[k]) && (steps[k].Modify? ==> steps[k].b != b)
  }

  lemma SeenStill(s: State, a: LogArea, step: Step, b: int)
    requires Inv(s, a) && Enabled(s, a, step)
    requires !step.Crash? && !IsRecovery(step) && (step.Modify? ==> step.b != b)
    requires 0 <= b < |s.disk| && !InLog(a, b)
    ensures |Do(s, a, step).disk| == |s.disk| && Logical(Do(s, a, step))[b] == Logical(s)[b]
  {
    if !step.Modify? {
      LogicalUnchanged(s, a, step);
    }
  }

  lemma {:induction false} SeenUntilModified(a: LogArea, ss: seq<State>, steps: seq<Step>, i: nat, j: nat, b: int)
    requires IsRun(a, ss, steps) && i <= j <= |steps| && LeftAlone(steps, i, j, b)
    requires 0 <= b < |ss[i].disk| && !InLog(a, b)
    ensures |ss[j].disk| == |ss[i].disk| && Logical(ss[j])[b] == Logical(ss[i])[b]
    decreases j - i
  {
    if i < j {
      SeenUntilModified(a, ss, steps, i, j - 1, b);
      RunStep(a, ss, steps, j - 1);
      SeenStill(ss[j - 1], a, steps[j - 1], b);
    }
  }

  lemma ModifySeen(s: State, a: LogArea, p: Pid, b: int, data: Block)
    requires Inv(s, a) && Enabled(s, a, Modify(p, b, data))
    ensures 0 <= b < |s.disk| && !InLog(a, b) && Logical(DoModify(s, b, data))[b] == data
  {
    assert BufOk(s, a, b);
  }

  lemma ModifiedIs(a: LogArea, ss: seq<State>, steps: seq<Step>, i: nat, p: Pid, b: int, data: Block)
    requires IsRun(a, ss, steps) && i < |steps| && steps[i] == Modify(p, b, data)
    ensures 0 <= b < |ss[i + 1].disk| && !InLog(a, b) && Logical(ss[i + 1])[b] == data
  {
    RunStep(a, ss, steps, i);
    ModifySeen(ss[i], a, p, b, data);
  }

  lemma LockedIs(a: LogArea, ss: seq<State>, steps: seq<Step>, j: nat, q: Pid, b: int)
    requires IsRun(a, ss, steps) && j < |steps| && steps[j] == Lock(q, b) && 0 <= b < |ss[j].disk|
    ensures b in ss[j + 1].cache && ss[j + 1].cache[b].data == Logical(ss[j])[b]
  {
    RunStep(a, ss, steps, j);
    ReadLogical(ss[j], a, q, b);
  }

  /** Cache transparency: between crashes, bread returns the data of the
      block's last modification, whatever was recycled or committed since. */
  lemma ReadLastWrite(a: LogArea, ss: seq<State>, steps: seq<Step>, i: nat, j: nat, p: Pid, q: Pid, b: int, data: Block)
    requires IsRun(a, ss, steps) && i < j < |steps|
    requires steps[i] == Modify(p, b, data) && steps[j] == Lock(q, b)
    requires LeftAlone(steps, i + 1, j, b)
    ensures b in ss[j + 1].cache && ss[j + 1].cache[b].data == data
  {
    ModifiedIs(a, ss, steps, i, p, b, data);
    SeenUntilModified(a, ss, steps, i + 1, j, b);
    LockedIs(a, ss, steps, j, q, b);
  }

  // ----- group commit ----------------------------------------------------------

  /** No commit has cleared the log, and nothing has crashed or recovered, in steps i .. j - 1. */
  ghost predicate SameTxn(steps: seq<Step>, i: int, j: int) {
    0 <= i <= j <= |steps| && forall k | i <= k < j ::
      !steps[k].Crash? && !steps[k].CommitClear? && !IsRecovery(steps[k])
  }

  /** The in-memory header only grows until the commit clears it. */
  lemma {:induction false} LoggedUntilCleared(a: LogArea, ss: seq<State>, steps: seq<Step>, i: nat, j: nat)
    requires IsRun(a, ss, steps) && SameTxn(steps, i, j)
    ensures ss[i].lh <= ss[j].lh
    decreases j - i
  {
    if i < j {
      LoggedUntilCleared(a, ss, steps, i, j - 1);
      assert StepAt(a, ss, steps, j - 1);
      if !steps[j - 1].LogWrite? { assert ss[j].lh == ss[j - 1].lh; }
    }
  }

  /** Step k logged block b for process p's operation, in the transaction of state j. */
  ghost predicate LoggedBy(steps: seq<Step>, j: int, b: int, k: int, p: Pid) {
    0 <= k < j <= |steps| && steps[k] == LogWrite(p, b) && SameTxn(steps, k, j)
  }

  lemma ClosedWhenDown(s: State, a: LogArea)
    requires Inv(s, a)
    ensures !Running(s) ==> s.ops == map[]
  {}

  lemma RunningBefore(s: State, a: LogArea, step: Step)
    requires (!Running(s) ==> s.ops == map[]) && Enabled(s, a, step)
    requires Running(Do(s, a, step)) && Do(s, a, step).lh != []
    ensures !step.Crash? && !step.CommitClear? && !IsRecovery(step) && Running(s)
  {}

  lemma LoggedStep(s: State, a: LogArea, step: Step, b: int)
    requires (!Running(s) ==> s.ops == map[]) && Enabled(s, a, step)
    requires Running(Do(s, a, step)) && b in Do(s, a, step).lh
    ensures !step.Crash? && !step.CommitClear? && !IsRecovery(step) && Running(s)
    ensures b in s.lh || (step.LogWrite? && step.b == b)
  {
    RunningBefore(s, a, step);
  }

  lemma LoggedPrevious(a: LogArea, ss: seq<State>, steps: seq<Step>, j: nat, b: int)
    requires IsRun(a, ss, steps) && 0 < j <= |steps| && Running(ss[j]) && b in ss[j].lh
    ensures Running(ss[j - 1]) && SameTxn(steps, j - 1, j)
    ensures b in ss[j - 1].lh || (steps[j - 1].LogWrite? && steps[j - 1].b == b)
  {
    RunStep(a, ss, steps, j - 1);
    ClosedWhenDown(ss[j - 1], a);
    LoggedStep(ss[j - 1], a, steps[j - 1], b);
  }

  lemma {:induction false} LoggedBefore(a: LogArea, ss: seq<State>, steps: seq<Step>, j: nat, b: int)
    requires IsRun(a, ss, steps) && j <= |steps| && Running(ss[j]) && b in ss[j].lh
    ensures exists k, p :: LoggedBy(steps, j, b, k, p)
  {
    if j > 0 {
      LoggedPrevious(a, ss, steps, j, b);
      if steps[j - 1].LogWrite? && steps[j - 1].b == b {
        assert LoggedBy(steps, j, b, j - 1, steps[j - 1].p);
      } else {
        LoggedBefore(a, ss, steps, j - 1, b);
        var k, p :| LoggedBy(steps, j - 1, b, k, p);
        assert LoggedBy(steps, j, b, k, p);
      }
    }
  }

  /** The in-memory header lists what was logged since it was last cleared, and nothing else. */
  lemma {:induction false} LoggedExactly(a: LogArea, ss: seq<State>, steps: seq<Step>, j: nat, b: int)
    requires IsRun(a, ss, steps) && j <= |steps| && Running(ss[j])
    ensures b in ss[j].lh <==> exists k, p :: LoggedBy(steps, j, b, k, p)
  {
    if k, p :| LoggedBy(steps, j, b, k, p) {
      assert StepAt(a, ss, steps, k);
      LoggedUntilCleared(a, ss, steps, k + 1, j);
      assert b in ss[k + 1].lh;
    }
    if b in ss[j].lh {
      LoggedBefore(a, ss, steps, j, b);
    }
  }

  lemma OpStays(s: State, a: LogArea, step: Step, p: Pid)
    requires Enabled(s, a, step) && p in s.ops && step != EndOp(p) && !step.Crash?
    ensures p in Do(s, a, step).ops
  {}

  /** An operation that is open in state i and not in state j has ended in between. */
  lemma {:induction false} OpEnds(a: LogArea, ss: seq<State>, steps: seq<Step>, i: nat, j: nat, p: Pid)
    requires IsRun(a, ss, steps) && SameTxn(steps, i, j) && p in ss[i].ops && p !in ss[j].ops
    ensures exists e | i <= e < j :: steps[e] == EndOp(p)
    decreases j - i
  {
    assert StepAt(a, ss, steps, i);
    if steps[i] != EndOp(p) {
      OpStays(ss[i], a, steps[i], p);
      OpEnds(a, ss, steps, i + 1, j, p);
    }
  }

  lemma LoggerEnds(a: LogArea, ss: seq<State>, steps: seq<Step>, j: nat, b: int, k: int, p: Pid)
    requires IsRun(a, ss, steps) && LoggedBy(steps, j, b, k, p) && ss[j].ops == map[]
    ensures exists e | k < e < j :: steps[e] == EndOp(p)
  {
    assert StepAt(a, ss, steps, k);
    OpEnds(a, ss, steps, k + 1, j, p);
  }

  lemma NoOpenOps(s: State, a: LogArea)
    requires Inv(s, a) && Enabled(s, a, CommitHead)
    ensures s.ops == map[] && Running(s) && forall x, y | 0 <= x < y < |s.lh| :: s.lh[x] != s.lh[y]
  {}

  /** The transaction a header write commits is group commit's: a block is in it if and only if
      an operation logged it since the last commit, that operation has ended, and so has every
      other; and each block is in it once. */
  lemma GroupCommit(a: LogArea, ss: seq<State>, steps: seq<Step>, j: nat, b: int)
    requires IsRun(a, ss, steps) && j < |steps| && steps[j] == CommitHead
    ensures ss[j].ops == map[]
    ensures b in ss[j].lh <==> exists k, p :: LoggedBy(steps, j, b, k, p)
    ensures forall k, p | LoggedBy(steps, j, b, k, p) :: exists e | k < e < j :: steps[e] == EndOp(p)
    ensures forall x, y | 0 <= x < y < |ss[j].lh| :: ss[j].lh[x] != ss[j].lh[y]
  {
    RunStep(a, ss, steps, j);
    NoOpenOps(ss[j], a);
    LoggedExactly(a, ss, steps, j, b);
    forall k, p | LoggedBy(steps, j, b, k, p) ensures exists e | k < e < j :: steps[e] == EndOp(p) {
      LoggerEnds(a, ss, steps, j, b, k, p);
    }
  }

  // ----- how long a commit takes ---------------------------------------------------

  /** While a commit is in progress no operation is open and none can begin or log. */
  lemma CommitExcludesOps(s: State, a: LogArea, step: Step)
    requires Inv(s, a) && s.committing && Enabled(s, a, step)
    ensures s.ops == map[] && !step.BeginOp? && !step.LogWrite? && !step.EndOp? && !step.Modify? && !IsRecovery(step)
  {}

  predicate IsCommit(step: Step) {
    step.CommitLog? || step.CommitHead? || step.CommitInstall? || step.CommitClear? || step.CommitDone?
  }

  /** The steps that a commit has still to take. */
  function Remaining(s: State): int {
    match s.phase
    case Logging(k) => 2 * |s.lh| - k + 3
    case Installing(k) => |s.lh| - k + 2
    case Finishing => 1
    case _ => 0
  }

  /** Its next step can be taken, unless another process holds the lock of the home block it needs. */
  lemma CommitProgress(s: State, a: LogArea)
    requires Inv(s, a) && s.committing
    ensures match s.phase
            case Logging(k) => if k == |s.lh| then Enabled(s, a, CommitHead)
              else Unlocked(s, s.lh[k]) ==> Enabled(s, a, CommitLog)
            case Installing(k) => if k == |s.lh| then Enabled(s, a, CommitClear)
              else Unlocked(s, s.lh[k]) ==> Enabled(s, a, CommitInstall)
            case Finishing => Enabled(s, a, CommitDone)
            case _ => false
  {}

  lemma CommitAdvances(s: State, a: LogArea, step: Step)
    requires Inv(s, a) && s.committing && Enabled(s, a, step) && !step.Crash?
    ensures 0 < Remaining(s) && Remaining(Do(s, a, step)) == Remaining(s) - if IsCommit(step) then 1 else 0
    ensures Do(s, a, step).committing <==> 0 < Remaining(Do(s, a, step))
  {
    CommitProgress(s, a);
    CommitExcludesOps(s, a, step);
  }

  lemma CommitAdvancesAt(a: LogArea, ss: seq<State>, steps: seq<Step>, k: nat)
    requires IsRun(a, ss, steps) && k < |steps| && ss[k].committing && !steps[k].Crash?
    ensures Remaining(ss[k + 1]) == Remaining(ss[k]) - if IsCommit(steps[k]) then 1 else 0
    ensures ss[k + 1].committing <==> 0 < Remaining(ss[k + 1])
  {
    RunStep(a, ss, steps, k);
    CommitAdvances(ss[k], a, steps[k]);
  }

  function CommitCount(steps: seq<Step>, i: int, j: int): int
    requires 0 <= i <= j <= |steps|
    decreases j - i
  {
    if i == j then 0 else CommitCount(steps, i, j - 1) + if IsCommit(steps[j - 1]) then 1 else 0
  }

  /** Whatever other processes do meanwhile, the steps of a commit bring it that much nearer its
      end; one that has just begun with n blocks is over after exactly 2n + 3 of them. */
  lemma {:induction false} CommitTakes(a: LogArea, ss: seq<State>, steps: seq<Step>, i: nat, j: nat)
    requires IsRun(a, ss, steps) && i <= j <= |steps| && ss[i].committing
    requires forall k | i <= k < j :: ss[k].committing && !steps[k].Crash?
    ensures CommitCount(steps, i, j) == Remaining(ss[i]) - Remaining(ss[j])
    ensures i < j ==> (ss[j].committing <==> CommitCount(steps, i, j) < Remaining(ss[i]))
    decreases j - i
  {
    if i < j {
      if i < j - 1 {
        CommitTakes(a, ss, steps, i, j - 1);
      }
      CommitAdvancesAt(a, ss, steps, j - 1);
    }
  }

  // ----- what end_op is for ----------------------------------------------------------

  /** The last open operation to end starts a commit of all that is logged, and no other does. */
  lemma LastEndCommits(a: LogArea, ss: seq<State>, steps: seq<Step>, i: nat, p: Pid)
    requires IsRun(a, ss, steps) && i < |steps| && steps[i] == EndOp(p)
    ensures ss[i + 1].committing <==> forall q | q in ss[i].ops :: q == p
    ensures ss[i + 1].committing ==> Remaining(ss[i + 1]) == if ss[i].lh == [] then 1 else 2 * |ss[i].lh| + 3
    ensures ss[i + 1].lh == ss[i].lh
  {
    RunStep(a, ss, steps, i);
    var ops := ss[i].ops;
    assert |ops - {p}| == |ops| - 1 by { assert ops.Keys == (ops - {p}).Keys + {p}; }
    if |ops| == 1 {
      forall q | q in ops ensures q == p { assert q !in ops - {p}; }
    }
    if forall q | q in ops :: q == p {
      assert ops.Keys == {p};
    }
  }

  lemma CommitEnds(s: State, a: LogArea, step: Step)
    requires Inv(s, a) && Enabled(s, a, step) && s.committing && !step.Crash? && !Do(s, a, step).committing
    ensures var t := Do(s, a, step); t.ops == map[] && Pinned(t) == [] && t.phase.Idle?
  {
    CommitExcludesOps(s, a, step);
  }

  lemma QuietMeanwhile(a: LogArea, ss: seq<State>, steps: seq<Step>, i: nat, j: nat, p: Pid, b: int)
    requires IsRun(a, ss, steps) && i < j <= |steps| && steps[i] == EndOp(p)
    requires forall k | i < k < j :: ss[k].committing && !steps[k].Crash?
    ensures LeftAlone(steps, i, j, b)
  {
    forall k | i < k < j ensures !IsRecovery(steps[k]) && !steps[k].Modify? {
      RunStep(a, ss, steps, k);
      CommitExcludesOps(ss[k], a, steps[k]);
    }
  }

  lemma DurableAtEnd(a: LogArea, ss: seq<State>, steps: seq<Step>, j: nat, b: int)
    requires IsRun(a, ss, steps) && j < |steps| && ss[j].committing && !steps[j].Crash? && !ss[j + 1].committing
    requires 0 <= b < |ss[j + 1].disk| && !InLog(a, b)
    ensures ValidLog(ss[j + 1].disk, a) && Recover(ss[j + 1].disk, a)[b] == Logical(ss[j + 1])[b]
  {
    RunStep(a, ss, steps, j);
    RunInv(a, ss, steps, j + 1);
    CommitEnds(ss[j], a, steps[j]);
    QuietIsDurable(ss[j + 1], a);
  }

  /** When that commit is over, all that any operation has written is durable: recovery would leave
      every home block as processes saw it when the last operation ended. */
  lemma EndedIsDurable(a: LogArea, ss: seq<State>, steps: seq<Step>, i: nat, j: nat, p: Pid, b: int)
    requires IsRun(a, ss, steps) && i + 1 < j <= |steps| && steps[i] == EndOp(p) && !ss[j].committing
    requires forall k | i < k < j :: ss[k].committing && !steps[k].Crash?
    requires 0 <= b < |ss[i].disk| && !InLog(a, b)
    ensures ValidLog(ss[j].disk, a) && |ss[j].disk| == |ss[i].disk|
    ensures Recover(ss[j].disk, a)[b] == Logical(ss[i])[b]
  {
    QuietMeanwhile(a, ss, steps, i, j, p, b);
    SeenUntilModified(a, ss, steps, i, j, b);
    DurableAtEnd(a, ss, steps, j - 1, b);
  }
}
