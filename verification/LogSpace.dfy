/** Is there always room in the log?  mkfs gives the log LOGSIZE blocks, one of
    which is the header, while begin_op admits operations as if it held
    LOGSIZE logged blocks.  An operation that logs at most MAXOPBLOCKS - 1
    distinct blocks is safe; one that uses its whole budget is not. */
module LogSpace {
  import opened RedoLog
  import opened LogProtocol
  import opened LogTheorems

  /** No open operation has logged more than n distinct blocks. */
  ghost predicate AtMost(s: State, n: int) {
    forall p | p in s.ops :: |s.ops[p]| <= n
  }

  lemma {:induction false} ReservedFrugal(ops: map<Pid, set<int>>)
    requires forall p | p in ops :: |ops[p]| <= MAXOPBLOCKS - 1
    ensures |ops| <= Reserved(ops)
    decreases |ops|
  {
    if ops != map[] {
      var p :| p in ops && Reserved(ops) == MAXOPBLOCKS - |ops[p]| + Reserved(ops - {p});
      ReservedFrugal(ops - {p});
    }
  }

  /** The tighter bound that holds when nobody uses the last block of the budget. */
  ghost predicate Slack(s: State) {
    s.phase.Idle? ==>
      if s.ops == map[] then s.lh == []
      else |s.lh| + Reserved(s.ops) - |s.ops| <= LOGSIZE - 2
  }

  lemma SlackBeginOp(s: State, a: LogArea, p: Pid)
    requires Inv(s, a) && Enabled(s, a, BeginOp(p)) && Slack(s)
    ensures Slack(DoBeginOp(s, p))
  {
    ReservedBegin(s.ops, p);
    if s.ops == map[] {
      assert s.lh == [] by { assert PhaseOk(s, a); }
    } else {
      assert |s.ops| >= 1;
    }
  }

  lemma SlackLogWrite(s: State, a: LogArea, p: Pid, b: int)
    requires Inv(s, a) && Enabled(s, a, LogWrite(p, b)) && Slack(s)
    ensures Slack(DoLogWrite(s, p, b))
  {
    ReservedRemove(s.ops, p);
    ReservedUpdate(s.ops, p, s.ops[p] + {b});
    assert |s.ops[p := s.ops[p] + {b}]| == |s.ops|;
    if b in s.ops[p] {
      assert s.ops[p] + {b} == s.ops[p];
    } else {
      assert |s.ops[p] + {b}| == |s.ops[p]| + 1;
    }
  }

  lemma SlackEndOp(s: State, a: LogArea, p: Pid)
    requires Inv(s, a) && Enabled(s, a, EndOp(p)) && Slack(s) && AtMost(s, MAXOPBLOCKS - 1)
    ensures Slack(DoEndOp(s, p))
  {
    ReservedRemove(s.ops, p);
    assert |s.ops - {p}| == |s.ops| - 1;
  }

  lemma SlackStep(s: State, a: LogArea, step: Step)
    requires Inv(s, a) && Enabled(s, a, step) && Slack(s) && AtMost(s, MAXOPBLOCKS - 1)
    ensures Slack(Do(s, a, step))
  {
    match step
    case BeginOp(p) => SlackBeginOp(s, a, p);
    case LogWrite(p, b) => SlackLogWrite(s, a, p, b);
    case EndOp(p) => SlackEndOp(s, a, p);
    case _ =>
  }

  lemma {:induction false} SlackRun(a: LogArea, ss: seq<State>, steps: seq<Step>, i: nat)
    requires IsRun(a, ss, steps) && i < |ss|
    requires forall k | 0 <= k < |ss| :: AtMost(ss[k], MAXOPBLOCKS - 1)
    ensures Slack(ss[i])
  {
    if i > 0 {
      SlackRun(a, ss, steps, i - 1);
      RunStep(a, ss, steps, i - 1);
      SlackStep(ss[i - 1], a, steps[i - 1]);
    }
  }

  /** With the log size mkfs sets, in every run in which no operation logs more
      than MAXOPBLOCKS - 1 distinct blocks, log_write never finds the
      transaction too big, absorbed writes included. */
  lemma LogWriteHasRoom(a: LogArea, ss: seq<State>, steps: seq<Step>, i: nat, p: Pid)
    requires a.size == LOGSIZE && IsRun(a, ss, steps) && i < |ss|
    requires forall k | 0 <= k < |ss| :: AtMost(ss[k], MAXOPBLOCKS - 1)
    requires p in ss[i].ops
    ensures !TooBig(ss[i], a)
  {
    RunInv(a, ss, steps, i);
    SlackRun(a, ss, steps, i);
    ReservedFrugal(ss[i].ops);
    assert PhaseOk(ss[i], a);
  }

  // ----- the bound is tight ------------------------------------------------------

  const AREA := LogArea(2, LOGSIZE)
  const FIRST := 100

  function Owner(j: nat): Pid {
    1 + j / MAXOPBLOCKS
  }

  /** How many of the n logged blocks belong to process p, ten blocks each. */
  function Share(p: int, n: nat): int {
    if n <= MAXOPBLOCKS * (p - 1) then 0
    else if n <= MAXOPBLOCKS * p then n - MAXOPBLOCKS * (p - 1)
    else MAXOPBLOCKS
  }

  /** Operations 1, 2 and 3 are open and have logged blocks FIRST .. FIRST + n - 1. */
  ghost predicate Filled(s: State, n: nat) {
    && |s.disk| == 2000 && s.phase.Idle? && !s.committing && s.outstanding == 3
    && |s.lh| == n && (forall b | b in s.lh :: b < FIRST + n)
    && (forall b | b in s.cache :: b < FIRST + n)
    && s.ops.Keys == {1, 2, 3}
    && (forall p | p in s.ops :: |s.ops[p]| == Share(p, n) && forall b | b in s.ops[p] :: b < FIRST + n)
  }

  ghost predicate Reaches(d: Disk, ss: seq<State>, steps: seq<Step>, t: State) {
    && IsRun(AREA, ss, steps) && ss[0].disk == d && ss[|steps|] == t
    && forall k | 0 <= k < |ss| :: AtMost(ss[k], MAXOPBLOCKS)
  }

  lemma Extend(d: Disk, ss: seq<State>, steps: seq<Step>, t: State, step: Step, u: State)
    returns (ss': seq<State>, steps': seq<Step>)
    requires Reaches(d, ss, steps, t) && Enabled(t, AREA, step) && u == Do(t, AREA, step) && AtMost(u, MAXOPBLOCKS)
    ensures Reaches(d, ss', steps', u)
  {
    ss', steps' := ss + [u], steps + [step];
    forall i | 0 <= i < |steps'| ensures StepAt(AREA, ss', steps', i) {
      if i < |steps| { assert StepAt(AREA, ss, steps, i); }
    }
  }

  lemma Begun(d: Disk) returns (ss: seq<State>, steps: seq<Step>, t: State)
    requires |d| == 2000 && d[2] == seq(WORDS, _ => 0)
    ensures Reaches(d, ss, steps, t) && Filled(t, 0)
  {
    var s0 := State(d, map[], [], 0, false, Idle, map[]);
    assert DecodeHead(d[2]) == [];
    var s1 := DoBeginOp(s0, 1);
    var s2 := DoBeginOp(s1, 2);
    t := DoBeginOp(s2, 3);
    ss, steps := [s0], [];
    ss, steps := Extend(d, ss, steps, s0, BeginOp(1), s1);
    ss, steps := Extend(d, ss, steps, s1, BeginOp(2), s2);
    ss, steps := Extend(d, ss, steps, s2, BeginOp(3), t);
    assert t.ops == map[1 := {}, 2 := {}, 3 := {}];
  }

  /** Block FIRST + n is got and locked by its owner ... */
  lemma FillRead(s: State, n: nat)
    requires Filled(s, n) && n < LOGSIZE - 1
    ensures var p, b := Owner(n), FIRST + n;
            var s1 := DoGet(s, p, b);
            && Enabled(s, AREA, Get(p, b))
            && Enabled(s1, AREA, Lock(p, b))
            && DoLock(s1, p, b) == s.(cache := s.cache[b := Buf(true, s.disk[b], 1, p, {p})])
  {
  }

  lemma Shares(n: nat)
    requires n < LOGSIZE
    ensures 1 <= Owner(n) <= 3 && Share(Owner(n), n + 1) == Share(Owner(n), n) + 1 <= MAXOPBLOCKS
    ensures forall q: int | q != Owner(n) :: Share(q, n + 1) == Share(q, n)
  {
  }

  /** ... and logged. */
  lemma FillLog(s: State, n: nat, t: State)
    requires Filled(s, n) && n < LOGSIZE - 1
    requires t == s.(cache := s.cache[FIRST + n := Buf(true, s.disk[FIRST + n], 1, Owner(n), {Owner(n)})])
    ensures Enabled(t, AREA, LogWrite(Owner(n), FIRST + n))
    ensures Filled(DoLogWrite(t, Owner(n), FIRST + n), n + 1)
  {
    var p, b := Owner(n), FIRST + n;
    Shares(n);
    assert p in t.ops && b !in t.ops[p] && b !in t.lh;
    assert |t.ops[p] + {b}| == Share(p, n) + 1;
    assert t.ops[p := t.ops[p] + {b}].Keys == t.ops.Keys;
  }

  lemma FillStep(d: Disk, n: nat, ss: seq<State>, steps: seq<Step>, s: State)
    returns (ss': seq<State>, steps': seq<Step>, t: State)
    requires n < LOGSIZE - 1 && Reaches(d, ss, steps, s) && Filled(s, n)
    ensures Reaches(d, ss', steps', t) && Filled(t, n + 1)
  {
    var p, b := Owner(n), FIRST + n;
    var s1 := DoGet(s, p, b);
    var s2 := DoLock(s1, p, b);
    FillRead(s, n);
    FillLog(s, n, s2);
    t := DoLogWrite(s2, p, b);
    ss', steps' := Extend(d, ss, steps, s, Get(p, b), s1);
    ss', steps' := Extend(d, ss', steps', s1, Lock(p, b), s2);
    ss', steps' := Extend(d, ss', steps', s2, LogWrite(p, b), t);
  }

  lemma {:induction false} Fill(d: Disk, n: nat) returns (ss: seq<State>, steps: seq<Step>, t: State)
    requires |d| == 2000 && d[2] == seq(WORDS, _ => 0) && n < LOGSIZE
    ensures Reaches(d, ss, steps, t) && Filled(t, n)
  {
    if n == 0 {
      ss, steps, t := Begun(d);
    } else {
      ss, steps, t := Fill(d, n - 1);
      ss, steps, t := FillStep(d, n - 1, ss, steps, t);
    }
  }

  /** MAXOPBLOCKS distinct blocks an operation are too many: a reachable state
      in which an operation that has logged only MAXOPBLOCKS - 1 blocks finds
      the log full. */
  lemma WholeBudgetOverflows(d: Disk) returns (ss: seq<State>, steps: seq<Step>, p: Pid)
    requires |d| == 2000 && d[2] == seq(WORDS, _ => 0)
    ensures IsRun(AREA, ss, steps) && ss[0].disk == d
    ensures forall k | 0 <= k < |ss| :: AtMost(ss[k], MAXOPBLOCKS)
    ensures p in ss[|steps|].ops && |ss[|steps|].ops[p]| == MAXOPBLOCKS - 1
    ensures TooBig(ss[|steps|], AREA)
  {
    var t;
    ss, steps, t := Fill(d, LOGSIZE - 1);
    p := 3;
  }
}
