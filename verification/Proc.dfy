/** Processes, fork, exit and wait (proc.c), as a state machine: each step is what one process
    does between two lock operations, and any process may take the next one. */
module Proc {
  const NPROC := 64
  const INIT := 0        // initproc is the first process
  const NONE := -1

  datatype PState = UNUSED | USED | SLEEPING | RUNNABLE | RUNNING | ZOMBIE

  datatype Chan = NoChan | OnProc(p: int) | Other(c: int)

  /** Where a process is in fork, exit or wait. Between ExitSlots and ExitLast, and in
      WaitSlots, it holds wait_lock. */
  datatype Pc =
    | Elsewhere
    | Forking(np: int, linked: bool)       // the child, and whether it has its parent
    | ExitSlots(i: int)                    // reparent: about to look at slot i
    | ExitWakeInit(i: int, j: int)         // wakeup(initproc) in reparent: about to look at slot j
    | ExitWakeParent(j: int)               // wakeup(p->parent)
    | ExitLast
    | WaitSlots(i: int, kids: bool)        // wait: about to look at slot i
    | Waiting                              // in sleep(p, &wait_lock)

  datatype Process = Process(state: PState, chan: Chan, parent: int, pid: int, killed: bool, pc: Pc)

  /** What freeproc leaves. */
  const FREED := Process(UNUSED, NoChan, NONE, 0, false, Elsewhere)

  datatype Sys = Sys(procs: seq<Process>, nextpid: int, holder: int, reaped: set<int>)

  predicate IsProc(p: int) { 0 <= p < NPROC }

  /** Neither unused, nor still being made, nor a zombie. */
  predicate Live(x: Process) { x.state == SLEEPING || x.state == RUNNABLE || x.state == RUNNING }

  /** Asleep in wait: on its own process structure. */
  predicate Asleep(s: Sys, p: int)
    requires IsProc(p) && |s.procs| == NPROC
  {
    s.procs[p].state == SLEEPING && s.procs[p].chan == OnProc(p)
  }

  // ----- the invariant ----------------------------------------------------------------------

  /** What slot p holds, by itself. An unused slot may have been killed by kill(0). */
  ghost predicate SlotOk(s: Sys, p: int, x: Process) {
    && (x.state == UNUSED ==> x == FREED.(killed := x.killed))
    && (x.state != UNUSED ==> 0 < x.pid < s.nextpid && x.pid !in s.reaped)
    && (p == INIT ==> Live(x) && x.pid == 1 && x.parent == NONE)
    && (p != INIT && x.state != UNUSED ==> x.pid > 1)
    && (p != INIT && x.state != UNUSED && x.state != USED ==> x.parent != NONE)
    && (x.state == SLEEPING && x.chan == OnProc(p) ==> x.pc == Waiting)
    && (x.chan.OnProc? ==> x.chan.p == p)
  }

  /** A parent is neither unused nor a zombie, and is older than its child. */
  ghost predicate ParentOk(s: Sys, p: int, r: int)
    requires |s.procs| == NPROC && IsProc(p)
  {
    r != NONE ==> IsProc(r) && Live(s.procs[r]) && s.procs[r].pid < s.procs[p].pid && s.procs[p].state != UNUSED
  }

  ghost predicate NoChildBelow(s: Sys, p: int, i: int)
    requires |s.procs| == NPROC
  {
    forall c | 0 <= c < i && c < NPROC :: s.procs[c].parent != p
  }

  ghost predicate NoZombieBelow(s: Sys, p: int, i: int)
    requires |s.procs| == NPROC
  {
    forall c | 0 <= c < i && c < NPROC :: s.procs[c].parent == p ==> s.procs[c].state != ZOMBIE
  }

  ghost predicate ParentAwake(s: Sys, p: int)
    requires |s.procs| == NPROC && IsProc(p)
  {
    var r := s.procs[p].parent;
    IsProc(r) ==> !Asleep(s, r)
  }

  predicate Holds(pc: Pc) {
    pc.ExitSlots? || pc.ExitWakeInit? || pc.ExitWakeParent? || pc.ExitLast? || pc.WaitSlots?
  }

  ghost predicate PcOk(s: Sys, p: int, pc: Pc)
    requires |s.procs| == NPROC && IsProc(p)
  {
    && (Holds(pc) <==> s.holder == p)
    && (Holds(pc) ==> s.procs[p].state == RUNNING)
    && (pc != Elsewhere ==> Live(s.procs[p]))
    && (Holds(pc) && !pc.WaitSlots? ==> p != INIT)
    && match pc {
         case Elsewhere => true
         case Forking(np, linked) =>
           && IsProc(np) && np != p && s.procs[np].state == USED && s.procs[np].pc == Elsewhere
           && s.procs[np].parent == (if linked then p else NONE) && s.procs[p].pid < s.procs[np].pid
         case ExitSlots(i) => 0 <= i <= NPROC && NoChildBelow(s, p, i)
         case ExitWakeInit(i, j) => 0 <= i < NPROC && 0 <= j <= NPROC && NoChildBelow(s, p, i + 1)
         case ExitWakeParent(j) =>
           0 <= j <= NPROC && NoChildBelow(s, p, NPROC) && (s.procs[p].parent < j ==> ParentAwake(s, p))
         case ExitLast => NoChildBelow(s, p, NPROC) && ParentAwake(s, p)
         case WaitSlots(i, kids) => 0 <= i <= NPROC && NoZombieBelow(s, p, i) && (kids <==> !NoChildBelow(s, p, i))
         case Waiting => true
       }
  }

  ghost predicate ProcOk(s: Sys, p: int)
    requires |s.procs| == NPROC
  {
    IsProc(p) ==>
      SlotOk(s, p, s.procs[p]) && ParentOk(s, p, s.procs[p].parent) && PcOk(s, p, s.procs[p].pc)
  }

  /** While it holds wait_lock, exit may still owe initproc a wakeup. */
  ghost predicate OwesInit(s: Sys)
    requires |s.procs| == NPROC
  {
    IsProc(s.holder) && s.procs[s.holder].pc.ExitWakeInit? && s.procs[s.holder].pc.j <= INIT
  }

  ghost predicate PairOk(s: Sys, p: int, c: int)
    requires |s.procs| == NPROC
  {
    IsProc(p) && IsProc(c) ==>
      && (Asleep(s, p) && s.procs[c].parent == p && s.procs[c].state == ZOMBIE ==> p == INIT && OwesInit(s))
      && (p != c && s.procs[p].state != UNUSED && s.procs[c].state != UNUSED ==> s.procs[p].pid != s.procs[c].pid)
      && (p != c && s.procs[p].pc.Forking? && s.procs[c].pc.Forking? ==> s.procs[p].pc.np != s.procs[c].pc.np)
  }

  ghost predicate Base(s: Sys) {
    && |s.procs| == NPROC && (s.holder == NONE || IsProc(s.holder)) && 1 < s.nextpid
    && (forall q | q in s.reaped :: 1 < q < s.nextpid)
  }

  ghost predicate Inv(s: Sys) {
    && Base(s)
    && (forall p :: ProcOk(s, p))
    && (forall p, c :: PairOk(s, p, c))
  }

  // ----- the steps ----------------------------------------------------------------------------

  datatype Step =
    | Fork(p: int, np: int) | ForkFail(p: int) | ForkLink(p: int) | ForkDone(p: int)
    | ExitBegin(p: int) | ExitSlot(p: int) | ExitInitSlot(p: int) | ExitParentSlot(p: int) | ExitEnd(p: int)
    | WaitBegin(p: int) | WaitSlot(p: int) | WaitFault(p: int) | WaitEnd(p: int)
    | Sleep(p: int, c: int) | WakeSlot(c: int, q: int) | Kill(q: int) | Schedule(p: int) | Yield(p: int)

  /** Running, and not inside any of the three. */
  predicate Free(s: Sys, p: int)
    requires |s.procs| == NPROC
  {
    IsProc(p) && s.procs[p].state == RUNNING && s.procs[p].pc == Elsewhere
  }

  predicate Running(s: Sys, p: int)
    requires |s.procs| == NPROC
  {
    IsProc(p) && s.procs[p].state == RUNNING
  }

  predicate Enabled(s: Sys, step: Step)
    requires |s.procs| == NPROC
  {
    match step
    case Fork(p, np) => Free(s, p) && IsProc(np) && s.procs[np].state == UNUSED
    case ForkFail(p) => Running(s, p) && s.procs[p].pc.Forking? && !s.procs[p].pc.linked
    case ForkLink(p) => Running(s, p) && s.procs[p].pc.Forking? && !s.procs[p].pc.linked && s.holder == NONE
    case ForkDone(p) => Running(s, p) && s.procs[p].pc.Forking? && s.procs[p].pc.linked
    case ExitBegin(p) => Free(s, p) && s.holder == NONE && p != INIT
    case ExitSlot(p) => IsProc(p) && s.procs[p].pc.ExitSlots?
    case ExitInitSlot(p) => IsProc(p) && s.procs[p].pc.ExitWakeInit?
    case ExitParentSlot(p) => IsProc(p) && s.procs[p].pc.ExitWakeParent?
    case ExitEnd(p) => IsProc(p) && s.procs[p].pc.ExitLast?
    case WaitBegin(p) => Running(s, p) && (s.procs[p].pc == Elsewhere || s.procs[p].pc == Waiting) && s.holder == NONE
    case WaitSlot(p) => IsProc(p) && s.procs[p].pc.WaitSlots? && 0 <= s.procs[p].pc.i < NPROC
    case WaitFault(p) =>
      IsProc(p) && s.procs[p].pc.WaitSlots? && 0 <= s.procs[p].pc.i < NPROC
      && s.procs[s.procs[p].pc.i].parent == p && s.procs[s.procs[p].pc.i].state == ZOMBIE
    case WaitEnd(p) => IsProc(p) && s.procs[p].pc.WaitSlots? && s.procs[p].pc.i == NPROC
    case Sleep(p, c) => Running(s, p) && !Holds(s.procs[p].pc) && s.procs[p].pc != Waiting
    case WakeSlot(c, q) => IsProc(q)
    case Kill(q) => IsProc(q)
    case Schedule(p) => IsProc(p) && s.procs[p].state == RUNNABLE
    case Yield(p) => Running(s, p) && !Holds(s.procs[p].pc)
  }

  function Put(s: Sys, p: int, x: Process): Sys
    requires |s.procs| == NPROC && IsProc(p)
  {
    Sys(s.procs[p := x], s.nextpid, s.holder, s.reaped)
  }

  function At(s: Sys, p: int, pc: Pc): Sys
    requires |s.procs| == NPROC && IsProc(p)
  {
    Put(s, p, s.procs[p].(pc := pc))
  }

  function Hold(s: Sys, p: int): Sys {
    Sys(s.procs, s.nextpid, p, s.reaped)
  }

  /** The body of the loop of wakeup(chan) for slot q. */
  function Wake(s: Sys, chan: Chan, q: int): Sys
    requires |s.procs| == NPROC && IsProc(q)
  {
    if s.procs[q].state == SLEEPING && s.procs[q].chan == chan then Put(s, q, s.procs[q].(state := RUNNABLE)) else s
  }

  // fork: allocproc; on a failed uvmcopy freeproc; np->parent = p; np->state = RUNNABLE

  function DoFork(s: Sys, p: int, np: int): Sys
    requires |s.procs| == NPROC && Enabled(s, Fork(p, np))
  {
    var t := Put(s, np, Process(USED, NoChan, NONE, s.nextpid, s.procs[np].killed, Elsewhere));
    At(Sys(t.procs, s.nextpid + 1, t.holder, t.reaped), p, Forking(np, false))
  }

  function DoForkFail(s: Sys, p: int): Sys
    requires |s.procs| == NPROC && Enabled(s, ForkFail(p)) && IsProc(s.procs[p].pc.np)
  {
    At(Put(s, s.procs[p].pc.np, FREED), p, Elsewhere)
  }

  function DoForkLink(s: Sys, p: int): Sys
    requires |s.procs| == NPROC && Enabled(s, ForkLink(p)) && IsProc(s.procs[p].pc.np)
  {
    var np := s.procs[p].pc.np;
    At(Put(s, np, s.procs[np].(parent := p)), p, Forking(np, true))
  }

  function DoForkDone(s: Sys, p: int): Sys
    requires |s.procs| == NPROC && Enabled(s, ForkDone(p)) && IsProc(s.procs[p].pc.np)
  {
    var np := s.procs[p].pc.np;
    At(Put(s, np, s.procs[np].(state := RUNNABLE)), p, Elsewhere)
  }

  // exit, from acquire(&wait_lock) on

  function DoExitBegin(s: Sys, p: int): Sys
    requires |s.procs| == NPROC && Enabled(s, ExitBegin(p))
  {
    At(Hold(s, p), p, ExitSlots(0))
  }

  function DoExitSlot(s: Sys, p: int): Sys
    requires |s.procs| == NPROC && Enabled(s, ExitSlot(p)) && 0 <= s.procs[p].pc.i
  {
    var i := s.procs[p].pc.i;
    if i >= NPROC then At(s, p, ExitWakeParent(0))
    else if s.procs[i].parent == p then At(Put(s, i, s.procs[i].(parent := INIT)), p, ExitWakeInit(i, 0))
    else At(s, p, ExitSlots(i + 1))
  }

  function DoExitInitSlot(s: Sys, p: int): Sys
    requires |s.procs| == NPROC && Enabled(s, ExitInitSlot(p)) && 0 <= s.procs[p].pc.j
  {
    var i, j := s.procs[p].pc.i, s.procs[p].pc.j;
    if j >= NPROC then At(s, p, ExitSlots(i + 1))
    else At(if j == p then s else Wake(s, OnProc(INIT), j), p, ExitWakeInit(i, j + 1))
  }

  function DoExitParentSlot(s: Sys, p: int): Sys
    requires |s.procs| == NPROC && Enabled(s, ExitParentSlot(p)) && 0 <= s.procs[p].pc.j
  {
    var j := s.procs[p].pc.j;
    if j >= NPROC then At(s, p, ExitLast)
    else At(if j == p then s else Wake(s, OnProc(s.procs[p].parent), j), p, ExitWakeParent(j + 1))
  }

  function DoExitEnd(s: Sys, p: int): Sys
    requires |s.procs| == NPROC && Enabled(s, ExitEnd(p))
  {
    Hold(Put(s, p, s.procs[p].(state := ZOMBIE, pc := Elsewhere)), NONE)
  }

  // wait

  function DoWaitBegin(s: Sys, p: int): Sys
    requires |s.procs| == NPROC && Enabled(s, WaitBegin(p))
  {
    At(Hold(Put(s, p, s.procs[p].(chan := NoChan)), p), p, WaitSlots(0, false))
  }

  function DoWaitSlot(s: Sys, p: int): Sys
    requires |s.procs| == NPROC && Enabled(s, WaitSlot(p))
  {
    var i := s.procs[p].pc.i;
    if s.procs[i].parent != p then At(s, p, WaitSlots(i + 1, s.procs[p].pc.kids))
    else if s.procs[i].state != ZOMBIE then At(s, p, WaitSlots(i + 1, true))
    else
      var t := At(Hold(s, NONE), p, Elsewhere);
      Sys(t.procs[i := FREED], t.nextpid, t.holder, t.reaped + {s.procs[i].pid})
  }

  function DoWaitFault(s: Sys, p: int): Sys
    requires |s.procs| == NPROC && Enabled(s, WaitFault(p))
  {
    At(Hold(s, NONE), p, Elsewhere)
  }

  function DoWaitEnd(s: Sys, p: int): Sys
    requires |s.procs| == NPROC && Enabled(s, WaitEnd(p))
  {
    if !s.procs[p].pc.kids || s.procs[p].killed then At(Hold(s, NONE), p, Elsewhere)
    else Hold(Put(s, p, s.procs[p].(state := SLEEPING, chan := OnProc(p), pc := Waiting)), NONE)
  }

  // everything else

  function DoSleep(s: Sys, p: int, c: int): Sys
    requires |s.procs| == NPROC && Enabled(s, Sleep(p, c))
  {
    Put(s, p, s.procs[p].(state := SLEEPING, chan := Other(c)))
  }

  function DoSet(s: Sys, p: int, state: PState): Sys
    requires |s.procs| == NPROC && IsProc(p)
  {
    Put(s, p, s.procs[p].(state := state))
  }

  // ----- what steps are made of -----------------------------------------------------------------

  /** A child of q is one that was a child of q before, and no less alive. */
  ghost predicate SameChild(s: Sys, t: Sys, q: int, c: int)
    requires |s.procs| == |t.procs| == NPROC
  {
    IsProc(c) ==>
      && (t.procs[c].parent == q <==> s.procs[c].parent == q)
      && (t.procs[c].parent == q && t.procs[c].state == ZOMBIE ==> s.procs[c].state == ZOMBIE)
  }

  lemma BelowKeeps(s: Sys, t: Sys, q: int, i: int)
    requires |s.procs| == |t.procs| == NPROC && forall c :: SameChild(s, t, q, c)
    ensures NoChildBelow(s, q, i) <==> NoChildBelow(t, q, i)
    ensures NoZombieBelow(s, q, i) ==> NoZombieBelow(t, q, i)
  {
    forall c | 0 <= c < i && c < NPROC ensures t.procs[c].parent == q <==> s.procs[c].parent == q {
      assert SameChild(s, t, q, c);
    }
    forall c | 0 <= c < i && c < NPROC && t.procs[c].parent == q && t.procs[c].state == ZOMBIE
      ensures s.procs[c].state == ZOMBIE
    {
      assert SameChild(s, t, q, c);
    }
  }

  /** A step of others leaves q where it was, and what its place asks for. */
  lemma PcKeeps(s: Sys, t: Sys, q: int)
    requires |s.procs| == |t.procs| == NPROC && IsProc(q) && PcOk(s, q, s.procs[q].pc)
    requires t.procs[q] == s.procs[q] && (s.holder == q <==> t.holder == q)
    requires Holds(s.procs[q].pc) ==> (forall c :: SameChild(s, t, q, c)) && (ParentAwake(s, q) ==> ParentAwake(t, q))
    requires s.procs[q].pc.Forking? ==>
              IsProc(s.procs[q].pc.np) && t.procs[s.procs[q].pc.np] == s.procs[s.procs[q].pc.np]
    ensures PcOk(t, q, t.procs[q].pc)
  {
    if Holds(s.procs[q].pc) {
      forall i ensures NoChildBelow(s, q, i) <==> NoChildBelow(t, q, i) { BelowKeeps(s, t, q, i); }
      forall i ensures NoZombieBelow(s, q, i) ==> NoZombieBelow(t, q, i) { BelowKeeps(s, t, q, i); }
    }
  }

  /** A slot that a step does not change stays as it should be, if its parent does. */
  lemma OtherKeeps(s: Sys, t: Sys, q: int)
    requires |s.procs| == |t.procs| == NPROC && IsProc(q) && ProcOk(s, q)
    requires t.procs[q] == s.procs[q] && (s.holder == q <==> t.holder == q) && s.nextpid <= t.nextpid
    requires s.procs[q].pid in t.reaped ==> s.procs[q].pid in s.reaped
    requires Holds(s.procs[q].pc) ==> (forall c :: SameChild(s, t, q, c)) && (ParentAwake(s, q) ==> ParentAwake(t, q))
    requires s.procs[q].pc.Forking? ==>
              IsProc(s.procs[q].pc.np) && t.procs[s.procs[q].pc.np] == s.procs[s.procs[q].pc.np]
    requires ParentOk(s, q, s.procs[q].parent) ==> ParentOk(t, q, s.procs[q].parent)
    ensures ProcOk(t, q)
  {
    PcKeeps(s, t, q);
  }

  /** Moving on inside exit or wait: what the new place asks for holds, and no wakeup that
      initproc is owed is forgotten. */
  lemma PcMove(s: Sys, p: int, pc: Pc)
    requires Inv(s) && IsProc(p) && Holds(s.procs[p].pc) && Holds(pc) && PcOk(At(s, p, pc), p, pc)
    requires s.procs[p].pc.ExitWakeInit? && s.procs[p].pc.j <= INIT ==>
               !Asleep(s, INIT) || (pc.ExitWakeInit? && pc.j <= INIT)
    ensures Inv(At(s, p, pc))
  {
    var t := At(s, p, pc);
    assert ProcOk(s, p);
    forall q ensures ProcOk(t, q) { assert ProcOk(s, q); }
    forall q, c ensures PairOk(t, q, c) { assert PairOk(s, q, c); }
  }

  /** A process may always be woken up. */
  function Rouse(s: Sys, q: int, killed: bool): Sys
    requires |s.procs| == NPROC && IsProc(q)
  {
    Put(s, q, s.procs[q].(killed := killed, state := if s.procs[q].state == SLEEPING then RUNNABLE
      else s.procs[q].state))
  }

  /** Only a live process's state, channel or killed flag differs, and it has not fallen
      asleep in wait. */
  predicate Soft(x: Process, y: Process) {
    && y.parent == x.parent && y.pid == x.pid && y.pc == x.pc
    && (y.state == x.state || (Live(x) && Live(y))) && (Holds(x.pc) ==> y.state == x.state)
    && (y.chan == x.chan || y.chan.Other?) && (x.state == UNUSED ==> y == x.(killed := y.killed))
    && (y.state == SLEEPING && y.chan.OnProc? ==> x.state == SLEEPING)
  }

  lemma SoftPc(s: Sys, q: int, y: Process, x: int)
    requires |s.procs| == NPROC && IsProc(q) && IsProc(x) && PcOk(s, x, s.procs[x].pc) && Soft(s.procs[q], y)
    requires s.procs[q].pc != Elsewhere ==> Live(s.procs[q])
    ensures PcOk(Put(s, q, y), x, s.procs[x].pc)
  {
    var t := Put(s, q, y);
    assert forall c :: SameChild(s, t, x, c);
    forall i ensures NoChildBelow(s, x, i) <==> NoChildBelow(t, x, i) { BelowKeeps(s, t, x, i); }
  }

  lemma SoftEach(s: Sys, q: int, y: Process, x: int)
    requires Base(s) && ProcOk(s, x) && ProcOk(s, q) && IsProc(q) && Soft(s.procs[q], y)
    ensures ProcOk(Put(s, q, y), x)
  {
    if IsProc(x) {
      SoftPc(s, q, y, x);
    }
  }

  lemma SoftKeeps(s: Sys, q: int, y: Process)
    requires Inv(s) && IsProc(q) && Soft(s.procs[q], y)
    ensures Inv(Put(s, q, y))
  {
    var t := Put(s, q, y);
    assert ProcOk(s, q);
    forall x ensures ProcOk(t, x) {
      assert ProcOk(s, x);
      SoftEach(s, q, y, x);
    }
    forall x, c ensures PairOk(t, x, c) { assert PairOk(s, x, c); }
  }

  lemma WakeKeeps(s: Sys, chan: Chan, q: int)
    requires Inv(s) && IsProc(q)
    ensures Inv(Wake(s, chan, q)) && (chan == OnProc(q) ==> !Asleep(Wake(s, chan, q), q))
  {
    if s.procs[q].state == SLEEPING && s.procs[q].chan == chan {
      assert ProcOk(s, q);
      SoftKeeps(s, q, s.procs[q].(state := RUNNABLE));
    }
  }

  /** Letting go of wait_lock without having left anything undone. */
  function Release(s: Sys, p: int): Sys
    requires |s.procs| == NPROC && IsProc(p)
  {
    At(Hold(s, NONE), p, Elsewhere)
  }

  lemma ReleaseKeeps(s: Sys, p: int)
    requires Inv(s) && IsProc(p) && s.procs[p].pc.WaitSlots?
    ensures Inv(Release(s, p))
  {
    var t := Release(s, p);
    assert ProcOk(s, p);
    forall q ensures ProcOk(t, q) { assert ProcOk(s, q); }
    forall q, c ensures PairOk(t, q, c) { assert PairOk(s, q, c); }
  }

  /** A zombie is freed by its parent. */
  function Reap(s: Sys, i: int): Sys
    requires |s.procs| == NPROC && IsProc(i)
  {
    Sys(s.procs[i := FREED], s.nextpid, s.holder, s.reaped + {s.procs[i].pid})
  }

  lemma ReapEach(s: Sys, i: int, q: int)
    requires Base(s) && IsProc(i) && s.procs[i].state == ZOMBIE && ProcOk(s, i) && ProcOk(s, q) && PairOk(s, q, i)
    requires s.holder == NONE
    ensures ProcOk(Reap(s, i), q)
  {
    if IsProc(q) && q != i {
      OtherKeeps(s, Reap(s, i), q);
    }
  }

  lemma ReapKeeps(s: Sys, i: int)
    requires Inv(s) && IsProc(i) && s.procs[i].state == ZOMBIE && s.holder == NONE
    ensures Inv(Reap(s, i)) && i != INIT
  {
    var t := Reap(s, i);
    assert ProcOk(s, i) && ProcOk(s, INIT);
    forall q ensures ProcOk(t, q) {
      assert ProcOk(s, q) && PairOk(s, q, i);
      ReapEach(s, i, q);
    }
    forall q, c ensures PairOk(t, q, c) { assert PairOk(s, q, c); }
  }

  lemma ForkBoth(s: Sys, p: int, np: int)
    requires Base(s) && ProcOk(s, p) && ProcOk(s, np) && ProcOk(s, INIT) && Enabled(s, Fork(p, np))
    ensures ProcOk(DoFork(s, p, np), p) && ProcOk(DoFork(s, p, np), np)
  {}

  lemma ForkEach(s: Sys, p: int, np: int, q: int)
    requires Base(s) && ProcOk(s, q) && ProcOk(s, p) && ProcOk(s, np) && ProcOk(s, INIT) && Enabled(s, Fork(p, np))
    ensures ProcOk(DoFork(s, p, np), q)
  {
    if q == p || q == np {
      ForkBoth(s, p, np);
    } else if IsProc(q) {
      OtherKeeps(s, DoFork(s, p, np), q);
    }
  }

  lemma ForkPair(s: Sys, p: int, np: int, q: int, c: int)
    requires Base(s) && Enabled(s, Fork(p, np)) && PairOk(s, q, c)
    requires ProcOk(s, q) && ProcOk(s, c) && ProcOk(s, p) && ProcOk(s, np)
    ensures PairOk(DoFork(s, p, np), q, c)
  {}

  // ----- each step keeps the invariant ----------------------------------------------------------

  lemma ForkKeeps(s: Sys, p: int, np: int)
    requires Inv(s) && Enabled(s, Fork(p, np))
    ensures Inv(DoFork(s, p, np))
  {
    var t := DoFork(s, p, np);
    assert ProcOk(s, p) && ProcOk(s, np) && ProcOk(s, INIT);
    forall q ensures ProcOk(t, q) {
      assert ProcOk(s, q);
      ForkEach(s, p, np, q);
    }
    forall q, c ensures PairOk(t, q, c) {
      assert PairOk(s, q, c) && ProcOk(s, q) && ProcOk(s, c);
      ForkPair(s, p, np, q, c);
    }
  }

  lemma ForkFailEach(s: Sys, p: int, q: int)
    requires Base(s) && Enabled(s, ForkFail(p)) && IsProc(s.procs[p].pc.np)
    requires ProcOk(s, p) && ProcOk(s, s.procs[p].pc.np) && ProcOk(s, q) && PairOk(s, p, q)
    ensures ProcOk(DoForkFail(s, p), q)
  {
    if IsProc(q) && q != p && q != s.procs[p].pc.np {
      OtherKeeps(s, DoForkFail(s, p), q);
    }
  }

  lemma ForkFailKeeps(s: Sys, p: int)
    requires Inv(s) && Enabled(s, ForkFail(p))
    ensures IsProc(s.procs[p].pc.np) && Inv(DoForkFail(s, p))
  {
    assert ProcOk(s, p) && ProcOk(s, s.procs[p].pc.np);
    var t := DoForkFail(s, p);
    forall q ensures ProcOk(t, q) {
      assert ProcOk(s, q) && PairOk(s, p, q);
      ForkFailEach(s, p, q);
    }
    forall q, c ensures PairOk(t, q, c) { assert PairOk(s, q, c); }
  }

  lemma ForkLinkEach(s: Sys, p: int, q: int)
    requires Base(s) && Enabled(s, ForkLink(p)) && IsProc(s.procs[p].pc.np)
    requires ProcOk(s, p) && ProcOk(s, s.procs[p].pc.np) && ProcOk(s, q) && PairOk(s, p, q)
    ensures ProcOk(DoForkLink(s, p), q)
  {
    if IsProc(q) && q != p && q != s.procs[p].pc.np {
      OtherKeeps(s, DoForkLink(s, p), q);
    }
  }

  lemma ForkLinkKeeps(s: Sys, p: int)
    requires Inv(s) && Enabled(s, ForkLink(p))
    ensures IsProc(s.procs[p].pc.np) && Inv(DoForkLink(s, p))
  {
    assert ProcOk(s, p) && ProcOk(s, s.procs[p].pc.np);
    var t := DoForkLink(s, p);
    forall q ensures ProcOk(t, q) {
      assert ProcOk(s, q) && PairOk(s, p, q);
      ForkLinkEach(s, p, q);
    }
    forall q, c ensures PairOk(t, q, c) { assert PairOk(s, q, c); }
  }

  lemma ForkDoneEach(s: Sys, p: int, q: int)
    requires Base(s) && Enabled(s, ForkDone(p)) && IsProc(s.procs[p].pc.np)
    requires ProcOk(s, p) && ProcOk(s, s.procs[p].pc.np) && ProcOk(s, q) && PairOk(s, p, q)
    ensures ProcOk(DoForkDone(s, p), q)
  {
    if IsProc(q) && q != p && q != s.procs[p].pc.np {
      OtherKeeps(s, DoForkDone(s, p), q);
    }
  }

  lemma ForkDoneKeeps(s: Sys, p: int)
    requires Inv(s) && Enabled(s, ForkDone(p))
    ensures IsProc(s.procs[p].pc.np) && Inv(DoForkDone(s, p))
  {
    assert ProcOk(s, p) && ProcOk(s, s.procs[p].pc.np);
    var t := DoForkDone(s, p);
    forall q ensures ProcOk(t, q) {
      assert ProcOk(s, q) && PairOk(s, p, q);
      ForkDoneEach(s, p, q);
    }
    forall q, c ensures PairOk(t, q, c) { assert PairOk(s, q, c); }
  }

  lemma ExitBeginKeeps(s: Sys, p: int)
    requires Inv(s) && Enabled(s, ExitBegin(p))
    ensures Inv(DoExitBegin(s, p))
  {
    assert ProcOk(s, p);
    var t := DoExitBegin(s, p);
    forall q ensures ProcOk(t, q) { assert ProcOk(s, q); }
    forall q, c ensures PairOk(t, q, c) { assert PairOk(s, q, c); }
  }

  lemma ReparentEach(s: Sys, p: int, i: int, q: int)
    requires Base(s) && IsProc(p) && s.procs[p].pc == ExitSlots(i) && IsProc(i) && s.procs[i].parent == p
    requires ProcOk(s, p) && ProcOk(s, i) && ProcOk(s, INIT) && ProcOk(s, q) && PairOk(s, p, q)
    ensures ProcOk(At(Put(s, i, s.procs[i].(parent := INIT)), p, ExitWakeInit(i, 0)), q)
  {
    if IsProc(q) && q != p && q != i {
      OtherKeeps(s, At(Put(s, i, s.procs[i].(parent := INIT)), p, ExitWakeInit(i, 0)), q);
    }
  }

  /** The child in slot i goes to initproc, which may be asleep although the child is a zombie
      until the wakeup that follows. */
  lemma ReparentKeeps(s: Sys, p: int, i: int)
    requires Inv(s) && IsProc(p) && s.procs[p].pc == ExitSlots(i) && IsProc(i) && s.procs[i].parent == p
    ensures Inv(At(Put(s, i, s.procs[i].(parent := INIT)), p, ExitWakeInit(i, 0)))
  {
    var t := At(Put(s, i, s.procs[i].(parent := INIT)), p, ExitWakeInit(i, 0));
    assert ProcOk(s, p) && ProcOk(s, i) && ProcOk(s, INIT);
    forall q ensures ProcOk(t, q) {
      assert ProcOk(s, q) && PairOk(s, p, q);
      ReparentEach(s, p, i, q);
    }
    forall q, c ensures PairOk(t, q, c) { assert PairOk(s, q, c); }
  }

  lemma ExitSlotKeeps(s: Sys, p: int)
    requires Inv(s) && Enabled(s, ExitSlot(p))
    ensures 0 <= s.procs[p].pc.i && Inv(DoExitSlot(s, p))
  {
    assert ProcOk(s, p);
    var i := s.procs[p].pc.i;
    if i >= NPROC {
      PcMove(s, p, ExitWakeParent(0));
    } else if s.procs[i].parent == p {
      ReparentKeeps(s, p, i);
    } else {
      PcMove(s, p, ExitSlots(i + 1));
    }
  }

  lemma ExitInitSlotKeeps(s: Sys, p: int)
    requires Inv(s) && Enabled(s, ExitInitSlot(p))
    ensures 0 <= s.procs[p].pc.j && Inv(DoExitInitSlot(s, p))
  {
    assert ProcOk(s, p);
    var i, j := s.procs[p].pc.i, s.procs[p].pc.j;
    if j >= NPROC {
      PcMove(s, p, ExitSlots(i + 1));
    } else {
      var t := if j == p then s else Wake(s, OnProc(INIT), j);
      if j != p {
        WakeKeeps(s, OnProc(INIT), j);
      }
      PcMove(t, p, ExitWakeInit(i, j + 1));
    }
  }

  lemma ExitParentSlotKeeps(s: Sys, p: int)
    requires Inv(s) && Enabled(s, ExitParentSlot(p))
    ensures 0 <= s.procs[p].pc.j && Inv(DoExitParentSlot(s, p))
  {
    assert ProcOk(s, p);
    var j := s.procs[p].pc.j;
    if j >= NPROC {
      PcMove(s, p, ExitLast);
    } else {
      var t := if j == p then s else Wake(s, OnProc(s.procs[p].parent), j);
      if j != p {
        WakeKeeps(s, OnProc(s.procs[p].parent), j);
      }
      PcMove(t, p, ExitWakeParent(j + 1));
    }
  }

  lemma ExitEndKeeps(s: Sys, p: int)
    requires Inv(s) && Enabled(s, ExitEnd(p))
    ensures Inv(DoExitEnd(s, p))
  {
    assert ProcOk(s, p);
    var t := DoExitEnd(s, p);
    forall q ensures ProcOk(t, q) { assert ProcOk(s, q); }
    forall q, c ensures PairOk(t, q, c) { assert PairOk(s, q, c); }
  }

  lemma WaitBeginKeeps(s: Sys, p: int)
    requires Inv(s) && Enabled(s, WaitBegin(p))
    ensures Inv(DoWaitBegin(s, p))
  {
    assert ProcOk(s, p);
    var t := DoWaitBegin(s, p);
    forall q ensures ProcOk(t, q) { assert ProcOk(s, q); }
    forall q, c ensures PairOk(t, q, c) { assert PairOk(s, q, c); }
  }

  lemma OneSlotMore(s: Sys, p: int, i: int, pc: Pc)
    requires |s.procs| == NPROC && IsProc(p) && IsProc(i)
    ensures NoChildBelow(At(s, p, pc), p, i + 1) <==> NoChildBelow(s, p, i) && s.procs[i].parent != p
  {
    var t := At(s, p, pc);
    forall c | IsProc(c) ensures t.procs[c].parent == s.procs[c].parent {}
    if NoChildBelow(t, p, i + 1) {
      forall c | 0 <= c < i && c < NPROC ensures s.procs[c].parent != p { assert t.procs[c].parent != p; }
      assert t.procs[i].parent != p;
    }
  }

  lemma WaitSlotKeeps(s: Sys, p: int)
    requires Inv(s) && Enabled(s, WaitSlot(p))
    ensures Inv(DoWaitSlot(s, p))
  {
    assert ProcOk(s, p);
    var i := s.procs[p].pc.i;
    OneSlotMore(s, p, i, WaitSlots(i + 1, s.procs[p].pc.kids));
    OneSlotMore(s, p, i, WaitSlots(i + 1, true));
    if s.procs[i].parent != p {
      PcMove(s, p, WaitSlots(i + 1, s.procs[p].pc.kids));
    } else if s.procs[i].state != ZOMBIE {
      PcMove(s, p, WaitSlots(i + 1, true));
    } else {
      assert i != p;
      ReleaseKeeps(s, p);
      ReapKeeps(Release(s, p), i);
    }
  }

  lemma WaitEndKeeps(s: Sys, p: int)
    requires Inv(s) && Enabled(s, WaitEnd(p))
    ensures Inv(DoWaitEnd(s, p))
  {
    if !s.procs[p].pc.kids || s.procs[p].killed {
      ReleaseKeeps(s, p);
    } else {
      assert ProcOk(s, p);
      var t := DoWaitEnd(s, p);
      forall q ensures ProcOk(t, q) { assert ProcOk(s, q); }
      forall q, c ensures PairOk(t, q, c) { assert PairOk(s, q, c); }
    }
  }

  /** The slots that a step works on are slots. */
  predicate Places(s: Sys, step: Step)
    requires |s.procs| == NPROC && Enabled(s, step)
  {
    match step
    case ForkFail(p) => IsProc(s.procs[p].pc.np)
    case ForkLink(p) => IsProc(s.procs[p].pc.np)
    case ForkDone(p) => IsProc(s.procs[p].pc.np)
    case ExitSlot(p) => 0 <= s.procs[p].pc.i
    case ExitInitSlot(p) => 0 <= s.procs[p].pc.j
    case ExitParentSlot(p) => 0 <= s.procs[p].pc.j
    case _ => true
  }

  // ----- every step, and every run ----------------------------------------------------------------

  function Do(s: Sys, step: Step): Sys
    requires |s.procs| == NPROC && Enabled(s, step) && Places(s, step)
  {
    match step
    case Fork(p, np) => DoFork(s, p, np)
    case ForkFail(p) => DoForkFail(s, p)
    case ForkLink(p) => DoForkLink(s, p)
    case ForkDone(p) => DoForkDone(s, p)
    case ExitBegin(p) => DoExitBegin(s, p)
    case ExitSlot(p) => DoExitSlot(s, p)
    case ExitInitSlot(p) => DoExitInitSlot(s, p)
    case ExitParentSlot(p) => DoExitParentSlot(s, p)
    case ExitEnd(p) => DoExitEnd(s, p)
    case WaitBegin(p) => DoWaitBegin(s, p)
    case WaitSlot(p) => DoWaitSlot(s, p)
    case WaitFault(p) => DoWaitFault(s, p)
    case WaitEnd(p) => DoWaitEnd(s, p)
    case Sleep(p, c) => DoSleep(s, p, c)
    case WakeSlot(c, q) => Wake(s, Other(c), q)
    case Kill(q) => Rouse(s, q, true)
    case Schedule(p) => DoSet(s, p, RUNNING)
    case Yield(p) => DoSet(s, p, RUNNABLE)
  }

  lemma StepKeeps(s: Sys, step: Step)
    requires Inv(s) && Enabled(s, step)
    ensures Places(s, step) && Inv(Do(s, step))
  {
    match step
    case Fork(p, np) => ForkKeeps(s, p, np);
    case ForkFail(p) => ForkFailKeeps(s, p);
    case ForkLink(p) => ForkLinkKeeps(s, p);
    case ForkDone(p) => ForkDoneKeeps(s, p);
    case ExitBegin(p) => ExitBeginKeeps(s, p);
    case ExitSlot(p) => ExitSlotKeeps(s, p);
    case ExitInitSlot(p) => ExitInitSlotKeeps(s, p);
    case ExitParentSlot(p) => ExitParentSlotKeeps(s, p);
    case ExitEnd(p) => ExitEndKeeps(s, p);
    case WaitBegin(p) => WaitBeginKeeps(s, p);
    case WaitSlot(p) => WaitSlotKeeps(s, p);
    case WaitFault(p) => ReleaseKeeps(s, p);
    case WaitEnd(p) => WaitEndKeeps(s, p);
    case Sleep(p, c) => SoftKeeps(s, p, s.procs[p].(state := SLEEPING, chan := Other(c)));
    case WakeSlot(c, q) => WakeKeeps(s, Other(c), q);
    case Kill(q) => assert ProcOk(s, q); SoftKeeps(s, q, Rouse(s, q, true).procs[q]);
    case Schedule(p) => assert ProcOk(s, p); SoftKeeps(s, p, s.procs[p].(state := RUNNING));
    case Yield(p) => SoftKeeps(s, p, s.procs[p].(state := RUNNABLE));
  }

  ghost predicate StepAt(run: seq<Sys>, steps: seq<Step>, i: int) {
    && 0 <= i < |steps| && i + 1 < |run| && |run[i].procs| == NPROC
    && Enabled(run[i], steps[i]) && Places(run[i], steps[i]) && run[i + 1] == Do(run[i], steps[i])
  }

  ghost predicate IsRun(run: seq<Sys>, steps: seq<Step>) {
    |run| == |steps| + 1 && forall i | 0 <= i < |steps| :: StepAt(run, steps, i)
  }

  /** The first process, and nobody else. */
  function Start(): Sys {
    Sys(seq(NPROC, i => if i == INIT then Process(RUNNABLE, NoChan, NONE, 1, false, Elsewhere) else FREED), 2, NONE, {})
  }

  lemma StartInv()
    ensures Inv(Start())
  {
    forall p ensures ProcOk(Start(), p) {}
    forall p, c ensures PairOk(Start(), p, c) {}
  }

  lemma {:induction false} RunInv(run: seq<Sys>, steps: seq<Step>, i: nat)
    requires IsRun(run, steps) && Inv(run[0]) && i < |run|
    ensures Inv(run[i])
  {
    if i > 0 {
      RunInv(run, steps, i - 1);
      assert StepAt(run, steps, i - 1);
      StepKeeps(run[i - 1], steps[i - 1]);
    }
  }

  // ----- what it comes to -----------------------------------------------------------------------------

  /** Whenever wait_lock is free, nobody sleeps in wait while a child of theirs is a zombie. */
  lemma NobodyWaitsForAZombie(run: seq<Sys>, steps: seq<Step>, i: nat, p: int, c: int)
    requires IsRun(run, steps) && run[0] == Start() && i < |run| && IsProc(p) && IsProc(c)
    requires |run[i].procs| == NPROC && run[i].holder == NONE && run[i].procs[c].parent == p
      && run[i].procs[c].state == ZOMBIE
    ensures !Asleep(run[i], p)
  {
    StartInv();
    RunInv(run, steps, i);
    assert PairOk(run[i], p, c);
  }

  /** A parent is alive, and older than its child. */
  lemma ParentsAreAlive(run: seq<Sys>, steps: seq<Step>, i: nat, c: int)
    requires IsRun(run, steps) && run[0] == Start() && i < |run| && IsProc(c)
    requires |run[i].procs| == NPROC && run[i].procs[c].parent != NONE
    ensures var r := run[i].procs[c].parent;
            IsProc(r) && Live(run[i].procs[r]) && run[i].procs[r].pid < run[i].procs[c].pid
  {
    StartInv();
    RunInv(run, steps, i);
    assert ProcOk(run[i], c);
  }

  /** Follow the parents of c, at most n of them. */
  ghost predicate Descends(s: Sys, c: int, n: nat)
    requires |s.procs| == NPROC
    decreases n
  {
    IsProc(c) && (c == INIT || (n > 0 && Descends(s, s.procs[c].parent, n - 1)))
  }

  /** Every process that has got as far as to run descends from initproc. */
  lemma {:induction false} TreeUnderInit(s: Sys, c: int, n: nat)
    requires Inv(s) && IsProc(c) && s.procs[c].state != UNUSED && s.procs[c].state != USED && s.procs[c].pid <= n
    ensures Descends(s, c, n)
    decreases n
  {
    assert ProcOk(s, c);
    if c != INIT {
      TreeUnderInit(s, s.procs[c].parent, n - 1);
    }
  }

  /** In any run, the wait that has looked at every slot gives up exactly if the process is
      killed or has no child; otherwise it is asleep. Either way wait_lock is free. */
  lemma WaitOver(run: seq<Sys>, steps: seq<Step>, i: nat, p: int)
    requires IsRun(run, steps) && run[0] == Start() && i < |steps| && steps[i] == WaitEnd(p)
    ensures IsProc(p) && |run[i].procs| == |run[i + 1].procs| == NPROC && run[i + 1].holder == NONE
    ensures var s, t := run[i], run[i + 1];
            if s.procs[p].killed || forall c | IsProc(c) :: s.procs[c].parent != p
            then t.procs[p].pc == Elsewhere && t.procs[p].state == RUNNING
            else t.procs[p].pc == Waiting && Asleep(t, p)
  {
    StartInv();
    RunInv(run, steps, i);
    assert StepAt(run, steps, i) && ProcOk(run[i], p);
  }

  /** Every way out of wait: a zombie child reaped, one that could not be told to the user, or
      the end of the scan. */
  lemma WaitReturns(s: Sys, step: Step, p: int)
    requires Inv(s) && Enabled(s, step) && Places(s, step) && IsProc(p) && s.procs[p].pc.WaitSlots?
    requires Do(s, step).procs[p].pc == Elsewhere
    ensures step == WaitSlot(p) || step == WaitFault(p) || step == WaitEnd(p)
    ensures step == WaitEnd(p) || (IsProc(s.procs[p].pc.i) && s.procs[s.procs[p].pc.i].parent == p
            && s.procs[s.procs[p].pc.i].state == ZOMBIE)
  {
    assert ProcOk(s, p);
    if !step.WakeSlot? && !step.Kill? {
      assert ProcOk(s, step.p);
    }
  }

  function ForkCount(steps: seq<Step>, i: int): int
    requires 0 <= i <= |steps|
  {
    if i == 0 then 0 else ForkCount(steps, i - 1) + if steps[i - 1].Fork? then 1 else 0
  }

  /** allocpid hands out 2, 3, 4 and so on. */
  lemma {:induction false} PidsInOrder(run: seq<Sys>, steps: seq<Step>, i: nat)
    requires IsRun(run, steps) && run[0] == Start() && i < |run|
    ensures run[i].nextpid == 2 + ForkCount(steps, i)
  {
    if i > 0 {
      PidsInOrder(run, steps, i - 1);
      assert StepAt(run, steps, i - 1);
    }
  }

  lemma {:induction false} ReapedGrows(run: seq<Sys>, steps: seq<Step>, i: nat, j: nat)
    requires IsRun(run, steps) && i <= j < |run|
    ensures run[i].reaped <= run[j].reaped
  {
    if i < j {
      ReapedGrows(run, steps, i, j - 1);
      assert StepAt(run, steps, j - 1);
    }
  }

  /** The wait that returns a pid: the process in this slot is freed. */
  predicate ReapsSlot(s: Sys, step: Step, c: int)
    requires IsProc(c)
  {
    && step.WaitSlot? && |s.procs| == NPROC && Enabled(s, step)
    && s.procs[step.p].pc.i == c && s.procs[c].parent == step.p && s.procs[c].state == ZOMBIE
  }

  // ----- the life of one process ----------------------------------------------------------------

  ghost predicate Unused(s: Sys, q: int) {
    IsProc(q) && |s.procs| == NPROC && s.procs[q].state == UNUSED
  }

  /** The fork that makes q. */
  predicate Makes(s: Sys, p: int, q: int)
    requires |s.procs| == NPROC
  {
    IsProc(p) && s.procs[p].pc.Forking? && s.procs[p].pc.np == q
  }

  /** A wakeup on the channel that q sleeps on, as it reaches q. */
  predicate Wakes(s: Sys, step: Step, q: int)
    requires |s.procs| == NPROC && IsProc(q)
  {
    match step
    case WakeSlot(c, r) => r == q && s.procs[q].chan == Other(c)
    case ExitInitSlot(p) =>
      IsProc(p) && p != q && s.procs[p].pc.ExitWakeInit? && s.procs[p].pc.j == q && q == INIT
      && s.procs[q].chan == OnProc(q)
    case ExitParentSlot(p) =>
      IsProc(p) && p != q && s.procs[p].pc.ExitWakeParent? && s.procs[p].pc.j == q && q == s.procs[p].parent
      && s.procs[q].chan == OnProc(q)
    case _ => false
  }

  /** p is about to look at slot q in wait. */
  predicate LooksAt(s: Sys, p: int, q: int)
    requires |s.procs| == NPROC
  {
    IsProc(p) && s.procs[p].pc.WaitSlots? && s.procs[p].pc.i == q
  }

  /** The state of q after a step, by what it was before. */
  ghost function NextState(s: Sys, step: Step, q: int): PState
    requires |s.procs| == NPROC && IsProc(q)
  {
    var x := s.procs[q];
    match x.state
    case UNUSED => if step.Fork? && step.np == q then USED else UNUSED
    case USED =>
      if step.ForkDone? && Makes(s, step.p, q) then RUNNABLE
      else if step.ForkFail? && Makes(s, step.p, q) then UNUSED
      else USED
    case RUNNABLE => if step == Schedule(q) then RUNNING else RUNNABLE
    case RUNNING =>
      if step == Yield(q) then RUNNABLE
      else if step == ExitEnd(q) then ZOMBIE
      else if step.Sleep? && step.p == q then SLEEPING
      else if step == WaitEnd(q) && !x.killed && exists c | IsProc(c) :: s.procs[c].parent == q then SLEEPING
      else RUNNING
    case SLEEPING => if step == Kill(q) || Wakes(s, step, q) then RUNNABLE else SLEEPING
    case ZOMBIE => if step == WaitSlot(x.parent) && LooksAt(s, x.parent, q) then UNUSED else ZOMBIE
  }

  ghost predicate Frees(s: Sys, step: Step, q: int) {
    |s.procs| == NPROC && IsProc(q) && s.procs[q].state != UNUSED && NextState(s, step, q) == UNUSED
  }

  /** A parent is given by fork, and changed only when it exits, to initproc. */
  ghost function NextParent(s: Sys, step: Step, q: int): int
    requires |s.procs| == NPROC && IsProc(q)
  {
    var r := s.procs[q].parent;
    if Frees(s, step, q) then NONE
    else if step.ForkLink? && Makes(s, step.p, q) then step.p
    else if IsProc(r) && step == ExitSlot(r) && s.procs[r].pc == ExitSlots(q) then INIT
    else r
  }

  ghost function NextPid(s: Sys, step: Step, q: int): int
    requires |s.procs| == NPROC && IsProc(q)
  {
    if Frees(s, step, q) then 0 else if step.Fork? && step.np == q then s.nextpid else s.procs[q].pid
  }

  /** What q sleeps on. */
  function NextChan(x: Process, step: Step, q: int): Chan {
    if x.state == SLEEPING then x.chan else if step.Sleep? then Other(step.c) else OnProc(q)
  }

  ghost predicate Lives(s: Sys, step: Step, q: int, y: Process)
    requires |s.procs| == NPROC && IsProc(q)
  {
    && y.state == NextState(s, step, q) && y.parent == NextParent(s, step, q) && y.pid == NextPid(s, step, q)
    && (y.killed <==> (s.procs[q].killed || step == Kill(q)) && !Frees(s, step, q))
    && (y.state == SLEEPING ==> y.chan == NextChan(s.procs[q], step, q))
  }

  lemma LivesFork(s: Sys, step: Step, q: int)
    requires Inv(s) && Enabled(s, step) && Places(s, step) && IsProc(q) && (step.Fork? || step.ForkFail?)
    ensures Lives(s, step, q, Do(s, step).procs[q])
  {
    assert ProcOk(s, step.p) && ProcOk(s, q);
  }

  lemma LivesForked(s: Sys, step: Step, q: int)
    requires Inv(s) && Enabled(s, step) && Places(s, step) && IsProc(q) && (step.ForkLink? || step.ForkDone?)
    ensures Lives(s, step, q, Do(s, step).procs[q])
  {
    assert ProcOk(s, step.p) && ProcOk(s, q);
  }

  lemma LivesExit(s: Sys, step: Step, q: int)
    requires Inv(s) && Enabled(s, step) && Places(s, step) && IsProc(q) && (step.ExitBegin? || step.ExitEnd?)
    ensures Lives(s, step, q, Do(s, step).procs[q])
  {
    assert ProcOk(s, step.p) && ProcOk(s, q);
  }

  lemma LivesReparent(s: Sys, step: Step, q: int)
    requires Inv(s) && Enabled(s, step) && Places(s, step) && IsProc(q) && step.ExitSlot?
    ensures Lives(s, step, q, Do(s, step).procs[q])
  {
    assert ProcOk(s, step.p) && ProcOk(s, q);
  }

  lemma LivesInitWoken(s: Sys, step: Step, q: int)
    requires Inv(s) && Enabled(s, step) && Places(s, step) && IsProc(q) && step.ExitInitSlot?
    ensures Lives(s, step, q, Do(s, step).procs[q])
  {
    assert ProcOk(s, step.p) && ProcOk(s, q);
  }

  lemma LivesParentWoken(s: Sys, step: Step, q: int)
    requires Inv(s) && Enabled(s, step) && Places(s, step) && IsProc(q) && step.ExitParentSlot?
    ensures Lives(s, step, q, Do(s, step).procs[q])
  {
    assert ProcOk(s, step.p) && ProcOk(s, q);
  }

  lemma LivesWait(s: Sys, step: Step, q: int)
    requires Inv(s) && Enabled(s, step) && Places(s, step) && IsProc(q) && (step.WaitBegin? || step.WaitFault?)
    ensures Lives(s, step, q, Do(s, step).procs[q])
  {
    assert ProcOk(s, step.p) && ProcOk(s, q);
  }

  lemma LivesWaited(s: Sys, step: Step, q: int)
    requires Inv(s) && Enabled(s, step) && Places(s, step) && IsProc(q) && step.WaitEnd?
    ensures Lives(s, step, q, Do(s, step).procs[q])
  {
    assert ProcOk(s, step.p) && ProcOk(s, q);
  }

  lemma LivesReap(s: Sys, step: Step, q: int)
    requires Inv(s) && Enabled(s, step) && Places(s, step) && IsProc(q) && step.WaitSlot?
    ensures Lives(s, step, q, Do(s, step).procs[q])
  {
    assert ProcOk(s, step.p) && ProcOk(s, q);
  }

  lemma LivesElse(s: Sys, step: Step, q: int)
    requires Inv(s) && Enabled(s, step) && Places(s, step) && IsProc(q)
      && (step.Sleep? || step.WakeSlot? || step.Kill? || step.Schedule? || step.Yield?)
    ensures Lives(s, step, q, Do(s, step).procs[q])
  {
    assert ProcOk(s, q);
  }

  /** Every step of every process, seen from one slot: its life from unused to unused. */
  lemma Lifecycle(s: Sys, step: Step, q: int)
    requires Inv(s) && Enabled(s, step) && Places(s, step) && IsProc(q)
    ensures Lives(s, step, q, Do(s, step).procs[q])
  {
    match step
    case Fork(_, _) => LivesFork(s, step, q);
    case ForkFail(_) => LivesFork(s, step, q);
    case ForkLink(_) => LivesForked(s, step, q);
    case ForkDone(_) => LivesForked(s, step, q);
    case ExitBegin(_) => LivesExit(s, step, q);
    case ExitEnd(_) => LivesExit(s, step, q);
    case ExitSlot(_) => LivesReparent(s, step, q);
    case ExitInitSlot(_) => LivesInitWoken(s, step, q);
    case ExitParentSlot(_) => LivesParentWoken(s, step, q);
    case WaitBegin(_) => LivesWait(s, step, q);
    case WaitFault(_) => LivesWait(s, step, q);
    case WaitEnd(_) => LivesWaited(s, step, q);
    case WaitSlot(_) => LivesReap(s, step, q);
    case _ => LivesElse(s, step, q);
  }

  lemma LifeAt(run: seq<Sys>, steps: seq<Step>, i: nat, q: int)
    requires IsRun(run, steps) && run[0] == Start() && i < |steps| && IsProc(q)
    ensures StepAt(run, steps, i) && Inv(run[i]) && Inv(run[i + 1]) && Lives(run[i], steps[i], q, run[i + 1].procs[q])
  {
    StartInv();
    RunInv(run, steps, i);
    RunInv(run, steps, i + 1);
    assert StepAt(run, steps, i);
    Lifecycle(run[i], steps[i], q);
  }

  // ----- who is killed ----------------------------------------------------------------------------

  /** Step k was a kill that found slot q, and the slot has not been freed since, to state i. */
  ghost predicate KilledAt(run: seq<Sys>, steps: seq<Step>, k: int, i: int, q: int) {
    && 0 <= k < i < |run| && i <= |steps| && steps[k] == Kill(q)
    && forall m | k < m < i :: !Frees(run[m], steps[m], q)
  }

  lemma KilledLater(run: seq<Sys>, steps: seq<Step>, i: nat, j: nat, q: int)
    requires i + 1 == j <= |steps| && |run| == |steps| + 1
    ensures (exists k :: KilledAt(run, steps, k, j, q))
            <==> steps[i] == Kill(q) || (!Frees(run[i], steps[i], q) && exists k :: KilledAt(run, steps, k, i, q))
  {
    if steps[i] == Kill(q) {
      assert KilledAt(run, steps, i, j, q);
    }
    if k :| KilledAt(run, steps, k, i, q) {
      assert !Frees(run[i], steps[i], q) ==> KilledAt(run, steps, k, j, q);
    }
    if k :| KilledAt(run, steps, k, j, q) {
      assert k == i || (!Frees(run[i], steps[i], q) && KilledAt(run, steps, k, i, q));
    }
  }

  /** In any run the flag of a slot, used or not, is set exactly if kill found it since it was
      last freed. */
  lemma {:induction false} KilledExactly(run: seq<Sys>, steps: seq<Step>, i: nat, q: int)
    requires IsRun(run, steps) && run[0] == Start() && i < |run| && IsProc(q)
    ensures |run[i].procs| == NPROC && (run[i].procs[q].killed <==> exists k :: KilledAt(run, steps, k, i, q))
  {
    if i > 0 {
      LifeAt(run, steps, i - 1, q);
      KilledExactly(run, steps, i - 1, q);
      KilledLater(run, steps, i - 1, i, q);
    }
  }

  /** Between two frees a slot is used once, so one that is unused has been so all along. */
  lemma {:induction false} UnusedSince(run: seq<Sys>, steps: seq<Step>, k: nat, i: nat, q: int)
    requires IsRun(run, steps) && run[0] == Start() && k <= i < |run| && Unused(run[i], q)
    requires forall m | k <= m < i :: !Frees(run[m], steps[m], q)
    ensures Unused(run[k], q)
    decreases i - k
  {
    if k < i {
      LifeAt(run, steps, i - 1, q);
      UnusedSince(run, steps, k, i - 1, q);
    }
  }

  /** allocproc does not clear the flag, so a process is born killed exactly if kill(0) had found
      its slot, which was unused then. */
  lemma BornKilled(run: seq<Sys>, steps: seq<Step>, i: nat, p: int, q: int)
    requires IsRun(run, steps) && run[0] == Start() && i < |steps| && steps[i] == Fork(p, q)
    ensures IsProc(q) && |run[i + 1].procs| == NPROC && run[i + 1].procs[q].state == USED
    ensures run[i + 1].procs[q].killed <==> exists k :: KilledAt(run, steps, k, i, q)
    ensures forall k | KilledAt(run, steps, k, i, q) :: Unused(run[k], q)
  {
    assert StepAt(run, steps, i);
    LifeAt(run, steps, i, q);
    KilledExactly(run, steps, i, q);
    forall k | KilledAt(run, steps, k, i, q) ensures Unused(run[k], q) {
      UnusedSince(run, steps, k, i, q);
    }
  }

  /** It does happen: init's first child in a run of three steps. */
  lemma BornKilledRun() returns (run: seq<Sys>, steps: seq<Step>)
    ensures IsRun(run, steps) && run[0] == Start() && steps == [Kill(5), Schedule(INIT), Fork(INIT, 5)]
    ensures |run[3].procs| == NPROC && run[3].procs[5].state == USED && run[3].procs[5].killed
  {
    var s0 := Start();
    var s1 := Rouse(s0, 5, true);
    var s2 := DoSet(s1, INIT, RUNNING);
    var s3 := DoFork(s2, INIT, 5);
    run, steps := [s0, s1, s2, s3], [Kill(5), Schedule(INIT), Fork(INIT, 5)];
    forall i | 0 <= i < 3 ensures StepAt(run, steps, i) {
      if i == 0 {
      } else if i == 1 {
      } else {
        assert i == 2;
      }
    }
  }

  /** No pid is returned by two waits, nor used again after one. */
  lemma ReapedOnce(run: seq<Sys>, steps: seq<Step>, i: nat, c: int, j: nat, d: int)
    requires IsRun(run, steps) && run[0] == Start() && i < j < |run| && IsProc(c) && IsProc(d)
    requires ReapsSlot(run[i], steps[i], c) && |run[j].procs| == NPROC && run[j].procs[d].state != UNUSED
    ensures run[j].procs[d].pid != run[i].procs[c].pid
  {
    StartInv();
    RunInv(run, steps, j);
    assert StepAt(run, steps, i);
    ReapedGrows(run, steps, i + 1, j);
    assert run[i].procs[c].pid in run[i + 1].reaped;
    assert ProcOk(run[j], d);
  }

  // ----- what fork makes --------------------------------------------------------------------------

  lemma StaysInFork(s: Sys, step: Step, p: int)
    requires Inv(s) && Enabled(s, step) && Places(s, step) && IsProc(p) && s.procs[p].pc.Forking?
    requires step.Fork? || step.ForkLink? || (step.ForkFail? && step.p != p) || (step.ForkDone? && step.p != p)
    ensures Makes(Do(s, step), p, s.procs[p].pc.np)
  {
    assert ProcOk(s, p) && ProcOk(s, step.p);
  }

  /** Nothing but its own steps moves a process on in fork. */
  lemma StaysForking(s: Sys, step: Step, p: int)
    requires Inv(s) && Enabled(s, step) && Places(s, step) && IsProc(p) && s.procs[p].pc.Forking?
    requires step != ForkDone(p) && step != ForkFail(p)
    ensures Makes(Do(s, step), p, s.procs[p].pc.np)
  {
    assert ProcOk(s, p);
    if step.Fork? || step.ForkLink? || step.ForkFail? || step.ForkDone? {
      StaysInFork(s, step, p);
    } else {
      assert Do(s, step).procs[p].pc == s.procs[p].pc;
    }
  }

  lemma {:induction false} StillForking(run: seq<Sys>, steps: seq<Step>, i: nat, j: nat, p: int, np: int)
    requires IsRun(run, steps) && run[0] == Start() && i < j < |run| && steps[i] == Fork(p, np)
    requires forall m | i < m < j :: steps[m] != ForkDone(p) && steps[m] != ForkFail(p)
    ensures IsProc(np) && Inv(run[j]) && Makes(run[j], p, np) && run[j].procs[np].pid == run[i].nextpid
  {
    assert StepAt(run, steps, i);
    LifeAt(run, steps, j - 1, np);
    if i < j - 1 {
      StillForking(run, steps, i, j - 1, p, np);
      StaysForking(run[j - 1], steps[j - 1], p);
      assert ProcOk(run[j - 1], p) && ProcOk(run[j], p);
    }
  }

  /** In any run, a fork that succeeds leaves a runnable child of its caller, with the pid that
      was taken when it began. */
  lemma ForkedChild(run: seq<Sys>, steps: seq<Step>, i: nat, j: nat, p: int, np: int)
    requires IsRun(run, steps) && run[0] == Start() && i < j < |steps|
    requires steps[i] == Fork(p, np) && steps[j] == ForkDone(p)
    requires forall m | i < m < j :: steps[m] != ForkDone(p) && steps[m] != ForkFail(p)
    ensures IsProc(p) && IsProc(np) && |run[j + 1].procs| == NPROC
    ensures var x := run[j + 1].procs[np]; x.state == RUNNABLE && x.parent == p && x.pid == run[i].nextpid
    ensures run[j + 1].procs[p].pc == Elsewhere
  {
    StillForking(run, steps, i, j, p, np);
    assert ProcOk(run[j], p);
    LifeAt(run, steps, j, np);
  }

  // ----- wait_lock is let go -----------------------------------------------------------------------

  /** How many steps a process at pc still takes, at most, before it lets go of wait_lock. */
  function Left(pc: Pc): int {
    match pc
    case ExitSlots(i) => (NPROC - i) * (NPROC + 2) + NPROC + 3
    case ExitWakeInit(i, j) => (NPROC - i - 1) * (NPROC + 2) + (NPROC - j + 1) + NPROC + 3
    case ExitWakeParent(j) => NPROC - j + 2
    case ExitLast => 1
    case WaitSlots(i, _) => NPROC - i + 1
    case _ => 0
  }

  /** The next step of the process that holds wait_lock. */
  function Next(p: int, pc: Pc): Step {
    match pc
    case ExitSlots(_) => ExitSlot(p)
    case ExitWakeInit(_, _) => ExitInitSlot(p)
    case ExitWakeParent(_) => ExitParentSlot(p)
    case ExitLast => ExitEnd(p)
    case WaitSlots(i, _) => if i < NPROC then WaitSlot(p) else WaitEnd(p)
    case _ => Schedule(p)
  }

  /** A step of p inside exit or wait, after it has taken wait_lock. */
  predicate Inside(step: Step, p: int) {
    match step
    case ExitSlot(q) => q == p
    case ExitInitSlot(q) => q == p
    case ExitParentSlot(q) => q == p
    case ExitEnd(q) => q == p
    case WaitSlot(q) => q == p
    case WaitFault(q) => q == p
    case WaitEnd(q) => q == p
    case _ => false
  }

  /** The holder of wait_lock can always go on ... */
  lemma HolderCan(s: Sys)
    requires Inv(s) && s.holder != NONE
    ensures IsProc(s.holder) && Enabled(s, Next(s.holder, s.procs[s.holder].pc))
    ensures Next(s.holder, s.procs[s.holder].pc) == WaitSlot(s.holder) ==>
              var c := s.procs[s.procs[s.holder].pc.i];
              c.parent == s.holder && c.state == ZOMBIE ==> Enabled(s, WaitFault(s.holder))
  {
    assert ProcOk(s, s.holder);
  }

  lemma OthersWait(s: Sys, step: Step)
    requires Inv(s) && Enabled(s, step) && Places(s, step) && s.holder != NONE && !Inside(step, s.holder)
    ensures Do(s, step).holder == s.holder && Do(s, step).procs[s.holder].pc == s.procs[s.holder].pc
  {
    assert ProcOk(s, s.holder);
    if !step.WakeSlot? && !step.Kill? {
      assert ProcOk(s, step.p);
    }
  }

  /** ... each of its steps brings it nearer to letting go, and no other process's does anything
      to it. */
  lemma HolderMoves(s: Sys, step: Step)
    requires Inv(s) && Enabled(s, step) && Places(s, step) && s.holder != NONE
    ensures var p, t := s.holder, Do(s, step);
            if Inside(step, p) then t.holder == NONE || (t.holder == p && Left(t.procs[p].pc) < Left(s.procs[p].pc))
            else t.holder == p && t.procs[p].pc == s.procs[p].pc
  {
    assert ProcOk(s, s.holder);
    if !Inside(step, s.holder) {
      OthersWait(s, step);
    }
  }

  function InsideCount(steps: seq<Step>, i: int, j: int, p: int): int
    requires 0 <= i <= j <= |steps|
    decreases j - i
  {
    if i == j then 0 else InsideCount(steps, i, j - 1, p) + if Inside(steps[j - 1], p) then 1 else 0
  }

  /** So while p holds wait_lock in a run, it takes no more steps than it had left, which is never
      more than for a whole exit. */
  lemma {:induction false} LetsGo(run: seq<Sys>, steps: seq<Step>, i: nat, j: nat, p: int)
    requires IsRun(run, steps) && run[0] == Start() && i <= j < |run|
    requires forall k | i <= k <= j :: run[k].holder == p && p != NONE
    ensures IsProc(p) && |run[i].procs| == |run[j].procs| == NPROC
    ensures InsideCount(steps, i, j, p) + Left(run[j].procs[p].pc) <= Left(run[i].procs[p].pc)
    ensures Left(run[i].procs[p].pc) <= NPROC * (NPROC + 2) + NPROC + 3
    decreases j - i
  {
    StartInv();
    RunInv(run, steps, j);
    if i < j {
      LetsGo(run, steps, i, j - 1, p);
      RunInv(run, steps, j - 1);
      assert StepAt(run, steps, j - 1);
      HolderMoves(run[j - 1], steps[j - 1]);
    } else {
      assert ProcOk(run[i], p);
    }
  }

  // ----- who can go on ------------------------------------------------------------------------------

  /** wait_lock is taken only when it is free. */
  lemma LockExcludes(s: Sys, step: Step)
    requires |s.procs| == NPROC && Enabled(s, step) && (step.ForkLink? || step.ExitBegin? || step.WaitBegin?)
    ensures s.holder == NONE
  {}

  /** When it is free a running process can take the next step of whatever it is in. */
  lemma RunningCan(s: Sys, p: int, np: int, c: int)
    requires Inv(s) && IsProc(p) && s.procs[p].state == RUNNING && s.holder == NONE
    ensures s.procs[p].pc == Elsewhere ==> Enabled(s, WaitBegin(p)) && Enabled(s, Sleep(p, c)) && Enabled(s, Yield(p))
    ensures s.procs[p].pc == Elsewhere && p != INIT ==> Enabled(s, ExitBegin(p))
    ensures s.procs[p].pc == Elsewhere && Unused(s, np) ==> Enabled(s, Fork(p, np))
    ensures s.procs[p].pc == Forking(np, false) ==> Enabled(s, ForkLink(p)) && Enabled(s, ForkFail(p))
    ensures s.procs[p].pc == Forking(np, true) ==> Enabled(s, ForkDone(p))
    ensures s.procs[p].pc == Waiting ==> Enabled(s, WaitBegin(p))
    ensures s.procs[p].pc in {Elsewhere, Waiting} || s.procs[p].pc.Forking?
  {
    assert ProcOk(s, p);
  }
}
