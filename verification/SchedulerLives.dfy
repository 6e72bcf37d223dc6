/** The life of a thread: who runs next, what every operation does to the state of every
    thread, how a thread starts, and how long a slice lasts. */
module SchedulerLives {
  import opened Common
  import opened SchedulerState
  import opened SchedulerQueue
  import opened SchedulerTheorems
  import opened SchedulerContexts

  // ------------------------------------------------------------ who runs next

  /** The operation takes the CPU from whoever has it. */
  predicate SwitchesNow(s: State, op: Op)
  {
    match op
    case OpTick(_) => s.active && (s.current.None? || (s.queue != [] && !(Runs(s) && s.threads[s.current.value].slice > 1)))
    case OpYield(_) => s.active && (s.current.None? || s.queue != [])
    case OpExit(_) => s.queue != []
    case OpExitSyscall(_) => s.queue != []
    case OpBlockCurrent(_) => s.queue != []
    case _ => false
  }

  /** The thread that has waited longest; with no thread waiting, the adopted kernel. */
  function Next(s: State): nat
  {
    if s.queue != [] then s.queue[0] else 0
  }

  /** The tables in use once process `pid` has the CPU. */
  predicate UsesRootOf(s: State, s': State, pid: nat)
  {
    pid in s'.processes && s'.root == if s'.processes[pid].root != 0 then s'.processes[pid].root else s.root
  }

  ghost predicate SwitchedTo(s: State, op: Op, s': State, r: Answer, tid: nat)
  {
    && r.Switched? && s'.current == Some(tid) && s'.switches == Increment(s.switches)
    && (tid in s.threads ==> r.ctx == s.threads[tid].context)
    && (tid !in s.threads ==> Registers(op) == Some(r.ctx))
    && tid in s'.threads && s'.threads[tid].state == Running && s'.threads[tid].slice == s.quantum
    && UsesRootOf(s, s', s'.threads[tid].pid)
  }

  predicate StaysOn(s: State, s': State, r: Answer)
  {
    r == Stayed && s'.current == s.current && s'.switches == s.switches && s'.root == s.root
  }

  /** Who has the CPU after a step, and with which registers, slice and address space. */
  lemma StepSwitches(s: State, op: Op)
    requires Agreement(s) && RootAgrees(s) && Disciplined(s, op)
    ensures if SwitchesNow(s, op) then SwitchedTo(s, op, Step(s, op).0, Step(s, op).1, Next(s))
            else StaysOn(s, Step(s, op).0, Step(s, op).1)
  {
    match op
    case OpTick(ctx) => TickSwitches(s, ctx);
    case OpYield(ctx) => YieldSwitches(s, ctx);
    case OpExit(code) => ExitSwitches(s, code);
    case OpExitSyscall(code) =>
      ExitsAgree(s, code);
      ExitSwitches(s, code);
    case OpBlockCurrent(ctx) => BlockCurrentSwitches(s, ctx);
    case _ =>
  }

  lemma YieldSwitches(s: State, ctx: Context)
    requires Agreement(s) && RootAgrees(s)
    ensures if SwitchesNow(s, OpYield(ctx)) then SwitchedTo(s, OpYield(ctx), Yield(s, ctx).0, Yield(s, ctx).1, Next(s))
            else StaysOn(s, Yield(s, ctx).0, Yield(s, ctx).1)
  {
    SetSliceAgrees(s, 0, true);
    TickSwitches(SetSlice(s, 0, true), ctx);
  }

  lemma PickSwitches(s: State)
    requires Dispatchable(s) && RootAgrees(s)
    ensures s.queue == [] ==> Pick(s) == (s, Stayed)
    ensures s.queue != [] ==>
              var (s', r) := Pick(s);
              && r == Switched(s.threads[s.queue[0]].context) && s'.current == Some(s.queue[0])
              && s'.switches == Increment(s.switches) && s'.threads[s.queue[0]].state == Running
              && s'.threads[s.queue[0]].slice == s.quantum && s'.queue == s.queue[1..]
              && UsesRootOf(s, s', s'.threads[s.queue[0]].pid)
  {
    PickFirst(s);
  }

  lemma TickSwitches(s: State, ctx: Context)
    requires Agreement(s) && RootAgrees(s)
    ensures if SwitchesNow(s, OpTick(ctx)) then SwitchedTo(s, OpTick(ctx), Tick(s, ctx).0, Tick(s, ctx).1, Next(s))
            else StaysOn(s, Tick(s, ctx).0, Tick(s, ctx).1)
  {
    TickCases(s, ctx);
    if s.active && !(Runs(s) && (s.queue == [] || s.threads[s.current.value].slice > 1)) {
      TickDispatchable(s, ctx);
      PickSwitches(BeforePick(s, ctx));
    }
  }

  lemma ExitSwitches(s: State, code: nat)
    requires Agreement(s) && RootAgrees(s)
    ensures if s.queue != [] then SwitchedTo(s, OpExit(code), Exit(s, code).0, Exit(s, code).1, s.queue[0])
            else StaysOn(s, Exit(s, code).0, Exit(s, code).1)
  {
    EndDispatchable(s, code);
    EndRoots(s, code);
    PickSwitches(EndCurrent(s, code));
  }

  /** The state in which `BlockCurrent` looks for the next thread. */
  function BlockedCurrent(s: State, ctx: Context): State
  {
    if Runs(s) then s.(threads := s.threads[s.current.value := s.threads[s.current.value].MarkBlocked().(context := ctx)])
    else s
  }

  lemma BlockedDispatchable(s: State, ctx: Context)
    requires Agreement(s)
    ensures Dispatchable(BlockedCurrent(s, ctx)) && BlockCurrent(s, ctx) == Pick(BlockedCurrent(s, ctx))
  {
    assert s.current.Some? ==> s.current.value !in s.queue;
    if Runs(s) {
      var tid := s.current.value;
      var thread := s.threads[tid].MarkBlocked().(context := ctx);
      QueueSame(s.threads, s.queue, tid, thread);
      NoneRuns(s.threads, s.current, tid, thread);
    }
  }

  lemma BlockCurrentSwitches(s: State, ctx: Context)
    requires Agreement(s) && RootAgrees(s)
    ensures if s.queue != [] then SwitchedTo(s, OpBlockCurrent(ctx), BlockCurrent(s, ctx).0, BlockCurrent(s, ctx).1, s.queue[0])
            else StaysOn(s, BlockCurrent(s, ctx).0, BlockCurrent(s, ctx).1)
  {
    BlockedDispatchable(s, ctx);
    PickSwitches(BlockedCurrent(s, ctx));
    assert s.queue != [] ==> s.queue[0] in s.queue;
  }

  // ------------------------------------------------------------ the state of a thread

  /** The state of thread `t` after a step, from its state before. */
  function StateAfter(s: State, op: Op, t: nat): ThreadState
    requires t in s.threads
  {
    match s.threads[t].state
    case Terminated => Terminated
    case Blocked => if Ends(s, op, t) then Terminated else if op == OpUnblock(t) then Ready else Blocked
    case Ready => if op == OpBlock(t) then Blocked else if SwitchesNow(s, op) && Next(s) == t then Running else Ready
    case Running =>
      if Ends(s, op, t) then Terminated
      else if op == OpBlock(t) || op.OpBlockCurrent? then Blocked
      else if SwitchesNow(s, op) then Ready
      else Running
  }

  /** The operation is an exit and `t` is on the CPU. */
  predicate Ends(s: State, op: Op, t: nat)
  {
    (op.OpExit? || op.OpExitSyscall?) && s.current == Some(t)
  }

  /** The thread goes on as `StateAfter` says, the same thread with the same identity; a
      tick is charged to the current thread only. */
  ghost predicate GoesOn(s: State, op: Op, s': State, t: nat)
    requires t in s.threads
  {
    && t in s'.threads
    && s'.threads[t].state == StateAfter(s, op, t)
    && SameIdentity(s.threads[t], s'.threads[t])
    && s'.threads[t].totalTicks == (if Charged(s, op, t) then Increment(s.threads[t].totalTicks) else s.threads[t].totalTicks)
    && s'.threads[t].context == (if Saves(s, op, t) then Registers(op).value else s.threads[t].context)
  }

  predicate Charged(s: State, op: Op, t: nat)
  {
    (op.OpTick? || op.OpYield?) && s.active && s.current == Some(t)
  }

  /** The operation writes the registers of the CPU into the control block of `t`: it takes
      the CPU from a running thread that is to resume, or blocks it. */
  predicate Saves(s: State, op: Op, t: nat)
  {
    s.current == Some(t) && Runs(s) && Registers(op).Some? && (op.OpBlockCurrent? || SwitchesNow(s, op))
  }

  predicate SameIdentity(a: Thread, b: Thread)
  {
    a.tid == b.tid && a.pid == b.pid && a.userSp == b.userSp && a.kernelSp == b.kernelSp && a.priority == b.priority
  }

  lemma StepLives(s: State, op: Op, t: nat)
    requires Agreement(s) && RootAgrees(s) && Disciplined(s, op) && t in s.threads
    ensures GoesOn(s, op, Step(s, op).0, t)
  {
    match op
    case OpTick(ctx) => TickLives(s, ctx, t);
    case OpYield(ctx) => YieldLives(s, ctx, t);
    case OpExit(code) => ExitLives(s, code, t);
    case OpExitSyscall(code) => ExitSyscallLives(s, code, t);
    case OpBlockCurrent(ctx) => BlockCurrentLives(s, ctx, t);
    case _ => QuietLives(s, op, t);
  }

  lemma QuietLives(s: State, op: Op, t: nat)
    requires Agreement(s) && SwitchesNothing(op) && t in s.threads
    ensures GoesOn(s, op, Step(s, op).0, t)
  {
  }

  lemma YieldLives(s: State, ctx: Context, t: nat)
    requires Agreement(s) && RootAgrees(s) && t in s.threads
    ensures GoesOn(s, OpYield(ctx), Yield(s, ctx).0, t)
  {
    SetSliceAgrees(s, 0, true);
    SetSliceKeeps(s, t);
    TickLives(SetSlice(s, 0, true), ctx, t);
  }

  lemma SetSliceKeeps(s: State, t: nat)
    requires t in s.threads
    ensures var s1 := SetSlice(s, 0, true);
            && s1 == s.(threads := s1.threads) && (Runs(s1) <==> Runs(s)) && t in s1.threads
            && s1.threads[t] == s.threads[t].(slice := s1.threads[t].slice)
            && (Runs(s) ==> s1.threads[s.current.value].slice == 0)
  {
  }

  lemma ExitSyscallLives(s: State, code: nat, t: nat)
    requires Agreement(s) && RootAgrees(s) && t in s.threads
    ensures GoesOn(s, OpExitSyscall(code), ExitSyscall(s, code).0, t)
  {
    ExitsAgree(s, code);
    ExitLives(s, code, t);
  }

  lemma PickLives(s: State, t: nat)
    requires Dispatchable(s) && t in s.threads
    ensures t in Pick(s).0.threads
    ensures Pick(s).0.threads[t] ==
            if s.queue != [] && s.queue[0] == t then s.threads[t].(state := Running, slice := s.quantum) else s.threads[t]
  {
    PickFirst(s);
  }

  lemma TickLives(s: State, ctx: Context, t: nat)
    requires Agreement(s) && RootAgrees(s) && t in s.threads
    ensures GoesOn(s, OpTick(ctx), Tick(s, ctx).0, t)
  {
    TickCases(s, ctx);
    if s.active && !(Runs(s) && (s.queue == [] || s.threads[s.current.value].slice > 1)) {
      TickDispatchable(s, ctx);
      PickLives(BeforePick(s, ctx), t);
    }
    assert IsReady(s.threads, t) <==> t in s.queue;
    assert IsRunning(s.threads, t) ==> s.current == Some(t);
  }

  lemma ExitLives(s: State, code: nat, t: nat)
    requires Agreement(s) && t in s.threads
    ensures GoesOn(s, OpExit(code), Exit(s, code).0, t)
  {
    EndDispatchable(s, code);
    EndThread(s, code, t);
    PickLives(EndCurrent(s, code), t);
    assert IsReady(s.threads, t) <==> t in s.queue;
    assert IsRunning(s.threads, t) ==> s.current == Some(t);
  }

  lemma EndThread(s: State, code: nat, t: nat)
    requires Agreement(s) && t in s.threads
    ensures var s1 := EndCurrent(s, code);
            && s1.queue == s.queue && s1.quantum == s.quantum && t in s1.threads
            && s1.threads[t] == if s.current == Some(t) then s.threads[t].(state := Terminated) else s.threads[t]
  {
  }

  lemma BlockCurrentLives(s: State, ctx: Context, t: nat)
    requires Agreement(s) && t in s.threads
    ensures GoesOn(s, OpBlockCurrent(ctx), BlockCurrent(s, ctx).0, t)
  {
    BlockedDispatchable(s, ctx);
    PickLives(BlockedCurrent(s, ctx), t);
    assert IsReady(s.threads, t) <==> t in s.queue;
    assert IsRunning(s.threads, t) ==> s.current == Some(t);
  }

  // ------------------------------------------------------------ the slice of a thread

  /** What is left of the slice of thread `t` after a step. A thread that gets the CPU, gives
      it back or is woken has a full slice; so has a thread whose tick finds nobody waiting. */
  function SliceAfter(s: State, op: Op, t: nat): nat
    requires t in s.threads
  {
    var slice := s.threads[t].slice;
    if SwitchesNow(s, op) && Next(s) == t then s.quantum
    else if s.current == Some(t) && s.threads[t].state == Running then
      match op
      case OpTick(_) =>
        if !s.active then slice else if s.queue == [] || SwitchesNow(s, op) then s.quantum else slice - 1
      case OpYield(_) => if s.active then s.quantum else 0
      case OpExpire => 1
      case _ => slice
    else if s.current == Some(t) && op.OpExpire? then 1
    else if op == OpUnblock(t) && s.threads[t].state == Blocked then s.quantum
    else slice
  }

  lemma StepSlices(s: State, op: Op, t: nat)
    requires Agreement(s) && RootAgrees(s) && Disciplined(s, op) && t in s.threads
    ensures t in Step(s, op).0.threads && Step(s, op).0.threads[t].slice == SliceAfter(s, op, t)
  {
    match op
    case OpTick(ctx) => TickSlices(s, ctx, t);
    case OpYield(ctx) => YieldSlices(s, ctx, t);
    case OpExit(code) => ExitSlices(s, code, t);
    case OpExitSyscall(code) =>
      ExitsAgree(s, code);
      ExitSlices(s, code, t);
    case OpBlockCurrent(ctx) => BlockCurrentSlices(s, ctx, t);
    case _ => QuietSlices(s, op, t);
  }

  lemma QuietSlices(s: State, op: Op, t: nat)
    requires Agreement(s) && SwitchesNothing(op) && t in s.threads
    ensures t in Step(s, op).0.threads && Step(s, op).0.threads[t].slice == SliceAfter(s, op, t)
  {
  }

  lemma TickSlices(s: State, ctx: Context, t: nat)
    requires Agreement(s) && t in s.threads
    ensures t in Tick(s, ctx).0.threads && Tick(s, ctx).0.threads[t].slice == SliceAfter(s, OpTick(ctx), t)
  {
    TickCases(s, ctx);
    if s.active && !(Runs(s) && (s.queue == [] || s.threads[s.current.value].slice > 1)) {
      TickDispatchable(s, ctx);
      PickLives(BeforePick(s, ctx), t);
    }
    assert IsReady(s.threads, t) <==> t in s.queue;
  }

  lemma YieldSlices(s: State, ctx: Context, t: nat)
    requires Agreement(s) && t in s.threads
    ensures t in Yield(s, ctx).0.threads && Yield(s, ctx).0.threads[t].slice == SliceAfter(s, OpYield(ctx), t)
  {
    SetSliceAgrees(s, 0, true);
    SetSliceKeeps(s, t);
    TickSlices(SetSlice(s, 0, true), ctx, t);
    assert s.current == Some(t) && s.queue != [] ==> s.queue[0] in s.queue;
  }

  lemma ExitSlices(s: State, code: nat, t: nat)
    requires Agreement(s) && t in s.threads
    ensures t in Exit(s, code).0.threads && Exit(s, code).0.threads[t].slice == SliceAfter(s, OpExit(code), t)
  {
    EndDispatchable(s, code);
    EndThread(s, code, t);
    PickLives(EndCurrent(s, code), t);
  }

  lemma BlockCurrentSlices(s: State, ctx: Context, t: nat)
    requires Agreement(s) && t in s.threads
    ensures t in BlockCurrent(s, ctx).0.threads
    ensures BlockCurrent(s, ctx).0.threads[t].slice == SliceAfter(s, OpBlockCurrent(ctx), t)
  {
    BlockedDispatchable(s, ctx);
    PickLives(BlockedCurrent(s, ctx), t);
  }

  // ------------------------------------------------------------ whole runs

  /** A thread that has ended stays ended, and with every thread its identity. */
  lemma {:induction false} EndedForGood(s: State, ops: seq<Op>, t: nat)
    requires Invariant(s) && AllowedRun(s, ops) && t in s.threads && s.threads[t].state == Terminated
    ensures var s' := RunOps(s, ops);
            t in s'.threads && s'.threads[t].state == Terminated && SameIdentity(s.threads[t], s'.threads[t])
    decreases ops
  {
    if ops != [] {
      StepLives(s, ops[0], t);
      StepInvariant(s, ops[0]);
      EndedForGood(Step(s, ops[0]).0, ops[1..], t);
    }
  }

  /** A blocked thread that has left the CPU neither runs nor becomes ready before somebody
      wakes it. */
  lemma {:induction false} BlockedUntilWoken(s: State, ops: seq<Op>, t: nat)
    requires Invariant(s) && AllowedRun(s, ops) && OpUnblock(t) !in ops
    requires t in s.threads && s.threads[t].state == Blocked && s.current != Some(t)
    ensures var s' := RunOps(s, ops);
            t in s'.threads && s'.threads[t].state == Blocked && s'.current != Some(t) &&
            s'.threads[t].context == s.threads[t].context
    decreases ops
  {
    if ops != [] {
      StepLives(s, ops[0], t);
      StepSwitches(s, ops[0]);
      StepInvariant(s, ops[0]);
      assert OpUnblock(t) != ops[0] && OpUnblock(t) !in ops[1..];
      BlockedUntilWoken(Step(s, ops[0]).0, ops[1..], t);
    }
  }

  /** Nobody but the thread itself changes the registers it is to resume with: from one
      moment it is off the CPU to the next, they are the same. */
  lemma {:induction false} ContextWaits(s: State, ops: seq<Op>, t: nat)
    requires Invariant(s) && AllowedRun(s, ops) && t in s.threads
    requires forall i | 0 <= i < |ops| :: RunOps(s, ops[..i]).current != Some(t)
    ensures Invariant(RunOps(s, ops))
    ensures t in RunOps(s, ops).threads && RunOps(s, ops).threads[t].context == s.threads[t].context
    decreases ops
  {
    if ops != [] {
      assert RunOps(s, ops[..0]).current != Some(t);
      StepLives(s, ops[0], t);
      StepInvariant(s, ops[0]);
      var s' := Step(s, ops[0]).0;
      forall i | 0 <= i < |ops[1..]|
        ensures RunOps(s', ops[1..][..i]).current != Some(t)
      {
        assert ops[1..][..i] == ops[..i + 1][1..];
        assert RunOps(s, ops[..i + 1]).current != Some(t);
      }
      ContextWaits(s', ops[1..], t);
    }
  }

  /** How often a run gives the CPU to a thread. */
  function Switches(s: State, ops: seq<Op>): nat
    decreases ops
  {
    if ops == [] then 0 else (if Step(s, ops[0]).1.Switched? then 1 else 0) + Switches(Step(s, ops[0]).0, ops[1..])
  }

  /** The counter of context switches counts them, and stops at the largest number it holds. */
  lemma {:induction false} SwitchesCounted(s: State, ops: seq<Op>)
    requires Invariant(s) && AllowedRun(s, ops) && s.switches <= SATURATED
    ensures RunOps(s, ops).switches == if s.switches + Switches(s, ops) < SATURATED then s.switches + Switches(s, ops) else SATURATED
    decreases ops
  {
    if ops != [] {
      StepSwitches(s, ops[0]);
      StepInvariant(s, ops[0]);
      SwitchesCounted(Step(s, ops[0]).0, ops[1..]);
    }
  }

  /** The first tick of an active scheduler turns what it interrupts into thread 0 of the
      kernel's own process, which borrows whatever tables are in use. */
  lemma FirstTickAdopts(s: State, ctx: Context)
    requires Agreement(s) && s.active && s.current.None?
    ensures var s' := Tick(s, ctx).0;
            && 0 in s'.processes && s'.processes[0] == Process(0, 0, ProcessReady, [0], None, false)
            && 0 in s'.threads && s'.threads[0].pid == 0 && s'.threads[0].context == ctx && s'.threads[0].kernelSp == ctx.sp
            && s'.threads[0].state == if s.queue == [] then Running else Ready
  {
    TickCases(s, ctx);
    AdoptDispatchable(s, ctx);
    PickFirst(AdoptKernel(s, ctx));
    assert 0 !in s.queue;
  }

  // ------------------------------------------------------------ the first dispatch

  /** The operation creates thread `s.nextTid` of process `pid`. */
  predicate Creates(s: State, op: Op, pid: nat, l: Launch)
  {
    || (op.OpSpawnProcess? && op.launch == l && pid == s.nextPid)
    || (op == OpSpawnThread(pid, l) && pid in s.processes)
  }

  /** The kernel stack a launch asks for or is given. */
  function StackOf(s: State, l: Launch): nat
  {
    if l.kernelSp != 0 then l.kernelSp else if s.pool != [] then s.pool[|s.pool| - 1] else l.heapStack
  }

  predicate StartsWith(c: Context, l: Launch, stack: nat)
  {
    && c.ip == l.entry && c.arg == l.arg && c.user == l.isUser
    && (l.isUser ==> c.sp == l.userSp)
    && (!l.isUser ==> c.sp == stack)
  }

  /** A thread as it is launched: ready, with a full slice, and about to enter `l.entry` with
      its argument, in its mode and on its stack. */
  predicate Launched(s: State, t: Thread, pid: nat, l: Launch)
  {
    && t.tid == s.nextTid && t.pid == pid && t.state == Ready
    && StartsWith(t.context, l, t.kernelSp)
    && t.userSp == l.userSp && t.kernelSp == StackOf(s, l)
    && t.slice == s.quantum && t.totalTicks == 0 && t.priority == 10
  }

  lemma SpawnLaunches(s: State, op: Op, pid: nat, l: Launch)
    requires Creates(s, op, pid, l)
    ensures var s' := Step(s, op).0;
            && s.nextTid in s'.threads && Launched(s, s'.threads[s.nextTid], pid, l)
            && s'.threads == s.threads[s.nextTid := s'.threads[s.nextTid]] && s'.queue == s.queue + [s.nextTid]
  {
  }

  /** The first time a spawned thread gets the CPU, however much later and whatever has
      happened since, it enters its entry point with its argument, in its mode and on its
      own stack. */
  lemma FirstDispatch(s: State, op: Op, pid: nat, l: Launch, ops: seq<Op>, last: Op)
    requires Invariant(s) && Allowed(s, op) && Creates(s, op, pid, l)
    requires AllowedRun(Step(s, op).0, ops) && Allowed(RunOps(Step(s, op).0, ops), last)
    requires forall i | 0 <= i <= |ops| :: RunOps(Step(s, op).0, ops[..i]).current != Some(s.nextTid)
    requires Step(RunOps(Step(s, op).0, ops), last).0.current == Some(s.nextTid)
    ensures var r := Step(RunOps(Step(s, op).0, ops), last).1;
            r.Switched? && StartsWith(r.ctx, l, StackOf(s, l))
  {
    var s1 := Step(s, op).0;
    SpawnLaunches(s, op, pid, l);
    StepInvariant(s, op);
    ContextWaits(s1, ops, s.nextTid);
    assert ops[..|ops|] == ops;
    StepSwitches(RunOps(s1, ops), last);
  }

  // ------------------------------------------------------------ the length of a slice

  /** Timer ticks, whatever registers they interrupt. */
  predicate OnlyTicks(ops: seq<Op>)
  {
    forall i | 0 <= i < |ops| :: ops[i].OpTick?
  }

  /** While others wait, a running thread keeps the CPU until its slice has ticked away. */
  lemma {:induction false} SliceLasts(s: State, ops: seq<Op>)
    requires Agreement(s) && s.active && Runs(s) && s.queue != [] && OnlyTicks(ops)
    requires |ops| < s.threads[s.current.value].slice
    ensures var s' := RunOps(s, ops);
            && Agreement(s') && Runs(s') && s'.active && s'.current == s.current && s'.queue == s.queue
            && s'.threads[s.current.value].slice == s.threads[s.current.value].slice - |ops|
    decreases ops
  {
    if ops != [] {
      TickCases(s, ops[0].ctx);
      TickAgrees(s, ops[0].ctx);
      SliceLasts(Step(s, ops[0]).0, ops[1..]);
    }
  }

  /** With the tick that uses up the slice the CPU goes to the thread that has waited longest,
      and the old thread queues behind the others. */
  lemma SliceEnds(s: State, ops: seq<Op>)
    requires Agreement(s) && s.active && Runs(s) && s.queue != [] && OnlyTicks(ops)
    requires |ops| > 0 && |ops| == s.threads[s.current.value].slice
    ensures var s' := RunOps(s, ops);
            s'.current == Some(s.queue[0]) && s'.queue == s.queue[1..] + [s.current.value]
  {
    var before, last := ops[..|ops| - 1], ops[|ops| - 1];
    SliceLasts(s, before);
    RunAppend(s, before, last);
    assert before + [last] == ops;
    var s1 := RunOps(s, before);
    TickCases(s1, last.ctx);
    TickDispatchable(s1, last.ctx);
    PickFirst(BeforePick(s1, last.ctx));
    assert s1.queue[0] in s1.queue;
  }

  lemma {:induction false} RunAppend(s: State, ops: seq<Op>, op: Op)
    ensures RunOps(s, ops + [op]) == Step(RunOps(s, ops), op).0
    decreases ops
  {
    if ops != [] {
      RunAppend(Step(s, ops[0]).0, ops[1..], op);
      assert (ops + [op])[1..] == ops[1..] + [op];
    } else {
      assert (ops + [op])[1..] == [];
    }
  }
}
