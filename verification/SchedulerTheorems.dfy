/** Safety over whole runs, address spaces, the two exits, and bounded waiting. */
module SchedulerTheorems {
  import opened Common
  import opened SchedulerState
  import opened SchedulerQueue
  import opened SchedulerStacks

  // ------------------------------------------------------------ address spaces

  /** The CPU uses the tables of the current process, whenever that process has its own. */
  predicate RootAgrees(s: State)
  {
    var pid := CurrentPid(s);
    pid.Some? && pid.value in s.processes && s.processes[pid.value].root != 0 ==>
      s.root == s.processes[pid.value].root
  }

  predicate SameRoots(s: State, s': State)
  {
    && s'.root == s.root && CurrentPid(s') == CurrentPid(s)
    && forall p | p in s'.processes :: p in s.processes && s'.processes[p].root == s.processes[p].root
  }

  lemma PickRoots(s: State)
    requires RootAgrees(s)
    ensures RootAgrees(Pick(s).0) && RootAgrees(PickUnconditional(s).0)
  {
    FirstReadyIsReady(s.threads, s.queue);
  }

  lemma TickRoots(s: State, ctx: Context)
    requires Agreement(s) && RootAgrees(s)
    ensures RootAgrees(Tick(s, ctx).0)
  {
    TickCases(s, ctx);
    PickRoots(BeforePick(s, ctx));
  }

  lemma EndRoots(s: State, code: nat)
    requires RootAgrees(s)
    ensures RootAgrees(EndCurrent(s, code))
  {
    assert SameRoots(s, EndCurrent(s, code));
  }

  lemma StepRoots(s: State, op: Op)
    requires Agreement(s) && RootAgrees(s)
    ensures RootAgrees(Step(s, op).0)
  {
    match op
    case OpTick(ctx) => TickRoots(s, ctx);
    case OpYield(ctx) =>
      SetSliceAgrees(s, 0, true);
      TickRoots(SetSlice(s, 0, true), ctx);
    case OpExit(code) => ExitRoots(s, code);
    case OpExitSyscall(code) => ExitRoots(s, code);
    case OpBlockCurrent(ctx) => BlockCurrentRoots(s, ctx);
    case _ => QuietRoots(s, op);
  }

  lemma ExitRoots(s: State, code: nat)
    requires RootAgrees(s)
    ensures RootAgrees(Exit(s, code).0) && RootAgrees(ExitSyscall(s, code).0)
  {
    EndRoots(s, code);
    PickRoots(EndCurrent(s, code));
  }

  lemma BlockCurrentRoots(s: State, ctx: Context)
    requires RootAgrees(s)
    ensures RootAgrees(BlockCurrent(s, ctx).0)
  {
    if Runs(s) {
      PickRoots(s.(threads := s.threads[s.current.value := s.threads[s.current.value].MarkBlocked().(context := ctx)]));
    }
    PickRoots(s);
  }

  predicate SwitchesNothing(op: Op)
  {
    !op.OpTick? && !op.OpYield? && !op.OpExit? && !op.OpExitSyscall? && !op.OpBlockCurrent?
  }

  lemma QuietRoots(s: State, op: Op)
    requires Agreement(s) && RootAgrees(s) && SwitchesNothing(op)
    ensures RootAgrees(Step(s, op).0)
  {
  }

  /** The two ways out of a thread, one through an interrupt frame and one through the exit
      system call, leave the same scheduler, the same address space and the same context,
      although only one of them skips the switch within a process. */
  lemma ExitsAgree(s: State, code: nat)
    requires Agreement(s) && RootAgrees(s)
    ensures Exit(s, code) == ExitSyscall(s, code)
  {
    var s1 := EndCurrent(s, code);
    EndDispatchable(s, code);
    EndRoots(s, code);
    PickFirst(s1);
    FirstOfAgreeingQueue(s1.threads, s1.queue);
  }

  // ------------------------------------------------------------ whole runs

  ghost predicate Invariant(s: State)
  {
    Agreement(s) && Stacks(s) && RootAgrees(s)
  }

  ghost predicate Allowed(s: State, op: Op)
  {
    Disciplined(s, op) && SuppliedStacks(s, op)
  }

  ghost predicate AllowedRun(s: State, ops: seq<Op>)
    decreases ops
  {
    ops == [] || (Allowed(s, ops[0]) && AllowedRun(Step(s, ops[0]).0, ops[1..]))
  }

  lemma NewInvariant(quantum: nat, root: nat)
    requires quantum >= 1
    ensures Invariant(New(quantum, root))
  {
  }

  lemma StepInvariant(s: State, op: Op)
    ensures Invariant(s) && Allowed(s, op) ==> Invariant(Step(s, op).0) && Step(s, op).1 != Deadlock
  {
    if Invariant(s) && Allowed(s, op) {
      StepAgrees(s, op);
      StepStacks(s, op);
      StepRoots(s, op);
    }
  }

  /** Whatever the order of spawns, ticks, yields, exits, blocks and wake-ups, the queue
      lists the ready threads, one thread runs, and no stack is lost or shared. */
  lemma {:induction false} RunInvariant(s: State, ops: seq<Op>)
    requires Invariant(s) && AllowedRun(s, ops)
    ensures Invariant(RunOps(s, ops))
    decreases ops
  {
    if ops != [] {
      StepInvariant(s, ops[0]);
      RunInvariant(Step(s, ops[0]).0, ops[1..]);
    }
  }

  // ------------------------------------------------------------ a run that hangs

  /** After activation and one tick the kernel's own flow of control is the running thread 0. */
  lemma KernelRuns(quantum: nat, root: nat, ctx: Context) returns (s: State)
    requires quantum >= 1
    ensures s == Tick(Step(New(quantum, root), OpActivate).0, ctx).0
    ensures Invariant(s) && s.active && s.current == Some(0) && s.queue == [] && s.nextTid == 1 && s.nextPid == 1
    ensures s.threads.Keys == {0} && s.threads[0].state == Running && s.threads[0].context == ctx
  {
    var s0 := New(quantum, root);
    var s1 := Step(s0, OpActivate).0;
    NewInvariant(quantum, root);
    StepInvariant(s0, OpActivate);
    StepInvariant(s1, OpTick(ctx));
    AdoptDispatchable(s1, ctx);
    PickFirst(AdoptKernel(s1, ctx));
    s := Tick(s1, ctx).0;
  }

  /** The hang is reachable: a thread blocks itself with nobody else ready, is woken before it
      leaves the CPU, and the next tick never returns. */
  lemma SelfWakeupReachable(quantum: nat, root: nat, ctx: Context, blocked: Context, last: Context)
    requires quantum >= 1
    ensures var ops := [OpActivate, OpTick(ctx), OpBlockCurrent(blocked), OpUnblock(0)];
            Step(RunOps(New(quantum, root), ops), OpTick(last)).1 == Deadlock
  {
    var s := KernelRuns(quantum, root, ctx);
    HangsAlone(s, blocked, last);
    RunFour(New(quantum, root), OpActivate, OpTick(ctx), OpBlockCurrent(blocked), OpUnblock(0));
  }

  lemma HangsAlone(s: State, blocked: Context, last: Context)
    requires Invariant(s) && s.active && s.current == Some(0) && Runs(s) && s.queue == []
    ensures Step(Step(Step(s, OpBlockCurrent(blocked)).0, OpUnblock(0)).0, OpTick(last)).1 == Deadlock
  {
    StepInvariant(s, OpBlockCurrent(blocked));
    BlockedAlone(s, blocked);
    SelfWakeupHangs(BlockCurrent(s, blocked).0, 0, last);
  }

  lemma {:induction false} RunFour(s: State, a: Op, b: Op, c: Op, d: Op)
    ensures RunOps(s, [a, b, c, d]) == Step(Step(Step(Step(s, a).0, b).0, c).0, d).0
  {
    RunFirst(s, a, [b, c, d]);
    RunFirst(Step(s, a).0, b, [c, d]);
    RunFirst(Step(Step(s, a).0, b).0, c, [d]);
    RunFirst(Step(Step(Step(s, a).0, b).0, c).0, d, []);
  }

  lemma {:induction false} RunFirst(s: State, op: Op, rest: seq<Op>)
    ensures RunOps(s, [op] + rest) == RunOps(Step(s, op).0, rest)
  {
    assert ([op] + rest)[1..] == rest;
  }

  /** With nobody ready the CPU stays on the thread that blocks itself. */
  lemma BlockedAlone(s: State, ctx: Context)
    requires Agreement(s) && Runs(s) && s.queue == []
    ensures var s' := BlockCurrent(s, ctx).0;
            BlockedOnCpu(s', s.current.value) && s'.queue == [] && s'.active == s.active
  {
    var tid := s.current.value;
    var thread := s.threads[tid].MarkBlocked().(context := ctx);
    QueueSame(s.threads, s.queue, tid, thread);
    PickFirst(s.(threads := s.threads[tid := thread]));
  }

  // ------------------------------------------------------------ bounded waiting

  function Position(queue: seq<nat>, w: nat): (k: nat)
    requires w in queue
    ensures k < |queue| && queue[k] == w
  {
    if queue[0] == w then 0 else 1 + Position(queue[1..], w)
  }

  /** Ticks the current thread can still keep the CPU. */
  function Remaining(s: State): nat
  {
    if Runs(s) && s.threads[s.current.value].slice > 1 then s.threads[s.current.value].slice else 1
  }

  /** An upper bound on the ticks until `w` is dispatched. */
  function Wait(s: State, w: nat): nat
    requires w in s.queue
  {
    Remaining(s) + Position(s.queue, w) * s.quantum
  }

  lemma {:induction false} PositionAppend(queue: seq<nat>, t: nat, w: nat)
    requires w in queue
    ensures w in queue + [t] && Position(queue + [t], w) == Position(queue, w)
  {
    assert (queue + [t])[0] == queue[0];
    if queue[0] != w {
      assert (queue + [t])[1..] == queue[1..] + [t];
      PositionAppend(queue[1..], t, w);
    }
  }

  lemma {:induction false} PositionRemove(queue: seq<nat>, t: nat, w: nat)
    requires w in queue && t != w
    ensures w in Remove(queue, t) && Position(Remove(queue, t), w) <= Position(queue, w)
  {
    if queue[0] != w {
      PositionRemove(queue[1..], t, w);
      var rest := Remove(queue[1..], t);
      assert ([queue[0]] + rest)[1..] == rest;
    } else {
      assert Remove(queue, t)[0] == w;
    }
  }

  /** `w` has the CPU, or waits at most `bound` more ticks. */
  ghost predicate WaitsAtMost(s: State, w: nat, bound: int)
  {
    s.current == Some(w) || (w in s.queue && Wait(s, w) <= bound)
  }

  lemma PickWait(s: State, w: nat)
    requires Dispatchable(s) && w in s.queue
    ensures WaitsAtMost(Pick(s).0, w, Position(s.queue, w) * s.quantum)
    ensures Position(s.queue, w) == 0 ==> Pick(s).0.current == Some(w)
  {
    PickFirst(s);
    if s.queue[0] != w {
      var k := Position(s.queue[1..], w);
      assert w in s.queue[1..];
      assert Position(s.queue, w) == k + 1;
      Scale(k, k, s.quantum);
    }
  }

  lemma TickWait(s: State, ctx: Context, w: nat)
    requires Agreement(s) && s.active && w in s.queue
    ensures WaitsAtMost(Tick(s, ctx).0, w, Wait(s, w) - 1)
  {
    TickCases(s, ctx);
    if !(Runs(s) && s.threads[s.current.value].slice > 1) {
      var s1 := BeforePick(s, ctx);
      TickDispatchable(s, ctx);
      if s.current.None? {
        PositionAppend(s.queue, 0, w);
      } else if Runs(s) {
        PositionAppend(s.queue, s.current.value, w);
      }
      PickWait(s1, w);
    }
  }

  lemma SpawnWait(s: State, op: Op, w: nat)
    requires Agreement(s) && w in s.queue && (op.OpSpawnProcess? || op.OpSpawnThread?)
    ensures WaitsAtMost(Step(s, op).0, w, Wait(s, w))
  {
    PositionAppend(s.queue, s.nextTid, w);
  }

  /** No operation of others makes `w` wait longer, and every tick brings it closer. */
  lemma StepWait(s: State, op: Op, w: nat)
    requires Agreement(s) && s.active && w in s.queue
    requires Disciplined(s, op) && op != OpBlock(w)
    ensures WaitsAtMost(Step(s, op).0, w, Wait(s, w) - if op.OpTick? then 1 else 0)
  {
    match op
    case OpSpawnProcess(_, _) => SpawnWait(s, op, w);
    case OpSpawnThread(_, _) => SpawnWait(s, op, w);
    case OpActivate =>
    case OpTick(ctx) => TickWait(s, ctx, w);
    case OpYield(ctx) => YieldWait(s, ctx, w);
    case OpExpire =>
    case OpExit(code) => ExitWait(s, code, w);
    case OpExitSyscall(code) => ExitSyscallWait(s, code, w);
    case OpBlock(tid) => BlockWait(s, tid, w);
    case OpBlockCurrent(ctx) => BlockCurrentWait(s, ctx, w);
    case OpUnblock(tid) => UnblockWait(s, tid, w);
  }

  lemma YieldWait(s: State, ctx: Context, w: nat)
    requires Agreement(s) && s.active && w in s.queue
    ensures WaitsAtMost(Yield(s, ctx).0, w, Wait(s, w))
  {
    SetSliceAgrees(s, 0, true);
    TickWait(SetSlice(s, 0, true), ctx, w);
  }

  lemma ExitWait(s: State, code: nat, w: nat)
    requires Agreement(s) && w in s.queue
    ensures WaitsAtMost(Exit(s, code).0, w, Wait(s, w))
  {
    EndDispatchable(s, code);
    PickWait(EndCurrent(s, code), w);
  }

  lemma UnblockWait(s: State, tid: nat, w: nat)
    requires Agreement(s) && w in s.queue && Disciplined(s, OpUnblock(tid))
    ensures WaitsAtMost(Unblock(s, tid), w, Wait(s, w))
  {
    PositionAppend(s.queue, tid, w);
  }

  lemma ExitSyscallWait(s: State, code: nat, w: nat)
    requires Agreement(s) && w in s.queue
    ensures WaitsAtMost(ExitSyscall(s, code).0, w, Wait(s, w))
  {
    EndDispatchable(s, code);
    PickUnconditionalWait(EndCurrent(s, code), w);
  }

  lemma PickUnconditionalWait(s: State, w: nat)
    requires Dispatchable(s) && w in s.queue
    ensures WaitsAtMost(PickUnconditional(s).0, w, Position(s.queue, w) * s.quantum)
  {
    PickWait(s, w);
    PickFirst(s);
    FirstOfAgreeingQueue(s.threads, s.queue);
  }

  lemma Scale(j: nat, k: nat, q: nat)
    requires j <= k
    ensures j * q <= k * q
    ensures (k + 1) * q == k * q + q
  {
  }

  lemma {:induction false} BlockWait(s: State, tid: nat, w: nat)
    requires Agreement(s) && w in s.queue && tid != w
    ensures WaitsAtMost(Block(s, tid), w, Wait(s, w))
  {
    PositionRemove(s.queue, tid, w);
    Scale(Position(Remove(s.queue, tid), w), Position(s.queue, w), s.quantum);
  }

  lemma BlockCurrentWait(s: State, ctx: Context, w: nat)
    requires Agreement(s) && w in s.queue
    ensures WaitsAtMost(BlockCurrent(s, ctx).0, w, Wait(s, w))
  {
    assert s.current.Some? ==> s.current.value !in s.queue;
    if Runs(s) {
      var tid := s.current.value;
      var thread := s.threads[tid].MarkBlocked().(context := ctx);
      QueueSame(s.threads, s.queue, tid, thread);
      NoneRuns(s.threads, s.current, tid, thread);
      PickWait(s.(threads := s.threads[tid := thread]), w);
    } else {
      PickWait(s, w);
    }
  }

  function Ticks(ops: seq<Op>): nat
  {
    if ops == [] then 0 else (if ops[0].OpTick? then 1 else 0) + Ticks(ops[1..])
  }

  lemma StepActive(s: State, op: Op)
    ensures s.active ==> Step(s, op).0.active
    ensures Step(s, op).0.quantum == s.quantum
  {
    match op
    case OpTick(ctx) => PickActive(BeforePick(s, ctx));
    case OpYield(ctx) => PickActive(BeforePick(SetSlice(s, 0, true), ctx));
    case OpExit(code) => PickActive(EndCurrent(s, code));
    case OpExitSyscall(code) => PickActive(EndCurrent(s, code));
    case _ =>
  }

  lemma PickActive(s: State)
    ensures Pick(s).0.active == s.active && PickUnconditional(s).0.active == s.active
    ensures Pick(s).0.quantum == s.quantum && PickUnconditional(s).0.quantum == s.quantum
  {
  }

  lemma WaitOneStep(s: State, op: Op, w: nat) returns (s': State)
    requires Invariant(s) && s.active && w in s.queue && Allowed(s, op) && op != OpBlock(w)
    ensures s' == Step(s, op).0 && Invariant(s') && s'.active
    ensures WaitsAtMost(s', w, Wait(s, w) - if op.OpTick? then 1 else 0)
  {
    s' := Step(s, op).0;
    StepInvariant(s, op);
    StepWait(s, op, w);
    StepActive(s, op);
  }

  lemma {:induction false} DispatchedAt(s: State, ops: seq<Op>, w: nat) returns (i: nat)
    requires Invariant(s) && s.active && w in s.queue && AllowedRun(s, ops)
    requires forall j | 0 <= j < |ops| :: ops[j] != OpBlock(w)
    requires Ticks(ops) >= Wait(s, w)
    ensures i <= |ops| && RunOps(s, ops[..i]).current == Some(w)
    decreases ops
  {
    var op, rest := ops[0], ops[1..];
    var s1 := WaitOneStep(s, op, w);
    if s1.current == Some(w) {
      i := 1;
      assert ops[..1][1..] == [];
    } else {
      i := DispatchedAt(s1, rest, w);
      i := i + 1;
      assert ops[..i][1..] == rest[..i - 1];
    }
  }

  lemma {:induction false} WaitBound(s: State, w: nat)
    requires Agreement(s) && w in s.queue
    ensures Wait(s, w) <= (Position(s.queue, w) + 1) * s.quantum
  {
    Scale(0, Position(s.queue, w), s.quantum);
  }

  /** Bounded waiting: a ready thread at position k of the queue has the CPU within k + 1
      quanta of ticks, whatever spawns, yields, exits and blocks of others come between. */
  lemma {:induction false} BoundedWaiting(s: State, ops: seq<Op>, w: nat)
    requires Invariant(s) && s.active && w in s.queue && AllowedRun(s, ops)
    requires forall j | 0 <= j < |ops| :: ops[j] != OpBlock(w)
    requires Ticks(ops) >= (Position(s.queue, w) + 1) * s.quantum
    ensures exists i: nat | i <= |ops| :: RunOps(s, ops[..i]).current == Some(w)
  {
    WaitBound(s, w);
    var i := DispatchedAt(s, ops, w);
  }
}
