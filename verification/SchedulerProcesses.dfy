/** Processes and their threads, and when a process ends. */
module SchedulerProcesses {
  import opened Common
  import opened SchedulerState
  import opened SchedulerQueue
  import opened SchedulerTheorems
  import opened SchedulerLives

  /** Every thread is listed by its own process, and a process lists its own threads only. */
  ghost predicate Listed(s: State)
  {
    && (forall t | t in s.threads :: s.threads[t].pid in s.processes && t in s.processes[s.threads[t].pid].threads)
    && (forall p, t | p in s.processes && t in s.processes[p].threads :: t in s.threads && s.threads[t].pid == p)
  }

  /** Threads and processes are the same ones, with the same lists. */
  ghost predicate SameLists(s: State, s': State)
  {
    && (forall t :: t in s'.threads <==> t in s.threads)
    && (forall t | t in s.threads :: s'.threads[t].pid == s.threads[t].pid)
    && (forall p :: p in s'.processes <==> p in s.processes)
    && (forall p | p in s.processes :: s'.processes[p].threads == s.processes[p].threads)
  }

  lemma SameListed(s: State, s': State)
    requires Listed(s) && SameLists(s, s')
    ensures Listed(s')
  {
  }

  lemma PickLists(s: State)
    requires Dispatchable(s)
    ensures SameLists(s, Pick(s).0) && Pick(s).0.processes == s.processes
  {
    PickFirst(s);
  }

  /** In every allowed run processes and threads list each other. */
  lemma StepListed(s: State, op: Op)
    requires Agreement(s) && RootAgrees(s) && Disciplined(s, op) && Listed(s)
    ensures Listed(Step(s, op).0)
  {
    match op
    case OpSpawnProcess(_, _) => SpawnListed(s, op);
    case OpSpawnThread(_, _) => SpawnListed(s, op);
    case OpTick(ctx) => TickListed(s, ctx);
    case OpYield(ctx) => YieldListed(s, ctx);
    case OpExit(code) => ExitListed(s, code);
    case OpExitSyscall(code) => ExitSyscallListed(s, code);
    case OpBlockCurrent(ctx) => BlockCurrentListed(s, ctx);
    case _ => QuietListed(s, op);
  }

  lemma QuietListed(s: State, op: Op)
    requires Listed(s) && (op.OpActivate? || op.OpExpire? || op.OpBlock? || op.OpUnblock?)
    ensures Listed(Step(s, op).0)
  {
    QuietLists(s, op);
    SameListed(s, Step(s, op).0);
  }

  lemma QuietLists(s: State, op: Op)
    requires op.OpActivate? || op.OpExpire? || op.OpBlock? || op.OpUnblock?
    ensures SameLists(s, Step(s, op).0)
  {
  }

  lemma YieldListed(s: State, ctx: Context)
    requires Agreement(s) && Listed(s)
    ensures Listed(Yield(s, ctx).0)
  {
    SetSliceAgrees(s, 0, true);
    SameListed(s, SetSlice(s, 0, true));
    TickListed(SetSlice(s, 0, true), ctx);
  }

  lemma BlockCurrentListed(s: State, ctx: Context)
    requires Agreement(s) && Listed(s)
    ensures Listed(BlockCurrent(s, ctx).0)
  {
    var s1 := BlockedCurrent(s, ctx);
    BlockedDispatchable(s, ctx);
    SameListed(s, s1);
    PickLists(s1);
    SameListed(s1, Pick(s1).0);
  }

  lemma SpawnListed(s: State, op: Op)
    requires Agreement(s) && Listed(s) && (op.OpSpawnProcess? || op.OpSpawnThread?)
    ensures Listed(Step(s, op).0)
  {
    assert s.nextTid !in s.threads && s.nextPid !in s.processes;
  }

  lemma TickListed(s: State, ctx: Context)
    requires Agreement(s) && Listed(s)
    ensures Listed(Tick(s, ctx).0)
  {
    TickCases(s, ctx);
    if s.active && !(Runs(s) && (s.queue == [] || s.threads[s.current.value].slice > 1)) {
      var s1 := BeforePick(s, ctx);
      TickDispatchable(s, ctx);
      if s.current.None? {
        AdoptListed(s, ctx);
      } else {
        SameListed(s, s1);
      }
      PickLists(s1);
      SameListed(s1, Pick(s1).0);
    } else {
      SameListed(s, Tick(s, ctx).0);
    }
  }

  lemma AdoptListed(s: State, ctx: Context)
    requires Agreement(s) && Listed(s) && s.current.None?
    ensures Listed(AdoptKernel(s, ctx))
  {
  }

  lemma ExitListed(s: State, code: nat)
    requires Agreement(s) && Listed(s)
    ensures Listed(Exit(s, code).0)
  {
    var s1 := EndCurrent(s, code);
    EndDispatchable(s, code);
    EndListed(s, code);
    PickLists(s1);
    SameListed(s1, Pick(s1).0);
  }

  lemma EndListed(s: State, code: nat)
    requires Agreement(s) && Listed(s)
    ensures Listed(EndCurrent(s, code))
  {
    SameListed(s, EndCurrent(s, code));
  }

  lemma ExitSyscallListed(s: State, code: nat)
    requires Agreement(s) && RootAgrees(s) && Listed(s)
    ensures Listed(ExitSyscall(s, code).0)
  {
    ExitsAgree(s, code);
    ExitListed(s, code);
  }

  /** So it is in every allowed run from an empty scheduler on. */
  lemma {:induction false} RunListed(s: State, ops: seq<Op>)
    requires Invariant(s) && Listed(s) && AllowedRun(s, ops)
    ensures Listed(RunOps(s, ops))
    decreases ops
  {
    if ops != [] {
      StepListed(s, ops[0]);
      StepInvariant(s, ops[0]);
      RunListed(Step(s, ops[0]).0, ops[1..]);
    }
  }

  /** The step is the exit of the last thread of process `p` that had not ended. */
  ghost predicate EndsProcess(s: State, op: Op, p: nat)
  {
    && (op.OpExit? || op.OpExitSyscall?)
    && s.current.Some? && s.current.value in s.threads && s.threads[s.current.value].pid == p
    && forall t | t in s.threads && s.threads[t].pid == p && s.current != Some(t) :: s.threads[t].state == Terminated
  }

  /** A process ends with its last thread and takes that thread's exit code; nothing else
      changes a process, apart from a new thread joining its list. */
  lemma StepProcesses(s: State, op: Op, p: nat)
    requires Agreement(s) && RootAgrees(s) && Disciplined(s, op) && Listed(s) && p in s.processes
    ensures p in Step(s, op).0.processes
    ensures Step(s, op).0.processes[p] ==
            if EndsProcess(s, op, p) then s.processes[p].(state := ProcessTerminated, exitCode := Some(op.code))
            else if op.OpSpawnThread? && op.pid == p then s.processes[p].(threads := s.processes[p].threads + [s.nextTid])
            else s.processes[p]
  {
    match op
    case OpTick(ctx) => TickProcesses(s, ctx, p);
    case OpYield(ctx) => YieldProcesses(s, ctx, p);
    case OpExit(code) => ExitProcesses(s, code, p);
    case OpExitSyscall(code) => ExitSyscallProcesses(s, code, p);
    case OpBlockCurrent(ctx) => BlockCurrentProcesses(s, ctx, p);
    case _ => QuietProcesses(s, op, p);
  }

  lemma QuietProcesses(s: State, op: Op, p: nat)
    requires Agreement(s) && Listed(s) && p in s.processes && SwitchesNothing(op)
    ensures p in Step(s, op).0.processes
    ensures Step(s, op).0.processes[p] ==
            if op.OpSpawnThread? && op.pid == p then s.processes[p].(threads := s.processes[p].threads + [s.nextTid])
            else s.processes[p]
  {
    assert s.nextTid !in s.threads;
  }

  lemma YieldProcesses(s: State, ctx: Context, p: nat)
    requires Agreement(s) && p in s.processes
    ensures p in Yield(s, ctx).0.processes && Yield(s, ctx).0.processes[p] == s.processes[p]
  {
    SetSliceAgrees(s, 0, true);
    TickProcesses(SetSlice(s, 0, true), ctx, p);
  }

  lemma BlockCurrentProcesses(s: State, ctx: Context, p: nat)
    requires Agreement(s) && p in s.processes
    ensures p in BlockCurrent(s, ctx).0.processes && BlockCurrent(s, ctx).0.processes[p] == s.processes[p]
  {
    BlockedDispatchable(s, ctx);
    PickLists(BlockedCurrent(s, ctx));
  }

  lemma ExitSyscallProcesses(s: State, code: nat, p: nat)
    requires Agreement(s) && RootAgrees(s) && Listed(s) && p in s.processes
    ensures p in ExitSyscall(s, code).0.processes
    ensures ExitSyscall(s, code).0.processes[p] ==
            if EndsProcess(s, OpExitSyscall(code), p) then s.processes[p].(state := ProcessTerminated, exitCode := Some(code))
            else s.processes[p]
  {
    ExitsAgree(s, code);
    ExitProcesses(s, code, p);
  }

  lemma TickProcesses(s: State, ctx: Context, p: nat)
    requires Agreement(s) && p in s.processes
    ensures p in Tick(s, ctx).0.processes && Tick(s, ctx).0.processes[p] == s.processes[p]
  {
    TickCases(s, ctx);
    if s.active && !(Runs(s) && (s.queue == [] || s.threads[s.current.value].slice > 1)) {
      TickDispatchable(s, ctx);
      PickLists(BeforePick(s, ctx));
    }
  }

  lemma ExitProcesses(s: State, code: nat, p: nat)
    requires Agreement(s) && Listed(s) && p in s.processes
    ensures p in Exit(s, code).0.processes
    ensures Exit(s, code).0.processes[p] ==
            if EndsProcess(s, OpExit(code), p) then s.processes[p].(state := ProcessTerminated, exitCode := Some(code))
            else s.processes[p]
  {
    EndDispatchable(s, code);
    EndProcesses(s, code, p);
    PickLists(EndCurrent(s, code));
  }

  lemma EndProcesses(s: State, code: nat, p: nat)
    requires Agreement(s) && Listed(s) && p in s.processes
    ensures p in EndCurrent(s, code).processes
    ensures EndCurrent(s, code).processes[p] ==
            if EndsProcess(s, OpExit(code), p) then s.processes[p].(state := ProcessTerminated, exitCode := Some(code))
            else s.processes[p]
  {
    if s.current.Some? && s.threads[s.current.value].pid == p {
      LastThread(s, code, p);
    }
  }

  lemma LastThread(s: State, code: nat, p: nat)
    requires Agreement(s) && Listed(s) && s.current.Some? && s.threads[s.current.value].pid == p
    ensures p in s.processes
    ensures AllTerminated(EndCurrent(s, code).threads, s.processes[p].threads) <==> EndsProcess(s, OpExit(code), p)
  {
    var s1, tids := EndCurrent(s, code), s.processes[p].threads;
    if AllTerminated(s1.threads, tids) {
      forall t | t in s.threads && s.threads[t].pid == p && s.current != Some(t)
        ensures s.threads[t].state == Terminated
      {
        assert t in tids;
        var i :| 0 <= i < |tids| && tids[i] == t;
        assert s1.threads[tids[i]].state == Terminated;
      }
    }
    if EndsProcess(s, OpExit(code), p) {
      forall i | 0 <= i < |tids| && tids[i] in s1.threads
        ensures s1.threads[tids[i]].state == Terminated
      {
        assert tids[i] in tids;
      }
    }
  }
}
