/** Every thread resumes with the registers it left the CPU with, and exactly when not. */
module SchedulerContexts {
  import opened Common
  import opened SchedulerState
  import opened SchedulerQueue
  import opened SchedulerTheorems

  // ------------------------------------------------------------ what a thread left with

  /** The registers of each thread when it last left the CPU, or those it was created with. */
  type History = map<nat, Context>

  /** The registers the CPU has when it enters the operation, where the operation sees them. */
  function Registers(op: Op): Option<Context>
  {
    match op
    case OpTick(ctx) => Some(ctx)
    case OpYield(ctx) => Some(ctx)
    case OpBlockCurrent(ctx) => Some(ctx)
    case _ => None
  }

  function Remember(s: State, left: History, op: Op): History
  {
    match op
    case OpSpawnProcess(_, l) => left[s.nextTid := NewContext(l, StackFor(s, l).1)]
    case OpSpawnThread(pid, l) => if pid in s.processes then left[s.nextTid := NewContext(l, StackFor(s, l).1)] else left
    case OpTick(ctx) => RememberLeaving(s, left, op, ctx)
    case OpYield(ctx) => RememberLeaving(s, left, op, ctx)
    case OpBlockCurrent(ctx) => if s.current.Some? then RememberLeaving(s, left, op, ctx) else left
    case _ => left
  }

  /** A switch takes the CPU from the current thread, or from the kernel's own flow of control,
      which the first tick turns into thread 0. */
  function RememberLeaving(s: State, left: History, op: Op, ctx: Context): History
  {
    if !Step(s, op).1.Switched? then left
    else left[(if s.current.Some? then s.current.value else 0) := ctx]
  }

  /** The saved registers of every thread that can run, `skip` apart, are those it left with. */
  ghost predicate Saved(threads: map<nat, Thread>, skip: Option<nat>, left: History)
  {
    forall t | t in threads && threads[t].state != Terminated && Some(t) != skip :: t in left && left[t] == threads[t].context
  }

  /** So it is for every thread that is not on the CPU. */
  ghost predicate Resumable(s: State, left: History)
  {
    Saved(s.threads, s.current, left)
  }

  /** The current thread has blocked, another is ready, and the operation will switch to it
      with registers other than the saved ones: the scheduler saves those of running threads
      only. */
  predicate Strands(s: State, op: Op)
  {
    && Registers(op).Some? && (s.active || op.OpBlockCurrent?)
    && s.current.Some? && BlockedOnCpu(s, s.current.value) && s.queue != []
    && Registers(op).value != s.threads[s.current.value].context
  }

  /** A thread that gets the CPU gets the registers it left with. */
  ghost predicate Faithful(s: State, left: History, op: Op)
  {
    match Step(s, op).1
    case Switched(ctx) =>
      var s', left' := Step(s, op).0, Remember(s, left, op);
      s'.current.Some? && s'.current.value in left' && left'[s'.current.value] == ctx
    case _ => true
  }

  // ------------------------------------------------------------ one step

  lemma PickSaved(s: State, left: History)
    requires Dispatchable(s) && s.queue != []
    ensures var (s', r) := Pick(s);
            && s'.current == Some(s.queue[0]) && r == Switched(s.threads[s.queue[0]].context)
            && (Saved(s'.threads, s'.current, left) <==> Saved(s.threads, s'.current, left))
  {
    PickFirst(s);
    var s' := Pick(s).0;
    assert forall t | t in s.threads :: s'.threads[t].context == s.threads[t].context;
  }

  /** Leaving the CPU through a tick, a yield or a block. */
  lemma LeaveSaved(s: State, s1: State, left: History, ctx: Context)
    requires Agreement(s) && Resumable(s, left) && s.current.Some? && s.queue != []
    requires Dispatchable(s1) && s1.current == s.current && s1.queue != [] && s1.queue[0] == s.queue[0]
    requires forall t: nat | Some(t) != s.current :: t in s1.threads <==> t in s.threads
    requires forall t: nat | t in s.threads && Some(t) != s.current :: s1.threads[t] == s.threads[t]
    requires s.current.value in s1.threads
    ensures var (s', r) := Pick(s1);
            var left' := left[s.current.value := ctx];
            var curr := s1.threads[s.current.value];
            && (Saved(s'.threads, s'.current, left') <==> curr.state == Terminated || curr.context == ctx)
            && s'.current == Some(s.queue[0]) && s.queue[0] != s.current.value
            && s.queue[0] in left' && r == Switched(left'[s.queue[0]])
  {
    var tid, head := s.current.value, s.queue[0];
    var left' := left[tid := ctx];
    PickSaved(s1, left');
    PickFirst(s1);
    assert head in s.queue && IsReady(s.threads, head) && head != tid;
    if Saved(s1.threads, Some(head), left') {
      assert s1.threads[tid].state != Terminated ==> left'[tid] == s1.threads[tid].context;
    }
  }

  lemma TickSaved(s: State, left: History, ctx: Context, op: Op)
    requires Agreement(s) && Resumable(s, left) && s.active && op == OpTick(ctx)
    ensures Resumable(Tick(s, ctx).0, Remember(s, left, op)) <==> !Strands(s, op)
    ensures Faithful(s, left, op)
  {
    TickCases(s, ctx);
    if Runs(s) && (s.queue == [] || s.threads[s.current.value].slice > 1) {
      var slice := if s.queue == [] then s.quantum else s.threads[s.current.value].slice - 1;
      assert Tick(s, ctx).0 == Ticked(s, slice);
    } else {
      var s1 := BeforePick(s, ctx);
      TickDispatchable(s, ctx);
      if s.current.None? {
        AdoptSaved(s, left, ctx);
      } else if s.queue == [] {
        PickFirst(s1);
      } else {
        LeaveSaved(s, s1, left, ctx);
      }
    }
  }

  lemma AdoptSaved(s: State, left: History, ctx: Context)
    requires Agreement(s) && Resumable(s, left) && s.active && s.current.None?
    ensures Resumable(Tick(s, ctx).0, Remember(s, left, OpTick(ctx))) && Faithful(s, left, OpTick(ctx))
  {
    var s1 := AdoptKernel(s, ctx);
    AdoptDispatchable(s, ctx);
    var left' := left[0 := ctx];
    PickSaved(s1, left');
    assert s1.queue[0] in s1.queue && IsReady(s1.threads, s1.queue[0]);
  }

  lemma YieldSaved(s: State, left: History, ctx: Context)
    requires Agreement(s) && Resumable(s, left) && s.active
    ensures Resumable(Yield(s, ctx).0, Remember(s, left, OpYield(ctx))) <==> !Strands(s, OpYield(ctx))
    ensures Faithful(s, left, OpYield(ctx))
  {
    var s1 := SetSlice(s, 0, true);
    SetSliceAgrees(s, 0, true);
    TickSaved(s1, left, ctx, OpTick(ctx));
  }

  lemma BlockCurrentSaved(s: State, left: History, ctx: Context, op: Op)
    requires Agreement(s) && Resumable(s, left) && op == OpBlockCurrent(ctx)
    ensures Resumable(BlockCurrent(s, ctx).0, Remember(s, left, op)) <==> !Strands(s, op)
    ensures Faithful(s, left, op)
  {
    var s1 := s;
    if Runs(s) {
      var tid := s.current.value;
      var thread := s.threads[tid].MarkBlocked().(context := ctx);
      s1 := s.(threads := s.threads[tid := thread]);
      QueueSame(s.threads, s.queue, tid, thread);
      NoneRuns(s.threads, s.current, tid, thread);
    }
    assert s.current.Some? ==> s.current.value !in s.queue;
    if s.queue == [] {
      PickFirst(s1);
    } else if s.current.Some? {
      LeaveSaved(s, s1, left, ctx);
    } else {
      PickSaved(s1, left);
      assert s.queue[0] in s.queue && IsReady(s.threads, s.queue[0]);
    }
  }

  lemma ExitSaved(s: State, left: History, code: nat)
    requires Agreement(s) && Resumable(s, left)
    ensures Resumable(Exit(s, code).0, left) && Faithful(s, left, OpExit(code))
  {
    var s1 := EndCurrent(s, code);
    EndKeeps(s, s1, code);
    if s.queue == [] {
      PickFirst(s1);
    } else {
      PickSaved(s1, left);
      assert s.queue[0] in s.queue && IsReady(s.threads, s.queue[0]);
    }
  }

  /** Ending the current thread touches no other, and no queue. */
  lemma EndKeeps(s: State, s1: State, code: nat)
    requires Agreement(s) && s1 == EndCurrent(s, code)
    ensures Dispatchable(s1) && s1.queue == s.queue && s1.current == s.current && s1.threads.Keys == s.threads.Keys
    ensures forall t | t in s.threads :: if s.current == Some(t) then s1.threads[t].state == Terminated else s1.threads[t] == s.threads[t]
    ensures s.current.Some? ==> s.current.value !in s.queue
  {
    EndDispatchable(s, code);
  }

  lemma ExitSyscallSaved(s: State, left: History, code: nat)
    requires Agreement(s) && RootAgrees(s) && Resumable(s, left)
    ensures Resumable(ExitSyscall(s, code).0, left) && Faithful(s, left, OpExitSyscall(code))
  {
    ExitSaved(s, left, code);
    ExitsAgree(s, code);
  }

  lemma QuietSaved(s: State, left: History, op: Op)
    requires Agreement(s) && Resumable(s, left) && SwitchesNothing(op)
    ensures Resumable(Step(s, op).0, Remember(s, left, op)) && Faithful(s, left, op)
  {
  }

  /** From a state where every thread would resume with its own registers, a dispatch gives
      the right ones, and the state after a step is such a state again exactly if the step does
      not take the CPU from a blocked thread. */
  lemma StepContexts(s: State, left: History, op: Op)
    requires Agreement(s) && RootAgrees(s) && Resumable(s, left)
    ensures Resumable(Step(s, op).0, Remember(s, left, op)) <==> !Strands(s, op)
    ensures Faithful(s, left, op)
  {
    match op
    case OpTick(ctx) =>
      TickCases(s, ctx);
      if s.active {
        TickSaved(s, left, ctx, op);
      }
    case OpYield(ctx) =>
      if s.active {
        YieldSaved(s, left, ctx);
      } else {
        SetSliceAgrees(s, 0, true);
        TickCases(SetSlice(s, 0, true), ctx);
      }
    case OpBlockCurrent(ctx) => BlockCurrentSaved(s, left, ctx, op);
    case OpExit(code) => ExitSaved(s, left, code);
    case OpExitSyscall(code) => ExitSyscallSaved(s, left, code);
    case _ => QuietSaved(s, left, op);
  }

  // ------------------------------------------------------------ whole runs

  predicate StrandFree(s: State, ops: seq<Op>)
    decreases ops
  {
    ops == [] || (!Strands(s, ops[0]) && StrandFree(Step(s, ops[0]).0, ops[1..]))
  }

  ghost predicate FaithfulRun(s: State, left: History, ops: seq<Op>)
    decreases ops
  {
    ops == [] || (Faithful(s, left, ops[0]) && FaithfulRun(Step(s, ops[0]).0, Remember(s, left, ops[0]), ops[1..]))
  }

  /** In a run that takes the CPU from no blocked thread, every thread always resumes with the
      registers it left with. */
  lemma {:induction false} RunContexts(s: State, left: History, ops: seq<Op>)
    requires Invariant(s) && Resumable(s, left) && AllowedRun(s, ops) && StrandFree(s, ops)
    ensures FaithfulRun(s, left, ops)
    decreases ops
  {
    if ops != [] {
      StepContexts(s, left, ops[0]);
      StepInvariant(s, ops[0]);
      RunContexts(Step(s, ops[0]).0, Remember(s, left, ops[0]), ops[1..]);
    }
  }

  function Exits(n: nat): seq<Op>
  {
    if n == 0 then [] else [OpExit(0)] + Exits(n - 1)
  }

  /** `t` has moved up one place and is otherwise as it was. */
  ghost predicate MovesUp(s: State, s': State, t: nat)
  {
    && t in s.queue && t in s'.queue && Position(s.queue, t) == Position(s'.queue, t) + 1
    && t in s.threads && t in s'.threads && s'.threads[t] == s.threads[t]
  }

  /** `t` is ready, and its saved registers are not those it left with. */
  ghost predicate WrongReady(s: State, left: History, t: nat)
  {
    t in s.queue && t in s.threads && t in left && left[t] != s.threads[t].context
  }

  /** After `n` exits a thread has got registers that are not its own. */
  ghost predicate Breaks(s: State, left: History, n: nat)
  {
    AllowedRun(s, Exits(n)) && StrandFree(s, Exits(n)) && !FaithfulRun(s, left, Exits(n))
  }

  /** Such a thread gets the wrong registers once those before it in the queue have exited. */
  lemma {:induction false} ExitsReach(s: State, left: History, t: nat, n: nat)
    requires Invariant(s) && WrongReady(s, left, t) && n == Position(s.queue, t) + 1
    ensures Breaks(s, left, n)
    decreases n
  {
    if s.queue[0] == t {
      BreaksNow(s, left, t);
    } else {
      ExitsReach(AfterExit(s, left, t), left, t, n - 1);
      BreaksLater(s, left, n);
    }
  }

  ghost function AfterExit(s: State, left: History, t: nat): (s': State)
    requires Invariant(s) && WrongReady(s, left, t) && s.queue[0] != t
    ensures Invariant(s') && WrongReady(s', left, t) && Position(s.queue, t) == Position(s'.queue, t) + 1
  {
    ExitInvariant(s);
    ExitMoves(s, left, t);
    Exit(s, 0).0
  }

  lemma ExitInvariant(s: State)
    requires Invariant(s)
    ensures Invariant(Exit(s, 0).0)
  {
    StepInvariant(s, OpExit(0));
  }

  lemma ExitMoves(s: State, left: History, t: nat)
    requires Agreement(s) && WrongReady(s, left, t) && s.queue[0] != t
    ensures WrongReady(Exit(s, 0).0, left, t) && Position(s.queue, t) == Position(Exit(s, 0).0.queue, t) + 1
  {
    ExitNext(s, left, t);
  }

  lemma {:induction false} BreaksNow(s: State, left: History, t: nat)
    requires Invariant(s) && WrongReady(s, left, t) && s.queue[0] == t
    ensures Breaks(s, left, 1)
  {
    ExitNext(s, left, t);
    assert Exits(1) == [OpExit(0)] + [];
  }

  lemma {:induction false} BreaksLater(s: State, left: History, n: nat)
    requires n > 0 && Breaks(Exit(s, 0).0, left, n - 1)
    ensures Breaks(s, left, n)
  {
    assert Exits(n)[0] == OpExit(0) && Exits(n)[1..] == Exits(n - 1);
  }

  lemma ExitNext(s: State, left: History, t: nat)
    requires Agreement(s) && WrongReady(s, left, t)
    ensures if s.queue[0] == t then !Faithful(s, left, OpExit(0)) else MovesUp(s, Exit(s, 0).0, t)
  {
    var s1 := EndCurrent(s, 0);
    EndKeeps(s, s1, 0);
    PickNext(s1, t);
  }

  lemma PickNext(s: State, t: nat)
    requires Dispatchable(s) && t in s.queue && t in s.threads
    ensures s.queue[0] == t ==> Pick(s).0.current == Some(t) && Pick(s).1 == Switched(s.threads[t].context)
    ensures s.queue[0] != t ==> MovesUp(s, Pick(s).0, t)
  {
    PickFirst(s);
  }

  /** A thread that lost its registers can be woken and dispatched with the wrong ones. */
  lemma StrandedResumes(s: State, left: History, op: Op) returns (ops: seq<Op>)
    requires Invariant(s) && Resumable(s, left) && Allowed(s, op) && Strands(s, op)
    ensures var s', left' := Step(s, op).0, Remember(s, left, op);
            AllowedRun(s', ops) && StrandFree(s', ops) && !FaithfulRun(s', left', ops)
  {
    StepInvariant(s, op);
    Stranded(s, left, op);
    ops := WokenWrong(Step(s, op).0, Remember(s, left, op), s.current.value);
  }

  /** A blocked thread with the wrong registers saved gets them after a wake-up and some exits. */
  lemma WokenWrong(s: State, left: History, t: nat) returns (ops: seq<Op>)
    requires Invariant(s) && t in s.threads && s.threads[t].state == Blocked && s.current != Some(t)
    requires t in left && left[t] != s.threads[t].context
    ensures AllowedRun(s, ops) && StrandFree(s, ops) && !FaithfulRun(s, left, ops)
  {
    var wake := OpUnblock(t);
    var s1 := Step(s, wake).0;
    StepInvariant(s, wake);
    assert s1.queue[|s1.queue| - 1] == t;
    var n := Position(s1.queue, t) + 1;
    ExitsReach(s1, left, t, n);
    ops := [wake] + Exits(n);
    assert ops[1..] == Exits(n);
  }

  lemma Stranded(s: State, left: History, op: Op)
    requires Agreement(s) && Resumable(s, left) && Strands(s, op)
    ensures var s', left', t := Step(s, op).0, Remember(s, left, op), s.current.value;
            && t in s'.threads && s'.threads[t].state == Blocked && s'.current != Some(t)
            && t in left' && left'[t] != s'.threads[t].context
  {
    var t, ctx := s.current.value, Registers(op).value;
    assert t !in s.queue && s.queue[0] in s.queue;
    if op.OpBlockCurrent? {
      NoneRuns(s.threads, s.current, t, s.threads[t]);
      PickFirst(s);
    } else {
      TickCases(s, ctx);
      TickDispatchable(s, ctx);
      PickFirst(BeforePick(s, ctx));
    }
  }

  /** No later run can hand a thread registers that are not its own. */
  ghost predicate ContextsKept(s: State, left: History)
  {
    forall ops | AllowedRun(s, ops) && StrandFree(s, ops) :: FaithfulRun(s, left, ops)
  }

  /** The exact condition: a step keeps every thread's registers for all that follows if and
      only if it does not take the CPU from a blocked thread. */
  lemma ContextLostExactly(s: State, left: History, op: Op)
    requires Invariant(s) && Resumable(s, left) && Allowed(s, op)
    ensures ContextsKept(Step(s, op).0, Remember(s, left, op)) <==> !Strands(s, op)
  {
    var s', left' := Step(s, op).0, Remember(s, left, op);
    StepContexts(s, left, op);
    StepInvariant(s, op);
    if Strands(s, op) {
      var ops := StrandedResumes(s, left, op);
    } else {
      forall ops | AllowedRun(s', ops) && StrandFree(s', ops)
        ensures FaithfulRun(s', left', ops)
      {
        RunContexts(s', left', ops);
      }
    }
  }

  /** Such a step can come in a run from the start: the kernel's own thread is blocked by name
      while it runs and another thread is ready. */
  lemma StrandingReachable(quantum: nat, root: nat, ctx: Context, later: Context, l: Launch) returns (s: State)
    requires quantum >= 1 && ctx != later
    ensures s == RunOps(New(quantum, root), [OpActivate, OpTick(ctx), OpSpawnProcess(0, l), OpBlock(0)])
    ensures Strands(s, OpTick(later))
  {
    var s1 := KernelRuns(quantum, root, ctx);
    s := Step(Step(s1, OpSpawnProcess(0, l)).0, OpBlock(0)).0;
    BlockedByName(s1, l, later);
    RunFour(New(quantum, root), OpActivate, OpTick(ctx), OpSpawnProcess(0, l), OpBlock(0));
  }

  lemma BlockedByName(s: State, l: Launch, later: Context)
    requires s.active && s.current == Some(0) && s.queue == [] && s.nextTid == 1
    requires 0 in s.threads && s.threads[0].state == Running && s.threads[0].context != later
    ensures Strands(Block(SpawnProcess(s, 0, l), 0), OpTick(later))
  {
    assert [] + [1] == [1] && [1][1..] == [];
    assert Remove([1], 0) == [1] + Remove([], 0);
  }
}
