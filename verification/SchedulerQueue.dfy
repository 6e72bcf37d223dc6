/** In every disciplined run the ready queue lists exactly the ready threads. */
module SchedulerQueue {
  import opened Common
  import opened SchedulerState

  /** The queue lists exactly the ready threads, once each. */
  ghost predicate QueueAgrees(threads: map<nat, Thread>, queue: seq<nat>)
  {
    && Distinct(queue)
    && forall t: nat :: t in queue <==> IsReady(threads, t)
  }

  /** Thread and process tables are well keyed; time slices stay within the quantum. */
  ghost predicate Tables(s: State)
  {
    && s.quantum >= 1 && s.nextTid >= 1 && s.nextPid >= 1
    && (forall t | t in s.threads ::
          t < s.nextTid && s.threads[t].pid in s.processes && s.threads[t].slice <= s.quantum)
    && (forall p | p in s.processes :: p < s.nextPid)
    && (s.current.Some? ==> s.current.value in s.threads)
  }

  predicate IsRunning(threads: map<nat, Thread>, tid: nat)
  {
    tid in threads && threads[tid].state == Running
  }

  ghost predicate OnlyRuns(threads: map<nat, Thread>, current: Option<nat>)
  {
    forall t: nat | IsRunning(threads, t) :: current == Some(t)
  }

  /** At most the current thread runs, and the current thread does not wait in the queue.
      Thread 0 and process 0 exist only once the kernel has been adopted. */
  ghost predicate OneRuns(s: State)
  {
    && OnlyRuns(s.threads, s.current)
    && (s.current.Some? ==> !IsReady(s.threads, s.current.value))
    && (s.current.None? ==> 0 !in s.threads && 0 !in s.processes)
  }

  ghost predicate Agreement(s: State)
  {
    QueueAgrees(s.threads, s.queue) && Tables(s) && OneRuns(s)
  }

  /** The thread the CPU is still on, although it has blocked. */
  predicate BlockedOnCpu(s: State, tid: nat)
  {
    s.current == Some(tid) && tid in s.threads && s.threads[tid].state == Blocked
  }

  /** The discipline: nobody wakes a thread that has blocked and not yet left the CPU. */
  predicate Disciplined(s: State, op: Op)
  {
    op.OpUnblock? ==> !BlockedOnCpu(s, op.tid)
  }

  // ------------------------------------------------------------ dispatch

  /** On an agreeing queue the first ready thread is the first thread. */
  lemma FirstOfAgreeingQueue(threads: map<nat, Thread>, queue: seq<nat>)
    requires QueueAgrees(threads, queue)
    ensures FirstReady(threads, queue) == 0
  {
    assert queue != [] ==> queue[0] in queue;
  }

  lemma {:induction false} PickFirst(s: State)
    requires QueueAgrees(s.threads, s.queue)
    ensures s.queue == [] ==> Pick(s) == (s, Stayed)
    ensures s.queue != [] ==> IsReady(s.threads, s.queue[0]) && (Pick(s).1 == Deadlock <==> s.current == Some(s.queue[0]))
    ensures s.queue != [] && s.current != Some(s.queue[0]) ==>
              var pid := s.threads[s.queue[0]].pid;
              Pick(s) == (Dispatch(s.(queue := s.queue[1..]), s.queue[0],
                                   if CurrentPid(s) != Some(pid) then RootAfter(s, pid) else s.root),
                          Switched(s.threads[s.queue[0]].context))
  {
    FirstOfAgreeingQueue(s.threads, s.queue);
    assert s.queue != [] ==> s.queue[0] in s.queue;
  }

  lemma QueueWithout(threads: map<nat, Thread>, queue: seq<nat>, thread: Thread)
    requires QueueAgrees(threads, queue) && queue != [] && thread.state != Ready
    ensures QueueAgrees(threads[queue[0] := thread], queue[1..])
  {
    forall t: nat
      ensures t in queue[1..] <==> IsReady(threads[queue[0] := thread], t)
    {
      assert t in queue <==> t == queue[0] || t in queue[1..];
      assert t in queue <==> IsReady(threads, t);
    }
  }

  lemma QueueWith(threads: map<nat, Thread>, queue: seq<nat>, tid: nat, thread: Thread)
    requires QueueAgrees(threads, queue) && !IsReady(threads, tid) && thread.state == Ready
    ensures QueueAgrees(threads[tid := thread], queue + [tid])
  {
    assert tid !in queue;
    forall t: nat
      ensures t in queue + [tid] <==> IsReady(threads[tid := thread], t)
    {
      assert t in queue <==> IsReady(threads, t);
    }
  }

  lemma QueueSame(threads: map<nat, Thread>, queue: seq<nat>, tid: nat, thread: Thread)
    requires QueueAgrees(threads, queue)
    requires IsReady(threads, tid) <==> thread.state == Ready
    ensures QueueAgrees(threads[tid := thread], queue)
  {
    forall t: nat
      ensures t in queue <==> IsReady(threads[tid := thread], t)
    {
      assert t in queue <==> IsReady(threads, t);
    }
  }

  lemma NoneRuns(threads: map<nat, Thread>, current: Option<nat>, tid: nat, thread: Thread)
    requires OnlyRuns(threads, current) && (current.Some? ==> current == Some(tid)) && thread.state != Running
    ensures OnlyRuns(threads[tid := thread], None)
  {
    var threads' := threads[tid := thread];
    forall t: nat | IsRunning(threads', t)
      ensures false
    {
      assert t != tid && IsRunning(threads, t);
    }
  }

  /** What a state must satisfy for a dispatch to restore agreement: no thread runs and the
      current thread is not at the head of the queue. */
  ghost predicate Dispatchable(s: State)
  {
    && QueueAgrees(s.threads, s.queue) && Tables(s)
    && OnlyRuns(s.threads, if s.queue == [] then s.current else None)
    && (s.queue != [] ==> s.current != Some(s.queue[0]))
    && (s.queue == [] && s.current.None? ==> 0 !in s.threads && 0 !in s.processes)
  }

  lemma PickAgrees(s: State)
    requires Dispatchable(s)
    ensures Agreement(Pick(s).0) && Pick(s).1 != Deadlock
  {
    PickFirst(s);
    if s.queue != [] {
      var tid := s.queue[0];
      QueueWithout(s.threads, s.queue, s.threads[tid].MarkRunning().(slice := s.quantum));
    } else if s.current.Some? {
      assert s.current.value !in s.queue;
    }
  }

  lemma PickUnconditionalAgrees(s: State)
    requires Dispatchable(s)
    ensures Agreement(PickUnconditional(s).0)
  {
    FirstOfAgreeingQueue(s.threads, s.queue);
    PickAgrees(s);
    if s.queue != [] {
      QueueWithout(s.threads, s.queue, s.threads[s.queue[0]].MarkRunning().(slice := s.quantum));
    }
  }

  // ------------------------------------------------------------ operations

  lemma SpawnAgrees(s: State, op: Op)
    requires Agreement(s) && (op.OpSpawnProcess? || op.OpSpawnThread?)
    ensures Agreement(Step(s, op).0)
  {
    var (_, stack) := StackFor(s, op.launch);
    var pid := if op.OpSpawnProcess? then s.nextPid else op.pid;
    QueueWith(s.threads, s.queue, s.nextTid, NewThread(s, s.nextTid, pid, op.launch, stack));
  }

  lemma AdoptDispatchable(s: State, ctx: Context)
    requires Agreement(s) && s.current.None?
    ensures Dispatchable(AdoptKernel(s, ctx))
  {
    var kernel := Thread(0, 0, 0, ctx.sp, Ready, 10, ctx, s.quantum, 0);
    QueueWith(s.threads, s.queue, 0, kernel);
    NoneRuns(s.threads, s.current, 0, kernel);
  }

  /** The state in which `Tick` looks for the next thread, when it does. */
  function BeforePick(s: State, ctx: Context): State
  {
    if s.current.None? then AdoptKernel(s, ctx)
    else if s.current.value !in s.threads then s
    else
      var tid := s.current.value;
      var curr := s.threads[tid].(totalTicks := Increment(s.threads[tid].totalTicks));
      if curr.state != Running then s.(threads := s.threads[tid := curr])
      else s.(threads := s.threads[tid := curr.MarkReady().(slice := s.quantum, context := ctx)],
              queue := s.queue + [tid])
  }

  predicate Runs(s: State)
  {
    s.current.Some? && IsRunning(s.threads, s.current.value)
  }

  lemma TickCases(s: State, ctx: Context)
    requires Tables(s)
    ensures !s.active ==> Tick(s, ctx) == (s, Stayed)
    ensures s.active && Runs(s) && s.queue == [] ==> Tick(s, ctx) == (Ticked(s, s.quantum), Stayed)
    ensures s.active && Runs(s) && s.queue != [] && s.threads[s.current.value].slice > 1 ==>
              Tick(s, ctx) == (Ticked(s, s.threads[s.current.value].slice - 1), Stayed)
    ensures s.active && !(Runs(s) && (s.queue == [] || s.threads[s.current.value].slice > 1)) ==>
              Tick(s, ctx) == Pick(BeforePick(s, ctx))
  {
  }

  /** The running thread has used one more tick and has `slice` left. */
  function Ticked(s: State, slice: nat): State
    requires Runs(s)
  {
    var curr := s.threads[s.current.value];
    s.(threads := s.threads[s.current.value := curr.(totalTicks := Increment(curr.totalTicks), slice := slice)])
  }

  lemma TickDispatchable(s: State, ctx: Context)
    requires Agreement(s)
    requires Runs(s) ==> s.queue != []
    ensures Dispatchable(BeforePick(s, ctx))
  {
    if s.current.None? {
      AdoptDispatchable(s, ctx);
    } else {
      var tid := s.current.value;
      var curr := s.threads[tid].(totalTicks := Increment(s.threads[tid].totalTicks));
      assert tid !in s.queue;
      if curr.state != Running {
        QueueSame(s.threads, s.queue, tid, curr);
        NoneRuns(s.threads, s.current, tid, curr);
      } else {
        var waiting := curr.MarkReady().(slice := s.quantum, context := ctx);
        QueueWith(s.threads, s.queue, tid, waiting);
        NoneRuns(s.threads, s.current, tid, waiting);
      }
    }
  }

  lemma TickAgrees(s: State, ctx: Context)
    requires Agreement(s)
    ensures Agreement(Tick(s, ctx).0) && Tick(s, ctx).1 != Deadlock
  {
    TickCases(s, ctx);
    if s.active {
      if Runs(s) && (s.queue == [] || s.threads[s.current.value].slice > 1) {
        var slice := if s.queue == [] then s.quantum else s.threads[s.current.value].slice - 1;
        QueueSame(s.threads, s.queue, s.current.value, Ticked(s, slice).threads[s.current.value]);
      } else {
        TickDispatchable(s, ctx);
        PickAgrees(BeforePick(s, ctx));
      }
    }
  }

  lemma SetSliceAgrees(s: State, slice: nat, onlyRunning: bool)
    requires Agreement(s) && slice <= s.quantum
    ensures Agreement(SetSlice(s, slice, onlyRunning))
  {
    if s.current.Some? {
      QueueSame(s.threads, s.queue, s.current.value, s.threads[s.current.value].(slice := slice));
    }
  }

  lemma EndDispatchable(s: State, code: nat)
    requires Agreement(s)
    ensures Dispatchable(EndCurrent(s, code))
  {
    if s.current.Some? {
      var tid := s.current.value;
      QueueSame(s.threads, s.queue, tid, s.threads[tid].MarkTerminated());
      NoneRuns(s.threads, s.current, tid, s.threads[tid].MarkTerminated());
      assert tid !in s.queue;
    }
  }

  lemma {:induction false} RemoveMembers(queue: seq<nat>, tid: nat)
    requires Distinct(queue)
    ensures Distinct(Remove(queue, tid))
    ensures forall t: nat :: t in Remove(queue, tid) <==> t in queue && t != tid
  {
    if queue != [] {
      RemoveMembers(queue[1..], tid);
      assert forall t: nat :: t in queue <==> t == queue[0] || t in queue[1..];
      assert queue[0] !in queue[1..];
    }
  }

  lemma BlockAgrees(s: State, tid: nat)
    requires Agreement(s)
    ensures Agreement(Block(s, tid))
  {
    var s' := Block(s, tid);
    if s' != s {
      RemoveMembers(s.queue, tid);
      forall t: nat
        ensures t in s'.queue <==> IsReady(s'.threads, t)
      {
        assert t in s.queue <==> IsReady(s.threads, t);
      }
    }
  }

  lemma BlockCurrentAgrees(s: State, ctx: Context)
    requires Agreement(s)
    ensures Agreement(BlockCurrent(s, ctx).0) && BlockCurrent(s, ctx).1 != Deadlock
  {
    assert s.current.Some? ==> s.current.value !in s.queue;
    if Runs(s) {
      var tid := s.current.value;
      var thread := s.threads[tid].MarkBlocked().(context := ctx);
      QueueSame(s.threads, s.queue, tid, thread);
      NoneRuns(s.threads, s.current, tid, thread);
      PickAgrees(s.(threads := s.threads[tid := thread]));
    } else {
      PickAgrees(s);
    }
  }

  /** Waking a thread keeps agreement exactly when it is not the blocked thread the CPU is
      still on. */
  lemma UnblockAgrees(s: State, tid: nat)
    requires Agreement(s)
    ensures Agreement(Unblock(s, tid)) <==> !BlockedOnCpu(s, tid)
  {
    if tid in s.threads && s.threads[tid].state == Blocked {
      var thread := s.threads[tid].MarkReady().(slice := s.quantum);
      QueueWith(s.threads, s.queue, tid, thread);
      assert IsReady(Unblock(s, tid).threads, tid);
    }
  }

  /** Every disciplined step keeps the queue and the thread states in agreement, and never
      waits for a lock it holds. */
  lemma StepAgrees(s: State, op: Op)
    requires Agreement(s) && Disciplined(s, op)
    ensures Agreement(Step(s, op).0) && Step(s, op).1 != Deadlock
  {
    match op
    case OpSpawnProcess(_, _) => SpawnAgrees(s, op);
    case OpSpawnThread(_, _) => SpawnAgrees(s, op);
    case OpActivate =>
    case OpTick(ctx) => TickAgrees(s, ctx);
    case OpYield(ctx) =>
      SetSliceAgrees(s, 0, true);
      TickAgrees(SetSlice(s, 0, true), ctx);
    case OpExpire => SetSliceAgrees(s, 1, false);
    case OpExit(code) =>
      EndDispatchable(s, code);
      PickAgrees(EndCurrent(s, code));
    case OpExitSyscall(code) =>
      EndDispatchable(s, code);
      PickUnconditionalAgrees(EndCurrent(s, code));
    case OpBlock(tid) => BlockAgrees(s, tid);
    case OpBlockCurrent(ctx) => BlockCurrentAgrees(s, ctx);
    case OpUnblock(tid) => UnblockAgrees(s, tid);
  }

  /** Without the discipline the scheduler can hang: once the only thread has blocked and
      is then woken while the CPU is still on it, the next tick waits forever for the lock
      of the thread it is about to resume. */
  lemma SelfWakeupHangs(s: State, tid: nat, ctx: Context)
    requires Agreement(s) && s.active && s.queue == []
    requires BlockedOnCpu(s, tid)
    ensures Tick(Unblock(s, tid), ctx).1 == Deadlock
  {
    var s1 := Unblock(s, tid);
    QueueWith(s.threads, s.queue, tid, s1.threads[tid]);
    QueueSame(s1.threads, s1.queue, tid, BeforePick(s1, ctx).threads[tid]);
    PickFirst(BeforePick(s1, ctx));
  }
}
