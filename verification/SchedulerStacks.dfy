/** No kernel stack is lost or shared. */
module SchedulerStacks {
  import opened Common
  import opened SchedulerState
  import opened SchedulerQueue

  /** Thread `t` can still run, on stack `k`. */
  predicate RunsOn(threads: map<nat, Thread>, t: nat, k: nat)
  {
    t in threads && threads[t].state != Terminated && threads[t].kernelSp == k
  }

  /** The thread the CPU is on, possibly one that has just exited, uses stack `k`. */
  predicate CurrentOn(s: State, k: nat)
  {
    s.current.Some? && s.current.value in s.threads && s.threads[s.current.value].kernelSp == k
  }

  predicate CurrentEnded(s: State)
  {
    s.current.Some? && s.current.value in s.threads && s.threads[s.current.value].state == Terminated
  }

  /** The managed stacks are the disjoint union of the pool, the pending stack and the
      stacks of the threads that can still run; the pending stack is the one under the
      thread that has just exited. */
  ghost predicate Stacks(s: State)
  {
    && Distinct(s.pool)
    && (forall k | k in s.pool :: k in s.owned)
    && (s.pending.Some? ==> s.pending.value in s.owned && s.pending.value !in s.pool
                            && CurrentEnded(s) && CurrentOn(s, s.pending.value))
    && (forall k | k in s.owned && CurrentEnded(s) && CurrentOn(s, k) :: s.pending == Some(k))
    && (forall t: nat, k | k in s.owned && RunsOn(s.threads, t, k) :: k !in s.pool && s.pending != Some(k))
    && (forall t: nat, u: nat, k | k in s.owned && RunsOn(s.threads, t, k) && RunsOn(s.threads, u, k) :: t == u)
    && (forall k | k in s.owned :: Placed(s, k))
  }

  ghost predicate Placed(s: State, k: nat)
  {
    k in s.pool || s.pending == Some(k) || exists t: nat :: RunsOn(s.threads, t, k)
  }

  /** What callers promise: stacks they supply are not managed ones, and memory the heap
      supplies is not in use as a stack. */
  ghost predicate SuppliedStacks(s: State, op: Op)
  {
    match op
    case OpSpawnProcess(_, l) => Supplied(s, l)
    case OpSpawnThread(_, l) => Supplied(s, l)
    case OpTick(ctx) => s.current.None? ==> ctx.sp !in s.owned
    case OpYield(ctx) => s.current.None? ==> ctx.sp !in s.owned
    case _ => true
  }

  ghost predicate Supplied(s: State, l: Launch)
  {
    && l.kernelSp !in s.owned
    && l.heapStack !in s.owned && !CurrentOn(s, l.heapStack)
    && forall t: nat :: !RunsOn(s.threads, t, l.heapStack)
  }

  /** `s'` is `s` with one more thread, which runs on `stack`. */
  ghost predicate OneMore(s: State, s': State, tid: nat, stack: nat)
  {
    && tid !in s.threads && s'.current == s.current && s'.pending == s.pending
    && (s.current.Some? ==> s.current.value in s.threads)
    && (forall t | t in s.threads :: t in s'.threads && s'.threads[t] == s.threads[t])
    && (forall t: nat, k :: RunsOn(s'.threads, t, k) <==> RunsOn(s.threads, t, k) || (t == tid && k == stack))
  }

  lemma OneMorePlaced(s: State, s': State, tid: nat, stack: nat, k: nat)
    requires OneMore(s, s', tid, stack) && Placed(s, k)
    requires k in s.pool ==> k == stack || k in s'.pool
    ensures Placed(s', k)
  {
    if k == stack {
      assert RunsOn(s'.threads, tid, stack);
    } else if t: nat :| RunsOn(s.threads, t, k) {
      assert RunsOn(s'.threads, t, k);
    }
  }

  lemma UnmanagedStack(s: State, s': State, tid: nat, stack: nat)
    requires Stacks(s) && OneMore(s, s', tid, stack) && stack !in s.owned
    requires s'.pool == s.pool && s'.owned == s.owned
    ensures Stacks(s')
  {
    forall k | k in s'.owned
      ensures Placed(s', k)
    {
      OneMorePlaced(s, s', tid, stack, k);
    }
  }

  lemma PooledStack(s: State, s': State, tid: nat, stack: nat)
    requires Stacks(s) && OneMore(s, s', tid, stack)
    requires s.pool != [] && s'.pool == s.pool[..|s.pool| - 1] && s'.owned == s.owned && stack == s.pool[|s.pool| - 1]
    ensures Stacks(s')
  {
    assert stack in s.pool && stack !in s'.pool;
    forall k | k in s'.owned
      ensures Placed(s', k)
    {
      OneMorePlaced(s, s', tid, stack, k);
    }
  }

  lemma HeapStack(s: State, s': State, tid: nat, stack: nat)
    requires Stacks(s) && OneMore(s, s', tid, stack)
    requires s.pool == [] && s'.pool == [] && s'.owned == s.owned + {stack}
    requires stack !in s.owned && !CurrentOn(s, stack) && forall t: nat :: !RunsOn(s.threads, t, stack)
    ensures Stacks(s')
  {
    forall k | k in s'.owned
      ensures Placed(s', k)
    {
      if k == stack {
        assert RunsOn(s'.threads, tid, stack);
      } else {
        OneMorePlaced(s, s', tid, stack, k);
      }
    }
  }

  lemma SpawnedStack(s: State, s': State, pid: nat, l: Launch)
    requires Agreement(s) && Stacks(s) && Supplied(s, l)
    requires var (s1, stack) := StackFor(s, l);
             s' == s1.(nextPid := s'.nextPid, nextTid := s'.nextTid, processes := s'.processes, queue := s'.queue,
                       threads := s.threads[s.nextTid := NewThread(s, s.nextTid, pid, l, stack)])
    ensures Stacks(s')
  {
    var stack := StackFor(s, l).1;
    assert OneMore(s, s', s.nextTid, stack);
    if l.kernelSp != 0 {
      UnmanagedStack(s, s', s.nextTid, stack);
    } else if s.pool != [] {
      PooledStack(s, s', s.nextTid, stack);
    } else {
      HeapStack(s, s', s.nextTid, stack);
    }
  }

  /** A change of state, slice or context of a thread that can still run. */
  lemma StacksSame(s: State, s': State, tid: nat, thread: Thread)
    requires Stacks(s) && tid in s.threads
    requires s' == s.(threads := s.threads[tid := thread], queue := s'.queue)
    requires thread.kernelSp == s.threads[tid].kernelSp
    requires thread.state == Terminated <==> s.threads[tid].state == Terminated
    ensures Stacks(s')
  {
    forall t: nat, k
      ensures RunsOn(s'.threads, t, k) <==> RunsOn(s.threads, t, k)
    {
    }
    forall k | k in s'.owned
      ensures Placed(s', k)
    {
      assert Placed(s, k);
      if t: nat :| RunsOn(s.threads, t, k) {
        assert RunsOn(s'.threads, t, k);
      }
    }
  }

  /** A dispatch recycles the pending stack: by then the CPU has left it. */
  lemma DispatchStacks(s: State, tid: nat, root: nat)
    requires Stacks(s) && tid in s.threads && s.threads[tid].state == Ready
    ensures Stacks(Dispatch(s, tid, root))
  {
    var s' := Dispatch(s, tid, root);
    forall t: nat, k
      ensures RunsOn(s'.threads, t, k) <==> RunsOn(s.threads, t, k)
    {
    }
    forall k | k in s'.owned
      ensures Placed(s', k)
    {
      assert Placed(s, k);
      if t: nat :| RunsOn(s.threads, t, k) {
        assert RunsOn(s'.threads, t, k);
      }
    }
  }

  lemma PickStacks(s: State)
    requires Stacks(s)
    ensures Stacks(Pick(s).0) && Stacks(PickUnconditional(s).0)
  {
    var k := FirstReady(s.threads, s.queue);
    FirstReadyIsReady(s.threads, s.queue);
    QueueIsNoStack(s, []);
    if k < |s.queue| {
      var s1 := s.(queue := s.queue[k + 1..]);
      QueueIsNoStack(s, s1.queue);
      var tid := s.queue[k];
      var pid := s.threads[tid].pid;
      DispatchStacks(s1, tid, if CurrentPid(s) != Some(pid) then RootAfter(s, pid) else s.root);
      DispatchStacks(s1, tid, RootAfter(s, pid));
    }
  }

  lemma QueueIsNoStack(s: State, queue: seq<nat>)
    requires Stacks(s)
    ensures Stacks(s.(queue := queue))
  {
    var s' := s.(queue := queue);
    forall k | k in s'.owned
      ensures Placed(s', k)
    {
      assert Placed(s, k);
    }
  }

  lemma AdoptStacks(s: State, ctx: Context)
    requires Agreement(s) && Stacks(s) && s.current.None? && ctx.sp !in s.owned
    ensures Stacks(AdoptKernel(s, ctx))
  {
    var s' := AdoptKernel(s, ctx);
    forall t: nat, k
      ensures RunsOn(s'.threads, t, k) <==> RunsOn(s.threads, t, k) || (t == 0 && k == ctx.sp)
    {
    }
    forall k | k in s'.owned
      ensures Placed(s', k)
    {
      assert Placed(s, k);
      if t: nat :| RunsOn(s.threads, t, k) {
        assert RunsOn(s'.threads, t, k);
      }
    }
  }

  lemma TickStacks(s: State, ctx: Context)
    requires Agreement(s) && Stacks(s) && (s.current.None? ==> ctx.sp !in s.owned)
    ensures Stacks(Tick(s, ctx).0)
  {
    TickCases(s, ctx);
    if s.active {
      if Runs(s) && (s.queue == [] || s.threads[s.current.value].slice > 1) {
        var slice := if s.queue == [] then s.quantum else s.threads[s.current.value].slice - 1;
        StacksSame(s, Ticked(s, slice), s.current.value, Ticked(s, slice).threads[s.current.value]);
      } else {
        var s1 := BeforePick(s, ctx);
        if s.current.None? {
          AdoptStacks(s, ctx);
        } else {
          StacksSame(s, s1, s.current.value, s1.threads[s.current.value]);
        }
        PickStacks(s1);
      }
    }
  }

  /** An exit moves the stack of the thread from the running ones to the pending one. */
  lemma EndStacks(s: State, code: nat)
    requires Agreement(s) && Stacks(s)
    ensures Stacks(EndCurrent(s, code))
  {
    if s.current.Some? {
      var tid := s.current.value;
      var s' := EndCurrent(s, code);
      var k0 := s.threads[tid].kernelSp;
      forall t: nat, k
        ensures RunsOn(s'.threads, t, k) <==> RunsOn(s.threads, t, k) && t != tid
      {
      }
      if s.threads[tid].state == Terminated {
        assert k0 in s.owned ==> s.pending == Some(k0);
      } else {
        assert RunsOn(s.threads, tid, k0);
      }
      forall k | k in s'.owned
        ensures Placed(s', k)
      {
        assert Placed(s, k);
        if t: nat :| RunsOn(s.threads, t, k) {
          assert t != tid ==> RunsOn(s'.threads, t, k);
        }
      }
    }
  }

  /** Every disciplined step keeps the partition of the managed stacks. */
  lemma StepStacks(s: State, op: Op)
    requires Agreement(s) && Stacks(s) && SuppliedStacks(s, op)
    ensures Stacks(Step(s, op).0)
  {
    match op
    case OpSpawnProcess(_, l) => SpawnedStack(s, Step(s, op).0, s.nextPid, l);
    case OpSpawnThread(pid, l) =>
      if pid in s.processes {
        SpawnedStack(s, Step(s, op).0, pid, l);
      }
    case OpActivate => ActiveIsNoStack(s);
    case OpTick(ctx) => TickStacks(s, ctx);
    case OpYield(ctx) =>
      SetSliceAgrees(s, 0, true);
      if Runs(s) {
        StacksSame(s, SetSlice(s, 0, true), s.current.value, s.threads[s.current.value].(slice := 0));
      }
      TickStacks(SetSlice(s, 0, true), ctx);
    case OpExpire =>
      if s.current.Some? {
        StacksSame(s, SetSlice(s, 1, false), s.current.value, s.threads[s.current.value].(slice := 1));
      }
    case OpExit(code) =>
      EndStacks(s, code);
      PickStacks(EndCurrent(s, code));
    case OpExitSyscall(code) =>
      EndStacks(s, code);
      PickStacks(EndCurrent(s, code));
    case OpBlock(tid) =>
      if Block(s, tid) != s {
        StacksSame(s, Block(s, tid), tid, s.threads[tid].MarkBlocked());
      }
    case OpBlockCurrent(ctx) =>
      if Runs(s) {
        var tid := s.current.value;
        var thread := s.threads[tid].MarkBlocked().(context := ctx);
        StacksSame(s, s.(threads := s.threads[tid := thread]), tid, thread);
        PickStacks(s.(threads := s.threads[tid := thread]));
      } else {
        PickStacks(s);
      }
    case OpUnblock(tid) =>
      if Unblock(s, tid) != s {
        StacksSame(s, Unblock(s, tid), tid, s.threads[tid].MarkReady().(slice := s.quantum));
      }
  }

  lemma ActiveIsNoStack(s: State)
    requires Stacks(s)
    ensures Stacks(s.(active := true))
  {
    var s' := s.(active := true);
    forall k | k in s'.owned
      ensures Placed(s', k)
    {
      assert Placed(s, k);
    }
  }

  /** A new thread never gets the stack the CPU is on, even if the thread there has just
      exited, nor the stack of any thread that can still run. */
  lemma NewStackIsUnused(s: State, l: Launch)
    requires Agreement(s) && Stacks(s) && Supplied(s, l) && l.kernelSp == 0
    ensures var k := StackFor(s, l).1;
            !CurrentOn(s, k) && forall t: nat :: !RunsOn(s.threads, t, k)
  {
    var k := StackFor(s, l).1;
    if s.pool != [] {
      assert k in s.pool;
      if CurrentOn(s, k) && !CurrentEnded(s) {
        assert RunsOn(s.threads, s.current.value, k);
      }
    }
  }
}
