/** The scheduler itself: the methods that update its fields, each proved to do one step of
    the state machine. */
module Schedulers {
  import opened Common
  import opened SchedulerState
  import opened SchedulerTheorems
  import opened SchedulerLives

  const DEFAULT_QUANTUM_TICKS: nat := 2

  class Scheduler {
    var processes: map<nat, Process>
    var threads: map<nat, Thread>
    var readyQueue: seq<nat>
    var currentTid: Option<nat>
    var active: bool
    var defaultQuantum: nat
    var contextSwitches: nat
    var stackPool: seq<nat>
    var ownedStacks: set<nat>
    var pendingFreeStack: Option<nat>
    var nextPid: nat
    var nextTid: nat
    var activeRoot: nat // the CPU's page table register

    function View(): State
      reads this
    {
      State(processes, threads, readyQueue, currentTid, active, defaultQuantum, contextSwitches,
            stackPool, ownedStacks, pendingFreeStack, nextPid, nextTid, activeRoot)
    }

    constructor (root: nat)
      ensures View() == New(DEFAULT_QUANTUM_TICKS, root) && Invariant(View())
      ensures !active && currentTid.None? && threads == map[] && processes == map[] && readyQueue == []
      ensures defaultQuantum == 2 && contextSwitches == 0 && nextPid == 1 && nextTid == 1 && activeRoot == root
    {
      processes, threads, readyQueue, currentTid := map[], map[], [], None;
      active, defaultQuantum, contextSwitches := false, DEFAULT_QUANTUM_TICKS, 0;
      stackPool, ownedStacks, pendingFreeStack := [], {}, None;
      nextPid, nextTid, activeRoot := 1, 1, root;
      NewInvariant(DEFAULT_QUANTUM_TICKS, root);
    }

    method AllocKernelStack(heapStack: nat) returns (stack: nat)
      modifies this
      ensures (View(), stack) == AllocStack(old(View()), heapStack)
    {
      if |stackPool| > 0 {
        stack := stackPool[|stackPool| - 1];
        stackPool := stackPool[..|stackPool| - 1];
      } else {
        stack := heapStack;
        ownedStacks := ownedStacks + {heapStack};
      }
    }

    method DeferRecycleStack(stack: nat)
      modifies this`pendingFreeStack
      ensures pendingFreeStack == if stack in ownedStacks then Some(stack) else old(pendingFreeStack)
    {
      if stack in ownedStacks {
        pendingFreeStack := Some(stack);
      }
    }

    method DrainPendingStack()
      modifies this`pendingFreeStack, this`stackPool
      ensures pendingFreeStack == None
      ensures stackPool == if old(pendingFreeStack).Some? then old(stackPool) + [old(pendingFreeStack).value] else old(stackPool)
    {
      if pendingFreeStack.Some? {
        stackPool := stackPool + [pendingFreeStack.value];
        pendingFreeStack := None;
      }
    }

    /** The stack the caller supplies, or a managed one. */
    method TakeStack(l: Launch) returns (stack: nat)
      modifies this
      ensures (View(), stack) == StackFor(old(View()), l)
    {
      stack := l.kernelSp;
      if stack == 0 {
        stack := AllocKernelStack(l.heapStack);
      }
    }

    method SpawnProcess(root: nat, l: Launch) returns (pid: nat, tid: nat)
      modifies this
      ensures Did(old(View()), OpSpawnProcess(root, l), View(), Stayed)
      ensures pid == old(nextPid) && tid == old(nextTid)
      ensures tid in threads && Launched(old(View()), threads[tid], pid, l)
      ensures threads == old(threads)[tid := threads[tid]] && readyQueue == old(readyQueue) + [tid]
      ensures pid in processes && processes[pid].root == root && processes[pid].isUser == l.isUser
      ensures processes[pid].threads == [tid] && processes[pid].state == ProcessReady && processes[pid].exitCode.None?
      ensures processes == old(processes)[pid := processes[pid]]
    {
      ghost var before := View();
      pid, tid := AddProcess(root, l);
      DidStep(before, OpSpawnProcess(root, l), View(), Stayed);
      SpawnLaunches(before, OpSpawnProcess(root, l), pid, l);
    }

    method AddProcess(root: nat, l: Launch) returns (pid: nat, tid: nat)
      modifies this
      ensures View() == Step(old(View()), OpSpawnProcess(root, l)).0
      ensures pid == old(nextPid) && tid == old(nextTid)
    {
      pid, tid := nextPid, nextTid;
      nextPid, nextTid := nextPid + 1, nextTid + 1;
      var pcb := NewProcess(pid, root, l.isUser, tid);
      var stack := TakeStack(l);
      ghost var mid := View();
      SpawnedView(old(View()), root, l, mid, stack);
      processes := processes[pid := pcb];
      EnqueueThread(tid, pid, l, stack);
    }

    /** A new ready thread joins the table and the queue. */
    method EnqueueThread(tid: nat, pid: nat, l: Launch, stack: nat)
      modifies this`threads, this`readyQueue
      ensures threads == old(threads)[tid := NewThread(old(View()), tid, pid, l, stack)]
      ensures readyQueue == old(readyQueue) + [tid]
    {
      threads := threads[tid := Thread(tid, pid, l.userSp, stack, Ready, 10, NewContext(l, stack), defaultQuantum, 0)];
      readyQueue := readyQueue + [tid];
    }

    method SpawnThread(pid: nat, l: Launch) returns (tid: Option<nat>)
      modifies this
      ensures Did(old(View()), OpSpawnThread(pid, l), View(), Stayed)
      ensures tid == if pid in old(processes) then Some(old(nextTid)) else None
      ensures tid.Some? ==>
                && tid.value in threads && Launched(old(View()), threads[tid.value], pid, l)
                && threads == old(threads)[tid.value := threads[tid.value]] && readyQueue == old(readyQueue) + [tid.value]
                && pid in processes && tid.value in processes[pid].threads
      ensures tid.None? ==> View() == old(View())
    {
      ghost var before := View();
      tid := AddThread(pid, l);
      DidStep(before, OpSpawnThread(pid, l), View(), Stayed);
      if tid.Some? {
        SpawnLaunches(before, OpSpawnThread(pid, l), pid, l);
      }
    }

    method AddThread(pid: nat, l: Launch) returns (tid: Option<nat>)
      modifies this
      ensures View() == Step(old(View()), OpSpawnThread(pid, l)).0
      ensures tid == if pid in old(processes) then Some(old(nextTid)) else None
    {
      if pid !in processes {
        return None;
      }
      var id := nextTid;
      nextTid := nextTid + 1;
      var stack := TakeStack(l);
      processes := processes[pid := processes[pid].AddThread(id)];
      EnqueueThread(id, pid, l, stack);
      tid := Some(id);
    }

    method Activate()
      modifies this`active
      ensures Did(old(View()), OpActivate, View(), Stayed)
    {
      StepInvariant(View(), OpActivate);
      active := true;
    }

    /** Pops the queue until it finds a ready thread and switches to it. */
    method PickAndSwitchNext() returns (r: Answer)
      modifies this
      ensures (View(), r) == Pick(old(View()))
    {
      while |readyQueue| > 0
        invariant Pick(View()) == Pick(old(View()))
        decreases |readyQueue|
      {
        ghost var before := View();
        var nextTid := readyQueue[0];
        readyQueue := readyQueue[1..];
        if nextTid !in threads || threads[nextTid].state != Ready {
          SkipUnready(before);
          continue;
        }
        if currentTid == Some(nextTid) {
          return Deadlock; // the current thread's lock is the one already held
        }
        var next := threads[nextTid];
        var currentPid := if currentTid.Some? && currentTid.value in threads then Some(threads[currentTid.value].pid) else None;
        if Some(next.pid) != currentPid && next.pid in processes && processes[next.pid].root != 0 {
          activeRoot := processes[next.pid].root;
        }
        RunNext(nextTid);
        return Switched(next.context);
      }
      r := Stayed;
    }

    /** Marks the chosen thread running and returns the stack the CPU has left to the pool. */
    method RunNext(tid: nat)
      requires tid in threads
      modifies this
      ensures View() == Dispatch(old(View()), tid, old(activeRoot))
    {
      threads := threads[tid := threads[tid].MarkRunning().(slice := defaultQuantum)];
      currentTid := Some(tid);
      contextSwitches := Increment(contextSwitches);
      DrainPendingStack();
    }

    /** The timer hook: charges the running thread a tick and preempts it when its slice is
        used up and others wait. */
    method OnTick(ctx: Context) returns (r: Answer)
      modifies this
      ensures Did(old(View()), OpTick(ctx), View(), r)
    {
      StepInvariant(View(), OpTick(ctx));
      r := Charge(ctx);
    }

    method Charge(ctx: Context) returns (r: Answer)
      modifies this
      ensures (View(), r) == Tick(old(View()), ctx)
    {
      if !active {
        return Stayed;
      }
      if currentTid.None? {
        var kernelPcb := Process(0, 0, ProcessReady, [], None, false).AddThread(0);
        assert kernelPcb.threads == [0];
        var kernelTcb := Thread(0, 0, 0, ctx.sp, Ready, 10, ctx, defaultQuantum, 0).MarkReady();
        processes := processes[0 := kernelPcb];
        threads := threads[0 := kernelTcb];
        readyQueue := readyQueue + [0];
      } else if currentTid.value in threads {
        var tid := currentTid.value;
        var curr := threads[tid];
        curr := curr.(totalTicks := Increment(curr.totalTicks));
        if curr.state == Running {
          if curr.slice > 1 && |readyQueue| > 0 {
            threads := threads[tid := curr.(slice := curr.slice - 1)];
            return Stayed;
          }
          if |readyQueue| == 0 {
            threads := threads[tid := curr.(slice := defaultQuantum)];
            return Stayed;
          }
          curr := curr.MarkReady().(slice := defaultQuantum, context := ctx);
          readyQueue := readyQueue + [tid];
        }
        threads := threads[tid := curr];
      }
      r := PickAndSwitchNext();
    }

    method ExpireCurrentQuantum()
      modifies this`threads
      ensures Did(old(View()), OpExpire, View(), Stayed)
    {
      StepInvariant(View(), OpExpire);
      if currentTid.Some? && currentTid.value in threads {
        threads := threads[currentTid.value := threads[currentTid.value].(slice := 1)];
      }
    }

    method YieldCurrent(ctx: Context) returns (r: Answer)
      modifies this
      ensures Did(old(View()), OpYield(ctx), View(), r)
    {
      StepInvariant(View(), OpYield(ctx));
      if currentTid.Some? && currentTid.value in threads && threads[currentTid.value].state == Running {
        threads := threads[currentTid.value := threads[currentTid.value].(slice := 0)];
      }
      r := Charge(ctx);
    }

    /** Ends the current thread, and its process if that was its last thread. */
    method Terminate(exitCode: nat)
      modifies this
      ensures View() == EndCurrent(old(View()), exitCode)
    {
      if currentTid.Some? && currentTid.value in threads {
        var tid := currentTid.value;
        var curr := threads[tid];
        threads := threads[tid := curr.MarkTerminated()];
        DeferRecycleStack(curr.kernelSp);
        if curr.pid in processes {
          var pcb := processes[curr.pid];
          var allTerminated := true;
          for i := 0 to |pcb.threads|
            invariant allTerminated == AllTerminated(threads, pcb.threads[..i])
          {
            if pcb.threads[i] in threads && threads[pcb.threads[i]].state != Terminated {
              assert pcb.threads[..i + 1][i] == pcb.threads[i];
              allTerminated := false;
            }
          }
          assert pcb.threads[..|pcb.threads|] == pcb.threads;
          if allTerminated {
            processes := processes[curr.pid := pcb.Terminate(exitCode)];
          }
        }
      }
    }

    method ExitCurrent(exitCode: nat) returns (r: Answer)
      modifies this
      ensures Did(old(View()), OpExit(exitCode), View(), r)
    {
      StepInvariant(View(), OpExit(exitCode));
      Terminate(exitCode);
      r := PickAndSwitchNext();
    }

    /** The exit system call: its own dispatch loop, which always switches the root. In an
        allowed run it does exactly what `ExitCurrent` does. */
    method ExitCurrentSyscall(exitCode: nat) returns (r: Answer)
      modifies this
      ensures Did(old(View()), OpExitSyscall(exitCode), View(), r)
      ensures old(Invariant(View())) ==> (View(), r) == Exit(old(View()), exitCode)
    {
      StepInvariant(View(), OpExitSyscall(exitCode));
      if Invariant(View()) {
        ExitsAgree(View(), exitCode);
      }
      Terminate(exitCode);
      r := PickWithoutCheck();
    }

    /** The dispatch loop of the exit system call. */
    method PickWithoutCheck() returns (r: Answer)
      modifies this
      ensures (View(), r) == PickUnconditional(old(View()))
    {
      while |readyQueue| > 0
        invariant PickUnconditional(View()) == PickUnconditional(old(View()))
        decreases |readyQueue|
      {
        ghost var before := View();
        var nextTid := readyQueue[0];
        readyQueue := readyQueue[1..];
        if nextTid !in threads || threads[nextTid].state != Ready {
          SkipUnready(before);
          continue;
        }
        var next := threads[nextTid];
        if next.pid in processes && processes[next.pid].root != 0 {
          activeRoot := processes[next.pid].root;
        }
        RunNext(nextTid);
        return Switched(next.context);
      }
      r := Stayed;
    }

    method BlockThread(tid: nat) returns (blocked: bool)
      modifies this
      ensures Did(old(View()), OpBlock(tid), View(), Stayed)
      ensures blocked <==> View() != old(View())
    {
      StepInvariant(View(), OpBlock(tid));
      blocked := tid in threads && threads[tid].state != Terminated && threads[tid].state != Blocked;
      if blocked {
        threads := threads[tid := threads[tid].MarkBlocked()];
        readyQueue := Retain(readyQueue, tid);
        assert View().threads[tid].state != old(View()).threads[tid].state;
      }
    }

    method BlockCurrent(ctx: Context) returns (r: Answer)
      modifies this
      ensures Did(old(View()), OpBlockCurrent(ctx), View(), r)
    {
      StepInvariant(View(), OpBlockCurrent(ctx));
      if currentTid.Some? && currentTid.value in threads && threads[currentTid.value].state == Running {
        threads := threads[currentTid.value := threads[currentTid.value].MarkBlocked().(context := ctx)];
      }
      r := PickAndSwitchNext();
    }

    method UnblockThread(tid: nat) returns (woken: bool)
      modifies this
      ensures Did(old(View()), OpUnblock(tid), View(), Stayed)
      ensures woken <==> View() != old(View())
    {
      StepInvariant(View(), OpUnblock(tid));
      woken := tid in threads && threads[tid].state == Blocked;
      if woken {
        threads := threads[tid := threads[tid].MarkReady().(slice := defaultQuantum)];
        readyQueue := readyQueue + [tid];
        assert View().threads[tid].state != old(View()).threads[tid].state;
      }
    }
  }

  method Retain(queue: seq<nat>, tid: nat) returns (r: seq<nat>)
    ensures r == Remove(queue, tid)
  {
    r := [];
    for i := 0 to |queue|
      invariant r + Remove(queue[i..], tid) == Remove(queue, tid)
    {
      assert queue[i..][1..] == queue[i + 1..];
      if queue[i] != tid {
        r := r + [queue[i]];
      }
    }
  }

  /** The view after a method is the step of the state machine, which keeps the invariant
      of an allowed run. */
  ghost predicate Did(s: State, op: Op, s': State, r: Answer)
  {
    (s', r) == Step(s, op) && (Invariant(s) && Allowed(s, op) ==> Invariant(s') && r != Deadlock)
  }

  /** A process control block with its first thread. */
  method NewProcess(pid: nat, root: nat, isUser: bool, tid: nat) returns (pcb: Process)
    ensures pcb == Process(pid, root, ProcessReady, [tid], None, isUser)
  {
    pcb := Process(pid, root, ProcessReady, [], None, isUser).AddThread(tid);
    assert [] + [tid] == [tid];
  }

  /** The process and its thread may be entered after the stack has been chosen. */
  lemma SpawnedView(s: State, root: nat, l: Launch, mid: State, stack: nat)
    requires (mid, stack) == StackFor(s.(nextPid := s.nextPid + 1, nextTid := s.nextTid + 1), l)
    ensures Step(s, OpSpawnProcess(root, l)).0 ==
            mid.(processes := mid.processes[s.nextPid := Process(s.nextPid, root, ProcessReady, [s.nextTid], None, l.isUser)],
                 threads := mid.threads[s.nextTid := NewThread(mid, s.nextTid, s.nextPid, l, stack)],
                 queue := mid.queue + [s.nextTid])
  {
  }

  lemma DidStep(s: State, op: Op, s': State, r: Answer)
    requires (s', r) == Step(s, op)
    ensures Did(s, op, s', r)
  {
    StepInvariant(s, op);
  }

  lemma SkipUnready(s: State)
    requires s.queue != [] && !IsReady(s.threads, s.queue[0])
    ensures Pick(s) == Pick(s.(queue := s.queue[1..]))
    ensures PickUnconditional(s) == PickUnconditional(s.(queue := s.queue[1..]))
  {
    var k := FirstReady(s.threads, s.queue[1..]);
    if k + 1 < |s.queue| {
      assert s.queue[k + 2..] == s.queue[1..][k + 1..];
    }
  }
}
