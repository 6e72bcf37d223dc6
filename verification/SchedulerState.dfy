/** The scheduler as a state machine: control blocks, state, and one function per operation. */
module SchedulerState {
  import opened Common

  const SATURATED: nat := 0xffff_ffff_ffff_ffff

  datatype ThreadState = Ready | Running | Blocked | Terminated

  datatype ProcessState = ProcessReady | ProcessRunning | ProcessBlocked | ProcessTerminated

  /** The registers an interrupt frame holds, as far as the scheduler creates or reads them. */
  datatype Context = Context(ip: nat, sp: nat, arg: nat, user: bool, others: seq<nat>)

  datatype Thread = Thread(tid: nat, pid: nat, userSp: nat, kernelSp: nat, state: ThreadState,
                           priority: nat, context: Context, slice: nat, totalTicks: nat)
  {
    function MarkRunning(): Thread { this.(state := Running) }
    function MarkReady(): Thread { if state != Terminated then this.(state := Ready) else this }
    function MarkBlocked(): Thread { if state != Terminated then this.(state := Blocked) else this }
    function MarkTerminated(): Thread { this.(state := Terminated) }
  }

  datatype Process = Process(pid: nat, root: nat, state: ProcessState, threads: seq<nat>,
                             exitCode: Option<nat>, isUser: bool)
  {
    function AddThread(tid: nat): Process { if tid in threads then this else this.(threads := threads + [tid]) }
    function Terminate(code: nat): Process { this.(state := ProcessTerminated, exitCode := Some(code)) }
  }

  /** The fields of the scheduler, the two global id counters, and the page table root the
      CPU is using. */
  datatype State = State(
    processes: map<nat, Process>,
    threads: map<nat, Thread>,
    queue: seq<nat>,
    current: Option<nat>,
    active: bool,
    quantum: nat,
    switches: nat,
    pool: seq<nat>,
    owned: set<nat>,
    pending: Option<nat>,
    nextPid: nat,
    nextTid: nat,
    root: nat)

  /** What an operation does to the CPU: loads another context, leaves it, or never returns
      because the scheduler waits for a thread lock it already holds. */
  datatype Answer = Switched(ctx: Context) | Stayed | Deadlock

  function New(quantum: nat, root: nat): State
  {
    State(map[], map[], [], None, false, quantum, 0, [], {}, None, 1, 1, root)
  }

  function Increment(counter: nat): nat
  {
    if counter < SATURATED then counter + 1 else counter
  }

  // ------------------------------------------------------------ dispatch

  predicate IsReady(threads: map<nat, Thread>, tid: nat)
  {
    tid in threads && threads[tid].state == Ready
  }

  /** The position of the first ready thread of the queue, or its length. */
  function FirstReady(threads: map<nat, Thread>, queue: seq<nat>): (k: nat)
    ensures k <= |queue|
  {
    if queue == [] then 0
    else if IsReady(threads, queue[0]) then 0
    else 1 + FirstReady(threads, queue[1..])
  }

  function CurrentPid(s: State): Option<nat>
  {
    if s.current.Some? && s.current.value in s.threads then Some(s.threads[s.current.value].pid) else None
  }

  /** The root after switching to a process: kernel processes have root 0 and borrow the
      tables in use. */
  function RootAfter(s: State, pid: nat): nat
  {
    if pid in s.processes && s.processes[pid].root != 0 then s.processes[pid].root else s.root
  }

  /** Makes `tid` the running thread; the stack of a thread that just died is now unused
      and returns to the pool. */
  function Dispatch(s: State, tid: nat, root: nat): State
    requires tid in s.threads
  {
    s.(threads := s.threads[tid := s.threads[tid].MarkRunning().(slice := s.quantum)],
       current := Some(tid),
       switches := Increment(s.switches),
       pool := if s.pending.Some? then s.pool + [s.pending.value] else s.pool,
       pending := None,
       root := root)
  }

  /** The first ready thread of the queue is dispatched and everything up to it leaves the
      queue. The candidate's lock is held while the current thread's lock is taken. */
  function Pick(s: State): (State, Answer)
  {
    var k := FirstReady(s.threads, s.queue);
    if k == |s.queue| then (s.(queue := []), Stayed)
    else
      FirstReadyIsReady(s.threads, s.queue);
      var tid := s.queue[k];
      var s' := s.(queue := s.queue[k + 1..]);
      if s.current == Some(tid) then (s', Deadlock)
      else
        var pid := s.threads[tid].pid;
        (Dispatch(s', tid, if CurrentPid(s) != Some(pid) then RootAfter(s, pid) else s.root),
         Switched(s.threads[tid].context))
  }

  /** The dispatch of `exit_current_syscall`: it neither looks at the current thread nor
      skips the root switch. */
  function PickUnconditional(s: State): (State, Answer)
  {
    var k := FirstReady(s.threads, s.queue);
    if k == |s.queue| then (s.(queue := []), Stayed)
    else
      FirstReadyIsReady(s.threads, s.queue);
      var tid := s.queue[k];
      var s' := s.(queue := s.queue[k + 1..]);
      (Dispatch(s', tid, RootAfter(s, s.threads[tid].pid)), Switched(s.threads[tid].context))
  }

  lemma FirstReadyIsReady(threads: map<nat, Thread>, queue: seq<nat>)
    ensures var k := FirstReady(threads, queue);
            && (k < |queue| ==> IsReady(threads, queue[k]))
            && forall i | 0 <= i < k :: !IsReady(threads, queue[i])
  {
  }

  // ------------------------------------------------------------ operations

  /** How to start a thread. A `kernelSp` of 0 asks for a managed kernel stack; `heapStack`
      is the top of the one the kernel heap would supply. */
  datatype Launch = Launch(entry: nat, userSp: nat, kernelSp: nat, isUser: bool, arg: nat, heapStack: nat)

  function NewContext(l: Launch, stack: nat): Context
  {
    Context(l.entry, if l.isUser then l.userSp else stack, l.arg, l.isUser, [])
  }

  /** A kernel stack from the pool, or the freshly allocated one. */
  function AllocStack(s: State, heapStack: nat): (State, nat)
  {
    if s.pool != [] then (s.(pool := s.pool[..|s.pool| - 1]), s.pool[|s.pool| - 1])
    else (s.(owned := s.owned + {heapStack}), heapStack)
  }

  function StackFor(s: State, l: Launch): (State, nat)
  {
    if l.kernelSp != 0 then (s, l.kernelSp) else AllocStack(s, l.heapStack)
  }

  function NewThread(s: State, tid: nat, pid: nat, l: Launch, stack: nat): Thread
  {
    Thread(tid, pid, l.userSp, stack, Ready, 10, NewContext(l, stack), s.quantum, 0)
  }

  function SpawnProcess(s: State, root: nat, l: Launch): State
  {
    var pid, tid := s.nextPid, s.nextTid;
    var (s1, stack) := StackFor(s, l);
    s1.(nextPid := pid + 1,
        nextTid := tid + 1,
        processes := s.processes[pid := Process(pid, root, ProcessReady, [tid], None, l.isUser)],
        threads := s.threads[tid := NewThread(s, tid, pid, l, stack)],
        queue := s.queue + [tid])
  }

  function SpawnThread(s: State, pid: nat, l: Launch): State
  {
    if pid !in s.processes then s
    else
      var tid := s.nextTid;
      var (s1, stack) := StackFor(s, l);
      s1.(nextTid := tid + 1,
          processes := s.processes[pid := s.processes[pid].AddThread(tid)],
          threads := s.threads[tid := NewThread(s, tid, pid, l, stack)],
          queue := s.queue + [tid])
  }

  /** The kernel's own flow of control enters the scheduler as thread 0 of process 0. */
  function AdoptKernel(s: State, ctx: Context): State
  {
    s.(processes := s.processes[0 := Process(0, 0, ProcessReady, [0], None, false)],
       threads := s.threads[0 := Thread(0, 0, 0, ctx.sp, Ready, 10, ctx, s.quantum, 0)],
       queue := s.queue + [0])
  }

  function Tick(s: State, ctx: Context): (State, Answer)
  {
    if !s.active then (s, Stayed)
    else if s.current.None? then Pick(AdoptKernel(s, ctx))
    else
      var tid := s.current.value;
      if tid !in s.threads then Pick(s)
      else
        var curr := s.threads[tid].(totalTicks := Increment(s.threads[tid].totalTicks));
        if curr.state != Running then Pick(s.(threads := s.threads[tid := curr]))
        else if curr.slice > 1 && s.queue != [] then
          (s.(threads := s.threads[tid := curr.(slice := curr.slice - 1)]), Stayed)
        else if s.queue == [] then
          (s.(threads := s.threads[tid := curr.(slice := s.quantum)]), Stayed)
        else
          Pick(s.(threads := s.threads[tid := curr.MarkReady().(slice := s.quantum, context := ctx)],
                  queue := s.queue + [tid]))
  }

  function SetSlice(s: State, slice: nat, onlyRunning: bool): State
  {
    if s.current.Some? && s.current.value in s.threads &&
       (!onlyRunning || s.threads[s.current.value].state == Running)
    then s.(threads := s.threads[s.current.value := s.threads[s.current.value].(slice := slice)])
    else s
  }

  function Yield(s: State, ctx: Context): (State, Answer)
  {
    Tick(SetSlice(s, 0, true), ctx)
  }

  /** The current thread ends: its stack, if the scheduler owns it, waits for the next
      switch, and the process ends with its last thread. */
  function EndCurrent(s: State, code: nat): State
  {
    if s.current.None? || s.current.value !in s.threads then s
    else
      var tid := s.current.value;
      var curr := s.threads[tid];
      var s1 := s.(threads := s.threads[tid := curr.MarkTerminated()],
                   pending := if curr.kernelSp in s.owned then Some(curr.kernelSp) else s.pending);
      if curr.pid in s1.processes && AllTerminated(s1.threads, s1.processes[curr.pid].threads)
      then s1.(processes := s1.processes[curr.pid := s1.processes[curr.pid].Terminate(code)])
      else s1
  }

  predicate AllTerminated(threads: map<nat, Thread>, tids: seq<nat>)
  {
    forall i | 0 <= i < |tids| :: tids[i] in threads ==> threads[tids[i]].state == Terminated
  }

  function Exit(s: State, code: nat): (State, Answer)
  {
    Pick(EndCurrent(s, code))
  }

  function ExitSyscall(s: State, code: nat): (State, Answer)
  {
    PickUnconditional(EndCurrent(s, code))
  }

  function Remove(queue: seq<nat>, tid: nat): seq<nat>
  {
    if queue == [] then []
    else if queue[0] == tid then Remove(queue[1..], tid)
    else [queue[0]] + Remove(queue[1..], tid)
  }

  function Block(s: State, tid: nat): State
  {
    if tid in s.threads && s.threads[tid].state != Terminated && s.threads[tid].state != Blocked
    then s.(threads := s.threads[tid := s.threads[tid].MarkBlocked()], queue := Remove(s.queue, tid))
    else s
  }

  function BlockCurrent(s: State, ctx: Context): (State, Answer)
  {
    if s.current.Some? && s.current.value in s.threads && s.threads[s.current.value].state == Running
    then Pick(s.(threads := s.threads[s.current.value := s.threads[s.current.value].MarkBlocked().(context := ctx)]))
    else Pick(s)
  }

  function Unblock(s: State, tid: nat): State
  {
    if tid in s.threads && s.threads[tid].state == Blocked
    then s.(threads := s.threads[tid := s.threads[tid].MarkReady().(slice := s.quantum)], queue := s.queue + [tid])
    else s
  }

  // ------------------------------------------------------------ runs

  datatype Op =
    | OpSpawnProcess(root: nat, launch: Launch)
    | OpSpawnThread(pid: nat, launch: Launch)
    | OpActivate
    | OpTick(ctx: Context)
    | OpYield(ctx: Context)
    | OpExpire
    | OpExit(code: nat)
    | OpExitSyscall(code: nat)
    | OpBlock(tid: nat)
    | OpBlockCurrent(ctx: Context)
    | OpUnblock(tid: nat)

  function Step(s: State, op: Op): (State, Answer)
  {
    match op
    case OpSpawnProcess(root, l) => (SpawnProcess(s, root, l), Stayed)
    case OpSpawnThread(pid, l) => (SpawnThread(s, pid, l), Stayed)
    case OpActivate => (s.(active := true), Stayed)
    case OpTick(ctx) => Tick(s, ctx)
    case OpYield(ctx) => Yield(s, ctx)
    case OpExpire => (SetSlice(s, 1, false), Stayed)
    case OpExit(code) => Exit(s, code)
    case OpExitSyscall(code) => ExitSyscall(s, code)
    case OpBlock(tid) => (Block(s, tid), Stayed)
    case OpBlockCurrent(ctx) => BlockCurrent(s, ctx)
    case OpUnblock(tid) => (Unblock(s, tid), Stayed)
  }

  function RunOps(s: State, ops: seq<Op>): State
    decreases ops
  {
    if ops == [] then s else RunOps(Step(s, ops[0]).0, ops[1..])
  }
}
