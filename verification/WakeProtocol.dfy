/** Interrupts, wakers and the executor on one CPU, as interleaved atomic steps.

    A step of the CPU is one critical section of the executor or of the future it polls; an
    interrupt may come between any two steps while interrupts are on. Tasks `KEYBOARD` (a
    loop over `NextScancode`) and `SLEEPER` (a loop over `Sleep`) use the two global wakers;
    other tasks are arbitrary. */
module WakeProtocol {
  import opened Common
  import opened Scancodes

  const KEYBOARD: nat := 0
  const SLEEPER: nat := 1

  /** How the hardware layer implements `enable_and_halt`: in one step, as `sti; hlt` does on
      x86-64, or in two, as on AArch64. The kernel creates its executor on x86-64 only, and only
      its interrupt handlers feed the ring and the clock; `TwoSteps` is `sleep_if_idle` as it
      would behave on the other layer. */
  datatype Hal = OneStep | TwoSteps

  datatype Pc =
    | PopReady          // executor: take the next ready task
    | KeyFirst          // NextScancode::poll, first look at the ring
    | KeyArm            // ... register the waker
    | KeySecond         // ... second look
    | KeyDisarm         // ... forget the waker
    | SleepFirst        // Sleep::poll, first look at the clock
    | SleepArm          // ... register the waker
    | SleepSetAt        // ... publish the deadline
    | SleepSecond       // ... second look
    | SleepClearAt      // ... withdraw the deadline
    | SleepDisarm       // ... forget the waker
    | PollOther(id: nat)
    | MaskInterrupts    // sleep_if_idle: interrupts off
    | LookReady         // ... is the queue empty?
    | BeforeWait        // ... interrupts are on again, the CPU is about to wait
    | Halted

  datatype State = State(
    pc: Pc,
    enabled: bool,
    ready: seq<nat>,
    tasks: set<nat>,
    ring: seq<nat>,            // scancodes waiting
    keyWaker: Option<nat>,
    ticks: nat,
    wakeAt: Option<nat>,       // None for the "never" value
    sleepWaker: Option<nat>,
    deadline: nat,             // of the Sleep that SLEEPER awaits
    accepted: seq<nat>,        // every scancode that entered the ring
    consumed: seq<nat>)        // every scancode handed to the keyboard task

  /** What the environment decides: interrupts, and what tasks do when they run. */
  datatype Action =
    | Key(code: nat)
    | Timer
    | Cpu(again: Option<nat>, done: bool, wakes: seq<nat>)

  predicate Enabled(s: State, a: Action)
  {
    if a.Cpu? then s.pc != Halted else s.enabled
  }

  function Wake(s: State, waker: Option<nat>): State
  {
    if waker.Some? then s.(ready := s.ready + [waker.value]) else s
  }

  /** After an interrupt the halted CPU goes on with the executor loop. */
  function Resume(s: State): State
  {
    if s.pc == Halted then s.(pc := PopReady) else s
  }

  function KeyInterrupt(s: State, code: nat): State
  {
    if |s.ring| < CAPACITY - 1
    then Resume(Wake(s.(ring := Pushed(s.ring, code), accepted := s.accepted + [code]), s.keyWaker))
    else Resume(s)
  }

  function TimerInterrupt(s: State): State
  {
    var s1 := s.(ticks := s.ticks + 1);
    if s.wakeAt.Some? && s1.ticks >= s.wakeAt.value
    then Resume(Wake(s1.(wakeAt := None, sleepWaker := None), s.sleepWaker))
    else Resume(s1)
  }

  /** The awaited Sleep is over: the sleeper sleeps again or ends. */
  function Slept(s: State, again: Option<nat>): State
  {
    match again
    case Some(wait) => s.(pc := SleepFirst, deadline := s.ticks + wait)
    case None => s.(pc := PopReady, tasks := s.tasks - {SLEEPER})
  }

  function TakeCode(s: State, next: Pc): State
    requires s.ring != []
  {
    s.(ring := s.ring[1..], consumed := s.consumed + [s.ring[0]], pc := next)
  }

  function CpuStep(hal: Hal, s: State, a: Action): State
    requires a.Cpu?
  {
    match s.pc
    case PopReady =>
      if s.ready == [] then s.(pc := MaskInterrupts)
      else
        var id := s.ready[0];
        var s1 := s.(ready := s.ready[1..]);
        if id !in s.tasks then s1
        else if id == KEYBOARD then s1.(pc := KeyFirst)
        else if id == SLEEPER then s1.(pc := SleepFirst)
        else s1.(pc := PollOther(id))
    case KeyFirst => if s.ring != [] then TakeCode(s, KeyFirst) else s.(pc := KeyArm)
    case KeyArm => s.(keyWaker := Some(KEYBOARD), pc := KeySecond)
    case KeySecond => if s.ring != [] then TakeCode(s, KeyDisarm) else s.(pc := PopReady)
    case KeyDisarm => s.(keyWaker := None, pc := KeyFirst)
    case SleepFirst => if s.ticks >= s.deadline then Slept(s, a.again) else s.(pc := SleepArm)
    case SleepArm => s.(sleepWaker := Some(SLEEPER), pc := SleepSetAt)
    case SleepSetAt => s.(wakeAt := Some(s.deadline), pc := SleepSecond)
    case SleepSecond => if s.ticks >= s.deadline then s.(pc := SleepClearAt) else s.(pc := PopReady)
    case SleepClearAt => s.(wakeAt := None, pc := SleepDisarm)
    case SleepDisarm => Slept(s.(sleepWaker := None), a.again)
    case PollOther(id) =>
      s.(ready := s.ready + a.wakes, tasks := if a.done then s.tasks - {id} else s.tasks, pc := PopReady)
    case MaskInterrupts => s.(enabled := false, pc := LookReady)
    case LookReady =>
      if s.ready != [] then s.(enabled := true, pc := PopReady)
      else s.(enabled := true, pc := if hal == OneStep then Halted else BeforeWait)
    case BeforeWait => s.(pc := Halted)
    case Halted => s
  }

  function Step(hal: Hal, s: State, a: Action): State
  {
    match a
    case Key(code) => KeyInterrupt(s, code)
    case Timer => TimerInterrupt(s)
    case Cpu(_, _, _) => CpuStep(hal, s, a)
  }

  /** The executor has just spawned its tasks, all of them ready. */
  ghost predicate Initial(s: State)
  {
    && s.pc == PopReady && s.enabled
    && (forall id | id in s.tasks :: id in s.ready)
    && s.ring == [] && s.accepted == [] && s.consumed == []
    && s.keyWaker == None && s.sleepWaker == None && s.wakeAt == None
  }

  // ------------------------------------------------------------ the invariant

  predicate PollingKey(pc: Pc)
  {
    pc == KeyFirst || pc == KeyArm || pc == KeySecond || pc == KeyDisarm
  }

  predicate PollingSleep(pc: Pc)
  {
    pc == SleepFirst || pc == SleepArm || pc == SleepSetAt || pc == SleepSecond || pc == SleepClearAt || pc == SleepDisarm
  }

  /** No lost key: a parked keyboard task with codes waiting is queued, and one with none
      waiting is queued or has its waker in place. */
  predicate KeySafe(s: State)
  {
    && (KEYBOARD in s.tasks && !PollingKey(s.pc) ==>
          KEYBOARD in s.ready || (s.ring == [] && s.keyWaker == Some(KEYBOARD)))
    && (s.pc == KeySecond ==> s.keyWaker == Some(KEYBOARD))
    && (PollingKey(s.pc) ==> KEYBOARD in s.tasks)
    && (s.keyWaker.Some? ==> s.keyWaker.value == KEYBOARD)
    && s.consumed + s.ring == s.accepted
    && |s.ring| < CAPACITY
  }

  /** The sleeper's waker is in place and will go off at its deadline, which lies ahead. */
  predicate Armed(s: State)
  {
    s.sleepWaker == Some(SLEEPER) && s.wakeAt == Some(s.deadline) && s.ticks < s.deadline
  }

  /** No lost timer: a parked sleeper is queued or armed. */
  predicate SleepSafe(s: State)
  {
    && (SLEEPER in s.tasks && !PollingSleep(s.pc) ==> SLEEPER in s.ready || Armed(s))
    && (PollingSleep(s.pc) ==> SLEEPER in s.tasks)
    && (s.pc == SleepSetAt ==> s.ticks >= s.deadline || s.sleepWaker == Some(SLEEPER))
    && (s.pc == SleepSecond ==> s.ticks >= s.deadline || Armed(s))
    && (s.pc == SleepDisarm ==> s.wakeAt == None)
    && (s.pc == SleepClearAt || s.pc == SleepDisarm ==> s.ticks >= s.deadline)
    && (s.wakeAt.Some? ==> s.wakeAt.value == s.deadline)
    && (s.wakeAt.Some? && s.pc != SleepSecond && s.pc != SleepClearAt ==> s.ticks < s.deadline)
    && (s.sleepWaker.Some? ==> s.sleepWaker.value == SLEEPER)
  }

  /** Interrupts are off only between masking them and the look at the queue. */
  predicate MaskSafe(s: State)
  {
    s.enabled <==> s.pc != LookReady
  }

  predicate Safe(s: State)
  {
    KeySafe(s) && SleepSafe(s) && MaskSafe(s)
  }

  lemma InitialSafe(s: State)
    requires Initial(s)
    ensures Safe(s)
  {
  }

  lemma PopKeySafe(s: State)
    requires KeySafe(s) && s.pc == PopReady && s.ready != []
    ensures KEYBOARD in s.tasks && s.ready[0] != KEYBOARD ==>
              KEYBOARD in s.ready[1..] || (s.ring == [] && s.keyWaker == Some(KEYBOARD))
  {
  }

  lemma TakeKeySafe(s: State, next: Pc)
    requires KeySafe(s) && PollingKey(s.pc) && s.ring != [] && (next == KeyFirst || next == KeyDisarm)
    ensures KeySafe(TakeCode(s, next))
  {
    assert s.consumed + [s.ring[0]] + s.ring[1..] == s.consumed + s.ring;
  }

  lemma CpuKeySafe(hal: Hal, s: State, a: Action)
    requires Safe(s) && a.Cpu? && Enabled(s, a)
    ensures KeySafe(CpuStep(hal, s, a))
  {
    if s.pc == PopReady {
      PopStepKeySafe(hal, s, a);
    } else if PollingKey(s.pc) {
      KeyPollKeySafe(hal, s, a);
    } else if s.pc.PollOther? {
      OtherPollKeySafe(hal, s, a);
    } else if PollingSleep(s.pc) {
      SleepPollKeySafe(hal, s, a);
    }
  }

  lemma PopStepKeySafe(hal: Hal, s: State, a: Action)
    requires KeySafe(s) && a.Cpu? && s.pc == PopReady
    ensures KeySafe(CpuStep(hal, s, a))
  {
    if s.ready != [] {
      PopKeySafe(s);
    }
  }

  lemma KeyPollKeySafe(hal: Hal, s: State, a: Action)
    requires KeySafe(s) && a.Cpu? && PollingKey(s.pc)
    ensures KeySafe(CpuStep(hal, s, a))
  {
    if s.ring != [] {
      TakeKeySafe(s, KeyFirst);
      TakeKeySafe(s, KeyDisarm);
    }
  }

  lemma SleepPollKeySafe(hal: Hal, s: State, a: Action)
    requires KeySafe(s) && a.Cpu? && PollingSleep(s.pc)
    ensures KeySafe(CpuStep(hal, s, a))
  {
  }

  lemma OtherPollKeySafe(hal: Hal, s: State, a: Action)
    requires Safe(s) && a.Cpu? && Enabled(s, a) && s.pc.PollOther?
    ensures KeySafe(CpuStep(hal, s, a))
  {
    assert forall id | id in s.ready :: id in s.ready + a.wakes;
  }

  lemma CpuSleepSafe(hal: Hal, s: State, a: Action)
    requires Safe(s) && a.Cpu? && Enabled(s, a)
    ensures SleepSafe(CpuStep(hal, s, a))
  {
    if s.pc == PopReady && s.ready != [] {
      assert SLEEPER in s.ready ==> SLEEPER == s.ready[0] || SLEEPER in s.ready[1..];
    } else if PollingSleep(s.pc) {
      SleepPollSafe(hal, s, a);
    }
  }

  lemma SleepPollSafe(hal: Hal, s: State, a: Action)
    requires Safe(s) && a.Cpu? && Enabled(s, a) && PollingSleep(s.pc)
    ensures SleepSafe(CpuStep(hal, s, a))
  {
  }

  lemma KeySafeStep(s: State, code: nat)
    requires Safe(s) && s.enabled
    ensures Safe(KeyInterrupt(s, code))
  {
    var s' := KeyInterrupt(s, code);
    assert forall id | id in s.ready :: id in s'.ready;
    if |s.ring| < CAPACITY - 1 {
      assert s.consumed + (s.ring + [code]) == s.consumed + s.ring + [code];
      assert s.keyWaker == Some(KEYBOARD) ==> s'.ready[|s.ready|] == KEYBOARD;
    }
  }

  lemma TimerSafeStep(s: State)
    requires Safe(s) && s.enabled
    ensures Safe(TimerInterrupt(s))
  {
    var s' := TimerInterrupt(s);
    assert forall id | id in s.ready :: id in s'.ready;
    if s.wakeAt.Some? && s.ticks + 1 >= s.wakeAt.value && s.sleepWaker.Some? {
      assert s'.ready[|s.ready|] == SLEEPER;
    }
  }

  /** Every step of the CPU and every interrupt, wherever it falls, keeps the wake-ups safe,
      on either layer. */
  lemma StepSafe(hal: Hal, s: State, a: Action)
    requires Safe(s) && Enabled(s, a)
    ensures Safe(Step(hal, s, a))
  {
    match a
    case Key(code) => KeySafeStep(s, code);
    case Timer => TimerSafeStep(s);
    case Cpu(_, _, _) =>
      CpuKeySafe(hal, s, a);
      CpuSleepSafe(hal, s, a);
      CpuMaskSafe(hal, s, a);
  }

  lemma CpuMaskSafe(hal: Hal, s: State, a: Action)
    requires MaskSafe(s) && a.Cpu? && Enabled(s, a)
    ensures MaskSafe(CpuStep(hal, s, a))
  {
  }

  // ------------------------------------------------------------ runs

  ghost predicate Possible(hal: Hal, s: State, actions: seq<Action>)
    decreases actions
  {
    actions == [] || (Enabled(s, actions[0]) && Possible(hal, Step(hal, s, actions[0]), actions[1..]))
  }

  function Run(hal: Hal, s: State, actions: seq<Action>): State
    decreases actions
  {
    if actions == [] then s else Run(hal, Step(hal, s, actions[0]), actions[1..])
  }

  /** No wake-up is lost in any run, on either layer. */
  lemma {:induction false} RunSafe(hal: Hal, s: State, actions: seq<Action>)
    requires Safe(s) && Possible(hal, s, actions)
    ensures Safe(Run(hal, s, actions))
    decreases actions
  {
    if actions != [] {
      StepSafe(hal, s, actions[0]);
      RunSafe(hal, Step(hal, s, actions[0]), actions[1..]);
    }
  }

  // ------------------------------------------------------------ sleeping only when idle

  predicate HaltsIdle(s: State)
  {
    (s.pc == Halted ==> s.ready == []) && s.pc != BeforeWait
  }

  lemma HaltsIdleStep(s: State, a: Action)
    requires HaltsIdle(s) && Enabled(s, a)
    ensures HaltsIdle(Step(OneStep, s, a))
  {
  }

  /** Where enabling and halting is one step, the CPU never sleeps on queued work. */
  lemma {:induction false} RunHaltsIdle(s: State, actions: seq<Action>)
    requires HaltsIdle(s) && Possible(OneStep, s, actions)
    ensures HaltsIdle(Run(OneStep, s, actions))
    decreases actions
  {
    if actions != [] {
      HaltsIdleStep(s, actions[0]);
      RunHaltsIdle(Step(OneStep, s, actions[0]), actions[1..]);
    }
  }

  /** Where it is two steps, one key between them is enough: from every state in which the
      executor finds nothing to do while the keyboard waits, the CPU can go to sleep with the
      keyboard task in its queue. */
  lemma SleepsOnWork(s: State, code: nat)
    requires s.pc == LookReady && s.ready == [] && s.keyWaker == Some(KEYBOARD) && s.ring == []
    ensures var actions := [Cpu(None, false, []), Key(code), Cpu(None, false, [])];
            && Possible(TwoSteps, s, actions)
            && Run(TwoSteps, s, actions).pc == Halted && Run(TwoSteps, s, actions).ready == [KEYBOARD]
  {
    var c := Cpu(None, false, []);
    var actions := [c, Key(code), c];
    var s1 := Step(TwoSteps, s, c);
    var s2 := Step(TwoSteps, s1, Key(code));
    var s3 := Step(TwoSteps, s2, c);
    assert actions[1..] == [Key(code), c] && actions[1..][1..] == [c] && actions[1..][1..][1..] == [];
    assert Run(TwoSteps, s2, [c]) == s3 && Possible(TwoSteps, s2, [c]);
  }

  lemma {:induction false} RunConcat(hal: Hal, s: State, a: seq<Action>, b: seq<Action>)
    requires Possible(hal, s, a) && Possible(hal, Run(hal, s, a), b)
    ensures Possible(hal, s, a + b) && Run(hal, s, a + b) == Run(hal, Run(hal, s, a), b)
    decreases a
  {
    if a == [] {
      assert a + b == b;
    } else {
      assert (a + b)[0] == a[0] && (a + b)[1..] == a[1..] + b;
      RunConcat(hal, Step(hal, s, a[0]), a[1..], b);
    }
  }

  lemma {:induction false} RunFirst(hal: Hal, s: State, a: Action, rest: seq<Action>)
    ensures Run(hal, s, [a] + rest) == Run(hal, Step(hal, s, a), rest)
    ensures Possible(hal, s, [a] + rest) <==> Enabled(s, a) && Possible(hal, Step(hal, s, a), rest)
  {
    assert ([a] + rest)[1..] == rest;
  }

  lemma {:induction false} RunThree(hal: Hal, s: State, a: Action)
    requires Enabled(s, a) && Enabled(Step(hal, s, a), a) && Enabled(Step(hal, Step(hal, s, a), a), a)
    ensures Possible(hal, s, [a, a, a]) && Run(hal, s, [a, a, a]) == Step(hal, Step(hal, Step(hal, s, a), a), a)
  {
    var s1 := Step(hal, s, a);
    var s2 := Step(hal, s1, a);
    RunFirst(hal, s, a, [a, a]);
    RunFirst(hal, s1, a, [a]);
    RunFirst(hal, s2, a, []);
    assert [a, a, a] == [a] + [a, a] && [a, a] == [a] + [a] && [a] == [a] + [];
  }

  /** The keyboard task is taken, finds the ring empty and registers its waker. */
  lemma ReachSecond(s: State, c: Action)
    requires Initial(s) && s.tasks == {KEYBOARD} && s.ready == [KEYBOARD] && c == Cpu(None, false, [])
    ensures var s' := Run(TwoSteps, s, [c, c, c]);
            && Possible(TwoSteps, s, [c, c, c]) && s'.pc == KeySecond && s'.ready == []
            && s'.keyWaker == Some(KEYBOARD) && s'.ring == []
  {
    RunThree(TwoSteps, s, c);
  }

  /** It looks once more and waits; the executor masks interrupts and looks at its queue. */
  lemma SecondToLook(s: State, c: Action)
    requires s.pc == KeySecond && s.ready == [] && s.keyWaker == Some(KEYBOARD) && s.ring == [] && c == Cpu(None, false, [])
    ensures var s' := Run(TwoSteps, s, [c, c, c]);
            && Possible(TwoSteps, s, [c, c, c]) && s'.pc == LookReady && s'.ready == []
            && s'.keyWaker == Some(KEYBOARD) && s'.ring == []
  {
    RunThree(TwoSteps, s, c);
  }

  /** The CPU of a machine that starts with only the keyboard task reaches the look at the
      empty queue with the waker armed. */
  lemma ReachLook(s: State, c: Action)
    requires Initial(s) && s.tasks == {KEYBOARD} && s.ready == [KEYBOARD] && c == Cpu(None, false, [])
    ensures var actions := [c, c, c] + [c, c, c];
            var s' := Run(TwoSteps, s, actions);
            Possible(TwoSteps, s, actions) && s'.pc == LookReady && s'.ready == [] && s'.keyWaker == Some(KEYBOARD) && s'.ring == []
  {
    ReachSecond(s, c);
    SecondToLook(Run(TwoSteps, s, [c, c, c]), c);
    RunConcat(TwoSteps, s, [c, c, c], [c, c, c]);
  }

  // ------------------------------------------------------------ run by run

  /** An interrupt puts a task in the queue. */
  predicate Queues(hal: Hal, s: State, a: Action)
  {
    !a.Cpu? && Step(hal, s, a).ready != s.ready
  }

  /** Since the CPU last enabled interrupts in order to wait, and before it waits, an interrupt
      has queued a task. */
  predicate LateWork(hal: Hal, s: State, actions: seq<Action>)
    decreases |actions|
  {
    actions != [] &&
    var m := |actions| - 1;
    var before := Run(hal, s, actions[..m]);
    before.pc == BeforeWait && (Queues(hal, before, actions[m]) || LateWork(hal, s, actions[..m]))
  }

  lemma {:induction false} RunLast(hal: Hal, s: State, actions: seq<Action>)
    requires actions != [] && Possible(hal, s, actions)
    ensures var m := |actions| - 1;
            var before := Run(hal, s, actions[..m]);
            && Possible(hal, s, actions[..m]) && Enabled(before, actions[m])
            && Run(hal, s, actions) == Step(hal, before, actions[m])
    decreases |actions|
  {
    var m := |actions| - 1;
    if m > 0 {
      var rest := actions[1..];
      RunLast(hal, Step(hal, s, actions[0]), rest);
      assert actions[..m][1..] == rest[..m - 1];
    }
  }

  /** A run that ends with the CPU asleep ends with work in the queue if and only if an interrupt
      queued it in the gap between enabling interrupts and waiting. */
  lemma {:induction false} SleepsOnLateWork(hal: Hal, s: State, actions: seq<Action>)
    requires s.pc != BeforeWait && s.pc != Halted && Possible(hal, s, actions)
    ensures Run(hal, s, actions).pc == Halted || Run(hal, s, actions).pc == BeforeWait ==>
              (Run(hal, s, actions).ready != [] <==> LateWork(hal, s, actions))
    decreases |actions|
  {
    if actions != [] {
      var m := |actions| - 1;
      RunLast(hal, s, actions);
      SleepsOnLateWork(hal, s, actions[..m]);
      LateStep(hal, Run(hal, s, actions[..m]), actions[m]);
    }
  }

  lemma LateStep(hal: Hal, s: State, a: Action)
    requires Enabled(s, a)
    ensures var s' := Step(hal, s, a);
            s'.pc == Halted || s'.pc == BeforeWait ==>
              if s.pc == BeforeWait then s'.ready != [] <==> Queues(hal, s, a) || s.ready != [] else s'.ready == []
  {
    if !a.Cpu? {
      LateInterrupt(hal, s, a);
    }
  }

  /** An interrupt only adds to the queue, and moves the CPU on only if it is asleep. */
  lemma LateInterrupt(hal: Hal, s: State, a: Action)
    requires !a.Cpu?
    ensures var s' := Step(hal, s, a);
            && s'.pc == (if s.pc == Halted then PopReady else s.pc)
            && (s'.ready == s.ready || exists id :: s'.ready == s.ready + [id])
  {
  }

  ghost predicate NeverSleepsOnWork(hal: Hal)
  {
    forall s, actions | Initial(s) && Possible(hal, s, actions) ::
      Run(hal, s, actions).pc == Halted ==> Run(hal, s, actions).ready == []
  }

  /** Over all runs, `sleep_if_idle` sleeps only when idle exactly if the layer below enables and
      halts in one step. */
  lemma SleepsOnlyWhenIdle(hal: Hal)
    ensures NeverSleepsOnWork(hal) <==> hal == OneStep
  {
    if hal == OneStep {
      forall s, actions | Initial(s) && Possible(OneStep, s, actions)
        ensures Run(OneStep, s, actions).pc == Halted ==> Run(OneStep, s, actions).ready == []
      {
        RunHaltsIdle(s, actions);
      }
    } else {
      var s, actions := SleepyRun();
    }
  }

  /** The run that shows it: the keyboard task goes idle, and a key comes in the gap. */
  lemma SleepyRun() returns (s: State, actions: seq<Action>)
    ensures Initial(s) && Possible(TwoSteps, s, actions)
    ensures Run(TwoSteps, s, actions).pc == Halted && Run(TwoSteps, s, actions).ready != []
  {
    s := State(PopReady, true, [KEYBOARD], {KEYBOARD}, [], None, 0, None, None, 0, [], []);
    var c := Cpu(None, false, []);
    var a, b := [c, c, c] + [c, c, c], [c, Key(0), c];
    ReachLook(s, c);
    SleepsOnWork(Run(TwoSteps, s, a), 0);
    RunConcat(TwoSteps, s, a, b);
    actions := a + b;
  }

  // ------------------------------------------------------------ every task in its turn

  /** The executor takes a task from its queue. */
  predicate Pops(s: State, a: Action)
  {
    a.Cpu? && s.pc == PopReady && s.ready != []
  }

  function PopCount(hal: Hal, s: State, actions: seq<Action>): nat
    decreases actions
  {
    if actions == [] then 0
    else (if Pops(s, actions[0]) then 1 else 0) + PopCount(hal, Step(hal, s, actions[0]), actions[1..])
  }

  /** Wake-ups only join the end of the queue, and only the executor takes from its front. */
  lemma QueueStep(hal: Hal, s: State, a: Action)
    ensures (if Pops(s, a) then s.ready[1..] else s.ready) <= Step(hal, s, a).ready
  {
    if !a.Cpu? {
      LateInterrupt(hal, s, a);
    }
  }

  /** The queue is first come, first served: after `n` tasks have been taken, it starts with what
      stood behind them. */
  lemma {:induction false} QueueIsFifo(hal: Hal, s: State, actions: seq<Action>)
    requires PopCount(hal, s, actions) <= |s.ready|
    ensures s.ready[PopCount(hal, s, actions)..] <= Run(hal, s, actions).ready
    decreases actions
  {
    if actions != [] {
      var s1, rest := Step(hal, s, actions[0]), actions[1..];
      QueueStep(hal, s, actions[0]);
      QueueIsFifo(hal, s1, rest);
      var n := PopCount(hal, s1, rest);
      PrefixTail(if Pops(s, actions[0]) then s.ready[1..] else s.ready, s1.ready, Run(hal, s, actions).ready, n);
    }
  }

  lemma PrefixTail(a: seq<nat>, b: seq<nat>, c: seq<nat>, n: nat)
    requires a <= b && n <= |a| && b[n..] <= c
    ensures a[n..] <= c
  {
    assert a[n..] == b[n..|a|];
  }

  /** The action that takes task number `k`, counted from 0. */
  lemma {:induction false} PopNumber(hal: Hal, s: State, actions: seq<Action>, k: nat) returns (i: nat)
    requires PopCount(hal, s, actions) > k
    ensures i < |actions| && PopCount(hal, s, actions[..i]) == k && Pops(Run(hal, s, actions[..i]), actions[i])
    decreases actions
  {
    var s1, rest := Step(hal, s, actions[0]), actions[1..];
    var now := if Pops(s, actions[0]) then 1 else 0;
    if now == 1 && k == 0 {
      i := 0;
    } else {
      var j := PopNumber(hal, s1, rest, k - now);
      i := j + 1;
      assert actions[..i][1..] == rest[..j] && actions[..i][0] == actions[0];
    }
  }

  /** On the one-step layer the CPU stays awake as long as the task waits, so it always gets on
      with taking tasks. */
  lemma {:induction false} AwakeUntilTaken(s: State, actions: seq<Action>, k: nat)
    requires HaltsIdle(s) && Possible(OneStep, s, actions)
    requires k < |s.ready| && PopCount(OneStep, s, actions) <= k
    ensures Run(OneStep, s, actions).pc != Halted
  {
    RunHaltsIdle(s, actions);
    QueueIsFifo(OneStep, s, actions);
  }
}
