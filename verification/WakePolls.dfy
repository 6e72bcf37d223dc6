/** What a taken task gets: its poll, and what each poll does before the executor goes on. */
module WakePolls {
  import opened Common
  import opened Scancodes
  import opened WakeProtocol

  /** The CPU is polling task `id`. */
  predicate Polling(pc: Pc, id: nat)
  {
    pc == PollOther(id) || (id == KEYBOARD && PollingKey(pc)) || (id == SLEEPER && PollingSleep(pc))
  }

  /** A task that is taken and still exists is polled next; an id whose task has ended is
      dropped and changes nothing. */
  lemma TakenIsPolled(hal: Hal, s: State, a: Action)
    requires Pops(s, a)
    ensures var s' := Step(hal, s, a);
            && s' == s.(ready := s.ready[1..], pc := s'.pc)
            && (s.ready[0] in s.tasks ==> Polling(s'.pc, s.ready[0]))
            && (s.ready[0] !in s.tasks ==> s'.pc == PopReady)
  {
  }

  /** A task is polled only when it has been taken. */
  lemma PolledOnlyWhenTaken(hal: Hal, s: State, a: Action, id: nat)
    requires Enabled(s, a) && Polling(Step(hal, s, a).pc, id) && !Polling(s.pc, id)
    ensures Pops(s, a) && s.ready[0] == id && id in s.tasks
  {
    if !a.Cpu? {
      LateInterrupt(hal, s, a);
    }
  }

  /** No task appears, and a task ends only in its own poll. */
  lemma EndsInOwnPoll(hal: Hal, s: State, a: Action, id: nat)
    ensures id in Step(hal, s, a).tasks ==> id in s.tasks
    ensures id in s.tasks && id !in Step(hal, s, a).tasks ==> a.Cpu? && Polling(s.pc, id)
  {
  }

  lemma {:induction false} UnpolledStays(hal: Hal, s: State, actions: seq<Action>, id: nat)
    requires id in s.tasks && forall j: nat | j < |actions| :: !Polling(Run(hal, s, actions[..j]).pc, id)
    ensures id in Run(hal, s, actions).tasks
    decreases actions
  {
    if actions != [] {
      assert !Polling(Run(hal, s, actions[..0]).pc, id);
      EndsInOwnPoll(hal, s, actions[0], id);
      var s1, rest := Step(hal, s, actions[0]), actions[1..];
      forall j: nat | j < |rest|
        ensures !Polling(Run(hal, s1, rest[..j]).pc, id)
      {
        assert actions[..j + 1][1..] == rest[..j] && actions[..j + 1][0] == actions[0];
        assert !Polling(Run(hal, s, actions[..j + 1]).pc, id);
      }
      UnpolledStays(hal, s1, rest, id);
    }
  }

  /** The task at position `k` of the queue is the one taken after `k` others, whatever
      interrupts and wake-ups come between, and if it still exists it is polled next. */
  lemma {:induction false} TakenInTurn(hal: Hal, s: State, actions: seq<Action>, k: nat) returns (i: nat)
    requires k < |s.ready| && PopCount(hal, s, actions) > k
    ensures i < |actions| && PopCount(hal, s, actions[..i]) == k
    ensures Pops(Run(hal, s, actions[..i]), actions[i]) && Run(hal, s, actions[..i]).ready[0] == s.ready[k]
    ensures Run(hal, s, actions[..i + 1]) == Step(hal, Run(hal, s, actions[..i]), actions[i])
    ensures s.ready[k] in Run(hal, s, actions[..i]).tasks ==> Polling(Run(hal, s, actions[..i + 1]).pc, s.ready[k])
    decreases actions
  {
    i := PopNumber(hal, s, actions, k);
    QueueIsFifo(hal, s, actions[..i]);
    assert s.ready[k..][0] == s.ready[k];
    RunNext(hal, s, actions, i);
    TakenIsPolled(hal, Run(hal, s, actions[..i]), actions[i]);
  }

  lemma {:induction false} RunNext(hal: Hal, s: State, actions: seq<Action>, i: nat)
    requires i < |actions|
    ensures Run(hal, s, actions[..i + 1]) == Step(hal, Run(hal, s, actions[..i]), actions[i])
    decreases i
  {
    if i == 0 {
      assert actions[..1][1..] == [];
    } else {
      RunNext(hal, Step(hal, s, actions[0]), actions[1..], i - 1);
      assert actions[..i + 1][1..] == actions[1..][..i] && actions[..i][1..] == actions[1..][..i - 1];
    }
  }

  /** Once as many tasks have been taken as stand before it, every task of the queue has been
      polled. */
  lemma {:induction false} PolledInTurn(hal: Hal, s: State, actions: seq<Action>, k: nat) returns (j: nat)
    requires k < |s.ready| && s.ready[k] in s.tasks && PopCount(hal, s, actions) > k
    ensures j <= |actions| && Polling(Run(hal, s, actions[..j]).pc, s.ready[k])
  {
    var i := TakenInTurn(hal, s, actions, k);
    if forall m: nat | m < i :: !PolledAt(hal, s, actions[..i], m, s.ready[k]) {
      forall m: nat | m < |actions[..i]|
        ensures !Polling(Run(hal, s, actions[..i][..m]).pc, s.ready[k])
      {
        assert !PolledAt(hal, s, actions[..i], m, s.ready[k]);
      }
      UnpolledStays(hal, s, actions[..i], s.ready[k]);
      j := i + 1;
    } else {
      j :| 0 <= j < i && PolledAt(hal, s, actions[..i], j, s.ready[k]);
      assert actions[..i][..j] == actions[..j];
    }
  }

  predicate PolledAt(hal: Hal, s: State, actions: seq<Action>, m: nat, id: nat)
  {
    m <= |actions| && Polling(Run(hal, s, actions[..m]).pc, id)
  }

  // ------------------------------------------------------------ what a poll does

  /** The poll of any other task is one step: what it wakes joins the queue, and the task is
      gone exactly if it is done. */
  lemma OtherPoll(hal: Hal, s: State, a: Action)
    requires a.Cpu? && s.pc.PollOther?
    ensures var s' := Step(hal, s, a);
            && s' == s.(pc := PopReady, ready := s.ready + a.wakes, tasks := s'.tasks)
            && forall id :: id in s'.tasks <==> id in s.tasks && !(a.done && id == s.pc.id)
  {
  }

  /** The CPU steps a poll of the keyboard task still takes, if no key comes. */
  function KeyLeft(s: State): nat
    requires PollingKey(s.pc)
  {
    match s.pc
    case KeyFirst => |s.ring| + 3
    case KeyArm => if s.ring == [] then 2 else |s.ring| + 5
    case KeySecond => if s.ring == [] then 1 else |s.ring| + 4
    case KeyDisarm => |s.ring| + 4
    case _ => 0
  }

  lemma KeyPollStep(hal: Hal, s: State, a: Action)
    requires Safe(s) && PollingKey(s.pc) && a.Cpu?
    ensures var s' := Step(hal, s, a);
            if KeyLeft(s) == 1 then s'.pc == PopReady && s'.ring == [] && s'.keyWaker == Some(KEYBOARD)
            else PollingKey(s'.pc) && KeyLeft(s') == KeyLeft(s) - 1
    ensures Step(hal, s, a).accepted == s.accepted
    ensures s.pc == KeyDisarm ==> Step(hal, s, a).keyWaker == None
  {
  }

  /** A poll of the keyboard task hands over every waiting code and then parks the task with
      its waker in place. */
  lemma {:induction false} KeyPollParks(hal: Hal, s: State, actions: seq<Action>)
    requires Safe(s) && PollingKey(s.pc) && |actions| == KeyLeft(s) && forall i | 0 <= i < |actions| :: actions[i].Cpu?
    ensures var s' := Run(hal, s, actions);
            s'.pc == PopReady && s'.ring == [] && s'.keyWaker == Some(KEYBOARD) && s'.consumed == s.accepted
    decreases actions
  {
    KeyPollStep(hal, s, actions[0]);
    StepSafe(hal, s, actions[0]);
    var s1 := Step(hal, s, actions[0]);
    if KeyLeft(s) > 1 {
      KeyPollParks(hal, s1, actions[1..]);
    } else {
      assert actions[1..] == [];
      assert s1.consumed + s1.ring == s1.consumed;
    }
  }

  // ------------------------------------------------------------ codes arrive

  /** A key code enters the ring while fewer than 127 wait, and its waker is called; a code
      that finds the ring full changes nothing. */
  lemma KeyArrives(hal: Hal, s: State, code: nat)
    ensures var s' := Step(hal, s, Key(code));
            if |s.ring| < 127
            then && s'.ring == s.ring + [code] && s'.accepted == s.accepted + [code]
                 && s'.ready == s.ready + (if s.keyWaker.Some? then [s.keyWaker.value] else [])
            else s' == s.(pc := s'.pc)
  {
  }

  /** The codes of a run that come while fewer than 127 wait. */
  function Arrivals(hal: Hal, s: State, actions: seq<Action>): seq<nat>
    decreases actions
  {
    if actions == [] then []
    else (if actions[0].Key? && |s.ring| < 127 then [actions[0].code] else []) +
         Arrivals(hal, Step(hal, s, actions[0]), actions[1..])
  }

  lemma {:induction false} AcceptedArrivals(hal: Hal, s: State, actions: seq<Action>)
    ensures Run(hal, s, actions).accepted == s.accepted + Arrivals(hal, s, actions)
    decreases actions
  {
    if actions != [] {
      AcceptedStep(hal, s, actions[0]);
      AcceptedArrivals(hal, Step(hal, s, actions[0]), actions[1..]);
    }
  }

  lemma AcceptedStep(hal: Hal, s: State, a: Action)
    ensures Step(hal, s, a).accepted == s.accepted + if a.Key? && |s.ring| < 127 then [a.code] else []
  {
    if a.Key? {
      KeyArrives(hal, s, a.code);
    }
  }

  /** The keyboard task gets the codes that arrived, in order, each once: what it has had and
      what still waits make up the arrivals. */
  lemma CodesDelivered(hal: Hal, s: State, actions: seq<Action>)
    requires Initial(s) && Possible(hal, s, actions)
    ensures Run(hal, s, actions).consumed + Run(hal, s, actions).ring == Arrivals(hal, s, actions)
  {
    InitialSafe(s);
    RunSafe(hal, s, actions);
    AcceptedArrivals(hal, s, actions);
    assert s.accepted + Arrivals(hal, s, actions) == Arrivals(hal, s, actions);
  }

  // ------------------------------------------------------------ how long a sleep lasts

  /** In this step the sleeper's awaited Sleep is over: it starts another, or ends. */
  predicate Resolves(hal: Hal, s: State, a: Action)
  {
    a.Cpu? && PollingSleep(s.pc) && (Step(hal, s, a).pc == SleepFirst || SLEEPER !in Step(hal, s, a).tasks)
  }

  predicate NoneResolves(hal: Hal, s: State, actions: seq<Action>)
    decreases actions
  {
    actions == [] || (!Resolves(hal, s, actions[0]) && NoneResolves(hal, Step(hal, s, actions[0]), actions[1..]))
  }

  lemma {:induction false} DeadlineStays(hal: Hal, s: State, actions: seq<Action>)
    requires Safe(s) && Possible(hal, s, actions) && NoneResolves(hal, s, actions)
    ensures Safe(Run(hal, s, actions)) && Run(hal, s, actions).deadline == s.deadline
    decreases actions
  {
    if actions != [] {
      StepSafe(hal, s, actions[0]);
      DeadlineStep(hal, s, actions[0]);
      DeadlineStays(hal, Step(hal, s, actions[0]), actions[1..]);
    }
  }

  /** Only the step that ends a Sleep moves the deadline, and it comes when the time is up. */
  lemma DeadlineStep(hal: Hal, s: State, a: Action)
    requires Safe(s)
    ensures !Resolves(hal, s, a) ==> Step(hal, s, a).deadline == s.deadline
    ensures Resolves(hal, s, a) ==> s.ticks >= s.deadline && Step(hal, s, a).ticks == s.ticks
    ensures Resolves(hal, s, a) && a.again.Some? ==> Step(hal, s, a).deadline == s.ticks + a.again.value
  {
    if a.Cpu? && PollingSleep(s.pc) {
      SleepPollStep(hal, s, a);
    } else {
      OthersKeepDeadline(hal, s, a);
    }
  }

  lemma OthersKeepDeadline(hal: Hal, s: State, a: Action)
    requires !(a.Cpu? && PollingSleep(s.pc))
    ensures Step(hal, s, a).deadline == s.deadline
  {
  }

  lemma SleepPollStep(hal: Hal, s: State, a: Action)
    requires SleepSafe(s) && a.Cpu? && PollingSleep(s.pc)
    ensures var s' := Step(hal, s, a);
            if s'.pc == SleepFirst || SLEEPER !in s'.tasks
            then && s.ticks >= s.deadline && s'.ticks == s.ticks
                 && (a.again.Some? ==> s'.deadline == s.ticks + a.again.value)
            else s'.deadline == s.deadline
  {
  }

  /** From the step that starts a Sleep of `wait` ticks to the step that ends it, at least
      `wait` timer interrupts come. */
  lemma SleepLasts(hal: Hal, s: State, start: Action, actions: seq<Action>, end: Action)
    requires Safe(s) && Enabled(s, start) && Resolves(hal, s, start) && start.again.Some?
    requires Possible(hal, Step(hal, s, start), actions) && NoneResolves(hal, Step(hal, s, start), actions)
    requires Resolves(hal, Run(hal, Step(hal, s, start), actions), end)
    ensures Run(hal, Step(hal, s, start), actions).ticks >= s.ticks + start.again.value
  {
    StepSafe(hal, s, start);
    DeadlineStep(hal, s, start);
    DeadlineStays(hal, Step(hal, s, start), actions);
    DeadlineStep(hal, Run(hal, Step(hal, s, start), actions), end);
  }

  /** The clock counts the timer interrupts of a run. */
  function TimerCount(actions: seq<Action>): nat
  {
    if actions == [] then 0 else (if actions[0].Timer? then 1 else 0) + TimerCount(actions[1..])
  }

  lemma {:induction false} ClockCounts(hal: Hal, s: State, actions: seq<Action>)
    ensures Run(hal, s, actions).ticks == s.ticks + TimerCount(actions)
    decreases actions
  {
    if actions != [] {
      ClockStep(hal, s, actions[0]);
      ClockCounts(hal, Step(hal, s, actions[0]), actions[1..]);
    }
  }

  lemma ClockStep(hal: Hal, s: State, a: Action)
    ensures Step(hal, s, a).ticks == s.ticks + if a.Timer? then 1 else 0
  {
  }

  /** A sleeper whose time has not come parks in four steps, armed for its deadline. */
  lemma SleepPollParks(hal: Hal, s: State, a: Action, b: Action, c: Action, d: Action)
    requires s.pc == SleepFirst && s.ticks < s.deadline && a.Cpu? && b.Cpu? && c.Cpu? && d.Cpu?
    ensures var s' := Step(hal, Step(hal, Step(hal, Step(hal, s, a), b), c), d);
            s'.pc == PopReady && Armed(s') && s'.deadline == s.deadline && s'.ticks == s.ticks && s'.tasks == s.tasks
  {
  }

  // ------------------------------------------------------------ no waker is left behind

  /** The timer holds a waker only together with its deadline, but for the two moments in which
      a poll sets or clears them one after the other; once the sleeper has ended it holds
      neither. */
  predicate Tidy(s: State)
  {
    && (s.sleepWaker.Some? ==> s.wakeAt.Some? || s.pc == SleepSetAt || s.pc == SleepDisarm)
    && (SLEEPER !in s.tasks ==> s.sleepWaker == None && s.wakeAt == None)
    && s.pc != PollOther(SLEEPER)
  }

  lemma TidyStep(hal: Hal, s: State, a: Action)
    requires Safe(s) && Tidy(s) && Enabled(s, a)
    ensures Tidy(Step(hal, s, a))
  {
    if a.Cpu? && PollingSleep(s.pc) {
      TidySleepPoll(hal, s, a);
    } else if a.Cpu? {
      TidyOtherStep(hal, s, a);
    }
  }

  lemma TidySleepPoll(hal: Hal, s: State, a: Action)
    requires Safe(s) && Tidy(s) && a.Cpu? && PollingSleep(s.pc)
    ensures Tidy(Step(hal, s, a))
  {
  }

  lemma TidyOtherStep(hal: Hal, s: State, a: Action)
    requires Safe(s) && Tidy(s) && a.Cpu? && !PollingSleep(s.pc)
    ensures Tidy(Step(hal, s, a))
  {
  }

  /** Over every run. */
  lemma {:induction false} RunTidy(hal: Hal, s: State, actions: seq<Action>)
    requires Safe(s) && Tidy(s) && Possible(hal, s, actions)
    ensures Tidy(Run(hal, s, actions))
    decreases actions
  {
    if actions != [] {
      TidyStep(hal, s, actions[0]);
      StepSafe(hal, s, actions[0]);
      RunTidy(hal, Step(hal, s, actions[0]), actions[1..]);
    }
  }
}
