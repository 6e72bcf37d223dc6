/** Spin locks on one CPU: the lock flag and the interrupt flag.

    Taking a lock first turns interrupts off and remembers whether they were on; dropping
    the guard frees the lock and then puts interrupts back. A handler runs only where
    interrupts are on, so what matters is that they never come back while a lock is held. */
module SpinLocks {

  datatype Guard = Guard(lock: nat, restore: bool)

  /** One CPU: its interrupt flag, the locks that are taken, and the live guards in the
      order they were taken. */
  datatype CpuState = CpuState(enabled: bool, locked: set<nat>, guards: seq<Guard>)

  datatype LockAnswer = Locked(cpu: CpuState) | Spins

  /** `lock`: on one CPU with interrupts off, waiting for a held lock never ends. */
  function AfterLock(cpu: CpuState, lock: nat): LockAnswer
  {
    if lock in cpu.locked then Spins
    else Locked(CpuState(false, cpu.locked + {lock}, cpu.guards + [Guard(lock, cpu.enabled)]))
  }

  /** `try_lock`: a held lock leaves everything as it was, interrupts included. */
  function AfterTryLock(cpu: CpuState, lock: nat): (bool, CpuState)
  {
    if lock in cpu.locked then (false, cpu)
    else (true, CpuState(false, cpu.locked + {lock}, cpu.guards + [Guard(lock, cpu.enabled)]))
  }

  /** Dropping guard `i`: frees the lock, then restores interrupts if they were on. */
  function AfterDrop(cpu: CpuState, i: nat): CpuState
    requires i < |cpu.guards|
  {
    var g := cpu.guards[i];
    CpuState(cpu.enabled || g.restore, cpu.locked - {g.lock}, cpu.guards[..i] + cpu.guards[i + 1..])
  }

  /** The locks taken are those of the live guards; only the outermost guard may turn
      interrupts back on, and while any guard lives they are off. */
  ghost predicate Nested(cpu: CpuState)
  {
    && (forall l :: l in cpu.locked <==> exists i | 0 <= i < |cpu.guards| :: cpu.guards[i].lock == l)
    && (forall i, j | 0 <= i < j < |cpu.guards| :: cpu.guards[i].lock != cpu.guards[j].lock)
    && (forall i | 0 < i < |cpu.guards| :: !cpu.guards[i].restore)
    && (cpu.guards != [] ==> !cpu.enabled)
  }

  lemma LockNested(cpu: CpuState, lock: nat)
    requires Nested(cpu) && lock !in cpu.locked
    ensures Nested(AfterLock(cpu, lock).cpu)
  {
    var cpu' := AfterLock(cpu, lock).cpu;
    forall l
      ensures l in cpu'.locked <==> exists i | 0 <= i < |cpu'.guards| :: cpu'.guards[i].lock == l
    {
      if i :| 0 <= i < |cpu.guards| && cpu.guards[i].lock == l {
        assert cpu'.guards[i].lock == l;
      }
      if l == lock {
        assert cpu'.guards[|cpu.guards|].lock == l;
      }
    }
  }

  /** Dropping the guard taken last keeps the discipline, and dropping all of them leaves
      the interrupt flag as it was before the first was taken. */
  lemma DropLastNested(cpu: CpuState)
    requires Nested(cpu) && cpu.guards != []
    ensures var cpu' := AfterDrop(cpu, |cpu.guards| - 1);
            Nested(cpu') && (cpu'.guards == [] ==> cpu'.enabled == cpu.guards[0].restore)
  {
    var n := |cpu.guards| - 1;
    var cpu' := AfterDrop(cpu, n);
    assert cpu'.guards == cpu.guards[..n];
    forall l
      ensures l in cpu'.locked <==> exists i | 0 <= i < |cpu'.guards| :: cpu'.guards[i].lock == l
    {
      if l in cpu'.locked {
        var i :| 0 <= i < |cpu.guards| && cpu.guards[i].lock == l;
        assert cpu'.guards[i].lock == l;
      }
      if i :| 0 <= i < |cpu'.guards| && cpu'.guards[i].lock == l {
        assert cpu.guards[i].lock == l;
      }
    }
  }

  /** A critical section leaves no trace: taking a free lock and dropping its guard restores
      the interrupt flag, the locks and the guards. */
  lemma LockThenDrop(cpu: CpuState, lock: nat)
    requires lock !in cpu.locked
    ensures AfterLock(cpu, lock).Locked? && !AfterLock(cpu, lock).cpu.enabled && lock in AfterLock(cpu, lock).cpu.locked
    ensures AfterDrop(AfterLock(cpu, lock).cpu, |cpu.guards|) == cpu
  {
    var cpu' := AfterLock(cpu, lock).cpu;
    assert cpu'.locked - {lock} == cpu.locked;
    assert cpu'.guards[..|cpu.guards|] + cpu'.guards[|cpu.guards| + 1..] == cpu.guards;
  }

  /** Sections nested to any depth: the locks are taken in order and their guards dropped in
      the opposite one. */
  function LockAll(cpu: CpuState, locks: seq<nat>): CpuState
    decreases locks
  {
    if locks == [] then cpu
    else
      match AfterLock(cpu, locks[0])
      case Spins => cpu
      case Locked(cpu') => LockAll(cpu', locks[1..])
  }

  function DropMany(cpu: CpuState, n: nat): CpuState
    requires n <= |cpu.guards|
    decreases n
  {
    if n == 0 then cpu else DropMany(AfterDrop(cpu, |cpu.guards| - 1), n - 1)
  }

  lemma {:induction false} SectionsRestore(cpu: CpuState, locks: seq<nat>)
    requires forall i | 0 <= i < |locks| :: locks[i] !in cpu.locked
    requires forall i, j | 0 <= i < j < |locks| :: locks[i] != locks[j]
    ensures |LockAll(cpu, locks).guards| == |cpu.guards| + |locks|
    ensures DropMany(LockAll(cpu, locks), |locks|) == cpu
    decreases locks
  {
    if locks != [] {
      var cpu1 := AfterLock(cpu, locks[0]).cpu;
      SectionsRestore(cpu1, locks[1..]);
      DropLastOf(LockAll(cpu, locks), |locks| - 1);
      LockThenDrop(cpu, locks[0]);
    }
  }

  lemma {:induction false} DropLastOf(cpu: CpuState, n: nat)
    requires n + 1 <= |cpu.guards|
    ensures |DropMany(cpu, n).guards| == |cpu.guards| - n
    ensures DropMany(cpu, n + 1) == AfterDrop(DropMany(cpu, n), |cpu.guards| - n - 1)
    decreases n
  {
    if n > 0 {
      DropLastOf(AfterDrop(cpu, |cpu.guards| - 1), n - 1);
    }
  }

  /** A failed attempt changes nothing; a successful one is a `lock`. */
  lemma TryLockIsLock(cpu: CpuState, lock: nat)
    ensures AfterTryLock(cpu, lock) ==
            match AfterLock(cpu, lock)
            case Spins => (false, cpu)
            case Locked(cpu') => (true, cpu')
  {
  }

  /** The deadlock the lock is built to exclude: a handler starts only with interrupts on,
      and then finds every lock free. */
  lemma HandlersFindLocksFree(cpu: CpuState, lock: nat)
    requires Nested(cpu) && cpu.enabled
    ensures AfterLock(cpu, lock) != Spins
  {
    assert cpu.guards == [];
  }

  /** Guards dropped out of order break it: interrupts come back on with a lock held exactly
      when the outermost guard, taken with interrupts on, goes before the inner ones. */
  lemma EarlyRestore(cpu: CpuState, i: nat)
    requires Nested(cpu) && i < |cpu.guards|
    ensures var cpu' := AfterDrop(cpu, i);
            cpu'.enabled && cpu'.guards != [] <==> i == 0 && cpu.guards[0].restore && |cpu.guards| > 1
  {
  }

  class Cpu {
    var enabled: bool
    var locked: set<nat>
    var guards: seq<Guard>

    function View(): CpuState
      reads this
    {
      CpuState(enabled, locked, guards)
    }

    constructor (enabled: bool)
      ensures View() == CpuState(enabled, {}, []) && Nested(View())
    {
      this.enabled, locked, guards := enabled, {}, [];
    }

    /** Interrupts go off before the flag is tried, so no handler can come in between. */
    method Lock(lock: nat) returns (acquired: bool)
      modifies this
      ensures acquired <==> lock !in old(locked)
      ensures acquired ==> AfterLock(old(View()), lock) == Locked(View())
      ensures !acquired ==> View() == old(View()).(enabled := false)
      ensures old(Nested(View())) && acquired ==> Nested(View())
    {
      var restore := enabled;
      enabled := false;
      acquired := lock !in locked;
      if acquired {
        if Nested(View().(enabled := restore)) {
          LockNested(View().(enabled := restore), lock);
        }
        locked := locked + {lock};
        guards := guards + [Guard(lock, restore)];
      }
    }

    method TryLock(lock: nat) returns (acquired: bool)
      modifies this
      ensures (acquired, View()) == AfterTryLock(old(View()), lock)
      ensures old(Nested(View())) ==> Nested(View())
    {
      var restore := enabled;
      acquired := Lock(lock);
      if !acquired && restore {
        enabled := true;
      }
    }

    /** The end of the scope of the guard taken last. */
    method DropLast()
      requires guards != []
      modifies this
      ensures View() == AfterDrop(old(View()), |old(guards)| - 1)
      ensures old(Nested(View())) ==> Nested(View())
      ensures old(Nested(View())) && guards == [] ==> enabled == old(guards)[0].restore
    {
      if Nested(View()) {
        DropLastNested(View());
      }
      var g := guards[|guards| - 1];
      locked := locked - {g.lock};
      guards := guards[..|guards| - 1];
      if g.restore {
        enabled := true;
      }
    }
  }
}
