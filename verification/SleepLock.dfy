/** Sleep locks over sleep and wakeup: kernel/sleeplock.c and the sleep, wakeup, sched and
    yield code of kernel/proc.c, as the steps of any number of processes on any number of CPUs.
    A step ends wherever a spinlock is taken or released or shared state changes. */
module SleepLock {

  import opened Basics

  /** Where a process is. Names say what it does next. */
  datatype Pc =
    | Idle            // not using the lock
    | Enter           // acquiresleep, or sleep after waking: acquire lk->lk
    | Test            // acquiresleep: look at lk->locked
    | Leave           // acquiresleep: release lk->lk
    | Crit            // holds the sleep lock
    | LockSelf        // sleep: acquire p->lock
    | LetGo           // sleep: release lk->lk
    | Mark            // sleep: set p->chan and p->state
    | Switch          // sleep: sched
    | Asleep          // sleep: switched away
    | Release         // releasesleep: acquire lk->lk
    | Clear           // releasesleep: clear lk->locked
    | Wake(i: nat, holding: bool)  // wakeup: at process i, before or after acquiring its lock

  datatype RunState = Running | Runnable | Sleeping

  datatype Chan = NoChan | ThisLock | OtherChan

  /** Who holds p->lock. */
  datatype ProcLock = Free | Self | Cpu | By(waker: nat)

  datatype Proc = Proc(pc: Pc, state: RunState, chan: Chan, lock: ProcLock)

  /** spin is the holder of lk->lk, pid the process recorded in lk->pid. */
  datatype State = State(procs: seq<Proc>, spin: Option<nat>, locked: bool, pid: Option<nat>)

  datatype Action =
    | Begin(p: nat)        // call acquiresleep
    | TakeSpin(p: nat)
    | TestLocked(p: nat)
    | LeaveLocked(p: nat)
    | TakeSelf(p: nat)
    | DropSpin(p: nat)
    | GoToSleep(p: nat)
    | SwitchAway(p: nat)
    | CpuLetsGo(p: nat)    // the scheduler releases p->lock
    | Dispatch(p: nat)     // the scheduler runs p, which resumes holding p->lock
    | Tidy(p: nat)         // sleep: clear p->chan, release p->lock
    | Yield(p: nat)        // timer interrupt, with no spinlock held
    | EndYield(p: nat)
    | SleepElsewhere(p: nat)
    | WakeElsewhere(p: nat)  // wakeup on another channel, or kill
    | BeginRelease(p: nat)
    | ClearLocked(p: nat)
    | WakeLock(p: nat)
    | WakeTest(p: nat)
    | WakeSkip(p: nat)
    | WakeDone(p: nat)

  predicate Enabled(s: State, a: Action)
  {
    a.p < |s.procs| &&
    var x := s.procs[a.p];
    match a
    case Begin(p) => x.state == Running && x.pc == Idle && x.lock != Self
    case TakeSpin(p) => x.state == Running && (x.pc == Enter || x.pc == Release) && x.lock != Self && s.spin.None?
    case TestLocked(p) => x.pc == Test
    case LeaveLocked(p) => x.pc == Leave
    case TakeSelf(p) => x.pc == LockSelf && x.lock == Free
    case DropSpin(p) => x.pc == LetGo
    case GoToSleep(p) => x.pc == Mark
    case SwitchAway(p) => x.pc == Switch
    case CpuLetsGo(p) => x.lock == Cpu
    case Dispatch(p) => x.state == Runnable && x.lock == Free
    case Tidy(p) => x.pc == Asleep && x.state == Running && x.lock == Self
    case Yield(p) => x.state == Running && x.lock == Free && x.pc in {Idle, Enter, Crit, Release}
    case EndYield(p) => x.pc in {Idle, Enter, Crit, Release} && x.state == Running && x.lock == Self
    case SleepElsewhere(p) => x.state == Running && x.lock == Free && x.pc in {Idle, Crit}
    case WakeElsewhere(p) => x.state == Sleeping && x.lock == Free
    case BeginRelease(p) => x.state == Running && x.pc == Crit && x.lock != Self
    case ClearLocked(p) => x.pc == Clear
    case WakeLock(p) => x.pc.Wake? && !x.pc.holding && x.pc.i < |s.procs| && x.pc.i != p && s.procs[x.pc.i].lock == Free
    case WakeTest(p) => x.pc.Wake? && x.pc.holding && x.pc.i < |s.procs|
    case WakeSkip(p) => x.pc.Wake? && !x.pc.holding && x.pc.i == p
    case WakeDone(p) => x.pc.Wake? && !x.pc.holding && x.pc.i == |s.procs|
  }

  function Do(s: State, a: Action): State
    requires Enabled(s, a)
  {
    var p := a.p;
    var x := s.procs[p];
    match a
    case Begin(_) => s.(procs := s.procs[p := x.(pc := Enter)])
    case TakeSpin(_) => s.(procs := s.procs[p := x.(pc := if x.pc == Enter then Test else Clear)], spin := Some(p))
    case TestLocked(_) =>
      if s.locked then s.(procs := s.procs[p := x.(pc := LockSelf)])
      else s.(procs := s.procs[p := x.(pc := Leave)], locked := true, pid := Some(p))
    case LeaveLocked(_) => s.(procs := s.procs[p := x.(pc := Crit)], spin := None)
    case TakeSelf(_) => s.(procs := s.procs[p := x.(pc := LetGo, lock := Self)])
    case DropSpin(_) => s.(procs := s.procs[p := x.(pc := Mark)], spin := None)
    case GoToSleep(_) => s.(procs := s.procs[p := x.(pc := Switch, chan := ThisLock, state := Sleeping)])
    case SwitchAway(_) => s.(procs := s.procs[p := x.(pc := Asleep, lock := Cpu)])
    case CpuLetsGo(_) => s.(procs := s.procs[p := x.(lock := Free)])
    case Dispatch(_) => s.(procs := s.procs[p := x.(state := Running, lock := Self)])
    case Tidy(_) => s.(procs := s.procs[p := x.(pc := Enter, chan := NoChan, lock := Free)])
    case Yield(_) => s.(procs := s.procs[p := x.(state := Runnable, lock := Cpu)])
    case EndYield(_) => s.(procs := s.procs[p := x.(lock := Free, chan := NoChan)])
    case SleepElsewhere(_) => s.(procs := s.procs[p := x.(state := Sleeping, chan := OtherChan, lock := Cpu)])
    case WakeElsewhere(_) => s.(procs := s.procs[p := x.(state := Runnable)])
    case BeginRelease(_) => s.(procs := s.procs[p := x.(pc := Release)])
    case ClearLocked(_) => s.(procs := s.procs[p := x.(pc := Wake(0, false))], locked := false, pid := None)
    case WakeLock(_) =>
      s.(procs := s.procs[x.pc.i := s.procs[x.pc.i].(lock := By(p))][p := x.(pc := Wake(x.pc.i, true))])
    case WakeTest(_) =>
      var y := s.procs[x.pc.i];
      var z := if y.state == Sleeping && y.chan == ThisLock then y.(state := Runnable, lock := Free) else y.(lock := Free);
      s.(procs := s.procs[x.pc.i := z][p := x.(pc := Wake(x.pc.i + 1, false))])
    case WakeSkip(_) => s.(procs := s.procs[p := x.(pc := Wake(x.pc.i + 1, false))])
    case WakeDone(_) => s.(procs := s.procs[p := x.(pc := Idle)], spin := None)
  }

  /** Initially nobody uses the lock, and processes are anywhere else. */
  predicate Init(s: State)
  {
    && s.spin.None? && !s.locked && s.pid.None?
    && forall p | 0 <= p < |s.procs| :: s.procs[p].pc == Idle && s.procs[p].lock == Free && s.procs[p].chan != ThisLock
  }

  predicate HoldsSpin(pc: Pc)
  {
    pc in {Test, Leave, LockSelf, LetGo, Clear} || pc.Wake?
  }

  /** Between acquiresleep's and releasesleep's changes of lk->locked. */
  predicate Owns(pc: Pc) { pc in {Leave, Crit, Release, Clear} }

  /** Sleeping on the lock, or in the window inside sleep() that ends in sleeping. */
  predicate MustBeWoken(x: Proc)
  {
    x.pc in {Mark, Switch} || (x.pc == Asleep && x.state == Sleeping)
  }

  /** What holds of process p in every reachable state. The last clause is what makes wakeups
      impossible to lose: while the lock is not held, whoever must be woken is still ahead of a
      wakeup loop that holds lk->lk. */
  ghost predicate ProcInv(s: State, p: nat)
    requires p < |s.procs|
  {
    var x := s.procs[p];
    && (HoldsSpin(x.pc) <==> s.spin == Some(p))
    && (Owns(x.pc) <==> s.locked && s.pid == Some(p))
    && (x.pc in {LetGo, Mark, Switch} ==> x.lock == Self)
    && (HoldsSpin(x.pc) || x.pc == Mark ==> x.state == Running)
    && (x.pc == Switch ==> x.state == Sleeping)
    && (x.pc == Switch || (x.pc == Asleep && x.state == Sleeping) ==> x.chan == ThisLock)
    && (x.pc in {LockSelf, LetGo} ==> s.locked)
    && (x.pc.Wake? ==> x.pc.i <= |s.procs|)
    && (x.pc.Wake? && x.pc.holding ==> x.pc.i < |s.procs| && x.pc.i != p && s.procs[x.pc.i].lock == By(p))
    && (MustBeWoken(x) && !s.locked ==>
          s.spin.Some? && s.spin.value < |s.procs| && s.procs[s.spin.value].pc.Wake? && s.procs[s.spin.value].pc.i <= p)
  }

  ghost predicate Inv(s: State)
  {
    && (s.spin.Some? ==> s.spin.value < |s.procs|)
    && (s.locked ==> s.pid.Some? && s.pid.value < |s.procs|)
    && forall p | 0 <= p < |s.procs| :: ProcInv(s, p)
  }

  lemma AcquireStep(s: State, a: Action, q: nat)
    requires Inv(s) && Enabled(s, a) && q < |s.procs|
    requires a.Begin? || a.TakeSpin? || a.TestLocked? || a.LeaveLocked? || a.BeginRelease?
    ensures ProcInv(Do(s, a), q)
  {
    assert ProcInv(s, a.p) && ProcInv(s, q);
    assert s.spin.Some? ==> ProcInv(s, s.spin.value);
  }

  lemma SleepStep(s: State, a: Action, q: nat)
    requires Inv(s) && Enabled(s, a) && q < |s.procs|
    requires a.TakeSelf? || a.DropSpin? || a.GoToSleep?
    ensures ProcInv(Do(s, a), q)
  {
    assert ProcInv(s, a.p) && ProcInv(s, q);
    assert s.spin.Some? ==> ProcInv(s, s.spin.value);
  }

  lemma SwitchStep(s: State, a: Action, q: nat)
    requires Inv(s) && Enabled(s, a) && q < |s.procs|
    requires a.SwitchAway? || a.Tidy?
    ensures ProcInv(Do(s, a), q)
  {
    assert ProcInv(s, a.p) && ProcInv(s, q);
    assert s.spin.Some? ==> ProcInv(s, s.spin.value);
  }

  lemma SchedulerStep(s: State, a: Action, q: nat)
    requires Inv(s) && Enabled(s, a) && q < |s.procs|
    requires a.CpuLetsGo? || a.Dispatch? || a.Yield? || a.EndYield?
    ensures ProcInv(Do(s, a), q)
  {
    assert ProcInv(s, a.p) && ProcInv(s, q);
    assert s.spin.Some? ==> ProcInv(s, s.spin.value);
  }

  lemma ElsewhereStep(s: State, a: Action, q: nat)
    requires Inv(s) && Enabled(s, a) && q < |s.procs|
    requires a.SleepElsewhere? || a.WakeElsewhere?
    ensures ProcInv(Do(s, a), q)
  {
    assert ProcInv(s, a.p) && ProcInv(s, q);
    assert s.spin.Some? ==> ProcInv(s, s.spin.value);
  }

  lemma WakeupStep(s: State, a: Action, q: nat)
    requires Inv(s) && Enabled(s, a) && q < |s.procs|
    requires a.WakeLock? || a.WakeTest?
    ensures |Do(s, a).procs| == |s.procs| && ProcInv(Do(s, a), q)
  {
    assert ProcInv(s, a.p) && ProcInv(s, q);
  }

  lemma ReleaseStep(s: State, a: Action, q: nat)
    requires Inv(s) && Enabled(s, a) && q < |s.procs|
    requires a.ClearLocked? || a.WakeSkip? || a.WakeDone?
    ensures ProcInv(Do(s, a), q)
  {
    assert ProcInv(s, a.p) && ProcInv(s, q);
  }

  lemma StepKeepsInv(s: State, a: Action)
    requires Inv(s) && Enabled(s, a)
    ensures Inv(Do(s, a))
  {
    var t := Do(s, a);
    forall q | 0 <= q < |t.procs| ensures ProcInv(t, q) {
      hide ProcInv;
      match a
      case Begin(_) | TakeSpin(_) | TestLocked(_) | LeaveLocked(_) | BeginRelease(_) => AcquireStep(s, a, q);
      case TakeSelf(_) | DropSpin(_) | GoToSleep(_) => SleepStep(s, a, q);
      case SwitchAway(_) | Tidy(_) => SwitchStep(s, a, q);
      case CpuLetsGo(_) | Dispatch(_) | Yield(_) | EndYield(_) => SchedulerStep(s, a, q);
      case SleepElsewhere(_) | WakeElsewhere(_) => ElsewhereStep(s, a, q);
      case WakeLock(_) | WakeTest(_) => WakeupStep(s, a, q);
      case ClearLocked(_) | WakeSkip(_) | WakeDone(_) => ReleaseStep(s, a, q);
    }
  }

  /** A run: every action is enabled where it is taken. */
  ghost predicate Reaches(s: State, run: seq<Action>, t: State)
    decreases |run|
  {
    if run == [] then t == s else Enabled(s, run[0]) && Reaches(Do(s, run[0]), run[1..], t)
  }

  lemma {:induction false} RunKeepsInv(s: State, run: seq<Action>, t: State)
    requires Inv(s) && Reaches(s, run, t)
    ensures Inv(t)
    decreases |run|
  {
    if run != [] {
      StepKeepsInv(s, run[0]);
      RunKeepsInv(Do(s, run[0]), run[1..], t);
    }
  }

  /** Nobody loses a wakeup: whenever lk->lk is free and the lock is not held, no process sleeps
      on it and none is on its way to sleep. */
  lemma NoLostWakeup(s: State, run: seq<Action>, t: State, p: nat)
    requires Init(s) && Reaches(s, run, t)
    requires t.spin.None? && !t.locked && p < |t.procs|
    ensures !MustBeWoken(t.procs[p])
  {
    RunKeepsInv(s, run, t);
    assert ProcInv(t, p);
  }

  /** At most one process holds the sleep lock, and it is the one recorded in lk->pid. */
  lemma MutualExclusion(s: State, run: seq<Action>, t: State, p: nat, q: nat)
    requires Init(s) && Reaches(s, run, t) && p < |t.procs| && q < |t.procs|
    requires t.procs[p].pc == Crit && Owns(t.procs[q].pc)
    ensures p == q && t.locked && t.pid == Some(p)
  {
    RunKeepsInv(s, run, t);
    assert ProcInv(t, p) && ProcInv(t, q);
  }

  // acquiresleep comes back with the lock

  /** How far a process is with the lock. */
  datatype Stage = Away | Trying | Holding | Ending

  function StageOf(pc: Pc): Stage
  {
    if pc == Idle then Away
    else if pc in {Crit, Release, Clear} then Holding
    else if pc.Wake? then Ending
    else Trying
  }

  /** A process goes through the stages in order, and from trying to holding only by taking the lock. */
  lemma StageStep(s: State, a: Action, p: nat)
    requires Enabled(s, a) && p < |s.procs|
    ensures |Do(s, a).procs| == |s.procs|
    ensures var x, y := StageOf(s.procs[p].pc), StageOf(Do(s, a).procs[p].pc);
      match x
      case Away => y in {Away, Trying}
      case Trying => y == Trying || (y == Holding && a == LeaveLocked(p))
      case Holding => y in {Holding, Ending}
      case Ending => y in {Ending, Away}
  {
  }

  /** acquiresleep does not give up: over any run, a process that tries is trying still, or has taken the
      lock. */
  lemma {:induction false} KeepsTrying(s: State, run: seq<Action>, t: State, p: nat)
    requires Reaches(s, run, t) && p < |s.procs| && StageOf(s.procs[p].pc) == Trying
    ensures LeaveLocked(p) in run || (p < |t.procs| && StageOf(t.procs[p].pc) == Trying)
    decreases |run|
  {
    if run != [] {
      StageStep(s, run[0], p);
      if run[0] != LeaveLocked(p) {
        KeepsTrying(Do(s, run[0]), run[1..], t, p);
      }
    }
  }

  /** The lock of a process is held by a waker only during its wakeup, and by a CPU only while the process
      is off it; a process back from sleep has its lock. */
  ghost predicate LockOk(s: State, p: nat)
    requires p < |s.procs|
  {
    var x := s.procs[p];
    && (x.lock.By? ==> x.lock.waker < |s.procs| && s.procs[x.lock.waker].pc == Wake(p, true))
    && (x.state == Running ==> x.lock != Cpu) && (x.pc == Asleep && x.state == Running ==> x.lock == Self)
    && (x.state != Running && x.lock == Self ==> x.pc == Switch)
  }

  ghost predicate Locks(s: State)
  {
    forall p | 0 <= p < |s.procs| :: LockOk(s, p)
  }

  lemma WakeLockStep(s: State, a: Action, q: nat)
    requires Inv(s) && Locks(s) && Enabled(s, a) && q < |s.procs| && (a.WakeLock? || a.WakeTest?)
    ensures |Do(s, a).procs| == |s.procs| && LockOk(Do(s, a), q)
  {
    var i := s.procs[a.p].pc.i;
    assert ProcInv(s, a.p) && ProcInv(s, q) && ProcInv(s, i) && LockOk(s, a.p) && LockOk(s, q) && LockOk(s, i);
  }

  lemma OwnLockStep(s: State, a: Action, q: nat)
    requires Inv(s) && Locks(s) && Enabled(s, a) && q < |s.procs| && !a.WakeLock? && !a.WakeTest?
    ensures |Do(s, a).procs| == |s.procs| && LockOk(Do(s, a), q)
  {
    assert ProcInv(s, a.p) && ProcInv(s, q) && LockOk(s, a.p) && LockOk(s, q);
  }

  lemma LockStep(s: State, a: Action, q: nat)
    requires Inv(s) && Locks(s) && Enabled(s, a) && q < |s.procs|
    ensures |Do(s, a).procs| == |s.procs| && LockOk(Do(s, a), q)
  {
    hide Inv, Locks, LockOk, Enabled, Do;
    if a.WakeLock? || a.WakeTest? {
      WakeLockStep(s, a, q);
    } else {
      OwnLockStep(s, a, q);
    }
  }

  lemma SizeKept(s: State, a: Action)
    requires Enabled(s, a)
    ensures |Do(s, a).procs| == |s.procs|
  {
  }

  lemma {:induction false} RunKeepsLocks(s: State, run: seq<Action>, t: State)
    requires Inv(s) && Locks(s) && Reaches(s, run, t)
    ensures Inv(t) && Locks(t)
    decreases |run|
  {
    hide Inv, LockOk;
    if run != [] {
      StepKeepsInv(s, run[0]);
      var u := Do(s, run[0]);
      SizeKept(s, run[0]);
      forall q | 0 <= q < |u.procs| ensures LockOk(u, q) { LockStep(s, run[0], q); }
      RunKeepsLocks(u, run[1..], t);
    }
  }

  lemma Reaches1(s: State, a: Action, run: seq<Action>, t: State)
    requires Enabled(s, a) && Reaches(Do(s, a), run, t)
    ensures Reaches(s, [a] + run, t)
  {
    assert ([a] + run)[0] == a && ([a] + run)[1..] == run;
  }

  /** A process that is about to take lk->lk, when that and the lock are free, gets the lock. */
  lemma TakesIt(s: State, p: nat) returns (run: seq<Action>, t: State)
    requires p < |s.procs| && s.spin.None? && !s.locked
    requires s.procs[p].pc == Enter && s.procs[p].state == Running && s.procs[p].lock == Free
    ensures Reaches(s, run, t) && p < |t.procs| && t.procs[p].pc == Crit && (forall a <- run :: a.p == p)
  {
    var s1 := Do(s, TakeSpin(p));
    var s2 := Do(s1, TestLocked(p));
    t := Do(s2, LeaveLocked(p));
    assert Reaches(t, [], t);
    Reaches1(s2, LeaveLocked(p), [], t);
    Reaches1(s1, TestLocked(p), [LeaveLocked(p)] + [], t);
    run := [TakeSpin(p)] + ([TestLocked(p)] + ([LeaveLocked(p)] + []));
    Reaches1(s, TakeSpin(p), [TestLocked(p)] + ([LeaveLocked(p)] + []), t);
  }

  /** How far a process is from running with its lock free. */
  ghost function Far(x: Proc): nat
  {
    (if x.lock == Cpu then 1 else 0)
    + (if x.state == Sleeping then 5 else if x.state == Runnable then 3 else if x.lock == Self then 2 else 0)
  }

  /** What a process does next that is not there yet, or what the scheduler does with it. */
  ghost function Next(x: Proc, p: nat): Action
  {
    if x.lock == Cpu then CpuLetsGo(p)
    else if x.state == Sleeping then WakeElsewhere(p)
    else if x.state == Runnable then Dispatch(p)
    else if x.pc == Asleep then Tidy(p)
    else EndYield(p)
  }

  /** When the lock is free, a process that tries is not in the middle of it. */
  lemma TryingOutside(s: State, p: nat)
    requires Inv(s) && Locks(s) && p < |s.procs| && s.spin.None? && !s.locked && StageOf(s.procs[p].pc) == Trying
    ensures s.procs[p].pc in {Enter, Asleep} && !s.procs[p].lock.By?
    ensures !(s.procs[p].pc == Enter && s.procs[p].state == Running && s.procs[p].lock == Free) ==> Enabled(s, Next(s.procs[p], p))
  {
    var x := s.procs[p];
    assert ProcInv(s, p) && LockOk(s, p);
    assert x.lock.By? ==> ProcInv(s, x.lock.waker);
  }

  lemma NextNearer(s: State, p: nat)
    requires p < |s.procs| && s.procs[p].pc in {Enter, Asleep} && Enabled(s, Next(s.procs[p], p))
    requires !(s.procs[p].pc == Enter && s.procs[p].state == Running && s.procs[p].lock == Free)
    ensures var t := Do(s, Next(s.procs[p], p));
      && |t.procs| == |s.procs| && Far(t.procs[p]) < Far(s.procs[p]) && t.spin == s.spin && t.locked == s.locked
      && StageOf(t.procs[p].pc) == Trying
  {
  }

  /** Whenever the lock and lk->lk are free, whoever is in acquiresleep can get the lock, by steps of its
      own and of the scheduler on it. */
  lemma {:induction false} CanHaveIt(s: State, p: nat) returns (run: seq<Action>, t: State)
    requires Inv(s) && Locks(s) && p < |s.procs| && s.spin.None? && !s.locked && StageOf(s.procs[p].pc) == Trying
    ensures Reaches(s, run, t) && p < |t.procs| && t.procs[p].pc == Crit && (forall a <- run :: a.p == p)
    decreases Far(s.procs[p])
  {
    hide Inv, LockOk, Reaches;
    TryingOutside(s, p);
    var x := s.procs[p];
    if x.pc == Enter && x.state == Running && x.lock == Free {
      run, t := TakesIt(s, p);
    } else {
      var a := Next(x, p);
      var u := Do(s, a);
      NextNearer(s, p);
      StepKeepsInv(s, a);
      forall q | 0 <= q < |u.procs| ensures LockOk(u, q) { LockStep(s, a, q); }
      hide Enabled, Do;
      run, t := CanHaveIt(u, p);
      Reaches1(s, a, run, t);
      run := [a] + run;
    }
  }

  /** So it is in every run from the start. */
  lemma NobodyStuck(s: State, run: seq<Action>, t: State, p: nat) returns (more: seq<Action>, u: State)
    requires Init(s) && Reaches(s, run, t) && p < |t.procs| && t.spin.None? && !t.locked && StageOf(t.procs[p].pc) == Trying
    ensures Reaches(t, more, u) && p < |u.procs| && u.procs[p].pc == Crit && (forall a <- more :: a.p == p)
  {
    RunKeepsLocks(s, run, t);
    more, u := CanHaveIt(t, p);
  }
}
