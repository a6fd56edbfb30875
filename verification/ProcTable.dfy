/** The process table of kernel/proc.c: fork, exit, wait, kill and the scheduler. A step is what a
    process does between two points at which it may have to wait for wait_lock or for the lock of a
    process, so a run is any order of steps whose locks are free. */
module ProcTable {

  import opened Basics

  datatype State = Unused | Used | Sleeping | Runnable | Running | Zombie

  /** locked: the lock of the process is held across a switch to or from its kernel stack; onCpu: a CPU
      is on that stack; waits: it sleeps in wait. */
  datatype Proc = Proc(state: State, pid: nat, parent: Option<nat>, xstate: int,
                       killed: bool, locked: bool, onCpu: bool, waits: bool)

  const FREE: Proc := Proc(Unused, 0, None, 0, false, false, false, false)

  predicate Alive(s: State)
  {
    s == Sleeping || s == Runnable || s == Running
  }

  /** Who holds wait_lock: a process whose scan in wait has come to slot from and has seen children or
      not, or one in exit that has yet to wake the processes in owed. */
  datatype Holder = Nobody | Scanning(p: nat, from: nat, kids: bool) | Exiting(p: nat, owed: set<nat>)

  /** What wait comes to; Blocked is a wait for the lock of the child in that slot. */
  datatype Waited = Reaped(pid: nat, xstate: int) | CannotCopy | Failed | Asleep | Blocked(i: nat)

  /** The table as a value. forking says for a child being made which process makes it. */
  datatype Table = Table(procs: seq<Proc>, nextpid: nat, forking: map<nat, nat>, holder: Holder) {

    ghost predicate PidOk(i: nat)
      requires i < |procs|
    {
      if procs[i].state == Unused then procs[i] == FREE.(killed := procs[i].killed) else 1 <= procs[i].pid < nextpid
    }

    /** A parent is alive and older than its child. */
    ghost predicate ParentOk(i: nat)
      requires i < |procs|
    {
      procs[i].parent.Some? ==>
        && procs[i].parent.value < |procs| && Alive(procs[procs[i].parent.value].state)
        && procs[procs[i].parent.value].pid < procs[i].pid
    }

    /** A child in the making has its maker or nobody for a parent; everybody else but init has one. */
    ghost predicate KinOk(i: nat)
      requires i < |procs|
    {
      && (procs[i].state == Used <==> i in forking)
      && (i in forking ==> forking[i] < |procs| && Alive(procs[forking[i]].state))
      && (i in forking ==> procs[i].parent in {None, Some(forking[i])} && procs[forking[i]].pid < procs[i].pid)
      && ((Alive(procs[i].state) || procs[i].state == Zombie) && i != 0 ==> procs[i].parent.Some?)
    }

    /** The lock of a process covers the switches: a CPU is on its stack only while it runs or its lock
        is held. */
    ghost predicate CpuOk(i: nat)
      requires i < |procs|
    {
      && (procs[i].onCpu ==> procs[i].state == Running || procs[i].locked)
      && (procs[i].state == Running ==> procs[i].onCpu)
      && (procs[i].locked ==> Alive(procs[i].state) || procs[i].state == Zombie)
    }

    ghost predicate Child(i: nat, p: nat)
    {
      i < |procs| && procs[i].parent == Some(p)
    }

    ghost predicate Quiet(j: nat, i: nat)
    {
      Child(j, i) ==> procs[j].state != Zombie
    }

    /** A process sleeps in wait only while none of its children has exited, but for one that the holder
        of wait_lock has yet to wake. */
    ghost predicate WaitOk(i: nat)
      requires i < |procs|
    {
      procs[i].waits ==>
        && procs[i].state == Sleeping
        && ((holder.Exiting? && i in holder.owed) || forall j | 0 <= j < |procs| :: Quiet(j, i))
    }

    /** What the holder of wait_lock has established, and nobody else can undo. */
    ghost predicate HolderOk()
    {
      match holder
      case Nobody => true
      case Scanning(p, from, kids) =>
        && p < |procs| && procs[p].state == Running && !procs[p].locked && p !in forking.Values && from <= |procs|
        && (forall i | 0 <= i < from :: Quiet(i, p))
        && (kids <==> exists i :: 0 <= i < from && Child(i, p))
      case Exiting(p, owed) =>
        && 0 < p < |procs| && procs[p].state == Running && !procs[p].locked && p !in forking.Values
        && (forall i: nat :: !Child(i, p)) && procs[p].parent.Some?
        && owed <= {0, procs[p].parent.value}
        && (procs[p].parent.value < |procs| && procs[p].parent.value !in owed ==> !procs[procs[p].parent.value].waits)
    }

    ghost predicate SlotOk(i: nat)
      requires i < |procs|
    {
      PidOk(i) && ParentOk(i) && KinOk(i) && CpuOk(i) && WaitOk(i)
    }

    ghost predicate Valid()
    {
      && |procs| > 0 && Alive(procs[0].state) && procs[0].pid == 1 && procs[0].parent == None
      && (forall i | 0 <= i < |procs| :: SlotOk(i))
      && (forall i, j | 0 <= i < j < |procs| && procs[i].state != Unused :: procs[i].pid != procs[j].pid)
      && HolderOk()
    }

    /** Where the scan of wait by p has to stop: at a child whose lock is held or that has exited. */
    ghost predicate StopsAt(p: nat, i: nat)
    {
      Child(i, p) && (procs[i].locked || procs[i].state == Zombie)
    }
  }

  /** The parents of i lead to init. */
  ghost predicate FromInit(t: Table, i: nat)
    requires t.Valid() && i < |t.procs|
    decreases t.procs[i].pid
  {
    i == 0 || (t.procs[i].parent.Some? && (assert t.SlotOk(i); FromInit(t, t.procs[i].parent.value)))
  }

  /** The processes form one tree under init, but for children whose fork has not linked them yet. */
  lemma {:induction false} OneTree(t: Table, i: nat)
    requires t.Valid() && i < |t.procs| && t.procs[i].state != Unused
    ensures FromInit(t, i) || (t.procs[i].state == Used && t.procs[i].parent == None)
    decreases t.procs[i].pid
  {
    assert t.SlotOk(i);
    if i != 0 && t.procs[i].parent.Some? { OneTree(t, t.procs[i].parent.value); }
  }

  /** No exit is missed: while nobody holds wait_lock, a process that sleeps in wait has no child that
      has exited. */
  lemma NoExitMissed(t: Table, i: nat, j: nat)
    requires t.Valid() && t.holder == Nobody && i < |t.procs| && t.procs[i].waits && t.Child(j, i)
    ensures t.procs[j].state != Zombie
  {
    assert t.SlotOk(i) && t.Quiet(j, i);
  }

  /** The same parents, and nobody has exited since. */
  lemma SameKin(t: Table, u: Table)
    requires |u.procs| == |t.procs| && forall j | 0 <= j < |t.procs| ::
      u.procs[j].parent == t.procs[j].parent && (u.procs[j].state == Zombie ==> t.procs[j].state == Zombie)
    ensures forall j: nat, k: nat :: (u.Child(j, k) <==> t.Child(j, k)) && (t.Quiet(j, k) ==> u.Quiet(j, k))
  {
  }

  /** What may change about a live process: its run state, killed, its lock and its CPU; but the holder
      of wait_lock runs on. */
  ghost predicate CanBecome(t: Table, i: nat, p: Proc)
  {
    && i < |t.procs| && Alive(t.procs[i].state) && Alive(p.state)
    && p.pid == t.procs[i].pid && p.parent == t.procs[i].parent
    && (p.onCpu ==> p.state == Running || p.locked) && (p.state == Running ==> p.onCpu)
    && (p.waits ==> t.procs[i].waits && p.state == Sleeping)
    && (!t.holder.Nobody? && t.holder.p == i ==> p.state == Running && !p.locked)
  }

  lemma RescheduledSlot(t: Table, i: nat, p: Proc, j: nat)
    requires t.Valid() && CanBecome(t, i, p) && j < |t.procs|
    ensures t.(procs := t.procs[i := p]).SlotOk(j)
  {
    var u := t.(procs := t.procs[i := p]);
    SameKin(t, u);
    assert t.SlotOk(j) && t.SlotOk(i);
    hide Table.Child, Table.Quiet, Table.HolderOk;
  }

  lemma Rescheduled(t: Table, i: nat, p: Proc)
    requires t.Valid() && CanBecome(t, i, p)
    ensures t.(procs := t.procs[i := p]).Valid()
  {
    var u := t.(procs := t.procs[i := p]);
    SameKin(t, u);
    hide Table.Child, Table.Quiet, Table.SlotOk;
    forall j | 0 <= j < |u.procs| ensures u.SlotOk(j) { RescheduledSlot(t, i, p, j); }
  }

  /** What may change about an exited process: its lock and its CPU. */
  lemma Departed(t: Table, i: nat, p: Proc)
    requires t.Valid() && i < |t.procs| && t.procs[i].state == Zombie
    requires p == t.procs[i].(locked := p.locked, onCpu := p.onCpu) && (p.onCpu ==> p.locked)
    ensures t.(procs := t.procs[i := p]).Valid()
  {
    var u := t.(procs := t.procs[i := p]);
    SameKin(t, u);
    hide Table.Child, Table.Quiet;
    forall j | 0 <= j < |u.procs| ensures u.SlotOk(j) {
      assert t.SlotOk(j) && t.SlotOk(i);
    }
  }

  /** What kill does to its victim: it is marked, and if it slept, in wait or elsewhere, it can run; all
      else about it is as before. */
  ghost predicate Struck(p: Proc, q: Proc)
  {
    && q.killed && q.state != Sleeping && !q.waits
    && (if p.state == Sleeping then q.state == Runnable else q.state == p.state)
    && q.pid == p.pid && q.parent == p.parent && q.xstate == p.xstate && q.locked == p.locked && q.onCpu == p.onCpu
  }

  /** kill marks a process, and wakes it if it sleeps. */
  function Killed(p: Proc): Proc
  {
    if p.state == Sleeping then p.(killed := true, state := Runnable, waits := false) else p.(killed := true)
  }

  lemma FreePids(t: Table)
    requires t.Valid()
    ensures forall i | 0 <= i < |t.procs| :: t.procs[i].pid == 0 <==> t.procs[i].state == Unused
  {
    forall i | 0 <= i < |t.procs| ensures t.procs[i].pid == 0 <==> t.procs[i].state == Unused { assert t.SlotOk(i); }
  }

  lemma MarkedSlot(t: Table, i: nat, j: nat)
    requires t.Valid() && i < |t.procs| && !t.procs[i].locked && j < |t.procs|
    ensures t.(procs := t.procs[i := Killed(t.procs[i])]).SlotOk(j)
  {
    SameKin(t, t.(procs := t.procs[i := Killed(t.procs[i])]));
    assert t.SlotOk(j) && t.SlotOk(i);
    hide Table.Child, Table.Quiet, Table.HolderOk;
  }

  lemma Marked(t: Table, i: nat)
    requires t.Valid() && i < |t.procs| && !t.procs[i].locked
    ensures t.(procs := t.procs[i := Killed(t.procs[i])]).Valid()
  {
    var u := t.(procs := t.procs[i := Killed(t.procs[i])]);
    assert t.SlotOk(i);
    SameKin(t, u);
    hide Table.Child, Table.Quiet, Table.SlotOk;
    forall j | 0 <= j < |u.procs| ensures u.SlotOk(j) { MarkedSlot(t, i, j); }
  }

  /** allocproc for process p. */
  ghost function AllocatedIn(t: Table, p: nat, n: nat): Table
    requires n < |t.procs|
  {
    t.(procs := t.procs[n := t.procs[n].(state := Used, pid := t.nextpid)], nextpid := t.nextpid + 1, forking := t.forking[n := p])
  }

  lemma AllocatedSlot(t: Table, p: nat, n: nat, j: nat)
    requires t.Valid() && p < |t.procs| && n < |t.procs| && Alive(t.procs[p].state) && t.procs[n].state == Unused && j < |t.procs|
    ensures AllocatedIn(t, p, n).SlotOk(j)
    ensures forall k | 0 <= k < |t.procs| && k != j && t.procs[j].state != Unused ::
      AllocatedIn(t, p, n).procs[k].pid != t.procs[j].pid
  {
    assert t.SlotOk(p) && t.SlotOk(n) && t.SlotOk(j);
    SameKin(t, AllocatedIn(t, p, n));
    hide Table.Child, Table.Quiet, Table.HolderOk;
    forall k | 0 <= k < |t.procs| && k != j && t.procs[j].state != Unused
      ensures AllocatedIn(t, p, n).procs[k].pid != t.procs[j].pid
    {
      assert t.SlotOk(k);
    }
  }

  lemma Allocated(t: Table, p: nat, n: nat)
    requires t.Valid() && p < |t.procs| && n < |t.procs| && Alive(t.procs[p].state) && t.procs[n].state == Unused
    requires t.holder.Nobody? || t.holder.p != p
    ensures AllocatedIn(t, p, n).Valid()
  {
    var u := AllocatedIn(t, p, n);
    assert t.SlotOk(p) && t.SlotOk(0) && t.SlotOk(n);
    SameKin(t, u);
    hide Table.Child, Table.Quiet, Table.SlotOk;
    assert forall x <- u.forking.Values :: x in t.forking.Values || x == p;
    forall j | 0 <= j < |u.procs| ensures u.SlotOk(j) { AllocatedSlot(t, p, n, j); }
    forall i, j | 0 <= i < j < |u.procs| && u.procs[i].state != Unused ensures u.procs[i].pid != u.procs[j].pid {
      AllocatedSlot(t, p, n, i);
      AllocatedSlot(t, p, n, j);
    }
  }

  /** fork takes its link, with wait_lock: the child gets its parent. */
  lemma Linked(t: Table, p: nat, n: nat)
    requires t.Valid() && t.holder == Nobody && n < |t.procs| && n in t.forking && t.forking[n] == p
    ensures t.(procs := t.procs[n := t.procs[n].(parent := Some(p))]).Valid()
  {
    var u := t.(procs := t.procs[n := t.procs[n].(parent := Some(p))]);
    assert t.SlotOk(n);
    forall j: nat, k: nat | t.Quiet(j, k) ensures u.Quiet(j, k) { }
    hide Table.Child, Table.Quiet;
    forall j | 0 <= j < |u.procs| ensures u.SlotOk(j) {
      assert t.SlotOk(j);
    }
  }

  /** The last step of fork. */
  lemma Started(t: Table, n: nat)
    requires t.Valid() && n < |t.procs| && n in t.forking && t.procs[n].parent.Some?
    ensures t.(procs := t.procs[n := t.procs[n].(state := Runnable)], forking := t.forking - {n}).Valid()
  {
    var u := t.(procs := t.procs[n := t.procs[n].(state := Runnable)], forking := t.forking - {n});
    assert t.SlotOk(n);
    SameKin(t, u);
    hide Table.Child, Table.Quiet;
    assert forall x <- u.forking.Values :: x in t.forking.Values;
    forall j | 0 <= j < |u.procs| ensures u.SlotOk(j) {
      assert t.SlotOk(j);
    }
  }

  /** freeproc: nobody's parent is a process that is not alive, so none is left dangling. The holder of
      wait_lock is given it back. */
  lemma Freed(t: Table, n: nat)
    requires t.Valid() && n < |t.procs|
    requires (t.procs[n].state == Used && t.procs[n].parent == None)
          || (t.procs[n].state == Zombie && !t.procs[n].locked && t.holder.Nobody?)
    ensures t.(procs := t.procs[n := FREE], forking := t.forking - {n}).Valid()
  {
    var u := t.(procs := t.procs[n := FREE], forking := t.forking - {n});
    assert t.SlotOk(n);
    forall j: nat, k: nat ensures (u.Child(j, k) <==> t.Child(j, k) && j != n) && (t.Quiet(j, k) ==> u.Quiet(j, k)) { }
    assert t.holder.Scanning? && t.procs[n].state == Used ==> !t.Child(n, t.holder.p);
    hide Table.Child, Table.Quiet;
    assert forall x <- u.forking.Values :: x in t.forking.Values;
    forall j | 0 <= j < |u.procs| ensures u.SlotOk(j) {
      assert t.SlotOk(j);
    }
    forall i, j | 0 <= i < j < |u.procs| && u.procs[i].state != Unused ensures u.procs[i].pid != u.procs[j].pid {
      assert t.SlotOk(i);
    }
  }

  /** The table with the children of p given to init. */
  function Orphaned(procs: seq<Proc>, p: nat): (r: seq<Proc>)
    ensures |r| == |procs|
  {
    seq(|procs|, i requires 0 <= i < |procs| => if procs[i].parent == Some(p) then procs[i].(parent := Some(0)) else procs[i])
  }

  /** The children of p have init for a parent, and nothing else differs. */
  ghost predicate Adopted(procs: seq<Proc>, procs': seq<Proc>, p: nat)
  {
    |procs'| == |procs| && forall i | 0 <= i < |procs| ::
      && procs'[i].parent == (if procs[i].parent == Some(p) then Some(0) else procs[i].parent)
      && procs'[i] == procs[i].(parent := procs'[i].parent)
  }

  /** Whom exit has to wake: its parent, and init if that has got children. */
  ghost function Owed(procs: seq<Proc>, p: nat): set<nat>
    requires p < |procs| && procs[p].parent.Some?
  {
    {procs[p].parent.value} + if exists i :: 0 <= i < |procs| && procs[i].parent == Some(p) then {0} else {}
  }

  lemma OrphanedKin(t: Table, u: Table, p: nat)
    requires u.procs == Orphaned(t.procs, p) && p != 0
    ensures forall j: nat, k: nat :: u.Child(j, k) <==> if k == 0 then t.Child(j, 0) || t.Child(j, p) else k != p && t.Child(j, k)
    ensures forall j: nat, k: nat | k != 0 && t.Quiet(j, k) :: u.Quiet(j, k)
    ensures forall j: nat | t.Quiet(j, 0) && !t.Child(j, p) :: u.Quiet(j, 0)
  {
  }

  ghost function BegunIn(t: Table, p: nat): Table
    requires p < |t.procs| && t.procs[p].parent.Some?
  {
    t.(procs := Orphaned(t.procs, p), holder := Exiting(p, Owed(t.procs, p)))
  }

  ghost predicate CanExit(t: Table, p: nat)
  {
    && t.holder == Nobody && 0 < p < |t.procs| && t.procs[p].state == Running && !t.procs[p].locked && p !in t.forking.Values
    && t.procs[p].parent.Some?
  }

  lemma OwedInit(t: Table, p: nat)
    requires p < |t.procs| && t.procs[p].parent.Some?
    ensures (forall k: nat :: !t.Child(k, p)) || 0 in Owed(t.procs, p)
  {
    assert forall k: nat | t.Child(k, p) :: 0 <= k < |t.procs| && t.procs[k].parent == Some(p);
  }

  lemma ExitBegunSlot(t: Table, p: nat, j: nat)
    requires t.Valid() && CanExit(t, p) && j < |t.procs|
    ensures BegunIn(t, p).SlotOk(j)
  {
    assert t.SlotOk(p) && t.SlotOk(0) && t.SlotOk(j);
    var u := BegunIn(t, p);
    OrphanedKin(t, u, p);
    OwedInit(t, p);
    hide Table.Child, Table.Quiet, Owed, Table.HolderOk;
    assert j in t.forking ==> t.forking[j] in t.forking.Values;
    assert j > 0 && t.procs[j].state != Unused ==> t.procs[0].pid != t.procs[j].pid;
  }

  /** exit takes wait_lock and gives its children to init. */
  lemma ExitBegun(t: Table, p: nat)
    requires t.Valid() && CanExit(t, p)
    ensures BegunIn(t, p).Valid()
  {
    assert t.SlotOk(p) && t.SlotOk(0);
    var u := BegunIn(t, p);
    OrphanedKin(t, u, p);
    hide Table.Child, Table.Quiet, Table.SlotOk;
    forall j | 0 <= j < |u.procs| ensures u.SlotOk(j) { ExitBegunSlot(t, p, j); }
  }

  /** A process that sleeps in wait becomes runnable. */
  function Woken(p: Proc): Proc
  {
    if p.waits then p.(state := Runnable, waits := false) else p
  }

  ghost function WokenIn(t: Table, i: nat): Table
    requires t.holder.Exiting? && i < |t.procs|
  {
    t.(procs := t.procs[i := Woken(t.procs[i])], holder := Exiting(t.holder.p, t.holder.owed - {i}))
  }

  lemma ExitWokenSlot(t: Table, i: nat, j: nat)
    requires t.Valid() && t.holder.Exiting? && i in t.holder.owed && i < |t.procs| && !t.procs[i].locked && j < |t.procs|
    ensures WokenIn(t, i).SlotOk(j)
  {
    assert t.SlotOk(i) && t.SlotOk(j);
    SameKin(t, WokenIn(t, i));
    hide Table.Child, Table.Quiet, Table.HolderOk;
  }

  /** wakeup in exit. */
  lemma ExitWoken(t: Table, i: nat)
    requires t.Valid() && t.holder.Exiting? && i in t.holder.owed && i < |t.procs| && !t.procs[i].locked
    ensures WokenIn(t, i).Valid()
  {
    var u := WokenIn(t, i);
    assert t.SlotOk(i);
    SameKin(t, u);
    hide Table.Child, Table.Quiet, Table.SlotOk;
    forall j | 0 <= j < |u.procs| ensures u.SlotOk(j) { ExitWokenSlot(t, i, j); }
  }

  /** The end of exit: the process is a zombie, still on its CPU and with its lock. */
  lemma ExitEnded(t: Table, status: int)
    requires t.Valid() && t.holder.Exiting? && t.holder.owed == {}
    ensures var p := t.holder.p;
      p < |t.procs|
      && t.(procs := t.procs[p := t.procs[p].(state := Zombie, xstate := status, locked := true)], holder := Nobody).Valid()
  {
    var p := t.holder.p;
    var u := t.(procs := t.procs[p := t.procs[p].(state := Zombie, xstate := status, locked := true)], holder := Nobody);
    assert t.SlotOk(p) && !t.procs[t.procs[p].parent.value].waits;
    forall j: nat, k: nat
      ensures (u.Child(j, k) <==> t.Child(j, k)) && (t.Quiet(j, k) && Some(k) != t.procs[p].parent ==> u.Quiet(j, k))
    {
    }
    assert forall j: nat :: !t.Child(j, p);
    forall j | 0 <= j < |u.procs| ensures u.procs[j].parent != Some(p) { assert !t.Child(j, p); }
    hide Table.Child, Table.Quiet;
    forall j | 0 <= j < |u.procs| ensures u.SlotOk(j) {
      assert t.SlotOk(j);
      assert j in t.forking ==> t.forking[j] in t.forking.Values;
    }
  }

  /** The scan of wait gets to a slot. */
  lemma ScannedTo(t: Table, p: nat, from: nat, kids: bool)
    requires t.Valid() && (t.holder == Nobody || (t.holder.Scanning? && t.holder.p == p))
    requires p < |t.procs| && t.procs[p].state == Running && !t.procs[p].locked && p !in t.forking.Values && from <= |t.procs|
    requires (forall i | 0 <= i < from :: t.Quiet(i, p)) && (kids <==> exists i :: 0 <= i < from && t.Child(i, p))
    ensures t.(holder := Scanning(p, from, kids)).Valid() && t.(holder := Nobody).Valid()
  {
    var u, v := t.(holder := Scanning(p, from, kids)), t.(holder := Nobody);
    forall j: nat, k: nat ensures (u.Child(j, k) <==> t.Child(j, k)) && (u.Quiet(j, k) <==> t.Quiet(j, k)) { }
    forall j: nat, k: nat ensures v.Quiet(j, k) <==> t.Quiet(j, k) { }
    hide Table.Child, Table.Quiet;
    forall j | 0 <= j < |t.procs| ensures u.SlotOk(j) && v.SlotOk(j) {
      assert t.SlotOk(j);
    }
  }

  /** wait goes to sleep when none of its children has exited. */
  lemma WaitSlept(t: Table, p: nat)
    requires t.Valid() && t.holder == Nobody && p < |t.procs| && t.procs[p].state == Running && !t.procs[p].locked
    requires forall i | 0 <= i < |t.procs| :: t.Quiet(i, p)
    ensures t.(procs := t.procs[p := t.procs[p].(state := Sleeping, waits := true, locked := true)]).Valid()
  {
    var u := t.(procs := t.procs[p := t.procs[p].(state := Sleeping, waits := true, locked := true)]);
    SameKin(t, u);
    hide Table.Child, Table.Quiet;
    forall j | 0 <= j < |u.procs| ensures u.SlotOk(j) {
      assert t.SlotOk(j) && t.SlotOk(p);
    }
  }

  /** No process has two exits to be collected, and no pid comes back. */
  ghost predicate HistoryOk(procs: seq<Proc>, nextpid: nat, exited: set<nat>, reaped: seq<nat>)
  {
    && (forall k | 0 <= k < |reaped| :: reaped[k] < nextpid && reaped[k] in exited)
    && (forall j, k | 0 <= j < k < |reaped| :: reaped[j] != reaped[k])
    && (forall i | 0 <= i < |procs| && procs[i].state != Unused :: procs[i].pid !in reaped)
    && (forall i | 0 <= i < |procs| && procs[i].state != Unused :: procs[i].state == Zombie <==> procs[i].pid in exited)
    && (forall pid <- exited :: pid < nextpid)
  }

  /** Steps that change nobody's pid, and nobody's having exited, keep the history. */
  lemma SameHistory(procs: seq<Proc>, procs': seq<Proc>, nextpid: nat, exited: set<nat>, reaped: seq<nat>)
    requires HistoryOk(procs, nextpid, exited, reaped) && |procs'| == |procs|
    requires forall i | 0 <= i < |procs| ::
      && procs'[i].pid == procs[i].pid && (procs'[i].state == Unused <==> procs[i].state == Unused)
      && (procs'[i].state == Zombie <==> procs[i].state == Zombie)
    ensures HistoryOk(procs', nextpid, exited, reaped)
  {
  }

  lemma ExitHistory(t: Table, exited: set<nat>, reaped: seq<nat>, p: nat, q: Proc)
    requires t.Valid() && HistoryOk(t.procs, t.nextpid, exited, reaped) && p < |t.procs| && t.procs[p].state == Running
    requires q.state == Zombie && q.pid == t.procs[p].pid
    ensures HistoryOk(t.procs[p := q], t.nextpid, exited + {q.pid}, reaped) && q.pid !in exited
  {
    assert t.SlotOk(p);
    forall i | 0 <= i < |t.procs| && i != p && t.procs[i].state != Unused ensures t.procs[i].pid != q.pid {
    }
  }

  lemma ReapHistory(t: Table, exited: set<nat>, reaped: seq<nat>, n: nat)
    requires t.Valid() && HistoryOk(t.procs, t.nextpid, exited, reaped) && n < |t.procs| && t.procs[n].state == Zombie
    ensures HistoryOk(t.procs[n := FREE], t.nextpid, exited, reaped + [t.procs[n].pid]) && t.procs[n].pid !in reaped
  {
  }

  /** What steps of other processes may do between two moments: a slot keeps its pid, is freed, or gets a
      pid that nobody had before. */
  ghost predicate Evolves(t: Table, u: Table)
  {
    && |u.procs| == |t.procs| && t.nextpid <= u.nextpid
    && forall i | 0 <= i < |t.procs| ::
         u.procs[i].pid == t.procs[i].pid || u.procs[i].pid == 0 || t.nextpid <= u.procs[i].pid < u.nextpid
  }

  lemma EvolvesOn(t: Table, u: Table, w: Table)
    requires Evolves(t, u) && Evolves(u, w)
    ensures Evolves(t, w)
  {
  }

  class Kernel {
    var procs: seq<Proc>
    var nextpid: nat
    var holder: Holder
    ghost var forking: map<nat, nat>
    /** The pids that have called exit, and those that wait has returned, in order. */
    ghost var exited: set<nat>
    ghost var reaped: seq<nat>

    ghost function Now(): Table
      reads this
    {
      Table(procs, nextpid, forking, holder)
    }

    ghost predicate Valid()
      reads this
    {
      Now().Valid() && HistoryOk(procs, nextpid, exited, reaped)
    }

    /** Process p runs kernel code, and is neither in fork nor in a part of wait or exit. */
    ghost predicate Runs(p: nat)
      reads this
    {
      p < |procs| && procs[p].state == Running && !procs[p].locked && p !in forking.Values && (holder.Nobody? || holder.p != p)
    }

    /** userinit */
    constructor (nproc: nat)
      requires nproc > 0
      ensures Valid() && |procs| == nproc && reaped == [] && exited == {} && holder == Nobody && nextpid == 2 && forking == map[]
      ensures procs[0] == FREE.(state := Runnable, pid := 1) && forall i | 1 <= i < nproc :: procs[i] == FREE
    {
      procs := seq(nproc, i => if i == 0 then FREE.(state := Runnable, pid := 1) else FREE);
      nextpid, forking, exited, reaped, holder := 2, map[], {}, [], Nobody;
    }

    /** allocproc, called by process p in fork: the first free slot, and a pid never used before. */
    method Allocproc(p: nat) returns (r: Option<nat>)
      requires Valid() && Runs(p)
      modifies this`procs, this`nextpid, this`forking
      ensures Evolves(old(Now()), Now())
      ensures Valid() && |procs| == |old(procs)|
      ensures r.None? <==> forall i | 0 <= i < |old(procs)| :: old(procs)[i].state != Unused
      ensures r.None? ==> procs == old(procs) && nextpid == old(nextpid) && forking == old(forking)
      ensures r.Some? ==> r.value < |procs| && old(procs)[r.value].state == Unused
      ensures r.Some? ==> forall i | 0 <= i < r.value :: old(procs)[i].state != Unused
      ensures r.Some? ==> procs == old(procs)[r.value := old(procs)[r.value].(state := Used, pid := old(nextpid))]
      ensures r.Some? ==> nextpid == old(nextpid) + 1 && forking == old(forking)[r.value := p]
    {
      hide Table.SlotOk, Table.HolderOk;
      var n := 0;
      while n < |procs| && procs[n].state != Unused
        invariant n <= |procs| && forall i | 0 <= i < n :: procs[i].state != Unused
      {
        n := n + 1;
      }
      if n == |procs| {
        return None;
      }
      Allocated(Now(), p, n);
      procs := procs[n := procs[n].(state := Used, pid := nextpid)];
      nextpid := nextpid + 1;
      forking := forking[n := p];
      return Some(n);
    }

    /** fork gives up: freeproc of the child. */
    method ForkAbort(n: nat)
      requires Valid() && n < |procs| && n in forking && procs[n].parent == None
      modifies this`procs, this`forking
      ensures Evolves(old(Now()), Now())
      ensures Valid() && procs == old(procs)[n := FREE] && forking == old(forking) - {n}
    {
      assert Now().SlotOk(n);
      hide Table.SlotOk, Table.HolderOk;
      Freed(Now(), n);
      procs, forking := procs[n := FREE], forking - {n};
    }

    /** fork under wait_lock. */
    method ForkLink(p: nat, n: nat)
      requires Valid() && holder == Nobody && n < |procs| && n in forking && forking[n] == p
      modifies this`procs
      ensures Evolves(old(Now()), Now())
      ensures Valid() && procs == old(procs)[n := old(procs)[n].(parent := Some(p))]
    {
      assert Now().SlotOk(n);
      hide Table.SlotOk, Table.HolderOk;
      Linked(Now(), p, n);
      procs := procs[n := procs[n].(parent := Some(p))];
    }

    /** The end of fork. */
    method ForkStart(n: nat)
      requires Valid() && n < |procs| && n in forking && procs[n].parent.Some?
      modifies this`procs, this`forking
      ensures Evolves(old(Now()), Now())
      ensures Valid() && procs == old(procs)[n := old(procs)[n].(state := Runnable)] && forking == old(forking) - {n}
    {
      assert Now().SlotOk(n);
      hide Table.SlotOk, Table.HolderOk;
      Started(Now(), n);
      procs, forking := procs[n := procs[n].(state := Runnable)], forking - {n};
    }

    /** reparent */
    method Reparent(p: nat)
      modifies this`procs
      ensures procs == Orphaned(old(procs), p) && Adopted(old(procs), procs, p)
    {
      var i := 0;
      while i < |procs|
        invariant i <= |procs| == |old(procs)|
        invariant forall j | 0 <= j < |procs| :: procs[j] == if j < i then Orphaned(old(procs), p)[j] else old(procs)[j]
      {
        if procs[i].parent == Some(p) {
          procs := procs[i := procs[i].(parent := Some(0))];
        }
        i := i + 1;
      }
    }

    /** exit takes wait_lock and gives the children to init; only init must not exit. */
    method ExitBegin(p: nat)
      requires Valid() && holder == Nobody && Runs(p) && p > 0
      modifies this`procs, this`holder
      ensures Evolves(old(Now()), Now())
      ensures Valid() && procs == Orphaned(old(procs), p) && old(procs)[p].parent.Some?
      ensures Adopted(old(procs), procs, p)
      ensures holder == Exiting(p, Owed(old(procs), p))
    {
      assert Now().SlotOk(p);
      ExitBegun(Now(), p);
      SameHistory(procs, Orphaned(procs, p), nextpid, exited, reaped);
      hide Table.SlotOk, Table.HolderOk, HistoryOk;
      ghost var owed := Owed(procs, p);
      var kids := exists i :: 0 <= i < |procs| && procs[i].parent == Some(p);
      var up := procs[p].parent.value;
      Reparent(p);
      holder := Exiting(p, {up} + if kids then {0} else {});
    }

    /** wakeup in exit, once the lock of the sleeper is free. */
    method ExitWake(i: nat)
      requires Valid() && holder.Exiting? && i in holder.owed && i < |procs| && !procs[i].locked
      modifies this`procs, this`holder
      ensures Evolves(old(Now()), Now())
      ensures Valid() && procs == old(procs)[i := procs[i]] && !procs[i].waits
      ensures procs[i] == if old(procs)[i].waits then old(procs)[i].(waits := false, state := Runnable) else old(procs)[i]
      ensures holder == Exiting(old(holder).p, old(holder).owed - {i})
    {
      assert Now().SlotOk(i);
      hide Table.SlotOk, Table.HolderOk, HistoryOk;
      ExitWoken(Now(), i);
      SameHistory(procs, procs[i := Woken(procs[i])], nextpid, exited, reaped);
      procs := procs[i := Woken(procs[i])];
      holder := Exiting(holder.p, holder.owed - {i});
    }

    /** The rest of exit up to the release of wait_lock: the process is a zombie, on its CPU still. */
    method ExitEnd(status: int) returns (p: nat)
      requires Valid() && holder.Exiting? && holder.owed == {}
      modifies this`procs, this`holder, this`exited
      ensures Evolves(old(Now()), Now())
      ensures Valid() && p == old(holder).p < |procs| && holder == Nobody
      ensures procs == old(procs)[p := old(procs)[p].(state := Zombie, xstate := status, locked := true)] && procs[p].onCpu
      ensures exited == old(exited) + {procs[p].pid} && procs[p].pid !in old(exited)
    {
      p := holder.p;
      ghost var t := Now();
      assert t.SlotOk(p);
      ExitEnded(t, status);
      ExitHistory(t, exited, reaped, p, procs[p].(state := Zombie, xstate := status, locked := true));
      hide Table.SlotOk, Table.HolderOk, HistoryOk;
      procs := procs[p := procs[p].(state := Zombie, xstate := status, locked := true)];
      exited := exited + {procs[p].pid};
      holder := Nobody;
    }

    /** The scan of wait from slot from on: to the first child whose lock is held or that has exited. */
    method Scan(p: nat, from: nat, kids: bool) returns (np: nat, havekids: bool)
      requires from <= |procs|
      ensures from <= np <= |procs| && (np < |procs| ==> Now().StopsAt(p, np))
      ensures forall i | from <= i < np :: !Now().StopsAt(p, i)
      ensures havekids <==> kids || exists i :: from <= i < np && Now().Child(i, p)
    {
      np, havekids := from, kids;
      while np < |procs|
        invariant from <= np <= |procs|
        invariant forall i | from <= i < np :: !Now().StopsAt(p, i)
        invariant havekids <==> kids || exists i :: from <= i < np && Now().Child(i, p)
      {
        if procs[np].parent == Some(p) {
          if procs[np].locked || procs[np].state == Zombie {
            return;
          }
          assert Now().Child(np, p);
          havekids := true;
        }
        np := np + 1;
      }
    }

    /** Where a wait by p that holds wait_lock, or is about to take it, goes on with its scan. */
    ghost function From(): nat
      reads this
    {
      if holder.Scanning? then holder.from else 0
    }

    /** No child from the slot of the scan on has exited or is locked. */
    ghost predicate NoStop(p: nat)
      reads this
    {
      forall i | From() <= i < |procs| :: !Now().StopsAt(p, i)
    }

    /** wait by p, from its taking wait_lock, or from a wait for the lock of a child, to a return, to the
        sleep or to the next child whose lock is held. A child is reaped once, and because its lock was
        free no CPU is on its stack. */
    method Wait(p: nat, copyFails: bool) returns (r: Waited, ghost n: nat)
      requires Valid() && p < |procs| && procs[p].state == Running && !procs[p].locked && p !in forking.Values
      requires holder == Nobody || (holder.Scanning? && holder.p == p)
      modifies this`procs, this`reaped, this`holder
      ensures Evolves(old(Now()), Now())
      ensures Valid() && |procs| == |old(procs)| && forking == old(forking)
      ensures r.Failed? || r.Asleep? <==> old(NoStop(p))
      ensures !old(NoStop(p)) ==>
        && old(From()) <= n < |procs| && old(Now()).StopsAt(p, n)
        && forall i | old(From()) <= i < n :: !old(Now()).StopsAt(p, i)
      ensures r.Blocked? ==>
        r.i == n && old(procs)[n].locked && procs == old(procs) && reaped == old(reaped)
        && holder.Scanning? && holder.p == p && holder.from == n
      ensures r.CannotCopy? ==> copyFails && !old(procs)[n].locked && procs == old(procs) && reaped == old(reaped)
      ensures r.Reaped? ==>
        && !copyFails && old(procs)[n].state == Zombie && !old(procs)[n].locked && !old(procs)[n].onCpu
        && r == Reaped(old(procs)[n].pid, old(procs)[n].xstate) && r.pid !in old(reaped)
        && procs == old(procs)[n := FREE] && reaped == old(reaped) + [r.pid]
      ensures r.Failed? || r.Asleep? ==> forall i | 0 <= i < |procs| :: old(Now()).Quiet(i, p)
      ensures r.Failed? <==> old(NoStop(p)) && (old(procs)[p].killed || forall i | 0 <= i < |procs| :: !old(Now()).Child(i, p))
      ensures r.Failed? ==> procs == old(procs) && reaped == old(reaped)
      ensures r.Asleep? ==>
        procs == old(procs)[p := old(procs)[p].(state := Sleeping, waits := true, locked := true)] && reaped == old(reaped)
      ensures r.Blocked? || holder == Nobody
    {
      hide Table.SlotOk, HistoryOk, Table.HolderOk, Table.Child, Table.Quiet, Table.StopsAt;
      var np, havekids := ScanOn(p);
      n := np;
      if np < |procs| {
        if procs[np].locked {
          holder := Scanning(p, np, havekids);
          return Blocked(np), np;
        }
        holder := Nobody;
        if copyFails {
          return CannotCopy, np;
        }
        r := Reap(np);
        return;
      }
      holder := Nobody;
      if !havekids || procs[p].killed {
        return Failed, np;
      }
      SleepInWait(p);
      return Asleep, np;
    }

    /** The scan from where it stands. */
    method ScanOn(p: nat) returns (np: nat, havekids: bool)
      requires Valid() && p < |procs| && procs[p].state == Running && !procs[p].locked && p !in forking.Values
      requires holder == Nobody || (holder.Scanning? && holder.p == p)
      ensures From() <= np <= |procs| && (np < |procs| ==> Now().StopsAt(p, np) && (procs[np].locked || procs[np].state == Zombie))
      ensures forall i | From() <= i < np :: !Now().StopsAt(p, i)
      ensures np == |procs| ==> (havekids <==> exists i :: 0 <= i < |procs| && Now().Child(i, p))
      ensures forall i | 0 <= i < np :: Now().Quiet(i, p)
      ensures Now().(holder := Scanning(p, np, havekids)).Valid() && Now().(holder := Nobody).Valid()
      ensures forall i | 0 <= i < np :: Now().(holder := Nobody).Quiet(i, p)
    {
      hide Table.SlotOk, HistoryOk;
      np, havekids := Scan(p, if holder.Scanning? then holder.from else 0, if holder.Scanning? then holder.kids else false);
      ScanFacts(Now(), p, From(), np, havekids);
      ScannedTo(Now(), p, np, havekids);
      forall i | 0 <= i < np ensures Now().(holder := Nobody).Quiet(i, p) { assert Now().Quiet(i, p); }
    }

    method SleepInWait(p: nat)
      requires Valid() && holder == Nobody && p < |procs| && procs[p].state == Running && !procs[p].locked
      requires forall i | 0 <= i < |procs| :: Now().Quiet(i, p)
      modifies this`procs
      ensures Evolves(old(Now()), Now())
      ensures Valid() && procs == old(procs)[p := old(procs)[p].(state := Sleeping, waits := true, locked := true)]
    {
      hide Table.SlotOk, HistoryOk, Table.HolderOk, Table.Quiet;
      WaitSlept(Now(), p);
      SameHistory(procs, procs[p := procs[p].(state := Sleeping, waits := true, locked := true)], nextpid, exited, reaped);
      procs := procs[p := procs[p].(state := Sleeping, waits := true, locked := true)];
    }

    /** freeproc in wait. */
    method Reap(np: nat) returns (r: Waited)
      requires Valid() && holder == Nobody && np < |procs| && procs[np].state == Zombie && !procs[np].locked
      modifies this`procs, this`reaped
      ensures Evolves(old(Now()), Now())
      ensures Valid() && r == Reaped(old(procs)[np].pid, old(procs)[np].xstate) && !old(procs)[np].onCpu
      ensures procs == old(procs)[np := FREE] && reaped == old(reaped) + [r.pid] && r.pid !in old(reaped)
    {
      ghost var t := Now();
      assert t.SlotOk(np);
      r := Reaped(procs[np].pid, procs[np].xstate);
      Freed(t, np);
      ReapHistory(t, exited, reaped, np);
      hide Table.SlotOk, Table.HolderOk, HistoryOk;
      reaped := reaped + [r.pid];
      assert forking - {np} == forking;
      procs := procs[np := FREE];
    }

    /** A step that changes the run state of one live process, its lock or its CPU. */
    method Update(i: nat, q: Proc)
      requires Valid() && CanBecome(Now(), i, q)
      modifies this`procs
      ensures Evolves(old(Now()), Now())
      ensures Valid() && procs == old(procs)[i := q]
    {
      hide Table.SlotOk, Table.HolderOk, HistoryOk;
      Rescheduled(Now(), i, q);
      SameHistory(procs, procs[i := q], nextpid, exited, reaped);
      procs := procs[i := q];
    }

    /** sleep and yield up to swtch: the process has its lock and its new state, and is on its stack. */
    method Sched(p: nat, to: State)
      requires Valid() && p < |procs| && procs[p].state == Running && !procs[p].locked && (holder.Nobody? || holder.p != p)
      requires to == Sleeping || to == Runnable
      modifies this`procs
      ensures Evolves(old(Now()), Now())
      ensures Valid() && procs == old(procs)[p := old(procs)[p].(state := to, locked := true)] && procs[p].onCpu
    {
      assert Now().SlotOk(p);
      Update(p, procs[p].(state := to, locked := true));
    }

    /** swtch to the scheduler, after sleep, yield or exit. */
    method Switch(p: nat)
      requires Valid() && p < |procs| && procs[p].locked && procs[p].onCpu && procs[p].state != Running
      modifies this`procs
      ensures Evolves(old(Now()), Now())
      ensures Valid() && procs == old(procs)[p := old(procs)[p].(onCpu := false)]
    {
      ghost var t := Now();
      assert t.SlotOk(p);
      if procs[p].state == Zombie {
        Departed(t, p, procs[p].(onCpu := false));
        SameHistory(procs, procs[p := procs[p].(onCpu := false)], nextpid, exited, reaped);
        procs := procs[p := procs[p].(onCpu := false)];
      } else {
        Update(p, procs[p].(onCpu := false));
      }
    }

    /** The release of the lock after a switch: by the scheduler when the process has left its stack, or
        by the process when the scheduler has switched to it. */
    method Release(p: nat)
      requires Valid() && p < |procs| && procs[p].locked && (procs[p].onCpu <==> procs[p].state == Running)
      modifies this`procs
      ensures Evolves(old(Now()), Now())
      ensures Valid() && procs == old(procs)[p := old(procs)[p].(locked := false)]
    {
      ghost var t := Now();
      assert t.SlotOk(p);
      if procs[p].state == Zombie {
        Departed(t, p, procs[p].(locked := false));
        SameHistory(procs, procs[p := procs[p].(locked := false)], nextpid, exited, reaped);
        procs := procs[p := procs[p].(locked := false)];
      } else {
        Update(p, procs[p].(locked := false));
      }
    }

    /** The scheduler takes the lock of a runnable process and switches to it. No other CPU is on its
        stack. */
    method Dispatch(p: nat)
      requires Valid() && p < |procs| && procs[p].state == Runnable && !procs[p].locked
      modifies this`procs
      ensures Evolves(old(Now()), Now())
      ensures Valid() && procs == old(procs)[p := old(procs)[p].(state := Running, locked := true, onCpu := true)]
      ensures !old(procs)[p].onCpu
    {
      assert Now().SlotOk(p);
      Update(p, procs[p].(state := Running, locked := true, onCpu := true));
    }

    /** No free slot is marked as killed, so that no process is born killed. */
    ghost predicate BornAlive()
      reads this
    {
      forall i | 0 <= i < |procs| && procs[i].state == Unused :: !procs[i].killed
    }

    /** kill, once the lock of the process is free. A free slot has pid 0, so kill(0) marks the first free
        slot, and allocproc leaves the mark. */
    method Kill(pid: int) returns (r: int, ghost n: nat)
      requires Valid() && forall i | 0 <= i < |procs| && procs[i].pid == pid :: !procs[i].locked
      modifies this`procs
      ensures Evolves(old(Now()), Now())
      ensures Valid() && |procs| == |old(procs)| && r in {0, -1}
      ensures r == -1 <==> forall i | 0 <= i < |procs| :: old(procs)[i].pid != pid
      ensures r == -1 ==> procs == old(procs)
      ensures r == 0 ==>
        && n < |procs| && old(procs)[n].pid == pid && (forall i | 0 <= i < n :: old(procs)[i].pid != pid)
        && procs == old(procs)[n := procs[n]] && Struck(old(procs)[n], procs[n])
      ensures old(BornAlive()) ==> (BornAlive() <==> pid != 0 || forall i | 0 <= i < |procs| :: old(procs)[i].state != Unused)
    {
      hide Table.HolderOk;
      var i := 0;
      while i < |procs| && procs[i].pid != pid
        invariant i <= |procs| && forall j | 0 <= j < i :: procs[j].pid != pid
      {
        i := i + 1;
      }
      n := i;
      FreePids(Now());
      if i == |procs| {
        return -1, n;
      }
      assert Now().SlotOk(i);
      Marked(Now(), i);
      SameHistory(procs, procs[i := Killed(procs[i])], nextpid, exited, reaped);
      procs := procs[i := Killed(procs[i])];
      return 0, n;
    }

    /** wakeup of one process on any channel other than that of wait. */
    method Wakeup(p: nat)
      requires Valid() && p < |procs| && procs[p].state == Sleeping && !procs[p].waits && !procs[p].locked
      modifies this`procs
      ensures Evolves(old(Now()), Now())
      ensures Valid() && procs == old(procs)[p := old(procs)[p].(state := Runnable)]
    {
      assert Now().SlotOk(p);
      Update(p, procs[p].(state := Runnable));
    }
  }

  /** kill(0) before a fork: the child is born killed. */
  method BornKilled() returns (k: Kernel, child: nat)
    ensures k.Valid() && child < |k.procs| && k.procs[child].state == Used && k.procs[child].killed
  {
    hide Table.Valid, HistoryOk, Evolves;
    k := new Kernel(2);
    ghost var n;
    var r;
    assert k.procs[1].pid == 0 && k.procs[0].pid == 1;
    r, n := k.Kill(0);
    assert n == 1;
    k.Dispatch(0);
    k.Release(0);
    assert k.procs[1].state == Unused;
    var c := k.Allocproc(0);
    child := c.value;
  }

  /** init, and a child it has forked that can run. */
  method Forked() returns (k: Kernel)
    ensures fresh(k) && k.Valid() && |k.procs| == 2 && k.holder == Nobody && k.forking == map[] && k.exited == {} && k.reaped == []
    ensures k.procs[0] == FREE.(state := Running, pid := 1, onCpu := true)
    ensures k.procs[1] == FREE.(state := Runnable, pid := 2, parent := Some(0))
  {
    hide Table.Valid, HistoryOk, Evolves;
    k := new Kernel(2);
    k.Dispatch(0);
    k.Release(0);
    assert k.procs[1].state == Unused;
    var c := k.Allocproc(0);
    k.ForkLink(0, 1);
    k.ForkStart(1);
  }

  /** The child runs to the end of exit, with init asleep in wait. */
  method ChildExits(k: Kernel)
    requires k.Valid() && |k.procs| == 2 && k.holder == Nobody && k.forking == map[]
    requires k.procs[0] == FREE.(state := Sleeping, pid := 1, waits := true)
    requires k.procs[1] == FREE.(state := Runnable, pid := 2, parent := Some(0))
    modifies k
    ensures k.Valid() && k.holder == Nobody && k.forking == map[] && k.reaped == old(k.reaped) && k.exited == old(k.exited) + {2}
    ensures k.procs == [FREE.(state := Runnable, pid := 1),
                        FREE.(state := Zombie, pid := 2, parent := Some(0), xstate := 7, locked := true, onCpu := true)]
  {
    hide Table.Valid, HistoryOk, Evolves;
    k.Dispatch(1);
    k.Release(1);
    k.ExitBegin(1);
    k.ExitWake(0);
    var p := k.ExitEnd(7);
  }

  /** With a child that runs, wait sleeps. */
  method ParentSleeps(k: Kernel)
    requires k.Valid() && |k.procs| == 2 && k.holder == Nobody && k.forking == map[]
    requires k.procs[0] == FREE.(state := Running, pid := 1, onCpu := true)
    requires k.procs[1] == FREE.(state := Runnable, pid := 2, parent := Some(0))
    modifies k`procs, k`reaped, k`holder
    ensures k.Valid() && k.holder == Nobody && k.reaped == old(k.reaped)
    ensures k.procs == [FREE.(state := Sleeping, pid := 1, waits := true), old(k.procs)[1]]
  {
    hide Table.Valid, HistoryOk, Evolves;
    assert k.Now().Child(1, 0) && k.NoStop(0);
    var r;
    ghost var n;
    r, n := k.Wait(0, false);
    k.Switch(0);
    k.Release(0);
  }

  /** A parent sleeps in wait, its child exits, the parent finds it on its CPU still, and reaps it once
      the child has left. */
  method WaitMeetsExit() returns (k: Kernel, blocked: Waited, reaped: Waited)
    ensures blocked == Blocked(1) && reaped == Reaped(2, 7)
    ensures k.Valid() && |k.procs| == 2 && k.procs[1] == FREE && k.exited == {2} && k.reaped == [2] && k.Runs(0)
  {
    hide Table.Valid, HistoryOk, Evolves;
    k := Forked();
    ParentSleeps(k);
    ChildExits(k);
    k.Dispatch(0);
    k.Release(0);
    ghost var n;
    assert k.Now().StopsAt(0, 1) && !k.Now().StopsAt(0, 0);
    blocked, n := k.Wait(0, false);
    k.Switch(1);
    k.Release(1);
    assert k.Now().StopsAt(0, 1) && !k.Now().StopsAt(0, 0);
    reaped, n := k.Wait(0, false);
  }

  /** What the scan of wait has found out. */
  lemma ScanFacts(t: Table, p: nat, from: nat, np: nat, kids: bool)
    requires t.Valid() && from <= np <= |t.procs|
    requires (t.holder == Nobody && from == 0) || (t.holder.Scanning? && t.holder.p == p && t.holder.from == from)
    requires forall i | from <= i < np :: !t.StopsAt(p, i)
    requires kids <==> (t.holder.Scanning? && t.holder.kids) || exists i :: from <= i < np && t.Child(i, p)
    ensures (forall i | 0 <= i < np :: t.Quiet(i, p)) && (kids <==> exists i :: 0 <= i < np && t.Child(i, p))
  {
    forall i | 0 <= i < np ensures t.Quiet(i, p) { assert from <= i ==> !t.StopsAt(p, i); }
  }
}
