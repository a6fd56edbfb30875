/** All processes at once: growproc, fork, exec and the freeproc of wait, called by any of them in any order,
    over the one memory they share. */
module Processes {

  import opened Basics
  import opened ArgStack
  import opened Sv39
  import opened Spaces
  import opened VirtualMemory
  import opened AddressSpace
  import opened ProcMemory
  import opened Exec
  import opened SysExec

  /** What a process has, as a value. */
  datatype Own = Own(space: nat, root: nat, sz: nat, tf: nat)

  ghost predicate Owned(v: Vm, o: Own, tramp: nat)
  {
    v.Counted() && Image(v, o.space, o.root, o.sz, o.tf, tramp) && o.tf in v.uses && v.uses[o.tf] == Held
  }

  /** No page of space s is mapped elsewhere or holds anything else than before. */
  ghost predicate Undisturbed(v: Vm, w: Vm, s: nat)
  {
    && v.Counted() && w.Counted() && |w.mem| == |v.mem|
    && (forall q | 0 <= q :: w.Leaf(s, q) == v.Leaf(s, q))
    && (forall f <- v.uses | v.uses[f].Page? && v.uses[f].space == s ::
          f in w.uses && w.uses[f] == v.uses[f] && f < |v.mem| && w.mem[f] == v.mem[f])
  }

  /** The processes have their own spaces and trapframes, and every page in use is a process's or the
      kernel's. */
  ghost predicate Separate(v: Vm, owns: map<nat, Own>, kernel: set<nat>, tramp: nat, next: nat)
  {
    && v.Counted() && v.Valid() && Tight(v)
    && (forall i <- owns :: Owned(v, owns[i], tramp) && owns[i].space < next && owns[i].tf !in kernel)
    && (forall i, j | i in owns && j in owns && i != j :: owns[i].space != owns[j].space && owns[i].tf != owns[j].tf)
    && (forall f <- kernel :: f in v.uses && v.uses[f] == Held)
    && (forall f <- v.uses :: UsedBy(v.uses[f], f, owns, kernel))
  }

  ghost predicate UsedBy(u: Use, f: nat, owns: map<nat, Own>, kernel: set<nat>)
  {
    if u.Held? then f in kernel || exists i :: i in owns && owns[i].tf == f
    else exists i :: i in owns && Of(u, owns[i].space)
  }

  /** Steps on other spaces and other kernel pages leave a process what it has. */
  lemma OwnedStill(v: Vm, w: Vm, ss: set<nat>, ks: set<nat>, o: Own, tramp: nat)
    requires Beyond(v, w, ss, ks) && Owned(v, o, tramp) && o.space !in ss && o.tf !in ks
    ensures Owned(w, o, tramp) && Undisturbed(v, w, o.space)
  {
    hide Vm.Counted, Vm.Valid, Vm.Leaf, FrameOf, MakePte, Up;
    forall q | 0 <= q < Up(o.sz) ensures BackedAt(w, o.space, q) { assert BackedAt(v, o.space, q); }
  }

  /** A step on the spaces ss and the kernel pages ks, after which owns' is what the processes have. */
  lemma SeparateStill(v: Vm, w: Vm, owns: map<nat, Own>, owns': map<nat, Own>, kernel: set<nat>, tramp: nat, next: nat,
                      next': nat, ss: set<nat>, ks: set<nat>, i: nat)
    requires Separate(v, owns, kernel, tramp, next) && Beyond(v, w, ss, ks) && Tight(w) && next <= next'
    requires forall j <- owns | j != i :: owns[j].space !in ss && owns[j].tf !in ks && j in owns' && owns'[j] == owns[j]
    requires forall j <- owns' | j != i :: j in owns
    requires forall f <- ks :: f !in kernel
    requires i in owns' ==>
      && Owned(w, owns'[i], tramp) && owns'[i].space < next' && owns'[i].tf !in kernel
      && forall j <- owns | j != i :: owns[j].space != owns'[i].space && owns[j].tf != owns'[i].tf
    requires i in owns ==> owns[i].space in ss && (owns[i].tf in ks || (i in owns' && owns'[i].tf == owns[i].tf))
    requires forall f <- w.uses | OfAny(w.uses[f], ss) || f in ks :: UsedBy(w.uses[f], f, owns', kernel)
    ensures Separate(w, owns', kernel, tramp, next')
    ensures forall j <- owns | j != i :: Undisturbed(v, w, owns[j].space)
  {
    hide Vm.Counted, Vm.Valid, Vm.Leaf, Image, Tight, UsedBy;
    forall j <- owns | j != i ensures Owned(w, owns[j], tramp) && Undisturbed(v, w, owns[j].space) {
      OwnedStill(v, w, ss, ks, owns[j], tramp);
    }
    forall f <- w.uses ensures UsedBy(w.uses[f], f, owns', kernel) {
      if !OfAny(w.uses[f], ss) && f !in ks {
        UsedStill(w.uses[f], f, owns, owns', kernel, ss, ks, i);
      }
    }
  }

  lemma UsedStill(u: Use, f: nat, owns: map<nat, Own>, owns': map<nat, Own>, kernel: set<nat>, ss: set<nat>, ks: set<nat>, i: nat)
    requires UsedBy(u, f, owns, kernel) && !OfAny(u, ss) && f !in ks
    requires forall j <- owns | j != i :: j in owns' && owns'[j] == owns[j]
    requires i in owns ==> owns[i].space in ss && (owns[i].tf in ks || (i in owns' && owns'[i].tf == owns[i].tf))
    ensures UsedBy(u, f, owns', kernel)
  {
    if !u.Held? {
      var j :| j in owns && Of(u, owns[j].space);
      assert j != i;
    } else if f !in kernel {
      var j :| j in owns && owns[j].tf == f;
      assert j in owns' && owns'[j].tf == f;
    }
  }

  /** A number that no space has had yet. */
  lemma NextAbsent(v: Vm, owns: map<nat, Own>, kernel: set<nat>, tramp: nat, next: nat, t: nat)
    requires Separate(v, owns, kernel, tramp, next) && next <= t
    ensures Absent(v, t)
  {
    forall f <- v.uses ensures !Of(v.uses[f], t) { assert UsedBy(v.uses[f], f, owns, kernel); }
    NodesUsed(v);
  }

  lemma NodesUsed(v: Vm)
    requires v.Counted()
    ensures forall n <- v.nodes :: v.nodes[n] in v.uses && v.uses[v.nodes[n]] == Table(n)
  {
    forall n <- v.nodes ensures v.nodes[n] in v.uses && v.uses[v.nodes[n]] == Table(n) { assert v.NodeOk(n); }
  }

  /** When no process is left, every page is free but those of the kernel: none has been lost. */
  lemma NothingLost(v: Vm, kernel: set<nat>, tramp: nat, next: nat)
    requires Separate(v, map[], kernel, tramp, next)
    ensures v.uses.Keys == kernel && v.nodes == map[]
    ensures forall f | v.lo <= f < |v.mem| :: f in v.free <==> f !in kernel
  {
    forall f <- v.uses ensures f in kernel { assert UsedBy(v.uses[f], f, map[], kernel); }
    assert v.uses.Keys == kernel;
    NodesUsed(v);
    forall f | v.lo <= f < |v.mem| ensures f in v.free <==> f !in kernel {
      if f in v.free { var k :| 0 <= k < |v.free| && v.free[k] == f; assert v.FreeOk(k); }
    }
  }

  /** A call that failed has left everything as it was. */
  lemma SeparateRestored(v: Vm, w: Vm, owns: map<nat, Own>, kernel: set<nat>, tramp: nat, next: nat)
    requires Separate(v, owns, kernel, tramp, next) && Restored(v, w) && w.Valid() && Tight(w) && w.lo == v.lo
    ensures Separate(w, owns, kernel, tramp, next)
    ensures forall j <- owns :: Undisturbed(v, w, owns[j].space)
  {
    hide Vm.Counted, Vm.Valid, Vm.Leaf, Image, Tight, UsedBy;
    BeyondRestored(v, w);
    forall j <- owns ensures Owned(w, owns[j], tramp) && Undisturbed(v, w, owns[j].space) {
      OwnedStill(v, w, {}, {}, owns[j], tramp);
    }
  }

  /** A process changes its space: grows or shrinks it, or has a new one and lost the old one. */
  lemma ChangedSpace(v: Vm, w: Vm, owns: map<nat, Own>, kernel: set<nat>, tramp: nat, next: nat, i: nat, o: Own)
    requires Separate(v, owns, kernel, tramp, next) && i in owns && Owned(w, o, tramp) && Tight(w) && o.tf == owns[i].tf
    requires o.space == owns[i].space || (o.space == next && Absent(w, owns[i].space))
    requires Beyond(v, w, {owns[i].space, o.space}, {})
    ensures Separate(w, owns[i := o], kernel, tramp, if o.space < next then next else next + 1)
    ensures forall j <- owns | j != i :: Undisturbed(v, w, owns[j].space)
  {
    hide Vm.Counted, Vm.Valid, Vm.Leaf, Image, Tight, Undisturbed;
    var owns', ss := owns[i := o], {owns[i].space, o.space};
    forall f <- w.uses | OfAny(w.uses[f], ss) || f in {} ensures UsedBy(w.uses[f], f, owns', kernel) {
      assert i in owns' && Of(w.uses[f], owns'[i].space);
    }
    hide UsedBy, Beyond, Absent;
    SeparateStill(v, w, owns, owns', kernel, tramp, next, if o.space < next then next else next + 1, ss, {}, i);
  }

  /** A new process. */
  lemma AddedProcess(v: Vm, w: Vm, owns: map<nat, Own>, kernel: set<nat>, tramp: nat, next: nat, i: nat, o: Own)
    requires Separate(v, owns, kernel, tramp, next) && i !in owns && Owned(w, o, tramp) && Tight(w) && o.space == next
    requires Beyond(v, w, {next}, {o.tf}) && o.tf !in v.uses
    ensures Separate(w, owns[i := o], kernel, tramp, next + 1)
    ensures forall j <- owns :: Undisturbed(v, w, owns[j].space)
  {
    hide Vm.Counted, Vm.Valid, Vm.Leaf, Image, Tight, Undisturbed;
    var owns' := owns[i := o];
    forall f <- w.uses | OfAny(w.uses[f], {next}) || f in {o.tf} ensures UsedBy(w.uses[f], f, owns', kernel) {
      assert i in owns' && (f == o.tf || Of(w.uses[f], owns'[i].space));
    }
    hide UsedBy, Beyond;
    SeparateStill(v, w, owns, owns', kernel, tramp, next, next + 1, {next}, {o.tf}, i);
  }

  /** A process is gone. */
  lemma RemovedProcess(v: Vm, w: Vm, owns: map<nat, Own>, kernel: set<nat>, tramp: nat, next: nat, i: nat)
    requires Separate(v, owns, kernel, tramp, next) && i in owns
    requires Beyond(v, w, {owns[i].space}, {owns[i].tf}) && Tight(w) && Absent(w, owns[i].space) && owns[i].tf !in w.uses
    ensures Separate(w, owns - {i}, kernel, tramp, next)
    ensures forall j <- owns | j != i :: Undisturbed(v, w, owns[j].space)
  {
    hide Vm.Counted, Vm.Valid, Vm.Leaf, Image, Tight, Undisturbed, UsedBy, Beyond;
    SeparateStill(v, w, owns, owns - {i}, kernel, tramp, next, next, {owns[i].space}, {owns[i].tf}, i);
  }

  /** Steps on a kernel page that no process has leave all processes what they have. */
  lemma OwnersStill(v: Vm, w: Vm, owns: map<nat, Own>, kernel: set<nat>, tramp: nat, next: nat, f: nat)
    requires Separate(v, owns, kernel, tramp, next) && Beyond(v, w, {}, {f}) && (f in kernel || f !in v.uses)
    ensures forall j <- owns :: Owned(w, owns[j], tramp) && Undisturbed(v, w, owns[j].space) && owns[j].tf != f
  {
    hide Vm.Counted, Vm.Valid, Vm.Leaf, Image, Tight, Undisturbed, Beyond, UsedBy;
    forall j <- owns ensures Owned(w, owns[j], tramp) && Undisturbed(v, w, owns[j].space) && owns[j].tf != f {
      OwnedStill(v, w, {}, {f}, owns[j], tramp);
    }
  }

  /** A page that the kernel takes for itself. */
  lemma KernelTook(v: Vm, w: Vm, owns: map<nat, Own>, kernel: set<nat>, tramp: nat, next: nat, f: nat)
    requires Separate(v, owns, kernel, tramp, next) && Beyond(v, w, {}, {f}) && Tight(w)
    requires f !in v.uses && f in w.uses && w.uses[f] == Held
    ensures Separate(w, owns, kernel + {f}, tramp, next)
    ensures forall j <- owns :: Undisturbed(v, w, owns[j].space)
  {
    hide Vm.Counted, Vm.Valid, Vm.Leaf, Image, Tight, Undisturbed, UsedBy;
    OwnersStill(v, w, owns, kernel, tramp, next, f);
    forall g <- w.uses ensures UsedBy(w.uses[g], g, owns, kernel + {f}) {
      if g == f {
        KernelHas(f, owns, kernel + {f});
      } else {
        assert UsedBy(v.uses[g], g, owns, kernel);
        UsedMore(w.uses[g], g, owns, kernel, kernel + {f});
      }
    }
  }

  lemma KernelHas(f: nat, owns: map<nat, Own>, kernel: set<nat>)
    requires f in kernel
    ensures UsedBy(Held, f, owns, kernel)
  {
  }

  lemma UsedMore(u: Use, g: nat, owns: map<nat, Own>, kernel: set<nat>, kernel': set<nat>)
    requires UsedBy(u, g, owns, kernel) && (g in kernel ==> g in kernel')
    ensures UsedBy(u, g, owns, kernel')
  {
  }

  /** A page that the kernel gives back. */
  lemma KernelGave(v: Vm, w: Vm, owns: map<nat, Own>, kernel: set<nat>, tramp: nat, next: nat, f: nat)
    requires Separate(v, owns, kernel, tramp, next) && Beyond(v, w, {}, {f}) && Tight(w) && f in kernel && f !in w.uses
    ensures Separate(w, owns, kernel - {f}, tramp, next)
    ensures forall j <- owns :: Undisturbed(v, w, owns[j].space)
  {
    hide Vm.Counted, Vm.Valid, Vm.Leaf, Image, Tight, Undisturbed, UsedBy;
    OwnersStill(v, w, owns, kernel, tramp, next, f);
    forall g <- w.uses ensures UsedBy(w.uses[g], g, owns, kernel - {f}) {
      assert UsedBy(v.uses[g], g, owns, kernel);
      UsedMore(w.uses[g], g, owns, kernel, kernel - {f});
    }
  }

  lemma OneOf(v: Vm, owns: map<nat, Own>, kernel: set<nat>, tramp: nat, next: nat, i: nat)
    requires Separate(v, owns, kernel, tramp, next) && i in owns
    ensures v.Counted() && v.Valid() && Tight(v) && Owned(v, owns[i], tramp) && owns[i].space < next
    ensures forall j <- owns | j != i :: owns[j].space != owns[i].space
  {
  }

  /** The calls that change the memory of processes, with what the user passes and the file system
      delivers; pid is the one that allocproc gives the child, and f the page of the pipe. Wait is for an
      exited child i. */
  datatype Call =
    | Growproc(i: nat, n: int)
    | Fork(i: nat, pid: nat)
    | Exec(i: nat, uargs: seq<Option<Str>>, ended: bool, elfRead: bool, segs: seq<Segment>)
    | Wait(i: nat)
    | Pipe(i: nat)
    | Close(i: nat, f: nat)

  /** Every process but i has the memory it had: mapped as before, with the same contents. */
  ghost predicate KeptBut(v: Vm, w: Vm, owns: map<nat, Own>, owns': map<nat, Own>, i: nat)
  {
    forall j <- owns | j != i :: j in owns' && owns'[j] == owns[j] && Undisturbed(v, w, owns[j].space)
  }

  /** So has process j, if there was one. */
  ghost predicate KeptOne(v: Vm, w: Vm, owns: map<nat, Own>, owns': map<nat, Own>, j: nat)
  {
    j in owns ==> j in owns' && owns'[j] == owns[j] && Undisturbed(v, w, owns[j].space)
  }

  lemma KeptAll(v: Vm, owns: map<nat, Own>, kernel: set<nat>, tramp: nat, next: nat)
    requires Separate(v, owns, kernel, tramp, next)
    ensures v.Counted() && v.Valid() && Tight(v) && forall f <- kernel :: f in v.uses
    ensures forall i <- owns :: Undisturbed(v, v, owns[i].space)
  {
    UsesBelow(v);
    hide Vm.Counted, Vm.Valid, Vm.Leaf, Image, Tight, UsedBy;
  }

  lemma KeptTwice(u: Vm, v: Vm, w: Vm, owns: map<nat, Own>, owns1: map<nat, Own>, owns2: map<nat, Own>, j: nat, i: nat)
    requires KeptOne(u, v, owns, owns1, j) && KeptBut(v, w, owns1, owns2, i) && i != j
    ensures KeptOne(u, w, owns, owns2, j)
  {
    hide Vm.Counted, Vm.Leaf;
  }

  class System {
    const m: Memory
    const tramp: nat
    var procs: map<nat, Proc>
    /** Pages that the kernel holds for itself, as pipealloc does. */
    var kernel: set<nat>
    /** Spaces are numbered in the order they are made. */
    ghost var next: nat

    ghost function Owns(): map<nat, Own>
      reads this, procs.Values
    {
      map i <- procs :: Own(procs[i].space, procs[i].pagetable, procs[i].sz, procs[i].trapframe)
    }

    ghost predicate Valid()
      reads this, m, procs.Values
    {
      Separate(m.Now(), Owns(), kernel, tramp, next) && Small(m.Now())
    }

    /** kinit, and no process yet. */
    constructor (lo: nat, n: nat, tramp: nat)
      requires lo <= n <= TOP && (n - lo) * PGSIZE <= 0x8000_0000
      ensures Valid() && fresh(m) && procs == map[] && kernel == {} && m.lo == lo && |m.mem| == n && this.tramp == tramp
    {
      m := new Memory(lo, n);
      this.tramp, procs, kernel, next := tramp, map[], {}, 0;
    }

    /** growproc by process i. */
    method Growproc(i: nat, n: int) returns (r: int)
      requires Valid() && i in procs && -0x8000_0000 <= n < 0x8000_0000
      modifies procs[i], m`mem, m`free, m`uses, m`nodes
      ensures Valid() && |m.mem| == |old(m.mem)| && KeptBut(old(m.Now()), m.Now(), old(Owns()), Owns(), i)
      ensures Owns() == old(Owns())[i := old(Owns())[i].(sz := procs[i].sz)]
      ensures r in {0, -1} && (r == -1 ==> procs[i].sz == old(procs[i].sz))
      ensures r == 0 ==> (procs[i].sz == old(procs[i].sz) + n <==> 0 <= old(procs[i].sz) + n)
    {
      hide Vm.Counted, Vm.Valid, Vm.Leaf, Image, Tight, Outside, Beyond, Undisturbed, UsedBy, Separate;
      ghost var v, owns := m.Now(), Owns();
      OneOf(v, owns, kernel, tramp, next, i);
      assert forall j <- procs | j != i :: procs[j] != procs[i] by { assert forall j <- procs :: owns[j].space == procs[j].space; }
      r := procs[i].Growproc(m, n, tramp);
      BeyondOutside(v, m.Now(), owns[i].space);
      BeyondSize(v, m.Now(), {owns[i].space}, {});
      assert {owns[i].space} == {owns[i].space, owns[i].space};
      ghost var o := owns[i].(sz := procs[i].sz);
      ChangedSpace(v, m.Now(), owns, kernel, tramp, next, i, o);
      assert Owns() == owns[i := o];
    }

    /** A process gets its slot. */
    method Admit(pid: nat, p: Proc)
      requires Separate(m.Now(), Owns()[pid := Own(p.space, p.pagetable, p.sz, p.trapframe)], kernel, tramp, next + 1)
      requires Small(m.Now()) && pid !in procs
      modifies this`procs, this`next
      ensures Valid() && procs == old(procs)[pid := p]
      ensures Owns() == old(Owns())[pid := Own(p.space, p.pagetable, p.sz, p.trapframe)]
    {
      hide Separate, Small;
      ghost var owns := Owns()[pid := Own(p.space, p.pagetable, p.sz, p.trapframe)];
      procs := procs[pid := p];
      next := next + 1;
      assert Owns() == owns;
    }

    /** The memory of the first process: allocproc in userinit. */
    method First(pid: nat) returns (ok: bool)
      requires Valid() && procs == map[]
      modifies this`procs, this`next, m`mem, m`free, m`uses, m`nodes
      ensures Valid() && |m.mem| == |old(m.mem)| && (if ok then procs.Keys == {pid} && fresh(procs[pid]) else procs == map[])
      ensures |old(m.free)| >= 6 ==> ok
    {
      hide Vm.Counted, Vm.Valid, Vm.Leaf, Image, Tight, Outside, Beyond, Undisturbed, UsedBy, Restored, Absent;
      ghost var v, owns := m.Now(), Owns();
      NextAbsent(v, owns, kernel, tramp, next, next);
      var p := new Proc();
      ok := p.Allocproc(m, next, tramp);
      if !ok {
        SeparateRestored(v, m.Now(), owns, kernel, tramp, next);
        RestoredSize(v, m.Now());
        return;
      }
      ghost var o := Own(next, p.pagetable, p.sz, p.trapframe);
      AddedProcess(v, m.Now(), owns, kernel, tramp, next, pid, o);
      BeyondSize(v, m.Now(), {next}, {p.trapframe});
      assert Owns() == owns;
      Admit(pid, p);
    }

    /** fork by process i: the child has a copy of its memory, and nobody else's has changed; or there is
        no child and nothing has changed. */
    method Fork(i: nat, pid: nat) returns (ok: bool)
      requires Valid() && i in procs && pid !in procs
      modifies this`procs, this`next, m`mem, m`free, m`uses, m`nodes
      ensures Valid() && |m.mem| == |old(m.mem)| && KeptBut(old(m.Now()), m.Now(), old(Owns()), Owns(), pid)
      ensures if ok then pid in procs && fresh(procs[pid]) && procs == old(procs)[pid := procs[pid]] else procs == old(procs)
      ensures ok ==> Owns()[pid].sz == Owns()[i].sz
      ensures ok ==> forall q | 0 <= q < Up(Owns()[i].sz) :: CopiedAt(old(m.Now()), m.Now(), Owns()[i].space, Owns()[pid].space, q)
      ensures !ok ==> Restored(old(m.Now()), m.Now()) && |old(m.free)| < 3 * Up(Owns()[i].sz) + 6
    {
      hide Vm.Counted, Vm.Valid, Vm.Leaf, Image, Tight, Outside, Beyond, Undisturbed, UsedBy, Restored, Absent, CopiedAt, Separate;
      ghost var v, owns := m.Now(), Owns();
      OneOf(v, owns, kernel, tramp, next, i);
      assert forall j <- procs | j != i :: procs[j] != procs[i] by { assert forall j <- procs :: owns[j].space == procs[j].space; }
      NextAbsent(v, owns, kernel, tramp, next, next);
      var p := new Proc();
      ok := procs[i].Fork(m, p, next, tramp);
      if !ok {
        SeparateRestored(v, m.Now(), owns, kernel, tramp, next);
        RestoredSize(v, m.Now());
        assert Owns() == owns;
        return;
      }
      ghost var o := Own(next, p.pagetable, p.sz, p.trapframe);
      AddedProcess(v, m.Now(), owns, kernel, tramp, next, pid, o);
      BeyondSize(v, m.Now(), {next}, {p.trapframe});
      assert Owns() == owns;
      Admit(pid, p);
    }

    /** exec by process i: it has the new image, and nobody else's memory has changed; or nothing has. */
    method Exec(i: nat, uargs: seq<Option<Str>>, ended: bool, elfRead: bool, segs: seq<Segment>) returns (ok: bool)
      requires Valid() && i in procs && forall g <- segs :: g.vaddr < UINT64 && g.memsz < UINT64
      modifies this`next, procs[i], m`mem, m`free, m`uses, m`nodes
      ensures Valid() && |m.mem| == |old(m.mem)| && KeptBut(old(m.Now()), m.Now(), old(Owns()), Owns(), i)
      ensures Owns()[i].tf == old(Owns())[i].tf
      ensures ok ==> exists page ::
        && Ready(m.Now(), Owns()[i].space, segs, page)
        && ArgsOn(page, Owns()[i].sz - PGSIZE, Owns()[i].sz - StackSize(Given(uargs)), Given(uargs))
      ensures !ok ==> Owns() == old(Owns()) && Restored(old(m.Now()), m.Now())
    {
      hide Vm.Counted, Vm.Valid, Vm.Leaf, Image, Tight, Outside, Beyond, Undisturbed, UsedBy, Restored, Absent, Ready,
           ArgsOn, StackSize, EndOf, Separate;
      ghost var v, owns := m.Now(), Owns();
      OneOf(v, owns, kernel, tramp, next, i);
      assert forall j <- procs | j != i :: procs[j] != procs[i] by { assert forall j <- procs :: owns[j].space == procs[j].space; }
      NextAbsent(v, owns, kernel, tramp, next, next);
      var sp;
      ghost var page;
      ok, sp, page := SysExec.SysExec(m, procs[i], uargs, ended, elfRead, segs, next, tramp);
      ghost var o := Own(procs[i].space, procs[i].pagetable, procs[i].sz, procs[i].trapframe);
      assert Owns() == owns[i := o];
      if !ok {
        SeparateRestored(v, m.Now(), owns, kernel, tramp, next);
        RestoredSize(v, m.Now());
        assert owns[i := o] == owns;
        return;
      }
      ChangedSpace(v, m.Now(), owns, kernel, tramp, next, i, o);
      BeyondSize(v, m.Now(), {owns[i].space, next}, {});
      next := next + 1;
      assert Owns() == owns[i := o];
    }

    /** freeproc in wait: everything of process i is gone, and nobody else's memory has changed. */
    method Free(i: nat)
      requires Valid() && i in procs
      modifies this`procs, procs[i], m`mem, m`free, m`uses, m`nodes
      ensures Valid() && |m.mem| == |old(m.mem)| && procs == old(procs) - {i}
      ensures KeptBut(old(m.Now()), m.Now(), old(Owns()), Owns(), i)
    {
      hide Vm.Counted, Vm.Valid, Vm.Leaf, Image, Tight, Outside, Beyond, Undisturbed, UsedBy, Absent, Separate;
      ghost var v, owns := m.Now(), Owns();
      OneOf(v, owns, kernel, tramp, next, i);
      assert forall j <- procs | j != i :: procs[j] != procs[i] by { assert forall j <- procs :: owns[j].space == procs[j].space; }
      procs[i].Freeproc(m, tramp);
      RemovedProcess(v, m.Now(), owns, kernel, tramp, next, i);
      BeyondSize(v, m.Now(), {owns[i].space}, {owns[i].tf});
      procs := procs - {i};
      assert Owns() == owns - {i};
    }

    /** kalloc and kfree of a page that the kernel holds for itself. */
    method Take() returns (r: Option<nat>)
      requires Valid()
      modifies this`kernel, m`mem, m`free, m`uses
      ensures Valid() && |m.mem| == |old(m.mem)| && Owns() == old(Owns())
      ensures forall i <- Owns() :: Undisturbed(old(m.Now()), m.Now(), Owns()[i].space)
      ensures r.None? <==> old(m.free) == []
      ensures if r.Some? then r.value !in old(kernel) && kernel == old(kernel) + {r.value} else kernel == old(kernel)
    {
      hide Vm.Counted, Vm.Valid, Vm.Leaf, Image, Outside, Beyond, Undisturbed, UsedBy, Separate;
      ghost var v, owns := m.Now(), Owns();
      KeptAll(v, owns, kernel, tramp, next);
      r := m.Kalloc();
      if r.None? {
        return;
      }
      GrabHeld(v, Fill(FIVES));
      BeyondGrab(v, Fill(FIVES));
      KernelTook(v, m.Now(), owns, kernel, tramp, next, r.value);
      BeyondSize(v, m.Now(), {}, {r.value});
      kernel := kernel + {r.value};
      assert Owns() == owns;
    }

    method Give(f: nat)
      requires Valid() && f in kernel
      modifies this`kernel, m`mem, m`free, m`uses
      ensures Valid() && |m.mem| == |old(m.mem)| && Owns() == old(Owns())
      ensures forall i <- Owns() :: Undisturbed(old(m.Now()), m.Now(), Owns()[i].space)
      ensures kernel == old(kernel) - {f} && f in m.free
    {
      hide Vm.Counted, Vm.Valid, Vm.Leaf, Image, Outside, Beyond, Undisturbed, UsedBy;
      ghost var v, owns := m.Now(), Owns();
      DropHeld(v, f, Fill(ONES));
      BeyondDrop(v, f, Fill(ONES));
      m.Kfree(f);
      KernelGave(v, m.Now(), owns, kernel, tramp, next, f);
      BeyondSize(v, m.Now(), {}, {f});
      kernel := kernel - {f};
      assert Owns() == owns;
    }

    /** One call, taken if the process is there; a fork whose pid is taken is not. */
    method Do(c: Call)
      requires Valid()
      modifies this, procs.Values, m
      ensures Valid() && fresh(procs.Values - old(procs.Values)) && |m.mem| == |old(m.mem)|
      ensures KeptBut(old(m.Now()), m.Now(), old(Owns()), Owns(), c.i)
    {
      hide Separate, Small, Restored, Ready, ArgsOn, CopiedAt, Undisturbed;
      KeptAll(m.Now(), Owns(), kernel, tramp, next);
      match c
      case Growproc(i, n) => if i in procs && -0x8000_0000 <= n < 0x8000_0000 { var r := Growproc(i, n); }
      case Fork(i, pid) => if i in procs && pid !in procs { var ok := Fork(i, pid); }
      case Exec(i, uargs, ended, elfRead, segs) =>
        if i in procs && forall g <- segs :: g.vaddr < UINT64 && g.memsz < UINT64 {
          var ok := Exec(i, uargs, ended, elfRead, segs);
        }
      case Wait(i) => if i in procs { Free(i); }
      case Pipe(i) => if i in procs { var r := Take(); }
      case Close(i, f) => if i in procs && f in kernel { Give(f); }
    }

    /** A run of calls by any processes. Every call finds its requirements met, so no panic of the page
        tables can happen, and a process that makes none has its memory as it was. */
    method Run(calls: seq<Call>)
      requires Valid()
      modifies this, procs.Values, m
      ensures Valid() && fresh(procs.Values - old(procs.Values)) && |m.mem| == |old(m.mem)|
      ensures forall j | forall c <- calls :: c.i != j :: KeptOne(old(m.Now()), m.Now(), old(Owns()), Owns(), j)
    {
      hide Separate, Small, Undisturbed;
      ghost var v, owns := m.Now(), Owns();
      KeptAll(v, owns, kernel, tramp, next);
      var k := 0;
      while k < |calls|
        invariant 0 <= k <= |calls|
        invariant Valid() && fresh(procs.Values - old(procs.Values)) && |m.mem| == |old(m.mem)|
        invariant forall j | forall c <- calls[..k] :: c.i != j :: KeptOne(v, m.Now(), owns, Owns(), j)
      {
        ghost var w, owns1 := m.Now(), Owns();
        Do(calls[k]);
        forall j | forall c <- calls[..k + 1] :: c.i != j ensures KeptOne(v, m.Now(), owns, Owns(), j) {
          assert calls[k] in calls[..k + 1];
          assert forall c <- calls[..k] :: c in calls[..k + 1];
          KeptTwice(v, w, m.Now(), owns, owns1, Owns(), j, calls[k].i);
        }
        k := k + 1;
      }
      assert calls[..k] == calls;
    }

    /** All processes exit and are waited for. */
    method FreeAll()
      requires Valid()
      modifies this`procs, procs.Values, m
      ensures Valid() && procs == map[] && m.uses.Keys == kernel && |m.mem| == |old(m.mem)|
      ensures forall f | m.lo <= f < |m.mem| :: f in m.free <==> f !in kernel
    {
      hide Separate, Small, Undisturbed;
      while procs != map[]
        invariant Valid() && procs.Values <= old(procs.Values) && |m.mem| == |old(m.mem)|
        decreases |procs|
      {
        var i :| i in procs;
        Free(i);
      }
      assert Owns() == map[];
      NothingLost(m.Now(), kernel, tramp, next);
    }
  }

  /** From boot, whatever the processes do and however their calls fail, once they are all gone every page
      is free again, but those of pipes that are not closed. */
  method NoPageLost(lo: nat, n: nat, tramp: nat, calls: seq<Call>) returns (s: System)
    requires lo <= n <= TOP && (n - lo) * PGSIZE <= 0x8000_0000
    ensures s.Valid() && s.procs == map[] && |s.m.mem| == n && s.m.lo == lo
    ensures s.m.uses.Keys == s.kernel && forall f | lo <= f < n :: f in s.m.free <==> f !in s.kernel
  {
    hide Separate, Small, KeptOne;
    s := new System(lo, n, tramp);
    var ok := s.First(1);
    s.Run(calls);
    s.FreeAll();
  }
}
