/** sys_exec of kernel/sysfile.c: each argument is fetched into a page of its own, and every way out gives
    those pages back. */
module SysExec {
  import opened Basics
  import opened ArgStack
  import opened PageBytes
  import opened Sv39
  import opened Spaces
  import opened VirtualMemory
  import opened AddressSpace
  import opened ProcMemory
  import opened Exec

  ghost function Pages(held: seq<nat>): set<nat>
  {
    set f | f in held
  }

  /** From v to w the kernel has taken these pages, and nothing else has changed. */
  ghost predicate Took(v: Vm, w: Vm, held: seq<nat>)
  {
    && HeldDiffers(v, w) && Tight(w)
    && (forall f <- held :: f !in v.uses && f in w.uses && w.uses[f] == Held)
    && (forall i, j | 0 <= i < j < |held| :: held[i] != held[j])
    && v.uses == w.uses - Pages(held)
    && (forall f <- v.uses | !v.uses[f].Table? :: f < |v.mem| && w.mem[f] == v.mem[f])
  }

  lemma TookNothing(v: Vm)
    requires v.Counted() && v.Valid() && Tight(v)
    ensures Took(v, v, [])
  {
    UsesBelow(v);
  }

  lemma TookMore(v: Vm, w: Vm, held: seq<nat>, page: Words)
    requires Took(v, w, held) && |w.free| > 0 && |page| == NPTE
    ensures w.free[0] < |w.mem| && w.free[0] !in w.uses && Took(v, Grab(w, page), held + [w.free[0]])
  {
    hide Vm.Counted, Vm.Valid, Vm.Leaf, Tight, LeavesSame;
    GrabKeeps(w, page);
    GrabHeld(w, page);
    var u, f := Grab(w, page), w.free[0];
    HeldChain(v, w, u);
    hide HeldDiffers;
    assert forall g <- held :: g in w.uses;
    assert u.uses - Pages(held + [f]) == v.uses by {
      assert Pages(held + [f]) == Pages(held) + {f};
      assert f !in w.uses - Pages(held);
    }
    UsesBelow(v);
  }

  lemma HeldChain(v: Vm, w: Vm, u: Vm)
    requires HeldDiffers(v, w) && HeldDiffers(w, u)
    ensures HeldDiffers(v, u) && |w.mem| == |v.mem|
  {
    hide Vm.Counted, Vm.Valid, Vm.Leaf;
  }

  /** The pages that argv names are given back. */
  method FreeArgs(m: Memory, held: seq<nat>)
    requires m.Valid() && Tight(m.Now()) && forall f <- held :: f in m.uses && m.uses[f] == Held
    requires forall i, j | 0 <= i < j < |held| :: held[i] != held[j]
    modifies m`mem, m`free, m`uses
    ensures m.Valid() && Tight(m.Now()) && Took(m.Now(), old(m.Now()), held)
  {
    hide Vm.Counted, Vm.Valid, Vm.Leaf, Tight, HeldDiffers;
    ghost var v := m.Now();
    HeldNothing(v);
    UsesBelow(v);
    var i := 0;
    while i < |held|
      invariant i <= |held| && m.Valid() && Tight(m.Now()) && HeldDiffers(m.Now(), v) && |m.mem| == |v.mem|
      invariant m.uses == v.uses - Pages(held[..i])
      invariant forall f <- m.uses | !m.uses[f].Table? :: f < |m.mem| && m.mem[f] == v.mem[f]
    {
      ghost var u := m.Now();
      assert held[i] in held && held[i] !in held[..i];
      DropHeld(u, held[i], Fill(ONES));
      m.Kfree(held[i]);
      HeldTwice(m.Now(), u, v);
      assert Pages(held[..i + 1]) == Pages(held[..i]) + {held[i]} by { assert held[..i + 1] == held[..i] + [held[i]]; }
      i := i + 1;
    }
    assert held[..i] == held;
    assert forall f <- held :: f in Pages(held);
  }

  lemma HeldNothing(v: Vm)
    requires v.Counted() && v.Valid()
    ensures HeldDiffers(v, v)
  {
    UsesBelow(v);
  }

  lemma HeldTwice(u: Vm, v: Vm, w: Vm)
    requires HeldDiffers(v, u) && HeldDiffers(v, w)
    ensures HeldDiffers(u, w)
  {
    hide Vm.Counted, Vm.Valid, Vm.Leaf;
    UsesBelow(v);
  }

  /** The loop of sys_exec over the user's argv: uargs are the strings up to the null pointer, None where
      fetchstr fails; ended says that there is a null pointer. */
  method TakeArgs(m: Memory, uargs: seq<Option<Str>>, ended: bool) returns (ok: bool, args: seq<Str>, held: seq<nat>)
    requires m.Valid() && Tight(m.Now())
    modifies m`mem, m`free, m`uses
    ensures m.Valid() && Took(old(m.Now()), m.Now(), held) && |m.free| + |uargs| >= |old(m.free)|
    ensures ok ==> |args| == |uargs| < MAXARG && ended && forall i | 0 <= i < |args| :: uargs[i] == Some(args[i])
    ensures ended && |uargs| < MAXARG && (forall u <- uargs :: u.Some?) && |old(m.free)| >= |uargs| ==> ok
  {
    hide Vm.Counted, Vm.Valid, Vm.Leaf, Tight, Took;
    ghost var v := m.Now();
    TookNothing(v);
    args, held := [], [];
    var i := 0;
    while true
      invariant i <= |uargs| && i <= MAXARG && |args| == i && m.Valid() && Took(v, m.Now(), held)
      invariant forall j | 0 <= j < i :: uargs[j] == Some(args[j])
      invariant |m.free| + i >= |old(m.free)|
      decreases |uargs| - i
    {
      if i >= MAXARG {
        return false, args, held;
      }
      if i == |uargs| {
        return ended, args, held;
      }
      ghost var w := m.Now();
      var f := m.Kalloc();
      if f.None? {
        return false, args, held;
      }
      TookMore(v, w, held, Fill(FIVES));
      held := held + [f.value];
      if uargs[i].None? {
        assert uargs[i] in uargs;
        return false, args, held;
      }
      args := args + [uargs[i].value];
      i := i + 1;
    }
  }

  lemma TookOwns(v: Vm, w: Vm, held: seq<nat>, s: nat, root: nat, sz: nat, tf: nat, tramp: nat, t: nat)
    requires Took(v, w, held) && Image(v, s, root, sz, tf, tramp) && tf in v.uses && v.uses[tf] == Held && Absent(v, t)
    ensures w.Counted() && w.Valid() && Tight(w) && |w.mem| == |v.mem| && Image(w, s, root, sz, tf, tramp)
    ensures tf in w.uses && w.uses[tf] == Held && Absent(w, t)
    ensures forall f <- held :: f in w.uses && w.uses[f] == Held && f !in v.uses
    ensures forall i, j | 0 <= i < j < |held| :: held[i] != held[j]
  {
    hide Vm.Counted, Vm.Valid, Vm.Leaf, Tight;
    ImageHeld(v, w, s, root, sz, tf, tramp);
  }

  /** Taken and given back, with nothing lost in between. */
  lemma GivenBack(v: Vm, w: Vm, x: Vm, y: Vm, held: seq<nat>)
    requires Took(v, w, held) && Restored(w, x) && Took(y, x, held)
    ensures Restored(v, y)
  {
    hide Vm.Valid, Vm.Leaf, Tight, Vm.Counted;
  }

  /** What the process has and does not have any more, the argument pages aside. */
  lemma SwappedBack(v: Vm, w: Vm, x: Vm, y: Vm, held: seq<nat>, s: nat, t: nat)
    requires Took(v, w, held) && Took(y, x, held)
    requires forall f <- x.uses | !Of(x.uses[f], t) :: f in w.uses && w.uses[f] == x.uses[f]
    requires forall f <- w.uses | !Of(w.uses[f], s) :: f in x.uses && x.uses[f] == w.uses[f]
    ensures forall f <- y.uses | !Of(y.uses[f], t) :: f in v.uses && v.uses[f] == y.uses[f]
    ensures forall f <- v.uses | !Of(v.uses[f], s) :: f in y.uses && y.uses[f] == v.uses[f]
  {
    hide Vm.Valid, Vm.Leaf, Tight, Vm.Counted;
  }

  lemma TookBeyond(v: Vm, w: Vm, held: seq<nat>)
    requires Took(v, w, held)
    ensures Beyond(v, w, {}, Pages(held)) && Beyond(w, v, {}, Pages(held))
    ensures forall f <- Pages(held) :: f !in v.uses
  {
    hide Vm.Counted, Vm.Valid, Vm.Leaf, Tight;
    UsesBelow(w);
  }

  /** What is as before in other spaces, the argument pages aside. */
  lemma BeyondBack(v: Vm, w: Vm, x: Vm, y: Vm, held: seq<nat>, ss: set<nat>)
    requires Took(v, w, held) && Beyond(w, x, ss, {}) && Took(y, x, held)
    ensures Beyond(v, y, ss, {})
  {
    hide Vm.Counted, Vm.Valid, Vm.Leaf, Took, Beyond, Pages;
    var ks := Pages(held);
    TookBeyond(v, w, held);
    TookBeyond(y, x, held);
    BeyondTwice(v, w, x, {}, ks, ss, {});
    assert {} + ss == ss && ks + {} == ks;
    BeyondTwice(v, x, y, ss, ks, {}, ks);
    assert ss + {} == ss && ks + ks == ks;
    BeyondUnused(v, y, ss, ks);
  }

  lemma StillOwned(x: Vm, y: Vm, held: seq<nat>, s: nat, root: nat, sz: nat, tf: nat, tramp: nat)
    requires Took(y, x, held) && x.Counted() && y.Counted() && Image(x, s, root, sz, tf, tramp)
      && tf in x.uses && x.uses[tf] == Held && tf !in held
    ensures Image(y, s, root, sz, tf, tramp) && tf in y.uses && y.uses[tf] == Held
  {
    hide Vm.Counted, Vm.Valid, Vm.Leaf, Tight, HeldDiffers;
    HeldBack(y, x);
    ImageHeld(x, y, s, root, sz, tf, tramp);
  }

  lemma HeldBack(v: Vm, w: Vm)
    requires HeldDiffers(v, w)
    ensures HeldDiffers(w, v)
  {
    hide Vm.Counted, Vm.Valid, Vm.Leaf;
    UsesBelow(v);
    UsesBelow(w);
  }

  /** sys_exec: the process runs the program and its old space is gone, or everything is as before; either
      way no argument page stays taken. */
  method SysExec(m: Memory, p: Proc, uargs: seq<Option<Str>>, ended: bool, elfRead: bool, segs: seq<Segment>,
                 ghost t: nat, tramp: nat)
    returns (ok: bool, sp: int, ghost page: seq<Byte>)
    requires m.Valid() && Tight(m.Now()) && |m.mem| <= TOP && p.Owns(m.Now(), tramp) && t != p.space && Absent(m.Now(), t)
    requires forall g <- segs :: g.vaddr < UINT64 && g.memsz < UINT64
    modifies p`pagetable, p`sz, p`space, m`mem, m`free, m`uses, m`nodes
    ensures m.Valid() && Tight(m.Now()) && p.Owns(m.Now(), tramp)
    ensures !ok ==> p.space == old(p.space) && p.sz == old(p.sz) && p.pagetable == old(p.pagetable)
    ensures !ok ==> Restored(old(m.Now()), m.Now())
    ensures ok ==>
      && p.space == t && Absent(m.Now(), old(p.space)) && Beyond(old(m.Now()), m.Now(), {old(p.space), t}, {})
      && (forall f <- m.uses | !Of(m.uses[f], t) :: f in old(m.uses) && old(m.uses)[f] == m.uses[f])
      && (forall f <- old(m.uses) | !Of(old(m.uses)[f], old(p.space)) :: f in m.uses && m.uses[f] == old(m.uses)[f])
    ensures ok ==>
      && (forall u <- uargs :: u.Some?) && |uargs| < MAXARG && Ready(m.Now(), t, segs, page)
      && ArgsOn(page, p.sz - PGSIZE, sp, Given(uargs)) && sp == p.sz - StackSize(Given(uargs))
    ensures (elfRead && ended && |uargs| < MAXARG && (forall u <- uargs :: u.Some?) && StackSize(Given(uargs)) <= PAGE
             && (forall g <- segs :: Loadable(g)) && |old(m.free)| >= |uargs| + 3 * Up(EndOf(segs)) + 11) ==> ok
  {
    hide Vm.Counted, Vm.Valid, Vm.Leaf, Tight, Took, Restored, Absent, Beyond, Image, Ready, ArgsOn, StackSize, EndOf;
    ghost var v := m.Now();
    ghost var tf := p.trapframe;
    var args, held;
    ok, args, held := TakeArgs(m, uargs, ended);
    ghost var w := m.Now();
    TookOwns(v, w, held, p.space, p.pagetable, p.sz, tf, tramp, t);
    sp, page := 0, [];
    RestoredNothing(w);
    if ok {
      assert Given(uargs) == args;
      ok, sp, page := Replace(m, p, elfRead, segs, args, t, tramp);
    }
    ghost var x := m.Now();
    StillHeld(w, x, held, ok, old(p.space));
    FreeArgs(m, held);
    StillOwned(x, m.Now(), held, p.space, p.pagetable, p.sz, tf, tramp);
    if ok {
      SwappedBack(v, w, x, m.Now(), held, old(p.space), t);
      BeyondBack(v, w, x, m.Now(), held, {old(p.space), t});
      TookAbsent(x, m.Now(), held, old(p.space));
      TookReady(x, m.Now(), held, t, segs, page);
    } else {
      GivenBack(v, w, x, m.Now(), held);
    }
  }

  /** The strings that were fetched. */
  function Given(uargs: seq<Option<Str>>): seq<Str>
  {
    seq(|uargs|, i requires 0 <= i < |uargs| => if uargs[i].Some? then uargs[i].value else [])
  }

  lemma StillHeld(w: Vm, x: Vm, held: seq<nat>, ok: bool, s: nat)
    requires forall f <- held :: f in w.uses && w.uses[f] == Held
    requires ok ==> forall f <- w.uses | !Of(w.uses[f], s) :: f in x.uses && x.uses[f] == w.uses[f]
    requires !ok ==> Restored(w, x)
    ensures forall f <- held :: f in x.uses && x.uses[f] == Held
  {
  }

  lemma TookAbsent(x: Vm, y: Vm, held: seq<nat>, s: nat)
    requires Took(y, x, held) && Absent(x, s)
    ensures Absent(y, s)
  {
    hide Vm.Counted, Vm.Valid, Vm.Leaf, Tight;
  }

  lemma TookReady(x: Vm, y: Vm, held: seq<nat>, s: nat, segs: seq<Segment>, page: seq<Byte>)
    requires Took(y, x, held) && x.Counted() && y.Counted() && Ready(x, s, segs, page)
    ensures Ready(y, s, segs, page)
  {
    hide Vm.Counted, Vm.Valid, Vm.Leaf, FrameOf, FlagsOf, ImageByte, Up, EndOf, WordsOf, PageSame, Tight;
    forall q | 0 <= q && BackedAt(x, s, q) ensures PageSame(x, y, s, q) { TookPage(x, y, held, s, q); }
    forall q | 0 <= q < Up(EndOf(segs)) ensures ShowsAt(y, s, q, segs) {
      assert ShowsAt(x, s, q, segs);
      ShowsSame(x, y, s, q, segs);
    }
    var p := Up(EndOf(segs));
    HoldsSame(x, y, s, p, VRWXU - PTE_U, Fill(0));
    HoldsSame(x, y, s, p + 1, VRWXU, WordsOf(page));
  }

  lemma TookPage(x: Vm, y: Vm, held: seq<nat>, s: nat, q: nat)
    requires Took(y, x, held) && x.Counted() && y.Counted() && BackedAt(x, s, q)
    ensures PageSame(x, y, s, q)
  {
    hide Vm.Counted, Vm.Valid, Vm.Leaf, FrameOf, Tight;
  }
}
