/** growproc of kernel/proc.c, and the memory side of its allocproc, freeproc and fork. */
module ProcMemory {

  import opened Basics
  import opened Sv39
  import opened Spaces
  import opened VirtualMemory
  import opened AddressSpace

  /** Memory after the kernel is at most two gigabytes, which a size of 32 bits can count. */
  ghost predicate Small(v: Vm)
  {
    v.lo <= |v.mem| <= TOP && (|v.mem| - v.lo) * PGSIZE <= 0x8000_0000
  }

  lemma SizeBound(v: Vm, s: nat, root: nat, sz: nat, tf: nat, tramp: nat)
    requires v.Counted() && Small(v) && Image(v, s, root, sz, tf, tramp)
    ensures sz <= 0x8000_0000
  {
    hide Vm.Counted, Vm.Leaf;
    BackedBelow(v, s, Up(sz));
  }

  class Proc {
    var pagetable: nat
    var sz: nat
    /** The page of the trapframe. */
    var trapframe: nat
    ghost var space: nat

    /** An unused slot of the table. */
    constructor ()
      ensures pagetable == sz == trapframe == 0
    {
      pagetable, sz, trapframe := 0, 0, 0;
    }

    ghost predicate Owns(v: Vm, tramp: nat)
      reads this
    {
      && v.Counted() && Image(v, space, pagetable, sz, trapframe, tramp)
      && trapframe in v.uses && v.uses[trapframe] == Held
    }

    /** growproc for n > 0. */
    method Enlarge(m: Memory, newsz: nat, ghost tramp: nat) returns (r: int)
      requires m.Valid() && Tight(m.Now()) && Small(m.Now()) && Owns(m.Now(), tramp) && sz < newsz
      modifies this`sz, m`mem, m`free, m`uses, m`nodes
      ensures m.Valid() && Tight(m.Now()) && Owns(m.Now(), tramp) && Outside(old(m.Now()), m.Now(), space)
      ensures r in {0, -1} && sz == if r == 0 then newsz else old(sz)
      ensures r == -1 ==> |old(m.free)| < 3 * (Up(newsz) - Up(old(sz)))
    {
      hide Vm.Counted, Vm.Valid, Vm.Leaf, Tight, Outside, Filled, Grew, LeavesSame, MakePte, BackedAt;
      ghost var v := m.Now();
      var t := m.Uvmalloc(pagetable, sz, newsz, space);
      if t == 0 {
        ImageGrew(v, m.Now(), space, pagetable, sz, trapframe, tramp);
        OutsideGrew(v, m.Now(), space);
        HeldStill(v, m.Now(), space, trapframe);
        return -1;
      }
      UpMonotone(sz, newsz);
      FilledBelow(v, m.Now(), space, Up(sz), Up(newsz));
      ImageFilled(v, m.Now(), space, pagetable, sz, newsz, trapframe, tramp);
      OutsideFilled(v, m.Now(), space, Up(sz), Up(newsz));
      HeldStill(v, m.Now(), space, trapframe);
      sz := t;
      return 0;
    }

    /** growproc for n < 0. */
    method Reduce(m: Memory, newsz: nat, ghost tramp: nat)
      requires m.Valid() && Tight(m.Now()) && Owns(m.Now(), tramp)
      modifies this`sz, m`mem, m`free, m`uses, m`nodes
      ensures m.Valid() && Tight(m.Now()) && Owns(m.Now(), tramp) && Outside(old(m.Now()), m.Now(), space)
      ensures if newsz < old(sz) then sz == newsz else sz == old(sz) && m.Now() == old(m.Now())
    {
      hide Vm.Counted, Vm.Valid, Vm.Leaf, Tight, Outside, Unmapped, MakePte, BackedAt;
      ghost var v := m.Now();
      OutsideNothing(v, space);
      var t := m.Uvmdealloc(pagetable, sz, newsz, space);
      if newsz < sz {
        UpMonotone(newsz, sz);
        ImageShrunk(v, m.Now(), space, pagetable, sz, newsz, trapframe, tramp);
        OutsideUnmapped(v, m.Now(), space, Up(newsz), Up(sz), true);
        HeldStill(v, m.Now(), space, trapframe);
      }
      sz := t;
    }

    /** growproc. The new size is computed in 32 bits; growing never wraps, and shrinking below zero
        does: it reports success and changes nothing. */
    method Growproc(m: Memory, n: int, ghost tramp: nat) returns (r: int)
      requires m.Valid() && Tight(m.Now()) && Small(m.Now()) && Owns(m.Now(), tramp)
      requires -0x8000_0000 <= n < 0x8000_0000
      modifies this`sz, m`mem, m`free, m`uses, m`nodes
      ensures m.Valid() && Tight(m.Now()) && Owns(m.Now(), tramp) && Outside(old(m.Now()), m.Now(), space)
      ensures r in {0, -1} && (r == -1 ==> n > 0 && sz == old(sz) && |old(m.free)| < 3 * (Up(sz + n) - Up(sz)))
      ensures r == 0 ==> (sz == old(sz) + n <==> 0 <= old(sz) + n)
      ensures r == 0 && old(sz) + n < 0 ==> sz == old(sz) && m.Now() == old(m.Now())
    {
      hide Vm.Counted, Vm.Valid, Vm.Leaf, Tight, Outside, Image;
      ghost var v := m.Now();
      SizeBound(v, space, pagetable, sz, trapframe, tramp);
      OutsideNothing(v, space);
      r := 0;
      if n > 0 {
        r := Enlarge(m, (sz + n) % UINT, tramp);
      } else if n < 0 {
        Reduce(m, (sz + n) % UINT, tramp);
      }
    }

    /** The memory side of freeproc: the trapframe goes first, while it is still mapped. */
    method Freeproc(m: Memory, ghost tramp: nat)
      requires m.Valid() && Tight(m.Now()) && Owns(m.Now(), tramp)
      modifies this`sz, this`pagetable, this`trapframe, m`mem, m`free, m`uses, m`nodes
      ensures m.Valid() && Tight(m.Now()) && old(trapframe) < |old(m.mem)| && Absent(m.Now(), space)
      ensures Outside(Drop(old(m.Now()), old(trapframe), Fill(ONES)), m.Now(), space)
      ensures Beyond(old(m.Now()), m.Now(), {space}, {old(trapframe)}) && old(trapframe) !in m.uses
    {
      hide Vm.Counted, Vm.Valid, Vm.Leaf, Tight, Outside, Image, Absent, HeldDiffers, LeavesSame, Beyond;
      ghost var v := m.Now();
      DropHeld(v, trapframe, Fill(ONES));
      m.Kfree(trapframe);
      ImageHeld(v, m.Now(), space, pagetable, sz, trapframe, tramp);
      ghost var u := m.Now();
      ProcFreepagetable(m, pagetable, sz, space, trapframe, tramp);
      FreedBeyond(v, u, m.Now(), space, trapframe, Fill(ONES));
      trapframe, pagetable, sz := 0, 0, 0;
    }

    /** The memory side of allocproc, for a space that has nothing yet: a trapframe and an empty
        address space, or nothing at all. */
    method Allocproc(m: Memory, ghost t: nat, tramp: nat) returns (ok: bool)
      requires m.Valid() && Tight(m.Now()) && Absent(m.Now(), t)
      modifies this, m`mem, m`free, m`uses, m`nodes
      ensures m.Valid() && Tight(m.Now())
      ensures ok ==> space == t && sz == 0 && Owns(m.Now(), tramp) && old(m.free) != [] && trapframe == old(m.free)[0]
      ensures ok ==> trapframe < |old(m.mem)| && Outside(Grab(old(m.Now()), Fill(FIVES)), m.Now(), t)
      ensures !ok ==> Restored(old(m.Now()), m.Now()) && |old(m.free)| < 6
      ensures ok ==> trapframe !in old(m.uses) && Beyond(old(m.Now()), m.Now(), {t}, {trapframe})
      ensures ok ==> |m.free| + 6 >= |old(m.free)|
    {
      hide Vm.Counted, Vm.Valid, Vm.Leaf, Tight, Outside, Image, Absent, HeldDiffers, LeavesSame, Restored, Beyond;
      ghost var v := m.Now();
      RestoredNothing(v);
      space, sz := t, 0;
      var f := m.Kalloc();
      if f.None? {
        return false;
      }
      GrabHeld(v, Fill(FIVES));
      AbsentGrab(v, Fill(FIVES), t);
      trapframe := f.value;
      var root := ProcPagetable(m, trapframe, tramp, t);
      ghost var x := m.Now();
      HeldStill(Grab(v, Fill(FIVES)), x, t, trapframe);
      if root.None? {
        DropHeld(x, trapframe, Fill(ONES));
        m.Kfree(trapframe);
        AbsentDrop(x, trapframe, Fill(ONES), t);
        OutsideNothing(m.Now(), t);
        OutsideSize(Grab(v, Fill(FIVES)), x, t);
        RoundTrip(v, x, m.Now(), t, Fill(FIVES), Fill(ONES));
        return false;
      }
      MadeBeyond(v, x, t, Fill(FIVES));
      pagetable := root.value;
      return true;
    }

    /** The memory side of fork: the child has its own copy of every page of the parent, or there is no
        child and no page, leaf or content differs from before. */
    method Fork(m: Memory, child: Proc, ghost t: nat, tramp: nat) returns (ok: bool)
      requires m.Valid() && Tight(m.Now()) && Owns(m.Now(), tramp)
      requires child != this && t != space && Absent(m.Now(), t)
      modifies child, m`mem, m`free, m`uses, m`nodes
      ensures m.Valid() && Tight(m.Now()) && Owns(m.Now(), tramp)
      ensures ok ==> child.space == t && child.sz == sz && child.Owns(m.Now(), tramp)
      ensures ok ==> forall q | 0 <= q < Up(sz) :: CopiedAt(old(m.Now()), m.Now(), space, t, q)
      ensures !ok ==> Restored(old(m.Now()), m.Now()) && |old(m.free)| < 3 * Up(sz) + 6
      ensures ok ==> child.trapframe !in old(m.uses) && Beyond(old(m.Now()), m.Now(), {t}, {child.trapframe})
    {
      hide Vm.Counted, Vm.Valid, Vm.Leaf, Tight, Outside, Image, Absent, Restored, Filled, Grew, LeavesSame, CopiedAt, Beyond;
      ghost var v, p, sp := m.Now(), pagetable, space;
      ok := child.Allocproc(m, t, tramp);
      if !ok {
        OwnsRestored(v, m.Now(), space, pagetable, sz, trapframe, tramp);
        return;
      }
      ghost var e := m.Now();
      ParentKept(v, e, space, pagetable, sz, trapframe, tramp, t);
      ok := CopyMemory(m, child, tramp);
      ghost var x := m.Now();
      OutsideTwice(Grab(v, Fill(FIVES)), e, x, t);
      if !ok {
        OutsideSize(Grab(v, Fill(FIVES)), x, t);
        child.Freeproc(m, tramp);
        RoundTrip(v, x, m.Now(), t, Fill(FIVES), Fill(ONES));
        OwnsRestored(v, m.Now(), space, pagetable, sz, trapframe, tramp);
      } else {
        MadeBeyond(v, x, t, Fill(FIVES));
        CopiedSince(v, e, x, space, pagetable, sz, trapframe, tramp, t);
      }
    }

    /** uvmcopy in fork. */
    method CopyMemory(m: Memory, child: Proc, ghost tramp: nat) returns (ok: bool)
      requires m.Valid() && Tight(m.Now()) && Owns(m.Now(), tramp)
      requires child != this && child.space != space && child.Owns(m.Now(), tramp) && child.sz == 0
      modifies child`sz, m`mem, m`free, m`uses, m`nodes
      ensures m.Valid() && Tight(m.Now()) && Owns(m.Now(), tramp) && child.Owns(m.Now(), tramp)
      ensures Outside(old(m.Now()), m.Now(), child.space)
      ensures !ok ==> |old(m.free)| < 3 * Up(sz)
      ensures ok ==> child.sz == sz && forall q | 0 <= q < Up(sz) :: CopiedAt(old(m.Now()), m.Now(), space, child.space, q)
    {
      hide Vm.Counted, Vm.Valid, Vm.Leaf, Tight, Outside, Filled, Grew, LeavesSame, CopiedAt, MakePte, BackedAt;
      ghost var e, t := m.Now(), child.space;
      var r := m.Uvmcopy(pagetable, child.pagetable, sz, space, t);
      ghost var x := m.Now();
      if r < 0 {
        OutsideGrew(e, x, t);
        ImageGrew(e, x, t, child.pagetable, 0, child.trapframe, tramp);
      } else {
        OutsideFilled(e, x, t, 0, Up(sz));
        ImageFilled(e, x, t, child.pagetable, 0, sz, child.trapframe, tramp);
        child.sz := sz;
      }
      ImageKept(e, x, space, pagetable, sz, trapframe, tramp, t);
      HeldStill(e, x, t, trapframe);
      HeldStill(e, x, t, child.trapframe);
      return r >= 0;
    }
  }

  /** A trapframe and a space are new, and all else is as before. */
  lemma MadeBeyond(v: Vm, w: Vm, t: nat, page: Words)
    requires v.Counted() && v.Valid() && |v.free| > 0 && |page| == NPTE && v.free[0] < |v.mem|
    requires Outside(Grab(v, page), w, t)
    ensures v.free[0] !in v.uses && Beyond(v, w, {t}, {v.free[0]})
  {
    hide Vm.Counted, Vm.Valid, Vm.Leaf, Outside, Beyond;
    BeyondGrab(v, page);
    BeyondOutside(Grab(v, page), w, t);
    BeyondTwice(v, Grab(v, page), w, {}, {v.free[0]}, {t}, {});
    assert {} + {t} == {t} && {v.free[0]} + {} == {v.free[0]};
  }

  /** A trapframe and a space are gone, and all else is as before. */
  lemma FreedBeyond(v: Vm, u: Vm, w: Vm, s: nat, f: nat, junk: Words)
    requires v.Counted() && v.Valid() && f in v.uses && v.uses[f] == Held && |junk| == NPTE && f < |v.mem|
    requires u == Drop(v, f, junk) && Outside(u, w, s) && Absent(w, s)
    ensures Beyond(v, w, {s}, {f}) && f !in w.uses
  {
    hide Vm.Counted, Vm.Valid, Vm.Leaf, Beyond;
    BeyondDrop(v, f, junk);
    BeyondOutside(u, w, s);
    BeyondTwice(v, u, w, {}, {f}, {s}, {});
    assert {} + {s} == {s} && {f} + {} == {f};
  }

  lemma UpMonotone(a: nat, b: nat)
    requires a <= b
    ensures Up(a) <= Up(b)
  {
  }

  lemma FilledBelow(v: Vm, w: Vm, s: nat, a: nat, b: nat)
    requires Filled(v, w, s, a, b) && Backed(v, s, 0, a) && |v.mem| <= TOP
    ensures b <= TOP
  {
    hide Vm.Counted, Vm.Valid, Vm.Leaf, FrameOf;
    FilledBacked(v, w, s, a, b);
    forall q | 0 <= q < b ensures BackedAt(w, s, q) { assert q < a ==> BackedAt(v, s, q); }
    BackedBelow(w, s, b);
  }

  lemma RestoredNothing(v: Vm)
    requires v.Counted()
    ensures Restored(v, v)
  {
  }

  lemma AbsentGrab(v: Vm, page: Words, t: nat)
    requires v.free != [] && v.free[0] < |v.mem| && Absent(v, t)
    ensures Absent(Grab(v, page), t)
  {
  }

  lemma AbsentDrop(v: Vm, f: nat, junk: Words, t: nat)
    requires f < |v.mem| && Absent(v, t)
    ensures Absent(Drop(v, f, junk), t)
  {
  }

  lemma OutsideSize(v: Vm, w: Vm, t: nat)
    requires Outside(v, w, t)
    ensures |w.mem| == |v.mem| && w.lo == v.lo
  {
  }

  lemma OwnsRestored(v: Vm, w: Vm, s: nat, root: nat, sz: nat, tf: nat, tramp: nat)
    requires v.Counted() && Image(v, s, root, sz, tf, tramp) && Restored(v, w)
    ensures Image(w, s, root, sz, tf, tramp)
    ensures tf in v.uses && v.uses[tf] == Held ==> tf in w.uses && w.uses[tf] == Held
  {
    hide Vm.Counted, Vm.Leaf, FrameOf, MakePte, Up;
    forall q | 0 <= q < Up(sz) ensures BackedAt(w, s, q) { assert BackedAt(v, s, q); }
  }

  /** Making the child's empty space does not touch the parent's. */
  lemma ParentKept(v: Vm, e: Vm, s: nat, root: nat, sz: nat, tf: nat, tramp: nat, t: nat)
    requires v.Counted() && v.Valid() && Tight(v) && Image(v, s, root, sz, tf, tramp) && s != t && v.free != []
    requires v.free[0] < |v.mem| && Outside(Grab(v, Fill(FIVES)), e, t) && tf in v.uses && v.uses[tf] == Held
    ensures e.Counted() && Image(e, s, root, sz, tf, tramp) && tf in e.uses && e.uses[tf] == Held
  {
    hide Vm.Counted, Vm.Valid, Vm.Leaf, Image, Tight;
    GrabHeld(v, Fill(FIVES));
    ImageHeld(v, Grab(v, Fill(FIVES)), s, root, sz, tf, tramp);
    ImageKept(Grab(v, Fill(FIVES)), e, s, root, sz, tf, tramp, t);
  }

  /** The parent's pages that were copied are those it had at the start. */
  lemma CopiedSince(v: Vm, e: Vm, x: Vm, s: nat, root: nat, sz: nat, tf: nat, tramp: nat, t: nat)
    requires v.Counted() && v.Valid() && Tight(v) && Image(v, s, root, sz, tf, tramp) && s != t && v.free != []
    requires v.free[0] < |v.mem| && Outside(Grab(v, Fill(FIVES)), e, t) && x.Counted()
    requires forall q | 0 <= q < Up(sz) :: CopiedAt(e, x, s, t, q)
    ensures forall q | 0 <= q < Up(sz) :: CopiedAt(v, x, s, t, q)
  {
    hide Vm.Counted, Vm.Valid, Vm.Leaf, Tight, Holds, FrameOf, FlagsOf, MakePte, Up;
    GrabHeld(v, Fill(FIVES));
    forall q | 0 <= q < Up(sz) ensures CopiedAt(v, x, s, t, q) {
      assert BackedAt(v, s, q) && CopiedAt(e, x, s, t, q);
    }
  }

  /** An empty process asked to shrink by one byte reports success and stays as it is. */
  method ShrinkBelowZero() returns (p: Proc, r: int)
    ensures r == 0 && p.sz == 0
  {
    var m := new Memory(0, 10);
    p := new Proc();
    var ok := p.Allocproc(m, 0, 0);
    assert ok;
    r := p.Growproc(m, -1, 0);
  }
}
