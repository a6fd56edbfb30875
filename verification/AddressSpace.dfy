/** The shape of a process's address space, and proc_pagetable and proc_freepagetable of kernel/proc.c,
    which make and unmake it. */
module AddressSpace {

  import opened Basics
  import opened Sv39
  import opened Spaces
  import opened VirtualMemory

  const TRAPFRAME: nat := TOP
  const TRAMPOLINE: nat := TOP + 1

  /** The shape of a process's address space: its own pages fill exactly [0, PGROUNDUP(sz)), and the
      only other pages mapped are the trapframe and the trampoline. */
  ghost predicate Image(v: Vm, s: nat, root: nat, sz: nat, tf: nat, tramp: nat)
    requires v.Counted()
  {
    && Node(s, 2, 0) in v.nodes && v.nodes[Node(s, 2, 0)] == root
    && Up(sz) <= TOP && Backed(v, s, 0, Up(sz))
    && v.Leaf(s, TRAPFRAME) == MakePte(tf, PTE_R + PTE_W) && v.Leaf(s, TRAMPOLINE) == MakePte(tramp, PTE_R + PTE_X)
    && (forall q | Up(sz) <= q && q != TRAPFRAME && q != TRAMPOLINE :: v.Leaf(s, q) == 0)
    && (forall f <- v.uses | v.uses[f].Page? && v.uses[f].space == s :: v.uses[f].vpn < TOP)
  }

  /** Steps on other spaces leave it alone. */
  lemma ImageKept(v: Vm, w: Vm, s: nat, root: nat, sz: nat, tf: nat, tramp: nat, t: nat)
    requires v.Counted() && Image(v, s, root, sz, tf, tramp) && Outside(v, w, t) && s != t
    ensures Image(w, s, root, sz, tf, tramp)
  {
    hide Vm.Counted, Vm.Valid, Vm.Leaf, FrameOf, MakePte, Up;
    forall q | 0 <= q < Up(sz) ensures BackedAt(w, s, q) { assert BackedAt(v, s, q); }
  }

  /** So do pages that the kernel takes or gives back. */
  lemma ImageHeld(v: Vm, w: Vm, s: nat, root: nat, sz: nat, tf: nat, tramp: nat)
    requires v.Counted() && Image(v, s, root, sz, tf, tramp) && HeldDiffers(v, w)
    ensures Image(w, s, root, sz, tf, tramp)
  {
    hide Vm.Counted, Vm.Valid, Vm.Leaf, FrameOf, MakePte, Up;
    forall q | 0 <= q < Up(sz) ensures BackedAt(w, s, q) { assert BackedAt(v, s, q); }
  }

  lemma ImageFilled(v: Vm, w: Vm, s: nat, root: nat, sz: nat, newsz: nat, tf: nat, tramp: nat)
    requires v.Counted() && Image(v, s, root, sz, tf, tramp) && Filled(v, w, s, Up(sz), Up(newsz)) && Up(newsz) <= TOP
    ensures Image(w, s, root, newsz, tf, tramp)
  {
    hide Vm.Counted, Vm.Valid, Vm.Leaf, FrameOf, MakePte, Up;
    FilledBacked(v, w, s, Up(sz), Up(newsz));
    forall q | 0 <= q < Up(newsz) ensures BackedAt(w, s, q) { assert q < Up(sz) ==> BackedAt(v, s, q); }
    forall f <- w.uses | w.uses[f].Page? && w.uses[f].space == s ensures w.uses[f].vpn < TOP {
      assert f !in v.uses ==> NewUse(w, s, Up(sz), Up(newsz), f);
    }
  }

  lemma ImageGrew(v: Vm, w: Vm, s: nat, root: nat, sz: nat, tf: nat, tramp: nat)
    requires v.Counted() && Image(v, s, root, sz, tf, tramp) && Grew(v, w, s) && LeavesSame(v, w)
    ensures Image(w, s, root, sz, tf, tramp)
  {
    hide Vm.Counted, Vm.Valid, Vm.Leaf, FrameOf, MakePte, Up;
    forall q | 0 <= q < Up(sz) ensures BackedAt(w, s, q) { assert BackedAt(v, s, q); }
  }

  lemma ImageShrunk(v: Vm, w: Vm, s: nat, root: nat, sz: nat, newsz: nat, tf: nat, tramp: nat)
    requires v.Counted() && Image(v, s, root, sz, tf, tramp) && Unmapped(v, w, s, Up(newsz), Up(sz), true)
    ensures Image(w, s, root, newsz, tf, tramp)
  {
    hide Vm.Counted, Vm.Valid, Vm.Leaf, FrameOf, MakePte, Up;
    forall q | 0 <= q < Up(newsz) ensures BackedAt(w, s, q) { assert BackedAt(v, s, q); }
  }

  /** proc_freepagetable: nothing of the space is left, nothing else has changed, and the panics of
      uvmunmap and freewalk cannot happen. */
  method ProcFreepagetable(m: Memory, root: nat, sz: nat, ghost s: nat, ghost tf: nat, ghost tramp: nat)
    requires m.Valid() && Tight(m.Now()) && Image(m.Now(), s, root, sz, tf, tramp)
    modifies m`mem, m`free, m`uses, m`nodes
    ensures m.Valid() && Tight(m.Now()) && Outside(old(m.Now()), m.Now(), s) && Absent(m.Now(), s)
  {
    hide Vm.Counted, Vm.Valid, Vm.Leaf, Tight, Outside, Absent, Unmapped, MakePte, Up;
    ghost var v := m.Now();
    PteParts(tf, PTE_R + PTE_W);
    PteParts(tramp, PTE_R + PTE_X);
    m.Uvmunmap(root, TRAMPOLINE, 1, false, s);
    ghost var u := m.Now();
    UnmappedKeeps(v, u, s, TRAMPOLINE);
    m.Uvmunmap(root, TRAPFRAME, 1, false, s);
    ghost var w := m.Now();
    UnmappedKeeps(u, w, s, TRAPFRAME);
    m.Uvmfree(root, sz, s);
    OutsideUnmapped(v, u, s, TRAMPOLINE, TRAMPOLINE + 1, false);
    OutsideUnmapped(u, w, s, TRAPFRAME, TRAPFRAME + 1, false);
    OutsideTwice(v, u, w, s);
    OutsideTwice(v, w, m.Now(), s);
  }

  lemma UnmappedKeeps(v: Vm, u: Vm, s: nat, p: nat)
    requires Unmapped(v, u, s, p, p + 1, false)
    ensures u.Counted() && u.nodes == v.nodes && u.uses == v.uses
    ensures forall q | 0 <= q :: u.Leaf(s, q) == if q == p then 0 else v.Leaf(s, q)
    ensures forall q | 0 <= q && q != p && BackedAt(v, s, q) :: BackedAt(u, s, q)
  {
  }

  /** Mapping one page that the space did not map, to a page that is not its own. */
  lemma MappedOne(v: Vm, u: Vm, s: nat, p: nat, frame: nat, perm: nat)
    requires v.Counted() && Tight(v) && perm < 1024 && Grew(v, u, s)
    requires MapsRange(v, u, s, p, p + 1, frame, perm) && v.Leaf(s, p) == 0
    ensures u.Counted() && u.Valid() && Tight(u) && Outside(v, u, s)
    ensures forall q | 0 <= q :: u.Leaf(s, q) == if q == p then MakePte(frame, perm) else v.Leaf(s, q)
    ensures forall f <- u.uses | u.uses[f].Page? :: f in v.uses && v.uses[f] == u.uses[f]
    ensures Node(s, 2, 0) in v.nodes ==> Node(s, 2, 0) in u.nodes && u.nodes[Node(s, 2, 0)] == v.nodes[Node(s, 2, 0)]
  {
    hide Vm.Counted, Vm.Valid, Vm.Leaf, FrameOf, MakePte;
    OutsideMaps(v, u, s, p, p + 1, frame, perm);
    forall f <- u.uses ensures PageOk(u, f) {
      assert f in v.uses ==> PageOk(v, f);
    }
  }

  lemma MappedNone(v: Vm, u: Vm, s: nat, p: nat, frame: nat, perm: nat)
    requires v.Counted() && Tight(v) && perm < 1024 && Grew(v, u, s) && MapsRange(v, u, s, p, p, frame, perm)
    ensures u.Counted() && u.Valid() && Tight(u) && Outside(v, u, s)
    ensures forall q | 0 <= q :: u.Leaf(s, q) == v.Leaf(s, q)
    ensures forall f <- u.uses | u.uses[f].Page? :: f in v.uses && v.uses[f] == u.uses[f]
    ensures Node(s, 2, 0) in v.nodes ==> Node(s, 2, 0) in u.nodes && u.nodes[Node(s, 2, 0)] == v.nodes[Node(s, 2, 0)]
  {
    MapsOne(v, u, s, p, frame, perm);
    GrewTight(v, u, s);
    OutsideGrew(v, u, s);
  }

  /** One mappages of proc_pagetable. */
  method MapSpecial(m: Memory, root: nat, p: nat, frame: nat, perm: nat, ghost s: nat) returns (ok: bool)
    requires m.Valid() && Tight(m.Now()) && Node(s, 2, 0) in m.nodes && root == m.nodes[Node(s, 2, 0)]
    requires p < MAXVPN && perm < 1024 && perm / 2 % 8 != 0 && m.Now().Leaf(s, p) == 0
    modifies m`mem, m`free, m`uses, m`nodes
    ensures m.Valid() && Tight(m.Now()) && Outside(old(m.Now()), m.Now(), s)
    ensures Node(s, 2, 0) in m.nodes && root == m.nodes[Node(s, 2, 0)]
    ensures forall q | 0 <= q ::
              m.Now().Leaf(s, q) == if ok && q == p then MakePte(frame, perm) else old(m.Now()).Leaf(s, q)
    ensures forall f <- m.uses | m.uses[f].Page? :: f in old(m.uses) && old(m.uses)[f] == m.uses[f]
    ensures |m.free| + 2 >= |old(m.free)| && (!ok ==> |old(m.free)| < 2)
  {
    hide Vm.Counted, Vm.Valid, Vm.Leaf, Tight, Outside, Grew, MapsRange, MakePte;
    ghost var v := m.Now();
    assert (p * PGSIZE + PGSIZE - 1) / PGSIZE == p;
    var r, done := m.Mappages(root, p * PGSIZE, PGSIZE, frame * PGSIZE, perm, s);
    if r < 0 {
      MappedNone(v, m.Now(), s, p, frame, perm);
    } else {
      MappedOne(v, m.Now(), s, p, frame, perm);
    }
    return r >= 0;
  }

  /** proc_pagetable: a space with no memory, or nothing at all; a failure leaves no page behind. */
  method ProcPagetable(m: Memory, tf: nat, tramp: nat, ghost s: nat) returns (r: Option<nat>)
    requires m.Valid() && Tight(m.Now()) && Absent(m.Now(), s)
    modifies m`mem, m`free, m`uses, m`nodes
    ensures m.Valid() && Tight(m.Now()) && Outside(old(m.Now()), m.Now(), s)
    ensures r.None? ==> Absent(m.Now(), s) && |old(m.free)| < 5
    ensures r.Some? ==> Image(m.Now(), s, r.value, 0, tf, tramp) && |m.free| + 5 >= |old(m.free)|
  {
    hide Vm.Counted, Vm.Valid, Vm.Leaf, Tight, Outside, Absent, MakePte;
    ghost var v := m.Now();
    r := m.Uvmcreate(s);
    if r.None? {
      return;
    }
    var root := r.value;
    ghost var v1 := m.Now();
    NoLeavesNoPages(v1, s);
    var ok := MapSpecial(m, root, TRAMPOLINE, tramp, PTE_R + PTE_X, s);
    ghost var v2 := m.Now();
    OutsideTwice(v, v1, v2, s);
    if !ok {
      m.Uvmfree(root, 0, s);
      OutsideTwice(v, v2, m.Now(), s);
      return None;
    }
    ok := MapSpecial(m, root, TRAPFRAME, tf, PTE_R + PTE_W, s);
    ghost var v3 := m.Now();
    OutsideTwice(v, v2, v3, s);
    if !ok {
      Unwind(m, root, s, tramp);
      OutsideTwice(v, v3, m.Now(), s);
      return None;
    }
  }

  /** The last error exit of proc_pagetable. */
  method Unwind(m: Memory, root: nat, ghost s: nat, ghost tramp: nat)
    requires m.Valid() && Tight(m.Now()) && Node(s, 2, 0) in m.nodes && root == m.nodes[Node(s, 2, 0)]
    requires forall q | 0 <= q :: m.Now().Leaf(s, q) == if q == TRAMPOLINE then MakePte(tramp, PTE_R + PTE_X) else 0
    requires forall f <- m.uses :: !(m.uses[f].Page? && m.uses[f].space == s)
    modifies m`mem, m`free, m`uses, m`nodes
    ensures m.Valid() && Tight(m.Now()) && Outside(old(m.Now()), m.Now(), s) && Absent(m.Now(), s)
  {
    hide Vm.Counted, Vm.Valid, Vm.Leaf, Tight, Outside, Absent, Unmapped, MakePte;
    ghost var v := m.Now();
    PteParts(tramp, PTE_R + PTE_X);
    m.Uvmunmap(root, TRAMPOLINE, 1, false, s);
    ghost var u := m.Now();
    UnmappedKeeps(v, u, s, TRAMPOLINE);
    OutsideUnmapped(v, u, s, TRAMPOLINE, TRAMPOLINE + 1, false);
    m.Uvmfree(root, 0, s);
    OutsideTwice(v, u, m.Now(), s);
  }
}
