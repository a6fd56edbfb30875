/** The page allocator of kernel/kalloc.c and the page-table operations of kernel/vm.c. Addresses are
    page numbers except where the source rounds them. Panics are what the methods require against. */
module VirtualMemory {

  import opened Basics
  import opened Sv39
  import opened Spaces

  const PGSIZE: nat := 4096
  /** memset(r, 5, PGSIZE) of kalloc and memset(pa, 1, PGSIZE) of kfree, as words. */
  const FIVES: nat := 0x0505_0505_0505_0505
  const ONES: nat := 0x0101_0101_0101_0101

  /** &pagetable[index] */
  datatype Slot = Slot(page: nat, index: nat)

  /** Pages below this are a process's own; above are the trapframe and the trampoline. */
  const TOP: nat := MAXVPN - 2

  /** What uvmalloc gives a page, and its flags once mapped. */
  const RWXU: nat := PTE_W + PTE_X + PTE_R + PTE_U
  const VRWXU: nat := RWXU + PTE_V

  /** PGROUNDUP, in pages. */
  function Up(sz: nat): (p: nat)
    ensures (p - 1) * PGSIZE < sz <= p * PGSIZE
  {
    (sz + PGSIZE - 1) / PGSIZE
  }

  class Memory {
    /** The first page after the kernel. */
    const lo: nat
    var mem: seq<Words>
    /** kmem.freelist */
    var free: seq<nat>
    ghost var uses: map<nat, Use>
    ghost var nodes: map<Node, nat>

    ghost function Now(): Vm
      reads this
    {
      Vm(mem, free, lo, uses, nodes)
    }

    ghost predicate Valid()
      reads this
    {
      Now().Counted() && Now().Valid()
    }

    /** kinit and freerange over n pages of which the kernel takes the first lo: the rest are free, each
        once, the last one first. */
    constructor (lo: nat, n: nat)
      requires lo <= n
      ensures Valid() && Tight(Now()) && this.lo == lo && |mem| == n && uses == map[] && nodes == map[]
      ensures |free| == n - lo && forall k | 0 <= k < n - lo :: free[k] == n - 1 - k
    {
      this.lo := lo;
      mem := seq(n, _ => Fill(0));
      free := [];
      uses, nodes := map[], map[];
      new;
      var p := lo;
      while p < n
        invariant lo <= p <= n && |mem| == n && uses == map[] && nodes == map[] && this.lo == lo
        invariant |free| == p - lo && forall k | 0 <= k < p - lo :: free[k] == p - 1 - k
        invariant forall q | 0 <= q < n :: |mem[q]| == NPTE
      {
        mem, free := mem[p := Fill(ONES)], [p] + free;
        p := p + 1;
      }
      forall f | lo <= f < n ensures f in free { assert free[n - 1 - f] == f; }
    }

    method Kalloc() returns (r: Option<nat>)
      requires Valid()
      modifies this`mem, this`free, this`uses
      ensures Valid() && (r.None? <==> old(free) == [])
      ensures r.None? ==> Now() == old(Now())
      ensures r.Some? ==> r.value == old(free)[0] < |old(mem)| && r.value !in old(uses)
      ensures r.Some? ==> Now() == Grab(old(Now()), Fill(FIVES)) && LeavesSame(old(Now()), Now())
    {
      if free == [] {
        return None;
      }
      GrabKeeps(Now(), Fill(FIVES));
      var f := free[0];
      free, mem := free[1..], mem[f := Fill(FIVES)];
      uses := uses[f := Held];
      return Some(f);
    }

    /** kfree of a page that is not a page table; its panic cannot happen. */
    method Kfree(f: nat)
      requires Valid() && f in uses && !uses[f].Table?
      modifies this`mem, this`free, this`uses
      ensures Valid() && f < |old(mem)| && Now() == Drop(old(Now()), f, Fill(ONES)) && LeavesSame(old(Now()), Now())
    {
      DropKeeps(Now(), f, Fill(ONES));
      mem, free := mem[f := Fill(ONES)], [f] + free;
      uses := uses - {f};
    }

    /** One level of walk. */
    method Descend(table: nat, i: nat, alloc: bool, ghost n: Node) returns (r: Option<nat>)
      requires Valid() && n in nodes && n.level > 0 && table == nodes[n] && i < NPTE
      modifies this`mem, this`free, this`uses, this`nodes
      ensures Valid() && Grew(old(Now()), Now(), n.space) && LeavesSame(old(Now()), Now())
      ensures r.Some? ==> n.Child(i) in nodes && r.value == nodes[n.Child(i)]
      ensures r.None? ==> Now() == old(Now()) && n.Child(i) !in nodes && (alloc ==> free == [])
      ensures |free| + 1 >= |old(free)|
      ensures !alloc ==> Now() == old(Now())
    {
      hide Grew, LeavesSame, Vm.Valid, Vm.Counted, IsValid, FrameOf;
      ghost var v := Now();
      GrewNothing(v, n.space);
      Entry(v, n, i);
      var w := mem[table][i];
      if IsValid(w) {
        return Some(FrameOf(w));
      }
      if !alloc {
        return None;
      }
      var f := Kalloc();
      if f.None? {
        return None;
      }
      GrewChild(v, n, i);
      mem := mem[f.value := Fill(0)];
      var page: Words := mem[table][i := MakePte(f.value, 0)];
      mem := mem[table := page];
      uses, nodes := uses[f.value := Table(n.Child(i))], nodes[n.Child(i) := f.value];
      assert Now() == AddChild(v, n, i);
      return f;
    }

    /** walk: the slot of page p, in the one node that holds it; no leaf of any space changes, and
        without alloc nothing does. */
    method Walk(root: nat, p: nat, alloc: bool, ghost s: nat) returns (r: Option<Slot>)
      requires Valid() && Node(s, 2, 0) in nodes && root == nodes[Node(s, 2, 0)] && p < MAXVPN
      modifies this`mem, this`free, this`uses, this`nodes
      ensures Valid() && Grew(old(Now()), Now(), s) && LeavesSame(old(Now()), Now())
      ensures r.Some? ==> Node(s, 0, p / NPTE) in nodes && r.value == Slot(nodes[Node(s, 0, p / NPTE)], p % NPTE)
      ensures |free| + 2 >= |old(free)| && (r.None? && alloc ==> |old(free)| < 2 && free == [])
      ensures !alloc ==> Now() == old(Now()) && (r.Some? <==> Node(s, 0, p / NPTE) in nodes)
    {
      hide Grew, LeavesSame, Vm.Valid, Vm.Counted, Prefix;
      var table, level := root, 2;
      PrefixEnds(p);
      GrewNothing(Now(), s);
      while level > 0
        invariant 0 <= level <= 2 && Node(s, level, Prefix(p, level)) in nodes
        invariant table == nodes[Node(s, level, Prefix(p, level))]
        invariant Valid() && Grew(old(Now()), Now(), s) && LeavesSame(old(Now()), Now())
        invariant !alloc ==> Now() == old(Now())
        invariant |free| + (2 - level) >= |old(free)|
      {
        ghost var v := Now();
        Down(s, p, level);
        var t := Descend(table, Index(p, level), alloc, Node(s, level, Prefix(p, level)));
        GrewTwice(old(Now()), v, Now(), s);
        if t.None? {
          if level == 2 { NoGrandchild(Now(), s, p); }
          return None;
        }
        table, level := t.value, level - 1;
      }
      return Some(Slot(table, Index(p, 0)));
    }

    /** One turn of mappages; its panic on a page mapped already is what it requires against. */
    method MapPage(root: nat, p: nat, frame: nat, perm: nat, ghost s: nat) returns (ok: bool)
      requires Valid() && Node(s, 2, 0) in nodes && root == nodes[Node(s, 2, 0)] && p < MAXVPN
      requires perm < 1024 && perm / 2 % 8 != 0 && Now().Leaf(s, p) == 0
      modifies this`mem, this`free, this`uses, this`nodes
      ensures Valid() && Grew(old(Now()), Now(), s)
      ensures ok ==> LeavesExcept(old(Now()), Now(), s, p, MakePte(frame, perm))
      ensures !ok ==> LeavesSame(old(Now()), Now()) && free == []
      ensures |free| + 2 >= |old(free)| && (!ok ==> |old(free)| < 2)
    {
      hide Grew, Vm.Valid, Vm.Counted;
      var slot := Walk(root, p, true, s);
      if slot.None? {
        return false;
      }
      ghost var v := Now();
      var t, i := slot.value.page, slot.value.index;
      Entry(v, Node(s, 0, p / NPTE), i);
      PteParts(frame, perm);
      GrewLeaf(v, s, p, MakePte(frame, perm));
      var page: Words := mem[t][i := MakePte(frame, perm)];
      mem := mem[t := page];
      assert Now() == SetLeaf(v, s, p, MakePte(frame, perm));
      GrewTwice(old(Now()), v, Now(), s);
      return true;
    }

    /** mappages: on success exactly the pages of [va, va + size) are mapped, to consecutive physical
        pages; on failure a first part of them is, and memory is out. */
    method Mappages(root: nat, va: nat, size: nat, pa: nat, perm: nat, ghost s: nat) returns (r: int, ghost done: nat)
      requires Valid() && Node(s, 2, 0) in nodes && root == nodes[Node(s, 2, 0)]
      requires size > 0 && va + size <= MAXVPN * PGSIZE && perm < 1024 && perm / 2 % 8 != 0
      requires forall p | va / PGSIZE <= p <= (va + size - 1) / PGSIZE :: Now().Leaf(s, p) == 0
      modifies this`mem, this`free, this`uses, this`nodes
      ensures Valid() && Grew(old(Now()), Now(), s) && r in {0, -1}
      ensures va / PGSIZE <= done <= (va + size - 1) / PGSIZE + 1
      ensures MapsRange(old(Now()), Now(), s, va / PGSIZE, done, pa / PGSIZE, perm)
      ensures r == 0 <==> done == (va + size - 1) / PGSIZE + 1
      ensures |free| + 2 * (done - va / PGSIZE) + (if r == 0 then 0 else 2) >= |old(free)|
      ensures r == -1 ==> free == [] && |old(free)| < 2 * (done - va / PGSIZE) + 2
    {
      hide Grew, Vm.Valid, Vm.Counted, MapsRange, LeavesExcept, LeavesSame;
      var a, last, frame := va / PGSIZE, (va + size - 1) / PGSIZE, pa / PGSIZE;
      MapsNone(Now(), s, a, frame, perm);
      GrewNothing(Now(), s);
      ghost var v := Now();
      while true
        invariant va / PGSIZE <= a <= last && frame == pa / PGSIZE + (a - va / PGSIZE)
        invariant Valid() && Node(s, 2, 0) in nodes && root == nodes[Node(s, 2, 0)]
        invariant Grew(v, Now(), s) && MapsRange(v, Now(), s, va / PGSIZE, a, pa / PGSIZE, perm)
        invariant |free| + 2 * (a - va / PGSIZE) >= |old(free)|
        decreases last - a
      {
        ghost var u := Now();
        RangeAt(v, u, s, va / PGSIZE, a, pa / PGSIZE, perm);
        var ok := MapPage(root, a, frame, perm, s);
        MapsMore(v, u, Now(), s, va / PGSIZE, a, pa / PGSIZE, perm);
        GrewTwice(v, u, Now(), s);
        GrewRoot(u, Now(), s);
        if !ok {
          return -1, a;
        }
        if a == last {
          break;
        }
        a, frame := a + 1, frame + 1;
      }
      return 0, last + 1;
    }

    /** One turn of uvmunmap. Its three panics are what it requires against: an entry that is not 0 is
        a valid leaf. */
    method UnmapPage(root: nat, p: nat, doFree: bool, ghost s: nat)
      requires Valid() && Tight(Now()) && Node(s, 2, 0) in nodes && root == nodes[Node(s, 2, 0)] && p < MAXVPN
      requires Now().Leaf(s, p) != 0 && (doFree ==> BackedAt(Now(), s, p))
      modifies this`mem, this`free, this`uses, this`nodes
      ensures Valid() && Unmapped(old(Now()), Now(), s, p, p + 1, doFree)
    {
      hide Grew, LeavesSame, Vm.Valid, Vm.Counted, Unmapped, PageOk;
      ghost var v := Now();
      UnmapOne(v, s, p);
      var slot := Walk(root, p, false, s);
      var t, i := slot.value.page, slot.value.index;
      Entry(v, Node(s, 0, p / NPTE), i);
      if doFree {
        UnmapFree(v, s, p, Fill(ONES));
        Kfree(FrameOf(mem[t][i]));
        Entry(Now(), Node(s, 0, p / NPTE), i);
      }
      ghost var e := Now();
      var page: Words := mem[t][i := 0];
      mem := mem[t := page];
      assert Now() == SetLeaf(e, s, p, 0);
      UnmappedValid(v, Now(), s, p, p + 1, doFree);
    }

    /** uvmunmap: exactly the pages of the range are unmapped and, if asked, freed. */
    method Uvmunmap(root: nat, p: nat, npages: nat, doFree: bool, ghost s: nat)
      requires Valid() && Tight(Now()) && Node(s, 2, 0) in nodes && root == nodes[Node(s, 2, 0)] && p + npages <= MAXVPN
      requires forall q | p <= q < p + npages :: Now().Leaf(s, q) != 0
      requires doFree ==> Backed(Now(), s, p, p + npages)
      requires !doFree ==> forall f <- uses :: !(uses[f].Page? && uses[f].space == s && p <= uses[f].vpn < p + npages)
      modifies this`mem, this`free, this`uses, this`nodes
      ensures Valid() && Tight(Now()) && Unmapped(old(Now()), Now(), s, p, p + npages, doFree)
    {
      hide Vm.Valid, Vm.Counted, Unmapped, PageOk, BackedAt, Tight;
      ghost var v := Now();
      UnmappedNone(v, s, p, doFree);
      var a := p;
      while a < p + npages
        invariant p <= a <= p + npages && Node(s, 2, 0) in nodes && root == nodes[Node(s, 2, 0)]
        invariant Valid() && Tight(Now()) && Unmapped(v, Now(), s, p, a, doFree)
      {
        ghost var u := Now();
        UnmappedAt(v, u, s, p, a, doFree);
        UnmapPage(root, a, doFree, s);
        UnmappedTwice(v, u, Now(), s, p, a, a + 1, doFree);
        UnmappedTight(v, Now(), s, p, a + 1, doFree);
        a := a + 1;
      }
    }

    /** The body that uvmalloc and uvmcopy share: kalloc, fill, mappages of one page, and kfree where
        that fails. */
    method AddPage(root: nat, p: nat, words: Words, perm: nat, ghost s: nat) returns (ok: bool)
      requires Valid() && Node(s, 2, 0) in nodes && root == nodes[Node(s, 2, 0)] && |words| == NPTE
      requires free != [] ==> p < MAXVPN && Now().Leaf(s, p) == 0
      requires perm < 1024 && perm / 2 % 8 != 0
      modifies this`mem, this`free, this`uses, this`nodes
      ensures Valid() && Node(s, 2, 0) in nodes && root == nodes[Node(s, 2, 0)]
      ensures ok ==> Filled(old(Now()), Now(), s, p, p + 1)
      ensures ok ==> Holds(Now(), s, p, if perm % 2 == 0 then perm + 1 else perm, words)
      ensures !ok ==> Grew(old(Now()), Now(), s) && LeavesSame(old(Now()), Now())
      ensures if ok then |free| + 3 >= |old(free)| else |old(free)| < 3
    {
      hide Grew, Filled, LeavesSame, Vm.Valid, Vm.Counted, MapsRange, Holds, Vm.Leaf;
      ghost var v := Now();
      GrewNothing(v, s);
      var f := Kalloc();
      if f.None? {
        return false;
      }
      mem := mem[f.value := words];
      GrabKeeps(v, words);
      assert Now() == Grab(v, words);
      SameAt(v, Now(), s, p);
      assert (p * PGSIZE + PGSIZE - 1) / PGSIZE == p;
      var r, done := Mappages(root, p * PGSIZE, PGSIZE, f.value * PGSIZE, perm, s);
      GrewRoot(Grab(v, words), Now(), s);
      if r != 0 {
        MapsOne(Grab(v, words), Now(), s, p, f.value, perm);
        AddedNothing(v, Now(), s, words, Fill(ONES));
        Kfree(f.value);
        return false;
      }
      ghost var x := Now();
      AddedPage(v, x, s, p, perm, words);
      uses := uses[f.value := Page(s, p)];
      FilledValid(v, Now(), s, p, p + 1);
      return true;
    }

    /** uvmdealloc */
    method Uvmdealloc(root: nat, oldsz: nat, newsz: nat, ghost s: nat) returns (r: nat)
      requires Valid() && Tight(Now()) && Node(s, 2, 0) in nodes && root == nodes[Node(s, 2, 0)]
      requires newsz < oldsz ==> Up(oldsz) <= MAXVPN && Backed(Now(), s, Up(newsz), Up(oldsz))
      modifies this`mem, this`free, this`uses, this`nodes
      ensures Valid() && Tight(Now())
      ensures newsz >= oldsz ==> r == oldsz && Now() == old(Now())
      ensures newsz < oldsz ==> r == newsz && Unmapped(old(Now()), Now(), s, Up(newsz), Up(oldsz), true)
    {
      hide Vm.Valid, Vm.Counted, Unmapped, Tight;
      if newsz >= oldsz {
        return oldsz;
      }
      UnmappedNone(Now(), s, Up(newsz), true);
      if Up(newsz) < Up(oldsz) {
        forall q | Up(newsz) <= q < Up(oldsz) ensures Now().Leaf(s, q) != 0 { assert BackedAt(Now(), s, q); }
        Uvmunmap(root, Up(newsz), Up(oldsz) - Up(newsz), true, s);
      }
      return newsz;
    }

    /** uvmalloc: on success every page added is zeroed, user-accessible and the space's own; on
        failure every leaf of every space is as before and the pages taken are free again, but for
        page-table pages. Neither the panic of walk nor that of mappages can happen, because memory
        runs out before the space does. */
    method Uvmalloc(root: nat, oldsz: nat, newsz: nat, ghost s: nat) returns (r: nat)
      requires Valid() && Tight(Now()) && Node(s, 2, 0) in nodes && root == nodes[Node(s, 2, 0)] && |mem| <= TOP
      requires Backed(Now(), s, 0, Up(oldsz)) && forall q | Up(oldsz) <= q < TOP :: Now().Leaf(s, q) == 0
      modifies this`mem, this`free, this`uses, this`nodes
      ensures Valid() && Tight(Now()) && Node(s, 2, 0) in nodes && root == nodes[Node(s, 2, 0)]
      ensures newsz < oldsz ==> r == oldsz && Now() == old(Now())
      ensures newsz >= oldsz ==> r in {newsz, 0}
      ensures newsz >= oldsz && r == newsz > 0 ==> Filled(old(Now()), Now(), s, Up(oldsz), Up(newsz))
      ensures newsz >= oldsz && r == newsz > 0 ==>
                forall q | Up(oldsz) <= q < Up(newsz) :: Holds(Now(), s, q, VRWXU, Fill(0))
      ensures newsz >= oldsz && r == 0 ==> Grew(old(Now()), Now(), s) && LeavesSame(old(Now()), Now())
      ensures newsz >= oldsz ==>
                if r == 0 < newsz then |old(free)| < 3 * (Up(newsz) - Up(oldsz))
                else |free| + 3 * (Up(newsz) - Up(oldsz)) >= |old(free)|
    {
      hide Vm.Valid, Vm.Counted, Vm.Leaf, Filled, Unmapped, Tight, Grew, LeavesSame, Holds, BackedAt;
      if newsz < oldsz {
        return oldsz;
      }
      ghost var v := Now();
      FilledNone(v, s, Up(oldsz));
      GrewNothing(v, s);
      var a := Up(oldsz);
      while a * PGSIZE < newsz
        invariant Up(oldsz) <= a <= Up(newsz) && Valid() && Tight(Now()) && (a == 0 ==> Now() == v)
        invariant Node(s, 2, 0) in nodes && root == nodes[Node(s, 2, 0)] && |mem| == |v.mem|
        invariant Filled(v, Now(), s, Up(oldsz), a) && Backed(Now(), s, 0, a)
        invariant forall q | Up(oldsz) <= q < a :: Holds(Now(), s, q, VRWXU, Fill(0))
        invariant |free| + 3 * (a - Up(oldsz)) >= |old(free)|
      {
        ghost var u := Now();
        BackedBelow(u, s, a);
        FilledAbove(v, u, s, Up(oldsz), a, a);
        var ok := AddPage(root, a, Fill(0), RWXU, s);
        if !ok {
          FilledGrew(v, u, Now(), s, Up(oldsz), a);
          GiveUp(root, Up(oldsz), a, s, v);
          return 0;
        }
        FilledTwice(v, u, Now(), s, Up(oldsz), a, a + 1);
        FilledTight(u, Now(), s, a, a + 1);
        FilledBacked(u, Now(), s, a, a + 1);
        FilledValid(u, Now(), s, a, a + 1);
        HoldsAll(u, Now(), s, Up(oldsz), a, VRWXU, Fill(0));
        a := a + 1;
      }
      return newsz;
    }

    /** The way out of uvmalloc: what was filled is given up. */
    method GiveUp(root: nat, start: nat, a: nat, ghost s: nat, ghost v: Vm)
      requires Valid() && Filled(v, Now(), s, start, a) && Tight(v) && start <= a <= MAXVPN
      requires Node(s, 2, 0) in nodes && root == nodes[Node(s, 2, 0)]
      modifies this`mem, this`free, this`uses, this`nodes
      ensures Valid() && Tight(Now()) && Node(s, 2, 0) in nodes && root == nodes[Node(s, 2, 0)]
      ensures Grew(v, Now(), s) && LeavesSame(v, Now())
    {
      hide Vm.Valid, Vm.Counted, Vm.Leaf, Filled, Unmapped, Tight, Grew, LeavesSame, BackedAt;
      ghost var u := Now();
      FilledTight(v, u, s, start, a);
      FilledBacked(v, u, s, start, a);
      UnmappedNone(u, s, start, true);
      assert Up(a * PGSIZE) == a && Up(start * PGSIZE) == start;
      var r := Uvmdealloc(root, a * PGSIZE, start * PGSIZE, s);
      UnmappedValid(u, Now(), s, start, a, true);
      FilledUndone(v, u, Now(), s, start, a);
    }

    /** One turn of uvmcopy. */
    method CopyPage(parent: nat, child: nat, p: nat, ghost s: nat, ghost t: nat) returns (ok: bool)
      requires Valid() && Node(s, 2, 0) in nodes && parent == nodes[Node(s, 2, 0)] && s != t
      requires Node(t, 2, 0) in nodes && child == nodes[Node(t, 2, 0)]
      requires p < MAXVPN && BackedAt(Now(), s, p) && Now().Leaf(t, p) == 0
      modifies this`mem, this`free, this`uses, this`nodes
      ensures Valid() && Node(t, 2, 0) in nodes && child == nodes[Node(t, 2, 0)]
      ensures ok ==> Filled(old(Now()), Now(), t, p, p + 1) && CopiedAt(old(Now()), Now(), s, t, p)
      ensures !ok ==> Grew(old(Now()), Now(), t) && LeavesSame(old(Now()), Now())
      ensures if ok then |free| + 3 >= |old(free)| else |old(free)| < 3
    {
      hide Vm.Valid, Vm.Counted, Vm.Leaf, Filled, Grew, LeavesSame, FlagsOf, FrameOf, Holds;
      ghost var v := Now();
      BackedLeaf(v, s, p);
      UsesBelow(v);
      var slot := Walk(parent, p, false, s);
      var w := mem[slot.value.page][slot.value.index];
      FlagsLeaf(w);
      PageSized(v, FrameOf(w));
      ok := AddPage(child, p, mem[FrameOf(w)], FlagsOf(w), t);
    }

    /** uvmcopy: on success the child has, below sz, a page of its own for each of the parent's, with
        the same content and flags; on failure every leaf is as before and only page-table pages of
        the child stay in use. */
    method Uvmcopy(parent: nat, child: nat, sz: nat, ghost s: nat, ghost t: nat) returns (r: int)
      requires Valid() && Tight(Now()) && Node(s, 2, 0) in nodes && parent == nodes[Node(s, 2, 0)] && s != t
      requires Node(t, 2, 0) in nodes && child == nodes[Node(t, 2, 0)] && Up(sz) <= TOP
      requires Backed(Now(), s, 0, Up(sz)) && forall q | 0 <= q < Up(sz) :: Now().Leaf(t, q) == 0
      modifies this`mem, this`free, this`uses, this`nodes
      ensures Valid() && Tight(Now()) && Node(t, 2, 0) in nodes && child == nodes[Node(t, 2, 0)] && r in {0, -1}
      ensures r == 0 ==> Filled(old(Now()), Now(), t, 0, Up(sz))
      ensures r == 0 ==> forall q | 0 <= q < Up(sz) :: CopiedAt(old(Now()), Now(), s, t, q)
      ensures r == -1 ==> Grew(old(Now()), Now(), t) && LeavesSame(old(Now()), Now()) && |old(free)| < 3 * Up(sz)
    {
      hide Vm.Valid, Vm.Counted, Vm.Leaf, Filled, Grew, LeavesSame, BackedAt, Tight, CopiedAt, Unmapped;
      ghost var v := Now();
      FilledNone(v, t, 0);
      var i := 0;
      while i * PGSIZE < sz
        invariant 0 <= i <= Up(sz) && Valid() && Tight(Now())
        invariant Node(s, 2, 0) in nodes && parent == nodes[Node(s, 2, 0)]
        invariant Node(t, 2, 0) in nodes && child == nodes[Node(t, 2, 0)]
        invariant Filled(v, Now(), t, 0, i) && forall q | 0 <= q < i :: CopiedAt(v, Now(), s, t, q)
        invariant |free| + 3 * i >= |old(free)|
      {
        ghost var u := Now();
        FilledOther(v, u, s, t, i, i);
        FilledAbove(v, u, t, 0, i, i);
        var ok := CopyPage(parent, child, i, s, t);
        if !ok {
          FilledGrew(v, u, Now(), t, 0, i);
          Undo(child, i, t, v);
          return -1;
        }
        FilledTwice(v, u, Now(), t, 0, i, i + 1);
        FilledTight(u, Now(), t, i, i + 1);
        FilledValid(u, Now(), t, i, i + 1);
        CopiedFrom(v, u, Now(), s, t, i);
        CopiedAll(v, u, Now(), s, t, i);
        i := i + 1;
      }
      return 0;
    }

    /** The error exit of uvmcopy. */
    method Undo(child: nat, i: nat, ghost t: nat, ghost v: Vm)
      requires Valid() && Filled(v, Now(), t, 0, i) && Tight(v) && i <= MAXVPN
      requires Node(t, 2, 0) in nodes && child == nodes[Node(t, 2, 0)]
      modifies this`mem, this`free, this`uses, this`nodes
      ensures Valid() && Tight(Now()) && Node(t, 2, 0) in nodes && child == nodes[Node(t, 2, 0)]
      ensures Grew(v, Now(), t) && LeavesSame(v, Now())
    {
      hide Vm.Valid, Vm.Counted, Vm.Leaf, Filled, Unmapped, Tight, Grew, LeavesSame;
      ghost var u := Now();
      FilledTight(v, u, t, 0, i);
      FilledBacked(v, u, t, 0, i);
      forall q | 0 <= q < i ensures u.Leaf(t, q) != 0 { assert BackedAt(u, t, q); }
      Uvmunmap(child, 0, i, true, t);
      UnmappedValid(u, Now(), t, 0, i, true);
      FilledUndone(v, u, Now(), t, 0, i);
    }

    /** One turn of freewalk: the subtree under entry i is freed and the entry cleared. */
    method FreeChild(table: nat, i: nat, ghost n: Node)
      requires Valid() && n in nodes && table == nodes[n] && i < NPTE && NoLeaves(Now(), n.space) && n.level <= 2
      modifies this`mem, this`free, this`uses, this`nodes
      ensures Valid() && n in nodes && table == nodes[n] && NoLeaves(Now(), n.space)
      ensures Pruned(old(Now()), Now(), if n.level == 0 then {} else Subtree(old(nodes), n.Child(i)))
      decreases n.level, 0
    {
      hide Vm.Valid, Vm.Counted, Pruned, NoLeaves, Subtree, LeavesSame, IsLeaf, FrameOf;
      ghost var v := Now();
      PrunedNone(v);
      Entry(v, n, i);
      if n.level == 0 {
        NoLeavesAt(v, n, i);
      } else {
        Link(v, n, i);
        NotBelow(v.nodes, n, i);
      }
      var w := mem[table][i];
      if IsValid(w) && !IsLeaf(w) {
        Freewalk(FrameOf(w), n.Child(i));
        PrunedNoLeaves(v, Unlinked(Now(), n.Child(i)), Subtree(v.nodes, n.Child(i)), n.space);
        NodeBelow(Now(), n);
        UnlinkedChild(Now(), n, i);
        var page: Words := mem[table][i := 0];
        mem := mem[table := page];
      } else {
        // The leaf panic is unreachable.
        assert !IsValid(w);
        if n.level > 0 { NoSubtree(v, n.Child(i)); }
      }
    }

    /** freewalk: the page-table pages under n, its own included, become free, and no others; once the
        entry that led here is cleared all trees are whole. */
    method Freewalk(table: nat, ghost n: Node)
      requires Valid() && n in nodes && table == nodes[n] && NoLeaves(Now(), n.space) && n.level <= 2
      modifies this`mem, this`free, this`uses, this`nodes
      ensures Now().Counted()
      ensures n.Parent() in nodes ==> nodes[n.Parent()] < |mem| && |mem[nodes[n.Parent()]]| == NPTE
      ensures Pruned(old(Now()), Unlinked(Now(), n), Subtree(old(nodes), n))
      decreases n.level, 1
    {
      hide Vm.Valid, Vm.Counted, Pruned, NoLeaves, Subtree, FirstSubtrees, Empty;
      ghost var v := Now();
      PrunedNone(v);
      NoFirst(v.nodes, n, 0);
      var i := 0;
      while i < NPTE
        invariant i <= NPTE && Valid() && n in nodes && table == nodes[n] && NoLeaves(Now(), n.space)
        invariant Pruned(v, Now(), FirstSubtrees(v.nodes, n, i))
      {
        ghost var u := Now();
        FreeChild(table, i, n);
        ghost var gone := if n.level == 0 then {} else Subtree(u.nodes, n.Child(i));
        PrunedTwice(v, u, Now(), FirstSubtrees(v.nodes, n, i), gone);
        PrunedNoLeaves(v, u, FirstSubtrees(v.nodes, n, i), n.space);
        if n.level > 0 {
          NextSubtree(v.nodes, n, i);
        } else {
          NoFirst(v.nodes, n, i);
          NoFirst(v.nodes, n, i + 1);
          assert FirstSubtrees(v.nodes, n, i) + gone == FirstSubtrees(v.nodes, n, i + 1);
        }
        i := i + 1;
      }
      ghost var w := Now();
      EmptyNow(v, w, n);
      PrunedOne(w, n, Fill(ONES));
      NodeBelow(w, n);
      mem, free := mem[table := Fill(ONES)], [table] + free;
      uses, nodes := uses - {table}, nodes - {n};
      assert Now() == DropNode(w, n, Fill(ONES));
      if n.Parent() in nodes { NodeBelow(Now(), n.Parent()); }
      PrunedTwice(v, w, Unlinked(Now(), n), FirstSubtrees(v.nodes, n, NPTE), {n});
      LastSubtree(v.nodes, n);
    }

    /** uvmcreate, for a space that has nothing yet. */
    method Uvmcreate(ghost s: nat) returns (r: Option<nat>)
      requires Valid() && Tight(Now()) && Absent(Now(), s)
      modifies this`mem, this`free, this`uses, this`nodes
      ensures Valid() && Tight(Now()) && Outside(old(Now()), Now(), s)
      ensures r.None? ==> old(free) == free == [] && Absent(Now(), s)
      ensures |free| + 1 >= |old(free)|
      ensures r.Some? ==> Node(s, 2, 0) in nodes && r.value == nodes[Node(s, 2, 0)] && NoLeaves(Now(), s)
    {
      hide Vm.Valid, Vm.Counted, Tight, Outside, NoLeaves, LeavesSame, Absent;
      ghost var v := Now();
      OutsideNothing(v, s);
      r := Kalloc();
      if r.None? {
        return;
      }
      AddRootKeeps(v, s);
      mem := mem[r.value := Fill(0)];
      uses, nodes := uses[r.value := Table(Node(s, 2, 0))], nodes[Node(s, 2, 0) := r.value];
      assert Now() == AddRoot(v, s);
      AddRootTight(v, s);
    }

    /** uvmfree: the space is gone, everything it had is free, and nothing else has changed. */
    method Uvmfree(root: nat, sz: nat, ghost s: nat)
      requires Valid() && Tight(Now()) && Node(s, 2, 0) in nodes && root == nodes[Node(s, 2, 0)]
      requires Up(sz) <= MAXVPN && Backed(Now(), s, 0, Up(sz)) && forall q | Up(sz) <= q :: Now().Leaf(s, q) == 0
      modifies this`mem, this`free, this`uses, this`nodes
      ensures Valid() && Tight(Now()) && Outside(old(Now()), Now(), s) && Absent(Now(), s)
    {
      hide Vm.Valid, Vm.Counted, Vm.Leaf, Tight, Outside, Unmapped, NoLeaves, Absent, Pruned, Subtree;
      ghost var v := Now();
      UnmappedNone(v, s, 0, true);
      if sz > 0 {
        forall q | 0 <= q < Up(sz) ensures v.Leaf(s, q) != 0 { assert BackedAt(v, s, q); }
        Uvmunmap(root, 0, Up(sz), true, s);
      }
      ghost var u := Now();
      UnmappedValid(v, u, s, 0, Up(sz), true);
      UnmappedAll(v, u, s, Up(sz));
      OutsideUnmapped(v, u, s, 0, Up(sz), true);
      NoLeavesNoPages(u, s);
      Freewalk(root, Node(s, 2, 0));
      RootHasNoParent(Now(), s);
      OutsidePruned(u, Now(), s);
      PrunedTight(u, Now(), Subtree(u.nodes, Node(s, 2, 0)));
      PrunedNoLeaves(u, Now(), Subtree(u.nodes, Node(s, 2, 0)), s);
      OutsideTwice(v, u, Now(), s);
    }

    /** memmove and the like into a page that is not a page table. */
    method Store(f: nat, words: Words)
      requires Valid() && Tight(Now()) && f in uses && !uses[f].Table? && |words| == NPTE
      modifies this`mem
      ensures Valid() && Tight(Now()) && f < |old(mem)| && Now() == old(Now()).(mem := old(mem)[f := words])
      ensures LeavesSame(old(Now()), Now())
    {
      StoreKeeps(Now(), f, words);
      SameTight(Now(), Now().(mem := mem[f := words]));
      mem := mem[f := words];
    }

    /** walkaddr: the page behind a user-accessible page, None where there is none. */
    method Walkaddr(root: nat, p: nat, ghost s: nat) returns (r: Option<nat>)
      requires Valid() && Node(s, 2, 0) in nodes && root == nodes[Node(s, 2, 0)]
      modifies this`mem, this`free, this`uses, this`nodes
      ensures Now() == old(Now())
      ensures r.Some? <==> p < MAXVPN && Now().Leaf(s, p) != 0 && Now().Leaf(s, p) / PTE_U % 2 == 1
      ensures r.Some? ==> r.value == FrameOf(Now().Leaf(s, p))
    {
      hide Vm.Valid, Vm.Counted, Grew, LeavesSame;
      if p >= MAXVPN {
        return None;
      }
      var slot := Walk(root, p, false, s);
      if slot.None? {
        return None;
      }
      Entry(Now(), Node(s, 0, p / NPTE), slot.value.index);
      if Now().Leaf(s, p) != 0 { BackedLeaf(Now(), s, p); }
      var w := mem[slot.value.page][slot.value.index];
      if !IsValid(w) || w / PTE_U % 2 == 0 {
        return None;
      }
      return Some(FrameOf(w));
    }

    /** uvmclear of a mapped page: it stays mapped to the same page. */
    method Uvmclear(root: nat, p: nat, ghost s: nat)
      requires Valid() && Node(s, 2, 0) in nodes && root == nodes[Node(s, 2, 0)] && p < MAXVPN && Now().Leaf(s, p) != 0
      modifies this`mem, this`free, this`uses, this`nodes
      ensures Valid() && Grew(old(Now()), Now(), s) && uses == old(uses) && nodes == old(nodes) && free == old(free)
      ensures LeavesExcept(old(Now()), Now(), s, p, Cleared(old(Now()).Leaf(s, p)))
      ensures FrameOf(Now().Leaf(s, p)) == FrameOf(old(Now()).Leaf(s, p)) && Now().Leaf(s, p) != 0
    {
      hide Vm.Valid, Vm.Counted, Grew, LeavesSame, IsValid, IsLeaf, FrameOf, Cleared;
      ghost var v := Now();
      BackedLeaf(v, s, p);
      ClearedLeaf(v.Leaf(s, p));
      GrewLeaf(v, s, p, Cleared(v.Leaf(s, p)));
      var slot := Walk(root, p, false, s);
      var t, i := slot.value.page, slot.value.index;
      var page: Words := mem[t][i := Cleared(mem[t][i])];
      mem := mem[t := page];
      assert Now() == SetLeaf(v, s, p, Cleared(v.Leaf(s, p)));
      ExceptAt(v, Now(), s, p, Cleared(v.Leaf(s, p)));
    }
  }
}
