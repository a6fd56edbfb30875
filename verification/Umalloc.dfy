/** The Kernighan and Ritchie allocator of user/umalloc.c. Addresses and sizes count
    headers of 16 bytes. */
module Umalloc {
  import opened Basics
  import opened FreeList

  const HEADER: nat := 16
  const MINCORE: nat := 4096

  const MAXREQUEST: nat := 0x800_0000  // 2^27 headers are 2^31 bytes

  /** The conversion of a 64-bit byte count to sbrk's int parameter. */
  function ToInt32(x: nat): (n: int)
    ensures -0x8000_0000 <= n < 0x8000_0000 && (x - n) % 0x1_0000_0000 == 0
  {
    var m := x % 0x1_0000_0000;
    if m < 0x8000_0000 then m else m - 0x1_0000_0000
  }

  function Grown(brk: nat, n: int): nat
  {
    if n >= 0 then brk + n / HEADER
    else if (-n) / HEADER <= brk then brk - (-n) / HEADER
    else brk
  }

  /** How many headers morecore asks for. */
  function Request(nu: nat): (n: nat)
    ensures n >= nu && n >= 4096 && (n == nu || n == 4096)
  {
    if nu < MINCORE then MINCORE else nu
  }

  predicate Refused(nu: nat, refuse: bool)
  {
    ToInt32(Request(nu) * HEADER) > 0 && refuse
  }

  /** sbrk can refuse a request only if its byte count is positive as an int: not from two gigabytes up,
      until it wraps around to 16. */
  lemma RefusedIff(nbytes: nat, refuse: bool)
    requires nbytes < 0x1_0000_0000
    ensures Refused(NUnits(nbytes), refuse) <==> refuse && (nbytes <= 0x7fff_ffe0 || nbytes > 0xffff_fff0)
    ensures Request(NUnits(nbytes)) < MAXREQUEST <==> nbytes <= 0x7fff_ffe0
  {
  }

  /** The break moves by what was asked for exactly if the request fits an int. */
  lemma RequestGranted(brk: nat, n: nat)
    requires n > 0
    ensures Grown(brk, ToInt32(n * HEADER)) >= brk + n <==> n < MAXREQUEST
    ensures n < MAXREQUEST ==> Grown(brk, ToInt32(n * HEADER)) == brk + n
  {
  }

  /** The free block at f contains b. */
  ghost predicate Contains(free: seq<Blk>, f: int, b: Blk)
  {
    0 <= f < |free| && free[f].addr <= b.addr && b.End() <= free[f].End()
  }

  /** The block size in headers for a request in bytes, its own header included. */
  function NUnits(nbytes: nat): (n: nat)
    ensures n > 0 && (n - 2) * 16 < nbytes <= (n - 1) * 16
  {
    (nbytes + HEADER - 1) / HEADER + 1
  }

  ghost predicate TooSmall(free: seq<Blk>, n: nat)
  {
    forall i | 0 <= i < |free| :: free[i].size < n
  }

  /** No free block has room for so many bytes after its header. */
  ghost predicate NoRoom(free: seq<Blk>, nbytes: nat)
  {
    forall i | 0 <= i < |free| :: (free[i].size - 1) * 16 < nbytes
  }

  lemma NoRoomIff(free: seq<Blk>, nbytes: nat)
    ensures NoRoom(free, nbytes) <==> TooSmall(free, NUnits(nbytes))
  {
    var n := NUnits(nbytes);
    forall i | 0 <= i < |free| ensures (free[i].size - 1) * 16 < nbytes <==> free[i].size < n {
    }
  }

  ghost function Units(b: Blk): set<nat>
  {
    set u | b.addr <= u < b.End() && b.Holds(u)
  }

  ghost predicate InAlloc(alloc: map<nat, nat>, u: nat)
  {
    exists a :: a in alloc && Blk(a, alloc[a]).Holds(u)
  }

  /** Every claimed header belongs to exactly one block, free or allocated. */
  ghost predicate Tiled(free: seq<Blk>, alloc: map<nat, nat>, claimed: set<nat>)
  {
    && Ordered(free)
    && (forall a <- alloc :: alloc[a] > 0 && free[0].addr < a)
    && (forall a <- alloc, b <- alloc :: a < b ==> a + alloc[a] <= b)
    && (forall u: nat :: !(InFree(free, u) && InAlloc(alloc, u)))
    && (forall u: nat :: u in claimed <==> InFree(free, u) || InAlloc(alloc, u))
  }

  /** Between which free blocks an allocated block lies. */
  lemma AllocatedFits(free: seq<Blk>, alloc: map<nat, nat>, claimed: set<nat>, k: nat, a: nat)
    requires Tiled(free, alloc, claimed) && a in alloc && k < |free|
    requires free[k].addr < a && (k + 1 < |free| ==> a < free[k + 1].addr)
    ensures Fits(free, k, Blk(a, alloc[a]))
  {
    assert Blk(a, alloc[a]).Holds(a);
    assert InAlloc(alloc, a);
    assert free[k].End() > a ==> free[k].Holds(a);
    if k + 1 < |free| {
      var u := free[k + 1].addr;
      assert free[k + 1].Holds(u) && InFree(free, u);
    }
  }

  lemma FreeTiled(free: seq<Blk>, alloc: map<nat, nat>, claimed: set<nat>, k: nat, a: nat)
    requires Tiled(free, alloc, claimed) && a in alloc && Fits(free, k, Blk(a, alloc[a]))
    ensures Tiled(Insert(free, k, Blk(a, alloc[a])), alloc - {a}, claimed)
  {
    hide Insert, InFree, Sorted;
    var b := Blk(a, alloc[a]);
    var free', alloc' := Insert(free, k, b), alloc - {a};
    InsertOrdered(free, k, b);
    InsertShape(free, k, b);
    forall u: nat ensures InAlloc(alloc, u) <==> InAlloc(alloc', u) || b.Holds(u) {
      if InAlloc(alloc, u) {
        var x :| x in alloc && Blk(x, alloc[x]).Holds(u);
        assert x != a ==> x in alloc';
      }
      assert b.Holds(u) ==> a in alloc && Blk(a, alloc[a]).Holds(u);
    }
  }

  lemma TakeTiled(free: seq<Blk>, alloc: map<nat, nat>, claimed: set<nat>, k: nat, n: nat)
    requires Tiled(free, alloc, claimed) && k < |free| && 0 < n <= free[k].size
    ensures Taken(free[k], n).addr !in alloc
    ensures Tiled(Take(free, k, n), alloc[Taken(free[k], n).addr := n], claimed)
  {
    var b := Taken(free[k], n);
    TakeOrdered(free, k, n);
    assert b.Holds(b.addr) && free[k].Holds(b.addr) && InFree(free, b.addr);
    var alloc' := alloc[b.addr := n];
    assert b.addr in alloc ==> Blk(b.addr, alloc[b.addr]).Holds(b.addr);
    forall u: nat ensures InAlloc(alloc', u) <==> InAlloc(alloc, u) || b.Holds(u) {
      if InAlloc(alloc, u) {
        var x :| x in alloc && Blk(x, alloc[x]).Holds(u);
        assert x in alloc' && Blk(x, alloc'[x]).Holds(u);
      }
      assert b.Holds(u) ==> b.addr in alloc' && Blk(b.addr, alloc'[b.addr]).Holds(u);
    }
    forall u: nat | b.Holds(u) ensures InFree(free, u) {
      assert free[k].Holds(u);
    }
    forall x <- alloc ensures x + alloc[x] <= b.addr || b.End() <= x {
      assert Blk(x, alloc[x]).Holds(x) && InAlloc(alloc, x);
      assert Blk(x, alloc[x]).Holds(b.addr) ==> InAlloc(alloc, b.addr);
    }
    assert k > 0;
    SortedAt(free, {}, 0, k);
  }

  /** A fresh region beyond everything claimed becomes an allocated block. */
  lemma ClaimTiled(free: seq<Blk>, alloc: map<nat, nat>, claimed: set<nat>, a: nat, n: nat)
    requires Tiled(free, alloc, claimed) && n > 0 && free[0].addr < a
    requires forall u <- claimed :: u < a
    ensures a !in alloc
    ensures Tiled(free, alloc[a := n], claimed + Units(Blk(a, n)))
  {
    var alloc' := alloc[a := n];
    forall x <- alloc ensures x + alloc[x] <= a {
      assert Blk(x, alloc[x]).Holds(x + alloc[x] - 1) && InAlloc(alloc, x + alloc[x] - 1);
    }
    forall u: nat ensures InAlloc(alloc', u) <==> InAlloc(alloc, u) || Blk(a, n).Holds(u) {
      if InAlloc(alloc, u) {
        var x :| x in alloc && Blk(x, alloc[x]).Holds(u);
        assert x in alloc' && Blk(x, alloc'[x]).Holds(u);
      }
      assert Blk(a, n).Holds(u) ==> a in alloc' && Blk(a, alloc'[a]).Holds(u);
    }
  }

  /** The search of free(): the last free block before a, if a lies above the static header. */
  lemma {:induction false} SlotFor(free: seq<Blk>, a: nat) returns (k: nat)
    requires Ordered(free) && free[0].addr < a
    requires forall i | 0 <= i < |free| :: free[i].addr != a
    ensures k < |free| && free[k].addr < a && (k + 1 < |free| ==> a < free[k + 1].addr)
    decreases |free|
  {
    k := |free| - 1;
    while free[k].addr > a
      invariant 0 <= k < |free|
      invariant k + 1 < |free| ==> a < free[k + 1].addr
      decreases k
    {
      k := k - 1;
    }
  }

  lemma AllocatedSlot(free: seq<Blk>, alloc: map<nat, nat>, claimed: set<nat>, a: nat) returns (k: nat)
    requires Tiled(free, alloc, claimed) && a in alloc
    ensures Ordered(free) && free[0].addr < a
    ensures k < |free| && free[k].addr < a && (k + 1 < |free| ==> a < free[k + 1].addr)
  {
    forall i | 0 <= i < |free| ensures free[i].addr != a {
      if i > 0 && free[i].addr == a {
        assert free[i].Holds(a) && InFree(free, a);
        assert Blk(a, alloc[a]).Holds(a);
      }
    }
    k := SlotFor(free, a);
  }

  lemma StoredLink(ptr: map<nat, nat>, size: map<nat, nat>, free: seq<Blk>, k: nat)
    requires Stored(ptr, size, free) && k < |free|
    ensures StoredAt(ptr, size, free, k)
  {
  }

  /** Only at its own slot does a block lie between a free block and the next one. */
  lemma SlotIsUnique(free: seq<Blk>, a: nat, s: nat, k: nat)
    requires Ordered(free) && s < |free| && k < |free|
    requires free[s].addr < a && (s + 1 < |free| ==> a < free[s + 1].addr)
    ensures free[0].addr <= free[s].addr && free[0].addr <= free[k].addr
    ensures k + 1 < |free| ==> free[k].addr < free[k + 1].addr
    ensures k < s ==> free[k + 1].addr < a
    ensures s < k ==> a < free[k].addr
  {
    if k < s && k + 1 < s { SortedAt(free, {}, k + 1, s); }
    if s + 1 < k { SortedAt(free, {}, s + 1, k); }
    if k + 1 < |free| { SortedAt(free, {}, k, k + 1); }
    if 0 < s { SortedAt(free, {}, 0, s); }
    if 0 < k { SortedAt(free, {}, 0, k); }
  }

  lemma FreeNotAllocated(free: seq<Blk>, alloc: map<nat, nat>, claimed: set<nat>, k: nat)
    requires Tiled(free, alloc, claimed) && k < |free|
    ensures Ordered(free) && free[k].addr !in alloc && free[0].addr <= free[k].addr
  {
    if k > 0 {
      SortedAt(free, {}, 0, k);
      var a := free[k].addr;
      assert free[k].Holds(a) && InFree(free, a);
      assert forall x <- alloc :: Blk(x, alloc[x]).Holds(x);
    }
  }

  /** After free(), freep points to the block itself or to the free block before it. */
  lemma InsertShape(free: seq<Blk>, k: nat, b: Blk)
    requires Ordered(free) && Fits(free, k, b)
    ensures var r := Insert(free, k, b);
      && k < |r| && r[k].addr == free[k].addr
      && (k > 0 ==> r[0] == free[0])
      && (Contains(r, k, b) || Contains(r, k + 1, b))
      && (k == 0 ==> r[0] == free[0])
  {
  }

  /** The header of a region beyond the claimed ones is not in the list. */
  lemma SizeElsewhere(ptr: map<nat, nat>, size: map<nat, nat>, free: seq<Blk>, alloc: map<nat, nat>, claimed: set<nat>,
                      a: nat, n: nat)
    requires Tiled(free, alloc, claimed) && Stored(ptr, size, free) && free[0].addr < a
    requires forall u <- claimed :: u < a
    ensures Stored(ptr, size[a := n], free)
  {
    var size' := size[a := n];
    forall i | 0 <= i < |free| ensures StoredAt(ptr, size', free, i) {
      assert StoredAt(ptr, size, free, i);
      assert i > 0 ==> free[i].Holds(free[i].addr) && InFree(free, free[i].addr);
    }
  }

  /** The block reached from block f after following t + 1 links of a list of n blocks. */
  function RotIdx(f: nat, t: nat, n: nat): (k: nat)
    requires f < n && t < n
    ensures k < n
  {
    if f + 1 + t < n then f + 1 + t else f + 1 + t - n
  }

  function Before(k: nat, n: nat): (j: nat)
    requires k < n
    ensures j < n
  {
    if k == 0 then n - 1 else k - 1
  }

  lemma RotStep(f: nat, t: nat, n: nat)
    requires f < n && t < n
    ensures t + 1 < n ==> Before(RotIdx(f, t + 1, n), n) == RotIdx(f, t, n)
    ensures t + 1 < n ==> RotIdx(f, t + 1, n) == if RotIdx(f, t, n) + 1 < n then RotIdx(f, t, n) + 1 else 0
    ensures RotIdx(f, t, n) == f <==> t + 1 == n
  {
  }

  lemma RotFirst(f: nat, n: nat)
    requires f < n
    ensures RotIdx(f, 0, n) == if f + 1 < n then f + 1 else 0
    ensures Before(RotIdx(f, 0, n), n) == f
  {
  }

  /** A walk around the whole list sees every block. */
  lemma AllVisited(free: seq<Blk>, f: nat, n: nat)
    requires f < |free|
    requires forall s | 0 <= s < |free| :: free[RotIdx(f, s, |free|)].size < n
    ensures TooSmall(free, n)
  {
    forall i | 0 <= i < |free| ensures free[i].size < n {
      var s := if i > f then i - f - 1 else i + |free| - f - 1;
      assert RotIdx(f, s, |free|) == i;
    }
  }

  lemma LargeEnough(free: seq<Blk>, k: nat, n: nat)
    requires k < |free| && free[k].size >= n
    ensures !TooSmall(free, n)
  {
  }

  lemma AddrOnce(free: seq<Blk>, alloc: map<nat, nat>, claimed: set<nat>, i: nat, j: nat)
    requires Tiled(free, alloc, claimed) && i < |free| && j < |free|
    ensures free[i].addr == free[j].addr ==> i == j
  {
    SortedDistinct(free, {});
  }

  lemma BaseIsEmpty(free: seq<Blk>)
    requires Ordered(free)
    ensures free[0].size == 0
  {
  }

  lemma OnlyBase(ptr: map<nat, nat>, size: map<nat, nat>, free: seq<Blk>)
    requires |free| == 1 && free[0].addr in ptr && free[0].addr in size
    requires ptr[free[0].addr] == free[0].addr && size[free[0].addr] == free[0].size
    ensures Stored(ptr, size, free)
  {
  }

  class Heap {
    const base: nat  // the static header
    var freep: nat   // 0 is the null pointer
    var ptr: map<nat, nat>
    var size: map<nat, nat>
    var brk: nat     // the program break

    ghost var free: seq<Blk>
    ghost var alloc: map<nat, nat>  // blocks handed out, with their sizes
    ghost var claimed: set<nat>     // headers of all regions added by morecore
    ghost var cores: nat            // calls of morecore

    /** The free and the allocated blocks tile the claimed regions, and the headers say so. */
    ghost predicate Struct()
      reads this
    {
      && base > 0
      && Tiled(free, alloc, claimed)
      && free[0] == Blk(base, 0)
      && (forall a <- alloc :: a in size && size[a] == alloc[a])
      && if freep == 0 then |free| == 1 && alloc == map[]
         else Stored(ptr, size, free) && exists f :: 0 <= f < |free| && free[f].addr == freep
    }

    /** Every claimed header is memory that sbrk granted. */
    ghost predicate Granted()
      reads this
    {
      base < brk && forall u <- claimed :: u < brk
    }

    constructor (base: nat, brk: nat)
      requires 0 < base < brk
      ensures Struct() && Granted() && free == [Blk(base, 0)] && alloc == map[] && claimed == {}
      ensures this.base == base && this.brk == brk && freep == 0
    {
      this.base, this.brk, freep := base, brk, 0;
      ptr, size, free, alloc, claimed, cores := map[], map[], [Blk(base, 0)], map[], {}, 0;
    }

    /** free()'s loop, which terminates whatever free block freep points to. */
    method Search(bp: nat) returns (p: nat, ghost k: nat)
      requires Struct() && freep != 0 && bp in alloc
      ensures k < |free| && p == free[k].addr && Fits(free, k, Blk(bp, alloc[bp]))
    {
      hide Tiled, Stored;
      ghost var s := AllocatedSlot(free, alloc, claimed, bp);
      k :| 0 <= k < |free| && free[k].addr == freep;
      p := freep;
      StoredLink(ptr, size, free, k);
      while !(bp > p && bp < ptr[p])
        invariant k < |free| && p == free[k].addr && p in ptr
        invariant ptr[p] == free[if k + 1 < |free| then k + 1 else 0].addr
        decreases if k <= s then s - k else |free| - k + s
      {
        SlotIsUnique(free, bp, s, k);
        if p >= ptr[p] && (bp > p || bp < ptr[p]) {
          break;
        }
        p := ptr[p];
        k := if k + 1 < |free| then k + 1 else 0;
        StoredLink(ptr, size, free, k);
      }
      SlotIsUnique(free, bp, s, k);
      AllocatedFits(free, alloc, claimed, k, bp);
    }

    /** free()'s assignments after the search, with b the block and free[k] the one before it. */
    method Link(p: nat, bp: nat, ghost k: nat, ghost b: Blk)
      requires Ordered(free) && Fits(free, k, b) && Stored(ptr, size, free)
      requires p == free[k].addr && b.addr == bp && bp in size && size[bp] == b.size
      modifies this`ptr, this`size, this`freep
      ensures Stored(ptr, size, Insert(free, k, b)) && freep == p
      ensures forall a | a != p && a != bp :: (a in size <==> a in old(size)) && (a in size ==> size[a] == old(size)[a])
    {
      hide Stored, Ordered, Insert;
      StoredLink(ptr, size, free, k);
      NextStored(ptr, size, free, k, b, ptr[p]);
      if bp + size[bp] == ptr[p] {
        size := size[bp := size[bp] + size[ptr[p]]];
        ptr := ptr[bp := ptr[ptr[p]]];
      } else {
        ptr := ptr[bp := ptr[p]];
      }
      InsertStored(ptr, size, free, k, b);
      if p + size[p] == bp {
        size := size[p := size[p] + size[bp]];
        ptr := ptr[p := ptr[bp]];
      } else {
        ptr := ptr[p := bp];
      }
      freep := p;
    }

    /** free(ap): the block's headers join the free ones, and the list stays in address order with
        no two blocks touching. */
    method Free(ap: nat)
      requires Struct() && freep != 0 && ap > 0 && ap - 1 in alloc
      modifies this`freep, this`ptr, this`size, this`free, this`alloc
      ensures Struct() && freep != 0
      ensures alloc == old(alloc) - {ap - 1}
      ensures forall u: nat :: InFree(free, u) <==> InFree(old(free), u) || Blk(ap - 1, old(alloc)[ap - 1]).Holds(u)
      ensures exists f :: 0 <= f < |free| && free[f].addr == freep &&
                (Contains(free, f, Blk(ap - 1, old(alloc)[ap - 1])) || Contains(free, f + 1, Blk(ap - 1, old(alloc)[ap - 1])))
    {
      hide Tiled, Stored, Ordered, Insert, InFree, Contains, Fits;
      var bp := ap - 1;
      var p; ghost var k;
      p, k := Search(bp);
      ghost var b := Blk(bp, alloc[bp]);
      FreeNotAllocated(free, alloc, claimed, k);
      FreeTiled(free, alloc, claimed, k, bp);
      InsertOrdered(free, k, b);
      InsertShape(free, k, b);
      Link(p, bp, k, b);
      free := Insert(free, k, b);
      alloc := alloc - {bp};
    }

    /** sbrk(n) for n bytes: the old break, or None if a growing request is refused. A request to
        shrink by more than there is changes nothing. */
    method Sbrk(n: int, refuse: bool) returns (r: Option<nat>)
      modifies this`brk
      ensures r.None? <==> n > 0 && refuse
      ensures r.Some? ==> r.value == old(brk)
      ensures brk == if r.None? then old(brk) else Grown(old(brk), n)
    {
      if n > 0 && refuse {
        return None;
      }
      r := Some(brk);
      brk := Grown(brk, n);
    }

    /** morecore: the request reaches sbrk as a 32-bit int, so a region of 2^27 headers or more is
        claimed without having been granted. */
    method Morecore(nu: nat, refuse: bool) returns (ok: bool)
      requires Struct() && Granted() && freep != 0 && nu > 0
      modifies this
      ensures Struct() && freep != 0 && alloc == old(alloc) && cores == old(cores) + 1
      ensures !ok <==> Refused(nu, refuse)
      ensures !ok ==> free == old(free) && claimed == old(claimed) && freep == old(freep) && Granted()
      ensures ok ==>
        var b := Blk(old(brk), Request(nu));
        && claimed == old(claimed) + Units(b)
        && (forall u: nat :: InFree(free, u) <==> InFree(old(free), u) || b.Holds(u))
        && (Granted() <==> Request(nu) < MAXREQUEST)
        && exists f :: 0 <= f < |free| && free[f].addr == freep && (Contains(free, f, b) || Contains(free, f + 1, b))
    {
      hide Tiled, Stored, InFree, ToInt32;
      cores := cores + 1;
      var n := if nu < MINCORE then MINCORE else nu;
      var r := Sbrk(ToInt32(n * HEADER), refuse);
      if r.None? {
        return false;
      }
      var hp := r.value;
      ClaimTiled(free, alloc, claimed, hp, n);
      RequestGranted(hp, n);
      SizeElsewhere(ptr, size, free, alloc, claimed, hp, n);
      assert Blk(hp, n).Holds(hp + n - 1) && hp + n - 1 in Units(Blk(hp, n));
      size := size[hp := n];
      alloc := alloc[hp := n];
      claimed := claimed + Units(Blk(hp, n));
      Free(hp + 1);
      return true;
    }

    /** malloc's call of morecore, after which the walk starts over and finds a block. */
    method Grow(nu: nat, refuse: bool) returns (ok: bool, ghost f: nat)
      requires Struct() && Granted() && freep != 0 && nu > 0
      modifies this
      ensures Struct() && freep != 0 && alloc == old(alloc) && cores == old(cores) + 1
      ensures !ok <==> Refused(nu, refuse)
      ensures !ok ==> free == old(free) && claimed == old(claimed) && Granted()
      ensures ok ==>
        && claimed == old(claimed) + Units(Blk(old(brk), Request(nu)))
        && (Granted() <==> Request(nu) < MAXREQUEST)
        && f < |free| && free[f].addr == freep
        && exists s :: 0 <= s < |free| && free[RotIdx(f, s, |free|)].size >= nu
    {
      hide Tiled, Stored, InFree, Units;
      ghost var b := Blk(brk, Request(nu));
      ok := Morecore(nu, refuse);
      f := 0;
      if ok {
        f :| 0 <= f < |free| && free[f].addr == freep && (Contains(free, f, b) || Contains(free, f + 1, b));
        assert free[RotIdx(f, if Contains(free, f + 1, b) then 0 else |free| - 1, |free|)].size >= nu;
      }
    }

    /** malloc's initialization: before the first call there is no list. */
    method Start() returns (ghost f: nat)
      requires Struct()
      modifies this`ptr, this`size, this`freep
      ensures Struct() && freep != 0
      ensures old(freep) != 0 ==> freep == old(freep) && ptr == old(ptr) && size == old(size)
      ensures f < |free| && free[f].addr == freep && StoredAt(ptr, size, free, f)
    {
      hide Tiled, Stored;
      if freep == 0 {
        ptr, freep := ptr[base := base], base;
        size := size[base := 0];
        OnlyBase(ptr, size, free);
      }
      f :| 0 <= f < |free| && free[f].addr == freep;
      StoredLink(ptr, size, free, f);
    }

    /** malloc: the first block after freep that is large enough gives its last headers; only if
        there is none, morecore is called, and then once. */
    method Malloc(nbytes: nat, refuse: bool) returns (r: Option<nat>)
      requires Struct() && Granted() && nbytes < 0x1_0000_0000
      modifies this
      ensures Struct()
      ensures r.None? <==> old(NoRoom(free, nbytes)) && refuse && (nbytes <= 0x7fff_ffe0 || nbytes > 0xffff_fff0)
      ensures r.None? ==> alloc == old(alloc) && claimed == old(claimed) && free == old(free)
      ensures cores == old(cores) + (if old(NoRoom(free, nbytes)) then 1 else 0)
      ensures r.Some? ==>
        && r.value > 0 && r.value - 1 !in old(alloc) && r.value - 1 in alloc
        && var n := alloc[r.value - 1];
        && alloc == old(alloc)[r.value - 1 := n] && (n - 2) * 16 < nbytes <= (n - 1) * 16
        && claimed == if old(NoRoom(free, nbytes))
                      then old(claimed) + Units(Blk(old(brk), Request(n))) else old(claimed)
      ensures Granted() <==> (r.Some? && old(NoRoom(free, nbytes)) ==> nbytes <= 0x7fff_ffe0)
    {
      hide Units, TooSmall, NoRoom, Request, Refused, Heap.Struct, Heap.Granted;
      NoRoomIff(free, nbytes);
      RefusedIff(nbytes, refuse);
      r := MallocUnits(NUnits(nbytes), refuse);
    }

    /** The search of malloc, for a block of nunits headers. */
    method MallocUnits(nunits: nat, refuse: bool) returns (r: Option<nat>)
      requires Struct() && Granted() && nunits > 0
      modifies this
      ensures Struct()
      ensures r.None? <==> old(TooSmall(free, nunits)) && Refused(nunits, refuse)
      ensures r.None? ==> alloc == old(alloc) && claimed == old(claimed) && free == old(free)
      ensures cores == old(cores) + (if old(TooSmall(free, nunits)) then 1 else 0)
      ensures r.Some? ==>
        && r.value > 0 && r.value - 1 !in old(alloc) && alloc == old(alloc)[r.value - 1 := nunits]
        && claimed == if old(TooSmall(free, nunits)) then old(claimed) + Units(Blk(old(brk), Request(nunits))) else old(claimed)
      ensures Granted() <==> (r.Some? && old(TooSmall(free, nunits)) ==> Request(nunits) < MAXREQUEST)
    {
      hide Tiled, Stored, InFree, RotIdx, Before, Units, Request, Refused, TooSmall, NoRoom;
      ghost var grown := false;
      ghost var t: nat := 0;
      ghost var f: nat := Start();
      RotFirst(f, |free|);
      var prevp := freep;
      var p := ptr[prevp];
      while true
        invariant Struct() && freep != 0 && alloc == old(alloc)
        invariant f < |free| && free[f].addr == freep && t < |free|
        invariant p == free[RotIdx(f, t, |free|)].addr && prevp == free[Before(RotIdx(f, t, |free|), |free|)].addr
        invariant grown ==> exists s :: t <= s < |free| && free[RotIdx(f, s, |free|)].size >= nunits
        invariant !grown ==> free == old(free) && brk == old(brk)
        invariant !grown ==> forall s | 0 <= s < t :: free[RotIdx(f, s, |free|)].size < nunits
        invariant cores == old(cores) + (if grown then 1 else 0)
        invariant grown ==> old(TooSmall(free, nunits)) && !Refused(nunits, refuse)
        invariant claimed == if grown then old(claimed) + Units(Blk(old(brk), Request(nunits))) else old(claimed)
        invariant Granted() <==> (grown ==> Request(nunits) < MAXREQUEST)
        decreases if grown then 0 else 1, |free| - t
      {
        ghost var k := RotIdx(f, t, |free|);
        StoredLink(ptr, size, free, k);
        if size[p] >= nunits {
          LargeEnough(free, k, nunits);
          r := TakeFrom(p, prevp, nunits, k);
          return;
        }
        AddrOnce(free, alloc, claimed, k, f);
        RotStep(f, t, |free|);
        if p == freep {
          AllVisited(free, f, nunits);
          var ok;
          ok, f := Grow(nunits, refuse);
          if !ok {
            return None;
          }
          p := freep;
          grown, t := true, 0;
          StoredLink(ptr, size, free, f);
          RotFirst(f, |free|);
        } else {
          t := t + 1;
        }
        prevp := p;
        p := ptr[p];
      }
    }

    /** The branch of malloc that has found a block: unlink it, or cut off its end. */
    method TakeFrom(p: nat, prevp: nat, n: nat, ghost k: nat) returns (r: Option<nat>)
      requires Struct() && freep != 0 && n > 0
      requires k < |free| && free[k].addr == p && free[k].size >= n && prevp == free[Before(k, |free|)].addr
      modifies this`ptr, this`size, this`freep, this`free, this`alloc
      ensures Struct()
      ensures r.Some? && r.value > 0 && r.value - 1 !in old(alloc) && alloc == old(alloc)[r.value - 1 := n]
    {
      hide Tiled, Stored, InFree;
      TakeTiled(free, alloc, claimed, k, n);
      FreeNotAllocated(free, alloc, claimed, k);
      StoredLink(ptr, size, free, k);
      assert k > 0 by { BaseIsEmpty(free); }
      FreeNotAllocated(free, alloc, claimed, k - 1);
      TakeStored(ptr, size, free, k, n);
      var q := p;
      if size[p] == n {
        ptr := ptr[prevp := ptr[p]];
      } else {
        size := size[p := size[p] - n];
        q := p + size[p];
        size := size[q := n];
      }
      freep := prevp;
      alloc := alloc[q := n];
      free := Take(free, k, n);
      assert free[k - 1].addr == freep;
      return Some(q + 1);
    }
  }

  /** malloc of two gigabytes from a new heap gives a block that the system has not granted. */
  method HugeMalloc() returns (h: Heap, r: Option<nat>)
    ensures h.Struct() && r.Some? && !h.Granted()
  {
    h := new Heap(1, 2);
    r := h.Malloc(0x8000_0000, false);
  }
}
