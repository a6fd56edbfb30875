/** The free list of user/umalloc.c as a value: blocks in address order, with the
    static header first. Addresses and sizes count headers of 16 bytes. */
module FreeList {

  datatype Blk = Blk(addr: nat, size: nat) {
    function End(): nat { addr + size }
    predicate Holds(u: nat) { addr <= u < End() }
  }

  /** Ascending; the blocks at i and i+1 may touch only for i in loose; only the first block, the
      static header, is empty. */
  ghost predicate Sorted(free: seq<Blk>, loose: set<nat>)
  {
    && 0 < |free|
    && free[0].size == 0
    && (forall i | 1 <= i < |free| :: free[i].size > 0)
    && (forall i {:trigger free[i].End()} | 0 <= i < |free| - 1 :: free[i].End() <= free[i + 1].addr)
    && (forall i {:trigger free[i].End()} | 0 <= i < |free| - 1 && i !in loose :: free[i].End() < free[i + 1].addr)
  }

  /** No two free blocks touch. */
  ghost predicate Ordered(free: seq<Blk>) { Sorted(free, {}) }

  lemma {:induction false} SortedAt(free: seq<Blk>, loose: set<nat>, i: nat, j: nat)
    requires Sorted(free, loose) && i < j < |free|
    ensures free[i].End() <= free[j].addr
    ensures 0 !in loose ==> free[i].addr < free[j].addr
    decreases j
  {
    assert free[j - 1].End() <= free[j].addr;
    if i + 1 < j {
      SortedAt(free, loose, i, j - 1);
    }
  }

  ghost predicate InFree(free: seq<Blk>, u: nat)
  {
    exists i :: 0 <= i < |free| && free[i].Holds(u)
  }

  /** The header of free[i] in memory holds its size and the address of the next block. */
  ghost predicate StoredAt(ptr: map<nat, nat>, size: map<nat, nat>, free: seq<Blk>, i: nat)
    requires i < |free|
  {
    && free[i].addr in ptr && free[i].addr in size
    && size[free[i].addr] == free[i].size
    && ptr[free[i].addr] == free[if i + 1 < |free| then i + 1 else 0].addr
  }

  /** The headers in memory hold this circular list. */
  ghost predicate Stored(ptr: map<nat, nat>, size: map<nat, nat>, free: seq<Blk>)
  {
    forall i | 0 <= i < |free| :: StoredAt(ptr, size, free, i)
  }

  /** Where free() stops searching: after free[k], before the next block if there is one. */
  ghost predicate Fits(free: seq<Blk>, k: nat, b: Blk)
  {
    && k < |free|
    && b.size > 0
    && free[k].addr < b.addr && free[k].End() <= b.addr
    && (k + 1 < |free| ==> b.End() <= free[k + 1].addr)
  }

  ghost function Put(free: seq<Blk>, k: nat, b: Blk): (r: seq<Blk>)
    requires k < |free|
  {
    free[..k + 1] + [b] + free[k + 1..]
  }

  /** Make one block of the blocks at i and i+1 if they touch. */
  ghost function Join(free: seq<Blk>, i: nat): (r: seq<Blk>)
    requires i < |free|
  {
    if i + 1 < |free| && free[i].End() == free[i + 1].addr
    then free[..i] + [Blk(free[i].addr, free[i].size + free[i + 1].size)] + free[i + 2..]
    else free
  }

  /** What free() makes of the list: the block goes in after free[k] and is joined with its
      neighbours where they touch. */
  ghost function Insert(free: seq<Blk>, k: nat, b: Blk): (r: seq<Blk>)
    requires k < |free|
  {
    Join(Join(Put(free, k, b), k + 1), k)
  }

  lemma PutSorted(free: seq<Blk>, k: nat, b: Blk)
    requires Ordered(free) && Fits(free, k, b)
    ensures Sorted(Put(free, k, b), {k, k + 1} - {0})
  {
  }

  lemma JoinSorted(free: seq<Blk>, loose: set<nat>, i: nat)
    requires Sorted(free, loose) && i < |free|
    requires forall j <- loose :: j <= i
    requires 0 !in loose
    ensures Sorted(Join(free, i), loose - {i})
  {
    var r := Join(free, i);
    if i + 1 < |free| && free[i].End() == free[i + 1].addr {
      forall j | 0 <= j < |r| - 1
        ensures r[j].End() <= r[j + 1].addr && (j !in loose - {i} ==> r[j].End() < r[j + 1].addr)
      {
        var m := if j < i then j else j + 1;
        assert free[m].End() <= free[m + 1].addr;
        assert r[j].End() == free[m].End() && r[j + 1].addr == free[m + 1].addr;
      }
    }
  }

  lemma JoinUnits(free: seq<Blk>, i: nat, u: nat)
    requires i < |free|
    ensures InFree(Join(free, i), u) <==> InFree(free, u)
  {
    var r := Join(free, i);
    if i + 1 < |free| && free[i].End() == free[i + 1].addr {
      assert forall j | 0 <= j < i :: r[j] == free[j];
      assert forall j | i < j < |r| :: r[j] == free[j + 1];
      assert forall j | i + 1 < j < |free| :: free[j] == r[j - 1];
      assert r[i].Holds(u) <==> free[i].Holds(u) || free[i + 1].Holds(u);
    }
  }

  lemma PutUnits(free: seq<Blk>, k: nat, b: Blk, u: nat)
    requires k < |free|
    ensures InFree(Put(free, k, b), u) <==> InFree(free, u) || b.Holds(u)
  {
    var r := Put(free, k, b);
    assert forall j | 0 <= j <= k :: r[j] == free[j];
    assert r[k + 1] == b;
    assert forall j | k + 1 < j < |r| :: r[j] == free[j - 1];
    assert forall j | k < j < |free| :: free[j] == r[j + 1];
  }

  lemma InsertOrdered(free: seq<Blk>, k: nat, b: Blk)
    requires Ordered(free) && Fits(free, k, b)
    ensures Ordered(Insert(free, k, b))
    ensures forall u :: InFree(Insert(free, k, b), u) <==> InFree(free, u) || b.Holds(u)
  {
    var p := Put(free, k, b);
    PutSorted(free, k, b);
    JoinSorted(p, {k, k + 1} - {0}, k + 1);
    JoinSorted(Join(p, k + 1), {k, k + 1} - {0} - {k + 1}, k);
    assert {k, k + 1} - {0} - {k + 1} - {k} == {};
    hide Sorted, InFree;
    forall u ensures InFree(Insert(free, k, b), u) <==> InFree(free, u) || b.Holds(u) {
      InsertUnits(free, k, b, u);
    }
  }

  lemma InsertUnits(free: seq<Blk>, k: nat, b: Blk, u: nat)
    requires Ordered(free) && Fits(free, k, b)
    ensures InFree(Insert(free, k, b), u) <==> InFree(free, u) || b.Holds(u)
  {
    hide Sorted, InFree;
    PutUnits(free, k, b, u);
    JoinUnits(Put(free, k, b), k + 1, u);
    JoinUnits(Join(Put(free, k, b), k + 1), k, u);
  }

  ghost predicate DistinctAddrs(free: seq<Blk>)
  {
    forall i, j | 0 <= i < j < |free| :: free[i].addr != free[j].addr
  }

  lemma SortedDistinct(free: seq<Blk>, loose: set<nat>)
    requires Sorted(free, loose) && 0 !in loose
    ensures DistinctAddrs(free)
  {
    forall i, j | 0 <= i < j < |free| ensures free[i].addr != free[j].addr {
      SortedAt(free, loose, i, j);
    }
  }

  lemma AddrsDiffer(free: seq<Blk>, i: nat, j: nat)
    requires DistinctAddrs(free) && i < |free| && j < |free| && i != j
    ensures free[i].addr != free[j].addr
  {
  }

  lemma PutStored(ptr: map<nat, nat>, size: map<nat, nat>, free: seq<Blk>, k: nat, b: Blk)
    requires k < |free| && Stored(ptr, size, free) && DistinctAddrs(Put(free, k, b))
    requires b.addr in size && size[b.addr] == b.size
    ensures free[k].addr in ptr
    ensures Stored(ptr[b.addr := ptr[free[k].addr]][free[k].addr := b.addr], size, Put(free, k, b))
  {
    hide DistinctAddrs;
    assert StoredAt(ptr, size, free, k);
    var r := Put(free, k, b);
    var ptr' := ptr[b.addr := ptr[free[k].addr]][free[k].addr := b.addr];
    forall j | 0 <= j < |r| ensures StoredAt(ptr', size, r, j) {
      if j != k { AddrsDiffer(r, j, k); }
      if j != k + 1 {
        AddrsDiffer(r, j, k + 1);
        assert StoredAt(ptr, size, free, if j <= k then j else j - 1);
      }
    }
  }

  lemma JoinStored(ptr: map<nat, nat>, size: map<nat, nat>, free: seq<Blk>, i: nat)
    requires Stored(ptr, size, free) && DistinctAddrs(free)
    requires i + 1 < |free| && free[i].End() == free[i + 1].addr
    ensures free[i + 1].addr in ptr
    ensures Stored(ptr[free[i].addr := ptr[free[i + 1].addr]],
                   size[free[i].addr := free[i].size + free[i + 1].size], Join(free, i))
  {
    hide DistinctAddrs;
    assert StoredAt(ptr, size, free, i) && StoredAt(ptr, size, free, i + 1);
    var r := Join(free, i);
    var ptr' := ptr[free[i].addr := ptr[free[i + 1].addr]];
    var size' := size[free[i].addr := free[i].size + free[i + 1].size];
    forall j | 0 <= j < |r| ensures StoredAt(ptr', size', r, j) {
      var m := if j <= i then j else j + 1;
      if m != i { AddrsDiffer(free, m, i); }
      assert StoredAt(ptr, size, free, m);
    }
  }

  /** free()'s first two assignments, followed by the link from free[k]. */
  lemma NextStored(ptr: map<nat, nat>, size: map<nat, nat>, free: seq<Blk>, k: nat, b: Blk, nx: nat)
    requires Ordered(free) && Fits(free, k, b) && Stored(ptr, size, free)
    requires b.addr in size && size[b.addr] == b.size
    requires free[k].addr in ptr && nx == ptr[free[k].addr]
    ensures nx in ptr && nx in size
    ensures if b.End() == nx
      then Stored(ptr[b.addr := ptr[nx]][free[k].addr := b.addr], size[b.addr := b.size + size[nx]], Join(Put(free, k, b), k + 1))
      else Stored(ptr[b.addr := nx][free[k].addr := b.addr], size, Join(Put(free, k, b), k + 1))
  {
    var put, p := Put(free, k, b), free[k].addr;
    PutSorted(free, k, b);
    SortedDistinct(put, {k, k + 1} - {0});
    PutStored(ptr, size, free, k, b);
    hide DistinctAddrs, Sorted;
    assert StoredAt(ptr, size, free, k);
    if k + 1 < |free| {
      assert StoredAt(ptr, size, free, k + 1);
      assert put[k] == free[k] && put[k + 1] == b && put[k + 2] == free[k + 1];
      AddrsDiffer(put, k, k + 2);
      AddrsDiffer(put, k + 1, k + 2);
      if b.End() == nx {
        JoinStored(ptr[b.addr := nx][p := b.addr], size, put, k + 1);
        assert ptr[b.addr := nx][p := b.addr][b.addr := ptr[nx]] == ptr[b.addr := ptr[nx]][p := b.addr];
      }
    } else {
      assert StoredAt(ptr, size, free, 0);
      if k > 0 { SortedAt(free, {}, 0, k); }
    }
  }

  /** free()'s assignments store the list with the block inserted; ptr1 and size1 are the headers
      after the test against the next block. */
  lemma InsertStored(ptr1: map<nat, nat>, size1: map<nat, nat>, free: seq<Blk>, k: nat, b: Blk)
    requires Ordered(free) && Fits(free, k, b)
    requires b.addr in ptr1 && Stored(ptr1[free[k].addr := b.addr], size1, Join(Put(free, k, b), k + 1))
    ensures b.addr in size1 && free[k].addr in size1 && size1[free[k].addr] == free[k].size
    ensures if free[k].addr + size1[free[k].addr] == b.addr
      then Stored(ptr1[free[k].addr := ptr1[b.addr]], size1[free[k].addr := free[k].size + size1[b.addr]], Insert(free, k, b))
      else Stored(ptr1[free[k].addr := b.addr], size1, Insert(free, k, b))
  {
    var p, joined := free[k].addr, Join(Put(free, k, b), k + 1);
    FirstJoin(free, k, b);
    hide DistinctAddrs, Put, Stored, Ordered, Fits;
    var ptr := ptr1[p := b.addr];
    assert StoredAt(ptr, size1, joined, k) && StoredAt(ptr, size1, joined, k + 1) by { StoredBoth(ptr, size1, joined, k); }
    hide Join;
    JoinIf(joined, k);
    if p + size1[p] == b.addr {
      JoinStored(ptr, size1, joined, k);
      assert ptr[p := ptr1[b.addr]] == ptr1[p := ptr1[b.addr]];
    }
  }

  lemma StoredBoth(ptr: map<nat, nat>, size: map<nat, nat>, free: seq<Blk>, k: nat)
    requires Stored(ptr, size, free) && k + 1 < |free|
    ensures StoredAt(ptr, size, free, k) && StoredAt(ptr, size, free, k + 1)
  {
  }

  lemma JoinIf(free: seq<Blk>, k: nat)
    requires k + 1 < |free|
    ensures free[k].End() != free[k + 1].addr ==> Join(free, k) == free
  {
  }

  /** The list with the block put in and joined with the next one. */
  lemma FirstJoin(free: seq<Blk>, k: nat, b: Blk)
    requires Ordered(free) && Fits(free, k, b)
    ensures var joined := Join(Put(free, k, b), k + 1);
      k + 1 < |joined| && joined[k] == free[k] && joined[k + 1].addr == b.addr && DistinctAddrs(joined)
  {
    var put := Put(free, k, b);
    PutSorted(free, k, b);
    JoinSorted(put, {k, k + 1} - {0}, k + 1);
    hide Sorted;
    SortedDistinct(Join(put, k + 1), {k, k + 1} - {0} - {k + 1});
  }

  /** malloc takes n headers from the end of free[k], or all of it. */
  ghost function Take(free: seq<Blk>, k: nat, n: nat): (r: seq<Blk>)
    requires k < |free| && 0 < n <= free[k].size
  {
    if free[k].size == n then free[..k] + free[k + 1..]
    else free[k := Blk(free[k].addr, free[k].size - n)]
  }

  function Taken(b: Blk, n: nat): (r: Blk)
    requires n <= b.size
  {
    Blk(b.addr + (b.size - n), n)
  }

  lemma TakeOrdered(free: seq<Blk>, k: nat, n: nat)
    requires Ordered(free) && k < |free| && 0 < n <= free[k].size
    ensures Ordered(Take(free, k, n))
    ensures forall u :: InFree(Take(free, k, n), u) <==> InFree(free, u) && !Taken(free[k], n).Holds(u)
  {
    var r := Take(free, k, n);
    assert k > 0;
    if free[k].size == n {
      assert forall j | 0 <= j < k :: r[j] == free[j];
      assert forall j | k <= j < |r| :: r[j] == free[j + 1];
      assert free[k - 1].End() < free[k].addr;
      assert k + 1 < |free| ==> free[k].End() < free[k + 1].addr;
    }
    forall u ensures InFree(r, u) <==> InFree(free, u) && !Taken(free[k], n).Holds(u) {
      TakeUnits(free, k, n, u);
    }
  }

  lemma TakeUnits(free: seq<Blk>, k: nat, n: nat, u: nat)
    requires Ordered(free) && k < |free| && 0 < n <= free[k].size
    ensures InFree(Take(free, k, n), u) <==> InFree(free, u) && !Taken(free[k], n).Holds(u)
  {
    var r := Take(free, k, n);
    if InFree(r, u) {
      var j :| 0 <= j < |r| && r[j].Holds(u);
      var i := if free[k].size == n && j >= k then j + 1 else j;
      assert free[i].Holds(u);
      if i < k { SortedAt(free, {}, i, k); } else if k < i { SortedAt(free, {}, k, i); }
    }
    if InFree(free, u) && !Taken(free[k], n).Holds(u) {
      var i :| 0 <= i < |free| && free[i].Holds(u);
      assert r[if free[k].size == n && i > k then i - 1 else i].Holds(u);
    }
  }

  /** malloc's assignments store the list without the taken headers. */
  lemma TakeStored(ptr: map<nat, nat>, size: map<nat, nat>, free: seq<Blk>, k: nat, n: nat)
    requires Ordered(free) && Stored(ptr, size, free) && 1 <= k < |free| && 0 < n <= free[k].size
    ensures free[k].addr in ptr
    ensures if free[k].size == n
      then Stored(ptr[free[k - 1].addr := ptr[free[k].addr]], size, Take(free, k, n))
      else Stored(ptr, size[free[k].addr := free[k].size - n][Taken(free[k], n).addr := n], Take(free, k, n))
  {
    SortedDistinct(free, {});
    assert StoredAt(ptr, size, free, k);
    var r := Take(free, k, n);
    if free[k].size == n {
      var ptr' := ptr[free[k - 1].addr := ptr[free[k].addr]];
      forall j | 0 <= j < |r| ensures StoredAt(ptr', size, r, j) {
        var i := if j < k then j else j + 1;
        assert StoredAt(ptr, size, free, i);
        if i != k - 1 { AddrsDiffer(free, i, k - 1); }
      }
    } else {
      var size' := size[free[k].addr := free[k].size - n][Taken(free[k], n).addr := n];
      forall j | 0 <= j < |r| ensures StoredAt(ptr, size', r, j) {
        assert StoredAt(ptr, size, free, j);
        if j != k { AddrsDiffer(free, j, k); }
        if j < k { SortedAt(free, {}, j, k); } else if k < j { SortedAt(free, {}, k, j); }
      }
    }
  }
}
