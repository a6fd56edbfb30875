/** The buffer cache of kernel/bio.c. Each method is one step that the kernel runs
    under bcache.lock or while holding the buffer's sleep lock, so a run of the
    system is any interleaving of these steps. */
module BufferCache {
  import opened Basics
  import opened Disk
  import opened Ring

  datatype Buf = Buf(valid: bool, dev: nat, blockno: nat, locked: bool, refcnt: nat, data: Block) {
    predicate Caches(d: nat, b: nat) { dev == d && blockno == b }
  }

  /** The list head, then every buffer once, ordered by last release to zero. */
  ghost predicate LruOrder(ring: seq<nat>, released: seq<nat>, clock: nat)
  {
    && |ring| == |released| + 1
    && Distinct(ring)
    && ring[0] == |released|
    && (forall i | 1 <= i < |ring| :: ring[i] < |released|)
    && (forall i | 0 <= i < |released| :: i in ring)
    && (forall i, j | 1 <= i < j < |ring| :: released[ring[i]] > released[ring[j]])
    && (forall i | 0 <= i < |released| :: released[i] < clock)
  }

  ghost predicate LruRing(ring: seq<nat>, next: seq<nat>, prev: seq<nat>, released: seq<nat>, clock: nat)
  {
    |next| == |ring| && LruOrder(ring, released, clock) && Linked(ring, next, prev)
  }

  /** binit's list: the buffers from the last to the first. */
  lemma FirstOrder(ring: seq<nat>, released: seq<nat>, nbuf: nat)
    requires |ring| == nbuf + 1 && ring[0] == nbuf && forall i | 1 <= i <= nbuf :: ring[i] == nbuf - i
    requires |released| == nbuf && forall i | 0 <= i < nbuf :: released[i] == i
    ensures LruOrder(ring, released, nbuf)
  {
    forall i | 0 <= i < nbuf ensures i in ring {
      assert ring[nbuf - i] == i;
    }
  }

  /** Where the node that is at place j after a move of node k to the front was before. */
  ghost function Was(k: nat, j: nat): nat
  {
    if j == 0 then 0 else if j == 1 then k else if j <= k then j - 1 else j
  }

  lemma FrontIs(ring: seq<nat>, k: nat)
    requires 1 <= k < |ring|
    ensures var q := AtFront(Without(ring, k), ring[k]);
      |q| == |ring| && forall j | 0 <= j < |q| :: q[j] == ring[Was(k, j)]
  {
  }

  lemma FrontDistinct(ring: seq<nat>, q: seq<nat>, k: nat)
    requires 1 <= k < |ring| == |q| && Distinct(ring) && forall j | 0 <= j < |q| :: q[j] == ring[Was(k, j)]
    ensures Distinct(q)
  {
  }

  lemma FrontHas(ring: seq<nat>, q: seq<nat>, k: nat, x: nat)
    requires 1 <= k < |ring| == |q| && x in ring && forall j | 0 <= j < |q| :: q[j] == ring[Was(k, j)]
    ensures x in q
  {
    var m :| 0 <= m < |ring| && ring[m] == x;
    assert q[if m == 0 then 0 else if m == k then 1 else if m < k then m + 1 else m] == x;
  }

  lemma FrontLater(ring: seq<nat>, q: seq<nat>, released: seq<nat>, clock: nat, k: nat, i: nat, j: nat)
    requires LruOrder(ring, released, clock) && 1 <= k < |ring| == |q| && 1 <= i < j < |q|
    requires q[i] == ring[Was(k, i)] && q[j] == ring[Was(k, j)]
    ensures q[i] < |released| && q[j] < |released| && released[ring[k] := clock][q[i]] > released[ring[k] := clock][q[j]]
  {
    assert ring[k] != ring[Was(k, j)];
  }

  lemma OrderAtFront(ring: seq<nat>, released: seq<nat>, clock: nat, k: nat)
    requires LruOrder(ring, released, clock) && 1 <= k < |ring|
    ensures LruOrder(AtFront(Without(ring, k), ring[k]), released[ring[k] := clock], clock + 1)
  {
    FrontIs(ring, k);
    var q := AtFront(Without(ring, k), ring[k]);
    FrontDistinct(ring, q, k);
    forall x | 0 <= x < |released| ensures x in q { FrontHas(ring, q, k, x); }
    var after := released[ring[k] := clock];
    forall i, j | 1 <= i < j < |q| ensures q[i] < |after| && q[j] < |after| && after[q[i]] > after[q[j]] {
      FrontLater(ring, q, released, clock, k, i, j);
    }
    hide AtFront, Without, Distinct;
    assert forall i | 1 <= i < |q| :: q[i] < |released|;
  }

  /** brelse's relinking puts buffer i first. */
  lemma MoveToFront(ring: seq<nat>, next: seq<nat>, prev: seq<nat>, released: seq<nat>, clock: nat, i: nat) returns (k: nat)
    requires LruRing(ring, next, prev, released, clock) && i < |released|
    ensures 1 <= k < |ring| == |next| == |prev| == |released| + 1 && ring[k] == i && ring[0] == |released|
    ensures next[i] < |next| && prev[i] < |next| && next[i] != i
    ensures var n1, p1 := next[prev[i] := next[i]], prev[next[i] := prev[i]];
      && n1[ring[0]] < |next|
      && LruRing(AtFront(Without(ring, k), i), n1[i := n1[ring[0]]][ring[0] := i], p1[i := ring[0]][n1[ring[0]] := i],
                 released[i := clock], clock + 1)
  {
    assert i in ring;
    k :| 0 <= k < |ring| && ring[k] == i;
    OrderAtFront(ring, released, clock, k);
    hide LruOrder;
    assert next[i] < |next| && prev[i] < |next|;
    Unlink(ring, next, prev, k);
    InsertFront(Without(ring, k), next[prev[i] := next[i]], prev[next[i] := prev[i]], i);
  }

  /** What the cache, the disk and their users have to agree on. */
  datatype View = View(
    dev: nat,           // the one disk that is used
    bufs: seq<Buf>,
    holders: seq<nat>,  // processes between bget and brelse, per buffer
    pins: seq<nat>,     // bpin calls without bunpin, per buffer
    dirty: set<nat>,    // buffers changed since they were last logged or written
    disk: Image,
    logical: Image      // last contents logged or written, per block
  ) {
    /** At most one buffer per block of a device. */
    ghost predicate Unique()
    {
      forall i, j | 0 <= i < j < |bufs| && bufs[i].dev != 0 :: !bufs[j].Caches(bufs[i].dev, bufs[i].blockno)
    }

    /** Reference counts that count. */
    ghost predicate Counted()
    {
      && dev != 0
      && |bufs| == |holders| == |pins|
      && forall i | 0 <= i < |bufs| ::
           && bufs[i].refcnt == holders[i] + pins[i]
           && (bufs[i].locked ==> holders[i] > 0)
           && (bufs[i].refcnt > 0 || bufs[i].valid ==> bufs[i].dev == dev && bufs[i].blockno in disk)
           && (pins[i] > 0 ==> bufs[i].valid)
    }

    /** The cache over the disk agrees with the logical disk: a valid buffer that nobody is changing
        holds the logical contents, and a block whose disk contents are stale is in a pinned buffer. */
    ghost predicate Agrees()
      requires Counted()
    {
      && disk.Keys == logical.Keys
      && (forall i <- dirty :: i < |bufs| && bufs[i].locked && bufs[i].valid)
      && (forall i | 0 <= i < |bufs| && bufs[i].valid && i !in dirty ::
            bufs[i].blockno in logical && bufs[i].data == logical[bufs[i].blockno])
      && (forall b | b in disk && disk[b] != logical[b] :: Pinned(b))
    }

    ghost predicate Pinned(b: nat)
      requires |pins| == |bufs|
    {
      exists i :: 0 <= i < |bufs| && bufs[i].Caches(dev, b) && pins[i] > 0
    }

    ghost predicate Coherent()
    {
      Unique() && Counted() && Agrees()
    }
  }

  /** The part of the state that only disk writes and logging change. */
  datatype Stored = Stored(disk: Image, logical: Image, trace: seq<Write>)

  /** Nothing is cached. */
  lemma EmptyCoherent(v: View)
    requires v.dev != 0 && v.disk == v.logical && v.dirty == {} && |v.bufs| == |v.holders| == |v.pins|
    requires forall i | 0 <= i < |v.bufs| :: v.bufs[i] == Buf(false, 0, 0, false, 0, Data([])) && v.holders[i] == v.pins[i] == 0
    ensures v.Coherent()
  {
  }

  /** Blocks that were pinned are still pinned in w. */
  ghost predicate KeepsPins(v: View, w: View)
    requires |v.pins| == |v.bufs| == |w.bufs| == |w.pins|
  {
    && v.dev == w.dev
    && forall i | 0 <= i < |v.bufs| && v.pins[i] > 0 ::
         w.pins[i] > 0 && w.bufs[i].dev == v.bufs[i].dev && w.bufs[i].blockno == v.bufs[i].blockno
  }

  lemma PinnedKept(v: View, w: View, b: nat)
    requires |v.pins| == |v.bufs| == |w.bufs| == |w.pins|
    requires v.Pinned(b) && KeepsPins(v, w)
    ensures w.Pinned(b)
  {
  }

  function Referenced(x: Buf): Buf { x.(refcnt := x.refcnt + 1) }

  function Recycled(x: Buf, d: nat, b: nat): Buf { x.(dev := d, blockno := b, valid := false, refcnt := 1) }

  ghost function AfterReference(v: View, i: nat): (w: View)
    requires v.Coherent() && i < |v.bufs|
  {
    v.(bufs := v.bufs[i := Referenced(v.bufs[i])], holders := v.holders[i := v.holders[i] + 1])
  }

  lemma ReferenceCoherent(v: View, i: nat)
    requires v.Coherent()
    requires i < |v.bufs| && v.bufs[i].dev == v.dev && v.bufs[i].blockno in v.disk
    ensures AfterReference(v, i).Coherent()
  {
  }

  ghost function AfterRecycle(v: View, i: nat, b: nat): (w: View)
    requires v.Coherent() && i < |v.bufs|
  {
    v.(bufs := v.bufs[i := Recycled(v.bufs[i], v.dev, b)], holders := v.holders[i := v.holders[i] + 1])
  }

  /** A buffer that nobody references holds nothing that would be lost. */
  lemma RecycleCoherent(v: View, i: nat, b: nat)
    requires v.Coherent()
    requires i < |v.bufs| && v.bufs[i].refcnt == 0 && b in v.disk
    requires forall j | 0 <= j < |v.bufs| :: !v.bufs[j].Caches(v.dev, b)
    ensures AfterRecycle(v, i, b).Coherent()
  {
  }

  /** A buffer changes in place: lock, validity or data, but not its identity or counts. */
  lemma RewriteCoherent(v: View, i: nat, x: Buf, dirty: set<nat>)
    requires v.Coherent() && i < |v.bufs|
    requires x.dev == v.bufs[i].dev && x.blockno == v.bufs[i].blockno && x.refcnt == v.bufs[i].refcnt
    requires x.locked || i !in dirty
    requires v.holders[i] > 0 && (v.bufs[i].valid ==> x.valid)
    requires i in dirty ==> x.valid
    requires dirty - {i} == v.dirty - {i}
    requires x.valid && i !in dirty ==> x.data == v.logical[x.blockno]
    ensures v.(bufs := v.bufs[i := x], dirty := dirty).Coherent()
  {
    var w := v.(bufs := v.bufs[i := x], dirty := dirty);
    assert forall j | j != i :: (j in dirty <==> j in dirty - {i}) && (j in v.dirty <==> j in v.dirty - {i});
    forall b | b in v.disk && v.disk[b] != v.logical[b] ensures w.Pinned(b) {
      PinnedKept(v, w, b);
    }
  }

  /** Reading a block into an invalid buffer: nobody pins the block, so the disk has its contents. */
  lemma FillCoherent(v: View, i: nat)
    requires v.Coherent() && i < |v.bufs| && v.bufs[i].locked
    ensures v.bufs[i].blockno in v.disk && v.bufs[i].blockno in v.logical
    ensures v.bufs[i].valid && i !in v.dirty ==> v.bufs[i].data == v.logical[v.bufs[i].blockno]
    ensures !v.bufs[i].valid ==>
      && v.disk[v.bufs[i].blockno] == v.logical[v.bufs[i].blockno]
      && v.(bufs := v.bufs[i := v.bufs[i].(valid := true, data := v.disk[v.bufs[i].blockno])]).Coherent()
  {
  }

  lemma PinCoherent(v: View, i: nat)
    requires v.Coherent() && i < |v.bufs| == |v.pins| && v.bufs[i].valid
    ensures v.(bufs := v.bufs[i := Referenced(v.bufs[i])], pins := v.pins[i := v.pins[i] + 1]).Coherent()
  {
  }

  ghost function AfterUnpin(v: View, i: nat): (w: View)
    requires i < |v.bufs| == |v.pins| && v.bufs[i].refcnt > 0 && v.pins[i] > 0
  {
    v.(bufs := v.bufs[i := v.bufs[i].(refcnt := v.bufs[i].refcnt - 1)], pins := v.pins[i := v.pins[i] - 1])
  }

  /** A pin may go once the disk has the block's contents. */
  lemma UnpinCoherent(v: View, i: nat)
    requires v.Coherent() && i < |v.bufs| == |v.pins| && v.pins[i] > 0
    requires v.bufs[i].blockno in v.disk && v.bufs[i].blockno in v.logical
    requires v.disk[v.bufs[i].blockno] == v.logical[v.bufs[i].blockno]
    ensures v.bufs[i].refcnt > 0 && AfterUnpin(v, i).Coherent()
  {
  }

  ghost function AfterDrop(v: View, i: nat): (w: View)
    requires i < |v.bufs| == |v.holders| && v.bufs[i].refcnt > 0 && v.holders[i] > 0
  {
    v.(bufs := v.bufs[i := v.bufs[i].(refcnt := v.bufs[i].refcnt - 1)], holders := v.holders[i := v.holders[i] - 1])
  }

  lemma DropCoherent(v: View, i: nat)
    requires v.Coherent() && i < |v.bufs| == |v.holders|
    requires v.holders[i] > (if v.bufs[i].locked then 1 else 0)
    ensures v.bufs[i].refcnt > 0 && AfterDrop(v, i).Coherent()
  {
  }

  /** Logging or writing the contents of a valid buffer makes them the logical contents. */
  lemma RecordCoherent(v: View, i: nat, disk: Image)
    requires v.Coherent() && i < |v.bufs| && v.bufs[i].locked && v.bufs[i].valid
    requires (disk == v.disk && v.pins[i] > 0) || disk == v.disk[v.bufs[i].blockno := v.bufs[i].data]
    ensures v.(logical := v.logical[v.bufs[i].blockno := v.bufs[i].data], dirty := v.dirty - {i}, disk := disk).Coherent()
  {
  }

  class BCache {
    const nbuf: nat
    const dev: nat  // the one disk that is used

    var bufs: seq<Buf>
    var next: seq<nat>  // LRU ring; index nbuf is the list head
    var prev: seq<nat>
    var disk: Image

    ghost var ring: seq<nat>      // the list head, then most recently used first
    ghost var released: seq<nat>  // when each buffer last dropped to refcnt 0 in brelse
    ghost var clock: nat
    ghost var holders: seq<nat>
    ghost var pins: seq<nat>
    ghost var dirty: set<nat>     // buffers changed since they were last logged or written
    ghost var logical: Image      // last contents logged or written, per block
    ghost var trace: seq<Write>   // block writes issued to the disk

    ghost predicate Valid()
      reads this
    {
      && |bufs| == |released| == |holders| == |pins| == nbuf
      && LruRing(ring, next, prev, released, clock)
      && Now().Coherent()
    }

    ghost function Now(): View
      reads this
    {
      View(dev, bufs, holders, pins, dirty, disk, logical)
    }

    ghost function Store(): Stored
      reads this
    {
      Stored(disk, logical, trace)
    }

    /** binit: an empty cache over a disk, for instance after a reboot. */
    constructor (nbuf: nat, dev: nat, image: Image)
      requires dev != 0
      ensures Valid()
      ensures this.nbuf == nbuf && this.dev == dev && disk == image == logical
      ensures trace == [] && dirty == {}
      ensures forall i | 0 <= i < nbuf :: bufs[i].refcnt == 0 && pins[i] == 0 && !bufs[i].locked && !bufs[i].valid
    {
      this.nbuf, this.dev := nbuf, dev;
      bufs := seq(nbuf, i => Buf(false, 0, 0, false, 0, Data([])));
      disk, logical, trace, dirty := image, image, [], {};
      holders, pins := seq(nbuf, i => 0), seq(nbuf, i => 0);
      released, clock := seq(nbuf, i => i), nbuf;
      next, prev, ring := seq(nbuf + 1, i => nbuf), seq(nbuf + 1, i => nbuf), [nbuf];
      new;
      hide View.Coherent, LruOrder, Linked;
      EmptyCoherent(Now());
      LinkAll();
      FirstOrder(ring, released, nbuf);
    }

    /** binit's loop: every buffer goes to the front of the list. */
    method LinkAll()
      requires next == prev == seq(nbuf + 1, i => nbuf) && ring == [nbuf]
      modifies this`next, this`prev, this`ring
      ensures |next| == |ring| == nbuf + 1 && Linked(ring, next, prev) && ring[0] == nbuf
      ensures forall i | 1 <= i <= nbuf :: ring[i] == nbuf - i
    {
      var b := 0;
      while b < nbuf
        invariant 0 <= b <= nbuf && |next| == nbuf + 1 && |ring| == b + 1
        invariant Linked(ring, next, prev) && ring[0] == nbuf
        invariant forall i | 1 <= i <= b :: ring[i] == b - i
      {
        InsertFront(ring, next, prev, b);
        var first := next[nbuf];
        next := next[b := first];
        prev := prev[b := nbuf];
        prev := prev[first := b];
        next := next[nbuf := b];
        ring := AtFront(ring, b);
        b := b + 1;
      }
    }

    /** bget's first loop: from the most recently used buffer on. */
    method Lookup(d: nat, b: nat) returns (r: Option<nat>)
      requires |bufs| == |released| == nbuf && LruRing(ring, next, prev, released, clock)
      ensures r.Some? ==> r.value < nbuf && bufs[r.value].Caches(d, b)
      ensures r.None? ==> forall i | 0 <= i < nbuf :: !bufs[i].Caches(d, b)
    {
      ghost var k := 1;
      var i := next[nbuf];
      while i != nbuf
        invariant 1 <= k <= |ring|
        invariant i == if k < |ring| then ring[k] else nbuf
        invariant forall j | 1 <= j < k :: !bufs[ring[j]].Caches(d, b)
        decreases |ring| - k
      {
        if bufs[i].dev == d && bufs[i].blockno == b {
          return Some(i);
        }
        i, k := next[i], k + 1;
      }
      forall j | 0 <= j < nbuf ensures !bufs[j].Caches(d, b) {
        assert j in ring;
      }
      return None;
    }

    /** bget's second loop: the least recently used buffer that nobody references. */
    method Victim() returns (r: Option<nat>)
      requires |bufs| == |released| == nbuf && LruRing(ring, next, prev, released, clock)
      ensures r.Some? ==> r.value < nbuf && bufs[r.value].refcnt == 0
      ensures r.Some? ==> forall j | 0 <= j < nbuf && bufs[j].refcnt == 0 :: released[r.value] <= released[j]
      ensures r.None? ==> forall j | 0 <= j < nbuf :: bufs[j].refcnt > 0
    {
      ghost var k := |ring| - 1;
      var i := prev[nbuf];
      while i != nbuf && bufs[i].refcnt != 0
        invariant 0 <= k < |ring|
        invariant i == ring[k]
        invariant forall j | k < j < |ring| :: bufs[ring[j]].refcnt > 0
        decreases k
      {
        i, k := prev[i], k - 1;
      }
      forall j | 0 <= j < nbuf
        ensures i == nbuf ==> bufs[j].refcnt > 0
        ensures i != nbuf && bufs[j].refcnt == 0 ==> released[i] <= released[j]
      {
        assert j in ring;
      }
      return if i == nbuf then None else Some(i);
    }

    /** bget up to acquiresleep: the buffer that caches the block if there is one, else the least
        recently used buffer that nobody references; None is the panic for lack of buffers. */
    method Bget(d: nat, b: nat) returns (r: Option<nat>)
      requires Valid() && d == dev && b in disk
      modifies this`bufs, this`holders
      ensures Valid()
      ensures r.None? <==> (forall i | 0 <= i < nbuf :: !old(bufs)[i].Caches(d, b) && old(bufs)[i].refcnt > 0)
      ensures r.None? ==> bufs == old(bufs) && holders == old(holders)
      ensures r.Some? ==>
        var i := r.value;
        && i < nbuf
        && holders == old(holders)[i := old(holders)[i] + 1]
        && bufs == old(bufs)[i := bufs[i]] && bufs[i].Caches(d, b) && bufs[i].refcnt == old(bufs)[i].refcnt + 1
        && bufs[i].locked == old(bufs)[i].locked && bufs[i].data == old(bufs)[i].data
        && (bufs[i].valid <==> old(bufs)[i].valid && old(bufs)[i].Caches(d, b))
        && if exists j :: 0 <= j < nbuf && old(bufs)[j].Caches(d, b) then
             && old(bufs)[i].Caches(d, b)
             && bufs == old(bufs)[i := Referenced(old(bufs)[i])]
           else
             && old(bufs)[i].refcnt == 0
             && (forall j | 0 <= j < nbuf && old(bufs)[j].refcnt == 0 :: released[i] <= released[j])
             && bufs == old(bufs)[i := Recycled(old(bufs)[i], d, b)]
    {
      hide View.Coherent, LruRing;
      r := Lookup(d, b);
      if r.Some? {
        var i := r.value;
        ReferenceCoherent(Now(), i);
        bufs := bufs[i := Referenced(bufs[i])];
        holders := holders[i := holders[i] + 1];
        return;
      }
      r := Victim();
      if r.Some? {
        var i := r.value;
        RecycleCoherent(Now(), i, b);
        bufs := bufs[i := Recycled(bufs[i], d, b)];
        holders := holders[i := holders[i] + 1];
      }
    }

    /** acquiresleep on a buffer nobody has locked, by a process that bget gave the buffer to. */
    method Acquire(i: nat)
      requires Valid() && i < nbuf && holders[i] > 0 && !bufs[i].locked
      modifies this`bufs
      ensures Valid()
      ensures bufs == old(bufs)[i := old(bufs)[i].(locked := true)]
      ensures i !in dirty
    {
      RewriteCoherent(Now(), i, bufs[i].(locked := true), dirty);
      hide View.Coherent, LruRing;
      bufs := bufs[i := bufs[i].(locked := true)];
    }

    /** The rest of bread: read the block unless the buffer is valid already. */
    method Fill(i: nat)
      requires Valid() && i < nbuf && bufs[i].locked
      modifies this`bufs
      ensures Valid()
      ensures var x := old(bufs)[i];
        bufs == old(bufs)[i := if x.valid then x else x.(valid := true, data := disk[x.blockno])]
      ensures i !in dirty ==> bufs[i].data == logical[bufs[i].blockno]
    {
      hide View.Coherent, LruRing;
      FillCoherent(Now(), i);
      if !bufs[i].valid {
        bufs := bufs[i := bufs[i].(data := disk[bufs[i].blockno])];
        bufs := bufs[i := bufs[i].(valid := true)];
        assert bufs == old(bufs)[i := bufs[i]];
      }
    }

    /** The holder of a buffer changes its data. */
    method Modify(i: nat, data: Block)
      requires Valid() && i < nbuf && bufs[i].locked && bufs[i].valid
      modifies this`bufs, this`dirty
      ensures Valid()
      ensures bufs == old(bufs)[i := old(bufs)[i].(data := data)]
      ensures dirty == old(dirty) + {i}
    {
      RewriteCoherent(Now(), i, bufs[i].(data := data), dirty + {i});
      hide View.Coherent, LruRing;
      bufs := bufs[i := bufs[i].(data := data)];
      dirty := dirty + {i};
    }

    /** bwrite: the contents go to the disk. */
    method Bwrite(i: nat)
      requires Valid() && i < nbuf && bufs[i].locked && bufs[i].valid
      modifies this`disk, this`logical, this`dirty, this`trace
      ensures Valid()
      ensures disk == old(disk)[bufs[i].blockno := bufs[i].data]
      ensures logical == old(logical)[bufs[i].blockno := bufs[i].data]
      ensures trace == old(trace) + [Write(bufs[i].blockno, bufs[i].data)]
      ensures dirty == old(dirty) - {i}
    {
      RecordCoherent(Now(), i, disk[bufs[i].blockno := bufs[i].data]);
      hide View.Coherent, LruRing;
      disk := disk[bufs[i].blockno := bufs[i].data];
      logical := logical[bufs[i].blockno := bufs[i].data];
      trace := trace + [Write(bufs[i].blockno, bufs[i].data)];
      dirty := dirty - {i};
    }

    /** The buffer's contents are now part of the current transaction. */
    ghost method Record(i: nat)
      requires Valid() && i < nbuf && bufs[i].locked && bufs[i].valid && pins[i] > 0
      modifies this`logical, this`dirty
      ensures Valid()
      ensures logical == old(logical)[bufs[i].blockno := bufs[i].data]
      ensures dirty == old(dirty) - {i}
    {
      RecordCoherent(Now(), i, disk);
      hide View.Coherent, LruRing;
      logical := logical[bufs[i].blockno := bufs[i].data];
      dirty := dirty - {i};
    }

    method Bpin(i: nat)
      requires Valid() && i < nbuf && bufs[i].locked && bufs[i].valid
      modifies this`bufs, this`pins
      ensures Valid()
      ensures bufs == old(bufs)[i := Referenced(old(bufs)[i])]
      ensures pins == old(pins)[i := old(pins)[i] + 1]
    {
      hide View.Coherent, LruRing;
      PinCoherent(Now(), i);
      bufs := bufs[i := Referenced(bufs[i])];
      pins := pins[i := pins[i] + 1];
    }

    method Bunpin(i: nat)
      requires Valid() && i < nbuf && pins[i] > 0
      requires bufs[i].blockno in disk && bufs[i].blockno in logical
      requires disk[bufs[i].blockno] == logical[bufs[i].blockno]
      modifies this`bufs, this`pins
      ensures Valid()
      ensures bufs == old(bufs)[i := old(bufs)[i].(refcnt := old(bufs)[i].refcnt - 1)]
      ensures pins == old(pins)[i := old(pins)[i] - 1]
    {
      hide View.Coherent, LruRing;
      UnpinCoherent(Now(), i);
      bufs := bufs[i := bufs[i].(refcnt := bufs[i].refcnt - 1)];
      pins := pins[i := pins[i] - 1];
    }

    /** brelse's releasesleep. */
    method Unlock(i: nat)
      requires Valid() && i < nbuf && bufs[i].locked && i !in dirty
      modifies this`bufs
      ensures Valid()
      ensures bufs == old(bufs)[i := old(bufs)[i].(locked := false)]
    {
      RewriteCoherent(Now(), i, bufs[i].(locked := false), dirty);
      hide View.Coherent, LruRing;
      bufs := bufs[i := bufs[i].(locked := false)];
    }

    /** The rest of brelse, which another holder's acquiresleep may precede: drop the reference, and
        move a buffer that nobody references any more to the front of the list. */
    method Drop(i: nat)
      requires Valid() && i < nbuf && holders[i] > (if bufs[i].locked then 1 else 0)
      modifies this`bufs, this`holders, this`next, this`prev, this`ring, this`released, this`clock
      ensures Valid()
      ensures bufs == old(bufs)[i := old(bufs)[i].(refcnt := old(bufs)[i].refcnt - 1)]
      ensures holders == old(holders)[i := old(holders)[i] - 1]
      ensures if bufs[i].refcnt == 0
              then |ring| > 1 && ring[1] == i && released == old(released)[i := old(clock)]
              else released == old(released) && ring == old(ring)
    {
      hide View.Coherent, LruRing;
      DropCoherent(Now(), i);
      bufs := bufs[i := bufs[i].(refcnt := bufs[i].refcnt - 1)];
      holders := holders[i := holders[i] - 1];
      if bufs[i].refcnt == 0 {
        Relink(i);
      }
    }

    /** brelse's six assignments: out of the list, and back in at the front. */
    method Relink(i: nat)
      requires |released| == nbuf && LruRing(ring, next, prev, released, clock) && i < nbuf
      modifies this`next, this`prev, this`ring, this`released, this`clock
      ensures LruRing(ring, next, prev, released, clock) && |ring| == nbuf + 1
      ensures released == old(released)[i := old(clock)] && ring[1] == i
    {
      hide LruRing;
      ghost var k := MoveToFront(ring, next, prev, released, clock, i);
      prev := prev[next[i] := prev[i]];
      next := next[prev[i] := next[i]];
      next := next[i := next[nbuf]];
      prev := prev[i := nbuf];
      prev := prev[next[nbuf] := i];
      next := next[nbuf := i];
      ring, released, clock := AtFront(Without(ring, k), i), released[i := clock], clock + 1;
    }
  }
}
