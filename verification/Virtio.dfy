/** The disk driver of kernel/virtio_disk.c against a device that completes requests in any order. */
module Virtio {

  import opened Basics

  const NUM: nat := 8
  const WORD: nat := 0x1_0000  // ring indices are 16 bits wide

  /** What a descriptor's address points to. */
  datatype Addr = Null | OpOf(i: nat) | DataOf(b: nat) | StatusOf(i: nat)

  datatype Desc = Desc(addr: Addr, deviceWrites: bool, hasNext: bool, next: nat)

  datatype Op = Op(write: bool, sector: nat)

  datatype Info = Info(b: Option<nat>, status: nat)

  const CLEARED: Desc := Desc(Null, false, false, 0)

  datatype Phase = Queued | InFlight | Used | Done

  /** A request that owns a chain: its buffer, direction and sector, the chain's second and third
      descriptor, how far it is, and its serial number. */
  datatype Request = Request(b: nat, write: bool, sector: nat, d1: nat, d2: nat, phase: Phase, id: nat)

  function CountFree(free: seq<bool>): (n: nat)
    ensures n <= |free|
  {
    if free == [] then 0 else (if free[0] then 1 else 0) + CountFree(free[1..])
  }

  lemma {:induction false} CountFlip(free: seq<bool>, i: nat)
    requires i < |free|
    ensures CountFree(free[i := !free[i]]) == CountFree(free) + (if free[i] then -1 else 1)
  {
    if i == 0 {
      assert free[i := !free[i]][1..] == free[1..];
    } else {
      CountFlip(free[1..], i - 1);
      assert free[i := !free[i]][1..] == free[1..][i - 1 := !free[i]];
    }
  }

  /** The chain that starts at h says what the request says. */
  ghost predicate ChainOk(free: seq<bool>, desc: seq<Desc>, ops: seq<Op>, h: nat, r: Request)
  {
    && |free| == |desc| == |ops| == NUM
    && h < NUM && r.d1 < NUM && r.d2 < NUM && h != r.d1 && h != r.d2 && r.d1 != r.d2
    && !free[h] && !free[r.d1] && !free[r.d2]
    && desc[h] == Desc(OpOf(h), false, true, r.d1)
    && desc[r.d1] == Desc(DataOf(r.b), !r.write, true, r.d2)
    && desc[r.d2] == Desc(StatusOf(h), true, false, 0)
    && ops[h] == Op(r.write, r.sector)
  }

  ghost function Chain(h: nat, r: Request): set<nat> { {h, r.d1, r.d2} }

  /** The ring slot of an index, and the next 16-bit index. */
  function Slot(i: nat): (k: nat)
    ensures k < NUM
  {
    i % NUM
  }

  function Bump(i: nat): nat { (i + 1) % WORD }

  function Index(count: nat): nat { count % WORD }

  /** A ring index and the ring slots that its reader has not passed yet, against the history. */
  ghost predicate RingOk(idx: nat, ring: seq<nat>, hist: seq<nat>, from: nat)
  {
    && |ring| == NUM
    && from <= |hist| <= from + NUM
    && idx == Index(|hist|)
    && forall k | from <= k < |hist| :: ring[Slot(k)] == hist[k]
  }

  /** NUM divides the index range, so wrapping an index does not move its slot. */
  lemma SlotOfIndex(k: nat)
    ensures Slot(Index(k)) == Slot(k)
    ensures Bump(Index(k)) == Index(k + 1)
  {
    NextIndex(k);
    SlotShift(k / WORD * 8192, Index(k));
    assert k == k / WORD * WORD + Index(k);
  }

  lemma SlotShift(m: nat, r: nat)
    ensures Slot(NUM * m + r) == Slot(r)
  {
  }

  lemma NextIndex(k: nat)
    ensures Bump(Index(k)) == Index(k + 1)
  {
  }

  lemma SlotsApart(a: nat, b: nat)
    requires a < b < a + NUM
    ensures Slot(a) != Slot(b)
  {
  }

  lemma IndicesTellApart(a: nat, b: nat)
    requires a <= b <= a + NUM
    ensures Index(a) == Index(b) <==> a == b
  {
  }

  lemma RingPush(idx: nat, ring: seq<nat>, hist: seq<nat>, from: nat, h: nat)
    requires RingOk(idx, ring, hist, from) && |hist| < from + NUM
    ensures RingOk(Bump(idx), ring[Slot(idx) := h], hist + [h], from)
  {
    SlotOfIndex(|hist|);
    forall k | from <= k < |hist| ensures Slot(k) != Slot(|hist|) {
      SlotsApart(k, |hist|);
    }
  }

  /** The reader's 16-bit index differs from the writer's exactly if there is an entry to read. */
  lemma RingFront(idx: nat, ring: seq<nat>, hist: seq<nat>, from: nat)
    requires RingOk(idx, ring, hist, from)
    ensures Index(from) != idx <==> from < |hist|
    ensures from < |hist| ==> ring[Slot(Index(from))] == hist[from] && RingOk(idx, ring, hist, from + 1)
  {
    SlotOfIndex(from);
    IndicesTellApart(from, |hist|);
  }

  lemma RingSize(idx: nat, ring: seq<nat>, hist: seq<nat>, from: nat)
    requires RingOk(idx, ring, hist, from)
    ensures |ring| == NUM
  {
  }

  lemma DropFirst(s: seq<nat>)
    requires Distinct(s) && s != []
    ensures Distinct(s[1..]) && forall h :: h in s[1..] <==> h in s && h != s[0]
  {
    assert s == [s[0]] + s[1..];
  }

  /** Duplicate-free entries out of a set are no more than the set has. */
  lemma {:induction false} AtMost(s: seq<nat>, all: set<nat>)
    requires Distinct(s) && forall x <- s :: x in all
    ensures |s| <= |all|
  {
    if s != [] {
      assert s[0] in s;
      forall x <- s[1..] ensures x in all - {s[0]} {
        assert x in s && x != s[0];
      }
      AtMost(s[1..], all - {s[0]});
    }
  }

  /** q lists, once each, the live requests in a phase. */
  ghost predicate QueueOk(q: seq<nat>, live: map<nat, Request>, phase: Phase)
  {
    Distinct(q) && forall h :: h in q <==> h in live && live[h].phase == phase
  }

  /** Live requests own disjoint chains and different buffers. */
  ghost predicate Apart(live: map<nat, Request>)
  {
    forall h <- live, g <- live :: h != g ==> Chain(h, live[h]) !! Chain(g, live[g]) && live[h].b != live[g].b
  }

  function Moved(live: map<nat, Request>, h: nat, phase: Phase): map<nat, Request>
    requires h in live
  {
    live[h := live[h].(phase := phase)]
  }

  lemma QueueMoves(q: seq<nat>, live: map<nat, Request>, h: nat, from: Phase, to: Phase, phase: Phase)
    requires QueueOk(q, live, phase) && h in live && live[h].phase == from != to
    ensures phase != from && phase != to ==> QueueOk(q, Moved(live, h, to), phase)
    ensures phase == from && q != [] && q[0] == h ==> QueueOk(q[1..], Moved(live, h, to), phase)
    ensures phase == to ==> QueueOk(q + [h], Moved(live, h, to), phase)
  {
    if q != [] {
      DropFirst(q);
    }
  }

  /** Which requests own chains, and the histories of the two rings: submitted[..fetched] has been
      read by the device, completed[..seen] by the driver. */
  datatype Track = Track(live: map<nat, Request>, submitted: seq<nat>, fetched: nat, completed: seq<nat>, seen: nat) {
    ghost predicate Valid()
    {
      && fetched <= |submitted| && seen <= |completed|
      && QueueOk(submitted[fetched..], live, Queued)
      && QueueOk(completed[seen..], live, Used)
      && Apart(live)
    }
  }

  ghost function AfterSubmit(t: Track, h: nat, r: Request): Track
  {
    t.(live := t.live[h := r], submitted := t.submitted + [h])
  }

  lemma SubmitKeeps(t: Track, h: nat, r: Request)
    requires t.Valid() && h !in t.live && r.phase == Queued
    requires forall g <- t.live :: Chain(h, r) !! Chain(g, t.live[g]) && r.b != t.live[g].b
    ensures AfterSubmit(t, h, r).Valid()
  {
    var u := AfterSubmit(t, h, r);
    assert u.submitted[u.fetched..] == t.submitted[t.fetched..] + [h];
  }

  /** The device reads the next entry of the available ring. */
  ghost function AfterFetch(t: Track): Track
    requires t.fetched < |t.submitted| && t.submitted[t.fetched] in t.live
  {
    t.(live := Moved(t.live, t.submitted[t.fetched], InFlight), fetched := t.fetched + 1)
  }

  lemma FetchKeeps(t: Track)
    requires t.Valid() && t.fetched < |t.submitted|
    ensures var h := t.submitted[t.fetched];
      h in t.live && t.live[h].phase == Queued && AfterFetch(t).Valid()
  {
    var h, q := t.submitted[t.fetched], t.submitted[t.fetched..];
    assert q[0] == h && t.submitted[t.fetched + 1..] == q[1..];
    assert h in q;
    QueueMoves(q, t.live, h, Queued, InFlight, Queued);
    QueueMoves(t.completed[t.seen..], t.live, h, Queued, InFlight, Used);
    hide QueueOk;
  }

  /** The device writes an entry to the used ring. */
  ghost function AfterComplete(t: Track, h: nat): Track
    requires h in t.live
  {
    t.(live := Moved(t.live, h, Used), completed := t.completed + [h])
  }

  lemma CompleteKeeps(t: Track, h: nat)
    requires t.Valid() && h in t.live && t.live[h].phase == InFlight
    ensures AfterComplete(t, h).Valid()
  {
    assert (t.completed + [h])[t.seen..] == t.completed[t.seen..] + [h];
    hide QueueOk;
    QueueMoves(t.submitted[t.fetched..], t.live, h, InFlight, Used, Queued);
    QueueMoves(t.completed[t.seen..], t.live, h, InFlight, Used, Used);
  }

  /** The driver reads the next entry of the used ring. */
  ghost function AfterSee(t: Track): Track
    requires t.seen < |t.completed| && t.completed[t.seen] in t.live
  {
    t.(live := Moved(t.live, t.completed[t.seen], Done), seen := t.seen + 1)
  }

  lemma SeeKeeps(t: Track)
    requires t.Valid() && t.seen < |t.completed|
    ensures var h := t.completed[t.seen];
      h in t.live && t.live[h].phase == Used && AfterSee(t).Valid()
  {
    var h, q := t.completed[t.seen], t.completed[t.seen..];
    assert q[0] == h && t.completed[t.seen + 1..] == q[1..];
    assert h in q;
    QueueMoves(q, t.live, h, Used, Done, Used);
    QueueMoves(t.submitted[t.fetched..], t.live, h, Used, Done, Queued);
    hide QueueOk;
  }

  lemma FinishKeeps(t: Track, h: nat)
    requires t.Valid() && h in t.live && t.live[h].phase == Done
    ensures t.(live := t.live - {h}).Valid()
  {
  }

  /** There are never more unread ring entries than requests that own chains. */
  lemma RingsHaveRoom(t: Track)
    requires t.Valid()
    ensures |t.submitted| - t.fetched <= |t.live| && |t.completed| - t.seen <= |t.live|
  {
    AtMost(t.submitted[t.fetched..], t.live.Keys);
    AtMost(t.completed[t.seen..], t.live.Keys);
  }

  /** The driver's tables. */
  datatype Tab = Tab(free: seq<bool>, desc: seq<Desc>, ops: seq<Op>, info: seq<Info>, busy: set<nat>) {
    ghost predicate Sized() { |free| == |desc| == |ops| == |info| == NUM }

    /** What the tables say about a live request. */
    ghost predicate Live(h: nat, r: Request)
    {
      && Sized()
      && ChainOk(free, desc, ops, h, r)
      && info[h].b == Some(r.b)
      && (r.phase == Done ==> info[h].status == 0)
      && (r.phase != Done <==> r.b in busy)
    }

    ghost predicate Valid(live: map<nat, Request>)
    {
      && Sized()
      && (forall h <- live :: Live(h, live[h]))
      && CountFree(free) + 3 * |live| == NUM
    }
  }

  /** virtio_disk_rw's formatting of three descriptors. */
  function Formatted(x: Tab, h: nat, d1: nat, d2: nat, b: nat, write: bool, sector: nat): Tab
    requires |x.desc| == |x.ops| == |x.info| == NUM && h < NUM && d1 < NUM && d2 < NUM
  {
    x.(ops := x.ops[h := Op(write, sector)],
       desc := x.desc[h := Desc(OpOf(h), false, true, d1)][d1 := Desc(DataOf(b), !write, true, d2)]
                [d2 := Desc(StatusOf(h), true, false, 0)],
       info := x.info[h := Info(Some(b), 0xff)],
       busy := x.busy + {b})
  }

  /** From x to y three free descriptors were taken and formatted for a request. */
  ghost predicate Prepared(x: Tab, y: Tab, h: nat, r: Request)
  {
    && x.Sized()
    && h < NUM && r.d1 < NUM && r.d2 < NUM && h != r.d1 && h != r.d2 && r.d1 != r.d2
    && x.free[h] && x.free[r.d1] && x.free[r.d2]
    && |y.free| == NUM && !y.free[h] && !y.free[r.d1] && !y.free[r.d2]
    && (forall j | 0 <= j < NUM && j != h && j != r.d1 && j != r.d2 :: y.free[j] == x.free[j])
    && CountFree(y.free) == CountFree(x.free) - 3
    && y == Formatted(x.(free := y.free), h, r.d1, r.d2, r.b, r.write, r.sector)
  }

  /** Descriptors that were free are in no chain. */
  lemma FreeIsUnowned(x: Tab, live: map<nat, Request>, d: nat, h: nat)
    requires x.Valid(live) && h in live && d < NUM && x.free[d]
    ensures d !in Chain(h, live[h])
  {
    assert x.Live(h, live[h]);
  }

  lemma FormatLive(x: Tab, y: Tab, live: map<nat, Request>, h: nat, r: Request, g: nat)
    requires x.Valid(live) && g in live && Prepared(x, y, h, r) && r.b != live[g].b
    ensures y.Live(g, live[g]) && Chain(h, r) !! Chain(g, live[g])
  {
    hide CountFree, Tab.Valid;
    LiveInRange(x, live, g);
    FreeIsUnowned(x, live, h, g);
    FreeIsUnowned(x, live, r.d1, g);
    FreeIsUnowned(x, live, r.d2, g);
  }

  lemma NewLive(x: Tab, y: Tab, h: nat, r: Request)
    requires Prepared(x, y, h, r) && r.phase == Queued
    ensures h < NUM && x.Sized() && x.free[h] && CountFree(y.free) == CountFree(x.free) - 3
    ensures y.Sized() && y.Live(h, r)
  {
  }

  lemma FormatValid(x: Tab, y: Tab, live: map<nat, Request>, h: nat, r: Request)
    requires x.Valid(live) && Prepared(x, y, h, r) && r.phase == Queued
    requires forall g <- live :: r.b != live[g].b
    ensures h !in live && y.Sized() && y.Valid(live[h := r])
    ensures forall g <- live :: Chain(h, r) !! Chain(g, live[g])
  {
    hide Tab.Live, Prepared, CountFree;
    NewLive(x, y, h, r);
    if h in live { FreeIsUnowned(x, live, h, h); }
    forall g <- live ensures y.Live(g, live[g]) && Chain(h, r) !! Chain(g, live[g]) {
      FormatLive(x, y, live, h, r, g);
    }
  }

  /** The device and the interrupt handler move a request along. */
  lemma MoveLive(x: Tab, y: Tab, live: map<nat, Request>, h: nat, to: Phase, status: nat, g: nat)
    requires h in live && g in live && x.Live(g, live[g]) && x.Live(h, live[h]) && Apart(live)
    requires (to == InFlight && live[h].phase == Queued && y == x)
          || (to == Used && live[h].phase == InFlight && y == x.(info := x.info[h := x.info[h].(status := status)]))
          || (to == Done && live[h].phase == Used && x.info[h].status == 0 && y == x.(busy := x.busy - {live[h].b}))
    ensures y.Live(g, Moved(live, h, to)[g])
  {
  }

  lemma LiveInRange(x: Tab, live: map<nat, Request>, h: nat)
    requires x.Valid(live) && h in live
    ensures h < NUM && live[h].d1 < NUM && live[h].d2 < NUM && x.Live(h, live[h])
  {
    assert x.Live(h, live[h]);
  }

  lemma MoveValid(x: Tab, y: Tab, live: map<nat, Request>, h: nat, to: Phase, status: nat)
    requires x.Valid(live) && h in live && h < |x.info| && Apart(live)
    requires (to == InFlight && live[h].phase == Queued && y == x)
          || (to == Used && live[h].phase == InFlight && y == x.(info := x.info[h := x.info[h].(status := status)]))
          || (to == Done && live[h].phase == Used && x.info[h].status == 0 && y == x.(busy := x.busy - {live[h].b}))
    ensures y.Valid(Moved(live, h, to))
  {
    hide Tab.Live, Apart;
    LiveInRange(x, live, h);
    var m := Moved(live, h, to);
    assert m.Keys == live.Keys && |m| == |live|;
    forall g <- m ensures y.Live(g, m[g]) {
      MoveLive(x, y, live, h, to, status, g);
    }
  }

  /** free_chain on a request that is done. */
  lemma FreeLive(x: Tab, y: Tab, live: map<nat, Request>, h: nat, g: nat)
    requires h in live && g in live && g != h && h < NUM && x.Live(g, live[g]) && Apart(live)
    requires y.Sized() && y.ops == x.ops && y.busy == x.busy && y.info == x.info[h := x.info[h].(b := None)]
    requires forall j | 0 <= j < NUM && j !in Chain(h, live[h]) :: y.free[j] == x.free[j] && y.desc[j] == x.desc[j]
    ensures y.Live(g, live[g])
  {
  }

  lemma FreeValid(x: Tab, y: Tab, live: map<nat, Request>, h: nat)
    requires x.Valid(live) && h in live && live[h].phase == Done && Apart(live) && h < NUM
    requires y.Sized() && y.ops == x.ops && y.busy == x.busy && y.info == x.info[h := x.info[h].(b := None)]
    requires forall j | 0 <= j < NUM && j !in Chain(h, live[h]) :: y.free[j] == x.free[j] && y.desc[j] == x.desc[j]
    requires CountFree(y.free) == CountFree(x.free) + 3
    ensures y.Valid(live - {h})
  {
    hide Tab.Live, Apart;
    assert (live - {h}).Keys == live.Keys - {h} && |live - {h}| == |live| - 1;
    forall g <- live - {h} ensures y.Live(g, live[g]) {
      FreeLive(x, y, live, h, g);
    }
  }

  /** A request is completed at most once, and exactly from then on it is done. */
  ghost predicate SerialsOk(live: map<nat, Request>, serial: nat, finished: seq<nat>)
  {
    && Distinct(finished)
    && (forall x <- finished :: x < serial)
    && (forall h <- live :: live[h].id < serial && (live[h].id in finished <==> live[h].phase == Done))
    && (forall h <- live, g <- live :: h != g ==> live[h].id != live[g].id)
  }

  lemma SerialsMove(live: map<nat, Request>, serial: nat, finished: seq<nat>, h: nat, to: Phase)
    requires SerialsOk(live, serial, finished) && h in live && live[h].phase != Done
    ensures to != Done ==> SerialsOk(Moved(live, h, to), serial, finished)
    ensures to == Done ==> SerialsOk(Moved(live, h, to), serial, finished + [live[h].id])
  {
  }

  class Driver {
    var free: seq<bool>
    var desc: seq<Desc>
    var ops: seq<Op>
    var info: seq<Info>
    var availIdx: nat
    var availRing: seq<nat>
    var usedIdx: nat         // how far the driver has looked in the used ring
    var busy: set<nat>       // buffers with b->disk set

    var devIdx: nat          // how far the device has looked in the available ring
    var usedRingIdx: nat
    var usedRing: seq<nat>
    var data: map<nat, int>  // contents of buffers
    var disk: map<nat, int>  // contents of sectors

    ghost var t: Track
    ghost var serial: nat
    ghost var finished: seq<nat>  // serial numbers in the order virtio_disk_intr completed them

    ghost function Tables(): Tab
      reads this
    {
      Tab(free, desc, ops, info, busy)
    }

    ghost predicate Valid()
      reads this
    {
      && Tables().Sized() && Tables().Valid(t.live)
      && t.Valid()
      && RingOk(availIdx, availRing, t.submitted, t.fetched) && devIdx == Index(t.fetched)
      && RingOk(usedRingIdx, usedRing, t.completed, t.seen) && usedIdx == Index(t.seen)
      && |availRing| == |usedRing| == NUM
      && SerialsOk(t.live, serial, finished)
    }

    constructor (data: map<nat, int>, disk: map<nat, int>)
      ensures Valid() && t == Track(map[], [], 0, [], 0) && this.data == data && this.disk == disk
      ensures busy == {} && CountFree(free) == NUM && serial == 0 && finished == []
    {
      free := seq(NUM, i => true);
      desc := seq(NUM, i => CLEARED);
      ops := seq(NUM, i => Op(false, 0));
      info := seq(NUM, i => Info(None, 0));
      availIdx, usedIdx, devIdx, usedRingIdx := 0, 0, 0, 0;
      availRing, usedRing := seq(NUM, i => 0), seq(NUM, i => 0);
      busy, this.data, this.disk := {}, data, disk;
      t, serial, finished := Track(map[], [], 0, [], 0), 0, [];
      new;
      AllFree(free);
    }

    /** alloc_desc: the first free descriptor, or -1. */
    method AllocDesc() returns (i: int)
      requires |free| == NUM
      modifies this`free
      ensures i == -1 || 0 <= i < NUM
      ensures i == -1 ==> free == old(free) && forall j | 0 <= j < NUM :: !free[j]
      ensures i >= 0 ==> old(free)[i] && free == old(free)[i := false] && forall j | 0 <= j < i :: !old(free)[j]
    {
      i := 0;
      while i < NUM
        invariant 0 <= i <= NUM && free == old(free)
        invariant forall j | 0 <= j < i :: !free[j]
      {
        if free[i] {
          free := free[i := false];
          return;
        }
        i := i + 1;
      }
      return -1;
    }

    /** free_desc: false is one of its panics. */
    method FreeDesc(i: nat) returns (ok: bool)
      requires |free| == |desc| == NUM
      modifies this`free, this`desc
      ensures ok <==> i < NUM && !old(free)[i]
      ensures ok ==> free == old(free)[i := true] && desc == old(desc)[i := CLEARED]
      ensures !ok ==> free == old(free) && desc == old(desc)
    {
      if i >= NUM {
        return false;
      }
      if free[i] {
        return false;
      }
      desc := desc[i := CLEARED];
      free := free[i := true];
      return true;
    }

    /** alloc3_desc: three descriptors, or all given back; giving them back does not panic. */
    method Alloc3() returns (ok: bool, idx: seq<nat>)
      requires |free| == |desc| == NUM
      modifies this`free, this`desc
      ensures |free| == |desc| == NUM
      ensures ok <==> CountFree(old(free)) >= 3
      ensures ok ==>
        && |idx| == 3 && Distinct(idx) && desc == old(desc)
        && (forall d <- idx :: d < NUM && old(free)[d])
        && (forall j | 0 <= j < NUM :: free[j] == (old(free)[j] && j !in idx))
        && CountFree(free) == CountFree(old(free)) - 3
      ensures !ok ==> free == old(free) && forall j | 0 <= j < NUM && !free[j] :: desc[j] == old(desc)[j]
    {
      idx := [];
      var i := 0;
      while i < 3
        invariant 0 <= i == |idx| <= 3 && |free| == NUM && desc == old(desc)
        invariant Distinct(idx) && forall d <- idx :: d < NUM && old(free)[d]
        invariant forall j | 0 <= j < NUM :: free[j] == (old(free)[j] && j !in idx)
        invariant CountFree(free) == CountFree(old(free)) - i
      {
        ghost var before := free;
        var d := AllocDesc();
        if d < 0 {
          NoneFree(free);
          GiveBack(idx, old(free));
          return false, [];
        }
        CountFlip(before, d);
        idx := idx + [d];
        i := i + 1;
      }
      ok := true;
    }

    /** The three descriptors by name. */
    method AllocChain() returns (ok: bool, h: nat, d1: nat, d2: nat)
      requires |free| == |desc| == NUM
      modifies this`free, this`desc
      ensures |free| == |desc| == NUM
      ensures ok <==> CountFree(old(free)) >= 3
      ensures ok ==>
        && h < NUM && d1 < NUM && d2 < NUM && h != d1 && h != d2 && d1 != d2
        && old(free)[h] && old(free)[d1] && old(free)[d2] && !free[h] && !free[d1] && !free[d2]
        && (forall j | 0 <= j < NUM && j != h && j != d1 && j != d2 :: free[j] == old(free)[j])
        && CountFree(free) == CountFree(old(free)) - 3 && desc == old(desc)
      ensures !ok ==> free == old(free) && forall j | 0 <= j < NUM && !free[j] :: desc[j] == old(desc)[j]
    {
      var idx;
      ok, idx := Alloc3();
      if !ok {
        return false, 0, 0, 0;
      }
      h, d1, d2 := idx[0], idx[1], idx[2];
      assert h in idx && d1 in idx && d2 in idx;
    }

    /** virtio_disk_rw up to the available ring. */
    method Prepare(b: nat, write: bool, sector: nat, ghost id: nat) returns (ok: bool, h: nat, d1: nat, d2: nat)
      requires Tables().Sized()
      modifies this`free, this`desc, this`ops, this`info, this`busy
      ensures ok <==> CountFree(old(free)) >= 3
      ensures ok ==> Prepared(old(Tables()), Tables(), h, Request(b, write, sector, d1, d2, Queued, id)) && busy == old(busy) + {b}
      ensures !ok ==> Tables().Sized() && Tables() == old(Tables()).(desc := desc)
      ensures !ok ==> forall j | 0 <= j < NUM && !free[j] :: desc[j] == old(desc)[j]
    {
      ok, h, d1, d2 := AllocChain();
      if ok {
        ops := ops[h := Op(write, sector)];
        desc := desc[h := Desc(OpOf(h), false, true, d1)];
        desc := desc[d1 := Desc(DataOf(b), !write, true, d2)];
        desc := desc[d2 := Desc(StatusOf(h), true, false, 0)];
        info := info[h := Info(Some(b), 0xff)];
        busy := busy + {b};
      }
    }

    /** virtio_disk_rw up to the wait for completion: a chain that says what is asked for is queued,
        unless there are not three free descriptors. The caller has the buffer locked. */
    method Submit(b: nat, write: bool, sector: nat) returns (ok: bool, h: nat)
      requires Valid() && b !in busy && forall g <- t.live :: t.live[g].b != b
      modifies this`free, this`desc, this`ops, this`info, this`availIdx, this`availRing, this`busy, this`t, this`serial
      ensures Valid()
      ensures ok <==> CountFree(old(free)) >= 3
      ensures !ok ==> t == old(t) && free == old(free) && busy == old(busy)
      ensures ok ==>
        && h !in old(t).live && h in t.live
        && t == AfterSubmit(old(t), h, t.live[h])
        && t.live[h] == Request(b, write, sector, t.live[h].d1, t.live[h].d2, Queued, old(serial))
        && busy == old(busy) + {b} && serial == old(serial) + 1
    {
      hide Tab.Valid, Track.Valid, RingOk, SerialsOk, CountFree, Prepared, Slot, Bump, Index;
      ghost var x := Tables();
      var d1, d2;
      ok, h, d1, d2 := Prepare(b, write, sector, serial);
      if !ok {
        RollbackValid(x, Tables(), t.live);
        return;
      }
      Publish(h, x, Request(b, write, sector, d1, d2, Queued, serial));
    }

    /** The entry in the available ring. */
    method Publish(h: nat, ghost x: Tab, ghost r: Request)
      requires x.Valid(t.live) && Prepared(x, Tables(), h, r) && r.phase == Queued && r.id == serial
      requires t.Valid() && SerialsOk(t.live, serial, finished) && forall g <- t.live :: r.b != t.live[g].b
      requires RingOk(availIdx, availRing, t.submitted, t.fetched) && devIdx == Index(t.fetched)
      requires RingOk(usedRingIdx, usedRing, t.completed, t.seen) && usedIdx == Index(t.seen) && |usedRing| == NUM
      modifies this`availIdx, this`availRing, this`t, this`serial
      ensures Valid() && h !in old(t).live && t == AfterSubmit(old(t), h, r) && serial == old(serial) + 1
    {
      hide Tab.Valid, Tab.Live, Track.Valid, RingOk, SerialsOk, CountFree, Prepared, Bump, Index;
      RingSize(availIdx, availRing, t.submitted, t.fetched);
      SubmitValid(x, Tables(), t, serial, finished, availIdx, availRing, h, r);
      availRing := availRing[Slot(availIdx) := h];
      availIdx := Bump(availIdx);
      t, serial := AfterSubmit(t, h, r), serial + 1;
    }

    /** The device reads the next entry of the available ring. */
    method DeviceFetch() returns (r: Option<nat>)
      requires Valid()
      modifies this`devIdx, this`t
      ensures Valid()
      ensures r.None? <==> old(t).fetched == |old(t).submitted|
      ensures r.None? ==> t == old(t)
      ensures r.Some? ==> r.value == old(t).submitted[old(t).fetched] && r.value in old(t).live && t == AfterFetch(old(t))
    {
      hide Tab.Valid, Track.Valid, RingOk, SerialsOk, Slot, Bump, Index;
      RingFront(availIdx, availRing, t.submitted, t.fetched);
      TrackApart(t);
      if devIdx == availIdx {
        return None;
      }
      FetchKeeps(t);
      SlotOfIndex(t.fetched);
      var h := availRing[Slot(devIdx)];
      LiveInRange(Tables(), t.live, h);
      MoveValid(Tables(), Tables(), t.live, h, InFlight, 0);
      SerialsMove(t.live, serial, finished, h, InFlight);
      devIdx := Bump(devIdx);
      t := AfterFetch(t);
      return Some(h);
    }

    /** The device carries out a request that it has read, in any order, by following the chain, and
        enters it in the used ring with a status: if that is 0, the transfer is the one asked for, else
        its target holds whatever the device left there. */
    method DeviceComplete(h: nat, status: nat, left: int)
      requires Valid() && h in t.live && t.live[h].phase == InFlight
      requires t.live[h].b in data && t.live[h].sector in disk
      modifies this`info, this`usedRing, this`usedRingIdx, this`data, this`disk, this`t
      ensures Valid() && t == AfterComplete(old(t), h)
      ensures h < |info| == |old(info)| && info == old(info)[h := old(info)[h].(status := status)]
      ensures var r := old(t).live[h];
        if r.write then disk == old(disk)[r.sector := if status == 0 then old(data)[r.b] else left] && data == old(data)
        else data == old(data)[r.b := if status == 0 then old(disk)[r.sector] else left] && disk == old(disk)
    {
      hide Tab.Valid, Tab.Live, Track.Valid, RingOk, SerialsOk, Slot, Bump, Index;
      LiveInRange(Tables(), t.live, h);
      ghost var x := Tables();
      Transfer(h, status, left, t.live[h]);
      CompleteValid(x, Tables(), t, serial, finished, usedRingIdx, usedRing, h, status);
      usedRing := usedRing[Slot(usedRingIdx) := h];
      usedRingIdx := Bump(usedRingIdx);
      t := AfterComplete(t, h);
    }

    /** What the device does to memory and disk when it follows the chain at h. */
    method Transfer(h: nat, status: nat, left: int, ghost r: Request)
      requires Tables().Live(h, r) && r.b in data && r.sector in disk
      modifies this`info, this`data, this`disk
      ensures h < |info| == |old(info)| && info == old(info)[h := old(info)[h].(status := status)]
      ensures if r.write then disk == old(disk)[r.sector := if status == 0 then old(data)[r.b] else left] && data == old(data)
              else data == old(data)[r.b := if status == 0 then old(disk)[r.sector] else left] && disk == old(disk)
    {
      var d1 := desc[h].next;
      var d2 := desc[d1].next;
      var b, op, s := desc[d1].addr.b, ops[desc[h].addr.i], desc[d2].addr.i;
      if desc[d1].deviceWrites {
        data := data[b := if status == 0 then disk[op.sector] else left];
      } else {
        disk := disk[op.sector := if status == 0 then data[b] else left];
      }
      info := info[s := info[s].(status := status)];
    }

    /** One turn of virtio_disk_intr's loop; its panic is for a status other than 0. */
    method SeeOne() returns (ok: bool)
      requires Valid() && t.seen < |t.completed|
      modifies this`busy, this`usedIdx, this`t, this`finished
      ensures Valid()
      ensures var h := old(t).completed[old(t).seen];
        && h in old(t).live && h < |info| && (ok <==> info[h].status == 0)
        && (if ok then
              t == AfterSee(old(t)) && finished == old(finished) + [old(t).live[h].id] && busy == old(busy) - {old(t).live[h].b}
            else t == old(t) && finished == old(finished) && busy == old(busy))
    {
      hide Tab.Valid, Track.Valid, RingOk, SerialsOk, Slot, Bump, Index;
      RingFront(usedRingIdx, usedRing, t.completed, t.seen);
      SeeKeeps(t);
      SlotOfIndex(t.seen);
      TrackApart(t);
      var id := usedRing[Slot(usedIdx)];
      LiveInRange(Tables(), t.live, id);
      if info[id].status != 0 {
        return false;
      }
      ghost var x := Tables();
      var b := info[id].b.value;
      busy := busy - {b};
      MoveValid(x, Tables(), t.live, id, Done, 0);
      SerialsMove(t.live, serial, finished, id, Done);
      finished := finished + [t.live[id].id];
      usedIdx := Bump(usedIdx);
      t := AfterSee(t);
      return true;
    }

    /** virtio_disk_intr: if the device reports no error, every request it has entered in the used ring
        is done. */
    method Interrupt() returns (ok: bool)
      requires Valid()
      modifies this`busy, this`usedIdx, this`t, this`finished
      ensures Valid() && SeenSome(old(t), t)
      ensures ok <==> forall k | old(t).seen <= k < |old(t).completed| :: Succeeded(info, old(t).completed[k])
      ensures ok ==> t.seen == |t.completed| && forall h <- t.live :: t.live[h].phase != Used
    {
      hide Tab.Valid, Track.Valid, RingOk, SerialsOk, Slot, Bump, Index, SeenSome;
      RingFront(usedRingIdx, usedRing, t.completed, t.seen);
      TrackApart(t);
      SeenNone(t);
      while usedIdx != usedRingIdx
        invariant Valid()
        invariant usedIdx != usedRingIdx <==> t.seen < |t.completed|
        invariant old(t).seen <= t.seen <= |t.completed| && t.completed == old(t).completed && SeenSome(old(t), t)
        invariant forall k | old(t).seen <= k < t.seen :: Succeeded(info, old(t).completed[k])
        decreases |t.completed| - t.seen
      {
        SeeKeeps(t);
        SeenMore(old(t), t);
        ok := SeeOne();
        if !ok {
          assert !Succeeded(info, old(t).completed[t.seen]);
          return;
        }
        assert Succeeded(info, old(t).completed[t.seen - 1]);
        RingFront(usedRingIdx, usedRing, t.completed, t.seen);
        TrackApart(t);
      }
      AllSeen(t);
      return true;
    }

    /** The end of virtio_disk_rw, once b->disk is clear. The "free_desc 2" panic does not happen. */
    method Finish(h: nat) returns (ok: bool)
      requires Valid() && h in t.live && t.live[h].b !in busy
      modifies this`info, this`free, this`desc, this`t
      ensures Valid() && ok && t == old(t).(live := old(t).live - {h}) && CountFree(free) == CountFree(old(free)) + 3
    {
      hide Tab.Valid, Track.Valid, RingOk, SerialsOk, Apart, CountFree;
      LiveInRange(Tables(), t.live, h);
      TrackApart(t);
      ghost var x := Tables();
      info := info[h := info[h].(b := None)];
      ok := FreeChain(h, t.live[h]);
      FreeValid(x, Tables(), t.live, h);
      FinishKeeps(t, h);
      SerialsDrop(t.live, serial, finished, h);
      t := t.(live := t.live - {h});
    }

    /** free_chain. */
    method FreeChain(h: nat, ghost r: Request) returns (ok: bool)
      requires Tables().Sized() && ChainOk(free, desc, ops, h, r)
      modifies this`free, this`desc
      ensures ok && Tables().Sized() && CountFree(free) == CountFree(old(free)) + 3
      ensures forall j | 0 <= j < NUM && j !in Chain(h, r) :: free[j] == old(free)[j] && desc[j] == old(desc)[j]
    {
      hide CountFree;
      var i := h;
      ghost var chain, k := [h, r.d1, r.d2], 0;
      while true
        invariant 0 <= k < 3 && i == chain[k] && Tables().Sized()
        invariant forall j | k <= j < 3 :: !free[chain[j]] && desc[chain[j]] == old(desc)[chain[j]]
        invariant forall j | 0 <= j < NUM && j !in Chain(h, r) :: free[j] == old(free)[j] && desc[j] == old(desc)[j]
        invariant CountFree(free) == CountFree(old(free)) + k
        decreases 3 - k
      {
        var flag := desc[i].hasNext;
        var nxt := desc[i].next;
        CountFlip(free, i);
        ok := FreeDesc(i);
        if !ok {
          return;
        }
        if flag {
          i := nxt;
          k := k + 1;
        } else {
          break;
        }
      }
    }

    /** alloc3_desc's inner loop. */
    method GiveBack(idx: seq<nat>, ghost was: seq<bool>)
      requires |free| == |desc| == NUM == |was| && Distinct(idx)
      requires forall d <- idx :: d < NUM && was[d]
      requires forall j | 0 <= j < NUM :: free[j] == (was[j] && j !in idx)
      modifies this`free, this`desc
      ensures |desc| == NUM && free == was && forall j | 0 <= j < NUM && !was[j] :: desc[j] == old(desc)[j]
    {
      var j := 0;
      while j < |idx|
        invariant 0 <= j <= |idx| && |free| == |desc| == NUM
        invariant forall k | 0 <= k < NUM :: free[k] == (was[k] && k !in idx[j..])
        invariant forall k | 0 <= k < NUM && !was[k] :: desc[k] == old(desc)[k]
      {
        DropFirst(idx[j..]);
        assert idx[j..][1..] == idx[j + 1..] && idx[j] in idx[j..] && idx[j] in idx;
        var ok := FreeDesc(idx[j]);
        assert ok;
        j := j + 1;
      }
    }
  }

  /** A failed alloc3_desc leaves every chain alone. */
  lemma RollbackValid(x: Tab, y: Tab, live: map<nat, Request>)
    requires x.Valid(live) && y.Sized() && y == x.(desc := y.desc)
    requires forall j | 0 <= j < NUM && !x.free[j] :: y.desc[j] == x.desc[j]
    ensures y.Valid(live)
  {
  }

  lemma SubmitValid(x: Tab, y: Tab, t: Track, serial: nat, finished: seq<nat>, idx: nat, ring: seq<nat>, h: nat, r: Request)
    requires x.Valid(t.live) && t.Valid() && RingOk(idx, ring, t.submitted, t.fetched) && SerialsOk(t.live, serial, finished)
    requires |ring| == NUM && Prepared(x, y, h, r) && r.phase == Queued && r.id == serial
    requires forall g <- t.live :: r.b != t.live[g].b
    ensures h !in t.live && y.Sized() && y.Valid(t.live[h := r])
    ensures AfterSubmit(t, h, r).Valid()
    ensures RingOk(Bump(idx), ring[Slot(idx) := h], t.submitted + [h], t.fetched)
    ensures SerialsOk(t.live[h := r], serial + 1, finished)
  {
    FormatValid(x, y, t.live, h, r);
    RingsHaveRoom(t);
    RingPush(idx, ring, t.submitted, t.fetched, h);
    hide Tab.Valid, Track.Valid, Formatted, SerialsOk, RingOk;
    SubmitKeeps(t, h, r);
    SerialsAdd(t.live, serial, finished, h, r);
  }

  /** The request that starts at descriptor h was carried out. */
  ghost predicate Succeeded(info: seq<Info>, h: nat)
  {
    h < |info| && info[h].status == 0
  }

  /** From a to b some requests in phase Used have become done, and nothing else has changed. */
  ghost predicate SeenSome(a: Track, b: Track)
  {
    && b.submitted == a.submitted && b.fetched == a.fetched && b.completed == a.completed && b.live.Keys == a.live.Keys
    && forall h <- a.live :: b.live[h] == a.live[h] || (a.live[h].phase == Used && b.live[h] == a.live[h].(phase := Done))
  }

  lemma SeenNone(a: Track)
    ensures SeenSome(a, a)
  {
  }

  lemma SeenMore(a: Track, b: Track)
    requires SeenSome(a, b) && b.seen < |b.completed| && b.completed[b.seen] in b.live
    requires b.live[b.completed[b.seen]].phase == Used
    ensures SeenSome(a, AfterSee(b))
  {
  }

  lemma TrackApart(t: Track)
    requires t.Valid()
    ensures Apart(t.live) && t.fetched <= |t.submitted| && t.seen <= |t.completed|
  {
  }

  /** When everything is seen, no request is left in phase Used. */
  lemma AllSeen(t: Track)
    requires t.Valid() && t.seen == |t.completed|
    ensures forall h <- t.live :: t.live[h].phase != Used
  {
  }

  lemma CompleteValid(x: Tab, y: Tab, t: Track, serial: nat, finished: seq<nat>, idx: nat, ring: seq<nat>, h: nat, status: nat)
    requires x.Valid(t.live) && t.Valid() && RingOk(idx, ring, t.completed, t.seen) && SerialsOk(t.live, serial, finished)
    requires |ring| == NUM && h in t.live && t.live[h].phase == InFlight && h < |x.info|
    requires y == x.(info := x.info[h := x.info[h].(status := status)])
    ensures y.Valid(Moved(t.live, h, Used)) && AfterComplete(t, h).Valid()
    ensures RingOk(Bump(idx), ring[Slot(idx) := h], t.completed + [h], t.seen)
    ensures SerialsOk(Moved(t.live, h, Used), serial, finished)
  {
    RingsHaveRoom(t);
    RingPush(idx, ring, t.completed, t.seen, h);
    TrackApart(t);
    hide Track.Valid, SerialsOk, RingOk;
    MoveValid(x, y, t.live, h, Used, status);
    CompleteKeeps(t, h);
    SerialsMove(t.live, serial, finished, h, Used);
  }

  lemma SerialsDrop(live: map<nat, Request>, serial: nat, finished: seq<nat>, h: nat)
    requires SerialsOk(live, serial, finished)
    ensures SerialsOk(live - {h}, serial, finished)
  {
  }

  lemma SerialsAdd(live: map<nat, Request>, serial: nat, finished: seq<nat>, h: nat, r: Request)
    requires SerialsOk(live, serial, finished) && h !in live && r.id == serial && r.phase != Done
    ensures SerialsOk(live[h := r], serial + 1, finished)
  {
  }

  lemma {:induction false} NoneFree(free: seq<bool>)
    requires forall i | 0 <= i < |free| :: !free[i]
    ensures CountFree(free) == 0
  {
    if free != [] {
      NoneFree(free[1..]);
    }
  }

  lemma {:induction false} AllFree(free: seq<bool>)
    requires forall i | 0 <= i < |free| :: free[i]
    ensures CountFree(free) == |free|
  {
    if free != [] {
      AllFree(free[1..]);
    }
  }
}
