/** The block copies of kernel/log.c: write_log, install_trans and write_head over a buffer
    cache that readers share. */
module LogBlocks {
  import opened Basics
  import opened Disk
  import opened Crash
  import opened BufferCache
  import opened Readers
  import Ring

  /** Nobody is between bread and brelse. */
  ghost predicate Quiet(c: BCache)
    reads c
  {
    && c.Valid()
    && c.dirty == {}
    && forall i | 0 <= i < c.nbuf :: c.holders[i] == 0 && !c.bufs[i].locked
  }

  /** Some buffer is not pinned. */
  ghost predicate Spare(pins: seq<nat>)
  {
    exists i :: 0 <= i < |pins| && pins[i] == 0
  }

  /** How a part of commit ends: done, at the panic for lack of buffers, or waiting for the lock of a
      buffer that a reader keeps. */
  datatype Outcome = Done | OutOfBuffers | Asleep(i: nat)

  /** Every buffer is referenced. */
  ghost predicate Busy(bufs: seq<Buf>)
  {
    forall i | 0 <= i < |bufs| :: bufs[i].refcnt > 0
  }

  /** Pinned buffers keep their blocks. */
  ghost predicate Kept(v: View, w: View)
  {
    && w.dev == v.dev
    && |w.bufs| == |v.bufs| == |v.pins| == |w.pins|
    && forall i | 0 <= i < |v.bufs| && v.pins[i] > 0 :: w.bufs[i].Caches(v.bufs[i].dev, v.bufs[i].blockno)
  }

  /** From v to w exactly these block writes were issued. */
  ghost predicate Wrote(v: Stored, w: Stored, ws: seq<Write>)
  {
    && w.disk.Keys == v.disk.Keys && w.logical.Keys == v.logical.Keys
    && w.trace == v.trace + ws
    && w.disk == Apply(v.disk, ws)
    && w.logical == Apply(v.logical, ws)
  }

  lemma WroteNothing(v: Stored, ws: seq<Write>)
    ensures Wrote(v, v, ws[..0])
  {
  }

  lemma WroteOne(v: Stored, w: Stored, b: nat, x: Block)
    requires b in v.disk && b in v.logical
    requires w == Stored(v.disk[b := x], v.logical[b := x], v.trace + [Write(b, x)])
    ensures Wrote(v, w, [Write(b, x)])
  {
  }

  lemma WroteBoth(v: Stored, w: Stored, x: Stored, us: seq<Write>, ws: seq<Write>)
    requires Wrote(v, w, us) && Wrote(w, x, ws)
    ensures Wrote(v, x, us + ws)
  {
    ApplyConcat(v.disk, us, ws);
    ApplyConcat(v.logical, us, ws);
  }

  lemma WroteMore(v: Stored, w: Stored, x: Stored, ws: seq<Write>, k: nat)
    requires k < |ws| && Wrote(v, w, ws[..k]) && Wrote(w, x, [ws[k]])
    ensures Wrote(v, x, ws[..k + 1])
  {
    WroteBoth(v, w, x, ws[..k], [ws[k]]);
    assert ws[..k + 1] == ws[..k] + [ws[k]];
  }

  lemma WroteDisk(v: Stored, w: Stored, ws: seq<Write>)
    requires Wrote(v, w, ws)
    ensures w.disk == Apply(v.disk, ws) && w.logical == Apply(v.logical, ws)
    ensures w.disk.Keys == v.disk.Keys && w.logical.Keys == v.logical.Keys
  {
  }

  lemma StepsKeep(v: View, w: View, mine: set<nat>, held: set<nat>)
    requires Steps(v.bufs, w.bufs, v.pins, mine, held) && w.dev == v.dev && w.pins == v.pins
    ensures Kept(v, w)
  {
  }

  /** Readers have no log block locked. */
  lemma LogNotLocked(c: BCache, o: Others, mine: set<nat>, held: set<nat>, i: nat)
    requires o.Share(c, mine, held) && i in o.locks
    ensures i < c.nbuf && !o.g.Holds(c.bufs[i].blockno)
  {
  }

  lemma PinnedCached(v: View, w: View, b: nat, mine: set<nat>, held: set<nat>)
    requires Steps(v.bufs, w.bufs, v.pins, mine, held) && w.dev == v.dev && v.Pinned(b)
    ensures exists i :: 0 <= i < |w.bufs| && w.bufs[i].Caches(w.dev, b)
  {
    var i :| 0 <= i < |v.bufs| && v.bufs[i].Caches(v.dev, b) && v.pins[i] > 0;
    assert w.bufs[i].Caches(w.dev, b);
  }

  ghost predicate NoPins(pins: seq<nat>)
  {
    forall i | 0 <= i < |pins| :: pins[i] == 0
  }

  /** As at boot: no readers, nothing pinned, and at least two buffers. */
  ghost predicate Alone(c: BCache, o: Others)
    reads c, o
  {
    o.plan == [] && (forall i | 0 <= i < |o.refs| :: o.refs[i] == 0) && NoPins(c.pins) && c.nbuf >= 2
  }

  lemma LocksReferenced(c: BCache, o: Others, mine: set<nat>, held: set<nat>)
    requires o.Share(c, mine, held)
    ensures forall i <- o.locks :: i < |o.refs| && o.refs[i] > 0
  {
  }

  lemma AloneHasRoom(c: BCache, o: Others, mine: set<nat>, held: set<nat>)
    requires Alone(c, o) && o.Share(c, mine, held) && (mine == {} || exists i :: mine == {i})
    ensures o.locks == {} && !Busy(c.bufs)
  {
    LocksReferenced(c, o, mine, held);
    var k := if 0 in mine then 1 else 0;
    assert k !in mine && o.refs[k] == 0 && c.pins[k] == 0;
    assert SlotShared(c.bufs[k], c.holders[k], o.g, o.refs[k], k in o.locks, k in mine, k in held);
    assert c.bufs[k].refcnt == 0;
  }

  lemma NotAlone(c: BCache, o: Others, i: nat, r: Outcome)
    requires c.Valid() && (r == OutOfBuffers ==> Busy(c.bufs) && (o.Share(c, {}, {}) || o.Share(c, {i}, {i})))
    requires r.Asleep? ==> r.i in o.locks && o.Share(c, {i, r.i}, {i})
    requires r != Done
    ensures !Alone(c, o)
  {
    if r.Asleep? {
      LocksReferenced(c, o, {i, r.i}, {i});
    } else if Alone(c, o) {
      if o.Share(c, {}, {}) {
        AloneHasRoom(c, o, {}, {});
      } else {
        AloneHasRoom(c, o, {i}, {i});
      }
    }
  }

  /** The two breads that a turn of write_log or of install_trans starts with. */
  method ReadBoth(c: BCache, o: Others, slot: nat, home: nat) returns (r: Outcome, i: nat, j: nat)
    requires o.Share(c, {}, {}) && slot in c.disk && home in c.disk && slot in c.logical && home in c.logical
    requires o.g.Holds(slot) && !o.g.Holds(home)
    modifies c`bufs, c`holders, c`next, c`prev, c`ring, c`released, c`clock, o
    ensures Still(o) && Steps(old(c.bufs), c.bufs, c.pins, old(o.Stuck()), {}) && c.Valid()
    ensures r == Done ==>
      && i < c.nbuf && j < c.nbuf && i != j && o.Share(c, {i, j}, {i, j})
      && c.bufs[i].valid && c.bufs[i].Caches(c.dev, slot) && c.bufs[i].data == c.logical[slot]
      && c.bufs[j].valid && c.bufs[j].Caches(c.dev, home) && c.bufs[j].data == c.logical[home]
      && forall k <- o.locks :: k < c.nbuf && !c.bufs[k].Caches(c.dev, home)
    ensures r == OutOfBuffers ==> Busy(c.bufs) && (o.Share(c, {}, {}) || o.Share(c, {i}, {i}))
    ensures r == OutOfBuffers && old(c.Now().Pinned(home)) ==> o.Share(c, {}, {})
    ensures r.Asleep? ==> r.i < c.nbuf && r.i in o.locks && c.bufs[r.i].Caches(c.dev, home) && o.Share(c, {i, r.i}, {i})
    ensures old(o.plan) == [] && old(c.Now().Pinned(home)) ==>
      (r == OutOfBuffers <==> Busy(old(c.bufs)) && forall k | 0 <= k < c.nbuf :: !old(c.bufs)[k].Caches(c.dev, slot))
  {
    hide View.Coherent, LruRing, Shared, Sum, Steps, View.Pinned;
    i, j := 0, 0;
    ghost var v, stuck := c.Now(), o.Stuck();
    assert {} + stuck == stuck;
    var t := BreadAmong(c, o, slot, {}, {});
    if t.NoBuffers? {
      return OutOfBuffers, i, j;
    }
    if t.Waits? {
      LogNotLocked(c, o, {} + {t.i}, {}, t.i);
    }
    i := t.i;
    assert {} + {i} == {i};
    ghost var w, stuckW := c.Now(), o.Stuck();
    var u := BreadAmong(c, o, home, {i}, {i});
    StepsTrans(v.bufs, w.bufs, c.bufs, c.pins, stuck, {i} + stuckW, {}, {i}, stuck);
    StepsHeld(w.bufs, c.bufs, c.pins, {i} + stuckW, {i}, i);
    if v.Pinned(home) {
      PinnedCached(v, c.Now(), home, stuck, {});
    }
    if u.NoBuffers? {
      return OutOfBuffers, i, j;
    }
    if u.Waits? {
      assert {i} + {u.i} == {i, u.i};
      return Asleep(u.i), i, j;
    }
    j := u.i;
    assert {i} + {j} == {i, j};
    return Done, i, j;
  }

  lemma StepsHeld(v: seq<Buf>, w: seq<Buf>, pins: seq<nat>, mine: set<nat>, held: set<nat>, i: nat)
    requires Steps(v, w, pins, mine, held) && i in mine && i in held && i < |v|
    ensures w[i].dev == v[i].dev && w[i].blockno == v[i].blockno && w[i].valid == v[i].valid && w[i].data == v[i].data
  {
  }

  /** The two brelses that a turn ends with. */
  method ReleaseBoth(c: BCache, o: Others, i: nat, j: nat)
    requires o.Share(c, {i, j}, {i, j}) && i != j && c.dirty == {}
    modifies c`bufs, c`holders, c`next, c`prev, c`ring, c`released, c`clock, o
    ensures Still(o) && Steps(old(c.bufs), c.bufs, c.pins, {j} + old(o.Stuck()), {}) && o.Share(c, {}, {})
  {
    hide BCache.Valid, Shared, Sum;
    BrelseAmong(c, o, i, {i, j}, {i, j});
    assert {i, j} - {i} == {j};
    BrelseAmong(c, o, j, {j}, {j});
    assert {j} - {j} == {};
  }

  lemma NothingDirty(c: BCache, o: Others)
    requires o.Share(c, {}, {})
    ensures c.dirty == {} && |c.bufs| == |c.pins| == |c.holders| == |o.refs| == c.nbuf
  {
  }

  /** The body of write_log's loop: copy the cached home block into a log block on disk. */
  method WriteLogBlock(c: BCache, o: Others, slot: nat, home: nat) returns (r: Outcome)
    requires o.Share(c, {}, {}) && slot in c.disk && home in c.disk && slot in c.logical && home in c.logical
    requires o.g.Holds(slot) && !o.g.Holds(home) && c.Now().Pinned(home)
    modifies c`bufs, c`holders, c`next, c`prev, c`ring, c`released, c`clock, c`disk, c`logical, c`dirty, c`trace, o
    ensures Still(o) && Steps(old(c.bufs), c.bufs, c.pins, old(o.Stuck()), {}) && c.Valid()
    ensures r == Done ==> o.Share(c, {}, {}) && Wrote(old(c.Store()), c.Store(), [Write(slot, old(c.logical)[home])])
    ensures r != Done ==> c.Store() == old(c.Store())
    ensures r == OutOfBuffers ==> o.Share(c, {}, {}) && Busy(c.bufs)
    ensures r.Asleep? ==> r.i < c.nbuf && r.i in o.locks && c.bufs[r.i].Caches(c.dev, home)
    ensures old(o.plan) == [] ==>
      && (r == OutOfBuffers <==> Busy(old(c.bufs)) && forall k | 0 <= k < c.nbuf :: !old(c.bufs)[k].Caches(c.dev, slot))
      && (r == Done ==> forall k <- o.locks :: k < c.nbuf && !c.bufs[k].Caches(c.dev, home))
  {
    hide View.Coherent, LruRing, Shared, Sum, Wrote, Steps;
    NothingDirty(c, o);
    ghost var v, stuck := c.bufs, o.Stuck();
    var to, from;
    r, to, from := ReadBoth(c, o, slot, home);
    if r != Done {
      return;
    }
    ghost var w, stuckW := c.bufs, o.Stuck();
    StoreAmong(c, o, to, c.bufs[from].data, {to, from}, {to, from});
    ghost var x, stuckX := c.bufs, o.Stuck();
    assert {to, from} == {from, to};
    ReleaseBoth(c, o, from, to);
    StepsTrans(w, x, c.bufs, c.pins, {to, from} + stuckW, {to} + stuckX, {to, from} - {to}, {}, stuckW);
    StepsTrans(v, w, c.bufs, c.pins, stuck, stuckW, {}, {}, stuck);
    WroteOne(old(c.Store()), c.Store(), slot, old(c.logical)[home]);
    KeepOut(w, c.bufs, c.pins, stuckW, c.dev, home);
  }

  lemma KeepOut(v: seq<Buf>, w: seq<Buf>, pins: seq<nat>, stuck: set<nat>, dev: nat, b: nat)
    requires Steps(v, w, pins, stuck, {}) && forall k <- stuck :: k < |v| && !v[k].Caches(dev, b)
    ensures forall k <- stuck :: k < |w| && !w[k].Caches(dev, b)
  {
  }

  lemma SameKeys(c: BCache)
    requires c.Valid()
    ensures c.disk.Keys == c.logical.Keys
  {
  }

  /** Read both blocks, copy the log block over the home block and write it. */
  method CopyHome(c: BCache, o: Others, slot: nat, home: nat) returns (r: Outcome, i: nat, j: nat)
    requires o.Share(c, {}, {}) && slot in c.disk && home in c.disk && slot in c.logical && home in c.logical
    requires o.g.Holds(slot) && !o.g.Holds(home) && (c.Now().Pinned(home) || Alone(c, o))
    modifies c`bufs, c`holders, c`next, c`prev, c`ring, c`released, c`clock, c`disk, c`logical, c`dirty, c`trace, o
    ensures Still(o) && Steps(old(c.bufs), c.bufs, c.pins, old(o.Stuck()), {}) && c.Valid()
    ensures r == Done ==>
      && i < c.nbuf && j < c.nbuf && i != j && o.Share(c, {i, j}, {i, j}) && c.dirty == {}
      && c.bufs[j].Caches(c.dev, home)
      && c.disk == old(c.disk)[home := old(c.logical)[slot]] && c.logical == old(c.logical)[home := old(c.logical)[slot]]
      && c.trace == old(c.trace) + [Write(home, old(c.logical)[slot])]
    ensures r != Done ==> c.Store() == old(c.Store()) && !old(Alone(c, o))
    ensures r == OutOfBuffers ==> o.Share(c, {}, {}) && Busy(c.bufs) && (old(o.plan) == [] ==> Busy(old(c.bufs)))
    ensures r.Asleep? ==> r.i < c.nbuf && r.i in o.locks && c.bufs[r.i].Caches(c.dev, home)
  {
    hide View.Coherent, LruRing, Shared, Sum, Steps;
    NothingDirty(c, o);
    ghost var v, stuck := c.bufs, o.Stuck();
    r, i, j := ReadBoth(c, o, slot, home);
    if r != Done {
      NotAlone(c, o, i, r);
      return;
    }
    ghost var w, stuckW := c.bufs, o.Stuck();
    StoreAmong(c, o, j, c.bufs[i].data, {i, j}, {i, j});
    StepsTrans(v, w, c.bufs, c.pins, stuck, {i, j} + stuckW, {}, {i, j} - {j}, stuck);
    StepsAt(w, c.bufs, c.pins, {i, j} + stuckW, {i, j} - {j}, j);
  }

  lemma StepsAt(v: seq<Buf>, w: seq<Buf>, pins: seq<nat>, mine: set<nat>, held: set<nat>, i: nat)
    requires Steps(v, w, pins, mine, held) && i in mine && i < |v|
    ensures i < |w| && w[i].dev == v[i].dev && w[i].blockno == v[i].blockno
  {
  }

  /** The body of install_trans's loop: copy a log block to its home block on disk. */
  method InstallBlock(c: BCache, o: Others, slot: nat, home: nat, recovering: bool) returns (r: Outcome, ghost j: nat)
    requires o.Share(c, {}, {}) && slot in c.disk && home in c.disk && slot in c.logical && home in c.logical
    requires o.g.Holds(slot) && !o.g.Holds(home) && if recovering then Alone(c, o) else c.Now().Pinned(home)
    modifies c, o
    ensures Still(o) && Steps(old(c.bufs), c.bufs, c.pins, old(o.Stuck()), {}) && c.Valid()
    ensures Kept(old(c.Now()), c.Now())
    ensures r == Done ==> o.Share(c, {}, {}) && Wrote(old(c.Store()), c.Store(), [Write(home, old(c.logical)[slot])])
    ensures r != Done ==> c.Store() == old(c.Store()) && !recovering
    ensures r == OutOfBuffers ==> o.Share(c, {}, {}) && Busy(c.bufs)
    ensures r.Asleep? ==> r.i < c.nbuf && r.i in o.locks && c.bufs[r.i].Caches(c.dev, home)
    ensures old(o.plan) == [] && r == OutOfBuffers ==> Busy(old(c.bufs))
    ensures if r == Done && !recovering then
              && j < c.nbuf && old(c.pins)[j] > 0 && old(c.bufs)[j].Caches(c.dev, home)
              && c.pins == old(c.pins)[j := old(c.pins)[j] - 1]
            else c.pins == old(c.pins)
  {
    hide View.Coherent, LruRing, Shared, Sum, Wrote, Steps;
    ghost var v, stuck := c.Now(), o.Stuck();
    var lbuf, dbuf;
    r, lbuf, dbuf := CopyHome(c, o, slot, home);
    j := dbuf;
    StepsKeep(v, c.Now(), stuck, {});
    if r == Done {
      ghost var w, stuckW := c.Now(), o.Stuck();
      if !recovering {
        KeptPinned(v, w, home);
        PinnedIsUnique(c, dbuf);
      }
      FinishInstall(c, o, lbuf, dbuf, home, recovering);
      KeptThrough(v, w, c.Now(), stuck, stuckW, dbuf);
      WroteOne(old(c.Store()), c.Store(), home, old(c.logical)[slot]);
    }
  }

  lemma KeptPinned(v: View, w: View, b: nat)
    requires Kept(v, w) && w.pins == v.pins && v.Pinned(b)
    ensures w.Pinned(b)
  {
  }

  /** The end of the turn: bunpin unless recovering, and two brelses. */
  method FinishInstall(c: BCache, o: Others, lbuf: nat, dbuf: nat, home: nat, recovering: bool)
    requires o.Share(c, {lbuf, dbuf}, {lbuf, dbuf}) && c.dirty == {} && lbuf < c.nbuf && dbuf < c.nbuf && lbuf != dbuf
    requires c.bufs[dbuf].Caches(c.dev, home) && home in c.disk && home in c.logical && c.disk[home] == c.logical[home]
    requires !recovering ==> c.pins[dbuf] > 0
    modifies c`bufs, c`holders, c`pins, c`next, c`prev, c`ring, c`released, c`clock, o
    ensures Still(o) && o.Share(c, {}, {})
    ensures c.pins == if recovering then old(c.pins) else old(c.pins)[dbuf := old(c.pins)[dbuf] - 1]
    ensures Steps(old(c.bufs), c.bufs, c.pins, {dbuf} + old(o.Stuck()), {})
  {
    hide View.Coherent, LruRing, Shared, Sum;
    o.Run(c, {lbuf, dbuf}, {lbuf, dbuf});
    if !recovering {
      UnpinOwn(c, o, dbuf, {lbuf, dbuf}, {lbuf, dbuf});
    }
    ReleaseBoth(c, o, lbuf, dbuf);
  }

  lemma KeptThrough(v: View, w: View, x: View, stuck: set<nat>, stuck': set<nat>, j: nat)
    requires Kept(v, w) && w.pins == v.pins && Steps(v.bufs, w.bufs, v.pins, stuck, {}) && j < |v.pins|
    requires x.dev == w.dev && (x.pins == w.pins || (w.pins[j] > 0 && x.pins == w.pins[j := w.pins[j] - 1]))
    requires Steps(w.bufs, x.bufs, x.pins, {j} + stuck', {}) && stuck <= stuck'
    ensures Kept(v, x) && Steps(v.bufs, x.bufs, x.pins, stuck, {})
  {
  }

  /** If a block is pinned, then in the one buffer that caches it. */
  lemma PinnedIsUnique(c: BCache, i: nat)
    requires c.Valid() && i < c.nbuf && c.bufs[i].dev == c.dev && c.Now().Pinned(c.bufs[i].blockno)
    ensures c.pins[i] > 0
  {
  }

  /** write_head's loop: n and the first n entries of the header buffer are replaced. */
  method FillHead(prior: Block, n: nat, block: seq<nat>) returns (h: Block)
    requires prior.Head? && n <= |block| == |prior.block|
    ensures h == NewHead(prior, n, block)
  {
    h := prior.(n := n);
    var i := 0;
    while i < n
      invariant 0 <= i <= n
      invariant h == Head(n, block[..i] + prior.block[i..])
    {
      h := h.(block := h.block[i := block[i]]);
      i := i + 1;
    }
  }

  /** write_head. */
  method WriteHead(c: BCache, o: Others, start: nat, n: nat, block: seq<nat>) returns (r: Outcome)
    requires o.Share(c, {}, {}) && o.g.Holds(start) && start in c.disk && start in c.logical
    requires c.logical[start].Head? && n <= |block| == |c.logical[start].block|
    modifies c`bufs, c`holders, c`next, c`prev, c`ring, c`released, c`clock, c`disk, c`logical, c`dirty, c`trace, o
    ensures Still(o) && Steps(old(c.bufs), c.bufs, c.pins, old(o.Stuck()), {}) && o.Share(c, {}, {})
    ensures r == Done || r == OutOfBuffers
    ensures r == Done ==> Wrote(old(c.Store()), c.Store(), [Write(start, NewHead(old(c.logical)[start], n, block))])
    ensures r == OutOfBuffers ==> c.Store() == old(c.Store()) && Busy(c.bufs) && (old(o.plan) == [] ==> Busy(old(c.bufs)))
  {
    hide View.Coherent, LruRing, Shared, Sum, Wrote, Steps;
    NothingDirty(c, o);
    ghost var v, stuck := c.bufs, o.Stuck();
    assert {} + stuck == stuck;
    var t := BreadAmong(c, o, start, {}, {});
    if t.NoBuffers? {
      return OutOfBuffers;
    }
    if t.Waits? {
      LogNotLocked(c, o, {} + {t.i}, {}, t.i);
    }
    var buf := t.i;
    assert {} + {buf} == {buf};
    ghost var w, stuckW := c.bufs, o.Stuck();
    var h := FillHead(c.bufs[buf].data, n, block);
    StoreAmong(c, o, buf, h, {buf}, {buf});
    ghost var x, stuckX := c.bufs, o.Stuck();
    BrelseAmong(c, o, buf, {buf}, {buf});
    assert {buf} - {buf} == {};
    StepsTrans(w, x, c.bufs, c.pins, {buf} + stuckW, {buf} + stuckX, {buf} - {buf}, {buf} - {buf}, stuckW);
    StepsTrans(v, w, c.bufs, c.pins, {} + stuck, stuckW, {}, {}, stuck);
    WroteOne(old(c.Store()), c.Store(), start, h);
    return Done;
  }

  /** The pins are exactly those of a transaction over these home blocks. */
  ghost predicate TxPinned(v: View, g: Geometry, blocks: seq<nat>)
  {
    && |v.pins| == |v.bufs|
    && Distinct(blocks)
    && (forall b <- blocks :: !g.Holds(b) && b in v.disk && b in v.logical && v.Pinned(b))
    && (forall i | 0 <= i < |v.pins| ::
          v.pins[i] == 0 || (v.pins[i] == 1 && v.bufs[i].dev == v.dev && v.bufs[i].blockno in blocks))
  }

  ghost predicate SameBlocks(v: View, w: View)
  {
    w.disk.Keys == v.disk.Keys && w.logical.Keys == v.logical.Keys
  }

  lemma TxPinnedKept(v: View, w: View, g: Geometry, blocks: seq<nat>)
    requires TxPinned(v, g, blocks) && Kept(v, w) && SameBlocks(v, w) && w.pins == v.pins
    ensures TxPinned(w, g, blocks)
  {
  }

  lemma TxPinnedAt(v: View, g: Geometry, blocks: seq<nat>, b: nat)
    requires TxPinned(v, g, blocks) && b in blocks
    ensures !g.Holds(b) && b in v.disk && b in v.logical && v.Pinned(b)
  {
  }

  /** The blocks of the log exist. */
  ghost predicate LogRegion(v: View, g: Geometry)
  {
    forall b | g.Holds(b) :: b in v.disk && b in v.logical
  }

  /** While only log blocks are written, home blocks keep their contents. */
  lemma WroteLogOnly(v: Stored, w: Stored, ws: seq<Write>, g: Geometry)
    requires Wrote(v, w, ws) && forall x <- ws :: g.Holds(x.blockno)
    ensures w.disk.Keys == v.disk.Keys && w.logical.Keys == v.logical.Keys
    ensures forall b | b in v.logical && !g.Holds(b) :: w.logical[b] == v.logical[b]
  {
    forall b | b in v.logical && !g.Holds(b) ensures w.logical[b] == v.logical[b] {
      ApplyFrame(v.logical, ws, b);
    }
  }

  /** Every buffer is referenced by readers or pinned. */
  ghost predicate Taken(refs: seq<nat>, pins: seq<nat>)
  {
    |refs| == |pins| && forall i | 0 <= i < |refs| :: refs[i] > 0 || pins[i] > 0
  }

  lemma BusyIsTaken(c: BCache, o: Others)
    requires o.Share(c, {}, {})
    ensures Busy(c.bufs) <==> Taken(o.refs, c.pins)
  {
    RefsCounted(c.Now());
    hide View.Coherent, LruRing;
    assert forall i | 0 <= i < c.nbuf :: c.holders[i] == o.refs[i];
    assert Busy(c.bufs) ==> forall i | 0 <= i < |o.refs| :: c.bufs[i].refcnt > 0;
  }

  /** A cache full of referenced buffers holds no log block. */
  lemma BusyNoLog(c: BCache, o: Others, blocks: seq<nat>, b: nat)
    requires o.Share(c, {}, {}) && TxPinned(c.Now(), o.g, blocks) && o.g.Holds(b) && Busy(c.bufs)
    ensures forall i | 0 <= i < c.nbuf :: !c.bufs[i].Caches(c.dev, b)
  {
    RefsCounted(c.Now());
  }

  /** No reader has one of these blocks locked. */
  ghost predicate Unlocked(bufs: seq<Buf>, locks: set<nat>, dev: nat, blocks: seq<nat>)
  {
    forall i <- locks, b <- blocks :: i < |bufs| ==> !bufs[i].Caches(dev, b)
  }

  lemma UnlockedKept(v: seq<Buf>, w: seq<Buf>, pins: seq<nat>, locks: set<nat>, dev: nat, blocks: seq<nat>)
    requires Steps(v, w, pins, locks, {})
    ensures Unlocked(v, locks, dev, blocks) <==> Unlocked(w, locks, dev, blocks)
  {
  }

  /** One turn of write_log's loop, for the home block of index tail. */
  method LogTurn(c: BCache, o: Others, blocks: seq<nat>, slot: nat, home: nat) returns (r: Outcome)
    requires o.Share(c, {}, {}) && LogRegion(c.Now(), o.g) && o.g.Holds(slot)
    requires TxPinned(c.Now(), o.g, blocks) && home in blocks && home in c.logical
    modifies c`bufs, c`holders, c`next, c`prev, c`ring, c`released, c`clock, c`disk, c`logical, c`dirty, c`trace, o
    ensures Still(o) && Steps(old(c.bufs), c.bufs, c.pins, old(o.Stuck()), {}) && c.Valid()
    ensures TxPinned(c.Now(), o.g, blocks) && LogRegion(c.Now(), o.g)
    ensures if r == Done then Wrote(old(c.Store()), c.Store(), [Write(slot, old(c.logical)[home])])
            else c.Store() == old(c.Store())
    ensures r == Done || r == OutOfBuffers ==> o.Share(c, {}, {})
    ensures r == OutOfBuffers ==> Busy(c.bufs)
    ensures r.Asleep? ==> r.i < c.nbuf && r.i in o.locks && c.bufs[r.i].Caches(c.dev, home)
    ensures old(o.plan) == [] ==>
      && (r == OutOfBuffers <==> Taken(o.refs, c.pins))
      && (r == Done ==> Unlocked(c.bufs, o.locks, c.dev, [home]))
  {
    hide View.Coherent, LruRing, Apply, Wrote, TxPinned, Steps, Others.Share, Busy, Taken;
    ghost var w, stuck := c.Now(), o.Stuck();
    TxPinnedAt(w, o.g, blocks, home);
    BusyIsTaken(c, o);
    if Busy(c.bufs) {
      BusyNoLog(c, o, blocks, slot);
    }
    ghost var s := c.Store();
    r := WriteLogBlock(c, o, slot, home);
    if r == Done {
      WroteDisk(s, c.Store(), [Write(slot, s.logical[home])]);
    }
    StepsKeep(w, c.Now(), stuck, {});
    TxPinnedKept(w, c.Now(), o.g, blocks);
  }

  /** What a turn of the loop adds if the readers take no steps. */
  lemma UnlockedMore(v: seq<Buf>, w: seq<Buf>, pins: seq<nat>, locks: set<nat>, dev: nat, block: seq<nat>, k: nat)
    requires k < |block| && Steps(v, w, pins, locks, {}) && Unlocked(v, locks, dev, block[..k])
    requires Unlocked(w, locks, dev, [block[k]])
    ensures Unlocked(w, locks, dev, block[..k + 1])
  {
    assert block[..k + 1] == block[..k] + [block[k]];
    assert block[k] in [block[k]];
  }

  lemma LockedHome(v: seq<Buf>, w: seq<Buf>, pins: seq<nat>, locks: set<nat>, dev: nat, blocks: seq<nat>, i: nat, b: nat)
    requires Steps(v, w, pins, locks, {}) && b in blocks && i in locks && i < |w| && w[i].Caches(dev, b)
    ensures !Unlocked(v, locks, dev, blocks)
  {
    assert v[i].Caches(dev, b);
  }

  /** write_log's loop: k turns were finished. If the readers take no steps, it ends exactly if there
      is a buffer to spare and no reader has a home block locked. */
  method WriteLog(c: BCache, o: Others, n: nat, block: seq<nat>) returns (r: Outcome, ghost k: nat)
    requires o.Share(c, {}, {}) && LogRegion(c.Now(), o.g) && n <= |block| && n < o.g.size
    requires TxPinned(c.Now(), o.g, block[..n])
    requires forall k | 0 <= k < n :: block[k] in c.logical
    modifies c`bufs, c`holders, c`next, c`prev, c`ring, c`released, c`clock, c`disk, c`logical, c`dirty, c`trace, o
    ensures Still(o) && Steps(old(c.bufs), c.bufs, c.pins, old(o.Stuck()), {}) && c.Valid()
    ensures TxPinned(c.Now(), o.g, block[..n])
    ensures k <= n && |SlotWrites(o.g, Tx(n, block, old(c.logical)))| == n
    ensures Wrote(old(c.Store()), c.Store(), SlotWrites(o.g, Tx(n, block, old(c.logical)))[..k])
    ensures r == Done ==> k == n && o.Share(c, {}, {})
    ensures r == OutOfBuffers ==> o.Share(c, {}, {}) && Busy(c.bufs)
    ensures r.Asleep? ==> r.i < c.nbuf && r.i in o.locks && c.bufs[r.i].blockno in block[..n]
    ensures old(o.plan) == [] ==>
      (r == Done <==> n == 0 || (!Taken(o.refs, c.pins) && Unlocked(old(c.bufs), o.locks, c.dev, block[..n])))
  {
    hide View.Coherent, LruRing, Apply, Wrote, TxPinned, SlotWrites, Steps, Others.Share, Busy, Taken, Unlocked;
    ghost var v, u, stuck := c.Store(), c.bufs, o.Stuck();
    ghost var ws := SlotWrites(o.g, Tx(n, block, c.logical));
    SlotWritesAre(o.g, Tx(n, block, c.logical));
    WroteNothing(v, ws);
    ShareSteps(c, o);
    UnlockedNone(c.bufs, o.locks, c.dev, block[..0]);
    k := 0;
    var tail := 0;
    while tail < n
      invariant 0 <= tail <= n && k == tail
      invariant Still(o) && o.Share(c, {}, {}) && Steps(u, c.bufs, c.pins, stuck, {})
      invariant TxPinned(c.Now(), o.g, block[..n]) && LogRegion(c.Now(), o.g)
      invariant Wrote(v, c.Store(), ws[..tail])
      invariant old(o.plan) == [] ==>
        && (tail > 0 ==> !Taken(o.refs, c.pins))
        && Unlocked(c.bufs, o.locks, c.dev, block[..tail])
    {
      var home := block[tail];
      ghost var w, s, stuckW := c.bufs, c.Store(), o.Stuck();
      WroteLogOnly(v, s, ws[..tail], o.g);
      assert home in block[..n];
      TxPinnedAt(c.Now(), o.g, block[..n], home);
      r := LogTurn(c, o, block[..n], o.g.Slot(tail), home);
      StepsTrans(u, w, c.bufs, c.pins, stuck, stuckW, {}, {}, stuck);
      if r != Done {
        if old(o.plan) == [] && r.Asleep? {
          LockedHome(u, c.bufs, c.pins, o.locks, c.dev, block[..n], r.i, home);
        }
        return;
      }
      if old(o.plan) == [] {
        UnlockedMore(w, c.bufs, c.pins, o.locks, c.dev, block, tail);
      }
      WroteMore(v, s, c.Store(), ws, tail);
      tail := tail + 1;
      k := tail;
    }
    assert ws[..tail] == ws;
    ShareSteps(c, o);
    if old(o.plan) == [] {
      UnlockedKept(u, c.bufs, c.pins, o.locks, c.dev, block[..n]);
    }
    return Done, k;
  }

  lemma UnlockedNone(bufs: seq<Buf>, locks: set<nat>, dev: nat, blocks: seq<nat>)
    requires blocks == []
    ensures Unlocked(bufs, locks, dev, blocks)
  {
  }

  lemma ShareSteps(c: BCache, o: Others)
    requires o.Share(c, {}, {})
    ensures |c.bufs| == |c.pins| == c.nbuf == |o.refs| && c.Valid() && Steps(c.bufs, c.bufs, c.pins, o.Stuck(), {})
  {
  }

  /** Unpinning the first block of the transaction leaves the pins of the rest. */
  lemma TxUnpinned(v: View, w: View, g: Geometry, blocks: seq<nat>, j: nat)
    requires v.Coherent() && TxPinned(v, g, blocks) && Kept(v, w) && SameBlocks(v, w)
    requires blocks != [] && j < |v.pins| && v.pins[j] > 0 && v.bufs[j].Caches(v.dev, blocks[0])
    requires w.pins == v.pins[j := v.pins[j] - 1]
    ensures TxPinned(w, g, blocks[1..])
  {
    hide View.Coherent, Apply;
    assert w.pins[j] == 0;
    forall b <- blocks[1..] ensures w.Pinned(b) {
      assert b in blocks;
      var i :| 0 <= i < |v.bufs| && v.bufs[i].Caches(v.dev, b) && v.pins[i] > 0;
      assert w.bufs[i].Caches(w.dev, b) && w.pins[i] > 0;
    }
    forall i | 0 <= i < |w.pins| && w.pins[i] > 0 ensures w.bufs[i].blockno in blocks[1..] {
      if v.bufs[i].blockno == blocks[0] {
        UniqueBuffer(v, i, j);
      }
      assert v.bufs[i].blockno in blocks && v.bufs[i].blockno != blocks[0];
    }
  }

  lemma UniqueBuffer(v: View, i: nat, j: nat)
    requires v.Coherent() && i < |v.bufs| && j < |v.bufs|
    requires v.bufs[i].dev == v.bufs[j].dev == v.dev && v.bufs[i].blockno == v.bufs[j].blockno
    ensures i == j
  {
  }

  /** One turn of install_trans's loop, for the first of these home blocks. */
  method InstallTurn(c: BCache, o: Others, blocks: seq<nat>, slot: nat, home: nat, recovering: bool) returns (r: Outcome)
    requires o.Share(c, {}, {}) && LogRegion(c.Now(), o.g) && o.g.Holds(slot) && !o.g.Holds(home)
    requires home in c.disk && home in c.logical
    requires if recovering then Alone(c, o) else TxPinned(c.Now(), o.g, blocks) && blocks != [] && home == blocks[0]
    modifies c, o
    ensures Still(o) && Steps(old(c.bufs), c.bufs, c.pins, old(o.Stuck()), {}) && c.Valid() && LogRegion(c.Now(), o.g)
    ensures if r == Done then Wrote(old(c.Store()), c.Store(), [Write(home, old(c.logical)[slot])])
            else c.Store() == old(c.Store()) && !recovering
    ensures r == Done ==>
      o.Share(c, {}, {}) && if recovering then Alone(c, o) else TxPinned(c.Now(), o.g, blocks[1..])
    ensures r == OutOfBuffers ==> o.Share(c, {}, {}) && Busy(c.bufs) && TxPinned(c.Now(), o.g, blocks)
    ensures r.Asleep? ==> r.i < c.nbuf && r.i in o.locks && c.bufs[r.i].Caches(c.dev, home)
    ensures |old(c.pins)| == |c.pins| && forall i | 0 <= i < |c.pins| :: c.pins[i] <= old(c.pins)[i]
    ensures old(o.plan) == [] && r == OutOfBuffers ==> Taken(old(o.refs), old(c.pins))
  {
    hide View.Coherent, LruRing, Apply, Wrote, TxPinned, Steps, Shared, Busy, Taken;
    ghost var w, s := c.Now(), c.Store();
    if !recovering {
      TxPinnedAt(w, o.g, blocks, home);
    }
    BusyIsTaken(c, o);
    ghost var j;
    r, j := InstallBlock(c, o, slot, home, recovering);
    if r == Done {
      WroteDisk(s, c.Store(), [Write(home, s.logical[slot])]);
      if !recovering {
        TxUnpinned(w, c.Now(), o.g, blocks, j);
      }
    } else {
      TxPinnedKept(w, c.Now(), o.g, blocks);
    }
  }

  lemma TakenLess(refs: seq<nat>, pins: seq<nat>, pins': seq<nat>)
    requires |pins| == |pins'| && (forall i | 0 <= i < |pins| :: pins[i] <= pins'[i]) && Taken(refs, pins)
    ensures Taken(refs, pins')
  {
  }

  /** install_trans's loop: k turns were finished. It ends if the readers take no steps, there is a
      buffer to spare and no reader has a home block locked; at boot it always ends. */
  method InstallTrans(c: BCache, o: Others, n: nat, block: seq<nat>, recovering: bool) returns (r: Outcome, ghost k: nat)
    requires o.Share(c, {}, {}) && LogRegion(c.Now(), o.g) && n <= |block| && n < o.g.size
    requires forall k | 0 <= k < n :: !o.g.Holds(block[k]) && block[k] in c.disk && block[k] in c.logical
    requires if recovering then Alone(c, o) else TxPinned(c.Now(), o.g, block[..n])
    modifies c, o
    ensures Still(o) && Steps(old(c.bufs), c.bufs, c.pins, old(o.Stuck()), {}) && c.Valid()
    ensures k <= n && |InstallWrites(o.g, n, block, old(c.logical))| == n
    ensures Wrote(old(c.Store()), c.Store(), InstallWrites(o.g, n, block, old(c.logical))[..k])
    ensures r == Done ==> k == n && o.Share(c, {}, {}) && NoPins(c.pins)
    ensures recovering ==> r == Done
    ensures r == OutOfBuffers ==> o.Share(c, {}, {}) && Busy(c.bufs) && TxPinned(c.Now(), o.g, block[k..n])
    ensures r.Asleep? ==> r.i < c.nbuf && r.i in o.locks && c.bufs[r.i].blockno in block[..n]
    ensures old(o.plan) == [] && !Taken(o.refs, old(c.pins)) && Unlocked(old(c.bufs), o.locks, c.dev, block[..n]) ==> r == Done
  {
    hide View.Coherent, LruRing, Apply, Wrote, TxPinned, InstallWrites, Steps, Others.Share, Busy, Taken, Unlocked;
    ghost var v, u, stuck, p := c.Store(), c.bufs, o.Stuck(), c.pins;
    ghost var ws := InstallWrites(o.g, n, block, c.logical);
    InstallWritesAre(o.g, n, block, c.logical);
    WroteNothing(v, ws);
    ShareSteps(c, o);
    k := 0;
    var tail := 0;
    assert block[tail..n] == block[..n];
    while tail < n
      invariant 0 <= tail <= n && k == tail
      invariant Still(o) && o.Share(c, {}, {}) && Steps(u, c.bufs, c.pins, stuck, {})
      invariant LogRegion(c.Now(), o.g)
      invariant if recovering then Alone(c, o) else TxPinned(c.Now(), o.g, block[tail..n])
      invariant |c.pins| == |p| && forall i | 0 <= i < |p| :: c.pins[i] <= p[i]
      invariant Wrote(v, c.Store(), ws[..tail])
    {
      var home := block[tail];
      ghost var w, s, stuckW, q := c.bufs, c.Store(), o.Stuck(), c.pins;
      WroteHomeOnly(v, s, ws[..tail], o.g);
      assert block[tail..n][0] == home && block[tail..n][1..] == block[tail + 1..n];
      r := InstallTurn(c, o, block[tail..n], o.g.Slot(tail), home, recovering);
      StepsLess(u, w, c.bufs, q, c.pins, stuck, stuckW);
      if r != Done {
        if old(o.plan) == [] {
          if r.Asleep? {
            LockedHome(u, c.bufs, c.pins, o.locks, c.dev, block[..n], r.i, home);
          } else {
            TakenLess(o.refs, q, p);
          }
        }
        assert home in block[..n];
        return;
      }
      WroteMore(v, s, c.Store(), ws, tail);
      tail := tail + 1;
      k := tail;
    }
    assert ws[..tail] == ws;
    ShareSteps(c, o);
    if !recovering {
      TxPinnedNone(c.Now(), o.g, block[n..n]);
    }
    return Done, k;
  }

  lemma StepsLess(u: seq<Buf>, v: seq<Buf>, w: seq<Buf>, pins: seq<nat>, pins': seq<nat>, mine: set<nat>, mine': set<nat>)
    requires Steps(u, v, pins, mine, {}) && Steps(v, w, pins', mine', {}) && mine <= mine'
    requires forall i | 0 <= i < |pins'| && i < |pins| :: pins'[i] <= pins[i]
    ensures Steps(u, w, pins', mine, {})
  {
  }

  lemma TxPinnedNone(v: View, g: Geometry, blocks: seq<nat>)
    requires TxPinned(v, g, blocks) && blocks == []
    ensures NoPins(v.pins)
  {
  }

  /** While only home blocks are written, log blocks keep their contents. */
  lemma WroteHomeOnly(v: Stored, w: Stored, ws: seq<Write>, g: Geometry)
    requires Wrote(v, w, ws) && forall x <- ws :: !g.Holds(x.blockno)
    ensures w.disk.Keys == v.disk.Keys && w.logical.Keys == v.logical.Keys
    ensures forall b | b in v.logical && g.Holds(b) :: w.logical[b] == v.logical[b]
  {
    forall b | b in v.logical && g.Holds(b) ensures w.logical[b] == v.logical[b] {
      ApplyFrame(v.logical, ws, b);
    }
  }

  /** The block numbers of the pinned buffers. */
  ghost function PinnedNames(bufs: seq<Buf>, pins: seq<nat>): (names: seq<nat>)
    requires |bufs| == |pins|
  {
    if bufs == [] then [] else (if pins[0] > 0 then [bufs[0].blockno] else []) + PinnedNames(bufs[1..], pins[1..])
  }

  lemma {:induction false} PinnedNamesAre(bufs: seq<Buf>, refs: seq<nat>, pins: seq<nat>, blocks: seq<nat>)
    requires |bufs| == |refs| == |pins|
    requires forall i | 0 <= i < |bufs| && pins[i] > 0 :: bufs[i].blockno in blocks
    requires forall i, j | 0 <= i < j < |bufs| && pins[i] > 0 && pins[j] > 0 :: bufs[i].blockno != bufs[j].blockno
    requires Taken(refs, pins)
    ensures forall b <- PinnedNames(bufs, pins) :: b in blocks && exists i :: 0 <= i < |bufs| && pins[i] > 0 && bufs[i].blockno == b
    ensures Distinct(PinnedNames(bufs, pins))
    ensures |bufs| <= |PinnedNames(bufs, pins)| + Sum(refs)
  {
    if bufs != [] {
      PinnedNamesAre(bufs[1..], refs[1..], pins[1..], blocks);
    }
  }

  lemma PinsDistinct(v: View)
    requires v.Coherent()
    ensures forall i, j | 0 <= i < j < |v.bufs| && v.pins[i] > 0 && v.pins[j] > 0 :: v.bufs[i].blockno != v.bufs[j].blockno
  {
  }

  /** The transaction's blocks and the readers' references fill the cache only if together they are as
      many as its buffers. */
  lemma BusyBound(c: BCache, o: Others, blocks: seq<nat>)
    requires o.Share(c, {}, {}) && TxPinned(c.Now(), o.g, blocks) && Busy(c.bufs)
    ensures c.nbuf <= |blocks| + o.most
  {
    BusyIsTaken(c, o);
    PinsDistinct(c.Now());
    hide View.Coherent, LruRing, Sum, Taken;
    PinnedNamesAre(c.bufs, o.refs, c.pins, blocks);
    Ring.Pigeonhole(PinnedNames(c.bufs, c.pins), blocks);
  }

  /** The transaction's blocks take one buffer each, so there is a spare buffer exactly if the
      transaction has fewer blocks than the cache has buffers. */
  lemma SpareIffRoom(v: View, g: Geometry, blocks: seq<nat>)
    requires v.Coherent() && TxPinned(v, g, blocks)
    ensures Spare(v.pins) <==> |blocks| < |v.bufs|
  {
    hide View.Coherent;
    var names := seq(|v.bufs|, i requires 0 <= i < |v.bufs| => v.bufs[i].blockno);
    if Spare(v.pins) {
      var i :| 0 <= i < |v.pins| && v.pins[i] == 0;
      forall b <- blocks ensures b in Ring.Without(names, i) {
        assert v.Pinned(b);
        var j :| 0 <= j < |v.bufs| && v.bufs[j].Caches(v.dev, b) && v.pins[j] > 0;
        assert Ring.Without(names, i)[if j < i then j else j - 1] == b;
      }
      Ring.Pigeonhole(blocks, Ring.Without(names, i));
    } else {
      forall i, j | 0 <= i < j < |names| ensures names[i] != names[j] {
        assert v.pins[i] != 0 && v.pins[j] != 0;
        if names[i] == names[j] {
          UniqueBuffer(v, i, j);
        }
      }
      forall x <- names ensures x in blocks {
        var i :| 0 <= i < |names| && names[i] == x;
        assert v.pins[i] != 0;
      }
      Ring.Pigeonhole(names, blocks);
    }
  }

  /** Logging a block for the first time pins its buffer. */
  lemma TxPinnedAdd(v: View, w: View, g: Geometry, blocks: seq<nat>, i: nat)
    requires v.Coherent() && TxPinned(v, g, blocks) && i < |v.bufs| && v.bufs[i].valid
    requires !g.Holds(v.bufs[i].blockno) && v.bufs[i].blockno !in blocks
    requires w.dev == v.dev && w.bufs == v.bufs[i := Referenced(v.bufs[i])] && w.pins == v.pins[i := v.pins[i] + 1]
    requires SameBlocks(v, w)
    ensures TxPinned(w, g, blocks + [v.bufs[i].blockno])
  {
    ValidOnDisk(v, i);
    hide View.Coherent;
    assert v.pins[i] == 0;
    var all := blocks + [v.bufs[i].blockno];
    forall b <- all ensures w.Pinned(b) {
      if b in blocks {
        var j :| 0 <= j < |v.bufs| && v.bufs[j].Caches(v.dev, b) && v.pins[j] > 0;
        assert w.bufs[j].Caches(w.dev, b) && w.pins[j] > 0;
      } else {
        assert w.bufs[i].Caches(w.dev, b) && w.pins[i] > 0;
      }
    }
  }

  lemma TxPinnedUnique(v: View, g: Geometry, blocks: seq<nat>, i: nat)
    requires v.Coherent() && TxPinned(v, g, blocks) && i < |v.bufs| && v.bufs[i].valid && v.bufs[i].blockno in blocks
    ensures v.pins[i] > 0
  {
  }

  lemma ValidOnDisk(v: View, i: nat)
    requires v.Coherent() && i < |v.bufs| && v.bufs[i].valid
    ensures v.bufs[i].dev == v.dev && v.bufs[i].blockno in v.disk && v.bufs[i].blockno in v.logical
  {
  }

  /** Log blocks are never pinned, so the disk has their logical contents. */
  lemma LogOnDisk(v: View, g: Geometry, blocks: seq<nat>, b: nat)
    requires v.Coherent() && TxPinned(v, g, blocks) && g.Holds(b) && b in v.disk && b in v.logical
    ensures v.disk[b] == v.logical[b]
  {
  }

  lemma TxIsValid(v: View, g: Geometry, n: nat, block: seq<nat>)
    requires LogRegion(v, g) && n <= |block| && n < g.size && TxPinned(v, g, block[..n])
    ensures Tx(n, block, v.logical).Valid(g, v.disk) && Tx(n, block, v.logical).Valid(g, v.logical)
    ensures forall k | 0 <= k < n :: !g.Holds(block[k]) && block[k] in v.disk && block[k] in v.logical
  {
  }

  /** After write_log the header is as before and the log slots hold the transaction. */
  lemma AfterSlots(v: Stored, w: Stored, g: Geometry, tx: Tx)
    requires tx.Valid(g, v.logical) && CleanHead(g, v.logical, |tx.block|)
    requires Wrote(v, w, SlotWrites(g, tx))
    ensures w.disk.Keys == v.disk.Keys && w.logical.Keys == v.logical.Keys
    ensures w.logical[g.start] == v.logical[g.start]
    ensures forall k | 0 <= k < tx.n :: w.logical[g.Slot(k)] == tx.view[tx.block[k]]
  {
    SlotPrefix(g, tx, v.logical, tx.n);
    assert SlotWrites(g, tx)[..tx.n] == SlotWrites(g, tx);
  }

  /** What install_trans finds in the log is the transaction. */
  lemma AfterHead(w: Stored, x: Stored, g: Geometry, tx: Tx, h: Block)
    requires tx.n <= |tx.block| && forall k | 0 <= k < tx.n :: tx.block[k] in tx.view
    requires forall k | 0 <= k < tx.n :: g.Slot(k) in w.logical && w.logical[g.Slot(k)] == tx.view[tx.block[k]]
    requires g.start in w.logical && Wrote(w, x, [Write(g.start, h)])
    ensures x.disk.Keys == w.disk.Keys && x.logical.Keys == w.logical.Keys
    ensures x.logical[g.start] == h
    ensures InstallWrites(g, tx.n, tx.block, x.logical) == HomeWrites(tx)
  {
    WroteDisk(w, x, [Write(g.start, h)]);
    assert [Write(g.start, h)][..0] == [];
    assert x.logical == w.logical[g.start := h];
  }

  /** Where the parts of commit() stand in its writes: k log blocks, the header, k home blocks. */
  lemma CommitParts(g: Geometry, tx: Tx, disk: Image, k: nat)
    requires tx.n > 0 && tx.Valid(g, disk) && CleanHead(g, disk, |tx.block|) && k <= tx.n
    ensures var ws, h := CommitWrites(g, tx, disk), NewHead(disk[g.start], tx.n, tx.block);
      && |ws| == 2 * tx.n + 2 && |SlotWrites(g, tx)| == |HomeWrites(tx)| == tx.n
      && ws[..k] == SlotWrites(g, tx)[..k]
      && ws[..tx.n + 1] == SlotWrites(g, tx) + [Write(g.start, h)]
      && ws[tx.n + 1..] == EndWrites(g, tx, h)
  {
  }

  /** What commit() writes after its header. */
  ghost function EndWrites(g: Geometry, tx: Tx, h: Block): (ws: seq<Write>)
    requires tx.n <= |tx.block| && (forall k | 0 <= k < tx.n :: tx.block[k] in tx.view) && h.Head?
  {
    HomeWrites(tx) + [Write(g.start, NewHead(h, 0, tx.block))]
  }

  /** A commit that issued all its writes leaves the logical disk as it was, and the disk with it. */
  lemma CommitComposes(v: Stored, z: Stored, g: Geometry, tx: Tx)
    requires tx.n > 0 && tx.Valid(g, v.disk) && tx.Valid(g, v.logical) && tx.view == v.logical
    requires CleanHead(g, v.disk, |tx.block|) && v.disk[g.start] == v.logical[g.start]
    requires Wrote(v, z, CommitWrites(g, tx, v.disk))
    ensures CleanHead(g, z.disk, |tx.block|)
    ensures SameHome(g, z.logical, v.logical) && SameHome(g, z.disk, tx.Overlay(v.disk))
  {
    WroteDisk(v, z, CommitWrites(g, tx, v.disk));
    hide Wrote, SlotWrites, HomeWrites, Apply, SameHome;
    CommitCompletes(g, tx, v.disk);
    CommitCompletes(g, tx, v.logical);
    assert tx.Overlay(v.logical) == v.logical;
  }
}
