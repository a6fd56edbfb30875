/** The redo log of kernel/log.c: reservation of log space, absorption, commit and recovery. */
module Log {
  import opened Basics
  import opened Disk
  import opened Crash
  import opened BufferCache
  import opened Readers
  import opened LogBlocks

  /** How many processes have an operation outstanding. */
  function Active(ops: seq<Option<nat>>): (k: nat)
  {
    if ops == [] then 0 else (if ops[0].Some? then 1 else 0) + Active(ops[1..])
  }

  /** What an operation may still add: maxop blocks less those it has added. */
  function Share(o: Option<nat>, maxop: nat): (k: nat)
  {
    if o.Some? && o.value < maxop then maxop - o.value else 0
  }

  /** What the outstanding operations may still add together. */
  function Unused(ops: seq<Option<nat>>, maxop: nat): (k: nat)
  {
    if ops == [] then 0 else Share(ops[0], maxop) + Unused(ops[1..], maxop)
  }

  lemma ShareUsed(o: Option<nat>, maxop: nat)
    requires o.Some?
    ensures Share(Some(o.value + 1), maxop) == if o.value < maxop then Share(o, maxop) - 1 else Share(o, maxop)
  {
  }

  lemma {:induction false} OpChanges(ops: seq<Option<nat>>, p: nat, o: Option<nat>, maxop: nat)
    requires p < |ops|
    ensures Active(ops[p := o]) == Active(ops) - (if ops[p].Some? then 1 else 0) + (if o.Some? then 1 else 0)
    ensures Unused(ops[p := o], maxop) == Unused(ops, maxop) - Share(ops[p], maxop) + Share(o, maxop)
  {
    if p > 0 {
      assert ops[p := o][1..] == ops[1..][p - 1 := o];
      OpChanges(ops[1..], p - 1, o, maxop);
    } else {
      assert ops[p := o][1..] == ops[1..];
    }
  }

  lemma OneMore(k: nat, m: nat)
    ensures (1 + k) * m == m + k * m
  {
  }

  lemma {:induction false} UnusedBound(ops: seq<Option<nat>>, maxop: nat)
    ensures Unused(ops, maxop) <= Active(ops) * maxop
    ensures forall p | 0 <= p < |ops| :: Share(ops[p], maxop) <= Unused(ops, maxop)
    ensures (exists p :: 0 <= p < |ops| && ops[p].Some?) <==> Active(ops) > 0
  {
    if ops != [] {
      UnusedBound(ops[1..], maxop);
      assert forall p | 1 <= p < |ops| :: ops[p] == ops[1..][p - 1];
      OneMore(Active(ops[1..]), maxop);
    }
  }

  /** Space for every outstanding operation is set aside: what is in the log and what those
      operations may still add fits. While a commit runs there are no operations. */
  ghost predicate Reserved(n: nat, ops: seq<Option<nat>>, outstanding: nat, committing: bool, logsize: nat, maxop: nat)
  {
    && outstanding == Active(ops)
    && n + Unused(ops, maxop) <= logsize
    && (committing ==> outstanding == 0)
  }

  /** An operation that has not used up its share finds room. */
  lemma RoomForShare(n: nat, ops: seq<Option<nat>>, outstanding: nat, committing: bool, logsize: nat, maxop: nat, p: nat)
    requires Reserved(n, ops, outstanding, committing, logsize, maxop)
    requires p < |ops| && ops[p].Some?
    ensures outstanding > 0 && !committing
    ensures ops[p].value < maxop ==> n < logsize
  {
    UnusedBound(ops, maxop);
  }

  /** A commit has the log to itself: no operation is outstanding, so none can call log_write. */
  lemma CommitAlone(n: nat, ops: seq<Option<nat>>, outstanding: nat, logsize: nat, maxop: nat, p: nat)
    requires Reserved(n, ops, outstanding, true, logsize, maxop) && p < |ops|
    ensures ops[p].None?
  {
    UnusedBound(ops, maxop);
  }

  /** read_head: the header block's first n entries replace those of the in-memory header. */
  method ReadHead(c: BCache, o: Others, start: nat, lh: seq<nat>) returns (n: nat, block: seq<nat>)
    requires o.Share(c, {}, {}) && Alone(c, o) && start in c.disk && start in c.logical
    requires c.logical[start].Head? && c.logical[start].n <= |c.logical[start].block| == |lh|
    modifies c`bufs, c`holders, c`next, c`prev, c`ring, c`released, c`clock, o
    ensures o.Share(c, {}, {}) && Alone(c, o)
    ensures n == c.logical[start].n
    ensures block == c.logical[start].block[..n] + lh[n..]
  {
    hide View.Coherent, LruRing, Shared, Sum;
    var t := BreadAmong(c, o, start, {}, {});
    AloneHasRoom(c, o, if t.NoBuffers? then {} else {} + {t.i}, if t.Buffer? then {} + {t.i} else {});
    var buf := t.i;
    var h := c.bufs[buf].data;
    n, block := h.n, lh;
    var i := 0;
    while i < n
      invariant 0 <= i <= n
      invariant block == h.block[..i] + lh[i..]
    {
      block := block[i := h.block[i]];
      i := i + 1;
    }
    BrelseAmong(c, o, buf, {} + {buf}, {} + {buf});
    assert {} + {buf} - {buf} == {};
  }

  /** The writes of recovery, issued by install_trans and write_head. */
  lemma RecoverySplits(g: Geometry, disk: Image, n: nat, block: seq<nat>)
    requires Recoverable(g, disk) && n == disk[g.start].n && n <= |block| && block[..n] == disk[g.start].block[..n]
    ensures RecoverWrites(g, disk) == InstallWrites(g, n, block, disk) + [Write(g.start, NewHead(disk[g.start], 0, block))]
  {
  }

  /** recover_from_log on a freshly booted cache: it issues exactly the writes of Crash.RecoverWrites,
      so whatever a crash left behind, the home blocks end up those of target. */
  method RecoverFromLog(c: BCache, g: Geometry, lh: seq<nat>, ghost target: Image) returns (block: seq<nat>)
    requires Quiet(c) && NoPins(c.pins) && c.nbuf >= 2 && c.disk == c.logical
    requires LogRegion(c.Now(), g) && Redoable(g, c.disk, |lh|, target)
    modifies c
    ensures Quiet(c) && NoPins(c.pins) && LogRegion(c.Now(), g) && |block| == |lh|
    ensures Wrote(old(c.Store()), c.Store(), RecoverWrites(g, old(c.disk)))
    ensures CleanHead(g, c.disk, |lh|) && SameHome(g, c.disk, target)
  {
    hide View.Coherent, LruRing, Apply, Wrote, InstallWrites, Shared, Steps, Busy, Sum, RecoverWrites, SameHome;
    var o := new Others(g, 0, c.nbuf, []);
    AloneAtBoot(c, o);
    var n;
    n, block := ReadHead(c, o, g.start, lh);
    ReadBack(g, c.disk, lh, n, block, target);
    RecoveryDone(g, c.disk, |lh|, target);
    ghost var v := c.Store();
    Redo(c, o, n, block);
    QuietAgain(c, o);
    WroteDisk(v, c.Store(), RecoverWrites(g, v.disk));
  }

  /** install_trans and write_head, with nobody else about. */
  method Redo(c: BCache, o: Others, n: nat, block: seq<nat>)
    requires o.Share(c, {}, {}) && Alone(c, o) && LogRegion(c.Now(), o.g) && n <= |block| && n < o.g.size
    requires forall k | 0 <= k < n :: !o.g.Holds(block[k]) && block[k] in c.disk && block[k] in c.logical
    requires c.logical[o.g.start].Head? && |c.logical[o.g.start].block| == |block|
    modifies c, o
    ensures o.Share(c, {}, {}) && Alone(c, o) && LogRegion(c.Now(), o.g)
    ensures Wrote(old(c.Store()), c.Store(),
                  InstallWrites(o.g, n, block, old(c.logical)) + [Write(o.g.start, NewHead(old(c.logical)[o.g.start], 0, block))])
  {
    hide View.Coherent, LruRing, Apply, Wrote, InstallWrites, Shared, Steps, Busy, Sum;
    ghost var v := c.Store();
    ghost var ws := InstallWrites(o.g, n, block, v.logical);
    InstallWritesAre(o.g, n, block, v.logical);
    var r; ghost var k;
    r, k := InstallTrans(c, o, n, block, true);
    ghost var w := c.Store();
    assert ws[..k] == ws;
    WroteHomeOnly(v, w, ws, o.g);
    AloneHasRoom(c, o, {}, {});
    r := WriteHead(c, o, o.g.start, 0, block);
    WroteDisk(w, c.Store(), [Write(o.g.start, NewHead(v.logical[o.g.start], 0, block))]);
    WroteBoth(v, w, c.Store(), ws, [Write(o.g.start, NewHead(v.logical[o.g.start], 0, block))]);
  }

  /** All the writes of recovery. */
  lemma RecoveryDone(g: Geometry, disk: Image, len: nat, target: Image)
    requires Redoable(g, disk, len, target)
    ensures CleanHead(g, Apply(disk, RecoverWrites(g, disk)), len) && SameHome(g, Apply(disk, RecoverWrites(g, disk)), target)
  {
    hide Apply, CleanHead, SameHome;
    InterruptedRedoable(g, disk, len, target, |RecoverWrites(g, disk)|);
  }

  /** What read_head leaves in memory is what the header on disk says. */
  lemma ReadBack(g: Geometry, disk: Image, lh: seq<nat>, n: nat, block: seq<nat>, target: Image)
    requires Redoable(g, disk, |lh|, target) && n == disk[g.start].n && n <= |lh| && block == disk[g.start].block[..n] + lh[n..]
    ensures forall k | 0 <= k < n :: !g.Holds(block[k]) && block[k] in disk
    ensures RecoverWrites(g, disk) == InstallWrites(g, n, block, disk) + [Write(g.start, NewHead(disk[g.start], 0, block))]
  {
    assert block[..n] == disk[g.start].block[..n];
    forall k | 0 <= k < n ensures block[k] == disk[g.start].block[k] {
      assert block[k] == block[..n][k] == disk[g.start].block[..n][k];
    }
    RecoverySplits(g, disk, n, block);
  }

  /** Without readers a buffer is taken exactly if it is pinned. */
  lemma NoReaders(c: BCache, o: Others)
    requires Quiet(c) && o.refs == seq(c.nbuf, i => 0) && o.locks == {}
    ensures o.Share(c, {}, {}) && (Taken(o.refs, c.pins) <==> !Spare(c.pins))
    ensures forall blocks: seq<nat> :: Unlocked(c.bufs, o.locks, c.dev, blocks)
  {
    NoSum(o.refs);
  }

  lemma AloneAtBoot(c: BCache, o: Others)
    requires Quiet(c) && NoPins(c.pins) && c.nbuf >= 2
    requires o.refs == seq(c.nbuf, i => 0) && o.locks == {} && o.plan == []
    ensures o.Share(c, {}, {}) && Alone(c, o)
  {
    NoSum(o.refs);
  }

  lemma {:induction false} NoSum(s: seq<nat>)
    requires forall i | 0 <= i < |s| :: s[i] == 0
    ensures Sum(s) == 0
  {
    if s != [] {
      NoSum(s[1..]);
    }
  }

  lemma QuietAgain(c: BCache, o: Others)
    requires o.Share(c, {}, {}) && forall i | 0 <= i < |o.refs| :: o.refs[i] == 0
    ensures Quiet(c)
  {
  }

  lemma {:induction false} NoOps(ops: seq<Option<nat>>, maxop: nat)
    requires forall o <- ops :: o.None?
    ensures Active(ops) == 0 && Unused(ops, maxop) == 0
  {
    if ops != [] {
      assert ops[0] in ops;
      NoOps(ops[1..], maxop);
    }
  }

  lemma TxPinnedEmpty(v: View, g: Geometry, blocks: seq<nat>)
    requires |v.pins| == |v.bufs| && NoPins(v.pins) && blocks == []
    ensures TxPinned(v, g, blocks)
  {
  }

  lemma EmptyCommit(v: Stored, g: Geometry, tx: Tx)
    requires tx.n == 0 && tx.Valid(g, v.disk) && CleanHead(g, v.disk, |tx.block|)
    ensures |CommitWrites(g, tx, v.disk)| == 0 && Wrote(v, v, CommitWrites(g, tx, v.disk)[..0])
    ensures SameHome(g, v.logical, v.logical)
  {
  }

  /** The log blocks and the header: up to the point where the transaction is committed. */
  method WriteTx(c: BCache, o: Others, n: nat, block: seq<nat>) returns (r: Outcome, ghost k: nat)
    requires o.Share(c, {}, {}) && LogRegion(c.Now(), o.g) && 0 < n <= |block| && n < o.g.size
    requires TxPinned(c.Now(), o.g, block[..n]) && CleanHead(o.g, c.disk, |block|)
    requires Tx(n, block, c.logical).Valid(o.g, c.disk)
    modifies c`bufs, c`holders, c`next, c`prev, c`ring, c`released, c`clock, c`disk, c`logical, c`dirty, c`trace, o
    ensures Still(o) && Steps(old(c.bufs), c.bufs, c.pins, old(o.Stuck()), {}) && c.Valid()
    ensures var ws := CommitWrites(o.g, Tx(n, block, old(c.logical)), old(c.disk));
      k <= |ws| && Wrote(old(c.Store()), c.Store(), ws[..k]) && (r == Done ==> k == n + 1)
    ensures r == Done ==>
      && o.Share(c, {}, {}) && LogRegion(c.Now(), o.g)
      && c.logical[o.g.start] == NewHead(old(c.disk)[o.g.start], n, block)
      && InstallWrites(o.g, n, block, c.logical) == HomeWrites(Tx(n, block, old(c.logical)))
    ensures TxPinned(c.Now(), o.g, block[..n])
    ensures r == OutOfBuffers ==> o.Share(c, {}, {}) && Busy(c.bufs)
    ensures r.Asleep? ==> r.i < c.nbuf && r.i in o.locks && c.bufs[r.i].blockno in block[..n]
    ensures old(o.plan) == [] ==>
      (r == Done <==> !Taken(o.refs, c.pins) && Unlocked(old(c.bufs), o.locks, c.dev, block[..n]))
  {
    hide View.Coherent, LruRing, Apply, Wrote, TxPinned, SlotWrites, HomeWrites, InstallWrites, CommitWrites;
    hide Steps, Others.Share, Busy, Taken, Unlocked;
    TxIsValid(c.Now(), o.g, n, block);
    LogIsOnDisk(c, o, block[..n], o.g.start);
    ghost var v, tx, u, stuck := c.Store(), Tx(n, block, c.logical), c.bufs, o.Stuck();
    r, k := WriteLog(c, o, n, block);
    CommitParts(o.g, tx, v.disk, k);
    if r != Done {
      return;
    }
    assert SlotWrites(o.g, tx)[..k] == SlotWrites(o.g, tx);
    ghost var w, w', stuckW := c.Store(), c.Now(), o.Stuck();
    AfterSlots(v, w, o.g, tx);
    BusyIsTaken(c, o);
    r := WriteHead(c, o, o.g.start, n, block);
    StepsTrans(u, w'.bufs, c.bufs, c.pins, stuck, stuckW, {}, {}, stuck);
    StepsKeep(w', c.Now(), stuckW, {});
    if r == Done {
      ghost var h := NewHead(v.disk[o.g.start], n, block);
      AfterHead(w, c.Store(), o.g, tx, h);
      WroteBoth(v, w, c.Store(), SlotWrites(o.g, tx), [Write(o.g.start, h)]);
      k := n + 1;
    }
    TxPinnedKept(w', c.Now(), o.g, block[..n]);
    ShareSteps(c, o);
  }

  /** The home blocks and the cleared header. */
  method InstallTx(c: BCache, o: Others, n: nat, block: seq<nat>, ghost tx: Tx) returns (r: Outcome, ghost k: nat)
    requires o.Share(c, {}, {}) && LogRegion(c.Now(), o.g) && 0 < n <= |block| && n < o.g.size
    requires TxPinned(c.Now(), o.g, block[..n]) && c.logical[o.g.start].Head? && |c.logical[o.g.start].block| == |block|
    requires tx.n == n && tx.block == block && forall k | 0 <= k < n :: block[k] in tx.view
    requires InstallWrites(o.g, n, block, c.logical) == HomeWrites(tx)
    modifies c, o
    ensures Still(o) && c.Valid()
    ensures var ws := EndWrites(o.g, tx, old(c.logical)[o.g.start]);
      k <= |ws| == n + 1 && Wrote(old(c.Store()), c.Store(), ws[..k]) && (r == Done ==> k == n + 1)
    ensures r == Done ==> o.Share(c, {}, {}) && NoPins(c.pins) && LogRegion(c.Now(), o.g)
    ensures r == OutOfBuffers ==> Busy(c.bufs) && c.nbuf <= n + o.most
    ensures r.Asleep? ==> r.i < c.nbuf && r.i in o.locks && c.bufs[r.i].blockno in block[..n]
    ensures old(o.plan) == [] && !Taken(o.refs, old(c.pins)) && Unlocked(old(c.bufs), o.locks, c.dev, block[..n]) ==> r == Done
  {
    hide View.Coherent, LruRing, Apply, Wrote, TxPinned, HomeWrites, InstallWrites;
    hide Steps, Others.Share, Busy, Taken, Unlocked;
    TxIsValid(c.Now(), o.g, n, block);
    InstallWritesAre(o.g, n, block, c.logical);
    ghost var v, h, p := c.Store(), c.logical[o.g.start], c.pins;
    ghost var ws := EndWrites(o.g, tx, h);
    ShareSteps(c, o);
    r, k := InstallTrans(c, o, n, block, false);
    assert ws[..k] == HomeWrites(tx)[..k];
    if r != Done {
      if r == OutOfBuffers {
        BusyBound(c, o, block[k..n]);
      }
      return;
    }
    assert HomeWrites(tx)[..k] == HomeWrites(tx);
    ghost var y := c.Store();
    WroteHomeOnly(v, y, HomeWrites(tx), o.g);
    BusyIsTaken(c, o);
    ghost var q := c.pins;
    ShareSteps(c, o);
    r := WriteHead(c, o, o.g.start, 0, block);
    ShareSteps(c, o);
    if r == Done {
      WroteBoth(v, y, c.Store(), HomeWrites(tx), [Write(o.g.start, NewHead(h, 0, block))]);
      WroteDisk(v, c.Store(), ws);
      k := n + 1;
      assert ws[..k] == ws;
    } else {
      TxPinnedEmpty(c.Now(), o.g, []);
      BusyBound(c, o, []);
      NoPinsTaken(o.refs, q, p);
    }
  }

  lemma NoPinsTaken(refs: seq<nat>, pins: seq<nat>, pins': seq<nat>)
    requires NoPins(pins) && |pins'| == |pins|
    ensures Taken(refs, pins) ==> Taken(refs, pins')
  {
  }

  /** The four parts of commit() for a transaction that is not empty. Whatever the readers do, the
      writes issued are the first k of Crash.CommitWrites. */
  method CommitTx(c: BCache, o: Others, n: nat, block: seq<nat>) returns (r: Outcome, ghost k: nat)
    requires o.Share(c, {}, {}) && LogRegion(c.Now(), o.g) && 0 < n <= |block| && n < o.g.size
    requires TxPinned(c.Now(), o.g, block[..n]) && CleanHead(o.g, c.disk, |block|)
    requires Tx(n, block, c.logical).Valid(o.g, c.disk)
    modifies c, o
    ensures Still(o) && c.Valid()
    ensures var ws := CommitWrites(o.g, Tx(n, block, old(c.logical)), old(c.disk));
      k <= |ws| && Wrote(old(c.Store()), c.Store(), ws[..k]) && (r == Done ==> k == |ws|)
    ensures r == Done ==>
      && o.Share(c, {}, {}) && NoPins(c.pins) && LogRegion(c.Now(), o.g)
      && CleanHead(o.g, c.disk, |block|) && SameHome(o.g, c.logical, old(c.logical))
    ensures r == OutOfBuffers ==> Busy(c.bufs) && c.nbuf <= n + o.most
    ensures r.Asleep? ==> r.i < c.nbuf && r.i in o.locks && c.bufs[r.i].blockno in block[..n]
    ensures old(o.plan) == [] ==>
      (r == Done <==> !Taken(o.refs, old(c.pins)) && Unlocked(old(c.bufs), o.locks, c.dev, block[..n]))
  {
    hide View.Coherent, LruRing, Apply, Wrote, TxPinned, SlotWrites, HomeWrites, InstallWrites, CommitWrites, SameHome;
    hide Steps, Others.Share, Busy, Taken, Unlocked, EndWrites;
    TxIsValid(c.Now(), o.g, n, block);
    LogIsOnDisk(c, o, block[..n], o.g.start);
    ghost var v, tx, u := c.Store(), Tx(n, block, c.logical), c.bufs;
    ghost var ws := CommitWrites(o.g, tx, c.disk);
    CommitParts(o.g, tx, c.disk, n);
    r, k := WriteTx(c, o, n, block);
    if r != Done {
      if r == OutOfBuffers {
        BusyBound(c, o, block[..n]);
      }
      return;
    }
    if old(o.plan) == [] {
      UnlockedKept(u, c.bufs, c.pins, o.locks, c.dev, block[..n]);
    }
    ghost var x, m := c.Store(), 0;
    r, m := InstallTx(c, o, n, block, tx);
    k := n + 1 + m;
    WroteOn(v, x, c.Store(), ws, n + 1, m);
    if r == Done {
      assert ws[..k] == ws;
      CommitComposes(v, c.Store(), o.g, tx);
    }
  }

  /** More of the same writes. */
  lemma WroteOn(v: Stored, w: Stored, x: Stored, ws: seq<Write>, j: nat, k: nat)
    requires j + k <= |ws| && Wrote(v, w, ws[..j]) && Wrote(w, x, ws[j..][..k])
    ensures Wrote(v, x, ws[..j + k])
  {
    WroteBoth(v, w, x, ws[..j], ws[j..][..k]);
    assert ws[..j + k] == ws[..j] + ws[j..][..k];
  }

  lemma LogIsOnDisk(c: BCache, o: Others, blocks: seq<nat>, b: nat)
    requires o.Share(c, {}, {}) && TxPinned(c.Now(), o.g, blocks) && o.g.Holds(b) && b in c.disk && b in c.logical
    ensures c.disk[b] == c.logical[b]
  {
    LogOnDisk(c.Now(), o.g, blocks, b);
  }

  datatype Verdict = Logged | TooBig | OutsideTransaction

  class TxLog {
    const c: BCache
    const g: Geometry
    const logsize: nat  // LOGSIZE
    const maxop: nat    // MAXOPBLOCKS

    var n: nat
    var block: seq<nat>
    var outstanding: nat
    var committing: bool

    ghost var ops: seq<Option<nat>>  // per process: how many blocks its operation has added

    /** The cache holds and pins the blocks of the transaction, and the log on disk is empty. */
    ghost predicate Sound()
      reads this, c
    {
      && c.Valid()
      && n <= logsize == |block| < g.size
      && LogRegion(c.Now(), g)
      && TxPinned(c.Now(), g, block[..n])
      && CleanHead(g, c.disk, logsize)
    }

    ghost predicate Valid()
      reads this, c
    {
      Sound() && Reserved(n, ops, outstanding, committing, logsize, maxop)
    }

    /** initlog: recovery, then an empty log. */
    constructor (c: BCache, g: Geometry, logsize: nat, maxop: nat, nproc: nat, ghost target: Image)
      requires Quiet(c) && NoPins(c.pins) && c.nbuf >= 2 && c.disk == c.logical
      requires LogRegion(c.Now(), g) && Redoable(g, c.disk, logsize, target) && logsize < g.size
      modifies c
      ensures Valid() && this.c == c && this.g == g && this.logsize == logsize && this.maxop == maxop
      ensures n == 0 && outstanding == 0 && !committing && ops == seq(nproc, i => None)
      ensures Quiet(c) && SameHome(g, c.disk, target)
    {
      var lh := seq(logsize, i => 0);
      this.c, this.g, this.logsize, this.maxop := c, g, logsize, maxop;
      var b := RecoverFromLog(c, g, lh, target);
      block := b;
      n, outstanding, committing := 0, 0, false;
      ops := seq(nproc, i => None);
      new;
      hide View.Coherent, LruRing;
      NoOps(ops, maxop);
      TxPinnedEmpty(c.Now(), g, block[..n]);
    }

    /** One turn of begin_op's loop: admitted, or put to sleep until some end_op. */
    method BeginOp(p: nat) returns (admitted: bool)
      requires Valid() && p < |ops| && ops[p].None?
      modifies this`outstanding, this`ops
      ensures Valid()
      ensures admitted <==> !committing && n + (old(outstanding) + 1) * maxop <= logsize
      ensures ops == if admitted then old(ops)[p := Some(0)] else old(ops)
      ensures outstanding == if admitted then old(outstanding) + 1 else old(outstanding)
    {
      hide BCache.Valid, LogRegion, TxPinned, CleanHead, Active, Unused;
      if committing {
        return false;
      } else if n + (outstanding + 1) * maxop > logsize {
        return false;
      } else {
        OpChanges(ops, p, Some(0), maxop);
        UnusedBound(ops, maxop);
        outstanding := outstanding + 1;
        ops := ops[p := Some(0)];
        return true;
      }
    }

    /** end_op up to the commit: the "log.committing" panic cannot happen, and the last operation
        starts the commit. */
    method EndOp(p: nat) returns (panicked: bool, commit: bool)
      requires Valid() && p < |ops| && ops[p].Some?
      modifies this`outstanding, this`committing, this`ops
      ensures Valid()
      ensures !panicked
      ensures commit <==> outstanding == 0
      ensures committing == commit
      ensures ops == old(ops)[p := None] && outstanding == old(outstanding) - 1
    {
      hide BCache.Valid, LogRegion, TxPinned, CleanHead, Active, Unused;
      RoomForShare(n, ops, outstanding, committing, logsize, maxop, p);
      OpChanges(ops, p, None, maxop);
      outstanding := outstanding - 1;
      ops := ops[p := None];
      if committing {
        return true, false;
      }
      if outstanding == 0 {
        commit := true;
        committing := true;
      } else {
        commit := false;
      }
      panicked := false;
    }

    /** log_write's loop. */
    method FindLogged(b: nat) returns (k: nat)
      requires n <= |block|
      ensures k <= n
      ensures k < n ==> block[k] == b
      ensures k == n ==> b !in block[..n]
    {
      k := 0;
      while k < n && block[k] != b
        invariant 0 <= k <= n
        invariant b !in block[..k]
      {
        k := k + 1;
      }
    }

    /** log_write on a locked buffer that operation p has changed. The test for a full log comes
        before the search for the block, so even a block that is in the log already is refused then;
        an operation that has added fewer than maxop blocks is never refused. An operation past its
        share is not stopped: the space of the others stays reserved exactly if enough is left. */
    method LogWrite(p: nat, i: nat) returns (r: Verdict)
      requires Valid() && i < c.nbuf && c.bufs[i].locked && c.bufs[i].valid && !g.Holds(c.bufs[i].blockno)
      requires p < |ops| && ops[p].Some?
      modifies this`n, this`block, this`ops, c`bufs, c`pins, c`logical, c`dirty
      ensures Sound() && (Valid() <==> n + Unused(ops, maxop) <= logsize)
      ensures r == TooBig <==> old(n) == logsize
      ensures r != OutsideTransaction
      ensures old(ops)[p].value < maxop ==> r == Logged
      ensures old(ops)[p].value < maxop || r == TooBig || old(c.bufs)[i].blockno in old(block)[..old(n)] ==> Valid()
      ensures r == TooBig ==> n == old(n) && block == old(block) && ops == old(ops) && c.Now() == old(c.Now())
      ensures var b := old(c.bufs)[i].blockno;
        r == Logged ==>
        && c.logical == old(c.logical)[b := old(c.bufs)[i].data]
        && c.dirty == old(c.dirty) - {i}
        && if b in old(block)[..old(n)] then
             n == old(n) && block == old(block) && ops == old(ops) && c.bufs == old(c.bufs) && c.pins == old(c.pins)
           else
             && n == old(n) + 1 && block == old(block)[old(n) := b] && ops == old(ops)[p := Some(old(ops)[p].value + 1)]
             && c.bufs == old(c.bufs)[i := Referenced(old(c.bufs)[i])] && c.pins == old(c.pins)[i := old(c.pins)[i] + 1]
    {
      hide View.Coherent, LruRing, TxPinned, CleanHead, Active, Unused, Share;
      RoomForShare(n, ops, outstanding, committing, logsize, maxop, p);
      ShareUsed(ops[p], maxop);
      if n >= logsize || n >= g.size - 1 {
        return TooBig;
      }
      if outstanding < 1 {
        return OutsideTransaction;
      }
      var b := c.bufs[i].blockno;
      var k := FindLogged(b);
      ghost var v := c.Now();
      ValidOnDisk(v, i);
      if k == n {
        OpChanges(ops, p, Some(ops[p].value + 1), maxop);
        PinNew(i);
        block := block[k := b];
        assert block[..n + 1] == block[..n] + [b];
        n := n + 1;
        ops := ops[p := Some(ops[p].value + 1)];
      } else {
        assert block[k := b] == block && block[..n][k] == b;
        block := block[k := b];
        TxPinnedUnique(v, g, block[..n], i);
        c.Record(i);
        TxPinnedKept(v, c.Now(), g, block[..n]);
      }
      return Logged;
    }

    /** bpin of a block that the transaction did not have, and its new contents. */
    method PinNew(i: nat)
      requires Sound() && i < c.nbuf && c.bufs[i].locked && c.bufs[i].valid && !g.Holds(c.bufs[i].blockno)
      requires c.bufs[i].blockno !in block[..n]
      modifies c`bufs, c`pins, c`logical, c`dirty
      ensures c.Valid() && LogRegion(c.Now(), g) && TxPinned(c.Now(), g, block[..n] + [c.bufs[i].blockno])
      ensures c.bufs == old(c.bufs)[i := Referenced(old(c.bufs)[i])] && c.pins == old(c.pins)[i := old(c.pins)[i] + 1]
      ensures c.logical == old(c.logical)[c.bufs[i].blockno := c.bufs[i].data] && c.dirty == old(c.dirty) - {i}
    {
      hide View.Coherent, LruRing, TxPinned, CleanHead;
      ghost var v := c.Now();
      ValidOnDisk(v, i);
      c.Bpin(i);
      c.Record(i);
      TxPinnedAdd(v, c.Now(), g, block[..n], i);
    }

    /** commit() among readers. Whatever they do, the writes issued are the first k of
        Crash.CommitWrites; all of them if it ends. It can run out of buffers only if the transaction and
        the readers' references are together as many as the buffers. If the readers take no steps, it
        ends exactly if the transaction is empty, or some buffer is neither pinned nor referenced and no
        reader has a block of the transaction locked. */
    method Commit(o: Others) returns (r: Outcome, ghost k: nat)
      requires Valid() && committing && o.g == g && o.Share(c, {}, {})
      modifies this`n, c, o
      ensures Still(o) && c.Valid()
      ensures var tx := Tx(old(n), block, old(c.logical));
        && tx.Valid(g, old(c.disk))
        && k <= |CommitWrites(g, tx, old(c.disk))|
        && Wrote(old(c.Store()), c.Store(), CommitWrites(g, tx, old(c.disk))[..k])
        && (r == Done ==> k == |CommitWrites(g, tx, old(c.disk))|)
      ensures r == Done ==> Valid() && o.Share(c, {}, {}) && n == 0 && SameHome(g, c.logical, old(c.logical))
      ensures r == OutOfBuffers ==> Busy(c.bufs) && c.nbuf <= old(n) + o.most
      ensures r.Asleep? ==> r.i < c.nbuf && r.i in o.locks && c.bufs[r.i].blockno in block[..old(n)]
      ensures old(o.plan) == [] ==>
        (r == Done <==>
          old(n) == 0 || (!Taken(o.refs, old(c.pins)) && Unlocked(old(c.bufs), o.locks, c.dev, block[..old(n)])))
    {
      hide View.Coherent, LruRing, TxPinned, Wrote, CommitWrites, Tx.Valid, SameHome, Steps, Shared, Busy, Taken, Unlocked;
      TxIsValid(c.Now(), g, n, block);
      if n > 0 {
        r, k := CommitTx(c, o, n, block);
        if r == Done {
          n := 0;
          TxPinnedEmpty(c.Now(), g, block[..n]);
        }
      } else {
        EmptyCommit(c.Store(), g, Tx(n, block, c.logical));
        r, k := Done, 0;
      }
    }

    /** commit() without readers ends exactly if the transaction is smaller than the cache. */
    method CommitQuiet() returns (ok: bool)
      requires Valid() && Quiet(c) && committing
      modifies this`n, c
      ensures ok <==> old(n) == 0 || old(n) < c.nbuf
      ensures ok ==> Valid() && Quiet(c) && n == 0 && SameHome(g, c.logical, old(c.logical))
      ensures var tx := Tx(old(n), block, old(c.logical));
        && tx.Valid(g, old(c.disk))
        && (ok ==> Wrote(old(c.Store()), c.Store(), CommitWrites(g, tx, old(c.disk))))
    {
      hide View.Coherent, LruRing, TxPinned, Wrote, CommitWrites, Tx.Valid, SameHome, Busy, Taken, Unlocked;
      SpareIffRoom(c.Now(), g, block[..n]);
      var o := new Others(g, 0, c.nbuf, []);
      NoReaders(c, o);
      ghost var v := c.Store();
      var r; ghost var k;
      r, k := Commit(o);
      ok := r == Done;
      if ok {
        QuietAgain(c, o);
        ghost var ws := CommitWrites(g, Tx(old(n), block, v.logical), v.disk);
        assert ws[..k] == ws;
      }
    }

    /** The end of end_op: the log takes operations again, and finds room for one at once if an
        operation's share fits the log at all. */
    method EndCommit()
      requires Valid() && committing && n == 0
      modifies this`committing
      ensures Valid() && !committing && outstanding == 0
      ensures maxop <= logsize ==> n + (outstanding + 1) * maxop <= logsize
    {
      committing := false;
    }
  }
}
