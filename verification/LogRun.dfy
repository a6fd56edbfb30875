/** Runs of the log with the constants of kernel/param.h, and with a small cache. */
module LogRun {
  import opened Basics
  import opened Disk
  import opened Crash
  import opened BufferCache
  import opened Readers
  import opened LogBlocks
  import opened Log

  const MAXOPBLOCKS: nat := 10
  const LOGSIZE: nat := 30
  const NBUF: nat := 30

  /** Nobody else is using the cache. */
  ghost predicate Idle(t: TxLog, o: Others)
    reads t, t.c, o
  {
    && t.Valid() && o.g == t.g && o.Share(t.c, {}, {})
    && o.plan == [] && forall i | 0 <= i < |o.refs| :: o.refs[i] == 0
  }

  lemma IdleHasRoom(t: TxLog, o: Others)
    requires Idle(t, o)
    ensures o.locks == {}
    ensures t.n < t.c.nbuf ==> !Busy(t.c.bufs)
  {
    LocksReferenced(t.c, o, {}, {});
    BusyIsTaken(t.c, o);
    SpareIffRoom(t.c.Now(), t.g, t.block[..t.n]);
  }

  /** Steps that keep pins and contents keep the log valid. */
  lemma ValidKept(t: TxLog, v: View)
    requires t.c.Valid() && t.n <= t.logsize == |t.block| < t.g.size
    requires LogRegion(v, t.g) && TxPinned(v, t.g, t.block[..t.n]) && CleanHead(t.g, v.disk, t.logsize)
    requires Reserved(t.n, t.ops, t.outstanding, t.committing, t.logsize, t.maxop)
    requires v.disk == t.c.disk && v.logical == t.c.logical && v.pins == t.c.pins && Kept(v, t.c.Now())
    ensures t.Valid()
  {
    TxPinnedKept(v, t.c.Now(), t.g, t.block[..t.n]);
  }

  lemma HeldLocked(c: BCache, o: Others, i: nat)
    requires o.Share(c, {i}, {i})
    ensures i < c.nbuf && c.bufs[i].locked
  {
  }

  /** bread and a change of the data, by an operation. */
  method Change(t: TxLog, o: Others, b: nat, data: Block) returns (i: nat)
    requires Idle(t, o) && b in t.c.disk && b in t.c.logical
    requires t.n < t.c.nbuf || b in t.block[..t.n]
    modifies t.c`bufs, t.c`holders, t.c`next, t.c`prev, t.c`ring, t.c`released, t.c`clock, t.c`dirty, o
    ensures t.Valid() && o.Share(t.c, {i}, {i}) && o.plan == [] && o.refs == old(o.refs)
    ensures i < t.c.nbuf && t.c.bufs[i].locked && t.c.bufs[i].valid && t.c.bufs[i].Caches(t.c.dev, b) && t.c.dirty == {i}
    ensures t.c.bufs[i].data == data
  {
    hide View.Coherent, LruRing, Shared, Sum, Steps, TxPinned, CleanHead, LogRegion, Reserved;
    IdleHasRoom(t, o);
    ghost var v := t.c.Now();
    if b in t.block[..t.n] {
      TxPinnedAt(v, t.g, t.block[..t.n], b);
    }
    NothingDirty(t.c, o);
    var r := BreadAmong(t.c, o, b, {}, {});
    StepsKeep(v, t.c.Now(), {} + old(o.Stuck()), {});
    i := r.i;
    assert {} + {i} == {i};
    ModifyOwn(t.c, o, i, data, {i}, {i});
    HeldLocked(t.c, o, i);
    ValidKept(t, v);
  }

  /** log_write and, unless it panics, brelse. */
  method LogChange(t: TxLog, o: Others, p: nat, i: nat) returns (r: Verdict)
    requires t.Valid() && o.g == t.g && o.Share(t.c, {i}, {i}) && o.plan == [] && i < t.c.nbuf
    requires t.c.bufs[i].locked && t.c.bufs[i].valid && t.c.dirty == {i} && !t.g.Holds(t.c.bufs[i].blockno)
    requires t.c.bufs[i].dev == t.c.dev && p < |t.ops| && t.ops[p].Some?
    requires t.ops[p].value < t.maxop || t.c.bufs[i].blockno in t.block[..t.n]
    modifies t`n, t`block, t`ops, t.c, o
    ensures r == TooBig <==> old(t.n) == t.logsize
    ensures r != TooBig ==>
      var b := old(t.c.bufs)[i].blockno;
      && t.Valid() && o.Share(t.c, {}, {}) && o.plan == [] && o.refs == old(o.refs) && t.c.disk == old(t.c.disk)
      && t.c.logical.Keys == old(t.c.logical.Keys)
      && if b in old(t.block)[..old(t.n)] then t.n == old(t.n) && t.block == old(t.block) && t.ops == old(t.ops)
         else
           t.n == old(t.n) + 1 && t.block == old(t.block)[old(t.n) := b] && t.ops == old(t.ops)[p := Some(old(t.ops)[p].value + 1)]
  {
    hide View.Coherent, LruRing, Sum, TxPinned, CleanHead, LogRegion, Reserved, Steps, SlotShared;
    ghost var w := t.c.Now();
    ValidOnDisk(w, i);
    r := t.LogWrite(p, i);
    if r != TooBig {
      LoggedShared(t.c, o, i, w);
      ghost var v := t.c.Now();
      BrelseAmong(t.c, o, i, {i}, {i});
      assert {i} - {i} == {};
      StepsKeep(v, t.c.Now(), {i} + old(o.Stuck()), {i} - {i});
      ValidKept(t, v);
    }
  }

  lemma LoggedShared(c: BCache, o: Others, i: nat, v: View)
    requires c.Valid() && Shared(v, o.g, o.refs, o.locks, {i}, {i}) && Sum(o.refs) <= o.most && v.holders == c.holders
    requires i < |v.bufs| && |v.bufs| == |c.bufs| && c.dirty <= {i}
    requires c.bufs == v.bufs || c.bufs == v.bufs[i := Referenced(v.bufs[i])]
    ensures o.Share(c, {i}, {i})
  {
  }

  /** A disk of 100 blocks with an empty log from block 2 on. */
  function Formatted(logsize: nat): Image
  {
    map b <- UpTo(100) :: if b == 2 then Head(0, seq(logsize, i => 0)) else Data([])
  }

  function UpTo(n: nat): (s: set<nat>)
    ensures forall b :: b in s <==> 0 <= b < n
  {
    if n == 0 then {} else UpTo(n - 1) + {n - 1}
  }

  method Boot(nbuf: nat, logsize: nat, maxop: nat, nproc: nat, most: nat) returns (t: TxLog, o: Others)
    requires nbuf >= 2 && logsize < 90
    ensures fresh(t) && fresh(t.c) && fresh(o) && Idle(t, o) && o.most == most
    ensures t.g == Geometry(2, logsize + 1) && t.c.nbuf == nbuf && t.logsize == logsize && t.maxop == maxop
    ensures t.n == t.outstanding == 0 && !t.committing && t.ops == seq(nproc, i => None)
    ensures t.c.disk.Keys == t.c.logical.Keys == UpTo(100)
  {
    hide BCache.Valid, UpTo, TxLog.Valid, Others.Share;
    var g := Geometry(2, logsize + 1);
    var c := new BCache(nbuf, 1, Formatted(logsize));
    BootQuiet(c);
    t := new TxLog(c, g, logsize, maxop, nproc, Formatted(logsize));
    o := new Others(g, most, nbuf, []);
    NoReaders(c, o);
    SameKeys(c);
  }

  lemma BootQuiet(c: BCache)
    requires c.Valid() && c.dirty == {}
    requires forall i | 0 <= i < c.nbuf :: c.bufs[i].refcnt == 0 && !c.bufs[i].locked
    ensures Quiet(c) && |c.pins| == c.nbuf
  {
    RefsCounted(c.Now());
  }

  /** How many of the first i blocks operation p has logged, each taking ten in turn. */
  function LoggedBy(i: nat, p: nat): nat
  {
    if i <= MAXOPBLOCKS * p then 0 else if i < MAXOPBLOCKS * (p + 1) then i - MAXOPBLOCKS * p else MAXOPBLOCKS
  }

  ghost predicate Filling(t: TxLog, o: Others, i: nat)
    reads t, t.c, o
  {
    && Idle(t, o)
    && t.g == Geometry(2, LOGSIZE + 1) && t.logsize == LOGSIZE && t.c.nbuf == NBUF && t.maxop == MAXOPBLOCKS
    && t.n == i <= LOGSIZE && i <= |t.block| && !t.committing && t.outstanding == 3
    && (forall k | 0 <= k < i :: t.block[k] == 40 + k)
    && t.ops == [Some(LoggedBy(i, 0)), Some(LoggedBy(i, 1)), Some(LoggedBy(i, 2))]
    && t.c.disk.Keys == t.c.logical.Keys == UpTo(100)
  }

  method FillOne(t: TxLog, o: Others, i: nat)
    requires Filling(t, o, i) && i < LOGSIZE
    modifies t`n, t`block, t`ops, t.c, o
    ensures Filling(t, o, i + 1)
  {
    hide TxLog.Valid, Others.Share, UpTo;
    LogBounds(t);
    var j := Change(t, o, 40 + i, Data([1]));
    assert 40 + i !in t.block[..i];
    var r := LogChange(t, o, i / MAXOPBLOCKS, j);
    LogBounds(t);
  }

  lemma LogBounds(t: TxLog)
    requires t.Valid()
    ensures t.n <= t.logsize == |t.block|
  {
  }

  /** Three operations at once, each logging ten blocks, fill the log and pin every buffer. */
  method FillLog() returns (t: TxLog, o: Others)
    ensures fresh(t) && fresh(t.c) && fresh(o) && Filling(t, o, LOGSIZE)
  {
    hide TxLog.Valid, Others.Share, UpTo;
    t, o := Boot(NBUF, LOGSIZE, MAXOPBLOCKS, 3, 0);
    var a := t.BeginOp(0);
    a := t.BeginOp(1);
    a := t.BeginOp(2);
    LogBounds(t);
    var i := 0;
    while i < LOGSIZE
      invariant 0 <= i <= LOGSIZE && fresh(t) && fresh(t.c) && fresh(o) && Filling(t, o, i)
    {
      FillOne(t, o, i);
      i := i + 1;
    }
  }

  /** The commit of that transaction finds no buffer for the first log block. */
  method FullCommitFails() returns (ok: bool)
    ensures !ok
  {
    hide TxLog.Valid, Others.Share, UpTo;
    var t, o := FillLog();
    var panicked, commit := t.EndOp(0);
    panicked, commit := t.EndOp(1);
    panicked, commit := t.EndOp(2);
    QuietAgain(t.c, o);
    ok := t.CommitQuiet();
  }

  /** In the full log, log_write refuses a block that is in the log already and needs no space. */
  method LoggedBlockRefused() returns (r: Verdict)
    ensures r == TooBig
  {
    hide TxLog.Valid, Others.Share, UpTo;
    var t, o := FillLog();
    assert t.block[..t.n][0] == 40;
    var j := Change(t, o, 40, Data([2]));
    r := LogChange(t, o, 0, j);
  }

  /** Two buffers, and a transaction of one block about to be committed. */
  method OneLogged() returns (t: TxLog, o: Others)
    ensures fresh(t) && fresh(t.c) && fresh(o) && Idle(t, o) && o.most == 1 && t.c.nbuf == 2 && t.committing
    ensures t.n == 1 <= |t.block| && t.block[0] == 40 && 50 in t.c.disk && !t.g.Holds(50)
  {
    hide TxLog.Valid, Others.Share, UpTo, Steps;
    t, o := Boot(2, 2, 1, 1, 1);
    var a := t.BeginOp(0);
    LogBounds(t);
    var j := Change(t, o, 40, Data([1]));
    var v := LogChange(t, o, 0, j);
    var panicked, commit := t.EndOp(0);
    LogBounds(t);
  }

  /** With two buffers and one block logged, a reader that has the other buffer stops the commit. */
  method ReaderStopsCommit() returns (r: Outcome)
    ensures r == OutOfBuffers
  {
    hide TxLog.Valid, Others.Share, Wrote, CommitWrites, SameHome, Steps, Busy;
    var t, o := OneLogged();
    ReadOther(t, o);
    ghost var k;
    r, k := t.Commit(o);
  }

  /** A reader takes the buffer that is not pinned. */
  method ReadOther(t: TxLog, o: Others)
    requires Idle(t, o) && t.c.nbuf == 2 && o.most == 1 && t.n == 1 && t.block[0] == 40
    requires 50 in t.c.disk && !t.g.Holds(50)
    modifies t.c`bufs, t.c`holders, o`refs
    ensures t.Valid() && o.Share(t.c, {}, {}) && Taken(o.refs, t.c.pins) && o.locks == {}
  {
    hide View.Coherent, LruRing, Sum, TxPinned, CleanHead, LogRegion, Reserved;
    IdleHasRoom(t, o);
    NoSum(o.refs);
    ghost var w := t.c.Now();
    assert t.block[..t.n] == [40];
    TxPinnedAt(w, t.g, t.block[..t.n], 40);
    o.GetStep(t.c, 50, {}, {});
    StepsKeep(w, t.c.Now(), {}, {});
    ValidKept(t, w);
  }
}
