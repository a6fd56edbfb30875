/** The processes that read files while the log commits. fileread calls readi, and so bread, without
    begin_op, and commit runs without log.lock, so between any two steps of a commit any number of
    steps of such readers may happen. Readers never touch the blocks of the log. */
module Readers {
  import opened Basics
  import opened Disk
  import opened Crash
  import opened BufferCache

  /** One step of one reader: bget, acquiresleep, the disk read of bread, and the two halves of brelse. */
  datatype Act = Get(b: nat) | Lock(i: nat) | Read(i: nat) | Unlock(i: nat) | Drop(i: nat)

  function Sum(s: seq<nat>): (n: nat)
  {
    if s == [] then 0 else s[0] + Sum(s[1..])
  }

  lemma {:induction false} SumUpdate(s: seq<nat>, i: nat, x: nat)
    requires i < |s|
    ensures Sum(s[i := x]) == Sum(s) - s[i] + x
  {
    if i == 0 {
      assert s[i := x][1..] == s[1..];
    } else {
      assert s[i := x][1..] == s[1..][i - 1 := x];
      SumUpdate(s[1..], i - 1, x);
    }
  }

  /** Who references and locks one buffer: readers have refs references and maybe the lock, and the log
      has one reference if mine and the lock if held. */
  ghost predicate SlotShared(x: Buf, holders: nat, g: Geometry, refs: nat, lock: bool, mine: bool, held: bool)
  {
    && holders == refs + (if mine then 1 else 0)
    && (x.locked <==> lock || held)
    && !(lock && held)
    && (lock ==> refs > 0)
    && (held ==> mine)
    && (refs > 0 ==> !g.Holds(x.blockno))
  }

  /** The cache is shared by the readers and the log, which has references to the buffers in mine and
      the locks of those in held. Only the log changes buffers. */
  ghost predicate Shared(v: View, g: Geometry, refs: seq<nat>, locks: set<nat>, mine: set<nat>, held: set<nat>)
  {
    && |refs| == |v.bufs| == |v.holders| == |v.pins|
    && v.dirty <= held
    && (forall i <- locks :: i < |v.bufs|) && (forall i <- mine :: i < |v.bufs|) && (forall i <- held :: i < |v.bufs|)
    && forall i | 0 <= i < |v.bufs| ::
         SlotShared(v.bufs[i], v.holders[i], g, refs[i], i in locks, i in mine, i in held)
  }

  /** From v to w, pinned buffers and those in mine keep their blocks, and those in held their contents. */
  ghost predicate Steps(v: seq<Buf>, w: seq<Buf>, pins: seq<nat>, mine: set<nat>, held: set<nat>)
  {
    && |v| == |w| == |pins|
    && forall i | 0 <= i < |v| ::
         && (i in mine || pins[i] > 0 ==> w[i].dev == v[i].dev && w[i].blockno == v[i].blockno)
         && (i in held ==> w[i].valid == v[i].valid && w[i].data == v[i].data)
  }

  lemma StepsTrans(u: seq<Buf>, v: seq<Buf>, w: seq<Buf>, pins: seq<nat>, mine: set<nat>, mine': set<nat>,
                   held: set<nat>, held': set<nat>, kept: set<nat>)
    requires Steps(u, v, pins, mine, held) && Steps(v, w, pins, mine', held') && kept <= mine && kept <= mine'
    ensures Steps(u, w, pins, kept, {})
  {
  }

  lemma RefsCounted(v: View)
    requires v.Coherent()
    ensures |v.bufs| == |v.holders| == |v.pins|
    ensures forall i | 0 <= i < |v.bufs| :: v.bufs[i].refcnt == v.holders[i] + v.pins[i]
  {
  }

  /** bget by a reader. */
  lemma GotShared(v: View, w: View, g: Geometry, refs: seq<nat>, locks: set<nat>, mine: set<nat>, held: set<nat>, i: nat, b: nat)
    requires Shared(v, g, refs, locks, mine, held) && i < |v.bufs| && !g.Holds(b)
    requires forall j | 0 <= j < |v.bufs| :: v.bufs[j].refcnt == v.holders[j] + v.pins[j]
    requires w == v.(bufs := w.bufs, holders := v.holders[i := v.holders[i] + 1])
    requires (v.bufs[i].Caches(v.dev, b) && w.bufs == v.bufs[i := Referenced(v.bufs[i])])
          || (v.bufs[i].refcnt == 0 && w.bufs == v.bufs[i := Recycled(v.bufs[i], v.dev, b)])
    ensures i < |refs| && Shared(w, g, refs[i := refs[i] + 1], locks, mine, held) && Steps(v.bufs, w.bufs, v.pins, mine, held)
    ensures w.bufs[i].Caches(v.dev, b)
  {
    assert SlotShared(v.bufs[i], v.holders[i], g, refs[i], i in locks, i in mine, i in held);
  }

  lemma NoSteps(v: seq<Buf>, pins: seq<nat>, mine: set<nat>, held: set<nat>)
    requires |v| == |pins|
    ensures Steps(v, v, pins, mine, held)
  {
  }

  class Others {
    const g: Geometry
    const most: nat  // how many buffers the readers reference together at most

    var refs: seq<nat>        // per buffer, references held by readers
    var locks: set<nat>       // buffers locked by readers
    var plan: seq<seq<Act>>   // what the readers do before each of the next steps of the log

    constructor (g: Geometry, most: nat, nbuf: nat, plan: seq<seq<Act>>)
      ensures this.g == g && this.most == most && this.plan == plan
      ensures refs == seq(nbuf, i => 0) && locks == {}
    {
      this.g, this.most, this.plan := g, most, plan;
      refs, locks := seq(nbuf, i => 0), {};
    }

    /** The cache as the log sees it among the readers. */
    ghost predicate Share(c: BCache, mine: set<nat>, held: set<nat>)
      reads this, c
    {
      c.Valid() && Shared(c.Now(), g, refs, locks, mine, held) && Sum(refs) <= most
    }

    /** Buffers whose readers take no more steps. */
    ghost function Stuck(): set<nat>
      reads this
    {
      if plan == [] then locks else {}
    }

    method GetStep(c: BCache, b: nat, ghost mine: set<nat>, ghost held: set<nat>)
      requires Share(c, mine, held)
      modifies c`bufs, c`holders, this`refs
      ensures Share(c, mine, held) && Steps(old(c.bufs), c.bufs, c.pins, mine, held)
      ensures b in c.disk && !g.Holds(b) && Sum(old(refs)) < most && (exists i :: 0 <= i < c.nbuf && old(c.bufs)[i].refcnt == 0) ==>
        exists i :: 0 <= i < c.nbuf && c.bufs[i].Caches(c.dev, b) && refs == old(refs)[i := old(refs)[i] + 1]
    {
      hide View.Coherent, LruRing, Sum, Shared, Steps;
      NoSteps(c.bufs, c.pins, mine, held);
      ghost var v := c.Now();
      if b in c.disk && !g.Holds(b) && Sum(refs) < most {
        RefsCounted(v);
        var r := c.Bget(c.dev, b);
        if r.Some? {
          GotShared(v, c.Now(), g, refs, locks, mine, held, r.value, b);
          SumUpdate(refs, r.value, refs[r.value] + 1);
          refs := refs[r.value := refs[r.value] + 1];
        }
      }
    }

    method DropStep(c: BCache, i: nat, ghost mine: set<nat>, ghost held: set<nat>)
      requires Share(c, mine, held)
      modifies c`bufs, c`holders, c`next, c`prev, c`ring, c`released, c`clock, this`refs
      ensures Share(c, mine, held) && Steps(old(c.bufs), c.bufs, c.pins, mine, held)
      ensures refs == if i < |old(refs)| && old(refs)[i] > (if i in locks then 1 else 0)
              then old(refs)[i := old(refs)[i] - 1] else old(refs)
    {
      hide View.Coherent, LruRing, Sum;
      if i < c.nbuf && refs[i] > (if i in locks then 1 else 0) {
        c.Drop(i);
        SumUpdate(refs, i, refs[i] - 1);
        refs := refs[i := refs[i] - 1];
      }
    }

    method LockStep(c: BCache, i: nat, ghost mine: set<nat>, ghost held: set<nat>)
      requires Share(c, mine, held)
      modifies c`bufs, this`locks
      ensures Share(c, mine, held) && Steps(old(c.bufs), c.bufs, c.pins, mine, held)
      ensures locks == if i < |refs| && refs[i] > 0 && !old(c.bufs[i].locked) then old(locks) + {i} else old(locks)
    {
      hide View.Coherent, LruRing, Sum;
      if i < c.nbuf && refs[i] > 0 && !c.bufs[i].locked {
        c.Acquire(i);
        locks := locks + {i};
      }
    }

    method UnlockStep(c: BCache, i: nat, ghost mine: set<nat>, ghost held: set<nat>)
      requires Share(c, mine, held)
      modifies c`bufs, this`locks
      ensures Share(c, mine, held) && Steps(old(c.bufs), c.bufs, c.pins, mine, held)
      ensures locks == old(locks) - {i}
    {
      hide View.Coherent, LruRing, Sum;
      if i in locks {
        c.Unlock(i);
        locks := locks - {i};
      }
    }

    /** The disk read of bread: what a reader sees, also during a commit, are the last contents logged
        or written. */
    method ReadStep(c: BCache, i: nat, ghost mine: set<nat>, ghost held: set<nat>)
      requires Share(c, mine, held)
      modifies c`bufs
      ensures Share(c, mine, held) && Steps(old(c.bufs), c.bufs, c.pins, mine, held)
      ensures i in locks ==>
        i < c.nbuf && c.bufs[i].valid && c.bufs[i].blockno in c.logical && c.bufs[i].data == c.logical[c.bufs[i].blockno]
    {
      hide View.Coherent, LruRing, Sum;
      if i in locks {
        FillCoherent(c.Now(), i);
        c.Fill(i);
      }
    }

    /** One step of a reader, if it can be taken. It changes neither the disk nor the logical disk, no
        pin, and nothing that the log has locked. */
    method Step(c: BCache, a: Act, ghost mine: set<nat>, ghost held: set<nat>)
      requires Share(c, mine, held)
      modifies c`bufs, c`holders, c`next, c`prev, c`ring, c`released, c`clock, this`refs, this`locks
      ensures Share(c, mine, held) && Steps(old(c.bufs), c.bufs, c.pins, mine, held)
      ensures a.Lock? || a.Unlock? || a.Read? ==> refs == old(refs)
      ensures a.Get? || a.Drop? || a.Read? ==> locks == old(locks)
      ensures a.Unlock? ==> a.i !in locks
      ensures a.Lock? && a.i < |refs| && refs[a.i] > 0 && !old(c.bufs)[a.i].locked ==> a.i in locks
      ensures a.Drop? && a.i < |refs| && old(refs)[a.i] > 0 && a.i !in locks ==> refs == old(refs)[a.i := old(refs)[a.i] - 1]
      ensures a.Read? && a.i in locks ==> a.i < c.nbuf && c.bufs[a.i].valid
    {
      hide BCache.Valid, Shared, Steps;
      match a
      case Get(b) => GetStep(c, b, mine, held);
      case Lock(i) => LockStep(c, i, mine, held);
      case Read(i) => ReadStep(c, i, mine, held);
      case Unlock(i) => UnlockStep(c, i, mine, held);
      case Drop(i) => DropStep(c, i, mine, held);
    }

    /** What the readers do before the log's next step. */
    method Run(c: BCache, ghost mine: set<nat>, ghost held: set<nat>)
      requires Share(c, mine, held)
      modifies c`bufs, c`holders, c`next, c`prev, c`ring, c`released, c`clock, this
      ensures Share(c, mine, held) && Steps(old(c.bufs), c.bufs, c.pins, mine + old(Stuck()), held)
      ensures if old(plan) == [] then plan == [] && refs == old(refs) && locks == old(locks) else plan == old(plan)[1..]
      ensures old(plan) == [] ==> c.bufs == old(c.bufs)
    {
      hide View.Coherent, LruRing, SlotShared, Sum;
      NoSteps(c.bufs, c.pins, mine + Stuck(), held);
      if plan == [] {
        return;
      }
      var acts := plan[0];
      plan := plan[1..];
      var k := 0;
      assert mine + {} == mine;
      while k < |acts|
        invariant 0 <= k <= |acts| && plan == old(plan)[1..]
        invariant Share(c, mine, held) && Steps(old(c.bufs), c.bufs, c.pins, mine, held)
      {
        ghost var v := c.bufs;
        Step(c, acts[k], mine, held);
        k := k + 1;
      }
    }
  }

  /** What a bread by the log comes to: a locked buffer, a wait for a reader that keeps the buffer
      locked and takes no more steps, or the panic for lack of buffers. */
  datatype Got = Buffer(i: nat) | Waits(i: nat) | NoBuffers

  /** The readers' references and locks stay as they are if they take no more steps. */
  twostate predicate Still(o: Others)
    reads o
  {
    old(o.plan) == [] ==> o.plan == [] && o.refs == old(o.refs) && o.locks == old(o.locks)
  }

  /** bget up to acquiresleep, by the log. */
  method Grab(c: BCache, o: Others, b: nat, ghost mine: set<nat>, ghost held: set<nat>) returns (r: Option<nat>)
    requires o.Share(c, mine, held) && b in c.disk && forall i <- mine :: i < c.nbuf && !c.bufs[i].Caches(c.dev, b)
    modifies c`bufs, c`holders
    ensures Steps(old(c.bufs), c.bufs, c.pins, mine + o.locks, held)
    ensures r.None? ==> o.Share(c, mine, held) && c.bufs == old(c.bufs)
    ensures r.Some? ==>
      var i := r.value;
      i < c.nbuf && i !in mine && i !in held && c.bufs[i].Caches(c.dev, b) && o.Share(c, mine + {i}, held)
    ensures r.None? <==> forall i | 0 <= i < c.nbuf :: !old(c.bufs)[i].Caches(c.dev, b) && old(c.bufs)[i].refcnt > 0
  {
    hide View.Coherent, LruRing, Sum;
    RefsCounted(c.Now());
    r := c.Bget(c.dev, b);
  }

  /** The same, after steps of readers. */
  method Take(c: BCache, o: Others, b: nat, ghost mine: set<nat>, ghost held: set<nat>) returns (r: Option<nat>)
    requires o.Share(c, mine, held) && b in c.disk && forall i <- mine :: i < c.nbuf && !c.bufs[i].Caches(c.dev, b)
    modifies c`bufs, c`holders, c`next, c`prev, c`ring, c`released, c`clock, o
    ensures Still(o) && Steps(old(c.bufs), c.bufs, c.pins, mine + old(o.Stuck()), held)
    ensures r.None? ==> o.Share(c, mine, held) && forall i | 0 <= i < c.nbuf :: !c.bufs[i].Caches(c.dev, b) && c.bufs[i].refcnt > 0
    ensures r.Some? ==>
      var i := r.value;
      i < c.nbuf && i !in mine && i !in held && c.bufs[i].Caches(c.dev, b) && o.Share(c, mine + {i}, held)
    ensures old(o.plan) == [] ==>
      (r.None? <==> forall i | 0 <= i < c.nbuf :: !old(c.bufs)[i].Caches(c.dev, b) && old(c.bufs)[i].refcnt > 0)
  {
    hide View.Coherent, LruRing, SlotShared, Sum;
    o.Run(c, mine, held);
    r := Grab(c, o, b, mine, held);
  }

  /** acquiresleep: wait until no reader has the buffer locked. */
  method Await(c: BCache, o: Others, i: nat, ghost mine: set<nat>, ghost held: set<nat>) returns (ok: bool)
    requires o.Share(c, mine, held) && i in mine && i !in held
    modifies c`bufs, c`holders, c`next, c`prev, c`ring, c`released, c`clock, o
    ensures Still(o) && Steps(old(c.bufs), c.bufs, c.pins, mine + old(o.Stuck()), held)
    ensures i < c.nbuf && o.Share(c, mine, if ok then held + {i} else held)
    ensures !ok ==> i in o.locks && o.plan == []
    ensures ok ==> i !in c.dirty
    ensures old(o.plan) == [] ==> (ok <==> i !in old(o.locks))
  {
    hide View.Coherent, LruRing, SlotShared, Sum;
    LockedByReader(c, o, i, mine, held);
    o.Run(c, mine, held);
    while c.bufs[i].locked && o.plan != []
      invariant Still(o) && o.Share(c, mine, held) && Steps(old(c.bufs), c.bufs, c.pins, mine + old(o.Stuck()), held)
      invariant old(o.plan) == [] ==> c.bufs == old(c.bufs)
      decreases |o.plan|
    {
      o.Run(c, mine, held);
    }
    ok := !c.bufs[i].locked;
    if ok {
      AcquireOwn(c, o, i, mine, held);
    } else {
      LockedByReader(c, o, i, mine, held);
    }
  }

  lemma LockedByReader(c: BCache, o: Others, i: nat, mine: set<nat>, held: set<nat>)
    requires o.Share(c, mine, held) && i in mine && i !in held
    ensures i < |c.bufs| && (c.bufs[i].locked <==> i in o.locks)
  {
  }

  method AcquireOwn(c: BCache, o: Others, i: nat, ghost mine: set<nat>, ghost held: set<nat>)
    requires o.Share(c, mine, held) && i in mine && i < c.nbuf && !c.bufs[i].locked
    modifies c`bufs
    ensures o.Share(c, mine, held + {i}) && i !in c.dirty && Steps(old(c.bufs), c.bufs, c.pins, mine + o.locks, held)
  {
    hide View.Coherent, LruRing, Sum;
    c.Acquire(i);
  }

  /** The rest of bread: acquiresleep and the disk read. */
  method Obtain(c: BCache, o: Others, i: nat, ghost mine: set<nat>, ghost held: set<nat>) returns (ok: bool)
    requires o.Share(c, mine, held) && i in mine && i !in held && i < c.nbuf && c.bufs[i].blockno in c.logical
    modifies c`bufs, c`holders, c`next, c`prev, c`ring, c`released, c`clock, o
    ensures Still(o) && Steps(old(c.bufs), c.bufs, c.pins, mine + old(o.Stuck()), held)
    ensures o.Share(c, mine, if ok then held + {i} else held)
    ensures !ok ==> i in o.locks && o.plan == []
    ensures ok ==>
      && i !in c.dirty && c.bufs[i].valid && c.bufs[i].data == c.logical[c.bufs[i].blockno]
      && forall k <- o.locks :: k < c.nbuf && !c.bufs[k].Caches(c.bufs[i].dev, c.bufs[i].blockno)
  {
    hide View.Coherent, LruRing, Shared, Sum;
    ok := Await(c, o, i, mine, held);
    if ok {
      o.Run(c, mine, held + {i});
      FillAmong(c, o, i, mine, held + {i});
      NotLocked(c, o, i, mine, held + {i});
    }
  }

  /** bread by the log, with steps of readers before and between its own. */
  method BreadAmong(c: BCache, o: Others, b: nat, ghost mine: set<nat>, ghost held: set<nat>) returns (r: Got)
    requires o.Share(c, mine, held) && b in c.disk && b in c.logical
    requires forall i <- mine :: i < c.nbuf && !c.bufs[i].Caches(c.dev, b)
    modifies c`bufs, c`holders, c`next, c`prev, c`ring, c`released, c`clock, o
    ensures Still(o) && Steps(old(c.bufs), c.bufs, c.pins, mine + old(o.Stuck()), held)
    ensures r.NoBuffers? ==>
      o.Share(c, mine, held) && forall i | 0 <= i < c.nbuf :: !c.bufs[i].Caches(c.dev, b) && c.bufs[i].refcnt > 0
    ensures r.Waits? ==>
      r.i < c.nbuf && c.bufs[r.i].Caches(c.dev, b) && r.i in o.locks && o.plan == [] && o.Share(c, mine + {r.i}, held)
    ensures r.Buffer? ==>
      && r.i < c.nbuf && r.i !in mine && r.i !in c.dirty && o.Share(c, mine + {r.i}, held + {r.i})
      && c.bufs[r.i].valid && c.bufs[r.i].Caches(c.dev, b) && c.bufs[r.i].data == c.logical[b]
      && forall k <- o.locks :: k < c.nbuf && !c.bufs[k].Caches(c.dev, b)
    ensures old(o.plan) == [] ==>
      (r.NoBuffers? <==> forall i | 0 <= i < c.nbuf :: !old(c.bufs)[i].Caches(c.dev, b) && old(c.bufs)[i].refcnt > 0)
  {
    hide View.Coherent, LruRing, Shared, Sum;
    var t := Take(c, o, b, mine, held);
    if t.None? {
      return NoBuffers;
    }
    var ok := Obtain(c, o, t.value, mine + {t.value}, held);
    return if ok then Buffer(t.value) else Waits(t.value);
  }

  /** The one buffer of a block is locked by the log or by a reader, not by both. */
  lemma NotLocked(c: BCache, o: Others, i: nat, mine: set<nat>, held: set<nat>)
    requires o.Share(c, mine, held) && i in held && i < c.nbuf
    ensures forall k <- o.locks :: k < c.nbuf && !c.bufs[k].Caches(c.bufs[i].dev, c.bufs[i].blockno)
  {
    forall k <- o.locks ensures k < c.nbuf && !c.bufs[k].Caches(c.bufs[i].dev, c.bufs[i].blockno) {
      assert k != i;
    }
  }

  method FillAmong(c: BCache, o: Others, i: nat, ghost mine: set<nat>, ghost held: set<nat>)
    requires o.Share(c, mine, held) && i in held && i < c.nbuf && i !in c.dirty && c.bufs[i].blockno in c.logical
    modifies c`bufs
    ensures o.Share(c, mine, held) && c.bufs[i].valid && c.bufs[i].data == c.logical[c.bufs[i].blockno]
    ensures Steps(old(c.bufs), c.bufs, c.pins, mine + o.Stuck(), held - {i})
    ensures c.bufs[i].Caches(old(c.bufs)[i].dev, old(c.bufs)[i].blockno)
  {
    hide View.Coherent, LruRing, Sum;
    c.Fill(i);
  }

  method UnlockOwn(c: BCache, o: Others, i: nat, ghost mine: set<nat>, ghost held: set<nat>)
    requires o.Share(c, mine, held) && i in held && i !in c.dirty
    modifies c`bufs
    ensures o.Share(c, mine, held - {i}) && Steps(old(c.bufs), c.bufs, c.pins, mine + o.locks, held - {i})
  {
    hide View.Coherent, LruRing, Sum;
    c.Unlock(i);
  }

  method DropOwn(c: BCache, o: Others, i: nat, ghost mine: set<nat>, ghost held: set<nat>)
    requires o.Share(c, mine, held) && i in mine && i !in held
    modifies c`bufs, c`holders, c`next, c`prev, c`ring, c`released, c`clock
    ensures o.Share(c, mine - {i}, held) && Steps(old(c.bufs), c.bufs, c.pins, mine + o.locks, held)
  {
    hide View.Coherent, LruRing, Sum;
    c.Drop(i);
  }

  /** brelse by the log: readers may take steps between its two halves. */
  method BrelseAmong(c: BCache, o: Others, i: nat, ghost mine: set<nat>, ghost held: set<nat>)
    requires o.Share(c, mine, held) && i in mine && i in held && i !in c.dirty
    modifies c`bufs, c`holders, c`next, c`prev, c`ring, c`released, c`clock, o
    ensures Still(o) && Steps(old(c.bufs), c.bufs, c.pins, mine + old(o.Stuck()), held - {i})
    ensures o.Share(c, mine - {i}, held - {i})
  {
    hide BCache.Valid, Shared, Sum;
    o.Run(c, mine, held);
    UnlockOwn(c, o, i, mine, held);
    o.Run(c, mine, held - {i});
    DropOwn(c, o, i, mine, held - {i});
  }

  /** The log puts contents into a buffer it has locked and writes them to the disk. */
  method StoreAmong(c: BCache, o: Others, i: nat, data: Block, ghost mine: set<nat>, ghost held: set<nat>)
    requires o.Share(c, mine, held) && i in mine && i in held && i < c.nbuf && c.bufs[i].valid && c.dirty == {}
    modifies c`bufs, c`holders, c`next, c`prev, c`ring, c`released, c`clock, c`disk, c`logical, c`dirty, c`trace, o
    ensures Still(o) && Steps(old(c.bufs), c.bufs, c.pins, mine + old(o.Stuck()), held - {i})
    ensures o.Share(c, mine, held) && c.dirty == {}
    ensures var b := old(c.bufs)[i].blockno;
      && c.disk == old(c.disk)[b := data] && c.logical == old(c.logical)[b := data]
      && c.trace == old(c.trace) + [Write(b, data)]
  {
    hide View.Coherent, LruRing, Shared, Sum;
    o.Run(c, mine, held);
    ModifyOwn(c, o, i, data, mine, held);
    o.Run(c, mine, held);
    WriteOwn(c, o, i, mine, held);
  }

  method ModifyOwn(c: BCache, o: Others, i: nat, data: Block, ghost mine: set<nat>, ghost held: set<nat>)
    requires o.Share(c, mine, held) && i in held && i < c.nbuf && c.bufs[i].valid
    modifies c`bufs, c`dirty
    ensures o.Share(c, mine, held) && c.dirty == old(c.dirty) + {i}
    ensures c.bufs == old(c.bufs)[i := old(c.bufs)[i].(data := data)]
  {
    hide View.Coherent, LruRing, Sum;
    c.Modify(i, data);
  }

  method WriteOwn(c: BCache, o: Others, i: nat, ghost mine: set<nat>, ghost held: set<nat>)
    requires o.Share(c, mine, held) && i in held && i < c.nbuf && c.bufs[i].valid
    modifies c`disk, c`logical, c`dirty, c`trace
    ensures o.Share(c, mine, held) && c.dirty == old(c.dirty) - {i}
    ensures c.disk == old(c.disk)[c.bufs[i].blockno := c.bufs[i].data]
    ensures c.logical == old(c.logical)[c.bufs[i].blockno := c.bufs[i].data]
    ensures c.trace == old(c.trace) + [Write(c.bufs[i].blockno, c.bufs[i].data)]
  {
    hide View.Coherent, LruRing, Sum;
    c.Bwrite(i);
  }

  method UnpinOwn(c: BCache, o: Others, i: nat, ghost mine: set<nat>, ghost held: set<nat>)
    requires o.Share(c, mine, held) && i < c.nbuf && c.pins[i] > 0
    requires c.bufs[i].blockno in c.disk && c.bufs[i].blockno in c.logical
    requires c.disk[c.bufs[i].blockno] == c.logical[c.bufs[i].blockno]
    modifies c`bufs, c`pins
    ensures o.Share(c, mine, held) && c.pins == old(c.pins)[i := old(c.pins)[i] - 1]
    ensures Steps(old(c.bufs), c.bufs, c.pins, mine + o.locks + {i}, held) && Steps(old(c.bufs), c.bufs, old(c.pins), {}, {})
  {
    hide View.Coherent, LruRing, Sum;
    c.Bunpin(i);
  }
}
