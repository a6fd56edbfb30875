/** The writes that commit and recovery issue, and what survives a crash.
    Everything here is about sequences of block writes; Log.dfy proves that the
    kernel's commit and recovery issue exactly these. */
module Crash {
  import opened Disk

  /** The log occupies blocks start .. start+size-1; block start is its header. */
  datatype Geometry = Geometry(start: nat, size: nat) {
    predicate Holds(b: nat) { start <= b < start + size }
    function Slot(k: nat): nat { start + 1 + k }
  }

  /** A transaction: the in-memory header (n entries of block[] are in use) and the
      contents the cache holds for the logged blocks. */
  datatype Tx = Tx(n: nat, block: seq<nat>, view: Image) {
    ghost predicate Valid(g: Geometry, disk: Image)
    {
      && n <= |block|
      && n < g.size
      && (forall k | 0 <= k < n :: block[k] in disk && block[k] in view && !g.Holds(block[k]))
      && (forall b | g.Holds(b) :: b in disk)
    }

    /** The disk with the whole transaction applied. */
    ghost function Overlay(disk: Image): Image
      requires n <= |block|
      requires forall k | 0 <= k < n :: block[k] in view
    {
      map b | b in disk :: if b in block[..n] then view[b] else disk[b]
    }
  }

  ghost predicate CleanHead(g: Geometry, disk: Image, len: nat)
  {
    g.start in disk && disk[g.start].Head? && disk[g.start].n == 0 && |disk[g.start].block| == len
  }

  /** write_head: the first n entries are replaced, the rest of the buffer is left as it was. */
  function NewHead(prior: Block, n: nat, block: seq<nat>): (h: Block)
    requires prior.Head? && n <= |block| && n <= |prior.block|
  {
    Head(n, block[..n] + prior.block[n..])
  }

  function SlotWrites(g: Geometry, tx: Tx): (ws: seq<Write>)
    requires tx.n <= |tx.block| && forall k | 0 <= k < tx.n :: tx.block[k] in tx.view
  {
    seq(tx.n, k requires 0 <= k < tx.n => Write(g.Slot(k), tx.view[tx.block[k]]))
  }

  lemma SlotWritesAre(g: Geometry, tx: Tx)
    requires tx.n <= |tx.block| && forall k | 0 <= k < tx.n :: tx.block[k] in tx.view
    ensures |SlotWrites(g, tx)| == tx.n
    ensures forall k | 0 <= k < tx.n :: SlotWrites(g, tx)[k] == Write(g.Slot(k), tx.view[tx.block[k]])
  {
  }

  function InstallWrites(g: Geometry, n: nat, block: seq<nat>, disk: Image): (ws: seq<Write>)
    requires n <= |block| && forall k | 0 <= k < n :: g.Slot(k) in disk
  {
    seq(n, k requires 0 <= k < n => Write(block[k], disk[g.Slot(k)]))
  }

  lemma InstallWritesAre(g: Geometry, n: nat, block: seq<nat>, disk: Image)
    requires n <= |block| && forall k | 0 <= k < n :: g.Slot(k) in disk
    ensures |InstallWrites(g, n, block, disk)| == n
    ensures forall k | 0 <= k < n :: InstallWrites(g, n, block, disk)[k] == Write(block[k], disk[g.Slot(k)])
  {
  }

  function HomeWrites(tx: Tx): (ws: seq<Write>)
    requires tx.n <= |tx.block| && forall k | 0 <= k < tx.n :: tx.block[k] in tx.view
  {
    seq(tx.n, k requires 0 <= k < tx.n => Write(tx.block[k], tx.view[tx.block[k]]))
  }

  /** commit(): log blocks, header, home blocks, cleared header. */
  ghost function CommitWrites(g: Geometry, tx: Tx, disk: Image): (ws: seq<Write>)
    requires tx.Valid(g, disk)
    requires CleanHead(g, disk, |tx.block|)
  {
    if tx.n == 0 then []
    else
      var h := NewHead(disk[g.start], tx.n, tx.block);
      SlotWrites(g, tx) + [Write(g.start, h)] + HomeWrites(tx) + [Write(g.start, NewHead(h, 0, tx.block))]
  }

  /** The header on this disk is one that recovery can follow. */
  ghost predicate Recoverable(g: Geometry, disk: Image)
  {
    && g.start in disk && disk[g.start].Head?
    && disk[g.start].n <= |disk[g.start].block|
    && disk[g.start].n < g.size
    && (forall k | 0 <= k < disk[g.start].n :: g.Slot(k) in disk)
  }

  /** recover_from_log(): install what the header names, then clear the header. */
  ghost function RecoverWrites(g: Geometry, disk: Image): (ws: seq<Write>)
    requires Recoverable(g, disk)
  {
    var h := disk[g.start];
    InstallWrites(g, h.n, h.block, disk) + [Write(g.start, NewHead(h, 0, h.block))]
  }

  /** A recovery that itself crashes after k writes. */
  ghost function Interrupted(g: Geometry, disk: Image, k: nat): (d: Image)
    requires Recoverable(g, disk)
  {
    var ws := RecoverWrites(g, disk);
    Apply(disk, if k < |ws| then ws[..k] else ws)
  }

  ghost predicate SameHome(g: Geometry, d: Image, e: Image)
  {
    && d.Keys == e.Keys
    && forall b | b in d && !g.Holds(b) :: d[b] == e[b]
  }

  /** Redoing what the header names (possibly nothing) gives the home blocks of target. */
  ghost predicate Redoable(g: Geometry, disk: Image, len: nat, target: Image)
  {
    && Recoverable(g, disk)
    && disk.Keys == target.Keys
    && var h := disk[g.start];
    && |h.block| == len
    && (forall k | 0 <= k < h.n ::
          h.block[k] in target && !g.Holds(h.block[k]) && disk[g.Slot(k)] == target[h.block[k]])
    && (forall b | b in disk && !g.Holds(b) && b !in h.block[..h.n] :: disk[b] == target[b])
  }

  /** While installing, the log stays intact and the first j home blocks have their new contents. */
  lemma {:induction false} InstallPrefix(g: Geometry, disk: Image, len: nat, target: Image, j: nat)
    requires Redoable(g, disk, len, target)
    requires j <= disk[g.start].n
    ensures var h := disk[g.start];
      var d := Apply(disk, InstallWrites(g, h.n, h.block, disk)[..j]);
      && Redoable(g, d, len, target)
      && d[g.start] == h
      && forall k | 0 <= k < j :: d[h.block[k]] == target[h.block[k]]
  {
    if j > 0 {
      InstallPrefix(g, disk, len, target, j - 1);
      var h := disk[g.start];
      var ws := InstallWrites(g, h.n, h.block, disk);
      assert ws[..j][..j - 1] == ws[..j - 1];
    }
  }

  /** A recovery cut short by a crash can be redone, and one that is not cut short is done. */
  lemma InterruptedRedoable(g: Geometry, disk: Image, len: nat, target: Image, k: nat)
    requires Redoable(g, disk, len, target)
    ensures Redoable(g, Interrupted(g, disk, k), len, target)
    ensures k > disk[g.start].n ==>
              CleanHead(g, Interrupted(g, disk, k), len) && SameHome(g, Interrupted(g, disk, k), target)
  {
    var h := disk[g.start];
    var ins := InstallWrites(g, h.n, h.block, disk);
    var ws := RecoverWrites(g, disk);
    if k <= h.n {
      InstallPrefix(g, disk, len, target, k);
      assert ws[..k] == ins[..k];
    } else {
      InstallPrefix(g, disk, len, target, h.n);
      assert ins[..h.n] == ins;
      assert ws[..|ws| - 1] == ins;
    }
  }

  /** Any number of recoveries, the i-th crashing after ks[i] writes. */
  ghost predicate CrashedRecoveries(g: Geometry, disk: Image, ks: seq<nat>, d: Image)
    decreases |ks|
  {
    if ks == [] then d == disk
    else Recoverable(g, disk) && CrashedRecoveries(g, Interrupted(g, disk, ks[0]), ks[1..], d)
  }

  lemma {:induction false} CrashedRecoveriesRedoable(g: Geometry, disk: Image, len: nat, target: Image, ks: seq<nat>, d: Image)
    requires Redoable(g, disk, len, target)
    requires CrashedRecoveries(g, disk, ks, d)
    ensures Redoable(g, d, len, target)
    decreases |ks|
  {
    if ks != [] {
      InterruptedRedoable(g, disk, len, target, ks[0]);
      CrashedRecoveriesRedoable(g, Interrupted(g, disk, ks[0]), len, target, ks[1..], d);
    }
  }

  /** Before the header is written, only log slots have changed. */
  lemma {:induction false} SlotPrefix(g: Geometry, tx: Tx, disk: Image, p: nat)
    requires tx.Valid(g, disk) && CleanHead(g, disk, |tx.block|)
    requires p <= tx.n
    ensures var d := Apply(disk, SlotWrites(g, tx)[..p]);
      && SameHome(g, d, disk)
      && d[g.start] == disk[g.start]
      && forall k | 0 <= k < p :: d[g.Slot(k)] == tx.view[tx.block[k]]
  {
    if p > 0 {
      SlotPrefix(g, tx, disk, p - 1);
      assert SlotWrites(g, tx)[..p][..p - 1] == SlotWrites(g, tx)[..p - 1];
    }
  }

  /** The disk right after the header write, the point at which the transaction commits. */
  ghost function AtHeader(g: Geometry, tx: Tx, disk: Image): (d: Image)
    requires tx.Valid(g, disk) && CleanHead(g, disk, |tx.block|)
  {
    Apply(disk, SlotWrites(g, tx))[g.start := NewHead(disk[g.start], tx.n, tx.block)]
  }

  /** The disk right after the header write says what the transaction says. */
  lemma AtHeaderIs(g: Geometry, tx: Tx, disk: Image)
    requires tx.Valid(g, disk) && CleanHead(g, disk, |tx.block|)
    ensures var d, h := AtHeader(g, tx, disk), NewHead(disk[g.start], tx.n, tx.block);
      && g.start in d && d[g.start] == h && h.block[..h.n] == tx.block[..tx.n] && SameHome(g, d, disk)
      && forall k | 0 <= k < tx.n :: g.Slot(k) in d && d[g.Slot(k)] == tx.view[tx.block[k]]
  {
    SlotPrefix(g, tx, disk, tx.n);
    assert SlotWrites(g, tx)[..tx.n] == SlotWrites(g, tx);
  }

  /** What recovery would install from it is what commit installs. */
  lemma SameInstall(g: Geometry, tx: Tx, disk: Image)
    requires tx.Valid(g, disk) && CleanHead(g, disk, |tx.block|)
    ensures var d := AtHeader(g, tx, disk);
      && g.start in d && d[g.start].Head? && d[g.start].n <= |d[g.start].block|
      && (forall k | 0 <= k < d[g.start].n :: g.Slot(k) in d)
      && InstallWrites(g, d[g.start].n, d[g.start].block, d) == HomeWrites(tx)
  {
    AtHeaderIs(g, tx, disk);
    hide AtHeader, SameHome;
    var d, h := AtHeader(g, tx, disk), NewHead(disk[g.start], tx.n, tx.block);
    forall k | 0 <= k < tx.n ensures h.block[k] == tx.block[k] {
      assert h.block[k] == h.block[..h.n][k];
    }
  }

  /** From its header write on, commit issues what recovery would issue. */
  lemma CommitEndsInRecovery(g: Geometry, tx: Tx, disk: Image)
    requires tx.Valid(g, disk) && CleanHead(g, disk, |tx.block|)
    requires tx.n > 0
    ensures Redoable(g, AtHeader(g, tx, disk), |tx.block|, tx.Overlay(disk))
    ensures CommitWrites(g, tx, disk) ==
            SlotWrites(g, tx) + [Write(g.start, NewHead(disk[g.start], tx.n, tx.block))] +
            RecoverWrites(g, AtHeader(g, tx, disk))
  {
    AtHeaderIs(g, tx, disk);
    SameInstall(g, tx, disk);
    hide AtHeader, SlotWrites, HomeWrites, InstallWrites;
    var d, h := AtHeader(g, tx, disk), NewHead(disk[g.start], tx.n, tx.block);
    HeaderRedoable(g, tx, disk, d, h);
    assert NewHead(h, 0, h.block) == NewHead(h, 0, tx.block);
    SeqAssoc(SlotWrites(g, tx) + [Write(g.start, h)], HomeWrites(tx), [Write(g.start, NewHead(h, 0, tx.block))]);
  }

  lemma SeqAssoc(a: seq<Write>, b: seq<Write>, c: seq<Write>)
    ensures a + b + c == a + (b + c)
  {
  }

  lemma HeaderRedoable(g: Geometry, tx: Tx, disk: Image, d: Image, h: Block)
    requires tx.Valid(g, disk) && CleanHead(g, disk, |tx.block|) && h == NewHead(disk[g.start], tx.n, tx.block)
    requires g.start in d && d[g.start] == h && h.block[..h.n] == tx.block[..tx.n] && SameHome(g, d, disk)
    requires forall k | 0 <= k < tx.n :: g.Slot(k) in d && d[g.Slot(k)] == tx.view[tx.block[k]]
    ensures Redoable(g, d, |tx.block|, tx.Overlay(disk))
  {
    forall k | 0 <= k < tx.n ensures h.block[k] == tx.block[k] && tx.block[k] in tx.block[..tx.n] {
      assert h.block[k] == h.block[..h.n][k];
    }
  }

  /** The disk after the header write and k writes of what follows. */
  lemma AfterHeader(g: Geometry, tx: Tx, disk: Image, k: nat)
    requires tx.Valid(g, disk) && CleanHead(g, disk, |tx.block|) && tx.n > 0
    requires tx.n + 1 + k <= |CommitWrites(g, tx, disk)|
    ensures Redoable(g, AtHeader(g, tx, disk), |tx.block|, tx.Overlay(disk))
    ensures |CommitWrites(g, tx, disk)| == tx.n + 1 + |RecoverWrites(g, AtHeader(g, tx, disk))|
    ensures Apply(disk, CommitWrites(g, tx, disk)[..tx.n + 1 + k]) == Interrupted(g, AtHeader(g, tx, disk), k)
  {
    hide CommitWrites, RecoverWrites;
    CommitEndsInRecovery(g, tx, disk);
    hide Redoable;
    var ws, d := CommitWrites(g, tx, disk), AtHeader(g, tx, disk);
    var first := SlotWrites(g, tx) + [Write(g.start, NewHead(disk[g.start], tx.n, tx.block))];
    assert first[..|first| - 1] == SlotWrites(g, tx);
    assert Apply(disk, first) == d;
    var rw := RecoverWrites(g, d);
    assert rw[..|rw|] == rw;
    assert ws[..tx.n + 1 + k] == first + rw[..k];
    ApplyConcat(disk, first, rw[..k]);
  }

  lemma CommitSize(g: Geometry, tx: Tx, disk: Image)
    requires tx.Valid(g, disk) && CleanHead(g, disk, |tx.block|)
    ensures tx.n == 0 ==> |CommitWrites(g, tx, disk)| == 0
  {
  }

  lemma CommitPrefixRedoable(g: Geometry, tx: Tx, disk: Image, p: nat)
    requires tx.Valid(g, disk) && CleanHead(g, disk, |tx.block|)
    requires p <= |CommitWrites(g, tx, disk)|
    ensures Redoable(g, Apply(disk, CommitWrites(g, tx, disk)[..p]), |tx.block|,
                     if p <= tx.n then disk else tx.Overlay(disk))
    ensures p == |CommitWrites(g, tx, disk)| ==>
              var d := Apply(disk, CommitWrites(g, tx, disk)[..p]);
              CleanHead(g, d, |tx.block|) && SameHome(g, d, tx.Overlay(disk))
  {
    hide CommitWrites, Apply, AtHeader, Redoable;
    if p <= tx.n {
      BeforeHeader(g, tx, disk, p);
    } else {
      CommitSize(g, tx, disk);
      AfterHeader(g, tx, disk, p - tx.n - 1);
      InterruptedRedoable(g, AtHeader(g, tx, disk), |tx.block|, tx.Overlay(disk), p - tx.n - 1);
    }
  }

  lemma BeforeHeader(g: Geometry, tx: Tx, disk: Image, p: nat)
    requires tx.Valid(g, disk) && CleanHead(g, disk, |tx.block|)
    requires p <= |CommitWrites(g, tx, disk)| && p <= tx.n
    ensures Redoable(g, Apply(disk, CommitWrites(g, tx, disk)[..p]), |tx.block|, disk)
    ensures p == |CommitWrites(g, tx, disk)| ==>
              var d := Apply(disk, CommitWrites(g, tx, disk)[..p]);
              CleanHead(g, d, |tx.block|) && SameHome(g, d, tx.Overlay(disk))
  {
    if tx.n > 0 {
      SlotPrefix(g, tx, disk, p);
      assert CommitWrites(g, tx, disk)[..p] == SlotWrites(g, tx)[..p];
    }
  }

  /** Crash atomicity of one commit: stop after any p of its writes, let any number of recoveries
      crash after any number of their writes, and let one recovery finish. The home blocks are then
      the old ones if the header had not been written, and those of the whole transaction otherwise. */
  lemma CrashAtomicity(g: Geometry, tx: Tx, disk: Image, p: nat, ks: seq<nat>, crashed: Image)
    requires tx.Valid(g, disk) && CleanHead(g, disk, |tx.block|)
    requires p <= |CommitWrites(g, tx, disk)|
    requires CrashedRecoveries(g, Apply(disk, CommitWrites(g, tx, disk)[..p]), ks, crashed)
    ensures Recoverable(g, crashed)
    ensures var d := Apply(crashed, RecoverWrites(g, crashed));
      && CleanHead(g, d, |tx.block|)
      && SameHome(g, d, if p <= tx.n then disk else tx.Overlay(disk))
  {
    var target := if p <= tx.n then disk else tx.Overlay(disk);
    CommitPrefixRedoable(g, tx, disk, p);
    CrashedRecoveriesRedoable(g, Apply(disk, CommitWrites(g, tx, disk)[..p]), |tx.block|, target, ks, crashed);
    InterruptedRedoable(g, crashed, |tx.block|, target, |RecoverWrites(g, crashed)|);
  }

  lemma CommitCompletes(g: Geometry, tx: Tx, disk: Image)
    requires tx.Valid(g, disk) && CleanHead(g, disk, |tx.block|)
    ensures var d := Apply(disk, CommitWrites(g, tx, disk));
      CleanHead(g, d, |tx.block|) && SameHome(g, d, tx.Overlay(disk))
  {
    var ws := CommitWrites(g, tx, disk);
    CommitPrefixRedoable(g, tx, disk, |ws|);
    assert ws[..|ws|] == ws;
  }

  /** disks[i + 1] is what committing txs[i] makes of disks[i]. */
  ghost predicate Run(g: Geometry, len: nat, txs: seq<Tx>, disks: seq<Image>)
  {
    && |disks| == |txs| + 1
    && CleanHead(g, disks[0], len)
    && forall i | 0 <= i < |txs| ::
         && |txs[i].block| == len
         && txs[i].Valid(g, disks[i])
         && (CleanHead(g, disks[i], len) ==> disks[i + 1] == Apply(disks[i], CommitWrites(g, txs[i], disks[i])))
  }

  /** The disk with whole transactions applied in order. */
  ghost function After(disk: Image, txs: seq<Tx>): (d: Image)
    requires forall tx <- txs :: tx.n <= |tx.block| && forall k | 0 <= k < tx.n :: tx.block[k] in tx.view
  {
    if txs == [] then disk else txs[|txs| - 1].Overlay(After(disk, txs[..|txs| - 1]))
  }

  /** Between commits the log is empty and the home blocks are those of the committed transactions. */
  lemma {:induction false} RunCommits(g: Geometry, len: nat, txs: seq<Tx>, disks: seq<Image>, i: nat)
    requires Run(g, len, txs, disks) && i <= |txs|
    ensures CleanHead(g, disks[i], len)
    ensures SameHome(g, disks[i], After(disks[0], txs[..i]))
  {
    if i > 0 {
      RunCommits(g, len, txs, disks, i - 1);
      CommitCompletes(g, txs[i - 1], disks[i - 1]);
      assert txs[..i][..i - 1] == txs[..i - 1];
    }
  }

  /** Crash atomicity of a whole run: crash after any p writes of the i-th commit, let any number of
      recoveries crash, and let one finish. What is left is a whole number of transactions, namely
      those whose header had been written. */
  lemma RunAtomicity(g: Geometry, len: nat, txs: seq<Tx>, disks: seq<Image>, i: nat, p: nat, ks: seq<nat>, crashed: Image)
    requires Run(g, len, txs, disks) && i < |txs|
    requires CleanHead(g, disks[i], len) && p <= |CommitWrites(g, txs[i], disks[i])|
    requires CrashedRecoveries(g, Apply(disks[i], CommitWrites(g, txs[i], disks[i])[..p]), ks, crashed)
    ensures Recoverable(g, crashed)
    ensures var d := Apply(crashed, RecoverWrites(g, crashed));
      && CleanHead(g, d, len)
      && SameHome(g, d, After(disks[0], txs[..if p <= txs[i].n then i else i + 1]))
  {
    RunCommits(g, len, txs, disks, i);
    CrashAtomicity(g, txs[i], disks[i], p, ks, crashed);
    assert txs[..i + 1][..i] == txs[..i];
  }

  /** No home block reaches the disk before the header that names it: up to and including the
      header, commit writes only inside the log. */
  lemma HeaderFirst(g: Geometry, tx: Tx, disk: Image, p: nat)
    requires tx.Valid(g, disk) && CleanHead(g, disk, |tx.block|)
    requires p < |CommitWrites(g, tx, disk)| && !g.Holds(CommitWrites(g, tx, disk)[p].blockno)
    ensures tx.n < p
    ensures CommitWrites(g, tx, disk)[tx.n].blockno == g.start
    ensures var h := CommitWrites(g, tx, disk)[tx.n].contents;
      h.Head? && h.n == tx.n && h.block[..h.n] == tx.block[..tx.n]
    ensures CommitWrites(g, tx, disk)[p].blockno in tx.block[..tx.n]
  {
  }
}
