/** kernel/fs.c below directories: the block allocator, the block map of an inode, truncation,
    reading and writing, and the chunks in which filewrite of kernel/file.c logs a long write. A
    panic of the kernel is a result of its own. */
module FileSystem {

  import opened Basics
  import opened FsLayout
  import opened FsContent

  const IPB: nat := 16
  const MAXOPBLOCKS: nat := 10
  /** The most that filewrite writes in one transaction. */
  const CHUNK: nat := (MAXOPBLOCKS - 1 - 1 - 2) / 2 * BSIZE

  // What an operation puts in the log.

  ghost function Logged(log: seq<nat>): set<nat>
  {
    set x | x in log
  }

  lemma LoggedAdd(log: seq<nat>, x: nat)
    ensures Logged(log + [x]) == Logged(log) + {x}
    ensures |Logged(log)| <= |Logged(log + [x])| <= |Logged(log)| + 1
    ensures x in Logged(log) ==> |Logged(log + [x])| == |Logged(log)|
  {
    assert Logged(log + [x]) == Logged(log) + {x};
    assert x in Logged(log) ==> Logged(log) + {x} == Logged(log);
  }

  /** No log_write of the operation finds MAXOPBLOCKS blocks of its own in the log already. */
  ghost predicate Fits(log: seq<nat>)
  {
    forall k | 0 <= k < |log| :: |Logged(log[..k])| < MAXOPBLOCKS
  }

  lemma {:induction false} PrefixLogged(log: seq<nat>, k: nat)
    requires k <= |log|
    ensures |Logged(log[..k])| <= |Logged(log)|
    decreases |log| - k
  {
    if k < |log| {
      LoggedAdd(log[..k], log[k]);
      assert log[..k] + [log[k]] == log[..k + 1];
      PrefixLogged(log, k + 1);
    } else {
      assert log[..k] == log;
    }
  }

  lemma FitsAdd(log: seq<nat>, x: nat)
    requires |Logged(log)| < MAXOPBLOCKS
    ensures Fits(log + [x])
  {
    forall k | 0 <= k < |log + [x]| ensures |Logged((log + [x])[..k])| < MAXOPBLOCKS {
      assert (log + [x])[..k] == log[..k];
      PrefixLogged(log, k);
    }
  }

  /** How many blocks are free. */
  ghost function Free(bits: seq<bool>): (n: nat)
  {
    if bits == [] then 0 else (if bits[0] then 0 else 1) + Free(bits[1..])
  }

  lemma {:induction false} FreeSet(bits: seq<bool>, b: nat)
    requires b < |bits| && !bits[b]
    ensures Free(bits) == Free(bits[b := true]) + 1
  {
    if b == 0 {
      assert bits[b := true][1..] == bits[1..];
    } else {
      assert bits[b := true][1..] == bits[1..][b - 1 := true];
      FreeSet(bits[1..], b - 1);
    }
  }

  lemma {:induction false} FreeNone(bits: seq<bool>)
    ensures Free(bits) == 0 <==> forall c | 0 <= c < |bits| :: bits[c]
  {
    if bits != [] {
      FreeNone(bits[1..]);
      assert forall c | 1 <= c < |bits| :: bits[c] == bits[1..][c - 1];
    }
  }

  /** How many blocks bmap of slot bn allocates, if the slot is empty and if there is no indirect block. */
  function BmapNeed(bn: nat, empty: bool, rootless: bool): nat
  {
    if !empty then 0 else if bn < NDIRECT || !rootless then 1 else 2
  }

  /** How many of the pages of inode i from lo up to hi do not exist. */
  ghost function Missing(f: Fs, i: nat, lo: nat, hi: nat): (n: nat)
    requires f.Shape() && i < |f.inodes| && hi <= MAXFILE
    decreases hi
  {
    if hi <= lo then 0 else Missing(f, i, lo, hi - 1) + if f.Page(i, hi - 1) == [] then 1 else 0
  }

  /** How many blocks a write to these pages allocates. */
  ghost function WriteNeed(f: Fs, i: nat, lo: nat, hi: nat): (n: nat)
    requires f.Shape() && i < |f.inodes| && hi <= MAXFILE
  {
    Missing(f, i, lo, hi) + if lo < hi && hi > NDIRECT && f.At(i, MAXFILE) == 0 then 1 else 0
  }

  lemma WriteNeedMore(f: Fs, i: nat, lo: nat, hi: nat)
    requires f.Shape() && i < |f.inodes| && lo <= hi < MAXFILE
    ensures WriteNeed(f, i, lo, hi + 1) == WriteNeed(f, i, lo, hi)
              + BmapNeed(hi, f.Page(i, hi) == [], f.At(i, MAXFILE) == 0 && !(lo < hi && hi > NDIRECT))
  {
  }

  lemma {:induction false} WriteNeedGrows(f: Fs, i: nat, lo: nat, mid: nat, hi: nat)
    requires f.Shape() && i < |f.inodes| && lo <= mid <= hi <= MAXFILE
    ensures WriteNeed(f, i, lo, mid) <= WriteNeed(f, i, lo, hi)
    decreases hi
  {
    if mid < hi {
      WriteNeedGrows(f, i, lo, mid, hi - 1);
      WriteNeedMore(f, i, lo, hi - 1);
    }
  }

  /** The blocks that bmap of slot bn logs: the slot held had and the indirect slot root before, and
      hold b and ind after. */
  ghost function BmapLog(bmapstart: nat, bn: nat, had: nat, root: nat, b: nat, ind: nat): seq<nat>
  {
    if had != 0 then []
    else if bn < NDIRECT then [b / BPB + bmapstart, b]
    else (if root != 0 then [] else [ind / BPB + bmapstart, ind]) + [b / BPB + bmapstart, b] + [ind]
  }

  lemma NoBmapLog(log: seq<nat>, bmapstart: nat, bn: nat, had: nat, root: nat, b: nat, ind: nat)
    requires had != 0
    ensures log + BmapLog(bmapstart, bn, had, root, b, ind) == log
  {
  }

  lemma SameOwners(owner: map<nat, (nat, nat)>)
    ensures Extends(owner, owner)
  {
  }

  lemma BmapLogSplit(log: seq<nat>, bmapstart: nat, bn: nat, b: nat, ind: nat)
    requires bn >= NDIRECT && ind != 0
    ensures log + BmapLog(bmapstart, bn, 0, 0, b, ind)
         == log + [ind / BPB + bmapstart, ind] + BmapLog(bmapstart, bn, 0, ind, b, ind)
  {
  }

  /** The cost so far: c, and two more once the indirect block is in the log. */
  ghost predicate Afford(log: seq<nat>, ind: nat, c: int)
  {
    |Logged(log)| <= c + if ind != 0 && ind in Logged(log) then 2 else 0
  }

  lemma LoggedPair(log: seq<nat>, x: nat, y: nat)
    ensures Logged(log + [x, y]) == Logged(log) + {x, y}
    ensures |Logged(log + [x, y])| <= |Logged(log)| + 2
  {
  }

  lemma BmapAfford(log: seq<nat>, bmapstart: nat, bn: nat, had: nat, root: nat, b: nat, ind: nat, c: int)
    requires Afford(log, root, c)
    requires bn < NDIRECT || root != 0 ==> ind == root
    requires bn >= NDIRECT ==> ind != 0
    requires had != 0 && bn >= NDIRECT ==> root != 0
    ensures Afford(log + BmapLog(bmapstart, bn, had, root, b, ind), ind, c + if had == 0 then 2 else 0)
    ensures had == 0 ==> b in Logged(log + BmapLog(bmapstart, bn, had, root, b, ind))
  {
    hide Logged;
    var l := log + BmapLog(bmapstart, bn, had, root, b, ind);
    var bit := b / BPB + bmapstart;
    if had != 0 {
      assert l == log;
    } else {
      var base := if bn >= NDIRECT && root == 0 then log + [ind / BPB + bmapstart, ind] else log;
      LoggedPair(log, ind / BPB + bmapstart, ind);
      LoggedPair(base, bit, b);
      LoggedAdd(base + [bit, b], ind);
      assert l == if bn < NDIRECT then base + [bit, b] else base + [bit, b] + [ind];
    }
  }

  /** Where the logged blocks of a write to inode i come from: metadata, its indirect block, and its
      blocks below bn. */
  ghost predicate Traced(log: seq<nat>, meta: nat, owner: map<nat, (nat, nat)>, i: nat, bn: nat)
  {
    forall x <- log :: x < meta || (x in owner && owner[x].0 == i && (owner[x].1 < bn || owner[x].1 == MAXFILE))
  }

  lemma BmapTraced(log: seq<nat>, bmapstart: nat, meta: nat, was: map<nat, (nat, nat)>, owner: map<nat, (nat, nat)>,
                   i: nat, bn: nat, had: nat, root: nat, b: nat, ind: nat)
    requires Traced(log, meta, was, i, bn) && Extends(was, owner)
    requires b in owner && owner[b] == (i, bn) && b >= meta && bn < MAXFILE && b / BPB + bmapstart < meta
    requires bn >= NDIRECT ==> ind in owner && owner[ind] == (i, MAXFILE) && ind / BPB + bmapstart < meta
    ensures Traced(log + BmapLog(bmapstart, bn, had, root, b, ind), meta, owner, i, bn + 1)
    ensures Traced(log + BmapLog(bmapstart, bn, had, root, b, ind) + [b], meta, owner, i, bn + 1)
    ensures had != 0 ==> b !in log + BmapLog(bmapstart, bn, had, root, b, ind)
  {
  }

  /** Every block that changed, and the bitmap block of every bit that changed, is in the log. */
  ghost predicate Covered(f: Fs, g: Fs, log: seq<nat>, bmapstart: nat)
  {
    CoveredBut(f, g, log, bmapstart, |f.disk|)
  }

  /** The same but for one block. */
  ghost predicate CoveredBut(f: Fs, g: Fs, log: seq<nat>, bmapstart: nat, but: nat)
  {
    && |f.disk| == |g.disk| && |f.bits| == |g.bits|
    && (forall b | 0 <= b < |f.disk| && g.disk[b] != f.disk[b] && b != but :: b in log)
    && (forall b | 0 <= b < |f.bits| && g.bits[b] != f.bits[b] :: b / BPB + bmapstart in log)
  }

  lemma NothingLogged(f: Fs, log: seq<nat>, bmapstart: nat, meta: nat, owner: map<nat, (nat, nat)>, i: nat, bn: nat)
    ensures Covered(f, f, log, bmapstart)
    ensures log == [] ==> Traced(log, meta, owner, i, bn)
  {
  }

  /** The inodes, and one more log_write. */
  lemma LogOneMore(f: Fs, g: Fs, h: Fs, log: seq<nat>, bmapstart: nat, x: nat, but: nat)
    requires h.disk == g.disk && h.bits == g.bits
    ensures Covered(f, g, log, bmapstart) ==> Covered(f, h, log + [x], bmapstart)
    ensures CoveredBut(f, g, log, bmapstart, but) ==> CoveredBut(f, h, log + [x], bmapstart, but)
    ensures |Logged([])| == 0
  {
  }

  /** All but one block is covered, and that block is not the last one logged. */
  lemma TornCovered(f: Fs, h: Fs, log: seq<nat>, bmapstart: nat, x: nat, but: nat)
    requires CoveredBut(f, h, log + [x], bmapstart, but) && but != x && but < |f.disk|
    ensures Covered(f, h, log + [x], bmapstart) <==> but in log || h.disk[but] == f.disk[but]
  {
  }

  lemma CoveredButLater(f: Fs, g: Fs, h: Fs, l1: seq<nat>, l2: seq<nat>, bmapstart: nat, but: nat)
    requires Covered(f, g, l1, bmapstart) && CoveredBut(g, h, l2, bmapstart, but) && l1 <= l2
    ensures CoveredBut(f, h, l2, bmapstart, but)
  {
  }

  lemma CoveredLater(f: Fs, g: Fs, h: Fs, l1: seq<nat>, l2: seq<nat>, bmapstart: nat)
    requires Covered(f, g, l1, bmapstart) && Covered(g, h, l2, bmapstart) && l1 <= l2
    ensures Covered(f, h, l2, bmapstart)
  {
  }

  lemma SlotCovered(f: Fs, i: nat, j: nat, b: nat, log: seq<nat>, bmapstart: nat)
    requires b < |f.bits| == |f.disk| && i < |f.inodes| && j < NINDIRECT && Allocated(f, b).Shape()
    ensures Covered(f, SetSlot(Allocated(f, b), i, j, b),
                    log + [b / BPB + bmapstart, b] + [f.inodes[i].addrs[NDIRECT]], bmapstart)
  {
  }

  lemma MappedAfter(f: Fs, e: Fs, g: Fs, i: nat, bn: nat, b: nat)
    requires PagesSame(f, e) && i < |f.inodes| && bn < MAXFILE && e.At(i, bn) == f.At(i, bn)
    requires forall j | 0 <= j < |f.inodes| && j != i :: e.inodes[j] == f.inodes[j]
    requires Mapped(e, g, i, bn, b)
    ensures Mapped(f, g, i, bn, b)
  {
  }

  /** After bmap of slot bn there is an indirect block if there was one or the slot needs it. */
  ghost predicate NewRoot(f: Fs, g: Fs, i: nat, bn: nat)
  {
    Alike(f, g) && i < |f.inodes| && (g.At(i, MAXFILE) == 0 <==> f.At(i, MAXFILE) == 0 && bn < NDIRECT)
  }

  /** What k pages from lo on have cost so far. */
  ghost predicate Paid(f: Fs, g: Fs, i: nat, lo: nat, k: nat)
  {
    && Alike(f, g) && i < |f.inodes| && lo + k <= MAXFILE
    && Free(f.bits) == Free(g.bits) + WriteNeed(f, i, lo, lo + k)
    && (g.At(i, MAXFILE) == 0 <==> f.At(i, MAXFILE) == 0 && !(k > 0 && lo + k > NDIRECT))
  }

  ghost predicate PageCosts(g: Fs, bits: seq<bool>, h: Fs, i: nat, bn: nat, panicked: bool)
    requires g.Shape() && i < |g.inodes| && bn < MAXFILE
  {
    var need := BmapNeed(bn, g.Page(i, bn) == [], g.At(i, MAXFILE) == 0);
    if panicked then Free(bits) < need else Free(bits) == Free(h.bits) + need && NewRoot(g, h, i, bn)
  }

  lemma CostsStill(g: Fs, bits: seq<bool>, e: Fs, h: Fs, i: nat, bn: nat)
    requires g.Shape() && i < |g.inodes| && bn < MAXFILE && PageCosts(g, bits, e, i, bn, false)
    requires Ahead(e, h, i, bn + 1) && h.bits == e.bits && h.At(i, MAXFILE) == e.At(i, MAXFILE)
    ensures PageCosts(g, bits, h, i, bn, false)
  {
  }

  /** The copy changes one block; log_write adds it. */
  lemma CopyCovered(g: Fs, e: Fs, h: Fs, l: seq<nat>, bmapstart: nat, b: nat)
    requires Covered(g, e, l, bmapstart) && h.bits == e.bits && b < |h.disk| == |e.disk| && h.disk == e.disk[b := h.disk[b]]
    ensures Covered(g, h, l + [b], bmapstart) && CoveredBut(g, h, l, bmapstart, b)
  {
  }

  lemma CopyAfford(l: seq<nat>, b: nat, ind: nat, c: int)
    requires Afford(l, ind, c)
    ensures Afford(l, ind, c + 1) && Afford(l + [b], ind, c + 1) && (b in Logged(l) ==> b in l && Afford(l + [b], ind, c))
  {
    LoggedAdd(l, b);
  }

  lemma AheadStill(g: Fs, e: Fs, h: Fs, i: nat, bn: nat)
    requires Ahead(g, e, i, bn) && Ahead(e, h, i, bn)
    ensures Ahead(g, h, i, bn)
  {
  }

  lemma PaidMore(f: Fs, g: Fs, h: Fs, i: nat, lo: nat, k: nat, panicked: bool)
    requires Paid(f, g, i, lo, k) && Ahead(f, g, i, lo + k) && lo + k < MAXFILE && PageCosts(g, g.bits, h, i, lo + k, panicked)
    ensures if panicked then Free(f.bits) < WriteNeed(f, i, lo, lo + k + 1) else Paid(f, h, i, lo, k + 1)
  {
    WriteNeedMore(f, i, lo, lo + k);
  }

  lemma PaidNothing(f: Fs, i: nat, lo: nat)
    requires f.Shape() && i < |f.inodes| && lo <= MAXFILE
    ensures Paid(f, f, i, lo, 0)
  {
  }

  lemma RoomAhead(f: Fs, g: Fs, i: nat, bn: nat, page: Block)
    requires PagesExcept(f, g, i, bn, page) && i < |f.inodes|
    ensures Ahead(f, g, i, bn + 1)
  {
  }

  lemma AheadBoth(f: Fs, g: Fs, h: Fs, i: nat, bn: nat)
    requires Ahead(f, g, i, bn) && Ahead(g, h, i, bn + 1)
    ensures Ahead(f, h, i, bn + 1)
  {
  }

  lemma Adjoin(c: seq<Byte>, a: nat, b: nat, d: nat)
    requires a <= b <= d <= |c|
    ensures c[a..b] + c[b..d] == c[a..d]
  {
  }

  lemma ChunkSplice(c: seq<Byte>, off: nat, src: seq<Byte>, p: nat, n: nat, w: nat)
    requires off <= |c| && p <= |src| && w == if |src| - p < n then |src| else p + n
    ensures Spliced(Spliced(c, off, src[..p]), off + p, if |src[p..]| < n then src[p..] else src[p..][..n])
         == Spliced(c, off, src[..w])
  {
    SplicedTwice(c, off, src, p, w);
    assert src[p..w] == if |src| - p < n then src[p..] else src[p..][..n];
  }

  /** The overflow test of readi and writei. */
  lemma Wraps(off: nat, n: nat)
    requires off < UINT && n < UINT
    ensures (off + n) % UINT < off <==> off + n >= UINT
    ensures off + n < UINT ==> (off + n) % UINT == off + n
  {
  }

  /** A write of n bytes from off, of which those in src are readable, changes a block that it does not
      log: the source gives out in a block that the file has, after bytes other than the block's. */
  ghost predicate Tears(f: Fs, i: nat, src: seq<Byte>, off: nat, n: nat)
    requires f.Shape() && i < |f.inodes|
  {
    var tot := Reached(off, n, |src|);
    |src| < n && (off + tot) / BSIZE < MAXFILE && Differs(f.Page(i, (off + tot) / BSIZE), src, off, tot)
  }

  /** The logs of transactions between these states: none outgrows its share, and each holds all that
      changed, the last one if it is complete. */
  ghost predicate Transactions(states: seq<Fs>, logs: seq<seq<nat>>, bmapstart: nat, complete: bool)
  {
    && |states| == |logs| + 1
    && forall k | 0 <= k < |logs| ::
         Fits(logs[k]) && (k < |logs| - 1 || complete ==> Covered(states[k], states[k + 1], logs[k], bmapstart))
  }

  /** The chunks of a write of n bytes. */
  function Chunks(n: nat): nat { (n + CHUNK - 1) / CHUNK }

  /** After k chunks p bytes are written. */
  ghost predicate Begun(p: nat, n: nat, k: nat)
  {
    if p < n then p == CHUNK * k else k == Chunks(n)
  }

  lemma BegunNone(n: nat)
    requires n > 0
    ensures Begun(0, n, 0)
  {
  }

  lemma BegunAll(n: nat, k: nat)
    requires Begun(n, n, k)
    ensures k == Chunks(n)
  {
  }

  lemma BegunNext(p: nat, n: nat, k: nat, n1: nat, r: nat)
    requires p < n && Begun(p, n, k) && n1 == (if n - p > CHUNK then CHUNK else n - p) && r <= n1
    ensures if r == n1 then Begun(p + n1, n, k + 1) else k == (p + r) / CHUNK
  {
    if r < n1 {
      InChunk(k, r);
    } else if p + n1 == n {
      InChunk(k + 1, n1 - 1);
      assert n + CHUNK - 1 == CHUNK * (k + 1) + (n1 - 1);
    }
  }

  lemma InChunk(k: nat, r: nat)
    requires r < CHUNK
    ensures (CHUNK * k + r) / CHUNK == k
  {
    assert CHUNK == 3072;
    assert 3072 * k + r == k * 3072 + r;
  }

  lemma NoTransactions(f: Fs, bmapstart: nat)
    ensures Transactions([f], [], bmapstart, true) && Transactions([f], [], bmapstart, false)
  {
  }

  lemma TransactionsMore(states: seq<Fs>, logs: seq<seq<nat>>, bmapstart: nat, log: seq<nat>, g: Fs, complete: bool)
    requires Transactions(states, logs, bmapstart, true) && Fits(log)
    requires complete ==> Covered(states[|logs|], g, log, bmapstart)
    ensures |states| == |logs| + 1 && Transactions(states + [g], logs + [log], bmapstart, complete)
    ensures Transactions(states + [g], logs + [log], bmapstart, false)
  {
    hide Fits, Covered;
    var ss, ls := states + [g], logs + [log];
    forall k | 0 <= k < |ls| ensures Fits(ls[k]) && (k < |ls| - 1 || complete ==> Covered(ss[k], ss[k + 1], ls[k], bmapstart)) {
      assert k < |logs| ==> Fits(logs[k]);
    }
  }

  datatype Step = Full | Fault | Panic
  datatype Outcome = Panicked | Returned(v: int)

  // The turns of the loop of writei.

  function Piece(off: nat, n: nat, tot: nat): (m: nat)
    requires tot < n
    ensures 0 < m <= BSIZE - (off + tot) % BSIZE && tot + m <= n
  {
    if n - tot < BSIZE - (off + tot) % BSIZE then n - tot else BSIZE - (off + tot) % BSIZE
  }

  /** After k turns tot bytes are written: every turn but the last ends at a block boundary. */
  ghost predicate Turns(off: nat, n: nat, tot: nat, k: nat)
  {
    && tot <= n && (k == 0 <==> tot == 0)
    && (k > 0 ==> (k - 1) * BSIZE < off % BSIZE + tot <= k * BSIZE)
    && (k > 0 && tot < n ==> off % BSIZE + tot == k * BSIZE)
  }

  lemma NextTurn(off: nat, n: nat, tot: nat, k: nat)
    requires Turns(off, n, tot, k) && tot < n
    ensures Turns(off, n, tot + Piece(off, n, tot), k + 1) && (off + tot) / BSIZE == off / BSIZE + k
  {
  }

  /** How far a write gets that finds avail bytes of its source: to the end, or to the last block
      boundary it can fill. */
  function Reached(off: nat, n: nat, avail: nat): (t: nat)
    ensures t <= n && t <= avail
    ensures t < n && t > 0 ==> (off + t) % BSIZE == 0
    ensures t < n ==> avail - t < BSIZE
  {
    if avail >= n then n
    else if (off + avail) / BSIZE * BSIZE <= off then 0
    else (off + avail) / BSIZE * BSIZE - off
  }

  lemma ReachedIff(off: nat, n: nat, avail: nat)
    ensures Reached(off, n, avail) == n <==> n <= avail
  {
  }

  lemma ReachedAt(off: nat, n: nat, tot: nat, k: nat, avail: nat)
    requires Turns(off, n, tot, k) && tot < n && tot <= avail < tot + Piece(off, n, tot)
    ensures Reached(off, n, avail) == tot
  {
    var a := off + tot;
    assert (off + avail) / BSIZE == a / BSIZE by { InBlock(a, Piece(off, n, tot), off + avail); }
    if k > 0 {
      assert a == (off / BSIZE + k) * BSIZE;
    }
  }

  /** The page after the last one that the write touches. */
  function LastPage(off: nat, n: nat, avail: nat): (p: nat)
    ensures p >= off / BSIZE
    ensures off + n <= MAXFILE * BSIZE ==> p <= MAXFILE
  {
    if n == 0 then off / BSIZE
    else (off + if n <= avail then n - 1 else Reached(off, n, avail)) / BSIZE + 1
  }

  lemma LastPageFull(off: nat, n: nat, k: nat, avail: nat)
    requires Turns(off, n, n, k) && n <= avail
    ensures LastPage(off, n, avail) == off / BSIZE + k
  {
  }

  lemma LastPageAt(off: nat, n: nat, tot: nat, k: nat, avail: nat)
    requires Turns(off, n, tot, k) && tot < n && tot <= avail
    ensures off / BSIZE + k + 1 <= LastPage(off, n, avail)
  {
  }

  lemma ReachedLast(off: nat, n: nat, tot: nat, k: nat, avail: nat)
    requires Turns(off, n, tot, k) && tot < n && avail < n && tot == Reached(off, n, avail)
    ensures LastPage(off, n, avail) == off / BSIZE + k + 1
  {
  }

  /** What k turns cost the log: the first block of an unaligned write is in the file already. */
  function Cost(off: nat, k: nat): (c: int)
  {
    if k > 0 && off % BSIZE != 0 then 2 * k - 1 else 2 * k
  }

  /** The largest chunk of filewrite fits: nine blocks before the inode. */
  lemma ChunkCost(off: nat, n: nat, tot: nat, k: nat)
    requires Turns(off, n, tot, k) && n <= CHUNK
    ensures Cost(off, k) + 2 < MAXOPBLOCKS
    ensures tot < n ==> Cost(off, k + 1) + 2 < MAXOPBLOCKS
  {
  }

  class FileSys {
    /** The boot block, super block, log, inode blocks and free map take the blocks below meta. */
    const meta: nat
    const bmapstart: nat
    const inodestart: nat
    var bits: seq<bool>
    var disk: seq<Block>
    var inodes: seq<Inode>
    /** The inodes as iupdate last wrote them to their blocks. */
    var stored: seq<Inode>
    ghost var owner: map<nat, (nat, nat)>
    /** The arguments of log_write since the operation began. */
    ghost var log: seq<nat>

    ghost function Now(): Fs
      reads this
    {
      Fs(bits, disk, inodes)
    }

    ghost predicate Accounted()
      reads this
    {
      && Now().Shape() && Now().Accounted(meta, {}, owner) && |stored| == |inodes|
      && (|bits| - 1) / BPB + bmapstart < meta && (|inodes| > 0 ==> (|inodes| - 1) / IPB + inodestart < meta)
    }

    /** Between operations on an inode. */
    ghost predicate Valid()
      reads this
    {
      Accounted() && AllSized(Now())
    }

    /** A file system of size blocks and ninodes empty files, the metadata blocks in use. */
    constructor (size: nat, meta: nat, bmapstart: nat, inodestart: nat, ninodes: nat)
      requires 0 < meta <= size < 0x8000_0000 && (size - 1) / BPB + bmapstart < meta
      requires ninodes > 0 ==> (ninodes - 1) / IPB + inodestart < meta
      ensures Valid() && |inodes| == ninodes && log == []
      ensures forall i | 0 <= i < ninodes :: Now().Content(i) == []
      ensures |bits| == size && forall b | 0 <= b < size :: bits[b] <==> b < meta
    {
      this.meta, this.bmapstart, this.inodestart := meta, bmapstart, inodestart;
      bits := seq(size, b => b < meta);
      disk := seq(size, _ => Zeros());
      inodes := seq(ninodes, _ => Inode(0, NoAddrs()));
      stored := seq(ninodes, _ => Inode(0, NoAddrs()));
      owner, log := map[], [];
    }

    /** The search of balloc: the bits of one free-map block at a time. */
    method FindFree() returns (r: Option<nat>)
      ensures r.None? <==> forall c | 0 <= c < |bits| :: bits[c]
      ensures r.Some? ==> r.value < |bits| && !bits[r.value] && forall c | 0 <= c < r.value :: bits[c]
    {
      var b := 0;
      while b < |bits|
        invariant forall c | 0 <= c < b && c < |bits| :: bits[c]
      {
        var bi := 0;
        while bi < BPB && b + bi < |bits|
          invariant bi <= BPB && forall c | 0 <= c < b + bi && c < |bits| :: bits[c]
        {
          if !bits[b + bi] {
            return Some(b + bi);
          }
          bi := bi + 1;
        }
        b := b + BPB;
      }
      return None;
    }

    /** balloc: the first free block, marked and zeroed, and in no inode yet; nothing only if all are
        in use, which is its panic. */
    method Balloc() returns (r: Option<nat>)
      requires Accounted()
      modifies this`bits, this`disk, this`log
      ensures r.None? <==> forall c | 0 <= c < |old(bits)| :: old(bits)[c]
      ensures r.None? ==> Now() == old(Now()) && log == old(log)
      ensures r.Some? ==> r.value < |old(bits)| && !old(bits)[r.value] && forall c | 0 <= c < r.value :: old(bits)[c]
      ensures r.Some? ==> Now() == Allocated(old(Now()), r.value) && Now().Accounted(meta, {r.value}, owner)
      ensures r.Some? ==> log == old(log) + [r.value / BPB + bmapstart, r.value]
      ensures if r.None? then Free(old(bits)) == 0 else Free(bits) + 1 == Free(old(bits))
    {
      r := FindFree();
      FreeNone(bits);
      if r.Some? {
        var b := r.value;
        FreeSet(bits, b);
        AllocateKeeps(Now(), meta, {}, owner, b);
        assert {} + {b} == {b};
        bits := bits[b := true];
        disk := disk[b := Zeros()];
        log := log + [b / BPB + bmapstart, b];
      }
    }

    /** bfree; its panic on a block already free is what it requires against. */
    method Bfree(b: nat)
      requires b < |bits| && bits[b]
      modifies this`bits, this`log
      ensures bits == old(bits)[b := false] && log == old(log) + [b / BPB + bmapstart]
    {
      bits := bits[b := false];
      log := log + [b / BPB + bmapstart];
    }

    method BmapDirect(i: nat, bn: nat) returns (r: Option<nat>)
      requires Accounted() && i < |inodes| && bn < NDIRECT
      modifies this`bits, this`disk, this`inodes, this`owner, this`log
      ensures r.None? ==> forall c | 0 <= c < |bits| :: bits[c]
      ensures r.None? <==> Free(old(bits)) < BmapNeed(bn, old(Now()).At(i, bn) == 0, false)
      ensures r.Some? ==> Free(bits) + BmapNeed(bn, old(Now()).At(i, bn) == 0, false) == Free(old(bits))
      ensures r.Some? ==> Accounted() && Mapped(old(Now()), Now(), i, bn, r.value)
      ensures r.Some? ==> Now().At(i, MAXFILE) == old(Now()).At(i, MAXFILE)
      ensures r.Some? ==> log == old(log) + BmapLog(bmapstart, bn, old(Now()).At(i, bn), 0, r.value, 0)
      ensures r.Some? ==> Covered(old(Now()), Now(), log, bmapstart)
      ensures old(Now()).At(i, bn) != 0 ==> r.Some? && Now() == old(Now()) && owner == old(owner) && log == old(log)
      ensures r.Some? ==> Extends(old(owner), owner)
    {
      hide Fs.Accounted, Mapped;
      var addr := inodes[i].addrs[bn];
      if addr == 0 {
        ghost var f := Now();
        r := Balloc();
        if r.None? {
          return;
        }
        addr := r.value;
        MapDirect(f, meta, {}, owner, i, bn, addr);
        inodes := inodes[i := inodes[i].(addrs := inodes[i].addrs[bn := addr])];
        owner := owner[addr := (i, bn)];
      } else {
        MapNothing(Now(), i, bn);
      }
      r := Some(addr);
    }

    /** The first half of the indirect case: there is an indirect block afterwards. */
    method Indirect(i: nat) returns (r: Option<nat>)
      requires Accounted() && i < |inodes|
      modifies this`bits, this`disk, this`inodes, this`owner, this`log
      ensures r.None? ==> forall c | 0 <= c < |bits| :: bits[c]
      ensures r.None? <==> old(Now()).At(i, MAXFILE) == 0 && Free(old(bits)) == 0
      ensures r.Some? ==> Free(bits) + (if old(Now()).At(i, MAXFILE) == 0 then 1 else 0) == Free(old(bits))
      ensures r.Some? ==> Accounted() && PagesSame(old(Now()), Now()) && Now().At(i, MAXFILE) == r.value != 0
      ensures old(Now()).At(i, MAXFILE) != 0 ==> r.Some? && Now() == old(Now()) && owner == old(owner) && log == old(log)
      ensures r.Some? && old(Now()).At(i, MAXFILE) == 0 ==> log == old(log) + [r.value / BPB + bmapstart, r.value]
      ensures r.Some? ==> forall t | 0 <= t < MAXFILE :: Now().At(i, t) == old(Now()).At(i, t)
      ensures r.Some? ==> forall j | 0 <= j < |inodes| && j != i :: inodes[j] == old(inodes)[j]
      ensures r.Some? ==> Covered(old(Now()), Now(), log, bmapstart)
      ensures r.Some? ==> Extends(old(owner), owner)
    {
      hide Fs.Accounted;
      var addr := inodes[i].addrs[NDIRECT];
      if addr == 0 {
        ghost var f := Now();
        r := Balloc();
        if r.None? {
          return;
        }
        addr := r.value;
        MapRoot(f, meta, {}, owner, i, addr);
        inodes := inodes[i := inodes[i].(addrs := inodes[i].addrs[NDIRECT := addr])];
        owner := owner[addr := (i, MAXFILE)];
      }
      r := Some(addr);
    }

    /** The second half: the entry of the indirect block. */
    method Entry(i: nat, bn: nat) returns (r: Option<nat>)
      requires Accounted() && i < |inodes| && NDIRECT <= bn < MAXFILE && Now().At(i, MAXFILE) != 0
      modifies this`bits, this`disk, this`owner, this`log
      ensures r.None? ==> forall c | 0 <= c < |bits| :: bits[c]
      ensures r.None? <==> old(Now()).At(i, bn) == 0 && Free(old(bits)) == 0
      ensures r.Some? ==> Free(bits) + (if old(Now()).At(i, bn) == 0 then 1 else 0) == Free(old(bits))
      ensures r.Some? ==> Accounted() && Mapped(old(Now()), Now(), i, bn, r.value)
      ensures r.Some? ==> Now().At(i, MAXFILE) == old(Now()).At(i, MAXFILE)
      ensures r.Some? ==> var ind := Now().At(i, MAXFILE);
                          log == old(log) + BmapLog(bmapstart, bn, old(Now()).At(i, bn), ind, r.value, ind)
      ensures r.Some? ==> Covered(old(Now()), Now(), log, bmapstart)
      ensures old(Now()).At(i, bn) != 0 ==> r.Some? && Now() == old(Now()) && owner == old(owner) && log == old(log)
      ensures r.Some? ==> Extends(old(owner), owner)
    {
      hide Fs.Accounted, Mapped, Word, SetWord, Covered, Free, Fs.Page, BmapLog, Extends;
      var ind := inodes[i].addrs[NDIRECT];
      var addr := Word(disk[ind], bn - NDIRECT);
      if addr == 0 {
        r := NewEntry(i, bn, ind);
      } else {
        NothingLogged(Now(), log, bmapstart, meta, owner, i, bn);
        MapNothing(Now(), i, bn);
        NoBmapLog(log, bmapstart, bn, addr, ind, addr, ind);
        SameOwners(owner);
        r := Some(addr);
      }
    }

    /** An entry that was 0 gets a block. */
    method NewEntry(i: nat, bn: nat, ind: nat) returns (r: Option<nat>)
      requires Accounted() && i < |inodes| && NDIRECT <= bn < MAXFILE && ind == Now().At(i, MAXFILE) != 0 && Now().At(i, bn) == 0
      modifies this`bits, this`disk, this`owner, this`log
      ensures r.None? ==> forall c | 0 <= c < |bits| :: bits[c]
      ensures if r.None? then Free(old(bits)) == 0 else Free(bits) + 1 == Free(old(bits))
      ensures r.Some? ==> Accounted() && Mapped(old(Now()), Now(), i, bn, r.value) && Now().At(i, MAXFILE) == ind
      ensures r.Some? ==> log == old(log) + BmapLog(bmapstart, bn, 0, ind, r.value, ind)
      ensures r.Some? ==> Covered(old(Now()), Now(), log, bmapstart) && Extends(old(owner), owner)
    {
      hide Fs.Accounted, Mapped, Word, SetWord, Covered, Free, Fs.Page;
      ghost var f := Now();
      r := Balloc();
      if r.Some? {
        MapSlot(f, meta, {}, owner, i, bn, r.value);
        SlotCovered(f, i, bn - NDIRECT, r.value, old(log), bmapstart);
        disk := disk[ind := SetWord(disk[ind], bn - NDIRECT, r.value)];
        owner := owner[r.value := (i, bn)];
        log := log + [ind];
      }
    }

    method BmapIndirect(i: nat, bn: nat) returns (r: Option<nat>)
      requires Accounted() && i < |inodes| && NDIRECT <= bn < MAXFILE
      modifies this`bits, this`disk, this`inodes, this`owner, this`log
      ensures r.None? ==> forall c | 0 <= c < |bits| :: bits[c]
      ensures r.None? <==> Free(old(bits)) < BmapNeed(bn, old(Now()).At(i, bn) == 0, old(Now()).At(i, MAXFILE) == 0)
      ensures r.Some? ==> Free(bits) + BmapNeed(bn, old(Now()).At(i, bn) == 0, old(Now()).At(i, MAXFILE) == 0) == Free(old(bits))
      ensures r.Some? ==> Accounted() && Mapped(old(Now()), Now(), i, bn, r.value)
      ensures r.Some? && old(Now()).At(i, MAXFILE) != 0 ==>
                Now().At(i, MAXFILE) == old(Now()).At(i, MAXFILE)
      ensures r.Some? ==> Now().At(i, MAXFILE) != 0
      ensures r.Some? ==> var had, root := old(Now()).At(i, bn), old(Now()).At(i, MAXFILE);
                          log == old(log) + BmapLog(bmapstart, bn, had, root, r.value, Now().At(i, MAXFILE))
      ensures r.Some? ==> Covered(old(Now()), Now(), log, bmapstart)
      ensures old(Now()).At(i, bn) != 0 ==> r.Some? && Now() == old(Now()) && owner == old(owner) && log == old(log)
      ensures r.Some? ==> Extends(old(owner), owner)
    {
      hide Fs.Accounted, Mapped, PagesSame, Covered, BmapLog;
      ghost var f := Now();
      var ind := Indirect(i);
      if ind.None? {
        return None;
      }
      ghost var e, l := Now(), log;
      r := Entry(i, bn);
      if r.Some? {
        MappedAfter(f, e, Now(), i, bn, r.value);
        CoveredLater(f, e, Now(), l, log, bmapstart);
        BmapLogSplit(old(log), bmapstart, bn, r.value, ind.value);
      }
    }

    /** bmap: afterwards slot bn of inode i has a block, the one it had or a new zeroed one; no other
        page of any file changes, and every block is still accounted for once. */
    method Bmap(i: nat, bn: nat) returns (r: Option<nat>)
      requires Accounted() && i < |inodes| && bn < MAXFILE
      modifies this`bits, this`disk, this`inodes, this`owner, this`log
      ensures r.None? ==> forall c | 0 <= c < |bits| :: bits[c]
      ensures r.None? <==> Free(old(bits)) < BmapNeed(bn, old(Now()).At(i, bn) == 0, old(Now()).At(i, MAXFILE) == 0)
      ensures r.Some? ==> Free(bits) + BmapNeed(bn, old(Now()).At(i, bn) == 0, old(Now()).At(i, MAXFILE) == 0) == Free(old(bits))
      ensures r.Some? ==> Accounted() && Mapped(old(Now()), Now(), i, bn, r.value)
      ensures r.Some? && (bn < NDIRECT || old(Now()).At(i, MAXFILE) != 0) ==>
                Now().At(i, MAXFILE) == old(Now()).At(i, MAXFILE)
      ensures r.Some? && bn >= NDIRECT ==> Now().At(i, MAXFILE) != 0
      ensures r.Some? ==> var had, root := old(Now()).At(i, bn), old(Now()).At(i, MAXFILE);
                          log == old(log) + BmapLog(bmapstart, bn, had, root, r.value, Now().At(i, MAXFILE))
      ensures r.Some? ==> Covered(old(Now()), Now(), log, bmapstart)
      ensures old(Now()).At(i, bn) != 0 ==> r.Some? && Now() == old(Now()) && owner == old(owner) && log == old(log)
      ensures r.Some? ==> Extends(old(owner), owner)
    {
      hide Fs.Accounted, Mapped, Covered;
      if bn < NDIRECT {
        r := BmapDirect(i, bn);
      } else {
        r := BmapIndirect(i, bn);
      }
    }

    /** The bitmap block of every bit that changed is in the log. */
    ghost predicate BitsLogged(was: seq<bool>, now: seq<bool>, log: seq<nat>)
    {
      |was| == |now| && forall b | 0 <= b < |was| && now[b] != was[b] :: b / BPB + bmapstart in log
    }

    /** The first loop of itrunc. */
    method FreeDirect(i: nat, ghost f: Fs)
      requires Accounted() && i < |inodes| && f == Now()
      modifies this`bits, this`inodes, this`log
      ensures bits == Freed(f.bits, owner, i, NDIRECT) && old(log) <= log && BitsLogged(old(bits), bits, log)
      ensures |inodes| == |f.inodes| && |inodes[i].addrs| == NDIRECT + 1
      ensures inodes == f.inodes[i := inodes[i]] && inodes[i].addrs == NoAddrs()[NDIRECT := f.inodes[i].addrs[NDIRECT]]
    {
      hide Fs.Accounted, Freed;
      FreedNone(f.bits, owner, i);
      var k := 0;
      while k < NDIRECT
        invariant k <= NDIRECT && bits == Freed(f.bits, owner, i, k) && old(log) <= log && BitsLogged(old(bits), bits, log)
        invariant |inodes| == |f.inodes| && |inodes[i].addrs| == NDIRECT + 1 && inodes == f.inodes[i := inodes[i]]
        invariant forall t | 0 <= t <= NDIRECT :: inodes[i].addrs[t] == if t < k then 0 else f.inodes[i].addrs[t]
      {
        FreedStep(f, meta, {}, owner, i, k);
        if inodes[i].addrs[k] != 0 {
          Bfree(inodes[i].addrs[k]);
          inodes := inodes[i := inodes[i].(addrs := inodes[i].addrs[k := 0])];
        }
        k := k + 1;
      }
    }

    /** The second loop, and the indirect block itself. */
    method FreeIndirect(i: nat, ghost f: Fs)
      requires f.Shape() && f.Accounted(meta, {}, owner) && i < |f.inodes| && disk == f.disk
      requires bits == Freed(f.bits, owner, i, NDIRECT)
      requires |inodes| == |f.inodes| && inodes[i].addrs == NoAddrs()[NDIRECT := f.inodes[i].addrs[NDIRECT]]
      modifies this`bits, this`inodes, this`log
      ensures bits == Freed(f.bits, owner, i, MAXFILE + 1) && old(log) <= log && BitsLogged(old(bits), bits, log)
      ensures |inodes| == |old(inodes)| && inodes == old(inodes)[i := inodes[i]] && inodes[i].addrs == NoAddrs()
    {
      hide Fs.Accounted, Freed;
      var ind := inodes[i].addrs[NDIRECT];
      if ind == 0 {
        FreedRest(f, meta, {}, owner, i);
        return;
      }
      var j := 0;
      while j < NINDIRECT
        invariant j <= NINDIRECT && bits == Freed(f.bits, owner, i, NDIRECT + j) && inodes == old(inodes)
        invariant old(log) <= log && BitsLogged(old(bits), bits, log)
      {
        FreedStep(f, meta, {}, owner, i, NDIRECT + j);
        if Word(disk[ind], j) != 0 {
          Bfree(Word(disk[ind], j));
        }
        j := j + 1;
      }
      FreedStep(f, meta, {}, owner, i, MAXFILE);
      Bfree(ind);
      inodes := inodes[i := inodes[i].(addrs := inodes[i].addrs[NDIRECT := 0])];
    }

    /** itrunc: the bits cleared are exactly those of the inode's blocks, each was set when bfree met
        it, and the file is empty, on disk too. */
    method Itrunc(i: nat)
      requires Valid() && i < |inodes|
      modifies this`bits, this`inodes, this`stored, this`owner, this`log
      ensures Valid() && Now() == Emptied(old(Now()), old(owner), i)
      ensures stored == old(stored)[i := inodes[i]] && i / IPB + inodestart in log && BitsLogged(old(bits), bits, log)
    {
      hide Fs.Accounted, Freed;
      ghost var f := Now();
      FreeDirect(i, f);
      FreeIndirect(i, f);
      inodes := inodes[i := inodes[i].(size := 0)];
      stored := stored[i := inodes[i]];
      log := log + [i / IPB + inodestart];
      EmptiedAccounted(f, meta, owner, i);
      EmptiedSized(f, meta, owner, i);
      assert Now() == Emptied(f, owner, i);
      owner := Disowned(owner, i);
    }

    /** readi into a destination of which room bytes are writable: the bytes of the file from off, as
        many as there are, and no block is allocated, freed or changed. */
    method Readi(i: nat, off: nat, n: nat, room: nat) returns (r: int, data: seq<Byte>)
      requires Valid() && i < |inodes| && off < UINT && n < UINT
      modifies this`bits, this`disk, this`inodes, this`owner, this`log
      ensures Valid() && Now() == old(Now()) && owner == old(owner) && log == old(log)
      ensures off > inodes[i].size || off + n >= UINT ==> r == 0 && data == []
      ensures off <= inodes[i].size && off + n < UINT ==>
                var m := if off + n > inodes[i].size then inodes[i].size - off else n;
                if m <= room then r == m && data == Now().Content(i)[off..off + m]
                else r == -1 && data == Now().Content(i)[off..off + room]
    {
      hide Fs.Accounted, Fs.Content, Fs.Sized, Piece;
      Wraps(off, n);
      if off > inodes[i].size || (off + n) % UINT < off {
        return 0, [];
      }
      var left := if (off + n) % UINT > inodes[i].size then inodes[i].size - off else n;
      data := [];
      var tot := 0;
      ghost var c := Now().Content(i);
      while tot < left
        invariant tot <= left && tot <= room && data == c[off..off + tot]
        invariant Valid() && Now() == old(Now()) && owner == old(owner) && log == old(log)
      {
        var m := Piece(off, left, tot);
        var q := if m <= room - tot then m else room - tot;
        var piece := ReadPiece(i, off + tot, q, m);
        Adjoin(c, off, off + tot, off + tot + q);
        data := data + piece;
        if q < m {
          return -1, data;
        }
        tot := tot + m;
      }
      r := tot;
    }

    /** One block of readi: bread of bmap, and the first q of the m bytes to copy. */
    method ReadPiece(i: nat, off: nat, q: nat, m: nat) returns (piece: seq<Byte>)
      requires Valid() && i < |inodes| && 0 < m <= BSIZE - off % BSIZE && q <= m && off + m <= inodes[i].size
      modifies this`bits, this`disk, this`inodes, this`owner, this`log
      ensures Valid() && Now() == old(Now()) && owner == old(owner) && log == old(log)
      ensures piece == Now().Content(i)[off..off + q]
    {
      ContentSlice(Now(), i, off, m);
      var b := Bmap(i, off / BSIZE);
      piece := disk[b.value][off % BSIZE..off % BSIZE + q];
      assert Now().Content(i)[off..off + q] == Now().Content(i)[off..off + m][..q];
    }

    /** either_copyin of m bytes into block b, and log_write. Only the bytes of src are readable: the
        copy stops where they end, and then the block is not logged. */
    method CopyBlock(i: nat, b: nat, src: seq<Byte>, lo: nat, tot: nat, m: nat, ghost f: Fs) returns (st: Step)
      requires Accounted() && Patched(f, Now(), i, lo, lo + tot, src) && lo + tot + m <= MAXFILE * BSIZE
      requires 0 < m <= BSIZE - (lo + tot) % BSIZE && tot <= |src|
      requires i < |inodes| && b == Now().At(i, (lo + tot) / BSIZE) != 0
      modifies this`disk, this`log
      ensures st == if tot + m <= |src| then Full else Fault
      ensures Accounted() && Patched(f, Now(), i, lo, lo + if st.Full? then tot + m else |src|, src)
      ensures Now().At(i, MAXFILE) == old(Now()).At(i, MAXFILE)
      ensures Now().At(i, (lo + tot) / BSIZE) == b
      ensures log == if st.Full? then old(log) + [b] else old(log)
      ensures b < |disk| && disk == old(disk)[b := disk[b]]
      ensures st.Fault? ==> |old(disk)[b]| == BSIZE && disk[b] == Spliced(old(disk)[b], (lo + tot) % BSIZE, src[tot..])
      ensures Ahead(old(Now()), Now(), i, (lo + tot) / BSIZE + 1)
    {
      hide Patched, PagesExcept, Fs.Accounted, Fs.Page, Fs.At, Spliced, Ahead;
      var q := if tot + m <= |src| then m else |src| - tot;
      ghost var g := Now();
      BlockInUse(g, i, (lo + tot) / BSIZE);
      var x := Spliced(disk[b], (lo + tot) % BSIZE, src[tot..tot + q]);
      Copied(g, i, b, src, lo, tot, q, f);
      disk := disk[b := x];
      if q < m {
        assert src[tot..tot + q] == src[tot..];
        return Fault;
      }
      log := log + [b];
      return Full;
    }

    lemma BlockInUse(g: Fs, i: nat, bn: nat)
      requires g.Accounted(meta, {}, owner) && i < |g.inodes| && bn < MAXFILE && g.At(i, bn) != 0
      ensures g.At(i, bn) < |g.disk| && |g.disk[g.At(i, bn)]| == BSIZE && g.Page(i, bn) == g.disk[g.At(i, bn)]
    {
      SlotOwned(g, meta, {}, owner, i, bn);
    }

    /** What the copy of q bytes does to the file. */
    lemma Copied(g: Fs, i: nat, b: nat, src: seq<Byte>, lo: nat, tot: nat, q: nat, f: Fs)
      requires g.Accounted(meta, {}, owner) && Patched(f, g, i, lo, lo + tot, src) && lo + tot + q <= MAXFILE * BSIZE
      requires q <= BSIZE - (lo + tot) % BSIZE && tot + q <= |src| && (lo + tot) / BSIZE < MAXFILE
      requires i < |g.inodes| && b == g.At(i, (lo + tot) / BSIZE) != 0 && b < |g.disk| && |g.disk[b]| == BSIZE
      ensures var h := g.(disk := g.disk[b := Spliced(g.disk[b], (lo + tot) % BSIZE, src[tot..tot + q])]);
        && h.Shape() && h.Accounted(meta, {}, owner) && Patched(f, h, i, lo, lo + tot + q, src)
        && h.At(i, MAXFILE) == g.At(i, MAXFILE) && h.At(i, (lo + tot) / BSIZE) == b
        && Ahead(g, h, i, (lo + tot) / BSIZE + 1)
    {
      hide Patched, Fs.Accounted, Fs.At;
      var bn, x := (lo + tot) / BSIZE, Spliced(g.disk[b], (lo + tot) % BSIZE, src[tot..tot + q]);
      var h := g.(disk := g.disk[b := x]);
      WritePage(g, meta, {}, owner, i, bn, x);
      RoomAhead(g, h, i, bn, x);
      if q > 0 {
        hide PagesExcept, Ahead, Spliced;
        PatchStep(f, g, h, i, lo, lo + tot, q, src, g.disk[b]);
      } else {
        assert x == g.disk[b] && h == g;
      }
    }

    lemma TraceTurn(e: Fs, was: seq<nat>, owned: map<nat, (nat, nat)>, i: nat, bn: nat, had: nat, root: nat)
      requires e.Shape() && e.Accounted(meta, {}, owner) && i < |e.inodes| && bn < MAXFILE && e.At(i, bn) != 0
      requires (|e.bits| - 1) / BPB + bmapstart < meta && (bn >= NDIRECT ==> e.At(i, MAXFILE) != 0)
      requires Traced(was, meta, owned, i, bn) && Extends(owned, owner)
      ensures var l := was + BmapLog(bmapstart, bn, had, root, e.At(i, bn), e.At(i, MAXFILE));
              && Traced(l, meta, owner, i, bn + 1) && Traced(l + [e.At(i, bn)], meta, owner, i, bn + 1)
              && (had != 0 ==> e.At(i, bn) !in l)
    {
      hide Fs.Accounted, Traced, BmapLog;
      SlotOwned(e, meta, {}, owner, i, bn);
      if bn >= NDIRECT { SlotOwned(e, meta, {}, owner, i, MAXFILE); }
      BmapTraced(was, bmapstart, meta, owned, owner, i, bn, had, root, e.At(i, bn), e.At(i, MAXFILE));
    }

    /** bmap as writei uses it, in the middle of a write that has reached hi. */
    method MapBlock(i: nat, bn: nat, ghost f: Fs, ghost lo: nat, ghost hi: nat, ghost src: seq<Byte>, ghost c: int)
      returns (b: Option<nat>)
      requires Accounted() && Patched(f, Now(), i, lo, hi, src) && i < |inodes| && bn < MAXFILE
      requires Afford(log, Now().At(i, MAXFILE), c)
      modifies this`bits, this`disk, this`inodes, this`owner, this`log
      ensures b.None? ==> forall c | 0 <= c < |bits| :: bits[c]
      ensures PageCosts(old(Now()), old(bits), Now(), i, bn, b.None?)
      ensures b.Some? ==> Accounted() && Patched(f, Now(), i, lo, hi, src) && OthersKept(old(Now()), i)
      ensures b.Some? ==> b.value == Now().At(i, bn) != 0 && Covered(old(Now()), Now(), log, bmapstart) && old(log) <= log
      ensures b.Some? ==> Afford(log, Now().At(i, MAXFILE), c + if old(Now()).Page(i, bn) == [] then 2 else 0)
      ensures b.Some? && old(Now()).Page(i, bn) == [] ==> b.value in Logged(log)
      ensures b.Some? && old(Now()).Page(i, bn) != [] ==> Now() == old(Now()) && log == old(log)
      ensures b.Some? ==> Ahead(old(Now()), Now(), i, bn + 1)
      ensures b.Some? && Traced(old(log), meta, old(owner), i, bn) ==>
                && Traced(log, meta, owner, i, bn + 1) && Traced(log + [b.value], meta, owner, i, bn + 1)
                && (old(Now()).Page(i, bn) != [] ==> b.value !in log)
    {
      hide Patched, PagesExcept, Fs.Accounted, BmapLog, Logged, Traced, Extends, Covered;
      ghost var g, had := Now(), Now().At(i, bn);
      if had != 0 { SlotOwned(g, meta, {}, owner, i, bn); }
      b := Bmap(i, bn);
      if b.None? {
        return;
      }
      ghost var e := Now();
      RoomPatched(f, g, e, i, lo, hi, src, bn, if had == 0 then Zeros() else g.Page(i, bn));
      RoomAhead(g, e, i, bn, if had == 0 then Zeros() else g.Page(i, bn));
      BmapAfford(old(log), bmapstart, bn, had, g.At(i, MAXFILE), b.value, e.At(i, MAXFILE), c);
      if Traced(old(log), meta, old(owner), i, bn) {
        TraceTurn(e, old(log), old(owner), i, bn, had, g.At(i, MAXFILE));
      }
    }

    /** One turn of the loop of writei. It costs the log one block if the page was there, two if not,
        and two more once for the indirect block. */
    method WriteBlock(i: nat, src: seq<Byte>, lo: nat, tot: nat, m: nat, ghost f: Fs, ghost c: int) returns (st: Step)
      requires Accounted() && Patched(f, Now(), i, lo, lo + tot, src) && lo + tot + m <= MAXFILE * BSIZE
      requires 0 < m <= BSIZE - (lo + tot) % BSIZE && tot <= |src| && i < |inodes|
      requires Afford(log, Now().At(i, MAXFILE), c)
      modifies this`bits, this`disk, this`inodes, this`owner, this`log
      ensures st.Panic? ==> forall c | 0 <= c < |bits| :: bits[c]
      ensures PageCosts(old(Now()), old(bits), Now(), i, (lo + tot) / BSIZE, st.Panic?)
      ensures !st.Panic? ==> st == if tot + m <= |src| then Full else Fault
      ensures !st.Panic? ==> Accounted() && Patched(f, Now(), i, lo, lo + if st.Full? then tot + m else |src|, src)
      ensures !st.Panic? ==> OthersKept(old(Now()), i) && old(log) <= log && Now().At(i, (lo + tot) / BSIZE) != 0
      ensures !st.Panic? ==>
                var cost := if old(Now()).Page(i, (lo + tot) / BSIZE) == [] then 2 else 1;
                Afford(log, Now().At(i, MAXFILE), c + cost)
      ensures !st.Panic? && Traced(old(log), meta, old(owner), i, (lo + tot) / BSIZE) ==>
                && Traced(log, meta, owner, i, (lo + tot) / BSIZE + 1)
                && (st.Fault? && old(Now()).Page(i, (lo + tot) / BSIZE) != [] ==>
                      Now().At(i, (lo + tot) / BSIZE) !in log)
      ensures st.Full? ==> Covered(old(Now()), Now(), log, bmapstart)
      ensures st.Fault? ==> CoveredBut(old(Now()), Now(), log, bmapstart, Now().At(i, (lo + tot) / BSIZE))
      ensures !st.Panic? ==> Ahead(old(Now()), Now(), i, (lo + tot) / BSIZE + 1)
      ensures st.Fault? ==>
                var b, page := Now().At(i, (lo + tot) / BSIZE), old(Now()).Page(i, (lo + tot) / BSIZE);
                if page == [] then b in log
                else
                  && log == old(log) && b < |old(disk)| && old(disk)[b] == page && |page| == BSIZE
                  && disk == old(disk)[b := Spliced(page, (lo + tot) % BSIZE, src[tot..])]
    {
      hide Patched, Fs.Accounted, Traced, Spliced, Ahead, PageCosts, Covered, CoveredBut, Afford;
      ghost var g := Now();
      var b := MapBlock(i, (lo + tot) / BSIZE, f, lo, lo + tot, src, c);
      if b.None? {
        return Panic;
      }
      ghost var e, l := Now(), log;
      st := CopyBlock(i, b.value, src, lo, tot, m, f);
      CostsStill(g, old(bits), e, Now(), i, (lo + tot) / BSIZE);
      AheadStill(g, e, Now(), i, (lo + tot) / BSIZE + 1);
      CopyCovered(g, e, Now(), l, bmapstart, b.value);
      CopyAfford(l, b.value, Now().At(i, MAXFILE), c + if g.Page(i, (lo + tot) / BSIZE) == [] then 2 else 0);
    }

    /** k turns into a write that began in state f with the log l0. */
    ghost predicate Writing(f: Fs, l0: seq<nat>, i: nat, src: seq<Byte>, off: nat, n: nat, tot: nat, k: nat)
      reads this
    {
      && Accounted() && tot <= |src| && Turns(off, n, tot, k) && OthersKept(f, i)
      && Patched(f, Now(), i, off, off + tot, src) && (k == 0 ==> Now() == f)
      && Afford(log, Now().At(i, MAXFILE), |Logged(l0)| + Cost(off, k))
      && Covered(f, Now(), log, bmapstart) && (l0 == [] ==> Traced(log, meta, owner, i, off / BSIZE + k))
      && Ahead(f, Now(), i, off / BSIZE + k) && Paid(f, Now(), i, off / BSIZE, k)
    }

    ghost predicate OthersKept(f: Fs, i: nat)
      reads this
    {
      i < |inodes| == |f.inodes| && forall j | 0 <= j < |inodes| && j != i :: inodes[j] == f.inodes[j]
    }

    /** The source gave out in a block: what fits of it is in the block. A new block is in the log; one
        that the file had is not, and it has changed if the bytes differ. */
    ghost predicate Torn(f: Fs, l0: seq<nat>, i: nat, src: seq<Byte>, off: nat, n: nat, tot: nat)
      requires f.Shape() && i < |f.inodes|
      reads this
    {
      && Accounted() && |src| < n && tot == Reached(off, n, |src|) && OthersKept(f, i)
      && Patched(f, Now(), i, off, off + |src|, src) && (off + tot) / BSIZE < MAXFILE
      && Now().At(i, (off + tot) / BSIZE) != 0
      && CoveredBut(f, Now(), log, bmapstart, Now().At(i, (off + tot) / BSIZE))
      && (l0 == [] ==> TornBlock(f, log, f.Page(i, (off + tot) / BSIZE), Now().At(i, (off + tot) / BSIZE), src, off, tot))
    }

    ghost predicate TornBlock(f: Fs, log: seq<nat>, page: Block, b: nat, src: seq<Byte>, off: nat, tot: nat)
      reads this
    {
      if page == [] then b in log
      else b !in log && b < |disk| == |f.disk| && (disk[b] != f.disk[b] <==> Differs(page, src, off, tot))
    }

    /** The last turn of a write whose source gives out, on a block that the file had. */
    lemma TearIff(f: Fs, g: Fs, l: seq<nat>, i: nat, b: nat, src: seq<Byte>, off: nat, tot: nat, m: nat)
      requires Covered(f, g, l, bmapstart) && b !in l && b < |g.disk| == |disk|
      requires tot <= |src| < tot + m && 0 < m <= BSIZE - (off + tot) % BSIZE && |g.disk[b]| == BSIZE
      requires disk == g.disk[b := Spliced(g.disk[b], (off + tot) % BSIZE, src[tot..])]
      ensures disk[b] != f.disk[b] <==> Differs(g.disk[b], src, off, tot)
    {
      DiffersIff(g.disk[b], src, off, tot, m);
      assert g.disk[b] == f.disk[b];
    }

    /** The allocations of a turn, and what they say of the whole write. */
    method WriteTurn(i: nat, src: seq<Byte>, off: nat, n: nat, tot: nat, ghost f: Fs, ghost l0: seq<nat>, ghost k: nat)
      returns (st: Step)
      requires f.Shape() && i < |f.inodes| && off <= f.inodes[i].size && f.Sized(i)
      requires Writing(f, l0, i, src, off, n, tot, k) && tot < n && off + n <= MAXFILE * BSIZE
      modifies this`bits, this`disk, this`inodes, this`owner, this`log
      ensures st.Panic? ==> forall c | 0 <= c < |bits| :: bits[c]
      ensures off / BSIZE + k < MAXFILE
      ensures st.Panic? ==> Free(f.bits) < WriteNeed(f, i, off / BSIZE, off / BSIZE + k + 1)
      ensures st.Full? ==> Writing(f, l0, i, src, off, n, tot + Piece(off, n, tot), k + 1)
      ensures st.Fault? ==> Torn(f, l0, i, src, off, n, tot) && Paid(f, Now(), i, off / BSIZE, k + 1)
      ensures st.Fault? ==> Afford(log, Now().At(i, MAXFILE), |Logged(l0)| + Cost(off, k + 1))
    {
      hide Patched, PagesExcept, Fs.Accounted, Fs.Page, Turns, BmapLog, Logged, Traced, Covered, CoveredBut, Reached, Piece;
      hide Paid, PageCosts, WriteNeed, TornBlock;
      var m := Piece(off, n, tot);
      NextTurn(off, n, tot, k);
      FirstPage(f, i, off);
      ghost var g, l := Now(), log;
      st := WriteBlock(i, src, off, tot, m, f, |Logged(l0)| + Cost(off, k));
      PaidMore(f, g, Now(), i, off / BSIZE, k, st.Panic?);
      if st.Fault? {
        ReachedAt(off, n, tot, k, |src|);
        CoveredButLater(f, g, Now(), l, log, bmapstart, Now().At(i, (off + tot) / BSIZE));
        if l0 == [] {
          Tear(f, g, l, i, src, off, tot, m);
        }
      } else if st.Full? {
        CoveredLater(f, g, Now(), l, log, bmapstart);
        AheadBoth(f, g, Now(), i, (off + tot) / BSIZE);
      }
    }

    /** The last turn of a write whose source gives out. */
    lemma Tear(f: Fs, g: Fs, l: seq<nat>, i: nat, src: seq<Byte>, off: nat, tot: nat, m: nat)
      requires Covered(f, g, l, bmapstart) && Ahead(f, g, i, (off + tot) / BSIZE) && (off + tot) / BSIZE < MAXFILE
      requires Now().Shape() && Alike(g, Now()) && tot <= |src| < tot + m && 0 < m <= BSIZE - (off + tot) % BSIZE
      requires var b, page := Now().At(i, (off + tot) / BSIZE), g.Page(i, (off + tot) / BSIZE);
        if page == [] then b in log
        else
          && log == l && b !in log && b < |g.disk| && g.disk[b] == page && |page| == BSIZE
          && disk == g.disk[b := Spliced(page, (off + tot) % BSIZE, src[tot..])]
      ensures TornBlock(f, log, f.Page(i, (off + tot) / BSIZE), Now().At(i, (off + tot) / BSIZE), src, off, tot)
    {
      if g.Page(i, (off + tot) / BSIZE) != [] {
        TearIff(f, g, l, i, Now().At(i, (off + tot) / BSIZE), src, off, tot, m);
      }
    }

    /** The loop of writei. */
    method WriteLoop(i: nat, src: seq<Byte>, off: nat, n: nat) returns (st: Step, tot: nat, ghost k: nat)
      requires Valid() && i < |inodes| && off <= inodes[i].size && off + n <= MAXFILE * BSIZE
      modifies this`bits, this`disk, this`inodes, this`owner, this`log
      ensures st.Panic? ==> forall c | 0 <= c < |bits| :: bits[c]
      ensures st.Panic? <==> Free(old(bits)) < WriteNeed(old(Now()), i, off / BSIZE, LastPage(off, n, |src|))
      ensures st.Full? ==> tot == n && Writing(old(Now()), old(log), i, src, off, n, n, k)
      ensures st.Fault? ==> Torn(old(Now()), old(log), i, src, off, n, tot)
      ensures st.Fault? ==> Afford(log, Now().At(i, MAXFILE), |Logged(old(log))| + Cost(off, k))
      ensures !st.Panic? && n <= CHUNK ==> Cost(off, k) + 2 < MAXOPBLOCKS
    {
      hide Patched, PagesExcept, Fs.Accounted, BmapLog, Logged, Traced, Covered, CoveredBut, Torn, Paid, WriteNeed, LastPage;
      tot, k, st := 0, 0, Full;
      ghost var f := Now();
      PatchedNothing(f, i, off, src);
      NothingLogged(Now(), log, bmapstart, meta, owner, i, off / BSIZE);
      PaidNothing(f, i, off / BSIZE);
      while tot < n
        invariant Writing(f, old(log), i, src, off, n, tot, k) && st.Full?
      {
        var m := Piece(off, n, tot);
        st := WriteTurn(i, src, off, n, tot, f, old(log), k);
        if n <= CHUNK { ChunkCost(off, n, tot, k); }
        if st.Full? {
          tot, k := tot + m, k + 1;
        } else {
          LastPageAt(off, n, tot, k, |src|);
          WriteNeedGrows(f, i, off / BSIZE, off / BSIZE + k + 1, LastPage(off, n, |src|));
          if st.Fault? {
            TornIs(f, old(log), i, src, off, n, tot);
            ReachedLast(off, n, tot, k, |src|);
            PaidIs(f, Now(), i, off / BSIZE, k + 1);
          }
          k := k + 1;
          return;
        }
      }
      if n <= CHUNK { ChunkCost(off, n, tot, k); }
      LastPageFull(off, n, k, |src|);
      PaidIs(f, Now(), i, off / BSIZE, k);
    }

    lemma TornIs(f: Fs, l0: seq<nat>, i: nat, src: seq<Byte>, off: nat, n: nat, tot: nat)
      requires f.Shape() && i < |f.inodes| && Torn(f, l0, i, src, off, n, tot)
      ensures |src| < n && tot == Reached(off, n, |src|)
    {
    }

    lemma PaidIs(f: Fs, g: Fs, i: nat, lo: nat, k: nat)
      requires Paid(f, g, i, lo, k)
      ensures lo + k <= MAXFILE && Free(f.bits) >= WriteNeed(f, i, lo, lo + k)
    {
    }

    /** What a write of tot bytes leaves: the file holds src from off as far as its size reaches, its
        inode is on disk, no other file changes, and every block that changed is in the log, except
        where the source gave out in the middle of a block: the block is then not in the log and has
        changed exactly if the file had it and the bytes that were copied differ. */
    ghost predicate Wrote(f: Fs, l0: seq<nat>, i: nat, src: seq<Byte>, off: nat, n: nat, tot: nat)
      requires f.Shape() && i < |f.inodes| && AllSized(f) && off <= f.inodes[i].size
      reads this
    {
      && Valid() && |inodes| == |f.inodes| && tot == Reached(off, n, |src|)
      && inodes[i].size == (if off + tot > f.inodes[i].size then off + tot else f.inodes[i].size)
      && Now().Content(i) == Spliced(f.Content(i), off, if |src| < n then src else src[..n])[..inodes[i].size]
      && (forall j | 0 <= j < |inodes| && j != i :: inodes[j] == f.inodes[j] && Now().Content(j) == f.Content(j))
      && stored[i] == inodes[i] && i / IPB + inodestart in log
      && (if n <= |src| then Covered(f, Now(), log, bmapstart)
          else (off + tot) / BSIZE < MAXFILE && CoveredBut(f, Now(), log, bmapstart, Now().At(i, (off + tot) / BSIZE)))
      && (l0 == [] ==> (Covered(f, Now(), log, bmapstart) <==> !Tears(f, i, src, off, n)))
      && (n <= CHUNK && l0 == [] ==> Fits(log))
    }

    /** The end of writei: the size, and iupdate. */
    method Conclude(i: nat, src: seq<Byte>, off: nat, n: nat, tot: nat, ghost hi: nat, ghost f: Fs)
      requires Accounted() && OthersKept(f, i) && f.Shape() && AllSized(f) && off <= f.inodes[i].size
      requires Patched(f, Now(), i, off, hi, src) && off + tot <= hi && hi - off <= |src|
      modifies this`inodes, this`stored, this`log
      ensures Valid() && |inodes| == |f.inodes|
      ensures inodes[i].size == if off + tot > f.inodes[i].size then off + tot else f.inodes[i].size
      ensures Now().Content(i) == Spliced(f.Content(i), off, src[..hi - off])[..inodes[i].size]
      ensures forall j | 0 <= j < |inodes| && j != i :: inodes[j] == f.inodes[j] && Now().Content(j) == f.Content(j)
      ensures stored == old(stored)[i := inodes[i]] && log == old(log) + [i / IPB + inodestart]
      ensures forall s | 0 <= s <= MAXFILE :: Now().At(i, s) == old(Now()).At(i, s)
    {
      hide Patched, Fs.Accounted, Fs.Content, Spliced;
      ghost var g := Now();
      assert g.inodes[i].size == f.inodes[i].size by { PatchedAlike(f, g, i, off, hi, src); }
      if off + tot > inodes[i].size {
        inodes := inodes[i := inodes[i].(size := off + tot)];
      }
      stored := stored[i := inodes[i]];
      log := log + [i / IPB + inodestart];
      assert Now() == Grown(g, i, off + tot);
      GrownAccounted(g, meta, {}, owner, i, off + tot);
      PatchedSized(f, g, i, off, hi, src, off + tot);
      PatchedContent(f, g, i, off, hi, src, off + tot, i);
      forall j | 0 <= j < |inodes| && j != i ensures Now().Content(j) == f.Content(j) {
        PatchedContent(f, g, i, off, hi, src, off + tot, j);
      }
    }

    /** writei of n bytes, of which those in src are readable. */
    method Writei(i: nat, src: seq<Byte>, off: nat, n: nat) returns (r: Outcome)
      requires Valid() && i < |inodes| && off < UINT && n < UINT
      modifies this
      ensures r.Panicked? ==> forall c | 0 <= c < |bits| :: bits[c]
      ensures r == Returned(-1) <==> off > old(inodes)[i].size || off + n > MAXFILE * BSIZE
      ensures r.Panicked? <==>
                && off <= old(inodes)[i].size && off + n <= MAXFILE * BSIZE
                && Free(old(bits)) < WriteNeed(old(Now()), i, off / BSIZE, LastPage(off, n, |src|))
      ensures r == Returned(-1) ==> unchanged(this)
      ensures r.Returned? && r != Returned(-1) ==> r.v >= 0 && Wrote(old(Now()), old(log), i, src, off, n, r.v)
      ensures r.Returned? && r != Returned(-1) ==> stored == old(stored)[i := inodes[i]]
    {
      hide Wrote, Fs.Accounted;
      Wraps(off, n);
      if off > inodes[i].size || (off + n) % UINT < off {
        assert off + n > MAXFILE * BSIZE || off > inodes[i].size;
        return Returned(-1);
      }
      if (off + n) % UINT > MAXFILE * BSIZE {
        return Returned(-1);
      }
      r := WriteIn(i, src, off, n);
    }

    /** writei once the range is known to be good. */
    method WriteIn(i: nat, src: seq<Byte>, off: nat, n: nat) returns (r: Outcome)
      requires Valid() && i < |inodes| && off <= inodes[i].size && off + n <= MAXFILE * BSIZE
      modifies this
      ensures r.Panicked? ==> forall c | 0 <= c < |bits| :: bits[c]
      ensures r.Panicked? <==> Free(old(bits)) < WriteNeed(old(Now()), i, off / BSIZE, LastPage(off, n, |src|))
      ensures r.Returned? ==> r.v >= 0 && Wrote(old(Now()), old(log), i, src, off, n, r.v)
      ensures r.Returned? ==> stored == old(stored)[i := inodes[i]]
    {
      hide Fs.Accounted, Fs.Sized, Writing, Torn, Wrote, Afford, Logged;
      ghost var f := Now();
      var st, tot, k := WriteLoop(i, src, off, n);
      if st.Panic? {
        return Panicked;
      }
      if st.Full? {
        FinishFull(i, src, off, n, tot, f, old(log), k);
      } else {
        FinishTorn(i, src, off, n, tot, f, old(log), k);
      }
      return Returned(tot);
    }

    /** The end of writei when all is written. */
    method FinishFull(i: nat, src: seq<Byte>, off: nat, n: nat, tot: nat, ghost f: Fs, ghost l0: seq<nat>, ghost k: nat)
      requires f.Shape() && i < |f.inodes| && AllSized(f) && off <= f.inodes[i].size && tot == n
      requires Writing(f, l0, i, src, off, n, n, k) && (n <= CHUNK ==> Cost(off, k) + 2 < MAXOPBLOCKS)
      modifies this`inodes, this`stored, this`log
      ensures Wrote(f, l0, i, src, off, n, tot) && stored == old(stored)[i := inodes[i]]
    {
      hide Fs.Accounted, Fs.Content, Fs.Sized, Patched, Logged, Covered, CoveredBut, Traced, Fits, Spliced, Reached;
      ghost var l, g := log, Now();
      Conclude(i, src, off, n, tot, off + n, f);
      ReachedIff(off, n, |src|);
      LogOneMore(f, g, Now(), l, bmapstart, i / IPB + inodestart, 0);
      if n <= CHUNK && l0 == [] {
        FitsAdd(l, i / IPB + inodestart);
      }
    }

    /** The end of writei when the source has given out. */
    method FinishTorn(i: nat, src: seq<Byte>, off: nat, n: nat, tot: nat, ghost f: Fs, ghost l0: seq<nat>, ghost k: nat)
      requires f.Shape() && i < |f.inodes| && AllSized(f) && off <= f.inodes[i].size
      requires Torn(f, l0, i, src, off, n, tot) && (n <= CHUNK ==> Cost(off, k) + 2 < MAXOPBLOCKS)
      requires Afford(log, Now().At(i, MAXFILE), |Logged(l0)| + Cost(off, k))
      modifies this`inodes, this`stored, this`log
      ensures Wrote(f, l0, i, src, off, n, tot) && stored == old(stored)[i := inodes[i]]
    {
      hide Fs.Accounted, Fs.Content, Fs.Sized, Patched, Logged, Covered, CoveredBut, Traced, Fits, Spliced, Reached;
      ghost var l, g := log, Now();
      assert src[..|src|] == src;
      Conclude(i, src, off, n, tot, off + |src|, f);
      ghost var torn := Now().At(i, (off + tot) / BSIZE);
      SlotOwned(Now(), meta, {}, owner, i, (off + tot) / BSIZE);
      LogOneMore(f, g, Now(), l, bmapstart, i / IPB + inodestart, torn);
      if l0 == [] {
        PageSize(f, i, (off + tot) / BSIZE);
        TornCovered(f, Now(), l, bmapstart, i / IPB + inodestart, torn);
      }
      if n <= CHUNK && l0 == [] {
        FitsAdd(l, i / IPB + inodestart);
      }
    }

    /** What writei has written in full readi gives back, in whichever blocks it lies. */
    method WriteThenRead(i: nat, src: seq<Byte>, off: nat, n: nat) returns (w: Outcome, r: int, data: seq<Byte>)
      requires Valid() && i < |inodes| && off < UINT && n < UINT
      modifies this
      ensures w == Returned(n) ==> r == n && n <= |src| && data == src[..n]
    {
      hide Fs.Accounted, Fs.Content, Covered, CoveredBut, Fits, Spliced, WriteNeed, LastPage, Free, Tears;
      r, data := 0, [];
      ghost var c := Now().Content(i);
      w := Writei(i, src, off, n);
      if w == Returned(n) {
        ReachedIff(off, n, |src|);
        SplicedBack(c, off, src[..n]);
        ghost var now := Now().Content(i);
        assert now[..|now|] == now && now == Spliced(c, off, src[..n]);
        r, data := Readi(i, off, n, n);
      }
    }

    /** Part of a write from off is done: all of src below p is in the file, whose size has followed.
        Nothing of a write that starts past the end is ever done. */
    ghost predicate Appended(f: Fs, i: nat, src: seq<Byte>, off: nat, p: nat)
      requires f.Shape() && i < |f.inodes| && AllSized(f)
      reads this
    {
      && Valid() && |inodes| == |f.inodes| && p <= |src|
      && (if off <= f.inodes[i].size then Now().Content(i) == Spliced(f.Content(i), off, src[..p])
          else p == 0 && Now() == f)
      && (forall j | 0 <= j < |inodes| && j != i :: Now().Content(j) == f.Content(j))
    }

    /** The write stopped at done bytes: what src holds below w, less than a block on, is in the file
        as far as its size reaches. */
    ghost predicate Stopped(f: Fs, i: nat, src: seq<Byte>, off: nat, done: nat, w: nat)
      requires f.Shape() && i < |f.inodes| && AllSized(f)
      reads this
    {
      && Valid() && |inodes| == |f.inodes| && done <= w <= |src| && w - done < BSIZE
      && (if off <= f.inodes[i].size then
            && inodes[i].size == (if off + done > f.inodes[i].size then off + done else f.inodes[i].size)
            && Now().Content(i) == Spliced(f.Content(i), off, src[..w])[..inodes[i].size]
          else done == 0 && Now() == f)
      && (forall j | 0 <= j < |inodes| && j != i :: Now().Content(j) == f.Content(j))
    }

    /** One transaction of filewrite. */
    method WriteChunk(i: nat, src: seq<Byte>, off: nat, p: nat, n1: nat, ghost f: Fs) returns (r: Outcome, ghost w: nat)
      requires f.Shape() && i < |f.inodes| && AllSized(f)
      requires Appended(f, i, src, off, p) && 0 < n1 <= CHUNK && off + p < UINT
      modifies this
      ensures r.Panicked? ==> forall c | 0 <= c < |bits| :: bits[c]
      ensures r.Returned? ==>
                (r.v == n1 <==> off <= f.inodes[i].size && off + p + n1 <= MAXFILE * BSIZE && p + n1 <= |src|)
      ensures r.Returned? ==> -1 <= r.v <= n1 && Fits(log)
      ensures r.Returned? ==>
                (Covered(old(Now()), Now(), log, bmapstart) <==> r.v < 0 || !Tears(old(Now()), i, src[p..], off + p, n1))
      ensures r.Returned? && r.v == n1 ==> Covered(old(Now()), Now(), log, bmapstart)
      ensures r.Returned? && r.v == n1 ==> Appended(f, i, src, off, p + n1)
      ensures r.Returned? && r.v != n1 ==> w < p + n1 && Stopped(f, i, src, off, p + if r.v > 0 then r.v else 0, w)
    {
      hide Fs.Accounted, Fs.Content, Fs.Sized, Fs.Shape, Spliced, Covered, CoveredBut, Reached, WriteNeed, LastPage, Free, Tears;
      log := [];
      r := Writei(i, src[p..], off + p, n1);
      w := p;
      if r.Returned? && r.v >= 0 {
        w := if |src| - p < n1 then |src| else p + n1;
        ChunkSplice(f.Content(i), off, src, p, n1, w);
        ReachedIff(off + p, n1, |src| - p);
      } else if r.Returned? {
        NothingLogged(Now(), log, bmapstart, meta, owner, i, 0);
        assert Now().Content(i)[..inodes[i].size] == Now().Content(i);
      }
    }

    /** filewrite on an inode at file offset off, of n bytes of which those in src are readable: a
        transaction for each chunk, and none outgrows its share of the log or, unless the source gives
        out in it, leaves a change out of the log. Either all is written, or the answer is -1 and the
        offset says how far the write got. */
    method Filewrite(i: nat, src: seq<Byte>, off: nat, n: int)
      returns (r: Outcome, end: nat, ghost w: nat, ghost logs: seq<seq<nat>>, ghost states: seq<Fs>)
      requires Valid() && i < |inodes| && off < UINT && n < 0x8000_0000
      modifies this
      ensures r.Returned? ==> Transactions(states, logs, bmapstart, r.v == n) && states[0] == old(Now()) && states[|logs|] == Now()
      ensures r.Returned? ==>
                |logs| == if n <= 0 then 0 else if r.v == n then Chunks(n) else (end - off) / CHUNK + 1
      ensures r.Panicked? ==> forall c | 0 <= c < |bits| :: bits[c]
      ensures r.Returned? && n >= 0 ==>
                (r.v == n <==> n == 0 || (off <= old(inodes)[i].size && off + n <= MAXFILE * BSIZE && n <= |src|))
      ensures r.Returned? && r.v == n && n >= 0 ==> end == off + n && Appended(old(Now()), i, src, off, n)
      ensures r.Returned? && !(r.v == n && n >= 0) ==>
                r.v == -1 && off <= end && Stopped(old(Now()), i, src, off, end - off, w) && (n >= 0 ==> w < n)
    {
      hide Fs.Accounted, Fs.Content, Spliced, Fits, Stopped, Appended, Covered, Tears, Transactions, Begun, Chunks;
      logs, end, w := [], off, 0;
      states := [Now()];
      var p := 0;
      ghost var f := Now();
      NoneYet(f, i, src, off);
      NoTransactions(f, bmapstart);
      if n > 0 { BegunNone(n); }
      while p < n
        invariant 0 <= p && (p <= n || p == 0) && end == off + p && w == p
        invariant Appended(f, i, src, off, p) && (p > 0 ==> off <= f.inodes[i].size && off + p <= MAXFILE * BSIZE && p <= |src|)
        invariant p == 0 ==> Stopped(f, i, src, off, 0, 0)
        invariant |states| == |logs| + 1 && states[0] == f && states[|logs|] == Now()
        invariant Transactions(states, logs, bmapstart, true) && Transactions(states, logs, bmapstart, false)
        invariant if n <= 0 then |logs| == 0 else Begun(p, n, |logs|)
      {
        var n1 := if n - p > CHUNK then CHUNK else n - p;
        r, w := WriteChunk(i, src, off, p, n1, f);
        if r.Panicked? {
          return;
        }
        TransactionsMore(states, logs, bmapstart, log, Now(), r.v == n1);
        logs, states := logs + [log], states + [Now()];
        BegunNext(p, n, |logs| - 1, n1, if r.v > 0 then r.v else 0);
        if r.v > 0 {
          end := end + r.v;
        }
        if r.v != n1 {
          return Returned(-1), end, w, logs, states;
        }
        p, w := p + r.v, p + r.v;
      }
      if n > 0 { BegunAll(n, |logs|); }
      r := Returned(if p == n then n else -1);
    }

    ghost method NoneYet(f: Fs, i: nat, src: seq<Byte>, off: nat)
      requires Valid() && f == Now() && i < |inodes|
      ensures Appended(f, i, src, off, 0) && Stopped(f, i, src, off, 0, 0)
    {
      assert f.Content(i)[..inodes[i].size] == f.Content(i);
    }
  }
}
