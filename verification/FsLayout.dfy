/** The file system of kernel/fs.c below directories, as a value: the free bitmap, the blocks and
    the inodes. Block contents are bytes; an indirect block is read as little-endian words. */
module FsLayout {

  import opened Basics

  const BSIZE: nat := 1024
  const NDIRECT: nat := 12
  const NINDIRECT: nat := 256
  const MAXFILE: nat := NDIRECT + NINDIRECT
  const BPB: nat := 8192

  type Block = seq<Byte>

  function Zeros(): (z: Block)
    ensures |z| == BSIZE && forall k | 0 <= k < BSIZE :: z[k] == 0
  {
    seq(BSIZE, _ => 0)
  }

  /** ((uint*)data)[j] */
  function Word(x: Block, j: nat): (w: nat)
    requires |x| == BSIZE && j < NINDIRECT
  {
    x[4 * j] as int + 0x100 * (x[4 * j + 1] as int) + 0x1_0000 * (x[4 * j + 2] as int) + 0x100_0000 * (x[4 * j + 3] as int)
  }

  function SetWord(x: Block, j: nat, w: nat): (y: Block)
    requires |x| == BSIZE && j < NINDIRECT
    ensures |y| == BSIZE
  {
    x[4 * j := w % 0x100][4 * j + 1 := w / 0x100 % 0x100][4 * j + 2 := w / 0x1_0000 % 0x100][4 * j + 3 := w / 0x100_0000 % 0x100]
  }

  lemma WordSet(x: Block, j: nat, w: nat, k: nat)
    requires |x| == BSIZE && j < NINDIRECT && k < NINDIRECT && w < 0x1_0000_0000
    ensures Word(SetWord(x, j, w), k) == if k == j then w else Word(x, k)
  {
    Digits(w);
  }

  /** Little end first, in four bytes that no other entry has. */
  lemma WordBytes(x: Block, j: nat, w: nat, k: nat)
    requires |x| == BSIZE && j < NINDIRECT && k < BSIZE
    ensures SetWord(x, j, w)[k] == if k == 4 * j then w % 0x100 else if k == 4 * j + 1 then w / 0x100 % 0x100
                                   else if k == 4 * j + 2 then w / 0x1_0000 % 0x100
                                   else if k == 4 * j + 3 then w / 0x100_0000 % 0x100
                                   else x[k]
  {
  }

  lemma Digits(w: nat)
    requires w < 0x1_0000_0000
    ensures w == w % 0x100 + 0x100 * (w / 0x100 % 0x100) + 0x1_0000 * (w / 0x1_0000 % 0x100) + 0x100_0000 * (w / 0x100_0000 % 0x100)
  {
  }

  datatype Inode = Inode(size: nat, addrs: seq<nat>)

  /** bits is the free map, disk the blocks as the cache shows them, inodes the in-memory inodes. */
  datatype Fs = Fs(bits: seq<bool>, disk: seq<Block>, inodes: seq<Inode>) {

    ghost predicate Shape()
    {
      && |bits| == |disk| < 0x8000_0000
      && (forall b | 0 <= b < |disk| :: |disk[b]| == BSIZE)
      && (forall i | 0 <= i < |inodes| :: |inodes[i].addrs| == NDIRECT + 1)
      && (forall i | 0 <= i < |inodes| :: inodes[i].addrs[NDIRECT] < |disk|)
    }

    /** The block that inode i has in slot s: slots below MAXFILE are its data blocks, slot MAXFILE
        is its indirect block. 0 is none. */
    ghost function At(i: nat, s: nat): nat
      requires Shape() && i < |inodes| && s <= MAXFILE
    {
      var a := inodes[i].addrs;
      if s < NDIRECT then a[s]
      else if s == MAXFILE then a[NDIRECT]
      else if a[NDIRECT] == 0 then 0
      else Word(disk[a[NDIRECT]], s - NDIRECT)
    }

    /** The contents of that block; nothing where there is none. */
    ghost function Page(i: nat, s: nat): Block
      requires Shape() && i < |inodes| && s <= MAXFILE
    {
      if 0 < At(i, s) < |disk| then disk[At(i, s)] else []
    }

    /** Every block that some slot holds is recorded with that slot as its one owner. */
    ghost predicate SlotOk(owner: map<nat, (nat, nat)>, i: nat, s: nat)
      requires Shape() && i < |inodes| && s <= MAXFILE
    {
      At(i, s) != 0 ==> At(i, s) in owner && owner[At(i, s)] == (i, s)
    }

    ghost predicate OwnerOk(meta: nat, hand: set<nat>, owner: map<nat, (nat, nat)>, b: nat)
      requires Shape() && b in owner
    {
      var i, s := owner[b].0, owner[b].1;
      i < |inodes| && s <= MAXFILE && At(i, s) == b && meta <= b < |bits| && b !in hand
    }

    /** The set bits are exactly the metadata blocks, the blocks in hand, that is, allocated but not
        yet in an inode, and the blocks that inodes own, each in one slot of one inode. */
    ghost predicate Accounted(meta: nat, hand: set<nat>, owner: map<nat, (nat, nat)>)
    {
      && Shape() && 0 < meta <= |bits|
      && (forall i, s | 0 <= i < |inodes| && 0 <= s <= MAXFILE :: SlotOk(owner, i, s))
      && (forall b <- owner :: OwnerOk(meta, hand, owner, b))
      && (forall b <- hand :: meta <= b < |bits|)
      && (forall b | 0 <= b < |bits| :: bits[b] <==> b < meta || b in hand || b in owner)
    }

    /** No holes: every block below the size exists. */
    ghost predicate Sized(i: nat)
      requires Shape() && i < |inodes|
    {
      && inodes[i].size <= MAXFILE * BSIZE
      && (forall s | 0 <= s < MAXFILE && s * BSIZE < inodes[i].size :: Page(i, s) != [])
    }

    /** What the file holds. */
    ghost function Content(i: nat): (c: seq<Byte>)
      requires Shape() && i < |inodes| && Sized(i)
      ensures |c| == inodes[i].size
    {
      seq(inodes[i].size, k requires 0 <= k < inodes[i].size => Page(i, k / BSIZE)[k % BSIZE])
    }
  }

  /** What Accounted means for every block and any two slots. */
  lemma Ownership(f: Fs, meta: nat, owner: map<nat, (nat, nat)>, b: nat, i: nat, s: nat, j: nat, t: nat)
    requires f.Accounted(meta, {}, owner) && b < |f.bits|
    requires i < |f.inodes| && s <= MAXFILE && j < |f.inodes| && t <= MAXFILE
    ensures f.bits[b] <==> b < meta || exists k: nat, u: nat :: k < |f.inodes| && u <= MAXFILE && f.At(k, u) == b != 0
    ensures f.At(i, s) == f.At(j, t) != 0 ==> i == j && s == t
    ensures f.At(i, s) != 0 ==> meta <= f.At(i, s) < |f.bits|
  {
    assert f.SlotOk(owner, i, s) && f.SlotOk(owner, j, t);
    if f.bits[b] && b >= meta {
      assert f.OwnerOk(meta, {}, owner, b);
      assert f.At(owner[b].0, owner[b].1) == b;
    }
    if k: nat, u: nat :| k < |f.inodes| && u <= MAXFILE && f.At(k, u) == b != 0 {
      assert f.SlotOk(owner, k, u);
    }
  }

  lemma SlotOwned(f: Fs, meta: nat, hand: set<nat>, owner: map<nat, (nat, nat)>, i: nat, s: nat)
    requires f.Accounted(meta, hand, owner) && i < |f.inodes| && s <= MAXFILE && f.At(i, s) != 0
    ensures f.At(i, s) in owner && owner[f.At(i, s)] == (i, s) && meta <= f.At(i, s) < |f.bits|
    ensures f.bits[f.At(i, s)] && f.At(i, s) !in hand && f.Page(i, s) == f.disk[f.At(i, s)] != []
  {
    assert f.SlotOk(owner, i, s);
    assert f.OwnerOk(meta, hand, owner, f.At(i, s));
  }

  // How one step changes the slots and the pages of all inodes.

  ghost predicate Alike(f: Fs, g: Fs)
  {
    && f.Shape() && g.Shape() && |f.inodes| == |g.inodes| && |f.disk| == |g.disk|
    && (forall j | 0 <= j < |f.inodes| :: g.inodes[j].size == f.inodes[j].size)
  }

  ghost predicate AtExcept(f: Fs, g: Fs, i: nat, s: nat, b: nat)
  {
    && Alike(f, g)
    && (forall j, t | 0 <= j < |f.inodes| && 0 <= t <= MAXFILE ::
          g.At(j, t) == if j == i && t == s then b else f.At(j, t))
  }

  ghost predicate PagesSame(f: Fs, g: Fs)
  {
    && Alike(f, g)
    && (forall j, t | 0 <= j < |f.inodes| && 0 <= t < MAXFILE :: g.Page(j, t) == f.Page(j, t))
  }

  ghost predicate PagesExcept(f: Fs, g: Fs, i: nat, s: nat, x: Block)
  {
    && Alike(f, g)
    && (forall j, t | 0 <= j < |f.inodes| && 0 <= t < MAXFILE ::
          g.Page(j, t) == if j == i && t == s then x else f.Page(j, t))
  }

  /** balloc: mark the block and zero it. */
  ghost function Allocated(f: Fs, b: nat): Fs
    requires b < |f.bits| == |f.disk|
  {
    f.(bits := f.bits[b := true], disk := f.disk[b := Zeros()])
  }

  lemma AllocateKeeps(f: Fs, meta: nat, hand: set<nat>, owner: map<nat, (nat, nat)>, b: nat)
    requires f.Accounted(meta, hand, owner) && b < |f.bits| && !f.bits[b]
    ensures meta <= b && b !in hand && b !in owner
    ensures Allocated(f, b).Accounted(meta, hand + {b}, owner)
    ensures PagesSame(f, Allocated(f, b))
    ensures forall i, s | 0 <= i < |f.inodes| && 0 <= s <= MAXFILE :: Allocated(f, b).At(i, s) == f.At(i, s)
  {
    var g := Allocated(f, b);
    forall i, s | 0 <= i < |f.inodes| && 0 <= s <= MAXFILE ensures g.At(i, s) == f.At(i, s) {
      assert f.SlotOk(owner, i, MAXFILE);
    }
    forall i, s | 0 <= i < |g.inodes| && 0 <= s <= MAXFILE ensures g.SlotOk(owner, i, s) {
      assert f.SlotOk(owner, i, s);
    }
    forall x <- owner ensures g.OwnerOk(meta, hand + {b}, owner, x) {
      assert f.OwnerOk(meta, hand, owner, x);
    }
    forall i, s | 0 <= i < |f.inodes| && 0 <= s < MAXFILE ensures g.Page(i, s) == f.Page(i, s) {
      assert f.SlotOk(owner, i, s);
    }
  }

  /** Any step that puts the block in hand into the empty slot s of inode i, and changes no other
      slot, keeps the accounts. */
  lemma AttachAccounted(f: Fs, g: Fs, meta: nat, hand: set<nat>, owner: map<nat, (nat, nat)>, i: nat, s: nat, b: nat)
    requires f.Accounted(meta, hand, owner) && AtExcept(f, g, i, s, b) && g.bits == f.bits
    requires i < |f.inodes| && s <= MAXFILE && f.At(i, s) == 0 && b in hand
    ensures g.Accounted(meta, hand - {b}, owner[b := (i, s)])
  {
    var now := owner[b := (i, s)];
    assert b in owner ==> f.OwnerOk(meta, hand, owner, b);
    forall j, t | 0 <= j < |g.inodes| && 0 <= t <= MAXFILE ensures g.SlotOk(now, j, t) {
      assert f.SlotOk(owner, j, t);
    }
    forall x <- now ensures g.OwnerOk(meta, hand - {b}, now, x) {
      if x != b { assert f.OwnerOk(meta, hand, owner, x); }
    }
  }

  ghost function SetAddr(f: Fs, i: nat, s: nat, b: nat): Fs
    requires i < |f.inodes| && s < |f.inodes[i].addrs|
  {
    f.(inodes := f.inodes[i := f.inodes[i].(addrs := f.inodes[i].addrs[s := b])])
  }

  lemma AttachDirect(f: Fs, i: nat, s: nat, b: nat)
    requires f.Shape() && i < |f.inodes| && s < NDIRECT && 0 < b < |f.disk| && f.At(i, s) == 0
    ensures AtExcept(f, SetAddr(f, i, s, b), i, s, b)
    ensures PagesExcept(f, SetAddr(f, i, s, b), i, s, f.disk[b])
  {
  }

  /** A zeroed indirect block adds no data blocks. */
  lemma AttachRoot(f: Fs, i: nat, b: nat)
    requires f.Shape() && i < |f.inodes| && 0 < b < |f.disk| && f.disk[b] == Zeros() && f.At(i, MAXFILE) == 0
    ensures AtExcept(f, SetAddr(f, i, NDIRECT, b), i, MAXFILE, b)
    ensures PagesSame(f, SetAddr(f, i, NDIRECT, b))
  {
  }

  ghost function SetSlot(f: Fs, i: nat, j: nat, b: nat): Fs
    requires f.Shape() && i < |f.inodes| && j < NINDIRECT
  {
    var ind := f.inodes[i].addrs[NDIRECT];
    f.(disk := f.disk[ind := SetWord(f.disk[ind], j, b)])
  }

  lemma AttachSlot(f: Fs, meta: nat, hand: set<nat>, owner: map<nat, (nat, nat)>, i: nat, s: nat, b: nat)
    requires f.Accounted(meta, hand, owner) && i < |f.inodes| && NDIRECT <= s < MAXFILE
    requires f.At(i, MAXFILE) != 0 && f.At(i, s) == 0 && b in hand
    ensures AtExcept(f, SetSlot(f, i, s - NDIRECT, b), i, s, b)
    ensures PagesExcept(f, SetSlot(f, i, s - NDIRECT, b), i, s, f.disk[b])
  {
    var g := SetSlot(f, i, s - NDIRECT, b);
    SlotOwned(f, meta, hand, owner, i, MAXFILE);
    AttachSlotAt(f, meta, hand, owner, i, s, b);
    forall j, t | 0 <= j < |f.inodes| && 0 <= t < MAXFILE
      ensures g.Page(j, t) == if j == i && t == s then f.disk[b] else f.Page(j, t)
    {
      if f.At(j, t) != 0 { SlotOwned(f, meta, hand, owner, j, t); }
    }
  }

  lemma AttachSlotAt(f: Fs, meta: nat, hand: set<nat>, owner: map<nat, (nat, nat)>, i: nat, s: nat, b: nat)
    requires f.Accounted(meta, hand, owner) && i < |f.inodes| && NDIRECT <= s < MAXFILE
    requires f.At(i, MAXFILE) != 0 && f.At(i, s) == 0 && b in hand
    ensures AtExcept(f, SetSlot(f, i, s - NDIRECT, b), i, s, b)
  {
    var g := SetSlot(f, i, s - NDIRECT, b);
    var ind := f.At(i, MAXFILE);
    SlotOwned(f, meta, hand, owner, i, MAXFILE);
    forall j, t | 0 <= j < |f.inodes| && 0 <= t <= MAXFILE
      ensures g.At(j, t) == if j == i && t == s then b else f.At(j, t)
    {
      if j == i && NDIRECT <= t < MAXFILE {
        WordSet(f.disk[ind], s - NDIRECT, b, t - NDIRECT);
      } else if NDIRECT <= t < MAXFILE && f.At(j, MAXFILE) != 0 {
        SlotOwned(f, meta, hand, owner, j, MAXFILE);
      }
    }
  }

  // bmap

  ghost predicate Extends(was: map<nat, (nat, nat)>, now: map<nat, (nat, nat)>)
  {
    forall b <- was :: b in now && now[b] == was[b]
  }

  /** What mapping slot bn of inode i to block b does: the slot keeps its page, or gets a zeroed one,
      and no other page, size or inode changes. */
  ghost predicate Mapped(f: Fs, g: Fs, i: nat, bn: nat, b: nat)
    requires f.Shape() && i < |f.inodes| && bn < MAXFILE
  {
    && PagesExcept(f, g, i, bn, if f.At(i, bn) == 0 then Zeros() else f.Page(i, bn))
    && g.At(i, bn) == b != 0
    && (forall j | 0 <= j < |f.inodes| && j != i :: g.inodes[j] == f.inodes[j])
  }

  lemma MapNothing(f: Fs, i: nat, bn: nat)
    requires f.Shape() && i < |f.inodes| && bn < MAXFILE && f.At(i, bn) != 0
    ensures Mapped(f, f, i, bn, f.At(i, bn))
  {
  }

  lemma MapDirect(f: Fs, meta: nat, hand: set<nat>, owner: map<nat, (nat, nat)>, i: nat, bn: nat, b: nat)
    requires f.Accounted(meta, hand, owner) && i < |f.inodes| && bn < NDIRECT && f.At(i, bn) == 0
    requires b < |f.bits| && !f.bits[b]
    ensures var g := SetAddr(Allocated(f, b), i, bn, b);
            && g.Accounted(meta, hand, owner[b := (i, bn)]) && Extends(owner, owner[b := (i, bn)]) && Mapped(f, g, i, bn, b)
            && g.At(i, MAXFILE) == f.At(i, MAXFILE)
  {
    hide Fs.Accounted;
    AllocateKeeps(f, meta, hand, owner, b);
    var e := Allocated(f, b);
    AttachDirect(e, i, bn, b);
    AttachAccounted(e, SetAddr(e, i, bn, b), meta, hand + {b}, owner, i, bn, b);
    assert hand + {b} - {b} == hand;
  }

  /** The same for the indirect block: it changes no page. */
  lemma MapRoot(f: Fs, meta: nat, hand: set<nat>, owner: map<nat, (nat, nat)>, i: nat, b: nat)
    requires f.Accounted(meta, hand, owner) && i < |f.inodes| && f.At(i, MAXFILE) == 0
    requires b < |f.bits| && !f.bits[b]
    ensures var g := SetAddr(Allocated(f, b), i, NDIRECT, b);
            && g.Accounted(meta, hand, owner[b := (i, MAXFILE)]) && Extends(owner, owner[b := (i, MAXFILE)])
            && PagesSame(f, g) && g.At(i, MAXFILE) == b != 0
            && (forall t | 0 <= t < MAXFILE :: g.At(i, t) == f.At(i, t))
  {
    hide Fs.Accounted;
    AllocateKeeps(f, meta, hand, owner, b);
    var e := Allocated(f, b);
    AttachRoot(e, i, b);
    AttachAccounted(e, SetAddr(e, i, NDIRECT, b), meta, hand + {b}, owner, i, MAXFILE, b);
    assert hand + {b} - {b} == hand;
  }

  lemma MapSlot(f: Fs, meta: nat, hand: set<nat>, owner: map<nat, (nat, nat)>, i: nat, bn: nat, b: nat)
    requires f.Accounted(meta, hand, owner) && i < |f.inodes| && NDIRECT <= bn < MAXFILE
    requires f.At(i, MAXFILE) != 0 && f.At(i, bn) == 0 && b < |f.bits| && !f.bits[b]
    ensures Allocated(f, b).Shape()
    ensures var g := SetSlot(Allocated(f, b), i, bn - NDIRECT, b);
            && g.Accounted(meta, hand, owner[b := (i, bn)]) && Extends(owner, owner[b := (i, bn)]) && Mapped(f, g, i, bn, b)
            && g.At(i, MAXFILE) == f.At(i, MAXFILE)
  {
    hide Fs.Accounted;
    AllocateKeeps(f, meta, hand, owner, b);
    var e := Allocated(f, b);
    AttachSlot(e, meta, hand + {b}, owner, i, bn, b);
    AttachAccounted(e, SetSlot(e, i, bn - NDIRECT, b), meta, hand + {b}, owner, i, bn, b);
    assert hand + {b} - {b} == hand;
  }

  /** New bytes in a data block change the page of its one owner and no slot. */
  lemma WritePage(f: Fs, meta: nat, hand: set<nat>, owner: map<nat, (nat, nat)>, i: nat, s: nat, x: Block)
    requires f.Accounted(meta, hand, owner) && i < |f.inodes| && s < MAXFILE && f.At(i, s) != 0 && |x| == BSIZE
    ensures f.At(i, s) < |f.disk|
    ensures f.(disk := f.disk[f.At(i, s) := x]).Accounted(meta, hand, owner)
    ensures PagesExcept(f, f.(disk := f.disk[f.At(i, s) := x]), i, s, x)
    ensures forall j, t | 0 <= j < |f.inodes| && 0 <= t <= MAXFILE ::
              f.(disk := f.disk[f.At(i, s) := x]).At(j, t) == f.At(j, t)
  {
    SlotOwned(f, meta, hand, owner, i, s);
    var b := f.At(i, s);
    var g := f.(disk := f.disk[b := x]);
    forall j, t | 0 <= j < |f.inodes| && 0 <= t <= MAXFILE ensures g.At(j, t) == f.At(j, t) {
      if f.At(j, MAXFILE) != 0 { SlotOwned(f, meta, hand, owner, j, MAXFILE); }
    }
    forall j, t | 0 <= j < |g.inodes| && 0 <= t <= MAXFILE ensures g.SlotOk(owner, j, t) {
      assert f.SlotOk(owner, j, t);
    }
    forall y <- owner ensures g.OwnerOk(meta, hand, owner, y) {
      assert f.OwnerOk(meta, hand, owner, y);
    }
    forall j, t | 0 <= j < |f.inodes| && 0 <= t < MAXFILE
      ensures g.Page(j, t) == if j == i && t == s then x else f.Page(j, t)
    {
      if f.At(j, t) != 0 { SlotOwned(f, meta, hand, owner, j, t); }
    }
  }

  // itrunc

  /** The free map once the blocks in the slots of inode i below k are freed. */
  ghost function Freed(bits: seq<bool>, owner: map<nat, (nat, nat)>, i: nat, k: nat): (r: seq<bool>)
    ensures |r| == |bits|
  {
    seq(|bits|, b requires 0 <= b < |bits| => bits[b] && !(b in owner && owner[b].0 == i && owner[b].1 < k))
  }

  lemma FreedNone(bits: seq<bool>, owner: map<nat, (nat, nat)>, i: nat)
    ensures Freed(bits, owner, i, 0) == bits
  {
  }

  lemma FreedStep(f: Fs, meta: nat, hand: set<nat>, owner: map<nat, (nat, nat)>, i: nat, k: nat)
    requires f.Accounted(meta, hand, owner) && i < |f.inodes| && k <= MAXFILE
    ensures f.At(i, k) == 0 ==> Freed(f.bits, owner, i, k + 1) == Freed(f.bits, owner, i, k)
    ensures f.At(i, k) != 0 ==> f.At(i, k) < |f.bits| && Freed(f.bits, owner, i, k)[f.At(i, k)]
    ensures f.At(i, k) != 0 ==> Freed(f.bits, owner, i, k + 1) == Freed(f.bits, owner, i, k)[f.At(i, k) := false]
  {
    assert f.SlotOk(owner, i, k);
    forall b <- owner ensures owner[b] == (i, k) ==> b == f.At(i, k) != 0 {
      assert f.OwnerOk(meta, hand, owner, b);
    }
    if f.At(i, k) != 0 { SlotOwned(f, meta, hand, owner, i, k); }
  }

  /** Without an indirect block nothing is left after the direct slots. */
  lemma FreedRest(f: Fs, meta: nat, hand: set<nat>, owner: map<nat, (nat, nat)>, i: nat)
    requires f.Accounted(meta, hand, owner) && i < |f.inodes| && f.At(i, MAXFILE) == 0
    ensures Freed(f.bits, owner, i, NDIRECT) == Freed(f.bits, owner, i, MAXFILE + 1)
  {
  }

  ghost function Disowned(owner: map<nat, (nat, nat)>, i: nat): map<nat, (nat, nat)>
  {
    map b | b in owner && owner[b].0 != i :: owner[b]
  }

  function NoAddrs(): (a: seq<nat>)
    ensures |a| == NDIRECT + 1 && forall k | 0 <= k < |a| :: a[k] == 0
  {
    seq(NDIRECT + 1, _ => 0)
  }

  ghost function Emptied(f: Fs, owner: map<nat, (nat, nat)>, i: nat): Fs
    requires i < |f.inodes|
  {
    f.(bits := Freed(f.bits, owner, i, MAXFILE + 1), inodes := f.inodes[i := Inode(0, NoAddrs())])
  }

  lemma EmptiedAccounted(f: Fs, meta: nat, owner: map<nat, (nat, nat)>, i: nat)
    requires f.Accounted(meta, {}, owner) && i < |f.inodes|
    ensures Emptied(f, owner, i).Accounted(meta, {}, Disowned(owner, i))
  {
    var g, now := Emptied(f, owner, i), Disowned(owner, i);
    forall j, t | 0 <= j < |g.inodes| && 0 <= t <= MAXFILE ensures g.SlotOk(now, j, t) {
      assert f.SlotOk(owner, j, t);
    }
    forall x <- now ensures g.OwnerOk(meta, {}, now, x) {
      assert f.OwnerOk(meta, {}, owner, x);
    }
    forall b <- owner ensures owner[b].1 <= MAXFILE && b >= meta {
      assert f.OwnerOk(meta, {}, owner, b);
    }
  }

  /** Emptying an inode frees exactly the blocks in its slots, and changes nothing of other files. */
  lemma EmptiedFrees(f: Fs, meta: nat, owner: map<nat, (nat, nat)>, i: nat)
    requires f.Accounted(meta, {}, owner) && i < |f.inodes|
    ensures forall b | 0 <= b < |f.bits| ::
              Emptied(f, owner, i).bits[b] <==> f.bits[b] && (b == 0 || forall s | 0 <= s <= MAXFILE :: f.At(i, s) != b)
    ensures forall j, t | 0 <= j < |f.inodes| && j != i && 0 <= t <= MAXFILE ::
              Emptied(f, owner, i).Page(j, t) == f.Page(j, t)
  {
    var g := Emptied(f, owner, i);
    forall b | 0 <= b < |f.bits|
      ensures g.bits[b] <==> f.bits[b] && (b == 0 || forall s | 0 <= s <= MAXFILE :: f.At(i, s) != b)
    {
      assert b in owner ==> f.OwnerOk(meta, {}, owner, b);
      forall s | 0 <= s <= MAXFILE ensures f.At(i, s) == b != 0 ==> b in owner && owner[b] == (i, s) {
        assert f.SlotOk(owner, i, s);
      }
    }
  }
}
