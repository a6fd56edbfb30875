/** File contents as bytes: what one block-sized copy of writei does to a file, and what readi
    collects. */
module FsContent {

  import opened Basics
  import opened FsLayout

  /** c with data at off, grown where data reaches past its end. */
  function Spliced(c: seq<Byte>, off: nat, data: seq<Byte>): (r: seq<Byte>)
    requires off <= |c|
    ensures |r| == if off + |data| < |c| then |c| else off + |data|
  {
    c[..off] + data + if off + |data| < |c| then c[off + |data|..] else []
  }

  lemma SplicedBack(c: seq<Byte>, off: nat, data: seq<Byte>)
    requires off <= |c|
    ensures Spliced(c, off, data)[off..off + |data|] == data
  {
  }

  lemma SplicedTwice(c: seq<Byte>, off: nat, src: seq<Byte>, p: nat, w: nat)
    requires off <= |c| && p <= w <= |src|
    ensures src[p..][..w - p] == src[p..w]
    ensures Spliced(Spliced(c, off, src[..p]), off + p, src[p..w]) == Spliced(c, off, src[..w])
  {
  }

  /** File positions k in the block of off, at and after off. */
  lemma InBlock(off: nat, m: nat, k: nat)
    requires 0 < m <= BSIZE - off % BSIZE
    ensures off <= k < off + m <==> k / BSIZE == off / BSIZE && off % BSIZE <= k % BSIZE < off % BSIZE + m
    ensures off <= k < off + m ==> k % BSIZE == off % BSIZE + (k - off)
  {
  }

  /** Byte k of inode i in g is that of f, or for lo <= k < hi the byte of data for it. */
  ghost predicate ByteOk(f: Fs, g: Fs, i: nat, lo: nat, hi: nat, data: seq<Byte>, k: nat)
    requires Alike(f, g) && i < |f.inodes| && k < MAXFILE * BSIZE && lo <= hi && hi - lo <= |data|
  {
    if lo <= k < hi then |g.Page(i, k / BSIZE)| == BSIZE && g.Page(i, k / BSIZE)[k % BSIZE] == data[k - lo]
    else |f.Page(i, k / BSIZE)| == BSIZE ==>
      |g.Page(i, k / BSIZE)| == BSIZE && g.Page(i, k / BSIZE)[k % BSIZE] == f.Page(i, k / BSIZE)[k % BSIZE]
  }

  /** g is f with the bytes of data from lo up to hi in inode i, and every other file as it was. */
  ghost predicate Patched(f: Fs, g: Fs, i: nat, lo: nat, hi: nat, data: seq<Byte>)
  {
    && Alike(f, g) && i < |f.inodes| && lo <= hi <= MAXFILE * BSIZE && hi - lo <= |data|
    && (forall j, t | 0 <= j < |f.inodes| && j != i && 0 <= t < MAXFILE :: g.Page(j, t) == f.Page(j, t))
    && (forall k | 0 <= k < MAXFILE * BSIZE :: ByteOk(f, g, i, lo, hi, data, k))
  }

  /** From page bn on, inode i is in g as in f. */
  ghost predicate Ahead(f: Fs, g: Fs, i: nat, bn: nat)
  {
    Alike(f, g) && i < |f.inodes| && forall s | bn <= s < MAXFILE :: g.Page(i, s) == f.Page(i, s)
  }

  /** The bytes of src from tot on are not those that the page of off + tot holds in their place. */
  ghost predicate Differs(page: Block, src: seq<Byte>, off: nat, tot: nat)
  {
    |page| == BSIZE && exists k :: tot <= k < |src| && src[k] != page[(off + k) % BSIZE]
  }

  /** The page after a copy that stopped where src ends. */
  lemma DiffersIff(page: Block, src: seq<Byte>, off: nat, tot: nat, m: nat)
    requires |page| == BSIZE && tot <= |src| < tot + m && 0 < m <= BSIZE - (off + tot) % BSIZE
    ensures Spliced(page, (off + tot) % BSIZE, src[tot..]) != page <==> Differs(page, src, off, tot)
  {
    var at := (off + tot) % BSIZE;
    var x := Spliced(page, at, src[tot..]);
    forall k | tot <= k < |src| ensures (off + k) % BSIZE == at + (k - tot) && x[at + (k - tot)] == src[k] {
      InBlock(off + tot, m, off + k);
    }
    if !Differs(page, src, off, tot) {
      forall j | 0 <= j < BSIZE ensures x[j] == page[j] {
        if at <= j < at + |src| - tot {
          assert src[tot + (j - at)] == page[(off + (tot + (j - at))) % BSIZE];
        }
      }
    }
  }

  lemma PatchedNothing(f: Fs, i: nat, lo: nat, data: seq<Byte>)
    requires f.Shape() && i < |f.inodes| && lo <= MAXFILE * BSIZE
    ensures Patched(f, f, i, lo, lo, data)
  {
  }

  /** An unaligned write starts in a block that the file has. */
  lemma FirstPage(f: Fs, i: nat, off: nat)
    requires f.Shape() && i < |f.inodes| && f.Sized(i) && off <= f.inodes[i].size
    ensures off % BSIZE != 0 ==> off / BSIZE < MAXFILE && f.Page(i, off / BSIZE) != []
  {
  }

  lemma PageSize(f: Fs, i: nat, s: nat)
    requires f.Shape() && i < |f.inodes| && s <= MAXFILE
    ensures f.Page(i, s) == [] || |f.Page(i, s)| == BSIZE
  {
  }

  /** One more copy: page bn of g, which holds what the page held or is new, gets m bytes at off. */
  lemma PatchStep(f: Fs, g: Fs, h: Fs, i: nat, lo: nat, off: nat, m: nat, data: seq<Byte>, page: Block)
    requires Patched(f, g, i, lo, off, data) && 0 < m <= BSIZE - off % BSIZE && off + m - lo <= |data|
    requires off + m <= MAXFILE * BSIZE && |page| == BSIZE
    requires g.Page(i, off / BSIZE) != [] ==> page == g.Page(i, off / BSIZE)
    requires PagesExcept(g, h, i, off / BSIZE, Spliced(page, off % BSIZE, data[off - lo..off - lo + m]))
    ensures Patched(f, h, i, lo, off + m, data)
  {
    var bn, hi := off / BSIZE, off + m;
    var x := Spliced(page, off % BSIZE, data[off - lo..off - lo + m]);
    assert h.Page(i, bn) == x;
    forall k | 0 <= k < MAXFILE * BSIZE ensures ByteOk(f, h, i, lo, hi, data, k) {
      assert ByteOk(f, g, i, lo, off, data, k);
      InBlock(off, m, k);
      PageSize(g, i, k / BSIZE);
      if k / BSIZE == bn {
        assert g.Page(i, bn) != [] ==> page == g.Page(i, bn);
      } else {
        assert h.Page(i, k / BSIZE) == g.Page(i, k / BSIZE);
      }
    }
  }

  ghost predicate AllSized(f: Fs)
    requires f.Shape()
  {
    forall j | 0 <= j < |f.inodes| :: f.Sized(j)
  }

  /** Emptying one file keeps the contents of the others. */
  lemma EmptiedSized(f: Fs, meta: nat, owner: map<nat, (nat, nat)>, i: nat)
    requires f.Accounted(meta, {}, owner) && i < |f.inodes| && AllSized(f) && Emptied(f, owner, i).Shape()
    ensures AllSized(Emptied(f, owner, i)) && Emptied(f, owner, i).Content(i) == []
    ensures forall j | 0 <= j < |f.inodes| && j != i :: Emptied(f, owner, i).Content(j) == f.Content(j)
  {
    var g := Emptied(f, owner, i);
    EmptiedFrees(f, meta, owner, i);
    forall j | 0 <= j < |g.inodes| ensures g.Sized(j) && (j != i ==> g.Content(j) == f.Content(j)) {
      assert f.Sized(j);
      if j != i {
        assert forall t | 0 <= t < MAXFILE :: g.Page(j, t) == f.Page(j, t);
      }
    }
  }

  /** Making room for a new block leaves every file as it was. */
  lemma RoomPatched(f: Fs, g: Fs, h: Fs, i: nat, lo: nat, hi: nat, data: seq<Byte>, bn: nat, page: Block)
    requires Patched(f, g, i, lo, hi, data) && bn < MAXFILE && PagesExcept(g, h, i, bn, page)
    requires if g.Page(i, bn) == [] then |page| == BSIZE else page == g.Page(i, bn)
    ensures Patched(f, h, i, lo, hi, data)
  {
    forall k | 0 <= k < MAXFILE * BSIZE ensures ByteOk(f, h, i, lo, hi, data, k) {
      assert ByteOk(f, g, i, lo, hi, data, k);
      PageSize(f, i, k / BSIZE);
      PageSize(g, i, k / BSIZE);
    }
  }

  ghost function Grown(f: Fs, i: nat, end: nat): Fs
    requires i < |f.inodes|
  {
    f.(inodes := f.inodes[i := f.inodes[i].(size := if end > f.inodes[i].size then end else f.inodes[i].size)])
  }

  lemma PatchedAlike(f: Fs, g: Fs, i: nat, lo: nat, hi: nat, data: seq<Byte>)
    requires Patched(f, g, i, lo, hi, data)
    ensures Alike(f, g)
  {
  }

  lemma GrownAccounted(f: Fs, meta: nat, hand: set<nat>, owner: map<nat, (nat, nat)>, i: nat, end: nat)
    requires f.Accounted(meta, hand, owner) && i < |f.inodes|
    ensures Grown(f, i, end).Shape() && Grown(f, i, end).Accounted(meta, hand, owner)
    ensures forall s | 0 <= s <= MAXFILE :: Grown(f, i, end).At(i, s) == f.At(i, s)
  {
    var g := Grown(f, i, end);
    forall j, s | 0 <= j < |g.inodes| && 0 <= s <= MAXFILE ensures g.SlotOk(owner, j, s) {
      assert f.SlotOk(owner, j, s);
    }
    forall b <- owner ensures g.OwnerOk(meta, hand, owner, b) {
      assert f.OwnerOk(meta, hand, owner, b);
    }
  }

  /** The finished copy: data is in place from lo, as far as the size reaches; other files are
      untouched. */
  lemma PatchedSized(f: Fs, g: Fs, i: nat, lo: nat, hi: nat, data: seq<Byte>, end: nat)
    requires Patched(f, g, i, lo, hi, data) && AllSized(f) && lo <= f.inodes[i].size && end <= hi
    ensures Grown(g, i, end).Shape() && AllSized(Grown(g, i, end))
  {
    var h := Grown(g, i, end);
    forall j, s | 0 <= j < |h.inodes| && 0 <= s < MAXFILE && s * BSIZE < h.inodes[j].size ensures h.Page(j, s) != [] {
      assert f.Sized(j);
      PageSize(f, j, s);
      if j == i {
        assert ByteOk(f, g, i, lo, hi, data, s * BSIZE);
      }
    }
    forall j | 0 <= j < |h.inodes| ensures h.Sized(j) {
      assert f.Sized(j);
    }
  }

  lemma OtherContent(f: Fs, g: Fs, i: nat, lo: nat, hi: nat, data: seq<Byte>, end: nat, j: nat)
    requires Patched(f, g, i, lo, hi, data) && AllSized(f) && j < |f.inodes| && j != i
    requires Grown(g, i, end).Shape() && AllSized(Grown(g, i, end))
    ensures Grown(g, i, end).Content(j) == f.Content(j)
  {
    var h := Grown(g, i, end);
    forall k | 0 <= k < h.inodes[j].size ensures h.Content(j)[k] == f.Content(j)[k] {
      assert f.Sized(j) && h.Sized(j);
      assert h.Page(j, k / BSIZE) == f.Page(j, k / BSIZE);
    }
  }

  lemma PatchedContent(f: Fs, g: Fs, i: nat, lo: nat, hi: nat, data: seq<Byte>, end: nat, j: nat)
    requires Patched(f, g, i, lo, hi, data) && AllSized(f) && lo <= f.inodes[i].size && end <= hi && j < |f.inodes|
    requires Grown(g, i, end).Shape() && AllSized(Grown(g, i, end))
    ensures j != i ==> Grown(g, i, end).Content(j) == f.Content(j)
    ensures Grown(g, i, end).Content(i)
         == Spliced(f.Content(i), lo, data[..hi - lo])[..Grown(g, i, end).inodes[i].size]
  {
    var h := Grown(g, i, end);
    var c := Spliced(f.Content(i), lo, data[..hi - lo]);
    forall k | 0 <= k < h.inodes[i].size ensures h.Content(i)[k] == c[k] {
      assert f.Sized(i) && h.Sized(i);
      PageSize(f, i, k / BSIZE);
      assert ByteOk(f, g, i, lo, hi, data, k);
      assert h.Page(i, k / BSIZE) == g.Page(i, k / BSIZE);
    }
    if j != i {
      OtherContent(f, g, i, lo, hi, data, end, j);
    }
  }

  /** What one iteration of readi reads. */
  lemma ContentSlice(f: Fs, i: nat, off: nat, m: nat)
    requires f.Shape() && i < |f.inodes| && f.Sized(i)
    requires 0 < m <= BSIZE - off % BSIZE && off + m <= f.inodes[i].size
    ensures off / BSIZE < MAXFILE && |f.Page(i, off / BSIZE)| == BSIZE
    ensures f.Content(i)[off..off + m] == f.Page(i, off / BSIZE)[off % BSIZE..off % BSIZE + m]
  {
  }
}
