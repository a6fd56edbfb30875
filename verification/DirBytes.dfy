/** Directories as the bytes of a file: dirlookup and dirlink of kernel/fs.c read and write records of 16
    bytes with readi and writei. A directory file stands for the entries of DirTree. */
module DirBytes {
  import opened Basics
  import opened FsLayout
  import opened FsContent
  import opened FileSystem
  import T = DirTree

  const RECORD: nat := 16
  const USHORT: nat := 0x1_0000

  /** A name without its NUL. */
  type Name = seq<Byte>

  predicate NulFree(s: seq<Byte>) { forall i | 0 <= i < |s| :: s[i] != 0 }

  /** As much of a name as a record holds. */
  function Cut(name: Name): (s: Name)
    ensures |s| <= T.DIRSIZ
  {
    if |name| <= T.DIRSIZ then name else name[..T.DIRSIZ]
  }

  /** The string in a field of fixed size: up to the first NUL, or all of it. */
  function Field(f: seq<Byte>): (s: Name)
    ensures |s| <= |f| && NulFree(s)
  {
    if f == [] || f[0] == 0 then [] else [f[0]] + Field(f[1..])
  }

  function Text(s: Name): (t: string)
    ensures |t| == |s|
  {
    seq(|s|, i requires 0 <= i < |s| => (s[i] as int) as char)
  }

  lemma TextIs(a: Name, b: Name)
    ensures Text(a) == Text(b) <==> a == b
  {
    if Text(a) == Text(b) {
      forall i | 0 <= i < |a| ensures a[i] == b[i] {
        assert Text(a)[i] == Text(b)[i];
      }
    }
  }

  lemma TextCut(name: Name)
    ensures Text(Cut(name)) == T.Short(Text(name))
  {
  }

  /** A record with inode number inum and name. */
  function Encode(inum: nat, name: Name): (r: seq<Byte>)
    ensures |r| == RECORD
  {
    [inum % 0x100, inum / 0x100 % 0x100] + Padded(name)
  }

  function Padded(name: Name): (f: seq<Byte>)
    ensures |f| == T.DIRSIZ
  {
    Cut(name) + seq(T.DIRSIZ - |Cut(name)|, _ => 0)
  }

  function Decode(r: seq<Byte>): (e: T.Dirent)
    requires |r| == RECORD
  {
    T.Dirent(r[0] as int + 0x100 * r[1] as int, Text(Field(r[2..])))
  }

  lemma {:induction false} FieldOf(s: Name, pad: seq<Byte>)
    requires NulFree(s) && forall i | 0 <= i < |pad| :: pad[i] == 0
    ensures Field(s + pad) == s
  {
    if s != [] {
      assert (s + pad)[1..] == s[1..] + pad;
      FieldOf(s[1..], pad);
    }
  }

  /** What is written in a record is what is read, but for the width of the inode number. */
  lemma DecodeEncode(inum: nat, name: Name)
    requires NulFree(name)
    ensures Decode(Encode(inum, name)) == T.Dirent(inum % USHORT, Text(Cut(name)))
  {
    var r := Encode(inum, name);
    assert r[2..] == Padded(name);
    FieldOf(Cut(name), seq(T.DIRSIZ - |Cut(name)|, _ => 0));
  }

  /** The entries that a directory file stands for. */
  function Entries(c: seq<Byte>): (ents: seq<T.Dirent>)
    ensures |ents| == |c| / RECORD
  {
    seq(|c| / RECORD, k requires 0 <= k < |c| / RECORD => Decode(Slice(c, k)))
  }

  function Slice(c: seq<Byte>, k: nat): seq<Byte>
    requires RECORD * k + RECORD <= |c|
  {
    c[RECORD * k..RECORD * k + RECORD]
  }

  lemma SliceSpliced(c: seq<Byte>, k: nat, r: seq<Byte>, j: nat)
    requires RECORD * k <= |c| && |r| == RECORD && |c| % RECORD == 0 && (j == k || RECORD * j + RECORD <= |c|)
    ensures Slice(Spliced(c, RECORD * k, r), j) == if j == k then r else Slice(c, j)
  {
    var d := Spliced(c, RECORD * k, r);
    if j < k {
      assert d[..RECORD * k] == c[..RECORD * k];
      assert Slice(d, j) == d[..RECORD * k][RECORD * j..RECORD * j + RECORD];
    } else if j > k {
      assert forall i | RECORD * k + RECORD <= i < |c| :: d[i] == c[i];
    }
  }

  /** Writing record k, in the file or at its end, puts one entry. */
  lemma EntriesPut(c: seq<Byte>, k: nat, r: seq<Byte>)
    requires |c| % RECORD == 0 && k <= |c| / RECORD && |r| == RECORD
    ensures Entries(Spliced(c, RECORD * k, r)) == T.Put(Entries(c), k, Decode(r))
  {
    hide Decode, Slice;
    var d := Spliced(c, RECORD * k, r);
    assert |d| == if k < |c| / RECORD then |c| else |c| + RECORD;
    forall j | 0 <= j < |d| / RECORD ensures Entries(d)[j] == T.Put(Entries(c), k, Decode(r))[j] {
      hide Spliced;
      SliceSpliced(c, k, r, j);
    }
  }

  /** strncmp(name, field, DIRSIZ) == 0: the names are the same as far as a record holds them. */
  method Namecmp(name: Name, field: seq<Byte>) returns (same: bool)
    requires NulFree(name) && |field| == T.DIRSIZ
    ensures same <==> Cut(name) == Field(field)
  {
    hide Field;
    var n := 0;
    assert field[0..] == field && name[..0] + Field(field) == Field(field);
    while n < T.DIRSIZ && n < |name| && name[n] == field[n]
      invariant n <= T.DIRSIZ && n <= |name|
      invariant Field(field) == name[..n] + Field(field[n..])
    {
      FieldStep(name, field, n);
      n := n + 1;
    }
    NamesDiffer(name, field, n);
    return n == T.DIRSIZ || (n == |name| && field[n] == 0);
  }

  lemma FieldStep(name: Name, field: seq<Byte>, n: nat)
    requires n < |field| && n < |name| && name[n] == field[n] != 0
    ensures name[..n] + Field(field[n..]) == name[..n + 1] + Field(field[n + 1..])
  {
    assert field[n..][1..] == field[n + 1..];
    assert name[..n + 1] == name[..n] + [name[n]];
  }

  lemma NamesDiffer(name: Name, field: seq<Byte>, n: nat)
    requires NulFree(name) && |field| == T.DIRSIZ && n <= T.DIRSIZ && n <= |name|
    requires Field(field) == name[..n] + Field(field[n..])
    requires n < T.DIRSIZ && n < |name| ==> name[n] != field[n]
    ensures Cut(name) == Field(field) <==> n == T.DIRSIZ || (n == |name| && field[n] == 0)
  {
    if n < T.DIRSIZ {
      if n < |name| {
        assert Cut(name)[n] == name[n];
        if field[n] != 0 {
          assert field[n..][0] == field[n] && Field(field)[n] == field[n];
        }
      } else {
        assert Cut(name) == name[..n];
      }
    }
  }

  /** strncpy(de.name, name, DIRSIZ) */
  method Strncpy(name: Name) returns (f: seq<Byte>)
    requires NulFree(name)
    ensures f == Padded(name)
  {
    f := [];
    while |f| < T.DIRSIZ && |f| < |name|
      invariant |f| <= T.DIRSIZ && |f| <= |name| && f == name[..|f|]
    {
      f := f + [name[|f|]];
    }
    ghost var n := |f|;
    while |f| < T.DIRSIZ
      invariant n <= |f| <= T.DIRSIZ && f == name[..n] + seq(|f| - n, _ => 0)
    {
      f := f + [0];
    }
  }

  /** A directory file, with no name twice. */
  ghost predicate DirFile(fs: FileSys, dp: nat)
    reads fs
  {
    fs.Valid() && dp < |fs.inodes| && fs.inodes[dp].size % RECORD == 0 && T.DistinctNames(Entries(fs.Now().Content(dp)))
  }

  /** readi of record k; it is there, so the panics on a short read cannot happen. */
  method ReadRecord(fs: FileSys, dp: nat, k: nat) returns (rec: seq<Byte>)
    requires fs.Valid() && dp < |fs.inodes| && RECORD * k + RECORD <= fs.inodes[dp].size
    modifies fs`bits, fs`disk, fs`inodes, fs`owner, fs`log
    ensures fs.Valid() && fs.Now() == old(fs.Now()) && fs.owner == old(fs.owner) && fs.log == old(fs.log)
    ensures |rec| == RECORD && Decode(rec) == Entries(fs.Now().Content(dp))[k]
  {
    hide Fs.Accounted, Fs.Content, Fs.Sized, Decode;
    SizeBound(fs, dp);
    var r;
    r, rec := fs.Readi(dp, RECORD * k, RECORD, RECORD);
  }

  lemma SizeBound(fs: FileSys, dp: nat)
    requires fs.Valid() && dp < |fs.inodes|
    ensures fs.inodes[dp].size <= MAXFILE * BSIZE
  {
    assert fs.Now().Sized(dp);
  }

  /** dirlookup on the bytes of the directory: what its entries map the short name to. */
  method Dirlookup(fs: FileSys, dp: nat, name: Name) returns (r: Option<nat>, off: nat)
    requires DirFile(fs, dp) && NulFree(name)
    modifies fs`bits, fs`disk, fs`inodes, fs`owner, fs`log
    ensures DirFile(fs, dp) && fs.Now() == old(fs.Now()) && fs.owner == old(fs.owner) && fs.log == old(fs.log)
    ensures var m, s := T.Contents(Entries(fs.Now().Content(dp))), Text(Cut(name));
      (r.Some? <==> s in m) && (r.Some? ==> m[s] == r.value && off + RECORD <= fs.inodes[dp].size && off % RECORD == 0)
    ensures r.Some? ==> r.value != 0 && Entries(fs.Now().Content(dp))[off / RECORD] == T.Dirent(r.value, Text(Cut(name)))
  {
    hide Fs.Accounted, Fs.Content, Fs.Sized, Decode, Entries, T.Contents, T.DistinctNames;
    ghost var ents := Entries(fs.Now().Content(dp));
    off := 0;
    while off < fs.inodes[dp].size
      invariant DirFile(fs, dp) && off <= fs.inodes[dp].size && off % RECORD == 0 && off / RECORD <= |ents|
      invariant fs.Now() == old(fs.Now()) && fs.owner == old(fs.owner) && fs.log == old(fs.log)
      invariant forall j | 0 <= j < off / RECORD && ents[j].inum != 0 :: ents[j].name != Text(Cut(name))
    {
      var rec := ReadRecord(fs, dp, off / RECORD);
      var inum := rec[0] as int + 0x100 * rec[1] as int;
      DecodeParts(rec);
      if inum != 0 {
        var same := Namecmp(name, rec[2..]);
        TextIs(Cut(name), Field(rec[2..]));
        if same {
          T.InContents(ents, off / RECORD);
          return Some(inum), off;
        }
      }
      off := off + RECORD;
    }
    if Text(Cut(name)) in T.Contents(ents) {
      var j := T.FromContents(ents, Text(Cut(name)));
    }
    return None, off;
  }

  lemma DecodeParts(rec: seq<Byte>)
    requires |rec| == RECORD
    ensures Decode(rec) == T.Dirent(rec[0] as int + 0x100 * rec[1] as int, Text(Field(rec[2..])))
  {
  }

  /** The search of dirlink: the offset of the first empty record, or the end. */
  method EmptyRecord(fs: FileSys, dp: nat) returns (off: nat)
    requires DirFile(fs, dp)
    modifies fs`bits, fs`disk, fs`inodes, fs`owner, fs`log
    ensures DirFile(fs, dp) && fs.Now() == old(fs.Now()) && fs.owner == old(fs.owner) && fs.log == old(fs.log)
    ensures off <= fs.inodes[dp].size && off % RECORD == 0
    ensures IsSlot(Entries(fs.Now().Content(dp)), off / RECORD)
  {
    hide Fs.Accounted, Fs.Content, Fs.Sized, Decode, Entries, T.DistinctNames;
    ghost var ents := Entries(fs.Now().Content(dp));
    off := 0;
    while off < fs.inodes[dp].size
      invariant DirFile(fs, dp) && off <= fs.inodes[dp].size && off % RECORD == 0 && off / RECORD <= |ents|
      invariant fs.Now() == old(fs.Now()) && fs.owner == old(fs.owner) && fs.log == old(fs.log)
      invariant forall j | 0 <= j < off / RECORD :: ents[j].inum != 0
    {
      var rec := ReadRecord(fs, dp, off / RECORD);
      DecodeParts(rec);
      if rec[0] as int + 0x100 * rec[1] as int == 0 {
        return;
      }
      off := off + RECORD;
    }
  }

  /** The first empty entry, or the end. */
  ghost predicate IsSlot(ents: seq<T.Dirent>, k: nat)
  {
    k <= |ents| && (k < |ents| ==> ents[k].inum == 0) && forall j | 0 <= j < k :: ents[j].inum != 0
  }

  /** dirlink on the bytes of the directory: refused exactly if the short name is there; else exactly one
      entry is put, in the first empty record or at the end, and every other file is as before. The
      inode number is cut to 16 bits. It panics exactly if the directory cannot grow, for its size or
      for lack of blocks. */
  method Dirlink(fs: FileSys, dp: nat, name: Name, inum: nat) returns (r: Outcome, ghost k: nat)
    requires DirFile(fs, dp) && NulFree(name)
    modifies fs
    ensures var ents := Entries(old(fs.Now()).Content(dp));
      && (r == Returned(-1) <==> Text(Cut(name)) in T.Contents(ents))
      && (r == Returned(-1) ==> fs.Now() == old(fs.Now()))
      && (r != Returned(-1) ==> IsSlot(ents, k))
      && (r == Returned(0) ==>
            && fs.Valid() && dp < |fs.inodes| == |old(fs.inodes)| && fs.inodes[dp].size % RECORD == 0
            && Entries(fs.Now().Content(dp)) == T.Put(ents, k, T.Dirent(inum % USHORT, Text(Cut(name))))
            && forall j | 0 <= j < |fs.inodes| && j != dp :: fs.Now().Content(j) == old(fs.Now()).Content(j))
      && (r == Returned(0) && inum % USHORT != 0 ==>
            && DirFile(fs, dp)
            && T.Contents(Entries(fs.Now().Content(dp))) == T.Contents(ents)[Text(Cut(name)) := inum % USHORT])
    ensures r in {Returned(-1), Returned(0), Panicked}
    ensures r != Returned(-1) ==>
      (r.Panicked? <==> RECORD * k + RECORD > MAXFILE * BSIZE
                        || Free(old(fs.bits)) < WriteNeed(old(fs.Now()), dp, RECORD * k / BSIZE,
                                    LastPage(RECORD * k, RECORD, RECORD)))
  {
    hide Fs.Accounted, Fs.Content, Fs.Sized, Decode, Entries, T.DistinctNames, T.Contents, Free, WriteNeed, LastPage, Fits;
    var found, at := Dirlookup(fs, dp, name);
    k := 0;
    if found.Some? {
      return Returned(-1), k;
    }
    var off := EmptyRecord(fs, dp);
    k := off / RECORD;
    assert off == RECORD * k;
    var f := Strncpy(name);
    assert [inum % 0x100, inum / 0x100 % 0x100] + f == Encode(inum, name);
    r := WriteRecord(fs, dp, off / RECORD, [inum % 0x100, inum / 0x100 % 0x100] + f);
    DecodeEncode(inum, name);
    ghost var ents := Entries(old(fs.Now()).Content(dp));
    if inum % USHORT != 0 {
      T.PutContents(ents, k, T.Dirent(inum % USHORT, Text(Cut(name))));
    }
  }

  /** writei of record k, and the panic if it does not write all of it. */
  method WriteRecord(fs: FileSys, dp: nat, k: nat, rec: seq<Byte>) returns (r: Outcome)
    requires DirFile(fs, dp) && |rec| == RECORD && RECORD * k <= fs.inodes[dp].size
    modifies fs
    ensures r in {Returned(0), Panicked}
    ensures r == Returned(0) ==>
      && fs.Valid() && dp < |fs.inodes| == |old(fs.inodes)| && fs.inodes[dp].size % RECORD == 0
      && Entries(fs.Now().Content(dp)) == T.Put(Entries(old(fs.Now()).Content(dp)), k, Decode(rec))
      && forall j | 0 <= j < |fs.inodes| && j != dp :: fs.Now().Content(j) == old(fs.Now()).Content(j)
    ensures r.Panicked? <==>
      || RECORD * k + RECORD > MAXFILE * BSIZE
      || Free(old(fs.bits)) < WriteNeed(old(fs.Now()), dp, RECORD * k / BSIZE, LastPage(RECORD * k, RECORD, RECORD))
  {
    hide Fs.Accounted, Fs.Content, Fs.Sized, Decode, Entries, T.DistinctNames, Free, WriteNeed,
         LastPage, Fits, Covered, CoveredBut, Tears;
    SizeBound(fs, dp);
    NotShort(RECORD * k);
    ghost var c := fs.Now().Content(dp);
    EntriesPut(c, k, rec);
    var w := fs.Writei(dp, rec, RECORD * k, RECORD);
    if w != Returned(RECORD) {
      return Panicked;
    }
    assert rec[..RECORD] == rec && Spliced(c, RECORD * k, rec)[..fs.inodes[dp].size] == Spliced(c, RECORD * k, rec);
    return Returned(0);
  }

  lemma NotShort(off: nat)
    ensures Reached(off, RECORD, RECORD) == RECORD
  {
  }

  /** No entry is in use but the first two. */
  ghost predicate OnlyDots(ents: seq<T.Dirent>)
  {
    forall k | 2 <= k < |ents| :: ents[k].inum == 0
  }

  /** isdirempty on the bytes of the directory; its panic cannot happen. */
  method Isdirempty(fs: FileSys, dp: nat) returns (r: bool)
    requires fs.Valid() && dp < |fs.inodes| && fs.inodes[dp].size % RECORD == 0
    modifies fs`bits, fs`disk, fs`inodes, fs`owner, fs`log
    ensures fs.Valid() && fs.Now() == old(fs.Now()) && fs.owner == old(fs.owner) && fs.log == old(fs.log)
    ensures r <==> OnlyDots(Entries(fs.Now().Content(dp)))
  {
    hide Fs.Accounted, Fs.Content, Fs.Sized, Decode, Entries;
    ghost var ents := Entries(fs.Now().Content(dp));
    var off := 2 * RECORD;
    while off < fs.inodes[dp].size
      invariant fs.Valid() && 2 * RECORD <= off && off % RECORD == 0 && dp < |fs.inodes| && fs.inodes[dp].size % RECORD == 0
      invariant fs.Now() == old(fs.Now()) && fs.owner == old(fs.owner) && fs.log == old(fs.log)
      invariant forall j | 2 <= j < off / RECORD && j < |ents| :: ents[j].inum == 0
    {
      var rec := ReadRecord(fs, dp, off / RECORD);
      DecodeParts(rec);
      if rec[0] as int + 0x100 * rec[1] as int != 0 {
        assert ents[off / RECORD].inum != 0;
        return false;
      }
      off := off + RECORD;
    }
    return true;
  }

  /** Writing a record that is there needs no block. */
  lemma RecordThere(f: Fs, dp: nat, k: nat)
    requires f.Shape() && dp < |f.inodes| && f.Sized(dp) && RECORD * k + RECORD <= f.inodes[dp].size
    ensures RECORD * k + RECORD <= MAXFILE * BSIZE
    ensures WriteNeed(f, dp, RECORD * k / BSIZE, LastPage(RECORD * k, RECORD, RECORD)) == 0
  {
    var p := RECORD * k / BSIZE;
    assert (RECORD * k + RECORD - 1) / BSIZE == p;
    assert p * BSIZE < f.inodes[dp].size && f.Page(dp, p) != [];
    WriteNeedMore(f, dp, p, p);
  }

  /** The empty record. */
  lemma DecodeZeros(rec: seq<Byte>)
    requires rec == seq(RECORD, _ => 0)
    ensures Decode(rec) == T.Dirent(0, "")
  {
    assert rec[2..][0] == 0;
  }

  /** unlink's write of zeros over a record; its panic cannot happen. */
  method ClearRecord(fs: FileSys, dp: nat, k: nat)
    requires DirFile(fs, dp) && RECORD * k + RECORD <= fs.inodes[dp].size
    modifies fs
    ensures fs.Valid() && dp < |fs.inodes| == |old(fs.inodes)| && fs.inodes[dp].size == old(fs.inodes)[dp].size
    ensures Entries(fs.Now().Content(dp)) == Entries(old(fs.Now()).Content(dp))[k := T.Dirent(0, "")]
    ensures forall j | 0 <= j < |fs.inodes| && j != dp :: fs.Now().Content(j) == old(fs.Now()).Content(j)
  {
    hide Fs.Accounted, Fs.Content, Decode, Entries, T.DistinctNames, Free, WriteNeed, LastPage;
    RecordThere(fs.Now(), dp, k);
    var zeros: seq<Byte> := seq(RECORD, _ => 0);
    DecodeZeros(zeros);
    ghost var ents := Entries(fs.Now().Content(dp));
    var r := WriteRecord(fs, dp, k, zeros);
    assert |Entries(fs.Now().Content(dp))| == |ents|;
  }

  /** The name compares equal to a short string as namecmp has it. */
  method IsName(name: Name, other: Name) returns (same: bool)
    requires NulFree(name) && NulFree(other) && |other| <= T.DIRSIZ
    ensures same <==> Text(Cut(name)) == Text(other)
  {
    FieldOf(other, seq(T.DIRSIZ - |other|, _ => 0));
    TextIs(Cut(name), other);
    same := Namecmp(name, Padded(other));
  }

  /** The directory part of sys_unlink on bytes, where dirs are the inodes that are directories: refused
      exactly for the dots, a name that is not there and a directory in use; else exactly the one name
      is gone, and every other file is as before. */
  method Unlink(fs: FileSys, dp: nat, name: Name, dirs: set<nat>) returns (r: int)
    requires DirFile(fs, dp) && NulFree(name)
    requires forall d <- dirs :: d < |fs.inodes| && fs.inodes[d].size % RECORD == 0
    modifies fs
    ensures r in {0, -1} && DirFile(fs, dp) && |fs.inodes| == |old(fs.inodes)|
    ensures var m, s := T.Contents(Entries(old(fs.Now()).Content(dp))), Text(Cut(name));
      && (r == 0 <==> s != "." && s != ".." && s in m && (m[s] in dirs ==> OnlyDots(Entries(old(fs.Now()).Content(m[s])))))
      && (r == 0 ==> T.Contents(Entries(fs.Now().Content(dp))) == m - {s})
    ensures r == -1 ==> fs.Now() == old(fs.Now())
    ensures forall j | 0 <= j < |fs.inodes| && j != dp :: fs.Now().Content(j) == old(fs.Now()).Content(j)
  {
    hide Fs.Accounted, Fs.Content, Fs.Sized, Decode, Entries, T.DistinctNames, T.Contents, OnlyDots, Cut;
    DotTexts();
    var dot := IsName(name, [46]);
    var dotdot := IsName(name, [46, 46]);
    if dot || dotdot {
      return -1;
    }
    var found, off := Dirlookup(fs, dp, name);
    if found.None? {
      return -1;
    }
    if found.value in dirs {
      var empty := Isdirempty(fs, found.value);
      if !empty {
        return -1;
      }
    }
    T.ClearContents(Entries(fs.Now().Content(dp)), off / RECORD);
    assert RECORD * (off / RECORD) == off;
    ClearRecord(fs, dp, off / RECORD);
    return 0;
  }

  lemma DotTexts()
    ensures Text([46]) == "." && Text([46, 46]) == ".."
  {
  }
}
