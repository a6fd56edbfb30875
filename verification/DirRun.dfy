/** Runs that use a directory after its removal, as a process may that has it open or as its current
    directory. */
module DirRun {
  import opened Basics
  import opened DirTree
  import opened Directories

  /** A directory "a" in the root. */
  method MadeDir() returns (fs: DirFs)
    ensures fresh(fs) && fs.Valid() && |fs.ns| == 10 && fs.ns[2] == NewDir(2, ROOT)
    ensures fs.ns[ROOT].kind == Dir && fs.ns[ROOT].nlink == 2 && fs.ns[3].kind == Free
    ensures NameMap(fs.ns, ROOT) == map["." := ROOT, ".." := ROOT, "a" := 2]
  {
    hide Dirs.TreeOk, Dirs.Counted, Contents, DistinctNames;
    fs := new DirFs(10);
    RootNames(ROOT, ROOT);
    assert fs.ns[2].kind == Free && Short("a") == "a";
    var r := fs.Create(ROOT, "a", Dir);
  }

  /** The directory is removed again, but its inode is still held. */
  method RemovedDir() returns (fs: DirFs)
    ensures fresh(fs) && fs.Valid() && |fs.ns| == 10 && fs.ns[2] == NewDir(2, ROOT).(nlink := 0) && fs.ns[3].kind == Free
    ensures NameMap(fs.ns, 2) == map["." := 2, ".." := ROOT]
    ensures fs.ns[ROOT].kind == Dir && fs.ns[ROOT].nlink == 1 && NameMap(fs.ns, ROOT) == map["." := ROOT, ".." := ROOT]
  {
    hide Dirs.TreeOk, Dirs.Counted, Contents, DistinctNames;
    fs := MadeDir();
    RootNames(2, ROOT);
    assert EmptyDir(fs.ns[2]) && Short("a") == "a";
    ghost var i;
    var u;
    u, i := fs.Unlink(ROOT, "a");
    assert NameMap(fs.ns, ROOT) == map["." := ROOT, ".." := ROOT];
  }

  lemma RootNames(i: nat, dp: nat)
    requires i > 0 && dp > 0
    ensures DistinctNames(NewDir(i, dp).ents) && Contents(NewDir(i, dp).ents) == map["." := i, ".." := dp]
  {
    DotNames(i, dp);
    PutContents([Dirent(i, ".")], 1, Dirent(dp, ".."));
  }

  /** A file made in the removed directory. */
  method CreateInRemoved() returns (fs: DirFs, r: Created)
    ensures r == Made(3) && !fs.Now().Counted()
  {
    hide Dirs.TreeOk, Dirs.Counted, Contents, DistinctNames;
    fs := RemovedDir();
    r := fs.Create(2, "b", File);
  }

  /** A directory made in the removed directory. */
  method MkdirInRemoved() returns (fs: DirFs, r: Created)
    ensures r == Made(3) && !fs.Now().Counted()
  {
    hide Dirs.TreeOk, Dirs.Counted, Contents, DistinctNames;
    fs := RemovedDir();
    r := fs.Create(2, "b", Dir);
  }

  /** A link made in the removed directory, to a file in the root. */
  method LinkInRemoved() returns (fs: DirFs, r: int)
    ensures r == 0 && !fs.Now().Counted()
  {
    hide Dirs.TreeOk, Dirs.Counted, Contents, DistinctNames;
    fs := RemovedDir();
    var c := fs.Create(ROOT, "b", File);
    r := fs.Link(c.inum, Some(2), "c");
  }

  /** A directory with no names but the dots is empty. */
  lemma OnlyDots(f: Dirs, d: nat)
    requires f.Valid() && d < |f.ns| && f.ns[d].kind == Dir && NameMap(f.ns, d).Keys == {".", ".."}
    ensures EmptyDir(f.ns[d])
  {
    hide Dirs.Counted;
    assert DistinctNames(f.ns[d].ents);
    forall k | 2 <= k < |f.ns[d].ents| ensures f.ns[d].ents[k].inum == 0 {
      assert f.EntOk(d, k);
      if f.ns[d].ents[k].inum != 0 {
        InContents(f.ns[d].ents, k);
      }
    }
  }

  /** A directory "b" in "a": "b" is removed but held, and "a" is removed and freed. */
  method FreedParent() returns (fs: DirFs)
    ensures fresh(fs) && fs.Valid() && |fs.ns| == 10
    ensures fs.ns[3] == NewDir(3, 2).(nlink := 0) && fs.ns[2].kind == Free
  {
    hide Dirs.TreeOk, Dirs.Counted, Contents, DistinctNames, EmptyDir;
    fs := MadeDir();
    RootNames(2, ROOT);
    RootNames(3, 2);
    assert Short("a") == "a" && Short("b") == "b";
    var r := fs.Create(2, "b", Dir);
    assert NameMap(fs.ns, 3) == map["." := 3, ".." := 2];
    OnlyDots(fs.Now(), 3);
    ghost var i;
    var u;
    u, i := fs.Unlink(2, "b");
    assert NameMap(fs.ns, 2).Keys == {".", ".."};
    OnlyDots(fs.Now(), 2);
    u, i := fs.Unlink(ROOT, "a");
    fs.Iput(2);
  }

  /** create of ".." there panics in ilock. */
  method DotDotPanics() returns (r: Created)
    ensures r == NoType
  {
    hide Dirs.TreeOk, Dirs.Counted, Contents, DistinctNames;
    var fs := FreedParent();
    r := fs.Create(3, "..", File);
  }
}
