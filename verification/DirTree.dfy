/** Directories of kernel/fs.c and the link counts that kernel/sysfile.c keeps, as a value: inodes with
    a kind, a link count and, for directories, their entries. */
module DirTree {

  const ROOT: nat := 1
  const DIRSIZ: nat := 14

  datatype Kind = Free | Dir | File | Device

  /** inum 0 is an empty entry. */
  datatype Dirent = Dirent(inum: nat, name: string)

  datatype Dnode = Dnode(kind: Kind, nlink: nat, ents: seq<Dirent>)

  /** What strncpy stores and strncmp compares of a name. */
  function Short(name: string): (s: string)
    ensures |s| <= DIRSIZ
  {
    if |name| <= DIRSIZ then name else name[..DIRSIZ]
  }

  /** No two entries in use have the same name. */
  ghost predicate DistinctNames(ents: seq<Dirent>)
  {
    forall j, k | 0 <= j < k < |ents| && ents[j].inum != 0 && ents[k].inum != 0 :: ents[j].name != ents[k].name
  }

  /** A directory as a finite map from short names. */
  ghost function Contents(ents: seq<Dirent>): map<string, nat>
    requires DistinctNames(ents)
  {
    map k | 0 <= k < |ents| && ents[k].inum != 0 :: ents[k].name := ents[k].inum
  }

  /** home says for a directory which entry of its parent names it, depth how far it is below the
      root. */
  datatype Dirs = Dirs(ns: seq<Dnode>, home: map<nat, (nat, nat)>, depth: map<nat, nat>) {

    ghost predicate Linked(d: nat)
    {
      d < |ns| && ns[d].kind == Dir && ns[d].nlink > 0
    }

    /** Entry k of directory d counts as a link to i. */
    ghost predicate RefAt(i: nat, d: nat, k: nat)
    {
      Linked(d) && k < |ns[d].ents| && ns[d].ents[k].inum == i && ns[d].ents[k].name != "."
    }

    /** The entries other than "." that name i from linked directories. */
    ghost function Refs(i: nat): set<(nat, nat)>
    {
      set d, k | 0 <= d < |ns| && 0 <= k < |ns[d].ents| && RefAt(i, d, k) :: (d, k)
    }

    ghost predicate NodeOk(d: nat)
      requires d < |ns|
    {
      var n := ns[d];
      match n.kind
      case Free => n.nlink == 0 && n.ents == [] && d !in home
      case File => n.ents == [] && d !in home
      case Device => n.ents == [] && d !in home
      case Dir =>
        if n.nlink == 0 then
          && d !in home && |n.ents| >= 2 && n.ents[0] == Dirent(d, ".") && n.ents[1].name == ".."
          && 0 < n.ents[1].inum < |ns|
          && forall k | 2 <= k < |n.ents| :: n.ents[k].inum == 0
        else
          && |n.ents| >= 2 && n.ents[0] == Dirent(d, ".") && n.ents[1].name == ".." && Linked(n.ents[1].inum)
          && (if d == ROOT then n.ents[1].inum == ROOT && d !in home else d in home)
    }

    ghost predicate EntOk(d: nat, k: nat)
      requires d < |ns| && k < |ns[d].ents|
    {
      var e := ns[d].ents[k];
      k >= 2 && e.inum != 0 ==>
        && e.inum < |ns| && ns[e.inum].kind != Free && e.name != "." && e.name != ".." && |e.name| <= DIRSIZ
        && (ns[e.inum].kind == Dir ==> e.inum in home && home[e.inum] == (d, k))
    }

    ghost predicate HomeOk(c: nat)
      requires c in home
    {
      var d, k := home[c].0, home[c].1;
      && 0 < c != ROOT && Linked(c) && Linked(d) && 2 <= k < |ns[d].ents| && ns[d].ents[k].inum == c
      && |ns[c].ents| >= 2 && ns[c].ents[1].inum == d && d in depth && c in depth && depth[c] == depth[d] + 1
    }

    /** The directories form a tree under the root. */
    ghost predicate TreeOk()
    {
      && Linked(ROOT) && ROOT in depth && ns[0].kind == Free
      && (forall d | 0 <= d < |ns| :: NodeOk(d))
      && (forall d, k | 0 <= d < |ns| && 0 <= k < |ns[d].ents| :: EntOk(d, k))
      && (forall c <- home :: HomeOk(c))
      && (forall d | 0 <= d < |ns| :: DistinctNames(ns[d].ents))
    }

    ghost predicate CountOk(i: nat)
      requires i < |ns|
    {
      ns[i].nlink == |Refs(i)|
    }

    /** Every inode has as many links as entries name it. */
    ghost predicate Counted()
    {
      forall i | 1 <= i < |ns| :: CountOk(i)
    }

    ghost predicate Valid()
    {
      TreeOk() && Counted()
    }
  }

  // Adding and clearing an entry

  /** Entry k, empty or the next one, becomes e. */
  function Put(ents: seq<Dirent>, k: nat, e: Dirent): (r: seq<Dirent>)
    requires k <= |ents|
    ensures |r| == (if k < |ents| then |ents| else |ents| + 1) && r[k] == e
    ensures forall j | 0 <= j < |ents| && j != k :: r[j] == ents[j]
  {
    if k < |ents| then ents[k := e] else ents + [e]
  }

  lemma InContents(ents: seq<Dirent>, j: nat)
    requires DistinctNames(ents) && j < |ents| && ents[j].inum != 0
    ensures ents[j].name in Contents(ents) && Contents(ents)[ents[j].name] == ents[j].inum
  {
  }

  lemma FromContents(ents: seq<Dirent>, x: string) returns (j: nat)
    requires DistinctNames(ents) && x in Contents(ents)
    ensures j < |ents| && ents[j].inum != 0 && ents[j].name == x
  {
    j :| 0 <= j < |ents| && ents[j].inum != 0 && ents[j].name == x;
  }

  /** Every entry in use of a is one of b. */
  lemma SubContents(a: seq<Dirent>, b: seq<Dirent>)
    requires DistinctNames(a) && DistinctNames(b)
    requires forall j | 0 <= j < |a| && a[j].inum != 0 :: exists k :: 0 <= k < |b| && b[k] == a[j]
    ensures forall x <- Contents(a) :: x in Contents(b) && Contents(b)[x] == Contents(a)[x]
  {
  }

  lemma PutContents(ents: seq<Dirent>, k: nat, e: Dirent)
    requires DistinctNames(ents) && k <= |ents| && (k < |ents| ==> ents[k].inum == 0) && e.inum != 0 && e.name !in Contents(ents)
    ensures DistinctNames(Put(ents, k, e)) && Contents(Put(ents, k, e)) == Contents(ents)[e.name := e.inum]
  {
    hide Contents;
    var r := Put(ents, k, e);
    forall j | 0 <= j < |ents| && ents[j].inum != 0 ensures ents[j].name != e.name { InContents(ents, j); }
    assert DistinctNames(r);
    forall j | 0 <= j < |ents| && ents[j].inum != 0 ensures exists m :: 0 <= m < |r| && r[m] == ents[j] { assert r[j] == ents[j]; }
    SubContents(ents, r);
    InContents(r, k);
    forall x <- Contents(r) ensures x == e.name || x in Contents(ents) {
      var j := FromContents(r, x);
      if j != k { InContents(ents, j); }
    }
    assert Contents(r) == Contents(ents)[e.name := e.inum];
  }

  lemma ClearContents(ents: seq<Dirent>, k: nat)
    requires DistinctNames(ents) && k < |ents| && ents[k].inum != 0
    ensures DistinctNames(ents[k := Dirent(0, "")]) && Contents(ents[k := Dirent(0, "")]) == Contents(ents) - {ents[k].name}
  {
    hide Contents;
    var r := ents[k := Dirent(0, "")];
    assert DistinctNames(r);
    forall j | 0 <= j < |r| && r[j].inum != 0 ensures exists m :: 0 <= m < |ents| && ents[m] == r[j] { assert ents[j] == r[j]; }
    SubContents(r, ents);
    forall x <- Contents(r) ensures x != ents[k].name { var j := FromContents(r, x); }
    forall x <- Contents(ents) | x != ents[k].name ensures x in Contents(r) {
      var j := FromContents(ents, x);
      InContents(r, j);
    }
    assert Contents(r) == Contents(ents) - {ents[k].name};
  }

  /** What a directory that is in use has room for: a slot and a name. */
  ghost predicate CanAdd(f: Dirs, dp: nat, k: nat, name: string)
  {
    && f.Linked(dp) && 2 <= k <= |f.ns[dp].ents| && (k < |f.ns[dp].ents| ==> f.ns[dp].ents[k].inum == 0)
    && |name| <= DIRSIZ && name != "." && name != ".."
    && forall j | 0 <= j < |f.ns[dp].ents| && f.ns[dp].ents[j].inum != 0 :: f.ns[dp].ents[j].name != name
  }

  // A name for a file

  /** Inode i, a file or a free inode, becomes node, and entry k of dp names it. */
  ghost function AddFile(f: Dirs, dp: nat, k: nat, name: string, i: nat, node: Dnode): Dirs
    requires dp < |f.ns| && i < |f.ns| && k <= |f.ns[dp].ents|
  {
    f.(ns := f.ns[dp := f.ns[dp].(ents := Put(f.ns[dp].ents, k, Dirent(i, name)))][i := node])
  }

  ghost predicate FileStep(f: Dirs, i: nat, node: Dnode)
  {
    && 0 < i < |f.ns| && f.ns[i].kind != Dir && (node.kind == File || node.kind == Device) && node.ents == []
  }

  lemma PutDistinct(ents: seq<Dirent>, k: nat, e: Dirent)
    requires DistinctNames(ents) && k <= |ents|
    requires forall j | 0 <= j < |ents| && ents[j].inum != 0 :: ents[j].name != e.name
    ensures DistinctNames(Put(ents, k, e))
  {
  }

  lemma AddFileNodes(f: Dirs, dp: nat, k: nat, name: string, i: nat, node: Dnode)
    requires f.TreeOk() && CanAdd(f, dp, k, name) && FileStep(f, i, node)
    ensures var g := AddFile(f, dp, k, name, i, node); forall d | 0 <= d < |g.ns| :: g.NodeOk(d)
  {
    hide DistinctNames, Dirs.HomeOk, Dirs.EntOk;
    var g := AddFile(f, dp, k, name, i, node);
    assert f.NodeOk(i) && f.NodeOk(dp);
    forall d: nat ensures g.Linked(d) <==> f.Linked(d) { }
    forall d | 0 <= d < |g.ns| ensures g.NodeOk(d) { assert f.NodeOk(d); }
  }

  lemma AddFileHomes(f: Dirs, dp: nat, k: nat, name: string, i: nat, node: Dnode)
    requires f.TreeOk() && CanAdd(f, dp, k, name) && FileStep(f, i, node)
    ensures var g := AddFile(f, dp, k, name, i, node); forall c <- g.home :: g.HomeOk(c)
  {
  }

  lemma AddFileTree(f: Dirs, dp: nat, k: nat, name: string, i: nat, node: Dnode)
    requires f.TreeOk() && CanAdd(f, dp, k, name) && FileStep(f, i, node)
    ensures AddFile(f, dp, k, name, i, node).TreeOk()
  {
    hide Dirs.NodeOk, Dirs.HomeOk, DistinctNames;
    var g := AddFile(f, dp, k, name, i, node);
    AddFileNodes(f, dp, k, name, i, node);
    AddFileHomes(f, dp, k, name, i, node);
    EmptyDistinct();
    PutDistinct(f.ns[dp].ents, k, Dirent(i, name));
    forall d, j | 0 <= d < |g.ns| && 0 <= j < |g.ns[d].ents| ensures g.EntOk(d, j) {
      assert d != i && !(d == dp && j == k) ==> f.EntOk(d, j);
    }
  }

  lemma EmptyDistinct()
    ensures DistinctNames([])
  {
  }

  lemma AddFileRefs(f: Dirs, dp: nat, k: nat, name: string, i: nat, node: Dnode, j: nat)
    requires f.TreeOk() && CanAdd(f, dp, k, name) && FileStep(f, i, node) && j > 0
    ensures (dp, k) !in f.Refs(i)
    ensures AddFile(f, dp, k, name, i, node).Refs(j) == if j == i then f.Refs(i) + {(dp, k)} else f.Refs(j)
  {
  }

  lemma AddFileKeeps(f: Dirs, dp: nat, k: nat, name: string, i: nat, node: Dnode)
    requires f.Valid() && CanAdd(f, dp, k, name) && FileStep(f, i, node) && node.nlink == f.ns[i].nlink + 1
    ensures AddFile(f, dp, k, name, i, node).Valid()
  {
    hide Dirs.TreeOk, Dirs.Refs;
    AddFileTree(f, dp, k, name, i, node);
    var g := AddFile(f, dp, k, name, i, node);
    forall j | 1 <= j < |g.ns| ensures g.CountOk(j) {
      assert f.CountOk(j) && f.CountOk(i);
      AddFileRefs(f, dp, k, name, i, node, j);
    }
  }

  // A new directory

  function NewDir(i: nat, dp: nat): Dnode
  {
    Dnode(Dir, 1, [Dirent(i, "."), Dirent(dp, "..")])
  }

  /** Inode i becomes an empty directory that entry k of dp names. */
  ghost function AddDir(f: Dirs, dp: nat, k: nat, name: string, i: nat): Dirs
    requires dp < |f.ns| && i < |f.ns| && k <= |f.ns[dp].ents|
  {
    var p := f.ns[dp].(nlink := f.ns[dp].nlink + 1, ents := Put(f.ns[dp].ents, k, Dirent(i, name)));
    Dirs(f.ns[dp := p][i := NewDir(i, dp)], f.home[i := (dp, k)],
         f.depth[i := (if dp in f.depth then f.depth[dp] else 0) + 1])
  }

  lemma AddDirNodes(f: Dirs, dp: nat, k: nat, name: string, i: nat)
    requires f.TreeOk() && CanAdd(f, dp, k, name) && 0 < i < |f.ns| && f.ns[i].kind == Free
    ensures var g := AddDir(f, dp, k, name, i); forall d | 0 <= d < |g.ns| :: g.NodeOk(d)
  {
    hide DistinctNames, Dirs.HomeOk, Dirs.EntOk;
    var g := AddDir(f, dp, k, name, i);
    assert f.NodeOk(i) && f.NodeOk(dp);
    forall d: nat ensures g.Linked(d) <==> f.Linked(d) || d == i { }
    forall d | 0 <= d < |g.ns| ensures g.NodeOk(d) { assert f.NodeOk(d); }
  }

  lemma AddDirHomes(f: Dirs, dp: nat, k: nat, name: string, i: nat)
    requires f.TreeOk() && CanAdd(f, dp, k, name) && 0 < i < |f.ns| && f.ns[i].kind == Free
    ensures var g := AddDir(f, dp, k, name, i); forall c <- g.home :: g.HomeOk(c)
  {
    hide DistinctNames, Dirs.EntOk;
    var g := AddDir(f, dp, k, name, i);
    assert f.NodeOk(i) && f.NodeOk(dp);
    assert dp in f.home ==> f.HomeOk(dp);
    forall c <- g.home ensures g.HomeOk(c) {
      assert c != i ==> f.HomeOk(c) && f.home[c].0 != i;
    }
  }

  lemma AddDirTree(f: Dirs, dp: nat, k: nat, name: string, i: nat)
    requires f.TreeOk() && CanAdd(f, dp, k, name) && 0 < i < |f.ns| && f.ns[i].kind == Free
    ensures AddDir(f, dp, k, name, i).TreeOk() && f.ns[i].nlink == 0 && i != dp
  {
    hide Dirs.HomeOk, DistinctNames;
    var g := AddDir(f, dp, k, name, i);
    assert f.NodeOk(i);
    AddDirNodes(f, dp, k, name, i);
    AddDirHomes(f, dp, k, name, i);
    DotsDistinct(i, dp);
    PutDistinct(f.ns[dp].ents, k, Dirent(i, name));
    forall d, j | 0 <= d < |g.ns| && 0 <= j < |g.ns[d].ents| ensures g.EntOk(d, j) {
      assert d != i && !(d == dp && j == k) ==> f.EntOk(d, j);
    }
  }

  lemma DotsDistinct(i: nat, dp: nat)
    ensures DistinctNames(NewDir(i, dp).ents)
  {
  }

  lemma AddDirRefs(f: Dirs, dp: nat, k: nat, name: string, i: nat, j: nat)
    requires f.TreeOk() && CanAdd(f, dp, k, name) && 0 < i < |f.ns| && f.ns[i].kind == Free && j > 0
    ensures (i, 1) !in f.Refs(dp) && (dp, k) !in f.Refs(i)
    ensures AddDir(f, dp, k, name, i).Refs(j)
         == f.Refs(j) + (if j == i then {(dp, k)} else {}) + (if j == dp then {(i, 1)} else {})
  {
    hide Dirs.HomeOk, Dirs.EntOk, DistinctNames;
    var g := AddDir(f, dp, k, name, i);
    assert f.NodeOk(i) && f.NodeOk(dp);
    forall d: nat, m: nat
      ensures g.RefAt(j, d, m) <==> f.RefAt(j, d, m) || (j == i && d == dp && m == k) || (j == dp && d == i && m == 1)
    {
    }
  }

  lemma AddDirKeeps(f: Dirs, dp: nat, k: nat, name: string, i: nat)
    requires f.Valid() && CanAdd(f, dp, k, name) && 0 < i < |f.ns| && f.ns[i].kind == Free
    ensures AddDir(f, dp, k, name, i).Valid()
  {
    hide Dirs.TreeOk, Dirs.Refs;
    AddDirTree(f, dp, k, name, i);
    var g := AddDir(f, dp, k, name, i);
    forall j | 1 <= j < |g.ns| ensures g.CountOk(j) {
      assert f.CountOk(j) && f.CountOk(i);
      AddDirRefs(f, dp, k, name, i, j);
    }
  }

  // Taking a name away

  /** Entry k of dp, which names i, is cleared; i has the new count and dp has nlink links. */
  ghost function Remove(f: Dirs, dp: nat, k: nat, i: nat, nlink: nat): Dirs
    requires dp < |f.ns| && i < |f.ns| && k < |f.ns[dp].ents|
  {
    var p := f.ns[dp].(nlink := nlink, ents := f.ns[dp].ents[k := Dirent(0, "")]);
    var ns := f.ns[dp := p];
    Dirs(ns[i := ns[i].(nlink := if ns[i].nlink > 0 then ns[i].nlink - 1 else 0)], f.home - {i}, f.depth)
  }

  /** An entry that unlink may clear. */
  ghost predicate Named(f: Dirs, dp: nat, k: nat, i: nat)
  {
    f.Linked(dp) && 2 <= k < |f.ns[dp].ents| && f.ns[dp].ents[k].inum == i != 0
  }

  lemma NamedCounts(f: Dirs, dp: nat, k: nat, i: nat)
    requires f.Valid() && Named(f, dp, k, i)
    ensures i < |f.ns| && f.ns[i].nlink > 0 && f.ns[i].kind != Free && i != dp
    ensures f.ns[i].kind == Dir ==> i in f.home && f.home[i] == (dp, k) && f.Linked(i) && i != ROOT
    ensures f.ns[i].kind == Dir ==> |f.ns[i].ents| >= 2 && f.ns[i].ents[1].inum == dp
  {
    assert f.EntOk(dp, k) && f.NodeOk(dp);
    assert f.RefAt(i, dp, k);
    assert (dp, k) in f.Refs(i);
    assert f.CountOk(i);
    if f.ns[i].kind == Dir {
      assert f.HomeOk(i);
      assert f.NodeOk(i);
    }
  }

  lemma RemoveFileTree(f: Dirs, dp: nat, k: nat, i: nat)
    requires f.TreeOk() && Named(f, dp, k, i) && i < |f.ns| && f.ns[i].kind != Dir && f.ns[i].nlink > 0
    ensures i !in f.home && Remove(f, dp, k, i, f.ns[dp].nlink).TreeOk()
  {
    hide DistinctNames, Dirs.HomeOk, Dirs.EntOk;
    var g := Remove(f, dp, k, i, f.ns[dp].nlink);
    assert f.NodeOk(i) && f.NodeOk(dp);
    forall d: nat ensures g.Linked(d) <==> f.Linked(d) { }
    forall d | 0 <= d < |g.ns| ensures g.NodeOk(d) { assert f.NodeOk(d); }
    RemoveFileEnts(f, dp, k, i);
    ClearDistinct(f.ns[dp].ents, k);
  }

  lemma ClearDistinct(ents: seq<Dirent>, k: nat)
    requires DistinctNames(ents) && k < |ents|
    ensures DistinctNames(ents[k := Dirent(0, "")])
  {
  }

  lemma RemoveFileEnts(f: Dirs, dp: nat, k: nat, i: nat)
    requires f.TreeOk() && Named(f, dp, k, i) && i < |f.ns| && f.ns[i].kind != Dir && f.ns[i].nlink > 0
    ensures var g := Remove(f, dp, k, i, f.ns[dp].nlink);
            && (forall c <- g.home :: g.HomeOk(c))
            && (forall d, j | 0 <= d < |g.ns| && 0 <= j < |g.ns[d].ents| :: g.EntOk(d, j))
  {
    hide DistinctNames;
    var g := Remove(f, dp, k, i, f.ns[dp].nlink);
    assert f.NodeOk(i);
    forall c <- g.home ensures g.HomeOk(c) { assert f.HomeOk(c); }
    forall d, j | 0 <= d < |g.ns| && 0 <= j < |g.ns[d].ents| ensures g.EntOk(d, j) { assert f.EntOk(d, j); }
  }

  lemma RemoveFileRefs(f: Dirs, dp: nat, k: nat, i: nat, j: nat)
    requires f.TreeOk() && Named(f, dp, k, i) && i < |f.ns| && f.ns[i].kind != Dir && f.ns[i].nlink > 0 && j > 0
    ensures (dp, k) in f.Refs(i)
    ensures Remove(f, dp, k, i, f.ns[dp].nlink).Refs(j) == if j == i then f.Refs(i) - {(dp, k)} else f.Refs(j)
  {
    hide Dirs.HomeOk, Dirs.NodeOk, DistinctNames;
    var g := Remove(f, dp, k, i, f.ns[dp].nlink);
    assert f.EntOk(dp, k);
    assert f.RefAt(i, dp, k);
    forall d: nat, m: nat ensures g.RefAt(j, d, m) <==> f.RefAt(j, d, m) && !(d == dp && m == k) { }
  }

  lemma RemoveFileKeeps(f: Dirs, dp: nat, k: nat, i: nat)
    requires f.Valid() && Named(f, dp, k, i) && i < |f.ns| && f.ns[i].kind != Dir
    ensures f.ns[i].nlink > 0 && Remove(f, dp, k, i, f.ns[dp].nlink).Valid()
  {
    hide Dirs.TreeOk, Dirs.Refs;
    NamedCounts(f, dp, k, i);
    RemoveFileTree(f, dp, k, i);
    var g := Remove(f, dp, k, i, f.ns[dp].nlink);
    forall j | 1 <= j < |g.ns| ensures g.CountOk(j) {
      assert f.CountOk(j) && f.CountOk(i);
      RemoveFileRefs(f, dp, k, i, j);
    }
  }

  // Taking an empty directory away

  /** Only "." and "..". */
  ghost predicate EmptyDir(n: Dnode)
  {
    forall m | 2 <= m < |n.ents| :: n.ents[m].inum == 0
  }

  /** The one entry that names an empty directory is its parent's. */
  lemma EmptyDirRefs(f: Dirs, dp: nat, k: nat, i: nat)
    requires f.Valid() && Named(f, dp, k, i) && i < |f.ns| && f.ns[i].kind == Dir && EmptyDir(f.ns[i])
    ensures f.Refs(i) == {(dp, k)} && f.ns[i].nlink == 1
    ensures forall d | 0 <= d < |f.ns| && f.Linked(d) :: |f.ns[d].ents| >= 2 && f.ns[d].ents[1].inum != i
    ensures forall c <- f.home :: f.home[c].0 != i
  {
    NamedCounts(f, dp, k, i);
    assert f.HomeOk(i);
    forall c <- f.home ensures f.home[c].0 != i { assert f.HomeOk(c); }
    forall d | 0 <= d < |f.ns| && f.Linked(d) ensures |f.ns[d].ents| >= 2 && f.ns[d].ents[1].inum != i {
      assert f.NodeOk(d);
      assert d in f.home ==> f.HomeOk(d);
    }
    forall d: nat, m: nat ensures f.RefAt(i, d, m) <==> d == dp && m == k {
      assert f.Linked(d) ==> f.NodeOk(d);
      assert f.Linked(d) && m < |f.ns[d].ents| ==> f.EntOk(d, m);
      assert f.EntOk(dp, k);
    }
    assert f.CountOk(i);
  }

  /** Its parent has a link besides the one from it. */
  lemma ParentStays(f: Dirs, dp: nat, k: nat, i: nat)
    requires f.Valid() && Named(f, dp, k, i) && i < |f.ns| && f.ns[i].kind == Dir
    ensures f.ns[dp].nlink > 1 && dp > 0
  {
    NamedCounts(f, dp, k, i);
    assert f.NodeOk(i) && f.NodeOk(dp) && f.HomeOk(i) && f.CountOk(i);
    assert dp in f.home ==> f.HomeOk(dp);
    assert f.RefAt(dp, i, 1);
    var other := if dp == ROOT then (ROOT, 1) else f.home[dp];
    if dp != ROOT {
      assert f.EntOk(other.0, other.1);
    }
    assert f.RefAt(dp, other.0, other.1);
    assert {(i, 1), other} <= f.Refs(dp);
    assert other != (i, 1);
    assert |{(i, 1), other}| == 2;
    SubsetSize({(i, 1), other}, f.Refs(dp));
    assert f.CountOk(dp);
  }

  lemma {:induction false} SubsetSize<T>(a: set<T>, b: set<T>)
    requires a <= b
    ensures |a| <= |b|
    decreases |a|
  {
    if a != {} {
      var x :| x in a;
      SubsetSize(a - {x}, b - {x});
    }
  }

  lemma RemoveDirNodes(f: Dirs, dp: nat, k: nat, i: nat)
    requires f.Valid() && Named(f, dp, k, i) && i < |f.ns| && f.ns[i].kind == Dir && EmptyDir(f.ns[i]) && f.ns[dp].nlink > 1
    ensures var g := Remove(f, dp, k, i, f.ns[dp].nlink - 1);
            i != dp && (forall d: nat :: g.Linked(d) <==> f.Linked(d) && d != i) && forall d | 0 <= d < |g.ns| :: g.NodeOk(d)
  {
    hide DistinctNames, Dirs.HomeOk, Dirs.EntOk, Dirs.Refs;
    EmptyDirRefs(f, dp, k, i);
    NamedCounts(f, dp, k, i);
    var g := Remove(f, dp, k, i, f.ns[dp].nlink - 1);
    assert f.NodeOk(i) && f.NodeOk(dp);
    forall d: nat ensures g.Linked(d) <==> f.Linked(d) && d != i { }
    forall d | 0 <= d < |g.ns| ensures g.NodeOk(d) { assert f.NodeOk(d); }
  }

  lemma RemoveDirHomes(f: Dirs, dp: nat, k: nat, i: nat)
    requires f.Valid() && Named(f, dp, k, i) && i < |f.ns| && f.ns[i].kind == Dir && EmptyDir(f.ns[i]) && f.ns[dp].nlink > 1
    ensures var g := Remove(f, dp, k, i, f.ns[dp].nlink - 1); forall c <- g.home :: g.HomeOk(c)
  {
  }

  lemma RemoveDirTree(f: Dirs, dp: nat, k: nat, i: nat)
    requires f.Valid() && Named(f, dp, k, i) && i < |f.ns| && f.ns[i].kind == Dir && EmptyDir(f.ns[i]) && f.ns[dp].nlink > 1
    ensures Remove(f, dp, k, i, f.ns[dp].nlink - 1).TreeOk()
  {
    hide DistinctNames, Dirs.NodeOk, Dirs.HomeOk, Dirs.Refs;
    NamedCounts(f, dp, k, i);
    RemoveDirNodes(f, dp, k, i);
    RemoveDirHomes(f, dp, k, i);
    ClearDistinct(f.ns[dp].ents, k);
    var g := Remove(f, dp, k, i, f.ns[dp].nlink - 1);
    forall d, j | 0 <= d < |g.ns| && 0 <= j < |g.ns[d].ents| ensures g.EntOk(d, j) { assert f.EntOk(d, j); }
  }

  lemma RemoveDirRefs(f: Dirs, dp: nat, k: nat, i: nat, j: nat)
    requires f.Valid() && Named(f, dp, k, i) && i < |f.ns| && f.ns[i].kind == Dir && EmptyDir(f.ns[i])
    requires f.ns[dp].nlink > 1 && j > 0
    ensures (i, 1) in f.Refs(dp) && (dp, k) in f.Refs(i) && i != dp
    ensures Remove(f, dp, k, i, f.ns[dp].nlink - 1).Refs(j)
         == f.Refs(j) - (if j == i then {(dp, k)} else {}) - (if j == dp then {(i, 1)} else {})
  {
    hide DistinctNames, Dirs.CountOk;
    EmptyDirRefs(f, dp, k, i);
    NamedCounts(f, dp, k, i);
    RemoveDirNodes(f, dp, k, i);
    var g := Remove(f, dp, k, i, f.ns[dp].nlink - 1);
    assert f.NodeOk(i) && f.EntOk(dp, k);
    assert f.RefAt(dp, i, 1);
    forall d: nat, m: nat
      ensures g.RefAt(j, d, m) <==> f.RefAt(j, d, m) && !(j == i && d == dp && m == k) && !(j == dp && d == i && m == 1)
    {
    }
    RefsLess(f, g, j, if j == i then {(dp, k)} else {}, if j == dp then {(i, 1)} else {});
  }

  lemma RefsLess(f: Dirs, g: Dirs, j: nat, a: set<(nat, nat)>, b: set<(nat, nat)>)
    requires forall d: nat, m: nat :: g.RefAt(j, d, m) <==> f.RefAt(j, d, m) && (d, m) !in a && (d, m) !in b
    ensures g.Refs(j) == f.Refs(j) - a - b
  {
  }

  lemma RemoveDirKeeps(f: Dirs, dp: nat, k: nat, i: nat)
    requires f.Valid() && Named(f, dp, k, i) && i < |f.ns| && f.ns[i].kind == Dir && EmptyDir(f.ns[i])
    ensures f.ns[dp].nlink > 1 && f.ns[i].nlink == 1 && Remove(f, dp, k, i, f.ns[dp].nlink - 1).Valid()
  {
    hide Dirs.TreeOk, Dirs.Refs;
    ParentStays(f, dp, k, i);
    EmptyDirRefs(f, dp, k, i);
    RemoveDirTree(f, dp, k, i);
    var g := Remove(f, dp, k, i, f.ns[dp].nlink - 1);
    forall j | 1 <= j < |g.ns| ensures g.CountOk(j) {
      assert f.CountOk(j) && f.CountOk(i) && f.CountOk(dp);
      RemoveDirRefs(f, dp, k, i, j);
    }
  }

  // An inode without links

  ghost function Freed(f: Dirs, i: nat): Dirs
    requires i < |f.ns|
  {
    f.(ns := f.ns[i := Dnode(Free, 0, [])])
  }

  lemma FreedKeeps(f: Dirs, i: nat)
    requires f.Valid() && 0 < i < |f.ns| && f.ns[i].nlink == 0
    ensures Freed(f, i).Valid()
  {
    FreedTree(f, i);
    var g := Freed(f, i);
    forall j | 1 <= j < |g.ns| ensures g.CountOk(j) {
      assert f.CountOk(j);
      forall d: nat, m: nat ensures g.RefAt(j, d, m) <==> f.RefAt(j, d, m) { }
      assert g.Refs(j) == f.Refs(j);
    }
  }

  lemma FreedTree(f: Dirs, i: nat)
    requires f.Valid() && 0 < i < |f.ns| && f.ns[i].nlink == 0
    ensures Freed(f, i).TreeOk()
  {
    hide DistinctNames, Dirs.Refs;
    var g := Freed(f, i);
    EmptyDistinct();
    assert f.NodeOk(i) && f.CountOk(i);
    NoRefs(f, i);
    forall d: nat ensures g.Linked(d) <==> f.Linked(d) { }
    forall d | 0 <= d < |g.ns| ensures g.NodeOk(d) { assert f.NodeOk(d); }
    forall c <- g.home ensures g.HomeOk(c) { assert f.HomeOk(c); }
    forall d, j | 0 <= d < |g.ns| && 0 <= j < |g.ns[d].ents| ensures g.EntOk(d, j) {
      assert f.EntOk(d, j) && f.NodeOk(d);
      assert !f.RefAt(i, d, j);
    }
  }

  lemma NoRefs(f: Dirs, i: nat)
    requires i < |f.ns| && f.CountOk(i) && f.ns[i].nlink == 0
    ensures forall d: nat, k: nat :: !f.RefAt(i, d, k)
  {
    assert f.Refs(i) == {};
    forall d: nat, k: nat ensures !f.RefAt(i, d, k) { assert (d, k) !in f.Refs(i); }
  }

  /** A name in a directory that has none itself is not counted: the file that gets it has a link too
      many. */
  lemma AddFileUnlinked(f: Dirs, dp: nat, k: nat, name: string, i: nat, node: Dnode)
    requires f.Valid() && dp < |f.ns| && f.ns[dp].kind == Dir && !f.Linked(dp) && k <= |f.ns[dp].ents|
    requires FileStep(f, i, node) && node.nlink == f.ns[i].nlink + 1
    ensures !AddFile(f, dp, k, name, i, node).CountOk(i)
  {
    var g := AddFile(f, dp, k, name, i, node);
    assert f.CountOk(i);
    forall d: nat, m: nat ensures g.RefAt(i, d, m) <==> f.RefAt(i, d, m) { }
    assert g.Refs(i) == f.Refs(i);
  }

  lemma AddDirUnlinkedRefs(f: Dirs, dp: nat, k: nat, name: string, i: nat)
    requires f.Valid() && dp < |f.ns| && f.ns[dp].kind == Dir && !f.Linked(dp) && 2 <= k <= |f.ns[dp].ents|
    requires 0 < i < |f.ns| && f.ns[i].kind == Free && name != "."
    ensures i != dp && |f.ns[dp].ents| >= 2 && 0 < f.ns[dp].ents[1].inum < |f.ns|
    ensures var up := f.ns[dp].ents[1].inum;
      AddDir(f, dp, k, name, i).Refs(up)
        == f.Refs(up) + {(dp, 1)} + (if up == i then {(dp, k)} else {}) + (if up == dp then {(i, 1)} else {})
  {
    hide DistinctNames, Dirs.HomeOk, Dirs.EntOk, Dirs.CountOk;
    assert f.NodeOk(dp) && f.NodeOk(i);
    var g, up := AddDir(f, dp, k, name, i), f.ns[dp].ents[1].inum;
    forall d: nat, m: nat
      ensures g.RefAt(up, d, m) <==>
        f.RefAt(up, d, m) || (d == dp && m == 1) || (up == i && d == dp && m == k) || (up == dp && d == i && m == 1)
    {
    }
  }

  /** A new directory gives a directory that has no name a link from its "..", and with it that
      directory's own ".." counts again, which nobody has counted. */
  lemma AddDirUnlinked(f: Dirs, dp: nat, k: nat, name: string, i: nat)
    requires f.Valid() && dp < |f.ns| && f.ns[dp].kind == Dir && !f.Linked(dp) && 2 <= k <= |f.ns[dp].ents|
    requires 0 < i < |f.ns| && f.ns[i].kind == Free && name != "."
    ensures |f.ns[dp].ents| >= 2 && 0 < f.ns[dp].ents[1].inum < |f.ns|
    ensures !AddDir(f, dp, k, name, i).CountOk(f.ns[dp].ents[1].inum)
  {
    AddDirUnlinkedRefs(f, dp, k, name, i);
    var up := f.ns[dp].ents[1].inum;
    assert f.NodeOk(i) && f.CountOk(up);
    assert !f.RefAt(up, dp, 1) && !f.RefAt(up, dp, k) && !f.RefAt(up, i, 1);
    hide Dirs.TreeOk, Dirs.RefAt;
    assert (dp, 1) !in f.Refs(up) && (dp, k) !in f.Refs(up) && (i, 1) !in f.Refs(up);
  }
}
