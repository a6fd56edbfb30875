/** dirlookup and dirlink of kernel/fs.c, and create, link and unlink of kernel/sysfile.c on inodes
    that the path lookup has found, one call at a time. */
module Directories {

  import opened Basics
  import opened DirTree

  /** What create comes to: the inode found or made, nothing, its panic when inodes run out, or that of
      ilock on a name whose inode has been freed. */
  datatype Created = Found(inum: nat) | Made(inum: nat) | Refused | NoInodes | NoType

  class DirFs {
    var ns: seq<Dnode>
    ghost var home: map<nat, (nat, nat)>
    ghost var depth: map<nat, nat>

    ghost function Now(): Dirs
      reads this
    {
      Dirs(ns, home, depth)
    }

    ghost predicate Valid()
      reads this
    {
      Now().Valid()
    }

    /** A root directory and free inodes. */
    constructor (n: nat)
      requires n > ROOT
      ensures Valid() && |ns| == n && ns[ROOT] == NewDir(ROOT, ROOT)
      ensures forall i | 0 <= i < n && i != ROOT :: ns[i] == Dnode(Free, 0, [])
    {
      ns := seq(n, i => if i == ROOT then NewDir(ROOT, ROOT) else Dnode(Free, 0, []));
      home, depth := map[], map[ROOT := 0];
      new;
      FreshRoot(Now(), n);
    }

    /** dirlookup: the entry for the short name, if there is one. */
    method Dirlookup(dp: nat, name: string) returns (r: Option<nat>, off: nat)
      requires dp < |ns| && DistinctNames(ns[dp].ents)
      ensures r.Some? <==> Short(name) in Contents(ns[dp].ents)
      ensures r.Some? ==> off < |ns[dp].ents| && ns[dp].ents[off] == Dirent(r.value, Short(name)) && r.value != 0
      ensures r.Some? ==> Contents(ns[dp].ents)[Short(name)] == r.value
    {
      off := 0;
      while off < |ns[dp].ents|
        invariant off <= |ns[dp].ents|
        invariant forall j | 0 <= j < off && ns[dp].ents[j].inum != 0 :: ns[dp].ents[j].name != Short(name)
      {
        var de := ns[dp].ents[off];
        if de.inum != 0 && de.name == Short(name) {
          InContents(ns[dp].ents, off);
          return Some(de.inum), off;
        }
        off := off + 1;
      }
      return None, off;
    }

    /** The search of dirlink: the first empty entry, or the end. */
    method EmptySlot(dp: nat) returns (k: nat)
      requires dp < |ns|
      ensures k <= |ns[dp].ents| && (k < |ns[dp].ents| ==> ns[dp].ents[k].inum == 0)
      ensures forall j | 0 <= j < k :: ns[dp].ents[j].inum != 0
    {
      k := 0;
      while k < |ns[dp].ents| && ns[dp].ents[k].inum != 0
        invariant k <= |ns[dp].ents| && forall j | 0 <= j < k :: ns[dp].ents[j].inum != 0
      {
        k := k + 1;
      }
    }

    /** dirlink: the directory maps the short name to inum, or had it already. */
    method Dirlink(dp: nat, name: string, inum: nat) returns (r: int, ghost k: nat)
      requires dp < |ns| && DistinctNames(ns[dp].ents) && inum != 0
      modifies this`ns
      ensures r == -1 <==> Short(name) in Contents(old(ns)[dp].ents)
      ensures r == -1 ==> ns == old(ns)
      ensures r in {0, -1} && |ns| == |old(ns)| && DistinctNames(ns[dp].ents)
      ensures r == 0 ==> Contents(ns[dp].ents) == Contents(old(ns)[dp].ents)[Short(name) := inum]
      ensures r == 0 ==> k <= |old(ns)[dp].ents| && (k < |old(ns)[dp].ents| ==> old(ns)[dp].ents[k].inum == 0)
      ensures r == 0 ==> forall j | 0 <= j < k :: old(ns)[dp].ents[j].inum != 0
      ensures r == 0 ==> ns == old(ns)[dp := old(ns)[dp].(ents := Put(old(ns)[dp].ents, k, Dirent(inum, Short(name))))]
    {
      var found, _ := Dirlookup(dp, name);
      if found.Some? {
        return -1, 0;
      }
      var slot := EmptySlot(dp);
      PutContents(ns[dp].ents, slot, Dirent(inum, Short(name)));
      ns := ns[dp := ns[dp].(ents := Put(ns[dp].ents, slot, Dirent(inum, Short(name))))];
      return 0, slot;
    }

    /** isdirempty */
    method Isdirempty(dp: nat) returns (r: bool)
      requires dp < |ns|
      ensures r <==> EmptyDir(ns[dp])
    {
      var k := 2;
      while k < |ns[dp].ents|
        invariant 2 <= k && forall j | 2 <= j < k && j < |ns[dp].ents| :: ns[dp].ents[j].inum == 0
      {
        if ns[dp].ents[k].inum != 0 {
          return false;
        }
        k := k + 1;
      }
      return true;
    }

    /** ialloc: the first free inode. */
    method Ialloc() returns (r: Option<nat>)
      ensures r.None? <==> forall i | 1 <= i < |ns| :: ns[i].kind != Free
      ensures r.Some? ==> 1 <= r.value < |ns| && ns[r.value].kind == Free
      ensures r.Some? ==> forall j | 1 <= j < r.value :: ns[j].kind != Free
    {
      var i := 1;
      while i < |ns|
        invariant 1 <= i && forall j | 1 <= j < i && j < |ns| :: ns[j].kind != Free
      {
        if ns[i].kind == Free {
          return Some(i);
        }
        i := i + 1;
      }
      return None;
    }

    /** sys_link, for an inode in use and the directory found for the new name, if any. A refusal leaves
        everything as it was. Every link count stays right exactly if the directory is itself linked. */
    method Link(ip: nat, parent: Option<nat>, name: string) returns (r: int)
      requires Valid() && 0 < ip < |ns| && ns[ip].kind != Free
      requires parent.Some? ==> parent.value < |ns| && ns[parent.value].kind == Dir
      modifies this`ns
      ensures r in {0, -1} && |ns| == |old(ns)|
      ensures r == -1 <==> old(ns)[ip].kind == Dir || parent.None? || Short(name) in NameMap(old(ns), parent.value)
      ensures r == -1 ==> ns == old(ns)
      ensures r == 0 ==> ns[ip] == old(ns)[ip].(nlink := old(ns)[ip].nlink + 1)
      ensures r == 0 ==> forall d | 0 <= d < |ns| && d != ip && d != parent.value :: ns[d] == old(ns)[d]
      ensures r == 0 ==> ns[parent.value] == old(ns)[parent.value].(ents := ns[parent.value].ents)
      ensures r == 0 ==> NameMap(ns, parent.value) == NameMap(old(ns), parent.value)[Short(name) := ip]
      ensures r == 0 ==> (Now().Counted() <==> old(Now()).Linked(parent.value)) && (Now().Counted() ==> Valid())
    {
      hide Dirs.TreeOk, Dirs.Counted, Contents, Put;
      ghost var f := Now();
      if ns[ip].kind == Dir {
        return -1;
      }
      ns := ns[ip := ns[ip].(nlink := ns[ip].nlink + 1)];
      if parent.None? {
        ns := ns[ip := ns[ip].(nlink := ns[ip].nlink - 1)];
        return -1;
      }
      var dp := parent.value;
      AllDistinct(f, dp);
      ghost var k;
      r, k := Dirlink(dp, name, ip);
      if r < 0 {
        ns := ns[ip := ns[ip].(nlink := ns[ip].nlink - 1)];
        return;
      }
      LinkResult(f, dp, k, Short(name), ip);
      assert Now() == AddFile(f, dp, k, Short(name), ip, f.ns[ip].(nlink := f.ns[ip].nlink + 1));
    }

    /** create in the directory found for the name. A new inode gets its name, and a new directory its
        dots and its parent a link; the panics of create cannot happen but for the lack of inodes. ilock
        panics exactly for the ".." of a removed directory whose parent has been freed. Every link count
        stays right exactly if the directory is itself linked. */
    method Create(dp: nat, name: string, kind: Kind) returns (r: Created)
      requires Valid() && dp < |ns| && ns[dp].kind == Dir && kind != Free
      modifies this
      ensures |ns| == |old(ns)|
      ensures r.Found? || r.Refused? || r.NoType? <==> Short(name) in NameMap(old(ns), dp)
      ensures r.Found? || r.Refused? || r.NoType? ==>
        var ip := NameMap(old(ns), dp)[Short(name)];
        && ip < |ns|
        && (r.Found? <==> kind == File && ns[ip].kind in {File, Device}) && (r.Found? ==> r.inum == ip)
        && (r.NoType? <==> ns[ip].kind == Free)
      ensures r.NoType? <==> Short(name) == ".." && !old(Now()).Linked(dp) && ParentFreed(old(ns), dp)
      ensures r.Found? || r.Refused? || r.NoInodes? || r.NoType? ==> ns == old(ns) && home == old(home) && depth == old(depth)
      ensures r.NoInodes? ==> forall i | 1 <= i < |ns| :: ns[i].kind != Free
      ensures r.Made? ==> 0 < r.inum < |ns| && old(ns)[r.inum].kind == Free && ns[r.inum].kind == kind && ns[r.inum].nlink == 1
      ensures r.Made? ==> forall j | 1 <= j < r.inum :: old(ns)[j].kind != Free
      ensures r.Made? ==> NameMap(ns, dp) == NameMap(old(ns), dp)[Short(name) := r.inum]
      ensures r.Made? ==> forall d | 0 <= d < |ns| && d != r.inum && d != dp :: ns[d] == old(ns)[d]
      ensures r.Made? && kind == Dir ==> ns[r.inum].ents == NewDir(r.inum, dp).ents
      ensures r.Made? ==> ns[dp].kind == Dir && ns[dp].nlink == old(ns)[dp].nlink + if kind == Dir then 1 else 0
      ensures r.Made? ==> (Now().Counted() <==> old(Now()).Linked(dp)) && (Now().Counted() ==> Valid())
    {
      hide Dirs.TreeOk, Dirs.Counted, Contents;
      ghost var f := Now();
      AllDistinct(f, dp);
      var found, off := Dirlookup(dp, name);
      if found.Some? {
        EntryInRange(f, dp, off);
        var ip := found.value;
        FreeIsParent(f, dp, off);
        if ns[ip].kind == Free {
          return NoType;
        }
        if kind == File && (ns[ip].kind == File || ns[ip].kind == Device) {
          return Found(ip);
        }
        return Refused;
      }
      HasDots(f, dp);
      var inode := Ialloc();
      if inode.None? {
        return NoInodes;
      }
      FileEmpty(f, inode.value);
      if kind == Dir {
        MakeDir(dp, name, inode.value);
      } else {
        MakeFile(dp, name, kind, inode.value);
      }
      return Made(inode.value);
    }

    method MakeFile(dp: nat, name: string, kind: Kind, ip: nat)
      requires Valid() && dp < |ns| && ns[dp].kind == Dir && (kind == File || kind == Device)
      requires 0 < ip < |ns| && ns[ip] == Dnode(Free, 0, []) && Short(name) !in NameMap(ns, dp)
      modifies this`ns
      ensures |ns| == |old(ns)| && ns[ip] == Dnode(kind, 1, []) && ns[dp] == old(ns)[dp].(ents := ns[dp].ents)
      ensures forall d | 0 <= d < |ns| && d != ip && d != dp :: ns[d] == old(ns)[d]
      ensures NameMap(ns, dp) == NameMap(old(ns), dp)[Short(name) := ip]
      ensures (Now().Counted() <==> old(Now()).Linked(dp)) && (Now().Counted() ==> Valid())
    {
      hide Dirs.TreeOk, Dirs.Counted, Contents, Put;
      ghost var f := Now();
      AllDistinct(f, dp);
      ns := ns[ip := Dnode(kind, 1, [])];
      var r, k := Dirlink(dp, name, ip);
      MakeResult(f, dp, k, Short(name), ip, Dnode(kind, 1, []));
      assert Now() == AddFile(f, dp, k, Short(name), ip, Dnode(kind, 1, []));
    }

    method MakeDir(dp: nat, name: string, ip: nat)
      requires Valid() && dp < |ns| && ns[dp].kind == Dir
      requires 0 < ip < |ns| && ns[ip] == Dnode(Free, 0, []) && Short(name) !in NameMap(ns, dp)
      modifies this
      ensures |ns| == |old(ns)| && ns[ip] == NewDir(ip, dp)
      ensures ns[dp] == old(ns)[dp].(nlink := old(ns)[dp].nlink + 1, ents := ns[dp].ents)
      ensures forall d | 0 <= d < |ns| && d != ip && d != dp :: ns[d] == old(ns)[d]
      ensures NameMap(ns, dp) == NameMap(old(ns), dp)[Short(name) := ip]
      ensures (Now().Counted() <==> old(Now()).Linked(dp)) && (Now().Counted() ==> Valid())
    {
      hide Dirs.TreeOk, Dirs.Counted, Contents;
      ghost var f := Now();
      AllDistinct(f, dp);
      ns := ns[ip := Dnode(Dir, 1, [])];
      ns := ns[dp := ns[dp].(nlink := ns[dp].nlink + 1)];
      Dots(ip, dp);
      ghost var e := ns;
      var r, k := Dirlink(dp, name, ip);
      home, depth := home[ip := (dp, k)], depth[ip := (if dp in depth then depth[dp] else 0) + 1];
      assert Now() == AddDir(f, dp, k, Short(name), ip);
      MakeDirResult(f, dp, k, Short(name), ip);
    }

    /** The "." and ".." of a new directory. */
    method Dots(ip: nat, dp: nat)
      requires 0 < ip < |ns| && ns[ip].ents == [] && dp > 0
      modifies this`ns
      ensures ns == old(ns)[ip := old(ns)[ip].(ents := NewDir(ip, dp).ents)]
    {
      hide Contents, Put, DistinctNames;
      DotNames(ip, dp);
      var r, k := Dirlink(ip, ".", ip);
      r, k := Dirlink(ip, "..", dp);
    }

    /** sys_unlink in the directory found for the name, whether or not that is linked itself. What it
        requires against, a count below one, cannot happen. */
    method Unlink(dp: nat, name: string) returns (r: int, ghost ip: nat)
      requires Valid() && dp < |ns| && ns[dp].kind == Dir
      modifies this
      ensures Valid() && r in {0, -1} && |ns| == |old(ns)|
      ensures r == 0 <==> CanUnlink(old(ns), dp, Short(name))
      ensures r == -1 ==> ns == old(ns) && home == old(home)
      ensures r == 0 ==> ip == NameMap(old(ns), dp)[Short(name)] < |ns| && old(ns)[ip] == ns[ip].(nlink := ns[ip].nlink + 1)
      ensures r == 0 ==> forall d | 0 <= d < |ns| && d != ip && d != dp :: ns[d] == old(ns)[d]
      ensures r == 0 ==> NameMap(ns, dp) == NameMap(old(ns), dp) - {Short(name)}
      ensures r == 0 && old(ns)[ip].kind == Dir ==> ns[ip].nlink == 0 && ns[dp].nlink == old(ns)[dp].nlink - 1 > 0
      ensures r == 0 && old(ns)[ip].kind != Dir ==> ns[dp].nlink == old(ns)[dp].nlink
      ensures ns[dp].kind == Dir
    {
      hide Dirs.TreeOk, Dirs.Counted, Contents, DistinctNames, EmptyDir;
      ghost var f := Now();
      AllDistinct(f, dp);
      if Short(name) == "." || Short(name) == ".." {
        return -1, 0;
      }
      var found, off := Dirlookup(dp, name);
      if found.None? {
        return -1, 0;
      }
      ip := found.value;
      FoundNamed(f, dp, off, ip);
      NamedCounts(f, dp, off, ip);
      if ns[found.value].kind == Dir {
        var empty := Isdirempty(found.value);
        if !empty {
          return -1, 0;
        }
      }
      RemoveEntry(dp, off, found.value);
      r := 0;
    }

    /** The part of unlink that writes. */
    method RemoveEntry(dp: nat, off: nat, ip: nat)
      requires Valid() && Named(Now(), dp, off, ip) && ip < |ns| && ip != dp && (ns[ip].kind == Dir ==> EmptyDir(ns[ip]))
      modifies this
      ensures Valid() && |ns| == |old(ns)| && old(ns)[ip] == ns[ip].(nlink := ns[ip].nlink + 1)
      ensures forall d | 0 <= d < |ns| && d != ip && d != dp :: ns[d] == old(ns)[d]
      ensures NameMap(ns, dp) == NameMap(old(ns), dp) - {old(ns)[dp].ents[off].name}
      ensures old(ns)[ip].kind == Dir ==> ns[ip].nlink == 0 && ns[dp].nlink == old(ns)[dp].nlink - 1 > 0
      ensures old(ns)[ip].kind != Dir ==> ns[dp].nlink == old(ns)[dp].nlink
      ensures ns[dp].kind == old(ns)[dp].kind
    {
      hide Dirs.TreeOk, Dirs.Counted, Contents, DistinctNames, EmptyDir;
      ghost var f := Now();
      AllDistinct(f, dp);
      ClearContents(ns[dp].ents, off);
      NamedCounts(f, dp, off, ip);
      if ns[ip].kind == Dir {
        RemoveDirKeeps(f, dp, off, ip);
      } else {
        RemoveFileKeeps(f, dp, off, ip);
      }
      ns := ns[dp := ns[dp].(ents := ns[dp].ents[off := Dirent(0, "")])];
      if ns[ip].kind == Dir {
        ns := ns[dp := ns[dp].(nlink := ns[dp].nlink - 1)];
      }
      ns := ns[ip := ns[ip].(nlink := ns[ip].nlink - 1)];
      home := home - {ip};
      assert Now() == Remove(f, dp, off, ip, ns[dp].nlink);
    }

    /** iput of the last reference to an inode without links. */
    method Iput(ip: nat)
      requires Valid() && 0 < ip < |ns| && ns[ip].nlink == 0
      modifies this`ns
      ensures Valid() && ns == old(ns)[ip := Dnode(Free, 0, [])]
    {
      FreedKeeps(Now(), ip);
      ns := ns[ip := Dnode(Free, 0, [])];
    }
  }

  /** The ".." of a directory names a free inode. */
  ghost predicate ParentFreed(ns: seq<Dnode>, dp: nat)
    requires dp < |ns|
  {
    |ns[dp].ents| >= 2 && ns[dp].ents[1].inum < |ns| && ns[ns[dp].ents[1].inum].kind == Free
  }

  /** The only entry that can name a free inode is the ".." of a removed directory. */
  lemma FreeIsParent(f: Dirs, dp: nat, off: nat)
    requires f.Valid() && dp < |f.ns| && f.ns[dp].kind == Dir && off < |f.ns[dp].ents| && f.ns[dp].ents[off].inum != 0
    ensures f.ns[dp].ents[off].inum < |f.ns|
    ensures f.ns[f.ns[dp].ents[off].inum].kind == Free
       <==> f.ns[dp].ents[off].name == ".." && !f.Linked(dp) && ParentFreed(f.ns, dp)
  {
    hide Dirs.Counted;
    assert f.NodeOk(dp) && f.EntOk(dp, off) && DistinctNames(f.ns[dp].ents);
  }

  lemma HasDots(f: Dirs, dp: nat)
    requires f.Valid() && dp < |f.ns| && f.ns[dp].kind == Dir
    ensures ".." in NameMap(f.ns, dp)
  {
    hide Dirs.Counted;
    assert f.NodeOk(dp) && DistinctNames(f.ns[dp].ents);
    InContents(f.ns[dp].ents, 1);
  }

  /** A name other than the dots is found only in a linked directory, after the dots. */
  lemma FoundNamed(f: Dirs, dp: nat, off: nat, ip: nat)
    requires f.Valid() && dp < |f.ns| && f.ns[dp].kind == Dir && off < |f.ns[dp].ents|
    requires f.ns[dp].ents[off].inum == ip != 0 && f.ns[dp].ents[off].name != "." && f.ns[dp].ents[off].name != ".."
    ensures Named(f, dp, off, ip)
  {
    assert f.NodeOk(dp);
  }

  /** A directory as a map. */
  ghost function NameMap(ns: seq<Dnode>, d: nat): map<string, nat>
  {
    if d < |ns| && DistinctNames(ns[d].ents) then Contents(ns[d].ents) else map[]
  }

  /** A name other than the dots that is there and does not name a directory in use. */
  ghost predicate CanUnlink(ns: seq<Dnode>, d: nat, s: string)
  {
    && s != "." && s != ".." && s in NameMap(ns, d)
    && var i := NameMap(ns, d)[s]; i < |ns| && (ns[i].kind == Dir ==> EmptyDir(ns[i]))
  }

  lemma AllDistinct(f: Dirs, d: nat)
    requires f.Valid() && d < |f.ns|
    ensures DistinctNames(f.ns[d].ents) && (f.ns[d].kind == Dir ==> d > 0)
  {
  }

  /** Where dirlink puts a new name in a linked directory. */
  lemma SlotFits(f: Dirs, dp: nat, k: nat, name: string)
    requires f.Valid() && f.Linked(dp) && |name| <= DIRSIZ && name !in NameMap(f.ns, dp)
    requires k <= |f.ns[dp].ents| && (k < |f.ns[dp].ents| ==> f.ns[dp].ents[k].inum == 0)
    requires forall j | 0 <= j < k :: f.ns[dp].ents[j].inum != 0
    ensures CanAdd(f, dp, k, name)
  {
    assert f.NodeOk(dp) && DistinctNames(f.ns[dp].ents);
    assert dp in f.home ==> f.HomeOk(dp);
    var up := f.ns[dp].ents[1].inum;
    assert f.NodeOk(up) && (up in f.home ==> f.HomeOk(up));
    forall j | 0 <= j < |f.ns[dp].ents| && f.ns[dp].ents[j].inum != 0 ensures f.ns[dp].ents[j].name != name {
      InContents(f.ns[dp].ents, j);
    }
    InContents(f.ns[dp].ents, 0);
    InContents(f.ns[dp].ents, 1);
  }

  lemma LinkResult(f: Dirs, dp: nat, k: nat, name: string, ip: nat)
    requires f.Valid() && 0 < ip < |f.ns| && f.ns[ip].kind != Free && f.ns[ip].kind != Dir
    requires dp < |f.ns| && f.ns[dp].kind == Dir && |name| <= DIRSIZ && name !in NameMap(f.ns, dp)
    requires k <= |f.ns[dp].ents| && (k < |f.ns[dp].ents| ==> f.ns[dp].ents[k].inum == 0)
    requires forall j | 0 <= j < k :: f.ns[dp].ents[j].inum != 0
    ensures var g := AddFile(f, dp, k, name, ip, f.ns[ip].(nlink := f.ns[ip].nlink + 1));
            (g.Counted() <==> f.Linked(dp)) && (g.Counted() ==> g.Valid())
  {
    hide Dirs.TreeOk;
    var node := f.ns[ip].(nlink := f.ns[ip].nlink + 1);
    FileEmpty(f, ip);
    if f.Linked(dp) {
      SlotFits(f, dp, k, name);
      AddFileKeeps(f, dp, k, name, ip, node);
    } else {
      AddFileUnlinked(f, dp, k, name, ip, node);
    }
  }

  lemma FileEmpty(f: Dirs, i: nat)
    requires f.Valid() && i < |f.ns| && f.ns[i].kind != Dir
    ensures f.ns[i].ents == [] && (f.ns[i].kind == Free ==> f.ns[i].nlink == 0)
  {
    assert f.NodeOk(i);
  }

  lemma FreshRoot(f: Dirs, n: nat)
    requires n > ROOT && |f.ns| == n && f.home == map[] && f.depth == map[ROOT := 0]
    requires forall i | 0 <= i < n :: f.ns[i] == if i == ROOT then NewDir(ROOT, ROOT) else Dnode(Free, 0, [])
    ensures f.Valid()
  {
    DotsDistinct(ROOT, ROOT);
    EmptyDistinct();
    assert f.TreeOk();
    forall j | 1 <= j < n ensures f.CountOk(j) {
      forall d: nat, m: nat ensures f.RefAt(j, d, m) <==> j == ROOT && d == ROOT && m == 1 { }
      assert f.Refs(j) == if j == ROOT then {(ROOT, 1)} else {};
    }
  }

  lemma EntryInRange(f: Dirs, dp: nat, off: nat)
    requires f.Valid() && dp < |f.ns| && off < |f.ns[dp].ents| && f.ns[dp].ents[off].inum != 0
    ensures f.ns[dp].ents[off].inum < |f.ns|
  {
    assert f.NodeOk(dp) && f.EntOk(dp, off);
  }

  lemma MakeResult(f: Dirs, dp: nat, k: nat, name: string, ip: nat, node: Dnode)
    requires f.Valid() && FileStep(f, ip, node) && node.nlink == f.ns[ip].nlink + 1
    requires dp < |f.ns| && f.ns[dp].kind == Dir && |name| <= DIRSIZ && name !in NameMap(f.ns, dp)
    requires k <= |f.ns[dp].ents| && (k < |f.ns[dp].ents| ==> f.ns[dp].ents[k].inum == 0)
    requires forall j | 0 <= j < k :: f.ns[dp].ents[j].inum != 0
    ensures var g := AddFile(f, dp, k, name, ip, node); (g.Counted() <==> f.Linked(dp)) && (g.Counted() ==> g.Valid())
  {
    hide Dirs.TreeOk;
    if f.Linked(dp) {
      SlotFits(f, dp, k, name);
      AddFileKeeps(f, dp, k, name, ip, node);
    } else {
      AddFileUnlinked(f, dp, k, name, ip, node);
    }
  }

  /** Where dirlink puts a new name in a directory that has none itself. */
  lemma AfterDots(f: Dirs, dp: nat, k: nat, name: string)
    requires f.Valid() && dp < |f.ns| && f.ns[dp].kind == Dir && !f.Linked(dp) && name !in NameMap(f.ns, dp)
    requires k <= |f.ns[dp].ents| && (k < |f.ns[dp].ents| ==> f.ns[dp].ents[k].inum == 0)
    ensures k >= 2 && name != "."
  {
    AllDistinct(f, dp);
    assert f.NodeOk(dp);
    InContents(f.ns[dp].ents, 0);
  }

  lemma MakeDirResult(f: Dirs, dp: nat, k: nat, name: string, ip: nat)
    requires f.Valid() && 0 < ip < |f.ns| && f.ns[ip].kind == Free
    requires dp < |f.ns| && f.ns[dp].kind == Dir && |name| <= DIRSIZ && name !in NameMap(f.ns, dp)
    requires k <= |f.ns[dp].ents| && (k < |f.ns[dp].ents| ==> f.ns[dp].ents[k].inum == 0)
    requires forall j | 0 <= j < k :: f.ns[dp].ents[j].inum != 0
    ensures var g := AddDir(f, dp, k, name, ip); (g.Counted() <==> f.Linked(dp)) && (g.Counted() ==> g.Valid())
  {
    hide Dirs.TreeOk, Dirs.CountOk;
    if f.Linked(dp) {
      SlotFits(f, dp, k, name);
      AddDirKeeps(f, dp, k, name, ip);
    } else {
      AfterDots(f, dp, k, name);
      AddDirUnlinked(f, dp, k, name, ip);
    }
  }

  lemma DotNames(ip: nat, dp: nat)
    requires ip > 0 && dp > 0
    ensures DistinctNames([]) && Contents([]) == map[] && Put([], 0, Dirent(ip, ".")) == [Dirent(ip, ".")]
    ensures DistinctNames([Dirent(ip, ".")]) && Contents([Dirent(ip, ".")]) == map["." := ip]
    ensures Put([Dirent(ip, ".")], 1, Dirent(dp, "..")) == NewDir(ip, dp).ents
  {
  }
}
