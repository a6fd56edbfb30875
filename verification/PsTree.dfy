/** procinfo of kernel/proc.c, which serves the system call getprocs, and the tree that user/pstree.c prints
    from it. */
module PsTree {

  import opened Basics
  import opened ProcTable

  /** struct pstat: what one process tells. */
  datatype Pstat = Pstat(pid: nat, ppid: nat)

  /** A line of output: so many indents, and the process. */
  datatype Line = Line(indent: nat, pid: nat)

  /** Pids are positive and occur once, and a parent is older. */
  ghost predicate Snapshot(us: seq<Pstat>)
  {
    && (forall i | 0 <= i < |us| :: us[i].pid > us[i].ppid)
    && (forall i, j | 0 <= i < j < |us| :: us[i].pid != us[j].pid)
  }

  /** Everybody but init has its parent in the list. */
  ghost predicate Complete(us: seq<Pstat>)
  {
    forall i | 0 <= i < |us| && us[i].pid != 1 :: Present(us, us[i].ppid)
  }

  ghost predicate Present(us: seq<Pstat>, pid: nat)
  {
    exists i :: 0 <= i < |us| && us[i].pid == pid
  }

  ghost function Find(us: seq<Pstat>, pid: nat): (i: nat)
    requires Present(us, pid)
    ensures i < |us| && us[i].pid == pid
  {
    var i :| 0 <= i < |us| && us[i].pid == pid; i
  }

  /** How many generations below root pid is. */
  ghost function Depth(us: seq<Pstat>, root: nat, pid: nat): Option<nat>
    requires Snapshot(us)
    decreases pid
  {
    if !Present(us, pid) then None
    else if pid == root then Some(0)
    else
      match Depth(us, root, us[Find(us, pid)].ppid)
      case None => None
      case Some(d) => Some(d + 1)
  }

  /** The tables that a scan without locks meets, ts[i] when it comes to slot i. */
  ghost predicate Met(ts: seq<Table>)
  {
    && (forall i | 0 <= i < |ts| :: ts[i].Valid() && |ts[i].procs| == |ts|)
    && (forall i, j | 0 <= i < j < |ts| :: Evolves(ts[i], ts[j]))
  }

  /** The entries so far are those of the slots found in use below n, in table order. */
  ghost predicate Lists(ts: seq<Table>, n: nat, us: seq<Pstat>, at: seq<nat>)
    requires forall i | 0 <= i < |ts| :: |ts[i].procs| == |ts|
  {
    && |at| == |us| && n <= |ts|
    && (forall e | 0 <= e < |us| :: at[e] < n && ts[at[e]].procs[at[e]].state != Unused && us[e] == Told(ts[at[e]].procs, at[e]))
    && (forall e, f | 0 <= e < f < |us| :: at[e] < at[f])
    && (forall i | 0 <= i < n && ts[i].procs[i].state != Unused :: i in at)
  }

  /** What slot i tells: its pid and its parent's, or 0. */
  function Told(procs: seq<Proc>, i: nat): (u: Pstat)
    requires i < |procs|
    ensures u.pid == procs[i].pid && (procs[i].parent == None ==> u.ppid == 0)
    ensures forall q | 0 <= q < |procs| && procs[i].parent == Some(q) :: u.ppid == procs[q].pid
  {
    Pstat(procs[i].pid,
          if procs[i].parent.Some? && procs[i].parent.value < |procs| then procs[procs[i].parent.value].pid else 0)
  }

  /** procinfo into a buffer that has room for so many entries, while other processes take any steps
      between two slots: an entry for every slot found in use, in table order, or -1 at the first that
      does not fit. Pids are distinct and parents older in any case. */
  method Procinfo(found: seq<seq<Proc>>, room: nat, ghost ts: seq<Table>) returns (r: int, us: seq<Pstat>, ghost at: seq<nat>)
    requires Met(ts) && |found| == |ts| && forall i | 0 <= i < |ts| :: found[i] == ts[i].procs
    ensures r != -1 ==> r == |us| <= room && Lists(ts, |ts|, us, at) && Snapshot(us)
    ensures r == -1 ==> |us| == room && exists n :: 0 <= n < |ts| && ts[n].procs[n].state != Unused && Lists(ts, n, us, at)
  {
    hide Table.Valid;
    us, at := [], [];
    var i := 0;
    while i < |found|
      invariant i <= |ts| && Lists(ts, i, us, at) && |us| <= room
    {
      if found[i][i].state != Unused {
        if |us| == room {
          return -1, us, at;
        }
        ListsMore(ts, i, us, at);
        us := us + [Told(found[i], i)];
        at := at + [i];
      }
      i := i + 1;
    }
    SnapshotOf(ts, us, at);
    r := |us|;
  }

  lemma ListsMore(ts: seq<Table>, n: nat, us: seq<Pstat>, at: seq<nat>)
    requires forall i | 0 <= i < |ts| :: |ts[i].procs| == |ts|
    requires n < |ts| && Lists(ts, n, us, at) && ts[n].procs[n].state != Unused
    ensures Lists(ts, n + 1, us + [Told(ts[n].procs, n)], at + [n])
  {
    hide Told;
  }

  /** A slot has at most one entry. */
  lemma {:induction false} ListsSize(at: seq<nat>, n: nat)
    requires (forall e | 0 <= e < |at| :: at[e] < n) && forall e, f | 0 <= e < f < |at| :: at[e] < at[f]
    ensures |at| <= n
  {
    if at != [] {
      var l := |at| - 1;
      assert at[l] < n && forall e | 0 <= e < l :: at[..l][e] < at[l];
      ListsSize(at[..l], at[l]);
    }
  }

  lemma ListsShort(ts: seq<Table>, us: seq<Pstat>, at: seq<nat>)
    requires forall i | 0 <= i < |ts| :: |ts[i].procs| == |ts|
    ensures forall n | 0 <= n < |ts| && Lists(ts, n, us, at) :: |us| < |ts|
  {
    forall n | 0 <= n < |ts| && Lists(ts, n, us, at) ensures |us| < |ts| { ListsSize(at, n); }
  }

  /** A pid found in one slot is not found in a later one: it cannot move, and is never given again. */
  lemma PidsApart(ts: seq<Table>, i: nat, j: nat)
    requires Met(ts) && i < j < |ts| && ts[i].procs[i].state != Unused && ts[j].procs[j].state != Unused
    ensures ts[i].procs[i].pid != ts[j].procs[j].pid
  {
    var t, u := ts[i], ts[j];
    assert t.Valid() && u.Valid() && Evolves(t, u);
    assert t.SlotOk(i) && t.SlotOk(j) && u.SlotOk(j);
  }

  lemma SnapshotOf(ts: seq<Table>, us: seq<Pstat>, at: seq<nat>)
    requires Met(ts) && Lists(ts, |ts|, us, at)
    ensures Snapshot(us)
  {
    hide Table.Valid, Evolves;
    forall e | 0 <= e < |us| ensures us[e].pid > us[e].ppid { OlderParent(ts[at[e]], at[e]); }
    forall e, f | 0 <= e < f < |us| ensures us[e].pid != us[f].pid { PidsApart(ts, at[e], at[f]); }
  }

  lemma OlderParent(t: Table, i: nat)
    requires t.Valid() && i < |t.procs| && t.procs[i].state != Unused
    ensures Told(t.procs, i).pid > Told(t.procs, i).ppid
  {
    assert t.SlotOk(i);
  }

  // mktree

  lemma FindAt(us: seq<Pstat>, i: nat)
    requires Snapshot(us) && i < |us|
    ensures Present(us, us[i].pid) && Find(us, us[i].pid) == i
  {
  }

  lemma {:induction false} DepthOlder(us: seq<Pstat>, root: nat, q: nat)
    requires Snapshot(us) && Depth(us, root, q).Some?
    ensures root <= q && Present(us, root)
    decreases q
  {
    if q != root { DepthOlder(us, root, us[Find(us, q)].ppid); }
  }

  /** What is below a child is one deeper below its parent. */
  lemma {:induction false} DepthDown(us: seq<Pstat>, root: nat, k: nat, q: nat)
    requires Snapshot(us) && k < |us| && us[k].ppid == root && Present(us, root) && Depth(us, us[k].pid, q).Some?
    ensures Depth(us, root, q) == Some(Depth(us, us[k].pid, q).value + 1)
    decreases q
  {
    DepthOlder(us, us[k].pid, q);
    FindAt(us, k);
    if q != us[k].pid { DepthDown(us, root, k, us[Find(us, q)].ppid); }
  }

  /** The child of root that q is at or below. */
  ghost function Branch(us: seq<Pstat>, root: nat, q: nat): (k: nat)
    requires Snapshot(us) && Depth(us, root, q).Some? && q != root
    ensures k < |us| && us[k].ppid == root && Depth(us, us[k].pid, q).Some?
    decreases q
  {
    var i := Find(us, q);
    if us[i].ppid == root then FindAt(us, i); i
    else
      var k := Branch(us, root, us[i].ppid);
      assert Depth(us, us[k].pid, q).Some?;
      k
  }

  lemma {:induction false} OneBranch(us: seq<Pstat>, root: nat, j: nat, k: nat, q: nat)
    requires Snapshot(us) && j < |us| && k < |us| && us[j].ppid == us[k].ppid == root
    requires Depth(us, us[j].pid, q).Some? && Depth(us, us[k].pid, q).Some?
    ensures j == k
    decreases q
  {
    FindAt(us, j);
    FindAt(us, k);
    if q != us[j].pid && q != us[k].pid {
      OneBranch(us, root, j, k, us[Find(us, q)].ppid);
    } else if q != us[j].pid {
      DepthOlder(us, us[j].pid, root);
    } else if q != us[k].pid {
      DepthOlder(us, us[k].pid, root);
    }
  }

  /** The line of a process at or below root, indented by its depth beyond indent. */
  ghost predicate InTree(us: seq<Pstat>, root: nat, indent: nat, l: Line)
    requires Snapshot(us)
  {
    l.indent >= indent && Depth(us, root, l.pid) == Some(l.indent - indent)
  }

  /** And one at root, or below one of the first i entries. */
  ghost predicate Printed(us: seq<Pstat>, root: nat, indent: nat, l: Line, i: nat)
    requires Snapshot(us)
  {
    InTree(us, root, indent, l) && (l.pid == root || Branch(us, root, l.pid) < i)
  }

  lemma PrintedStep(us: seq<Pstat>, root: nat, indent: nat, l: Line, i: nat)
    requires Snapshot(us) && Present(us, root) && i < |us|
    ensures Printed(us, root, indent, l, i + 1) <==>
              Printed(us, root, indent, l, i) || (us[i].ppid == root && InTree(us, us[i].pid, indent + 1, l))
    ensures us[i].ppid == root && InTree(us, us[i].pid, indent + 1, l) ==> !Printed(us, root, indent, l, i)
  {
    if us[i].ppid == root && Depth(us, us[i].pid, l.pid).Some? {
      DepthDown(us, root, i, l.pid);
      DepthOlder(us, us[i].pid, l.pid);
      OneBranch(us, root, i, Branch(us, root, l.pid), l.pid);
    }
    if Depth(us, root, l.pid).Some? && l.pid != root && Branch(us, root, l.pid) == i {
      DepthDown(us, root, i, l.pid);
    }
  }

  /** Line j is the last one before line k that is indented less. */
  ghost predicate Above(out: seq<Line>, j: int, k: int)
  {
    0 <= j < k < |out| && out[j].indent < out[k].indent && forall m | j < m < k :: out[m].indent >= out[k].indent
  }

  ghost predicate HasAbove(out: seq<Line>, k: int)
  {
    exists j :: Above(out, j, k)
  }

  /** Line b is that of a child of line a's process, indented by one more. */
  ghost predicate IsChild(us: seq<Pstat>, a: Line, b: Line)
  {
    b.indent == a.indent + 1 && exists i :: 0 <= i < |us| && us[i].pid == b.pid && us[i].ppid == a.pid
  }

  /** Two lines under the same one, the first before the second in the list. */
  ghost predicate InOrder(us: seq<Pstat>, a: Line, b: Line)
  {
    exists i, j :: 0 <= i < j < |us| && us[i].pid == a.pid && us[j].pid == b.pid
  }

  /** A tree as text: a line belongs under the last one before it that is indented less, which is its
      parent's and is indented by one less, and lines under the same one are in the order of the list. */
  ghost predicate Preorder(us: seq<Pstat>, out: seq<Line>)
  {
    && (forall k | 0 < k < |out| :: HasAbove(out, k))
    && (forall j, k | Above(out, j, k) :: IsChild(us, out[j], out[k]))
    && SiblingsOk(us, out)
  }

  ghost predicate SiblingsOk(us: seq<Pstat>, out: seq<Line>)
  {
    forall j, k, l | Above(out, j, k) && Above(out, j, l) && k < l :: InOrder(us, out[k], out[l])
  }

  /** The lines printed so far: the root's, and the trees of children before entry i. */
  ghost predicate Sofar(us: seq<Pstat>, out: seq<Line>, root: nat, indent: nat, i: nat)
  {
    && out != [] && out[0] == Line(indent, root) && Preorder(us, out)
    && (forall k | 0 < k < |out| :: out[k].indent > indent)
    && (forall k | 0 < k < |out| && out[k].indent == indent + 1 :: exists e :: 0 <= e < i && e < |us| && us[e].pid == out[k].pid)
  }

  lemma AboveLeft(out: seq<Line>, sub: seq<Line>, j: int, k: int)
    requires k < |out|
    ensures Above(out + sub, j, k) <==> Above(out, j, k)
  {
    assert forall m | 0 <= m < |out| :: (out + sub)[m] == out[m];
  }

  /** Lines of a subtree after its first are under lines of the subtree. */
  lemma AboveRight(out: seq<Line>, sub: seq<Line>, j: int, k: int)
    requires 0 < k < |sub| && forall m | 0 < m < |sub| :: sub[m].indent > sub[0].indent
    ensures Above(out + sub, j, |out| + k) <==> Above(sub, j - |out|, k)
  {
    var all := out + sub;
    assert forall m | 0 <= m < |sub| :: all[|out| + m] == sub[m];
    assert all[|out|].indent < all[|out| + k].indent;
    if Above(sub, j - |out|, k) {
      forall m | j < m < |out| + k ensures all[m].indent >= all[|out| + k].indent { assert all[m] == sub[m - |out|]; }
    }
  }

  /** The first line of a subtree is under the root. */
  lemma AboveFirst(out: seq<Line>, sub: seq<Line>, j: int)
    requires out != [] && sub != [] && sub[0].indent == out[0].indent + 1
    requires forall m | 0 < m < |out| :: out[m].indent > out[0].indent
    ensures Above(out + sub, j, |out|) <==> j == 0
  {
    var all := out + sub;
    assert forall m | 0 <= m < |out| :: all[m] == out[m];
    assert all[|out|] == sub[0];
  }

  /** The tree of the next child, entry i, follows. */
  ghost predicate Next(us: seq<Pstat>, out: seq<Line>, sub: seq<Line>, root: nat, indent: nat, i: nat)
  {
    i < |us| && us[i].ppid == root && Sofar(us, out, root, indent, i) && Sofar(us, sub, us[i].pid, indent + 1, |us|)
  }

  lemma AboveMore(us: seq<Pstat>, out: seq<Line>, sub: seq<Line>, root: nat, indent: nat, i: nat, k: int)
    requires Next(us, out, sub, root, indent, i) && 0 < k < |out + sub|
    ensures HasAbove(out + sub, k)
  {
    hide Above, SiblingsOk, IsChild;
    var n := |out|;
    if k < n {
      assert HasAbove(out, k);
      var j :| Above(out, j, k);
      AboveLeft(out, sub, j, k);
    } else if k == n {
      AboveFirst(out, sub, 0);
    } else {
      assert HasAbove(sub, k - n);
      var j :| Above(sub, j, k - n);
      AboveRight(out, sub, n + j, k - n);
    }
  }

  lemma ChildMore(us: seq<Pstat>, out: seq<Line>, sub: seq<Line>, root: nat, indent: nat, i: nat, j: int, k: int)
    requires Next(us, out, sub, root, indent, i) && Above(out + sub, j, k)
    ensures IsChild(us, (out + sub)[j], (out + sub)[k])
  {
    hide SiblingsOk, HasAbove;
    var n := |out|;
    if k < n {
      AboveLeft(out, sub, j, k);
    } else if k == n {
      AboveFirst(out, sub, j);
    } else {
      AboveRight(out, sub, j, k - n);
    }
  }

  lemma OrderMore(us: seq<Pstat>, out: seq<Line>, sub: seq<Line>, root: nat, indent: nat, i: nat, j: int, k: int, l: int)
    requires Next(us, out, sub, root, indent, i) && k < l < |out + sub| && Above(out + sub, j, k) && Above(out + sub, j, l) && k < l
    ensures InOrder(us, (out + sub)[k], (out + sub)[l])
  {
    hide SiblingsOk, InOrder, IsChild, HasAbove, Above;
    var n := |out|;
    if l < n {
      AboveLeft(out, sub, j, k);
      AboveLeft(out, sub, j, l);
      SameSide(us, out, j, k, l);
    } else if l == n {
      FirstInOrder(us, out, sub, root, indent, i, j, k);
    } else {
      RightInOrder(us, out, sub, j, k, l);
    }
  }

  lemma RightInOrder(us: seq<Pstat>, out: seq<Line>, sub: seq<Line>, j: int, k: int, l: int)
    requires SiblingsOk(us, sub) && forall m | 0 < m < |sub| :: sub[m].indent > sub[0].indent
    requires Above(out + sub, j, k) && Above(out + sub, j, l) && |out| < l && k < l
    ensures InOrder(us, (out + sub)[k], (out + sub)[l])
  {
    hide SiblingsOk, InOrder;
    var n := |out|;
    AboveRight(out, sub, j, l - n);
    assert n <= j < k;
    AboveRight(out, sub, j, k - n);
    hide Above;
    SameSide(us, sub, j - n, k - n, l - n);
  }

  lemma SameSide(us: seq<Pstat>, out: seq<Line>, j: int, k: int, l: int)
    requires SiblingsOk(us, out) && Above(out, j, k) && Above(out, j, l) && k < l
    ensures InOrder(us, out[k], out[l])
  {
    hide InOrder;
  }

  lemma FirstInOrder(us: seq<Pstat>, out: seq<Line>, sub: seq<Line>, root: nat, indent: nat, i: nat, j: int, k: int)
    requires Next(us, out, sub, root, indent, i) && Above(out + sub, j, k) && Above(out + sub, j, |out|) && k < |out|
    ensures InOrder(us, (out + sub)[k], (out + sub)[|out|])
  {
    hide SiblingsOk, HasAbove;
    AboveFirst(out, sub, j);
    AboveLeft(out, sub, j, k);
    assert IsChild(us, out[j], out[k]);
    var e :| 0 <= e < i && us[e].pid == out[k].pid;
    assert us[i].pid == sub[0].pid;
  }

  lemma SofarMore(us: seq<Pstat>, out: seq<Line>, sub: seq<Line>, root: nat, indent: nat, i: nat)
    requires Next(us, out, sub, root, indent, i)
    ensures Sofar(us, out + sub, root, indent, i + 1)
  {
    var all, n := out + sub, |out|;
    assert Preorder(us, all) by {
      hide Above, IsChild, InOrder, HasAbove, Next;
      forall k | 0 < k < |all| ensures HasAbove(all, k) { AboveMore(us, out, sub, root, indent, i, k); }
      forall j, k | Above(all, j, k) ensures IsChild(us, all[j], all[k]) { ChildMore(us, out, sub, root, indent, i, j, k); }
      forall j, k, l | Above(all, j, k) && Above(all, j, l) && k < l ensures InOrder(us, all[k], all[l]) {
        OrderMore(us, out, sub, root, indent, i, j, k, l);
      }
    }
    hide Preorder;
    assert forall m | 0 <= m < n :: all[m] == out[m];
    assert forall m | 0 <= m < |sub| :: all[n + m] == sub[m];
  }

  /** mktree: every process at or below the root has exactly one line, indented by its depth, and no
      other process has any, and the lines are those of a tree; a root that is not there prints none. */
  method Mktree(us: seq<Pstat>, indent: nat, pid: nat, ghost max: nat) returns (out: seq<Line>)
    requires Snapshot(us) && forall i | 0 <= i < |us| :: us[i].pid <= max
    ensures !Present(us, pid) ==> out == []
    ensures Present(us, pid) ==> Sofar(us, out, pid, indent, |us|) && Preorder(us, out)
    ensures Present(us, pid) ==> forall l: Line :: multiset(out)[l] == if InTree(us, pid, indent, l) then 1 else 0
    decreases max + 1 - pid
  {
    var i := 0;
    while i < |us| && us[i].pid != pid
      invariant i <= |us| && forall k | 0 <= k < i :: us[k].pid != pid
    {
      i := i + 1;
    }
    if i == |us| {
      return [];
    }
    out := [Line(indent, pid)];
    i := 0;
    while i < |us|
      invariant i <= |us| && Sofar(us, out, pid, indent, i)
      invariant forall l: Line :: multiset(out)[l] == if Printed(us, pid, indent, l, i) then 1 else 0
    {
      forall l: Line { PrintedStep(us, pid, indent, l, i); }
      if us[i].ppid == pid {
        FindAt(us, i);
        var sub := Mktree(us, indent + 1, us[i].pid, max);
        SofarMore(us, out, sub, pid, indent, i);
        out := out + sub;
      }
      i := i + 1;
    }
  }

  /** The tree of init, which pstree prints by default, has everybody in the list exactly if everybody's
      parent is in the list. */
  lemma {:induction false} EverybodyShown(us: seq<Pstat>)
    requires Snapshot(us)
    ensures (forall e | 0 <= e < |us| :: Depth(us, 1, us[e].pid).Some?) <==> Complete(us)
  {
    forall e | 0 <= e < |us| && Complete(us) ensures Depth(us, 1, us[e].pid).Some? { ShownIn(us, us[e].pid); }
    forall e | 0 <= e < |us| && us[e].pid != 1 && Depth(us, 1, us[e].pid).Some? ensures Present(us, us[e].ppid) {
      FindAt(us, e);
      assert Depth(us, 1, us[e].ppid).Some?;
    }
  }

  lemma {:induction false} ShownIn(us: seq<Pstat>, q: nat)
    requires Snapshot(us) && Complete(us) && Present(us, q)
    ensures Depth(us, 1, q).Some?
    decreases q
  {
    if q != 1 { ShownIn(us, us[Find(us, q)].ppid); }
  }

  /** Of a table that does not change meanwhile, it has everybody unless a fork is incomplete. */
  lemma StillComplete(ts: seq<Table>, us: seq<Pstat>, at: seq<nat>)
    requires Met(ts) && Lists(ts, |ts|, us, at) && forall i | 0 <= i < |ts| :: ts[i] == ts[0]
    requires forall i | 0 <= i < |ts| && ts[0].procs[i].state == Used :: ts[0].procs[i].parent.Some?
    ensures Complete(us)
  {
    forall e | 0 <= e < |us| && us[e].pid != 1 ensures Present(us, us[e].ppid) {
      var t, i := ts[0], at[e];
      assert t.Valid() && t.SlotOk(i) && ts[i] == t;
      var q := t.procs[i].parent.value;
      assert t.SlotOk(q) && ts[q] == t && q in at;
      var f :| 0 <= f < |at| && at[f] == q;
      assert us[f].pid == us[e].ppid;
    }
  }

  /** init forks into a slot that the scan has passed, and that child forks into one it has not: the list
      has the grandchild and not its parent, and the tree of init does not show it. */
  method ParentMissed() returns (r: int, us: seq<Pstat>)
    ensures r != -1 && Snapshot(us) && Present(us, 3) && !Present(us, 2) && Depth(us, 1, 3) == None
  {
    hide Table.Valid, HistoryOk, Evolves;
    var k := new Kernel(3);
    k.Dispatch(0);
    k.Release(0);
    var before := k.procs;
    ghost var t := k.Now();
    Grandchild(k);
    ghost var ts := [t, t, k.Now()];
    EvolvesNot(t);
    ghost var at;
    r, us, at := Procinfo([before, before, k.procs], 3, ts);
    ListsShort(ts, us, at);
    assert 2 in at;
    ghost var e :| 0 <= e < |at| && at[e] == 2;
    FindAt(us, e);
    assert !Present(us, 2);
  }

  method Grandchild(k: Kernel)
    requires k.Valid() && |k.procs| == 3 && k.holder == Nobody && k.forking == map[] && k.nextpid == 2
    requires k.procs == [FREE.(state := Running, pid := 1, onCpu := true), FREE, FREE]
    modifies k
    ensures k.Valid() && |k.procs| == 3 && Evolves(old(k.Now()), k.Now())
    ensures k.procs[2].state == Used && Told(k.procs, 2) == Pstat(3, 2)
  {
    hide Table.Valid, HistoryOk, Evolves;
    ghost var t := k.Now();
    assert k.procs[1].state == Unused;
    var c := k.Allocproc(0);
    ghost var t1 := k.Now();
    k.ForkLink(0, 1);
    EvolvesOn(t, t1, k.Now());
    ghost var t2 := k.Now();
    k.ForkStart(1);
    EvolvesOn(t, t2, k.Now());
    GrandchildOf(k, t);
  }

  method GrandchildOf(k: Kernel, ghost t: Table)
    requires k.Valid() && |k.procs| == 3 && k.holder == Nobody && k.forking == map[] && k.nextpid == 3 && Evolves(t, k.Now())
    requires k.procs[0].state == Running
    requires k.procs[1] == FREE.(state := Runnable, pid := 2, parent := Some(0)) && k.procs[2] == FREE
    modifies k
    ensures k.Valid() && |k.procs| == 3 && Evolves(t, k.Now())
    ensures k.procs[2].state == Used && Told(k.procs, 2) == Pstat(3, 2)
  {
    hide Table.Valid, HistoryOk, Evolves;
    ghost var t1 := k.Now();
    k.Dispatch(1);
    EvolvesOn(t, t1, k.Now());
    ghost var t2 := k.Now();
    k.Release(1);
    EvolvesOn(t, t2, k.Now());
    ghost var t3 := k.Now();
    assert k.procs[2].state == Unused;
    var c := k.Allocproc(1);
    EvolvesOn(t, t3, k.Now());
    ghost var t4 := k.Now();
    k.ForkLink(1, 2);
    EvolvesOn(t, t4, k.Now());
  }

  lemma EvolvesNot(t: Table)
    ensures Evolves(t, t)
  {
  }
}
