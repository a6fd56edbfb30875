/** Physical memory and the three-level page tables of kernel/vm.c, as a value. A page is 512 words;
    page-table pages are found from the root by following valid entries. The ghost maps record which
    page holds which node of which tree, and what every page in use is used for. */
module Sv39 {

  const NPTE: nat := 512
  /** Page numbers below MAXVA. */
  const MAXVPN: nat := 0x400_0000

  const PTE_V: nat := 1
  const PTE_R: nat := 2
  const PTE_W: nat := 4
  const PTE_X: nat := 8
  const PTE_U: nat := 16

  type Words = seq<nat>

  function Fill(w: nat): (p: Words)
    ensures |p| == NPTE && forall i | 0 <= i < NPTE :: p[i] == w
  {
    seq(NPTE, _ => w)
  }

  predicate IsValid(w: nat)
  {
    w % 2 == 1
  }

  /** The page that an entry names: PTE2PA over PGSIZE. */
  function FrameOf(w: nat): nat
  {
    w / 1024
  }

  function FlagsOf(w: nat): nat
  {
    w % 1024
  }

  /** Some of PTE_R, PTE_W, PTE_X. */
  predicate IsLeaf(w: nat)
  {
    w / 2 % 8 != 0
  }

  /** PA2PTE(pa) | perm | PTE_V */
  function MakePte(frame: nat, perm: nat): (w: nat)
    requires perm < 1024
  {
    frame * 1024 + if perm % 2 == 0 then perm + 1 else perm
  }

  lemma PteParts(frame: nat, perm: nat)
    requires perm < 1024
    ensures IsValid(MakePte(frame, perm)) && FrameOf(MakePte(frame, perm)) == frame
    ensures FlagsOf(MakePte(frame, perm)) == if perm % 2 == 0 then perm + 1 else perm
    ensures IsLeaf(MakePte(frame, perm)) <==> perm / 2 % 8 != 0
    ensures MakePte(frame, perm) / 0x400 == frame && MakePte(frame, perm) % 0x400 / 2 == perm / 2 && MakePte(frame, perm) % 2 == 1
  {
    var h := perm / 2;
    assert MakePte(frame, perm) == 1024 * frame + 2 * h + 1;
    OddParts(frame, h);
  }

  lemma OddParts(frame: nat, h: nat)
    requires h < 512
    ensures var w := 1024 * frame + 2 * h + 1; w % 2 == 1 && w / 1024 == frame && w % 1024 == 2 * h + 1
    ensures (1024 * frame + 2 * h + 1) / 2 % 8 == h % 8
  {
    var half := 512 * frame + h;
    assert 1024 * frame + 2 * h + 1 == 2 * half + 1;
    assert half == 8 * (64 * frame + h / 8) + h % 8;
  }

  /** Node level of the tree of a space; prefix is what the indices above it spell. */
  datatype Node = Node(space: nat, level: nat, prefix: nat) {
    function Child(i: nat): Node
      requires level > 0
    {
      Node(space, level - 1, prefix * NPTE + i)
    }

    function Parent(): Node
    {
      Node(space, level + 1, prefix / NPTE)
    }
  }

  /** A page in use is a page-table page, a page of a space's memory, or held by the kernel. */
  datatype Use = Table(node: Node) | Page(space: nat, vpn: nat) | Held

  datatype Vm = Vm(mem: seq<Words>, free: seq<nat>, lo: nat, uses: map<nat, Use>, nodes: map<Node, nat>) {

    ghost predicate NodeOk(n: Node)
      requires n in nodes
    {
      && n.level <= 2 && nodes[n] in uses && uses[nodes[n]] == Table(n)
      && (if n.level == 2 then n.prefix == 0 else n.Parent() in nodes)
    }

    /** Entries above the last level are exactly the links to the children; entries of the last level
        are empty or leaves. */
    ghost predicate EntryOk(n: Node, i: nat)
      requires n in nodes && i < NPTE && nodes[n] < |mem| && |mem[nodes[n]]| == NPTE
    {
      var w := mem[nodes[n]][i];
      if n.level == 0 then w == 0 || (IsValid(w) && IsLeaf(w))
      else w == if n.Child(i) in nodes then nodes[n.Child(i)] * 1024 + 1 else 0
    }

    ghost predicate FreeOk(i: nat)
      requires i < |free|
    {
      lo <= free[i] < |mem| && free[i] !in uses && forall j | 0 <= j < i :: free[j] != free[i]
    }

    ghost predicate UseOk(f: nat)
      requires f in uses
    {
      lo <= f < |mem| && (uses[f].Table? ==> uses[f].node in nodes && nodes[uses[f].node] == f)
    }

    /** Every page from lo on is either free, once, or in use, once. */
    ghost predicate Counted()
    {
      && lo <= |mem| && (forall p | 0 <= p < |mem| :: |mem[p]| == NPTE)
      && (forall i | 0 <= i < |free| :: FreeOk(i))
      && (forall f <- uses :: UseOk(f))
      && (forall f | lo <= f < |mem| :: f in uses || f in free)
      && (forall n <- nodes :: NodeOk(n))
    }

    ghost predicate Valid()
    {
      Counted() && forall n, i | n in nodes && 0 <= i < NPTE :: EntryOk(n, i)
    }

    /** The entry for page vpn of a space; 0 where the tree does not reach. */
    ghost function Leaf(space: nat, vpn: nat): nat
      requires Counted()
    {
      var n := Node(space, 0, vpn / NPTE);
      if n in nodes then assert NodeOk(n) && UseOk(nodes[n]); mem[nodes[n]][vpn % NPTE] else 0
    }
  }

  /** No page of a space is lost: the space maps it where it says. */
  ghost predicate PageOk(v: Vm, f: nat)
    requires v.Counted() && f in v.uses
  {
    v.uses[f].Page? ==> IsValid(v.Leaf(v.uses[f].space, v.uses[f].vpn)) && FrameOf(v.Leaf(v.uses[f].space, v.uses[f].vpn)) == f
  }

  ghost predicate Tight(v: Vm)
    requires v.Counted()
  {
    forall f <- v.uses :: PageOk(v, f)
  }

  ghost predicate LeavesSame(v: Vm, w: Vm)
    requires v.Counted() && w.Counted()
  {
    forall s, p | 0 <= s && 0 <= p :: w.Leaf(s, p) == v.Leaf(s, p)
  }

  /** Two pages of a space reach two different entries, in the same or in different nodes. */
  lemma SlotsDistinct(v: Vm, s: nat, p: nat, t: nat, q: nat)
    requires v.Counted() && Node(s, 0, p / NPTE) in v.nodes && Node(t, 0, q / NPTE) in v.nodes && (s, p) != (t, q)
    ensures v.nodes[Node(s, 0, p / NPTE)] != v.nodes[Node(t, 0, q / NPTE)] || p % NPTE != q % NPTE
  {
  }

  // walk

  lemma Entry(v: Vm, n: Node, i: nat)
    requires v.Valid() && n in v.nodes && i < NPTE
    ensures v.lo <= v.nodes[n] < |v.mem| && |v.mem[v.nodes[n]]| == NPTE && n.level <= 2
    ensures n.level > 0 ==> (IsValid(v.mem[v.nodes[n]][i]) <==> n.Child(i) in v.nodes)
    ensures n.level > 0 && n.Child(i) in v.nodes ==> FrameOf(v.mem[v.nodes[n]][i]) == v.nodes[n.Child(i)]
  {
    assert v.NodeOk(n) && v.UseOk(v.nodes[n]) && v.EntryOk(n, i);
  }

  /** A page from the free list, zeroed, becomes child i of n. */
  ghost function AddChild(v: Vm, n: Node, i: nat): Vm
    requires v.Counted() && n in v.nodes && n.level > 0 && i < NPTE && |v.free| > 0
  {
    assert v.NodeOk(n) && v.UseOk(v.nodes[n]) && v.FreeOk(0);
    var f, t := v.free[0], v.nodes[n];
    var mem := v.mem[f := Fill(0)];
    Vm(mem[t := mem[t][i := f * 1024 + 1]], v.free[1..], v.lo, v.uses[f := Table(n.Child(i))], v.nodes[n.Child(i) := f])
  }

  lemma TakeFirst(v: Vm, use: Use)
    requires v.Counted() && |v.free| > 0
    ensures v.lo <= v.free[0] < |v.mem| && v.free[0] !in v.uses
    ensures forall i | 0 <= i < |v.free| - 1 :: v.free[1..][i] !in v.uses[v.free[0] := use]
    ensures forall i, j | 0 <= j < i < |v.free| - 1 :: v.free[1..][j] != v.free[1..][i]
  {
    assert v.FreeOk(0);
    forall i | 0 <= i < |v.free| - 1 ensures v.free[1..][i] !in v.uses[v.free[0] := use] {
      assert v.FreeOk(i + 1);
    }
    forall i, j | 0 <= j < i < |v.free| - 1 ensures v.free[1..][j] != v.free[1..][i] {
      assert v.FreeOk(i + 1);
    }
  }

  lemma AddChildCounted(v: Vm, n: Node, i: nat)
    requires v.Valid() && n in v.nodes && n.level > 0 && i < NPTE && |v.free| > 0 && n.Child(i) !in v.nodes
    ensures AddChild(v, n, i).Counted()
  {
    var w, c := AddChild(v, n, i), n.Child(i);
    TakeFirst(v, Table(c));
    assert v.NodeOk(n) && v.UseOk(v.nodes[n]);
    forall j | 0 <= j < |w.free| ensures w.FreeOk(j) { assert v.FreeOk(j + 1); }
    forall f <- w.uses ensures w.UseOk(f) { assert f in v.uses ==> v.UseOk(f); }
    forall m <- w.nodes ensures w.NodeOk(m) { assert m in v.nodes ==> v.NodeOk(m) && v.UseOk(v.nodes[m]); }
    forall f | w.lo <= f < |w.mem| ensures f in w.uses || f in w.free {
      if f in v.free && f != v.free[0] {
        var k :| 0 <= k < |v.free| && v.free[k] == f;
        assert w.free[k - 1] == f;
      }
    }
  }

  /** A node that is not in the tree has no children there. */
  lemma NoChild(v: Vm, c: Node, k: nat)
    requires v.Counted() && 0 < c.level <= 2 && c !in v.nodes && k < NPTE
    ensures c.Child(k) !in v.nodes
  {
    assert c.Child(k).Parent() == c;
    forall m <- v.nodes ensures m != c.Child(k) { assert v.NodeOk(m); }
  }

  lemma AddChildEntries(v: Vm, n: Node, i: nat)
    requires v.Valid() && n in v.nodes && n.level > 0 && i < NPTE && |v.free| > 0 && n.Child(i) !in v.nodes
    ensures AddChild(v, n, i).Valid()
  {
    AddChildCounted(v, n, i);
    var w, c := AddChild(v, n, i), n.Child(i);
    assert v.FreeOk(0) && v.NodeOk(n) && v.UseOk(v.nodes[n]);
    forall m, k | m in w.nodes && 0 <= k < NPTE ensures w.EntryOk(m, k) {
      AddChildEntry(v, n, i, m, k);
    }
  }

  lemma AddChildEntry(v: Vm, n: Node, i: nat, m: Node, k: nat)
    requires v.Valid() && n in v.nodes && n.level > 0 && i < NPTE && |v.free| > 0 && n.Child(i) !in v.nodes
    requires AddChild(v, n, i).Counted() && m in AddChild(v, n, i).nodes && k < NPTE
    ensures AddChild(v, n, i).nodes[m] < |AddChild(v, n, i).mem| && |AddChild(v, n, i).mem[AddChild(v, n, i).nodes[m]]| == NPTE
    ensures AddChild(v, n, i).EntryOk(m, k)
  {
    var w, c := AddChild(v, n, i), n.Child(i);
    assert v.FreeOk(0) && v.NodeOk(n) && v.UseOk(v.nodes[n]) && w.NodeOk(m) && w.UseOk(w.nodes[m]);
    if m == c {
      if c.level > 0 { NoChild(v, c, k); }
    } else {
      assert v.NodeOk(m) && v.UseOk(v.nodes[m]) && v.EntryOk(m, k);
    }
  }

  /** A new node changes no leaf of any space. */
  lemma AddChildKeeps(v: Vm, n: Node, i: nat)
    requires v.Valid() && n in v.nodes && n.level > 0 && i < NPTE && |v.free| > 0 && n.Child(i) !in v.nodes
    ensures AddChild(v, n, i).Valid() && LeavesSame(v, AddChild(v, n, i))
  {
    AddChildEntries(v, n, i);
    var w := AddChild(v, n, i);
    assert v.FreeOk(0) && v.NodeOk(n) && v.UseOk(v.nodes[n]);
    forall s, p | 0 <= s && 0 <= p ensures w.Leaf(s, p) == v.Leaf(s, p) {
      var l := Node(s, 0, p / NPTE);
      assert l in v.nodes ==> v.NodeOk(l) && v.UseOk(v.nodes[l]);
    }
  }

  // Leaf entries

  ghost function SetLeaf(v: Vm, s: nat, p: nat, w: nat): Vm
    requires v.Counted() && Node(s, 0, p / NPTE) in v.nodes
  {
    var n := Node(s, 0, p / NPTE);
    assert v.NodeOk(n) && v.UseOk(v.nodes[n]);
    var page: Words := v.mem[v.nodes[n]][p % NPTE := w];
    v.(mem := v.mem[v.nodes[n] := page])
  }

  ghost predicate LeavesExcept(v: Vm, u: Vm, s: nat, p: nat, w: nat)
    requires v.Counted() && u.Counted()
  {
    forall t, q | 0 <= t && 0 <= q :: u.Leaf(t, q) == if t == s && q == p then w else v.Leaf(t, q)
  }

  lemma SetLeafKeeps(v: Vm, s: nat, p: nat, w: nat)
    requires v.Valid() && Node(s, 0, p / NPTE) in v.nodes && (w == 0 || (IsValid(w) && IsLeaf(w)))
    ensures SetLeaf(v, s, p, w).Valid() && LeavesExcept(v, SetLeaf(v, s, p, w), s, p, w)
  {
    var u, n := SetLeaf(v, s, p, w), Node(s, 0, p / NPTE);
    assert v.NodeOk(n) && v.UseOk(v.nodes[n]);
    forall j | 0 <= j < |u.free| ensures u.FreeOk(j) { assert v.FreeOk(j); }
    forall f <- u.uses ensures u.UseOk(f) { assert v.UseOk(f); }
    forall m <- u.nodes ensures u.NodeOk(m) { assert v.NodeOk(m); }
    forall m, k | m in u.nodes && 0 <= k < NPTE ensures u.EntryOk(m, k) {
      assert v.NodeOk(m) && v.UseOk(v.nodes[m]) && v.EntryOk(m, k);
    }
    forall t, q | 0 <= t && 0 <= q ensures u.Leaf(t, q) == if t == s && q == p then w else v.Leaf(t, q) {
      var l := Node(t, 0, q / NPTE);
      if l in v.nodes && (t, q) != (s, p) { SlotsDistinct(v, s, p, t, q); }
    }
  }

  // Pages that are not page tables

  /** Steps that leave the trees and their pages alone change no leaf. */
  lemma TreesKept(v: Vm, u: Vm)
    requires v.Valid() && u.Counted() && u.nodes == v.nodes && |u.mem| == |v.mem|
    requires forall n <- v.nodes :: v.nodes[n] < |v.mem| && u.mem[v.nodes[n]] == v.mem[v.nodes[n]]
    ensures u.Valid() && LeavesSame(v, u)
  {
    forall n, k | n in u.nodes && 0 <= k < NPTE ensures u.EntryOk(n, k) {
      assert v.EntryOk(n, k);
    }
  }

  /** kalloc, and what the caller fills the page with. */
  ghost function Grab(v: Vm, page: Words): Vm
    requires |v.free| > 0 && v.free[0] < |v.mem|
  {
    v.(mem := v.mem[v.free[0] := page], free := v.free[1..], uses := v.uses[v.free[0] := Held])
  }

  lemma GrabKeeps(v: Vm, page: Words)
    requires v.Valid() && |v.free| > 0 && |page| == NPTE
    ensures v.lo <= v.free[0] < |v.mem| && v.free[0] !in v.uses
    ensures Grab(v, page).Counted() && Grab(v, page).Valid() && LeavesSame(v, Grab(v, page))
  {
    TakeFirst(v, Held);
    var u := Grab(v, page);
    forall j | 0 <= j < |u.free| ensures u.FreeOk(j) { assert v.FreeOk(j + 1); }
    forall f <- u.uses ensures u.UseOk(f) { assert f in v.uses ==> v.UseOk(f); }
    forall m <- u.nodes ensures u.NodeOk(m) && v.nodes[m] != v.free[0] { assert v.NodeOk(m) && v.UseOk(v.nodes[m]); }
    forall f | u.lo <= f < |u.mem| ensures f in u.uses || f in u.free {
      if f in v.free && f != v.free[0] {
        var k :| 0 <= k < |v.free| && v.free[k] == f;
        assert u.free[k - 1] == f;
      }
    }
    TreesKept(v, u);
  }

  /** kfree. */
  ghost function Drop(v: Vm, f: nat, junk: Words): Vm
    requires f < |v.mem|
  {
    v.(mem := v.mem[f := junk], free := [f] + v.free, uses := v.uses - {f})
  }

  lemma DropKeeps(v: Vm, f: nat, junk: Words)
    requires v.Valid() && f in v.uses && !v.uses[f].Table? && |junk| == NPTE
    ensures v.lo <= f < |v.mem| && Drop(v, f, junk).Counted() && Drop(v, f, junk).Valid() && LeavesSame(v, Drop(v, f, junk))
  {
    assert v.UseOk(f);
    var u := Drop(v, f, junk);
    forall j | 0 <= j < |u.free| ensures u.FreeOk(j) { assert j > 0 ==> v.FreeOk(j - 1); }
    forall g <- u.uses ensures u.UseOk(g) { assert v.UseOk(g); }
    forall m <- u.nodes ensures u.NodeOk(m) && v.nodes[m] != f { assert v.NodeOk(m) && v.UseOk(v.nodes[m]); }
    forall g | u.lo <= g < |u.mem| ensures g in u.uses || g in u.free {
      if g in v.free {
        var k :| 0 <= k < |v.free| && v.free[k] == g;
        assert u.free[k + 1] == g;
      } else if g == f {
        assert u.free[0] == f;
      }
    }
    TreesKept(v, u);
  }

  /** A page held by the kernel becomes a page of a space, or back. */
  lemma ReuseKeeps(v: Vm, f: nat, use: Use)
    requires v.Valid() && f in v.uses && !v.uses[f].Table? && !use.Table?
    ensures v.(uses := v.uses[f := use]).Counted() && v.(uses := v.uses[f := use]).Valid()
    ensures LeavesSame(v, v.(uses := v.uses[f := use]))
  {
    var u := v.(uses := v.uses[f := use]);
    forall j | 0 <= j < |u.free| ensures u.FreeOk(j) { assert v.FreeOk(j); }
    forall g <- u.uses ensures u.UseOk(g) { assert v.UseOk(g); }
    forall m <- u.nodes ensures u.NodeOk(m) { assert v.NodeOk(m) && v.UseOk(v.nodes[m]); }
    TreesKept(v, u);
  }

  // freewalk

  /** kfree of the page of node n. */
  ghost function DropNode(v: Vm, n: Node, junk: Words): Vm
    requires n in v.nodes && v.nodes[n] < |v.mem|
  {
    Drop(v, v.nodes[n], junk).(nodes := v.nodes - {n})
  }

  /** The parent's entry for n cleared. */
  ghost function Unlinked(v: Vm, n: Node): Vm
    requires n.Parent() in v.nodes ==> v.nodes[n.Parent()] < |v.mem| && |v.mem[v.nodes[n.Parent()]]| == NPTE
  {
    if n.Parent() in v.nodes then
      var t := v.nodes[n.Parent()];
      var page: Words := v.mem[t][n.prefix % NPTE := 0];
      v.(mem := v.mem[t := page])
    else v
  }

  lemma DropNodeCounted(v: Vm, n: Node, junk: Words)
    requires v.Valid() && n in v.nodes && |junk| == NPTE
    requires n.level > 0 ==> forall k | 0 <= k < NPTE :: n.Child(k) !in v.nodes
    ensures v.lo <= v.nodes[n] < |v.mem| && DropNode(v, n, junk).Counted()
  {
    assert v.NodeOk(n) && v.UseOk(v.nodes[n]);
    var u, f := DropNode(v, n, junk), v.nodes[n];
    forall j | 0 <= j < |u.free| ensures u.FreeOk(j) { assert j > 0 ==> v.FreeOk(j - 1); }
    forall g <- u.uses ensures u.UseOk(g) { assert v.UseOk(g); }
    forall m <- u.nodes ensures u.NodeOk(m) {
      assert v.NodeOk(m);
      assert n.level > 0 ==> n.Child(m.prefix % NPTE) !in v.nodes;
    }
    forall g | u.lo <= g < |u.mem| ensures g in u.uses || g in u.free {
      if g in v.free {
        var k :| 0 <= k < |v.free| && v.free[k] == g;
        assert u.free[k + 1] == g;
      } else if g == f {
        assert u.free[0] == f;
      }
    }
  }

  ghost predicate Empty(v: Vm, n: Node)
    requires n in v.nodes
  {
    && (n.level > 0 ==> forall k | 0 <= k < NPTE :: n.Child(k) !in v.nodes)
    && v.nodes[n] < |v.mem| && |v.mem[v.nodes[n]]| == NPTE
    && (n.level == 0 ==> forall k | 0 <= k < NPTE :: v.mem[v.nodes[n]][k] == 0)
  }

  lemma UnlinkedCounted(w: Vm, n: Node)
    requires w.Counted() && (n.Parent() in w.nodes ==> w.nodes[n.Parent()] < |w.mem|)
    ensures Unlinked(w, n).Counted()
  {
    var u := Unlinked(w, n);
    forall j | 0 <= j < |u.free| ensures u.FreeOk(j) { assert w.FreeOk(j); }
    forall g <- u.uses ensures u.UseOk(g) { assert w.UseOk(g); }
    forall m <- u.nodes ensures u.NodeOk(m) { assert w.NodeOk(m); }
  }

  lemma DropNodeEntries(v: Vm, n: Node, junk: Words)
    requires v.Valid() && n in v.nodes && |junk| == NPTE && Empty(v, n)
    ensures n.Parent() in v.nodes ==> n.level < 2 && v.nodes[n.Parent()] < |v.mem| && v.nodes[n.Parent()] != v.nodes[n]
    ensures DropNode(v, n, junk).Counted()
    ensures Unlinked(DropNode(v, n, junk), n).Counted()
    ensures forall m, k | m in v.nodes && m != n && 0 <= k < NPTE :: Unlinked(DropNode(v, n, junk), n).EntryOk(m, k)
  {
    DropNodeCounted(v, n, junk);
    var w := DropNode(v, n, junk);
    assert v.NodeOk(n) && (n.Parent() in v.nodes ==> v.NodeOk(n.Parent()) && v.UseOk(v.nodes[n.Parent()]));
    var u := Unlinked(w, n);
    UnlinkedCounted(w, n);
    forall m, k | m in v.nodes && m != n && 0 <= k < NPTE ensures u.EntryOk(m, k) {
      DropNodeEntry(v, n, junk, m, k);
    }
  }

  lemma DropNodeEntry(v: Vm, n: Node, junk: Words, m: Node, k: nat)
    requires v.Valid() && n in v.nodes && |junk| == NPTE && m in v.nodes && m != n && k < NPTE && v.nodes[n] < |v.mem|
    requires n.Parent() in v.nodes ==> n.level < 2 && v.nodes[n.Parent()] < |v.mem| && v.nodes[n.Parent()] != v.nodes[n]
    requires DropNode(v, n, junk).Counted() && Unlinked(DropNode(v, n, junk), n).Counted()
    ensures var u := Unlinked(DropNode(v, n, junk), n);
      m in u.nodes && u.nodes[m] < |u.mem| && |u.mem[u.nodes[m]]| == NPTE && u.EntryOk(m, k)
  {
    var w := DropNode(v, n, junk);
    var u := Unlinked(w, n);
    assert v.NodeOk(n) && v.NodeOk(m) && v.UseOk(v.nodes[m]) && v.EntryOk(m, k) && w.UseOk(w.nodes[m]) && u.UseOk(u.nodes[m]);
    assert n.Parent() in v.nodes ==> v.NodeOk(n.Parent()) && v.UseOk(v.nodes[n.Parent()]);
    if m.level > 0 && m.Child(k) == n {
      assert m == n.Parent() && k == n.prefix % NPTE;
    }
  }

  /** An empty node gives its page back; once its parent's entry is cleared too, the trees are whole
      again and no leaf of any space has changed. */
  lemma DropNodeKeeps(v: Vm, n: Node, junk: Words)
    requires v.Valid() && n in v.nodes && |junk| == NPTE && Empty(v, n)
    ensures DropNode(v, n, junk).Counted()
    ensures n.Parent() in v.nodes ==> n.level < 2 && v.nodes[n.Parent()] < |v.mem| && v.nodes[n.Parent()] != v.nodes[n]
    ensures Unlinked(DropNode(v, n, junk), n).Valid() && LeavesSame(v, Unlinked(DropNode(v, n, junk), n))
  {
    DropNodeEntries(v, n, junk);
    var u := Unlinked(DropNode(v, n, junk), n);
    assert v.NodeOk(n);
    assert n.Parent() in v.nodes ==> v.NodeOk(n.Parent());
    forall s, p | 0 <= s && 0 <= p ensures u.Leaf(s, p) == v.Leaf(s, p) {
      var l := Node(s, 0, p / NPTE);
      assert l in v.nodes ==> v.NodeOk(l) && v.UseOk(v.nodes[l]);
    }
  }

  // The walk down

  function Prefix(p: nat, level: nat): nat
  {
    if level == 2 then 0 else if level == 1 then p / 0x4_0000 else p / NPTE
  }

  /** PX(level, va) */
  function Index(p: nat, level: nat): (i: nat)
    ensures i < NPTE
  {
    if level == 2 then p / 0x4_0000 % NPTE else if level == 1 then p / NPTE % NPTE else p % NPTE
  }

  /** The three indices are the nine-bit digits of the page number. */
  lemma IndicesSpell(p: nat)
    requires p < MAXVPN
    ensures p == Index(p, 2) * 0x4_0000 + Index(p, 1) * 0x200 + Index(p, 0)
  {
  }

  lemma PrefixEnds(p: nat)
    ensures Prefix(p, 2) == 0 && Prefix(p, 0) == p / NPTE
  {
  }

  lemma NoGrandchild(v: Vm, s: nat, p: nat)
    requires v.Valid() && Node(s, 1, Prefix(p, 1)) !in v.nodes
    ensures Node(s, 0, p / NPTE) !in v.nodes
  {
  }

  lemma Down(s: nat, p: nat, level: nat)
    requires p < MAXVPN && 0 < level <= 2
    ensures Node(s, level, Prefix(p, level)).Child(Index(p, level)) == Node(s, level - 1, Prefix(p, level - 1))
  {
  }

  /** u is v with more nodes in the tree of space s, their pages taken from the free list, and other
      leaves perhaps. */
  ghost predicate Grew(v: Vm, u: Vm, s: nat)
  {
    && v.Counted() && u.Counted() && v.Valid() && u.Valid() && u.lo == v.lo && |u.mem| == |v.mem|
    && (forall n <- v.nodes :: n in u.nodes && u.nodes[n] == v.nodes[n])
    && (forall f <- v.uses :: f in u.uses && u.uses[f] == v.uses[f])
    && (forall f <- u.uses | f !in v.uses :: u.uses[f].Table? && u.uses[f].node.space == s)
    && (forall f <- v.uses | !v.uses[f].Table? :: f < |v.mem| && u.mem[f] == v.mem[f])
  }

  lemma GrewNothing(v: Vm, s: nat)
    requires v.Valid()
    ensures Grew(v, v, s) && LeavesSame(v, v)
  {
  }

  lemma GrewTwice(v: Vm, u: Vm, w: Vm, s: nat)
    requires Grew(v, u, s) && Grew(u, w, s)
    ensures Grew(v, w, s)
    ensures LeavesSame(v, u) && LeavesSame(u, w) ==> LeavesSame(v, w)
  {
  }

  lemma GrewChild(v: Vm, n: Node, i: nat)
    requires v.Valid() && n in v.nodes && n.level > 0 && i < NPTE && |v.free| > 0 && n.Child(i) !in v.nodes
    ensures AddChild(v, n, i).Valid()
    ensures Grew(v, AddChild(v, n, i), n.space) && LeavesSame(v, AddChild(v, n, i))
  {
    AddChildKeeps(v, n, i);
    assert v.FreeOk(0) && v.NodeOk(n);
    forall f <- v.uses ensures f < |v.mem| { assert v.UseOk(f); }
  }

  lemma GrewLeaf(v: Vm, s: nat, p: nat, w: nat)
    requires v.Valid() && Node(s, 0, p / NPTE) in v.nodes && (w == 0 || (IsValid(w) && IsLeaf(w)))
    ensures SetLeaf(v, s, p, w).Valid()
    ensures Grew(v, SetLeaf(v, s, p, w), s) && LeavesExcept(v, SetLeaf(v, s, p, w), s, p, w)
  {
    SetLeafKeeps(v, s, p, w);
    assert v.NodeOk(Node(s, 0, p / NPTE));
    forall f <- v.uses ensures f < |v.mem| { assert v.UseOk(f); }
  }

  lemma GrewTight(v: Vm, u: Vm, s: nat)
    requires Grew(v, u, s) && LeavesSame(v, u) && Tight(v)
    ensures Tight(u)
  {
  }

  // Ranges of pages

  /** Pages a up to b of space s map consecutive pages from frame on, with perm; all else is as in v. */
  ghost predicate MapsRange(v: Vm, u: Vm, s: nat, a: nat, b: nat, frame: nat, perm: nat)
    requires v.Counted() && u.Counted() && perm < 1024
  {
    forall t, q | 0 <= t && 0 <= q ::
      u.Leaf(t, q) == if t == s && a <= q < b then MakePte(frame + (q - a), perm) else v.Leaf(t, q)
  }

  lemma MapsNone(v: Vm, s: nat, a: nat, frame: nat, perm: nat)
    requires v.Counted() && perm < 1024
    ensures MapsRange(v, v, s, a, a, frame, perm)
  {
  }

  lemma MapsMore(v: Vm, u: Vm, w: Vm, s: nat, a: nat, b: nat, frame: nat, perm: nat)
    requires v.Counted() && u.Counted() && w.Counted() && perm < 1024 && a <= b
    requires MapsRange(v, u, s, a, b, frame, perm)
    ensures LeavesExcept(u, w, s, b, MakePte(frame + (b - a), perm)) ==> MapsRange(v, w, s, a, b + 1, frame, perm)
    ensures LeavesSame(u, w) ==> MapsRange(v, w, s, a, b, frame, perm)
  {
  }

  lemma RangeAt(v: Vm, u: Vm, s: nat, a: nat, b: nat, frame: nat, perm: nat)
    requires v.Counted() && u.Counted() && perm < 1024 && MapsRange(v, u, s, a, b, frame, perm)
    ensures u.Leaf(s, b) == v.Leaf(s, b)
  {
  }

  lemma GrewRoot(v: Vm, u: Vm, s: nat)
    requires Grew(v, u, s) && Node(s, 2, 0) in v.nodes
    ensures Node(s, 2, 0) in u.nodes && u.nodes[Node(s, 2, 0)] == v.nodes[Node(s, 2, 0)]
  {
  }

  // uvmunmap

  /** Page p of space s is mapped to a page that is its own. */
  ghost predicate BackedAt(v: Vm, s: nat, p: nat)
    requires v.Counted()
  {
    v.Leaf(s, p) != 0 && FrameOf(v.Leaf(s, p)) in v.uses && v.uses[FrameOf(v.Leaf(s, p))] == Page(s, p)
  }

  ghost predicate Backed(v: Vm, s: nat, a: nat, b: nat)
    requires v.Counted()
  {
    forall p | a <= p < b :: BackedAt(v, s, p)
  }

  /** The uses without the pages a up to b of space s. */
  ghost function Without(uses: map<nat, Use>, s: nat, a: nat, b: nat): map<nat, Use>
  {
    map f | f in uses && !(uses[f].Page? && uses[f].space == s && a <= uses[f].vpn < b) :: uses[f]
  }

  /** Pages a up to b of space s are unmapped, all other leaves are as in v, and if they were freed
      their pages, and no others, are no longer in use. */
  ghost predicate Unmapped(v: Vm, u: Vm, s: nat, a: nat, b: nat, freed: bool)
  {
    && v.Counted() && u.Counted() && v.Valid() && u.Valid()
    && u.lo == v.lo && |u.mem| == |v.mem| && u.nodes == v.nodes && a <= b
    && (forall t, q | 0 <= t && 0 <= q :: u.Leaf(t, q) == if t == s && a <= q < b then 0 else v.Leaf(t, q))
    && u.uses == (if freed then Without(v.uses, s, a, b) else v.uses)
    && (forall f <- u.uses | !u.uses[f].Table? :: f < |v.mem| && u.mem[f] == v.mem[f])
  }

  lemma UnmappedNone(v: Vm, s: nat, a: nat, freed: bool)
    requires v.Valid()
    ensures Unmapped(v, v, s, a, a, freed)
  {
  }

  lemma UnmappedValid(v: Vm, u: Vm, s: nat, a: nat, b: nat, freed: bool)
    requires Unmapped(v, u, s, a, b, freed)
    ensures u.Counted() && u.Valid() && u.nodes == v.nodes
  {
  }

  /** Unmapping one page without freeing it. */
  lemma UnmapOne(v: Vm, s: nat, p: nat)
    requires v.Valid() && v.Leaf(s, p) != 0
    ensures Node(s, 0, p / NPTE) in v.nodes && Unmapped(v, SetLeaf(v, s, p, 0), s, p, p + 1, false)
  {
    var n := Node(s, 0, p / NPTE);
    assert v.NodeOk(n) && v.UseOk(v.nodes[n]);
    SetLeafKeeps(v, s, p, 0);
    forall f <- v.uses ensures f < |v.mem| { assert v.UseOk(f); }
  }

  /** Freeing its page first. */
  lemma UnmapFree(v: Vm, s: nat, p: nat, junk: Words)
    requires v.Counted() && v.Valid() && Tight(v) && BackedAt(v, s, p) && |junk| == NPTE
    ensures v.lo <= FrameOf(v.Leaf(s, p)) < |v.mem|
    ensures Drop(v, FrameOf(v.Leaf(s, p)), junk).Valid() && Node(s, 0, p / NPTE) in v.nodes
    ensures Unmapped(v, SetLeaf(Drop(v, FrameOf(v.Leaf(s, p)), junk), s, p, 0), s, p, p + 1, true)
  {
    hide Vm.Valid, Vm.Counted, Vm.Leaf, FrameOf;
    var f := FrameOf(v.Leaf(s, p));
    DropKeeps(v, f, junk);
    var u := Drop(v, f, junk);
    UnmapOne(u, s, p);
    var w := SetLeaf(u, s, p, 0);
    forall g <- v.uses ensures g == f <==> v.uses[g] == Page(s, p) { assert PageOk(v, g); }
    assert w.uses == Without(v.uses, s, p, p + 1);
  }

  lemma UnmappedTwice(v: Vm, u: Vm, w: Vm, s: nat, a: nat, b: nat, c: nat, freed: bool)
    requires Unmapped(v, u, s, a, b, freed) && Unmapped(u, w, s, b, c, freed)
    ensures Unmapped(v, w, s, a, c, freed)
  {
    if freed {
      assert Without(Without(v.uses, s, a, b), s, b, c) == Without(v.uses, s, a, c);
    }
  }

  lemma UnmappedTight(v: Vm, u: Vm, s: nat, a: nat, b: nat, freed: bool)
    requires Unmapped(v, u, s, a, b, freed) && Tight(v)
    requires !freed ==> forall f <- v.uses :: !(v.uses[f].Page? && v.uses[f].space == s && a <= v.uses[f].vpn < b)
    ensures Tight(u)
  {
    hide Vm.Valid, Vm.Counted, Vm.Leaf, FrameOf, IsValid;
    forall f <- u.uses ensures PageOk(u, f) { assert PageOk(v, f); }
  }

  /** What is left of the range is as it was. */
  lemma UnmappedAt(v: Vm, u: Vm, s: nat, a: nat, b: nat, freed: bool)
    requires Unmapped(v, u, s, a, b, freed)
    ensures u.Leaf(s, b) == v.Leaf(s, b) && u.nodes == v.nodes
    ensures BackedAt(v, s, b) ==> BackedAt(u, s, b)
  {
    hide Vm.Valid, Vm.Counted, Vm.Leaf, FrameOf;
  }

  // uvmalloc and uvmcopy

  /** Pages a up to b of space s, unmapped in v, now have a page each that was free in v; every other
      leaf, use and page is as it was, but for new nodes of the tree of s. */
  ghost predicate Filled(v: Vm, u: Vm, s: nat, a: nat, b: nat)
  {
    && v.Counted() && u.Counted() && v.Valid() && u.Valid() && u.lo == v.lo && |u.mem| == |v.mem| && a <= b
    && (forall n <- v.nodes :: n in u.nodes && u.nodes[n] == v.nodes[n])
    && (forall f <- v.uses :: f in u.uses && u.uses[f] == v.uses[f])
    && (forall f <- v.uses | !v.uses[f].Table? :: f < |v.mem| && u.mem[f] == v.mem[f])
    && (forall t, q | 0 <= t && 0 <= q && !(t == s && a <= q < b) :: u.Leaf(t, q) == v.Leaf(t, q))
    && (forall q | a <= q < b :: v.Leaf(s, q) == 0 && BackedAt(u, s, q) && FrameOf(u.Leaf(s, q)) !in v.uses)
    && (forall f <- u.uses | f !in v.uses :: NewUse(u, s, a, b, f))
  }

  ghost predicate NewUse(u: Vm, s: nat, a: nat, b: nat, f: nat)
    requires u.Counted() && f in u.uses
  {
    match u.uses[f]
    case Table(n) => n.space == s
    case Page(t, q) => t == s && a <= q < b && PageOk(u, f)
    case Held => false
  }

  lemma FilledNone(v: Vm, s: nat, a: nat)
    requires v.Valid()
    ensures Filled(v, v, s, a, a)
  {
    forall f <- v.uses ensures f < |v.mem| { assert v.UseOk(f); }
  }

  lemma FilledTwice(v: Vm, u: Vm, w: Vm, s: nat, a: nat, b: nat, c: nat)
    requires Filled(v, u, s, a, b) && Filled(u, w, s, b, c)
    ensures Filled(v, w, s, a, c)
  {
    hide Vm.Valid, Vm.Counted, Vm.Leaf, FrameOf, IsValid;
    forall q | a <= q < c ensures v.Leaf(s, q) == 0 && BackedAt(w, s, q) && FrameOf(w.Leaf(s, q)) !in v.uses {
      assert q < b ==> BackedAt(u, s, q);
    }
    forall f <- w.uses | f !in v.uses ensures NewUse(w, s, a, c, f) {
      assert f in u.uses ==> NewUse(u, s, a, b, f);
    }
  }

  lemma FilledTight(v: Vm, u: Vm, s: nat, a: nat, b: nat)
    requires Filled(v, u, s, a, b) && Tight(v)
    ensures Tight(u)
  {
    hide Vm.Valid, Vm.Counted, Vm.Leaf, FrameOf;
    forall f <- u.uses ensures PageOk(u, f) {
      if f in v.uses { assert PageOk(v, f); } else { assert NewUse(u, s, a, b, f); }
    }
  }

  /** Filling a range and giving it up again restores every leaf, and keeps only new nodes. */
  lemma FilledUndone(v: Vm, u: Vm, w: Vm, s: nat, a: nat, b: nat)
    requires Filled(v, u, s, a, b) && Unmapped(u, w, s, a, b, true) && Tight(v)
    ensures Grew(v, w, s) && LeavesSame(v, w)
  {
    hide Vm.Valid, Vm.Counted, Vm.Leaf, FrameOf;
    forall f <- v.uses ensures f in w.uses { assert PageOk(v, f); }
    forall f <- w.uses | f !in v.uses ensures w.uses[f].Table? && w.uses[f].node.space == s {
      assert NewUse(u, s, a, b, f);
    }
  }

  /** Page q of space s has these flags and this content. */
  ghost predicate Holds(v: Vm, s: nat, q: nat, flags: nat, words: Words)
    requires v.Counted()
  {
    BackedAt(v, s, q) && FlagsOf(v.Leaf(s, q)) == flags
    && FrameOf(v.Leaf(s, q)) < |v.mem| && v.mem[FrameOf(v.Leaf(s, q))] == words
  }

  lemma HoldsStill(u: Vm, w: Vm, s: nat, b: nat, c: nat, q: nat, flags: nat, words: Words)
    requires Filled(u, w, s, b, c) && q < b && Holds(u, s, q, flags, words)
    ensures Holds(w, s, q, flags, words)
  {
    hide Vm.Valid, Vm.Counted, Vm.Leaf, FrameOf, FlagsOf;
  }

  lemma UsesBelow(v: Vm)
    requires v.Counted()
    ensures forall f <- v.uses :: v.lo <= f < |v.mem|
  {
    forall f <- v.uses ensures v.lo <= f < |v.mem| { assert v.UseOk(f); }
  }

  /** A page of space s, from kalloc to the entry that maps it. */
  lemma AddedPage(v: Vm, x: Vm, s: nat, p: nat, perm: nat, words: Words)
    requires v.Counted() && v.Valid() && |v.free| > 0 && v.free[0] < |v.mem| && |words| == NPTE && v.Leaf(s, p) == 0
    requires Grab(v, words).Counted() && perm < 1024 && Grew(Grab(v, words), x, s)
    requires MapsRange(Grab(v, words), x, s, p, p + 1, v.free[0], perm)
    ensures v.free[0] in x.uses && x.uses[v.free[0]] == Held
    ensures var u := x.(uses := x.uses[v.free[0] := Page(s, p)]);
            Filled(v, u, s, p, p + 1) && Holds(u, s, p, if perm % 2 == 0 then perm + 1 else perm, words)
  {
    hide Vm.Leaf, Vm.Valid, Vm.Counted, FrameOf, FlagsOf, IsValid;
    var f := v.free[0];
    GrabKeeps(v, words);
    var e := Grab(v, words);
    ReuseKeeps(x, f, Page(s, p));
    var u := x.(uses := x.uses[f := Page(s, p)]);
    PteParts(f, perm);
    assert u.Leaf(s, p) == x.Leaf(s, p) == MakePte(f, perm);
    assert v.Leaf(s, p) == e.Leaf(s, p);
    UsesBelow(v);
    forall g <- u.uses | g !in v.uses ensures NewUse(u, s, p, p + 1, g) {
      if g == f { assert PageOk(u, f); }
    }
    assert BackedAt(u, s, p);
  }

  /** The same undone, where the tree could not be extended. */
  lemma AddedNothing(v: Vm, x: Vm, s: nat, words: Words, junk: Words)
    requires v.Counted() && v.Valid() && |v.free| > 0 && v.free[0] < |v.mem| && |words| == |junk| == NPTE
    requires Grab(v, words).Counted() && Grew(Grab(v, words), x, s) && LeavesSame(Grab(v, words), x)
    ensures v.free[0] in x.uses && x.uses[v.free[0]] == Held
    ensures Drop(x, v.free[0], junk).Counted() && Grew(v, Drop(x, v.free[0], junk), s)
    ensures LeavesSame(v, Drop(x, v.free[0], junk))
  {
    hide Vm.Leaf, Vm.Valid, Vm.Counted;
    GrabKeeps(v, words);
    DropKeeps(x, v.free[0], junk);
    UsesBelow(v);
  }

  lemma MapsOne(v: Vm, u: Vm, s: nat, p: nat, frame: nat, perm: nat)
    requires v.Counted() && u.Counted() && perm < 1024 && MapsRange(v, u, s, p, p, frame, perm)
    ensures LeavesSame(v, u)
  {
  }

  // Memory is smaller than an address space

  ghost function Frames(v: Vm, s: nat, b: nat): set<nat>
    requires v.Counted()
  {
    set q: nat | q < b :: FrameOf(v.Leaf(s, q))
  }

  lemma {:induction false} FramesDistinct(v: Vm, s: nat, b: nat)
    requires v.Counted() && Backed(v, s, 0, b)
    ensures |Frames(v, s, b)| == b && Frames(v, s, b) <= v.uses.Keys
  {
    hide Vm.Leaf, Vm.Counted, FrameOf;
    if b > 0 {
      FramesDistinct(v, s, b - 1);
      var f := FrameOf(v.Leaf(s, b - 1));
      assert BackedAt(v, s, b - 1);
      assert Frames(v, s, b) == Frames(v, s, b - 1) + {f};
      forall q: nat | q < b - 1 ensures FrameOf(v.Leaf(s, q)) != f { assert BackedAt(v, s, q); }
    } else {
      assert Frames(v, s, 0) == {};
    }
  }

  lemma {:induction false} Bounded(fs: set<nat>, lo: nat, hi: nat)
    requires lo <= hi && forall f <- fs :: lo <= f < hi
    ensures |fs| <= hi - lo
    decreases hi
  {
    if lo < hi {
      Bounded(fs - {hi - 1}, lo, hi - 1);
    } else {
      assert fs == {};
    }
  }

  /** The pages of a space are no more than memory has, and fewer while a page is free. */
  lemma BackedBelow(v: Vm, s: nat, b: nat)
    requires v.Counted() && Backed(v, s, 0, b)
    ensures v.lo + b <= |v.mem| && (v.free != [] ==> v.lo + b < |v.mem|)
  {
    FramesDistinct(v, s, b);
    UsesBelow(v);
    Bounded(Frames(v, s, b), v.lo, |v.mem|);
    if v.free != [] {
      assert v.FreeOk(0);
      Bounded(Frames(v, s, b) + {v.free[0]}, v.lo, |v.mem|);
    }
  }

  lemma SameAt(v: Vm, u: Vm, s: nat, p: nat)
    requires v.Counted() && u.Counted() && LeavesSame(v, u)
    ensures u.Leaf(s, p) == v.Leaf(s, p)
  {
  }

  lemma FilledValid(v: Vm, u: Vm, s: nat, a: nat, b: nat)
    requires Filled(v, u, s, a, b)
    ensures v.Counted() && u.Counted() && u.Valid() && |u.mem| == |v.mem|
    ensures forall n <- v.nodes :: n in u.nodes && u.nodes[n] == v.nodes[n]
  {
  }

  lemma FilledBacked(v: Vm, u: Vm, s: nat, a: nat, b: nat)
    requires Filled(v, u, s, a, b)
    ensures forall t, q | 0 <= t && 0 <= q && BackedAt(v, t, q) :: BackedAt(u, t, q)
    ensures Backed(u, s, a, b)
  {
    hide Vm.Valid, Vm.Counted, Vm.Leaf, FrameOf;
  }

  lemma FilledAbove(v: Vm, u: Vm, s: nat, a: nat, b: nat, q: nat)
    requires Filled(v, u, s, a, b) && b <= q
    ensures u.Leaf(s, q) == v.Leaf(s, q)
  {
  }

  lemma HoldsAll(u: Vm, w: Vm, s: nat, a: nat, b: nat, flags: nat, words: Words)
    requires Filled(u, w, s, b, b + 1) && Holds(w, s, b, flags, words)
    requires forall q | a <= q < b :: Holds(u, s, q, flags, words)
    ensures forall q | a <= q < b + 1 :: Holds(w, s, q, flags, words)
  {
    hide Filled, Holds;
    FilledValid(u, w, s, b, b + 1);
    forall q | a <= q < b + 1 ensures Holds(w, s, q, flags, words) {
      if q < b { HoldsStill(u, w, s, b, b + 1, q, flags, words); }
    }
  }

  /** A page that was filled, but no more: the tree may have grown in between. */
  lemma FilledGrew(v: Vm, u: Vm, w: Vm, s: nat, a: nat, b: nat)
    requires Filled(v, u, s, a, b) && Grew(u, w, s) && LeavesSame(u, w)
    ensures Filled(v, w, s, a, b) && |w.mem| == |v.mem|
  {
    hide Vm.Valid, Vm.Counted, Vm.Leaf, FrameOf, IsValid;
    forall q | a <= q < b ensures v.Leaf(s, q) == 0 && BackedAt(w, s, q) && FrameOf(w.Leaf(s, q)) !in v.uses {
      assert BackedAt(u, s, q);
    }
    forall f <- w.uses | f !in v.uses ensures NewUse(w, s, a, b, f) {
      assert f in u.uses ==> NewUse(u, s, a, b, f);
    }
  }

  // uvmcopy

  lemma FlagsLeaf(w: nat)
    requires IsValid(w) && IsLeaf(w)
    ensures FlagsOf(w) < 1024 && FlagsOf(w) % 2 == 1 && FlagsOf(w) / 2 % 8 != 0
  {
    var h := w % 1024 / 2;
    assert w == 1024 * (w / 1024) + 2 * h + 1;
    OddParts(w / 1024, h);
  }

  /** Page q of space t is a copy, with the same flags, of what page q of space s was in v. */
  ghost predicate CopiedAt(v: Vm, u: Vm, s: nat, t: nat, q: nat)
    requires v.Counted() && u.Counted()
  {
    && FrameOf(v.Leaf(s, q)) < |v.mem|
    && Holds(u, t, q, FlagsOf(v.Leaf(s, q)), v.mem[FrameOf(v.Leaf(s, q))])
  }

  lemma CopiedAll(v: Vm, u: Vm, w: Vm, s: nat, t: nat, b: nat)
    requires v.Counted() && Filled(u, w, t, b, b + 1) && CopiedAt(v, w, s, t, b)
    requires forall q | 0 <= q < b :: CopiedAt(v, u, s, t, q)
    ensures forall q | 0 <= q < b + 1 :: CopiedAt(v, w, s, t, q)
  {
    hide Filled, Holds;
    FilledValid(u, w, t, b, b + 1);
    forall q | 0 <= q < b + 1 ensures CopiedAt(v, w, s, t, q) {
      if q < b {
        assert CopiedAt(v, u, s, t, q);
        HoldsStill(u, w, t, b, b + 1, q, FlagsOf(v.Leaf(s, q)), v.mem[FrameOf(v.Leaf(s, q))]);
      }
    }
  }

  /** A backed page of another space while a space is being filled. */
  lemma FilledOther(v: Vm, u: Vm, s: nat, t: nat, b: nat, q: nat)
    requires Filled(v, u, t, 0, b) && s != t && BackedAt(v, s, q)
    ensures u.Leaf(s, q) == v.Leaf(s, q) && BackedAt(u, s, q)
    ensures FrameOf(v.Leaf(s, q)) < |v.mem| == |u.mem| && u.mem[FrameOf(v.Leaf(s, q))] == v.mem[FrameOf(v.Leaf(s, q))]
  {
    hide Vm.Valid, Vm.Counted, Vm.Leaf, FrameOf;
  }

  lemma BackedLeaf(v: Vm, s: nat, q: nat)
    requires v.Counted() && v.Valid() && v.Leaf(s, q) != 0
    ensures Node(s, 0, q / NPTE) in v.nodes && IsValid(v.Leaf(s, q)) && IsLeaf(v.Leaf(s, q))
    ensures v.nodes[Node(s, 0, q / NPTE)] < |v.mem| && |v.mem[v.nodes[Node(s, 0, q / NPTE)]]| == NPTE
    ensures v.Leaf(s, q) == v.mem[v.nodes[Node(s, 0, q / NPTE)]][q % NPTE]
  {
    var n := Node(s, 0, q / NPTE);
    assert v.NodeOk(n) && v.UseOk(v.nodes[n]) && v.EntryOk(n, q % NPTE);
  }

  lemma PageSized(v: Vm, f: nat)
    requires v.Counted() && f < |v.mem|
    ensures |v.mem[f]| == NPTE
  {
  }

  lemma CopiedFrom(v: Vm, u: Vm, w: Vm, s: nat, t: nat, b: nat)
    requires Filled(v, u, t, 0, b) && s != t && BackedAt(v, s, b) && w.Counted() && CopiedAt(u, w, s, t, b)
    ensures CopiedAt(v, w, s, t, b)
  {
    FilledOther(v, u, s, t, b, b);
  }

  // freewalk, on whole subtrees

  /** The ancestor of m at a level. */
  ghost function Ancestor(m: Node, level: nat): Node
    requires m.level <= level
    ensures Ancestor(m, level).level == level
    decreases level - m.level
  {
    if m.level == level then m else Ancestor(m.Parent(), level)
  }

  ghost predicate Under(m: Node, n: Node)
  {
    m.level <= n.level && Ancestor(m, n.level) == n
  }

  ghost function Subtree(nodes: map<Node, nat>, n: Node): set<Node>
  {
    set m | m in nodes && Under(m, n)
  }

  /** The subtrees of the first i children of n. */
  ghost function FirstSubtrees(nodes: map<Node, nat>, n: Node, i: nat): set<Node>
  {
    set m | m in nodes && m.level < n.level && Under(m, n) && Ancestor(m, n.level - 1).prefix % NPTE < i
  }

  lemma {:induction false} AncestorUp(m: Node, level: nat)
    requires m.level <= level
    ensures Ancestor(m, level + 1) == Ancestor(m, level).Parent()
    decreases level - m.level
  {
    if m.level < level { AncestorUp(m.Parent(), level); }
  }

  lemma {:induction false} AncestorIn(v: Vm, m: Node, level: nat)
    requires v.Counted() && m in v.nodes && m.level <= level <= 2
    ensures Ancestor(m, level) in v.nodes
    decreases level - m.level
  {
    if m.level < level {
      assert v.NodeOk(m);
      AncestorIn(v, m.Parent(), level);
    }
  }

  lemma UnderChild(m: Node, n: Node, i: nat)
    requires n.level > 0 && i < NPTE
    ensures Under(m, n.Child(i)) <==> m.level < n.level && Under(m, n) && Ancestor(m, n.level - 1).prefix % NPTE == i
  {
    if m.level < n.level {
      AncestorUp(m, n.level - 1);
      var c := Ancestor(m, n.level - 1);
      assert c.Parent() == n ==> c == n.Child(c.prefix % NPTE);
    }
  }

  lemma NextSubtree(nodes: map<Node, nat>, n: Node, i: nat)
    requires n.level > 0 && i < NPTE
    ensures FirstSubtrees(nodes, n, i) + Subtree(nodes - FirstSubtrees(nodes, n, i), n.Child(i)) == FirstSubtrees(nodes, n, i + 1)
    ensures n !in FirstSubtrees(nodes, n, i)
  {
    forall m ensures m in FirstSubtrees(nodes, n, i) + Subtree(nodes - FirstSubtrees(nodes, n, i), n.Child(i))
                 <==> m in FirstSubtrees(nodes, n, i + 1)
    {
      UnderChild(m, n, i);
    }
  }

  lemma LastSubtree(nodes: map<Node, nat>, n: Node)
    requires n in nodes
    ensures FirstSubtrees(nodes, n, NPTE) + {n} == Subtree(nodes, n)
  {
  }

  /** Only a node of the tree has nodes under it. */
  lemma NoSubtree(v: Vm, n: Node)
    requires v.Counted() && n !in v.nodes && n.level <= 2
    ensures Subtree(v.nodes, n) == {}
  {
    forall m | m in v.nodes ensures !Under(m, n) {
      if m.level <= n.level { AncestorIn(v, m, n.level); }
    }
  }

  /** w is v without the nodes that are gone, whose pages are free; no leaf has changed. */
  ghost predicate Pruned(v: Vm, w: Vm, gone: set<Node>)
  {
    && v.Counted() && w.Counted() && v.Valid() && w.Valid() && w.lo == v.lo && |w.mem| == |v.mem|
    && LeavesSame(v, w) && w.nodes == v.nodes - gone
    && w.uses == (map f | f in v.uses && !(v.uses[f].Table? && v.uses[f].node in gone) :: v.uses[f])
    && (forall f <- w.uses | !w.uses[f].Table? :: f < |v.mem| && w.mem[f] == v.mem[f])
  }

  lemma PrunedNone(v: Vm)
    requires v.Counted() && v.Valid()
    ensures Pruned(v, v, {})
  {
    UsesBelow(v);
    assert v.nodes - {} == v.nodes;
  }

  lemma PrunedTwice(v: Vm, u: Vm, w: Vm, g: set<Node>, h: set<Node>)
    requires Pruned(v, u, g) && Pruned(u, w, h)
    ensures Pruned(v, w, g + h)
  {
    hide Vm.Valid, Vm.Counted, Vm.Leaf;
    assert v.nodes - g - h == v.nodes - (g + h);
  }

  lemma PrunedOne(v: Vm, n: Node, junk: Words)
    requires v.Counted() && v.Valid() && n in v.nodes && |junk| == NPTE && Empty(v, n)
    ensures DropNode(v, n, junk).Counted()
    ensures n.Parent() in v.nodes ==> v.nodes[n.Parent()] < |v.mem|
    ensures Pruned(v, Unlinked(DropNode(v, n, junk), n), {n})
  {
    DropNodeKeeps(v, n, junk);
    assert v.NodeOk(n) && v.UseOk(v.nodes[n]);
    assert n.Parent() in v.nodes ==> v.NodeOk(n.Parent()) && v.UseOk(v.nodes[n.Parent()]);
    var w := Unlinked(DropNode(v, n, junk), n);
    forall f <- v.uses ensures f == v.nodes[n] <==> v.uses[f] == Table(n) { assert v.UseOk(f); }
    assert w.uses == map f | f in v.uses && !(v.uses[f].Table? && v.uses[f].node in {n}) :: v.uses[f];
    UsesBelow(v);
  }

  /** No page of space s is mapped. */
  ghost predicate NoLeaves(v: Vm, s: nat)
    requires v.Counted()
  {
    forall p | 0 <= p :: v.Leaf(s, p) == 0
  }

  lemma NoLeavesAt(v: Vm, n: Node, i: nat)
    requires v.Counted() && n in v.nodes && n.level == 0 && NoLeaves(v, n.space) && i < NPTE
    ensures v.nodes[n] < |v.mem| && |v.mem[v.nodes[n]]| == NPTE && v.mem[v.nodes[n]][i] == 0
  {
    assert v.NodeOk(n) && v.UseOk(v.nodes[n]);
    assert v.Leaf(n.space, n.prefix * NPTE + i) == 0;
  }

  lemma PrunedNoLeaves(v: Vm, w: Vm, gone: set<Node>, s: nat)
    requires Pruned(v, w, gone)
    ensures w.Counted() && w.Valid() && w.nodes == v.nodes - gone
    ensures NoLeaves(v, s) ==> NoLeaves(w, s)
  {
  }

  /** A link above the last level has no permission bits. */
  lemma Link(v: Vm, n: Node, i: nat)
    requires v.Valid() && n in v.nodes && i < NPTE && n.level > 0
    ensures v.nodes[n] < |v.mem| && |v.mem[v.nodes[n]]| == NPTE && !IsLeaf(v.mem[v.nodes[n]][i])
  {
    assert v.NodeOk(n) && v.UseOk(v.nodes[n]) && v.EntryOk(n, i);
    if n.Child(i) in v.nodes { OddParts(v.nodes[n.Child(i)], 0); }
  }

  lemma UnlinkedChild(v: Vm, n: Node, i: nat)
    requires n.level > 0 && i < NPTE && n in v.nodes && v.nodes[n] < |v.mem| && |v.mem[v.nodes[n]]| == NPTE
    ensures n.Child(i).Parent() == n
    ensures var page: Words := v.mem[v.nodes[n]][i := 0];
            Unlinked(v, n.Child(i)) == v.(mem := v.mem[v.nodes[n] := page])
  {
    assert n.Child(i).Parent() == n && n.Child(i).prefix % NPTE == i;
  }

  lemma NotBelow(nodes: map<Node, nat>, n: Node, i: nat)
    requires n.level > 0
    ensures n !in Subtree(nodes, n.Child(i))
  {
  }

  lemma NoFirst(nodes: map<Node, nat>, n: Node, i: nat)
    requires n.level == 0 || i == 0
    ensures FirstSubtrees(nodes, n, i) == {}
  {
  }

  lemma NodeBelow(v: Vm, n: Node)
    requires v.Counted() && n in v.nodes
    ensures v.nodes[n] < |v.mem| && |v.mem[v.nodes[n]]| == NPTE
  {
    assert v.NodeOk(n) && v.UseOk(v.nodes[n]);
  }

  /** After its loop freewalk has an empty node. */
  lemma EmptyNow(v: Vm, w: Vm, n: Node)
    requires Pruned(v, w, FirstSubtrees(v.nodes, n, NPTE)) && n in w.nodes && NoLeaves(w, n.space)
    ensures Empty(w, n)
  {
    NodeBelow(w, n);
    if n.level > 0 {
      forall k | 0 <= k < NPTE ensures n.Child(k) !in w.nodes {
        UnderChild(n.Child(k), n, k);
      }
    } else {
      forall k | 0 <= k < NPTE ensures w.mem[w.nodes[n]][k] == 0 { NoLeavesAt(w, n, k); }
    }
  }

  /** Writing to a page that is not a page table. */
  lemma StoreKeeps(v: Vm, f: nat, words: Words)
    requires v.Counted() && v.Valid() && f in v.uses && !v.uses[f].Table? && |words| == NPTE
    ensures f < |v.mem| && v.(mem := v.mem[f := words]).Counted() && v.(mem := v.mem[f := words]).Valid()
    ensures LeavesSame(v, v.(mem := v.mem[f := words]))
  {
    UsesBelow(v);
    var u := v.(mem := v.mem[f := words]);
    forall j | 0 <= j < |u.free| ensures u.FreeOk(j) { assert v.FreeOk(j); }
    forall g <- u.uses ensures u.UseOk(g) { assert v.UseOk(g); }
    forall m <- u.nodes ensures u.NodeOk(m) && v.nodes[m] != f { assert v.NodeOk(m); }
    TreesKept(v, u);
  }

  lemma SameTight(v: Vm, u: Vm)
    requires v.Counted() && u.Counted() && Tight(v) && LeavesSame(v, u) && u.uses == v.uses
    ensures Tight(u)
  {
    forall f <- u.uses ensures PageOk(u, f) { assert PageOk(v, f); }
  }

  /** An entry with PTE_U cleared. */
  function Cleared(w: nat): nat
  {
    if w / 16 % 2 == 1 then w - 16 else w
  }

  lemma ClearedParts(frame: nat, h: nat)
    requires h < 512 && h % 8 != 0
    ensures var w := Cleared(1024 * frame + 2 * h + 1);
            IsValid(w) && IsLeaf(w) && FrameOf(w) == frame && FlagsOf(w) == Cleared(2 * h + 1)
  {
    hide Cleared;
    var b, e, c := Digits(h);
    UserBit(32 * frame + b, e, 2 * c + 1);
    UserBit(b, e, 2 * c + 1);
    OddParts(frame, 16 * b + c);
  }

  /** The flags above PTE_V: those above PTE_U, PTE_U, and read, write and execute. */
  lemma Digits(h: nat) returns (b: nat, e: nat, c: nat)
    ensures h == 16 * b + 8 * e + c && e < 2 && c < 8 && c == h % 8 == (16 * b + c) % 8
  {
    var a := h / 8;
    b, e, c := a / 2, a % 2, h % 8;
    assert 16 * b + c == 8 * (2 * b) + c;
  }

  /** Bit 4 of a word. */
  lemma UserBit(q: nat, e: nat, r: nat)
    requires e < 2 && r < 16
    ensures Cleared(32 * q + 16 * e + r) == 32 * q + r
  {
    assert 32 * q + 16 * e + r == 16 * (2 * q + e) + r;
    assert (32 * q + 16 * e + r) / 16 == 2 * q + e;
  }

  lemma ClearedLeaf(w: nat)
    requires IsValid(w) && IsLeaf(w)
    ensures IsValid(Cleared(w)) && IsLeaf(Cleared(w)) && FrameOf(Cleared(w)) == FrameOf(w)
  {
    hide Cleared;
    var frame, h := w / 1024, w % 1024 / 2;
    assert w == 1024 * frame + 2 * h + 1 by { OddHalf(frame, w % 1024); }
    OddParts(frame, h);
    ClearedParts(frame, h);
  }

  lemma OddHalf(q: nat, r: nat)
    requires (1024 * q + r) % 2 == 1
    ensures r == 2 * (r / 2) + 1
  {
    assert 1024 * q + r == 2 * (512 * q) + r;
  }

  lemma ExceptAt(v: Vm, u: Vm, s: nat, p: nat, w: nat)
    requires v.Counted() && u.Counted() && LeavesExcept(v, u, s, p, w) && IsValid(w)
    ensures u.Leaf(s, p) == w != 0
  {
  }
}
