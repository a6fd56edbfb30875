/** What steps on one address space leave alone in all the others, and in the kernel. */
module Spaces {

  import opened Sv39

  ghost predicate Of(u: Use, s: nat)
  {
    (u.Table? && u.node.space == s) || (u.Page? && u.space == s)
  }

  /** Nothing outside space s differs between v and w. */
  ghost predicate Outside(v: Vm, w: Vm, s: nat)
  {
    && v.Counted() && w.Counted() && v.Valid() && w.Valid() && w.lo == v.lo && |w.mem| == |v.mem|
    && (forall t, q | 0 <= t && 0 <= q && t != s :: w.Leaf(t, q) == v.Leaf(t, q))
    && (forall n <- v.nodes | n.space != s :: n in w.nodes && w.nodes[n] == v.nodes[n])
    && (forall n <- w.nodes | n.space != s :: n in v.nodes)
    && (forall f <- v.uses | !Of(v.uses[f], s) :: f in w.uses && w.uses[f] == v.uses[f])
    && (forall f <- w.uses | !Of(w.uses[f], s) :: f in v.uses && v.uses[f] == w.uses[f])
    && (forall f <- v.uses | !Of(v.uses[f], s) && !v.uses[f].Table? :: f < |v.mem| && w.mem[f] == v.mem[f])
  }

  /** No page belongs to space s. */
  ghost predicate Absent(v: Vm, s: nat)
  {
    && (forall n <- v.nodes :: n.space != s)
    && (forall f <- v.uses :: !Of(v.uses[f], s))
  }

  /** Nothing differs between v and w beyond the spaces ss and the pages that the kernel takes or gives
      back, which are in ks. */
  ghost predicate Beyond(v: Vm, w: Vm, ss: set<nat>, ks: set<nat>)
  {
    && v.Counted() && w.Counted() && v.Valid() && w.Valid() && w.lo == v.lo && |w.mem| == |v.mem|
    && (forall t, q | 0 <= t && 0 <= q && t !in ss :: w.Leaf(t, q) == v.Leaf(t, q))
    && (forall n <- v.nodes | n.space !in ss :: n in w.nodes && w.nodes[n] == v.nodes[n])
    && (forall n <- w.nodes | n.space !in ss :: n in v.nodes)
    && (forall f <- v.uses | !OfAny(v.uses[f], ss) && f !in ks :: f in w.uses && w.uses[f] == v.uses[f])
    && (forall f <- w.uses | !OfAny(w.uses[f], ss) && f !in ks :: f in v.uses && v.uses[f] == w.uses[f])
    && (forall f <- v.uses | !OfAny(v.uses[f], ss) && !v.uses[f].Table? && f !in ks :: f < |v.mem| && w.mem[f] == v.mem[f])
    && (forall f <- ks | f in v.uses && !OfAny(v.uses[f], ss) :: v.uses[f] == Held)
    && (forall f <- ks | f in w.uses && !OfAny(w.uses[f], ss) :: w.uses[f] == Held)
  }

  ghost predicate OfAny(u: Use, ss: set<nat>)
  {
    (u.Table? && u.node.space in ss) || (u.Page? && u.space in ss)
  }

  lemma BeyondOutside(v: Vm, w: Vm, s: nat)
    requires Outside(v, w, s)
    ensures Beyond(v, w, {s}, {})
  {
    hide Vm.Counted, Vm.Valid, Vm.Leaf;
  }

  lemma BeyondTwice(u: Vm, v: Vm, w: Vm, ss: set<nat>, ks: set<nat>, ss': set<nat>, ks': set<nat>)
    requires Beyond(u, v, ss, ks) && Beyond(v, w, ss', ks')
    ensures Beyond(u, w, ss + ss', ks + ks')
  {
    hide Vm.Counted, Vm.Valid, Vm.Leaf;
  }

  lemma BeyondRestored(v: Vm, w: Vm)
    requires Restored(v, w) && v.Valid() && w.Valid() && w.lo == v.lo
    ensures Beyond(v, w, {}, {})
  {
    hide Vm.Counted, Vm.Valid, Vm.Leaf;
  }

  lemma BeyondGrab(v: Vm, page: Words)
    requires v.Counted() && v.Valid() && |v.free| > 0 && |page| == NPTE
    ensures v.free[0] < |v.mem| && v.free[0] !in v.uses && Beyond(v, Grab(v, page), {}, {v.free[0]})
  {
    GrabKeeps(v, page);
    UsesBelow(v);
    hide Vm.Counted, Vm.Valid, Vm.Leaf;
  }

  lemma BeyondDrop(v: Vm, f: nat, junk: Words)
    requires v.Counted() && v.Valid() && f in v.uses && v.uses[f] == Held && |junk| == NPTE
    ensures f < |v.mem| && Beyond(v, Drop(v, f, junk), {}, {f})
  {
    DropKeeps(v, f, junk);
    UsesBelow(v);
    hide Vm.Counted, Vm.Valid, Vm.Leaf;
  }

  lemma BeyondSize(v: Vm, w: Vm, ss: set<nat>, ks: set<nat>)
    requires Beyond(v, w, ss, ks)
    ensures w.lo == v.lo && |w.mem| == |v.mem|
  {
  }

  lemma RestoredSize(v: Vm, w: Vm)
    requires Restored(v, w)
    ensures |w.mem| == |v.mem|
  {
  }

  /** Pages taken and given back in between do not count. */
  lemma BeyondUnused(v: Vm, w: Vm, ss: set<nat>, ks: set<nat>)
    requires Beyond(v, w, ss, ks) && forall f <- ks :: f !in v.uses && f !in w.uses
    ensures Beyond(v, w, ss, {})
  {
    hide Vm.Counted, Vm.Valid, Vm.Leaf;
  }

  lemma OutsideNothing(v: Vm, s: nat)
    requires v.Counted() && v.Valid()
    ensures Outside(v, v, s)
  {
  }

  lemma OutsideTwice(v: Vm, u: Vm, w: Vm, s: nat)
    requires Outside(v, u, s) && Outside(u, w, s)
    ensures Outside(v, w, s)
  {
  }

  lemma OutsideGrew(v: Vm, u: Vm, s: nat)
    requires Grew(v, u, s) && LeavesSame(v, u)
    ensures Outside(v, u, s)
  {
    hide Vm.Counted, Vm.Valid, Vm.Leaf;
    GrewNodes(v, u, s);
  }

  /** New nodes are those of new page-table pages. */
  lemma GrewNodes(v: Vm, u: Vm, s: nat)
    requires v.Counted() && u.Counted() && (forall f <- v.uses :: f in u.uses && u.uses[f] == v.uses[f])
    requires forall f <- u.uses | f !in v.uses :: u.uses[f].Table? ==> u.uses[f].node.space == s
    ensures forall n <- u.nodes | n.space != s :: n in v.nodes
  {
  }

  lemma OutsideMaps(v: Vm, u: Vm, s: nat, a: nat, b: nat, frame: nat, perm: nat)
    requires Grew(v, u, s) && perm < 1024 && MapsRange(v, u, s, a, b, frame, perm)
    ensures Outside(v, u, s)
  {
    hide Vm.Counted, Vm.Valid, Vm.Leaf;
    GrewNodes(v, u, s);
  }

  lemma OutsideFilled(v: Vm, u: Vm, s: nat, a: nat, b: nat)
    requires Filled(v, u, s, a, b)
    ensures Outside(v, u, s)
  {
    hide Vm.Counted, Vm.Valid, Vm.Leaf;
    forall f <- u.uses | f !in v.uses ensures Of(u.uses[f], s) { assert NewUse(u, s, a, b, f); }
    GrewNodes(v, u, s);
  }

  lemma OutsideUnmapped(v: Vm, u: Vm, s: nat, a: nat, b: nat, freed: bool)
    requires Unmapped(v, u, s, a, b, freed)
    ensures Outside(v, u, s)
  {
  }

  lemma {:induction false} AncestorSpace(m: Node, level: nat)
    requires m.level <= level
    ensures Ancestor(m, level).space == m.space
    decreases level - m.level
  {
    if m.level < level { AncestorSpace(m.Parent(), level); }
  }

  /** The subtree of its root is all that a space has. */
  lemma WholeTree(v: Vm, s: nat)
    requires v.Counted()
    ensures forall m <- v.nodes :: m in Subtree(v.nodes, Node(s, 2, 0)) <==> m.space == s
  {
    forall m <- v.nodes ensures m in Subtree(v.nodes, Node(s, 2, 0)) <==> m.space == s {
      assert v.NodeOk(m);
      AncestorIn(v, m, 2);
      AncestorSpace(m, 2);
      assert v.NodeOk(Ancestor(m, 2));
    }
  }

  lemma OutsidePruned(v: Vm, w: Vm, s: nat)
    requires Pruned(v, w, Subtree(v.nodes, Node(s, 2, 0)))
    ensures Outside(v, w, s)
    ensures (forall f <- v.uses :: !(v.uses[f].Page? && v.uses[f].space == s)) ==> Absent(w, s)
  {
    hide Vm.Valid, Vm.Counted, Vm.Leaf, Subtree;
    WholeTree(v, s);
    UsesBelow(v);
    TablesIn(v);
  }

  lemma TablesIn(v: Vm)
    requires v.Counted()
    ensures forall f <- v.uses | v.uses[f].Table? :: v.uses[f].node in v.nodes
  {
  }

  /** A space that was not there before and is not there after has cost nothing. */
  lemma CostNothing(v: Vm, w: Vm, s: nat)
    requires Outside(v, w, s) && Absent(v, s) && Absent(w, s)
    ensures w.uses == v.uses && w.nodes == v.nodes && LeavesSame(v, w)
    ensures forall f :: f in w.free <==> f in v.free
  {
    forall p | 0 <= p ensures w.Leaf(s, p) == v.Leaf(s, p) == 0 {
      assert Node(s, 0, p / NPTE) !in v.nodes && Node(s, 0, p / NPTE) !in w.nodes;
    }
    assert w.uses == v.uses;
    forall f ensures f in w.free <==> f in v.free {
      if f in w.free { var i :| 0 <= i < |w.free| && w.free[i] == f; assert w.FreeOk(i); }
      if f in v.free { var i :| 0 <= i < |v.free| && v.free[i] == f; assert v.FreeOk(i); }
    }
  }

  // uvmcreate

  ghost function AddRoot(v: Vm, s: nat): Vm
    requires |v.free| > 0 && v.free[0] < |v.mem|
  {
    var f := v.free[0];
    Vm(v.mem[f := Fill(0)], v.free[1..], v.lo, v.uses[f := Table(Node(s, 2, 0))], v.nodes[Node(s, 2, 0) := f])
  }

  lemma AddRootCounted(v: Vm, s: nat)
    requires v.Counted() && v.Valid() && Absent(v, s) && |v.free| > 0
    ensures v.lo <= v.free[0] < |v.mem| && v.free[0] !in v.uses && AddRoot(v, s).Counted()
  {
    TakeFirst(v, Table(Node(s, 2, 0)));
    var w := AddRoot(v, s);
    forall j | 0 <= j < |w.free| ensures w.FreeOk(j) { assert v.FreeOk(j + 1); }
    forall f <- w.uses ensures w.UseOk(f) { assert f in v.uses ==> v.UseOk(f); }
    forall m <- w.nodes ensures w.NodeOk(m) { assert m in v.nodes ==> v.NodeOk(m) && v.UseOk(v.nodes[m]); }
    forall f | w.lo <= f < |w.mem| ensures f in w.uses || f in w.free {
      if f in v.free && f != v.free[0] {
        var k :| 0 <= k < |v.free| && v.free[k] == f;
        assert w.free[k - 1] == f;
      }
    }
  }

  /** A new root maps nothing. */
  lemma AddRootKeeps(v: Vm, s: nat)
    requires v.Counted() && v.Valid() && Absent(v, s) && |v.free| > 0
    ensures v.lo <= v.free[0] < |v.mem| && v.free[0] !in v.uses
    ensures AddRoot(v, s).Counted() && Outside(v, AddRoot(v, s), s) && NoLeaves(AddRoot(v, s), s)
  {
    AddRootCounted(v, s);
    var w := AddRoot(v, s);
    UsesBelow(v);
    forall m, k | m in w.nodes && 0 <= k < NPTE ensures w.EntryOk(m, k) {
      if m in v.nodes {
        assert v.NodeOk(m) && v.UseOk(v.nodes[m]) && v.EntryOk(m, k);
        assert m.level > 0 ==> m.Child(k) != Node(s, 2, 0);
      }
    }
    forall t, q | 0 <= t && 0 <= q ensures w.Leaf(t, q) == v.Leaf(t, q) {
      var l := Node(t, 0, q / NPTE);
      assert l in v.nodes ==> v.NodeOk(l) && v.UseOk(v.nodes[l]);
    }
    forall q | 0 <= q ensures w.Leaf(s, q) == 0 {
      assert Node(s, 0, q / NPTE) !in w.nodes;
    }
  }

  // uvmfree

  lemma NoLeavesNoPages(v: Vm, s: nat)
    requires v.Counted() && Tight(v) && NoLeaves(v, s)
    ensures forall f <- v.uses :: !(v.uses[f].Page? && v.uses[f].space == s)
  {
  }

  lemma PrunedTight(v: Vm, w: Vm, gone: set<Node>)
    requires Pruned(v, w, gone) && Tight(v)
    ensures Tight(w)
  {
  }

  lemma RootHasNoParent(v: Vm, s: nat)
    requires v.Counted()
    ensures Node(s, 2, 0).Parent() !in v.nodes
  {
  }

  /** Unmapping all that a space maps. */
  lemma UnmappedAll(v: Vm, u: Vm, s: nat, b: nat)
    requires Unmapped(v, u, s, 0, b, true) && forall q | b <= q :: v.Leaf(s, q) == 0
    ensures NoLeaves(u, s)
  {
  }

  lemma AddRootTight(v: Vm, s: nat)
    requires v.Counted() && v.Valid() && Absent(v, s) && Tight(v) && |v.free| > 0
    ensures v.free[0] < |v.mem| && AddRoot(v, s).Counted() && AddRoot(v, s).Valid() && Tight(AddRoot(v, s))
  {
    hide Vm.Leaf, IsValid, FrameOf;
    AddRootKeeps(v, s);
    var w := AddRoot(v, s);
    forall f <- w.uses ensures PageOk(w, f) {
      if f in v.uses { assert PageOk(v, f); }
    }
  }

  // Pages held by the kernel

  /** w is v but for pages that the kernel holds, or held. */
  ghost predicate HeldDiffers(v: Vm, w: Vm)
  {
    && v.Counted() && w.Counted() && v.Valid() && w.Valid() && LeavesSame(v, w) && w.nodes == v.nodes
    && w.lo == v.lo && |w.mem| == |v.mem|
    && (forall f <- v.uses | !v.uses[f].Held? :: f in w.uses && w.uses[f] == v.uses[f])
    && (forall f <- w.uses | !w.uses[f].Held? :: f in v.uses && v.uses[f] == w.uses[f])
    && (forall f <- v.uses | v.uses[f].Page? :: f < |v.mem| && w.mem[f] == v.mem[f])
  }

  lemma GrabHeld(v: Vm, page: Words)
    requires v.Counted() && v.Valid() && |v.free| > 0 && |page| == NPTE && Tight(v)
    ensures v.free[0] < |v.mem| && HeldDiffers(v, Grab(v, page)) && Tight(Grab(v, page))
  {
    hide Vm.Counted, Vm.Valid, Vm.Leaf, IsValid, FrameOf;
    GrabKeeps(v, page);
    UsesBelow(v);
    var w := Grab(v, page);
    forall f <- w.uses ensures PageOk(w, f) { assert f in v.uses ==> PageOk(v, f); }
  }

  lemma DropHeld(v: Vm, f: nat, junk: Words)
    requires v.Counted() && v.Valid() && f in v.uses && v.uses[f] == Held && |junk| == NPTE && Tight(v)
    ensures f < |v.mem| && HeldDiffers(v, Drop(v, f, junk)) && Tight(Drop(v, f, junk))
  {
    hide Vm.Counted, Vm.Valid, Vm.Leaf, IsValid, FrameOf;
    DropKeeps(v, f, junk);
    UsesBelow(v);
    var w := Drop(v, f, junk);
    forall g <- w.uses ensures PageOk(w, g) { assert PageOk(v, g); }
  }

  /** Every page is used as before, every leaf is as before, and no page in use has changed. */
  ghost predicate Restored(v: Vm, w: Vm)
  {
    && v.Counted() && w.Counted() && w.uses == v.uses && w.nodes == v.nodes && LeavesSame(v, w) && |w.mem| == |v.mem|
    && forall f <- v.uses | !v.uses[f].Table? :: f < |v.mem| && w.mem[f] == v.mem[f]
  }

  lemma RoundTripUses(v: Vm, x: Vm, w: Vm, t: nat, page: Words, junk: Words)
    requires v.Counted() && |v.free| > 0 && Absent(v, t) && v.free[0] < |v.mem| && v.free[0] !in v.uses
    requires Outside(Grab(v, page), x, t) && v.free[0] < |x.mem| && Outside(Drop(x, v.free[0], junk), w, t) && Absent(w, t)
    ensures w.uses == v.uses && w.nodes == v.nodes && |w.mem| == |v.mem|
    ensures forall f <- v.uses | !v.uses[f].Table? :: f < |v.mem| && w.mem[f] == v.mem[f]
  {
    hide Vm.Counted, Vm.Valid, Vm.Leaf, LeavesSame;
    UsesBelow(v);
    assert w.uses == v.uses;
    assert w.nodes == v.nodes;
  }

  lemma RoundTripLeaves(v: Vm, x: Vm, w: Vm, t: nat, page: Words, junk: Words)
    requires v.Counted() && |v.free| > 0 && Absent(v, t) && v.free[0] < |v.mem|
    requires Outside(Grab(v, page), x, t) && v.free[0] < |x.mem| && Outside(Drop(x, v.free[0], junk), w, t) && Absent(w, t)
    requires LeavesSame(v, Grab(v, page)) && LeavesSame(x, Drop(x, v.free[0], junk))
    ensures LeavesSame(v, w)
  {
  }

  /** A page taken, a space made and unmade around it, and the page given back. */
  lemma RoundTrip(v: Vm, x: Vm, w: Vm, t: nat, page: Words, junk: Words)
    requires v.Counted() && v.Valid() && |v.free| > 0 && |page| == |junk| == NPTE && Absent(v, t) && v.free[0] < |v.mem|
    requires Outside(Grab(v, page), x, t) && v.free[0] < |x.mem| && Outside(Drop(x, v.free[0], junk), w, t) && Absent(w, t)
    ensures Restored(v, w)
  {
    hide Vm.Counted, Vm.Valid, Vm.Leaf, LeavesSame, Absent;
    GrabKeeps(v, page);
    HeldStill(Grab(v, page), x, t, v.free[0]);
    DropKeeps(x, v.free[0], junk);
    RoundTripUses(v, x, w, t, page, junk);
    RoundTripLeaves(v, x, w, t, page, junk);
  }

  lemma HeldStill(v: Vm, w: Vm, s: nat, f: nat)
    requires Outside(v, w, s) && f in v.uses && v.uses[f] == Held
    ensures f in w.uses && w.uses[f] == Held
  {
  }

  lemma CostRestored(v: Vm, w: Vm, s: nat)
    requires Outside(v, w, s) && Absent(v, s) && Absent(w, s)
    ensures Restored(v, w)
  {
  }

  /** Changing the flags of one mapped page. */
  lemma Reflagged(v: Vm, u: Vm, s: nat, p: nat, w: nat)
    requires Grew(v, u, s) && LeavesExcept(v, u, s, p, w) && Tight(v) && u.uses == v.uses && u.nodes == v.nodes
    requires IsValid(w) && FrameOf(w) == FrameOf(v.Leaf(s, p))
    ensures Outside(v, u, s) && Tight(u)
    ensures forall q | 0 <= q && BackedAt(v, s, q) :: BackedAt(u, s, q)
  {
    hide Vm.Counted, Vm.Valid, Vm.Leaf, FrameOf;
    forall f <- u.uses ensures PageOk(u, f) { assert PageOk(v, f); }
    forall q | 0 <= q && BackedAt(v, s, q) ensures BackedAt(u, s, q) { assert q == p ==> w != 0; }
  }
}
