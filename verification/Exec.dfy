/** exec of kernel/exec.c: the new image is built in a space of its own; every way out frees exactly
    what the loser had, and the image that wins holds the program and its arguments. What the file
    system delivers is a parameter. */
module Exec {

  import opened Basics
  import opened ArgStack
  import opened PageBytes
  import opened Sv39
  import opened Spaces
  import opened VirtualMemory
  import opened AddressSpace
  import opened ProcMemory

  const UINT64: nat := 0x1_0000_0000_0000_0000

  /** A program header and its bytes. header: it could be read; data: what readi delivers from the
      segment's offset in the file on, as far as the file goes. */
  datatype Segment = Segment(header: bool, load: bool, vaddr: nat, memsz: nat, filesz: nat, data: seq<Byte>)

  /** A header that exec accepts: not a segment to load, or one that is well formed, aligned and all
      there. */
  predicate Good(g: Segment)
  {
    g.header && (g.load ==> g.filesz <= g.memsz && g.vaddr + g.memsz < UINT64 && g.vaddr % PGSIZE == 0 && |g.data| >= g.filesz)
  }

  function End(g: Segment): nat
  {
    if g.load then g.vaddr + g.memsz else 0
  }

  /** One that exec certainly accepts; an empty segment at address 0 it takes for a failure of uvmalloc
      unless something is loaded already. */
  predicate Loadable(g: Segment)
  {
    Good(g) && (g.load ==> End(g) > 0)
  }

  function Larger(a: nat, b: nat): nat
  {
    if a < b then b else a
  }

  /** Where the image of some segments ends. */
  function EndOf(segs: seq<Segment>): nat
  {
    if segs == [] then 0
    else Larger(EndOf(segs[..|segs| - 1]), End(segs[|segs| - 1]))
  }

  lemma EndStep(segs: seq<Segment>, i: nat)
    requires i < |segs|
    ensures EndOf(segs[..i + 1]) == Larger(EndOf(segs[..i]), End(segs[i]))
  {
    assert segs[..i + 1][..i] == segs[..i];
  }

  lemma NoEnd()
    ensures EndOf([]) == 0 && Up(0) == 0
  {
  }

  lemma {:induction false} EndGrows(segs: seq<Segment>, i: nat)
    requires i <= |segs|
    ensures EndOf(segs[..i]) <= EndOf(segs)
    decreases |segs|
  {
    if i < |segs| {
      assert segs[..|segs| - 1][..i] == segs[..i];
      EndGrows(segs[..|segs| - 1], i);
    } else {
      assert segs[..i] == segs;
    }
  }

  /** The byte at address a of the loaded program: of the last segment whose file part covers it, else 0. */
  ghost function ImageByte(segs: seq<Segment>, a: nat): Byte
  {
    if segs == [] then 0
    else
      var g := segs[|segs| - 1];
      if g.load && g.vaddr <= a < g.vaddr + g.filesz && a < g.vaddr + |g.data| then g.data[a - g.vaddr]
      else ImageByte(segs[..|segs| - 1], a)
  }

  /** The image ends where its last loaded segment does, with the part that the file does not fill. */
  lemma {:induction false} EndIsLast(segs: seq<Segment>)
    ensures forall g <- segs | g.load :: g.vaddr + g.memsz <= EndOf(segs)
    ensures EndOf(segs) == 0 || exists g :: g in segs && g.load && g.vaddr + g.memsz == EndOf(segs)
    decreases |segs|
  {
    if segs != [] {
      var last, rest := segs[|segs| - 1], segs[..|segs| - 1];
      EndIsLast(rest);
      assert segs == rest + [last];
      if EndOf(rest) >= End(last) {
        assert EndOf(segs) == EndOf(rest) && forall g <- rest :: g in segs;
      } else {
        assert last in segs && last.load;
      }
    }
  }

  /** The file part of a segment covers address a. */
  ghost predicate Covers(g: Segment, a: nat)
  {
    g.load && g.vaddr <= a < g.vaddr + g.filesz && a < g.vaddr + |g.data|
  }

  /** Each byte of the image is that of the last segment that covers it, or 0 if none does. */
  lemma {:induction false} ImageByteIs(segs: seq<Segment>, a: nat, k: nat)
    requires forall j | k < j < |segs| :: !Covers(segs[j], a)
    requires k < |segs| ==> Covers(segs[k], a)
    requires k >= |segs| ==> forall j | 0 <= j < |segs| :: !Covers(segs[j], a)
    ensures ImageByte(segs, a) == if k < |segs| then segs[k].data[a - segs[k].vaddr] else 0
    decreases |segs|
  {
    if segs != [] && k != |segs| - 1 {
      assert !Covers(segs[|segs| - 1], a);
      ImageByteIs(segs[..|segs| - 1], a, k);
    }
  }

  lemma ImageByteLast(segs: seq<Segment>, g: Segment, a: nat)
    ensures ImageByte(segs + [g], a)
         == if g.load && g.vaddr <= a < g.vaddr + g.filesz && a < g.vaddr + |g.data| then g.data[a - g.vaddr]
            else ImageByte(segs, a)
  {
    assert (segs + [g])[..|segs|] == segs;
  }

  /** Past the end of the segments there is nothing. */
  lemma {:induction false} ImageByteEnd(segs: seq<Segment>, a: nat)
    requires EndOf(segs) <= a && forall g <- segs :: g.load ==> g.filesz <= g.memsz
    ensures ImageByte(segs, a) == 0
  {
    if segs != [] {
      ImageByteEnd(segs[..|segs| - 1], a);
    }
  }

  /** Page q is readable, writable, executable and accessible to the user, and shows the program. */
  ghost predicate ShowsAt(v: Vm, s: nat, q: nat, segs: seq<Segment>)
    requires v.Counted()
  {
    && BackedAt(v, s, q) && FlagsOf(v.Leaf(s, q)) == VRWXU
    && FrameOf(v.Leaf(s, q)) < |v.mem| && |v.mem[FrameOf(v.Leaf(s, q))]| == NPTE
    && forall j | 0 <= j < PAGE :: BytesOf(v.mem[FrameOf(v.Leaf(s, q))])[j] == ImageByte(segs, q * PAGE + j)
  }

  ghost predicate Shows(v: Vm, s: nat, sz: nat, segs: seq<Segment>)
    requires v.Counted()
  {
    forall q | 0 <= q < Up(sz) :: ShowsAt(v, s, q, segs)
  }

  /** Page q of space s is in w as in v. */
  ghost predicate PageSame(v: Vm, w: Vm, s: nat, q: nat)
  {
    && v.Counted() && w.Counted() && w.Leaf(s, q) == v.Leaf(s, q) && |w.mem| == |v.mem|
    && (BackedAt(v, s, q) ==>
          BackedAt(w, s, q) && FrameOf(v.Leaf(s, q)) < |v.mem| && w.mem[FrameOf(v.Leaf(s, q))] == v.mem[FrameOf(v.Leaf(s, q))])
  }

  lemma ShowsSame(v: Vm, w: Vm, s: nat, q: nat, segs: seq<Segment>)
    requires PageSame(v, w, s, q) && ShowsAt(v, s, q, segs)
    ensures ShowsAt(w, s, q, segs)
  {
  }

  lemma OutsidePage(v: Vm, w: Vm, t: nat, s: nat, q: nat)
    requires Outside(v, w, t) && s != t && BackedAt(v, s, q)
    ensures PageSame(v, w, s, q)
  {
  }

  lemma UserFlag(w: nat)
    requires FlagsOf(w) == VRWXU
    ensures w / PTE_U % 2 == 1 && w != 0
  {
    assert w == 16 * (64 * (w / 1024) + 1) + 15;
    assert w / 16 == 2 * (32 * (w / 1024)) + 1;
  }

  /** Leaves, uses and trees are as before: the image is. */
  lemma ImageSame(v: Vm, w: Vm, s: nat, root: nat, sz: nat, tf: nat, tramp: nat)
    requires v.Counted() && w.Counted() && Image(v, s, root, sz, tf, tramp)
    requires LeavesSame(v, w) && w.uses == v.uses && w.nodes == v.nodes
    ensures Image(w, s, root, sz, tf, tramp)
  {
    hide Vm.Counted, Vm.Leaf, FrameOf, MakePte, Up;
    forall q | 0 <= q < Up(sz) ensures BackedAt(w, s, q) { assert BackedAt(v, s, q); }
  }

  lemma OutsideStore(v: Vm, f: nat, words: Words, s: nat)
    requires v.Counted() && v.Valid() && f in v.uses && v.uses[f].Page? && v.uses[f].space == s && |words| == NPTE
    ensures f < |v.mem| && Outside(v, v.(mem := v.mem[f := words]), s)
  {
    hide Vm.Counted, Vm.Valid, Vm.Leaf;
    StoreKeeps(v, f, words);
    UsesBelow(v);
  }

  /** Only page p of the space is written. */
  lemma StoreOne(v: Vm, w: Vm, s: nat, p: nat, f: nat, words: Words)
    requires v.Counted() && w.Counted() && BackedAt(v, s, p) && FrameOf(v.Leaf(s, p)) == f < |v.mem|
    requires w == v.(mem := v.mem[f := words]) && LeavesSame(v, w)
    ensures forall q | 0 <= q && q != p :: PageSame(v, w, s, q)
  {
    hide Vm.Counted, Vm.Leaf, FrameOf;
    UsesBelow(v);
  }

  /** Filling page p of the image from its start: it is there and the user's, so walkaddr finds it. */
  method StorePage(m: Memory, root: nat, sz: nat, p: nat, chunk: seq<Byte>, ghost s: nat, ghost tf: nat, ghost tramp: nat)
    requires m.Valid() && Tight(m.Now()) && Image(m.Now(), s, root, sz, tf, tramp)
    requires p < Up(sz) && FlagsOf(m.Now().Leaf(s, p)) == VRWXU && |chunk| <= PAGE
    modifies m`mem, m`free, m`uses, m`nodes
    ensures m.Valid() && Tight(m.Now()) && Image(m.Now(), s, root, sz, tf, tramp) && Outside(old(m.Now()), m.Now(), s)
    ensures LeavesSame(old(m.Now()), m.Now()) && m.free == old(m.free) && m.uses == old(m.uses)
    ensures forall q | 0 <= q && q != p :: PageSame(old(m.Now()), m.Now(), s, q)
    ensures BackedAt(old(m.Now()), s, p)
    ensures var f := FrameOf(old(m.Now()).Leaf(s, p));
      && f < |m.mem| == |old(m.mem)| && |old(m.mem)[f]| == NPTE
      && m.mem[f] == WordsOf(chunk + BytesOf(old(m.mem)[f])[|chunk|..])
  {
    hide Vm.Counted, Vm.Valid, Vm.Leaf, Tight, Outside, LeavesSame, MakePte, FlagsOf, FrameOf, PageSame;
    ghost var v := m.Now();
    UserFlag(v.Leaf(s, p));
    assert BackedAt(v, s, p);
    UsesBelow(v);
    PageSized(v, FrameOf(v.Leaf(s, p)));
    var f := m.Walkaddr(root, p, s);
    var words := WordsOf(chunk + BytesOf(m.mem[f.value])[|chunk|..]);
    OutsideStore(v, f.value, words, s);
    m.Store(f.value, words);
    StoreOne(v, m.Now(), s, p, f.value, words);
    ImageSame(v, m.Now(), s, root, sz, tf, tramp);
  }

  function Smaller(a: nat, b: nat): nat
  {
    if a < b then a else b
  }

  /** One page more of a segment is in place. */
  lemma ShowsMore(v: Vm, w: Vm, s: nat, segs: seq<Segment>, g: Segment, i: nat, q: nat)
    requires v.Counted() && w.Counted() && g.load && g.vaddr % PAGE == 0 && i * PAGE < g.filesz
    requires i * PAGE + Smaller(PAGE, g.filesz - i * PAGE) <= |g.data|
    requires var n := Smaller(PAGE, g.filesz - i * PAGE); var p := g.vaddr / PAGE + i;
      if q == p then
        && ShowsAt(v, s, p, segs + [g.(filesz := i * PAGE)]) && w.Leaf(s, p) == v.Leaf(s, p) && BackedAt(w, s, p)
        && FrameOf(v.Leaf(s, p)) < |w.mem|
        && w.mem[FrameOf(v.Leaf(s, p))]
        == WordsOf(g.data[i * PAGE..i * PAGE + n] + BytesOf(v.mem[FrameOf(v.Leaf(s, p))])[n..])
      else PageSame(v, w, s, q) && ShowsAt(v, s, q, segs + [g.(filesz := i * PAGE)])
    ensures ShowsAt(w, s, q, segs + [g.(filesz := Smaller((i + 1) * PAGE, g.filesz))])
  {
    hide Vm.Counted, Vm.Leaf, FrameOf, FlagsOf, ImageByte, BytesOf, WordsOf;
    var n, p := Smaller(PAGE, g.filesz - i * PAGE), g.vaddr / PAGE + i;
    var was, now := segs + [g.(filesz := i * PAGE)], segs + [g.(filesz := Smaller((i + 1) * PAGE, g.filesz))];
    var f := FrameOf(v.Leaf(s, q));
    if q == p {
      BytesBack(g.data[i * PAGE..i * PAGE + n] + BytesOf(v.mem[f])[n..]);
    }
    forall j | 0 <= j < PAGE ensures BytesOf(w.mem[f])[j] == ImageByte(now, q * PAGE + j) {
      ImageByteLast(segs, g.(filesz := i * PAGE), q * PAGE + j);
      ImageByteLast(segs, g.(filesz := Smaller((i + 1) * PAGE, g.filesz)), q * PAGE + j);
    }
  }

  /** loadseg: the panic cannot happen. */
  method Loadseg(m: Memory, root: nat, sz: nat, g: Segment, ghost segs: seq<Segment>, ghost s: nat, ghost tf: nat, ghost tramp: nat)
    returns (ok: bool)
    requires m.Valid() && Tight(m.Now()) && Image(m.Now(), s, root, sz, tf, tramp) && Shows(m.Now(), s, sz, segs)
    requires g.load && g.vaddr % PAGE == 0 && g.vaddr + g.filesz <= sz
    modifies m`mem, m`free, m`uses, m`nodes
    ensures m.Valid() && Tight(m.Now()) && Image(m.Now(), s, root, sz, tf, tramp)
    ensures Outside(old(m.Now()), m.Now(), s) && m.free == old(m.free)
    ensures ok <==> |g.data| >= g.filesz
    ensures ok ==> Shows(m.Now(), s, sz, segs + [g])
  {
    hide Vm.Counted, Vm.Valid, Vm.Leaf, Tight, Outside, LeavesSame, Image, FlagsOf, ShowsAt, Up;
    ghost var v := m.Now();
    OutsideNothing(v, s);
    NotLoadedYet(v, s, sz, segs, g);
    var i := 0;
    while i * PAGE < g.filesz
      invariant i <= Up(g.filesz) && Smaller(i * PAGE, g.filesz) <= |g.data|
      invariant m.Valid() && Tight(m.Now()) && Image(m.Now(), s, root, sz, tf, tramp)
      invariant Shows(m.Now(), s, sz, segs + [g.(filesz := Smaller(i * PAGE, g.filesz))])
      invariant Outside(v, m.Now(), s) && m.free == old(m.free)
    {
      var n := Smaller(PAGE, g.filesz - i * PAGE);
      if |g.data| < i * PAGE + n {
        return false;
      }
      ghost var u := m.Now();
      LoadPage(m, root, sz, g, i, segs, s, tf, tramp);
      OutsideTwice(v, u, m.Now(), s);
      i := i + 1;
    }
    assert g.(filesz := Smaller(i * PAGE, g.filesz)) == g;
    return true;
  }

  lemma NotLoadedYet(v: Vm, s: nat, sz: nat, segs: seq<Segment>, g: Segment)
    requires v.Counted() && Shows(v, s, sz, segs)
    ensures Shows(v, s, sz, segs + [g.(filesz := 0)])
  {
    hide Vm.Counted, Vm.Leaf, FrameOf, FlagsOf, ImageByte, Up;
    var h := g.(filesz := 0);
    var now := segs + [h];
    forall a: nat ensures ImageByte(now, a) == ImageByte(segs, a) { ImageByteLast(segs, h, a); }
    forall q | 0 <= q < Up(sz) ensures ShowsAt(v, s, q, now) { assert ShowsAt(v, s, q, segs); }
  }

  /** One turn of loadseg. */
  method LoadPage(m: Memory, root: nat, sz: nat, g: Segment, i: nat,
                  ghost segs: seq<Segment>, ghost s: nat, ghost tf: nat, ghost tramp: nat)
    requires m.Valid() && Tight(m.Now()) && Image(m.Now(), s, root, sz, tf, tramp)
    requires g.load && g.vaddr % PAGE == 0 && g.vaddr + g.filesz <= sz && i * PAGE < g.filesz
    requires i * PAGE + Smaller(PAGE, g.filesz - i * PAGE) <= |g.data|
    requires Shows(m.Now(), s, sz, segs + [g.(filesz := Smaller(i * PAGE, g.filesz))])
    modifies m`mem, m`free, m`uses, m`nodes
    ensures m.Valid() && Tight(m.Now()) && Image(m.Now(), s, root, sz, tf, tramp)
    ensures Outside(old(m.Now()), m.Now(), s) && m.free == old(m.free)
    ensures Shows(m.Now(), s, sz, segs + [g.(filesz := Smaller((i + 1) * PAGE, g.filesz))])
  {
    hide Vm.Counted, Vm.Valid, Vm.Leaf, Tight, Outside, LeavesSame, Image, FlagsOf, FrameOf, PageSame;
    ghost var v := m.Now();
    var n, p := Smaller(PAGE, g.filesz - i * PAGE), g.vaddr / PAGE + i;
    assert p < Up(sz) && g.(filesz := Smaller(i * PAGE, g.filesz)) == g.(filesz := i * PAGE);
    assert ShowsAt(v, s, p, segs + [g.(filesz := i * PAGE)]);
    StorePage(m, root, sz, p, g.data[i * PAGE..i * PAGE + n], s, tf, tramp);
    hide ShowsAt, Up;
    LoadedPage(v, m.Now(), s, sz, segs, g, i, p, n);
  }

  lemma LoadedPage(v: Vm, w: Vm, s: nat, sz: nat, segs: seq<Segment>, g: Segment, i: nat, p: nat, n: nat)
    requires v.Counted() && w.Counted() && Shows(v, s, sz, segs + [g.(filesz := i * PAGE)]) && LeavesSame(v, w)
    requires g.load && g.vaddr % PAGE == 0 && i * PAGE < g.filesz && i * PAGE + n <= |g.data|
    requires p == g.vaddr / PAGE + i < Up(sz) && n == Smaller(PAGE, g.filesz - i * PAGE)
    requires forall q | 0 <= q && q != p :: PageSame(v, w, s, q)
    requires BackedAt(v, s, p) && w.uses == v.uses
    requires var f := FrameOf(v.Leaf(s, p));
      && f < |w.mem| == |v.mem| && |v.mem[f]| == NPTE
      && w.mem[f] == WordsOf(g.data[i * PAGE..i * PAGE + n] + BytesOf(v.mem[f])[n..])
    ensures Shows(w, s, sz, segs + [g.(filesz := Smaller((i + 1) * PAGE, g.filesz))])
  {
    hide Vm.Counted, Vm.Leaf, FrameOf, FlagsOf, ShowsAt, PageSame, Up, BytesOf, WordsOf;
    var now := segs + [g.(filesz := Smaller((i + 1) * PAGE, g.filesz))];
    forall q | 0 <= q < Up(sz) ensures ShowsAt(w, s, q, now) {
      assert ShowsAt(v, s, q, segs + [g.(filesz := i * PAGE)]);
      if q == p { assert BackedAt(w, s, p); }
      ShowsMore(v, w, s, segs, g, i, q);
    }
  }

  lemma ShowsFilled(v: Vm, w: Vm, s: nat, sz: nat, newsz: nat, segs: seq<Segment>)
    requires Filled(v, w, s, Up(sz), Up(newsz)) && Shows(v, s, sz, segs) && EndOf(segs) <= sz
    requires forall g <- segs :: g.load ==> g.filesz <= g.memsz
    requires forall q | Up(sz) <= q < Up(newsz) :: Holds(w, s, q, VRWXU, Fill(0))
    ensures Shows(w, s, newsz, segs)
  {
    hide Vm.Counted, Vm.Valid, Vm.Leaf, FlagsOf, FrameOf, ImageByte, EndOf, BytesOf;
    forall q | 0 <= q < Up(newsz) ensures ShowsAt(w, s, q, segs) {
      if q >= Up(sz) {
        assert Holds(w, s, q, VRWXU, Fill(0));
        forall j | 0 <= j < PAGE ensures BytesOf(Fill(0))[j] == ImageByte(segs, q * PAGE + j) {
          ZeroBytes(j);
          ImageByteEnd(segs, q * PAGE + j);
        }
      } else {
        assert ShowsAt(v, s, q, segs);
      }
    }
  }

  /** uvmalloc on an image: 0 leaves the size alone. */
  method GrowImage(m: Memory, root: nat, sz: nat, newsz: nat,
                   ghost segs: seq<Segment>, ghost s: nat, ghost tf: nat, ghost tramp: nat)
    returns (r: nat)
    requires m.Valid() && Tight(m.Now()) && |m.mem| <= TOP && EndOf(segs) <= sz
    requires Image(m.Now(), s, root, sz, tf, tramp) && Shows(m.Now(), s, sz, segs)
    requires forall g <- segs :: g.load ==> g.filesz <= g.memsz
    modifies m`mem, m`free, m`uses, m`nodes
    ensures m.Valid() && Tight(m.Now()) && Outside(old(m.Now()), m.Now(), s)
    ensures r == 0 ==> Image(m.Now(), s, root, sz, tf, tramp) && newsz >= sz
    ensures r == 0 < newsz ==> |old(m.free)| < 3 * (Up(newsz) - Up(sz))
    ensures r != 0 ==> |m.free| + 3 * (Up(r) - Up(sz)) >= |old(m.free)|
    ensures r != 0 ==> r == (if newsz < sz then sz else newsz)
    ensures r != 0 ==> Image(m.Now(), s, root, r, tf, tramp) && Shows(m.Now(), s, r, segs)
    ensures r != 0 ==> forall q | Up(sz) <= q < Up(r) :: Holds(m.Now(), s, q, VRWXU, Fill(0))
  {
    hide Vm.Counted, Vm.Valid, Vm.Leaf, Tight, Outside, Filled, Grew, LeavesSame, MakePte, BackedAt, Holds, Shows, EndOf;
    ghost var v := m.Now();
    OutsideNothing(v, s);
    r := m.Uvmalloc(root, sz, newsz, s);
    if newsz >= sz {
      if r == 0 {
        OutsideGrew(v, m.Now(), s);
        ImageGrew(v, m.Now(), s, root, sz, tf, tramp);
      } else {
        UpMonotone(sz, newsz);
        FilledBelow(v, m.Now(), s, Up(sz), Up(newsz));
        OutsideFilled(v, m.Now(), s, Up(sz), Up(newsz));
        ImageFilled(v, m.Now(), s, root, sz, newsz, tf, tramp);
        ShowsFilled(v, m.Now(), s, sz, newsz, segs);
      }
    }
  }

  lemma Wraps64(a: nat, n: nat)
    requires a < UINT64 && n < UINT64
    ensures (a + n) % UINT64 < a <==> a + n >= UINT64
    ensures a + n < UINT64 ==> (a + n) % UINT64 == a + n
  {
  }

  /** Program headers as exec has accepted them. */
  ghost predicate Accepted(segs: seq<Segment>)
  {
    forall g <- segs :: g.load ==> g.filesz <= g.memsz
  }

  /** One turn of the loop over the program headers; sz1 is the size to free if it fails. */
  method LoadSegment(m: Memory, root: nat, sz: nat, g: Segment,
                     ghost segs: seq<Segment>, ghost s: nat, ghost tf: nat, ghost tramp: nat)
    returns (ok: bool, sz1: nat)
    requires m.Valid() && Tight(m.Now()) && |m.mem| <= TOP && EndOf(segs) == sz && Accepted(segs)
    requires Image(m.Now(), s, root, sz, tf, tramp) && Shows(m.Now(), s, sz, segs)
    requires g.vaddr < UINT64 && g.memsz < UINT64
    modifies m`mem, m`free, m`uses, m`nodes
    ensures m.Valid() && Tight(m.Now()) && Outside(old(m.Now()), m.Now(), s)
    ensures Image(m.Now(), s, root, sz1, tf, tramp) && (ok ==> Shows(m.Now(), s, sz1, segs + [g]) && Accepted(segs + [g]))
    ensures ok ==> Good(g) && sz1 == Larger(sz, End(g)) && |m.free| + 3 * (Up(sz1) - Up(sz)) >= |old(m.free)|
    ensures Loadable(g) && |old(m.free)| >= 3 * (Up(Larger(sz, End(g))) - Up(sz)) ==> ok
  {
    hide Vm.Counted, Vm.Valid, Vm.Leaf, Tight, Outside, Image, Shows, Up, EndOf;
    ghost var v := m.Now();
    OutsideNothing(v, s);
    Wraps64(g.vaddr, g.memsz);
    sz1 := sz;
    if !g.header {
      return false, sz1;
    }
    if !g.load {
      NotLoaded(v, s, sz, segs, g);
      return true, sz1;
    }
    if g.memsz < g.filesz || (g.vaddr + g.memsz) % UINT64 < g.vaddr {
      return false, sz1;
    }
    var r := GrowImage(m, root, sz, (g.vaddr + g.memsz) % UINT64, segs, s, tf, tramp);
    if r == 0 {
      return false, sz1;
    }
    ghost var u := m.Now();
    sz1 := r;
    if g.vaddr % PGSIZE != 0 {
      return false, sz1;
    }
    ok := Loadseg(m, root, sz1, g, segs, s, tf, tramp);
    OutsideTwice(v, u, m.Now(), s);
  }

  lemma NotLoaded(v: Vm, s: nat, sz: nat, segs: seq<Segment>, g: Segment)
    requires v.Counted() && Shows(v, s, sz, segs) && !g.load
    ensures Shows(v, s, sz, segs + [g])
  {
    hide Vm.Counted, Vm.Leaf, FrameOf, FlagsOf, ImageByte, Up;
    var now := segs + [g];
    forall a: nat ensures ImageByte(now, a) == ImageByte(segs, a) { ImageByteLast(segs, g, a); }
    forall q | 0 <= q < Up(sz) ensures ShowsAt(v, s, q, now) { assert ShowsAt(v, s, q, segs); }
  }

  method LoadAll(m: Memory, root: nat, segs: seq<Segment>, ghost s: nat, ghost tf: nat, ghost tramp: nat)
    returns (ok: bool, sz: nat)
    requires m.Valid() && Tight(m.Now()) && |m.mem| <= TOP && Image(m.Now(), s, root, 0, tf, tramp)
    requires forall g <- segs :: g.vaddr < UINT64 && g.memsz < UINT64
    modifies m`mem, m`free, m`uses, m`nodes
    ensures m.Valid() && Tight(m.Now()) && Outside(old(m.Now()), m.Now(), s)
    ensures Image(m.Now(), s, root, sz, tf, tramp) && (ok ==> Shows(m.Now(), s, sz, segs) && Accepted(segs))
    ensures ok ==> sz == EndOf(segs) && |m.free| + 3 * Up(sz) >= |old(m.free)|
    ensures (forall g <- segs :: Loadable(g)) && |old(m.free)| >= 3 * Up(EndOf(segs)) ==> ok
  {
    hide Vm.Counted, Vm.Valid, Vm.Leaf, Tight, Outside, Image, Up, Good, End, EndOf, Loadable, Shows, Accepted;
    ghost var v := m.Now();
    OutsideNothing(v, s);
    NoEnd();
    NothingShown(v, s, segs[..0]);
    ok, sz := true, 0;
    var i := 0;
    while i < |segs|
      invariant i <= |segs| && ok && m.Valid() && Tight(m.Now()) && Outside(v, m.Now(), s) && |m.mem| <= TOP
      invariant Image(m.Now(), s, root, sz, tf, tramp) && Shows(m.Now(), s, sz, segs[..i]) && Accepted(segs[..i])
      invariant sz == EndOf(segs[..i]) && |m.free| + 3 * Up(sz) >= |old(m.free)|
    {
      ghost var u := m.Now();
      assert segs[i] in segs && segs[..i + 1] == segs[..i] + [segs[i]];
      EndStep(segs, i);
      EndGrows(segs, i + 1);
      UpMonotone(EndOf(segs[..i + 1]), EndOf(segs));
      ok, sz := LoadSegment(m, root, sz, segs[i], segs[..i], s, tf, tramp);
      OutsideTwice(v, u, m.Now(), s);
      OutsideSize(u, m.Now(), s);
      if !ok {
        return;
      }
      i := i + 1;
    }
    assert segs[..i] == segs;
  }

  lemma NothingShown(v: Vm, s: nat, segs: seq<Segment>)
    requires v.Counted() && segs == []
    ensures Shows(v, s, 0, segs) && Accepted(segs)
  {
  }

  lemma ImageReflagged(v: Vm, u: Vm, s: nat, root: nat, sz: nat, tf: nat, tramp: nat, p: nat, w: nat)
    requires v.Counted() && u.Counted() && Image(v, s, root, sz, tf, tramp) && p < Up(sz)
    requires LeavesExcept(v, u, s, p, w) && u.uses == v.uses && u.nodes == v.nodes
    requires forall q | 0 <= q && BackedAt(v, s, q) :: BackedAt(u, s, q)
    ensures Image(u, s, root, sz, tf, tramp)
  {
  }

  /** A page whose flags change keeps its content, and the others are as before. */
  lemma GuardPages(v: Vm, w: Vm, s: nat, p: nat, leaf: nat)
    requires v.Counted() && w.Counted() && Grew(v, w, s) && w.uses == v.uses && LeavesExcept(v, w, s, p, leaf) && BackedAt(v, s, p)
    requires FrameOf(leaf) == FrameOf(v.Leaf(s, p)) && leaf != 0
    ensures forall q | 0 <= q && q != p :: PageSame(v, w, s, q)
    ensures BackedAt(w, s, p) && FrameOf(leaf) < |v.mem| == |w.mem| && w.mem[FrameOf(leaf)] == v.mem[FrameOf(leaf)]
  {
    hide Vm.Counted, Vm.Valid, Vm.Leaf, FrameOf;
    UsesBelow(v);
  }

  /** uvmclear on a page of the image. */
  method Guard(m: Memory, root: nat, sz: nat, p: nat, ghost s: nat, ghost tf: nat, ghost tramp: nat)
    requires m.Valid() && Tight(m.Now()) && Image(m.Now(), s, root, sz, tf, tramp) && p < Up(sz)
    requires Holds(m.Now(), s, p, VRWXU, Fill(0))
    modifies m`mem, m`free, m`uses, m`nodes
    ensures m.Valid() && Tight(m.Now()) && Image(m.Now(), s, root, sz, tf, tramp) && Outside(old(m.Now()), m.Now(), s)
    ensures forall q | 0 <= q && q != p :: PageSame(old(m.Now()), m.Now(), s, q)
    ensures Holds(m.Now(), s, p, VRWXU - PTE_U, Fill(0)) && m.free == old(m.free)
  {
    hide Vm.Counted, Vm.Valid, Vm.Leaf, Tight, Outside, Grew, MakePte, FlagsOf, FrameOf, Cleared, PageSame, LeavesExcept;
    ghost var v := m.Now();
    ghost var leaf := v.Leaf(s, p);
    UserCleared(leaf);
    m.Uvmclear(root, p, s);
    Reflagged(v, m.Now(), s, p, Cleared(leaf));
    GuardPages(v, m.Now(), s, p, Cleared(leaf));
    ImageReflagged(v, m.Now(), s, root, sz, tf, tramp, p, Cleared(leaf));
    ExceptAt(v, m.Now(), s, p, Cleared(leaf));
  }

  lemma UserCleared(w: nat)
    requires FlagsOf(w) == VRWXU
    ensures IsValid(Cleared(w)) && FlagsOf(Cleared(w)) == VRWXU - PTE_U && FrameOf(Cleared(w)) == FrameOf(w)
  {
    assert Cleared(31) == 15;
    assert w == 1024 * (w / 1024) + 2 * 15 + 1;
    hide Cleared;
    ClearedParts(w / 1024, 15);
  }

  /** The program, a guard page that the user cannot touch, and the stack page. */
  ghost predicate Ready(v: Vm, s: nat, segs: seq<Segment>, page: seq<Byte>)
    requires v.Counted()
  {
    && Shows(v, s, EndOf(segs), segs) && |page| == PAGE
    && Holds(v, s, Up(EndOf(segs)), VRWXU - PTE_U, Fill(0)) && Holds(v, s, Up(EndOf(segs)) + 1, VRWXU, WordsOf(page))
  }

  lemma RoundedImage(v: Vm, s: nat, root: nat, sz: nat, tf: nat, tramp: nat, segs: seq<Segment>)
    requires v.Counted() && Image(v, s, root, sz, tf, tramp) && Shows(v, s, sz, segs)
    ensures Image(v, s, root, Up(sz) * PGSIZE, tf, tramp) && Shows(v, s, Up(sz) * PGSIZE, segs)
  {
  }

  /** The steps from the two new pages to the finished stack. */
  lemma StackReady(v: Vm, w: Vm, x: Vm, s: nat, segs: seq<Segment>, p: nat, page: seq<Byte>)
    requires v.Counted() && Shows(v, s, EndOf(segs), segs) && p == Up(EndOf(segs)) && |page| == PAGE
    requires forall q | 0 <= q && q != p :: PageSame(v, w, s, q)
    requires forall q | 0 <= q && q != p + 1 :: PageSame(w, x, s, q)
    requires w.Counted() && x.Counted() && Holds(w, s, p, VRWXU - PTE_U, Fill(0)) && Holds(x, s, p + 1, VRWXU, WordsOf(page))
    ensures Ready(x, s, segs, page)
  {
    hide Vm.Counted, Vm.Leaf, FrameOf, FlagsOf, ImageByte, Up, EndOf, WordsOf;
    forall q | 0 <= q < Up(EndOf(segs)) ensures ShowsAt(x, s, q, segs) {
      assert ShowsAt(v, s, q, segs);
      ShowsSame(v, w, s, q, segs);
      ShowsSame(w, x, s, q, segs);
    }
    assert PageSame(w, x, s, p);
  }

  /** Two pages above the program: a guard that the user cannot touch, and the stack with the arguments. */
  method MakeStack(m: Memory, root: nat, args: seq<Str>, segs: seq<Segment>, sz: nat, ghost s: nat, ghost tf: nat, ghost tramp: nat)
    returns (ok: bool, sz1: nat, sp: int, page: seq<Byte>)
    requires m.Valid() && Tight(m.Now()) && |m.mem| <= TOP && |args| < MAXARG && sz == EndOf(segs) && Accepted(segs)
    requires Image(m.Now(), s, root, sz, tf, tramp) && Shows(m.Now(), s, sz, segs)
    modifies m`mem, m`free, m`uses, m`nodes
    ensures m.Valid() && Tight(m.Now()) && Outside(old(m.Now()), m.Now(), s) && Image(m.Now(), s, root, sz1, tf, tramp)
    ensures ok ==> StackSize(args) <= PAGE && sz1 == (Up(sz) + 2) * PGSIZE
    ensures StackSize(args) <= PAGE && |old(m.free)| >= 6 ==> ok
    ensures ok ==> sp == sz1 - StackSize(args) && ArgsOn(page, sz1 - PGSIZE, sp, args) && Ready(m.Now(), s, segs, page)
  {
    hide Vm.Counted, Vm.Valid, Vm.Leaf, Tight, Outside, Image, FlagsOf, FrameOf, Shows, EndOf, PageSame, ArgsOn, StackSize;
    ghost var v := m.Now();
    var base := Up(sz) * PGSIZE;
    assert Up(base) == Up(sz) && Up(base + 2 * PGSIZE) == Up(sz) + 2;
    RoundedImage(v, s, root, sz, tf, tramp, segs);
    sz1, sp, page := base, 0, [];
    var r := GrowImage(m, root, base, base + 2 * PGSIZE, segs, s, tf, tramp);
    if r == 0 {
      return false, sz1, sp, page;
    }
    sz1 := r;
    ghost var u := m.Now();
    assert Holds(u, s, Up(sz), VRWXU, Fill(0)) && Holds(u, s, Up(sz) + 1, VRWXU, Fill(0));
    ok, sp, page := FillStack(m, root, sz1, Up(sz), args, segs, s, tf, tramp);
    OutsideTwice(v, u, m.Now(), s);
  }

  /** uvmclear and the pushes. */
  method FillStack(m: Memory, root: nat, sz: nat, p: nat, args: seq<Str>,
                   ghost segs: seq<Segment>, ghost s: nat, ghost tf: nat, ghost tramp: nat)
    returns (ok: bool, sp: int, page: seq<Byte>)
    requires m.Valid() && Tight(m.Now()) && |args| < MAXARG && p == Up(EndOf(segs)) && sz == (p + 2) * PGSIZE
    requires Image(m.Now(), s, root, sz, tf, tramp) && Shows(m.Now(), s, sz, segs)
    requires Holds(m.Now(), s, p, VRWXU, Fill(0)) && Holds(m.Now(), s, p + 1, VRWXU, Fill(0))
    modifies m`mem, m`free, m`uses, m`nodes
    ensures m.Valid() && Tight(m.Now()) && Outside(old(m.Now()), m.Now(), s) && Image(m.Now(), s, root, sz, tf, tramp)
    ensures ok <==> StackSize(args) <= PAGE
    ensures ok ==> sp == sz - StackSize(args) && ArgsOn(page, sz - PGSIZE, sp, args) && Ready(m.Now(), s, segs, page)
  {
    hide Vm.Counted, Vm.Valid, Vm.Leaf, Tight, Outside, Image, FrameOf, PageSame, EndOf, ArgsOn, StackSize, ShowsAt;
    ghost var u := m.Now();
    assert p + 2 <= Up(sz);
    Guard(m, root, sz, p, s, tf, tramp);
    ghost var w := m.Now();
    assert PageSame(u, w, s, p + 1);
    HoldsSame(u, w, s, p + 1, VRWXU, Fill(0));
    ok, sp, page := PushArgs(args, sz - PGSIZE);
    assert page + BytesOf(w.mem[FrameOf(w.Leaf(s, p + 1))])[|page|..] == page;
    StorePage(m, root, sz, p + 1, page, s, tf, tramp);
    OutsideTwice(u, w, m.Now(), s);
    HoldsStored(w, m.Now(), s, p + 1, page);
    StackReady(u, w, m.Now(), s, segs, p, page);
  }

  lemma HoldsSame(v: Vm, w: Vm, s: nat, q: nat, flags: nat, words: Words)
    requires PageSame(v, w, s, q) && Holds(v, s, q, flags, words)
    ensures Holds(w, s, q, flags, words)
  {
  }

  lemma HoldsStored(w: Vm, x: Vm, s: nat, q: nat, page: seq<Byte>)
    requires w.Counted() && x.Counted() && LeavesSame(w, x) && x.uses == w.uses && |page| == PAGE && |x.mem| == |w.mem|
    requires Holds(w, s, q, VRWXU, Fill(0)) && x.mem[FrameOf(w.Leaf(s, q))] == WordsOf(page)
    ensures Holds(x, s, q, VRWXU, WordsOf(page))
  {
    hide Vm.Counted, Vm.Leaf, FrameOf, FlagsOf, WordsOf;
  }

  /** exec: the process runs the new image and its old space is gone, or it keeps the old one and no
      page, leaf or content differs from before. */
  method Replace(m: Memory, p: Proc, elfRead: bool, segs: seq<Segment>, args: seq<Str>, ghost t: nat, tramp: nat)
    returns (ok: bool, sp: int, ghost page: seq<Byte>)
    requires m.Valid() && Tight(m.Now()) && |m.mem| <= TOP && |args| < MAXARG
    requires p.Owns(m.Now(), tramp) && t != p.space && Absent(m.Now(), t)
    requires forall g <- segs :: g.vaddr < UINT64 && g.memsz < UINT64
    modifies p`pagetable, p`sz, p`space, m`mem, m`free, m`uses, m`nodes
    ensures m.Valid() && Tight(m.Now()) && p.Owns(m.Now(), tramp)
    ensures ok ==> p.space == t && Absent(m.Now(), old(p.space))
    ensures ok ==> forall f <- m.uses | !Of(m.uses[f], t) :: f in old(m.uses) && old(m.uses)[f] == m.uses[f]
    ensures ok ==> forall f <- old(m.uses) | !Of(old(m.uses)[f], old(p.space)) :: f in m.uses && m.uses[f] == old(m.uses)[f]
    ensures ok ==> Beyond(old(m.Now()), m.Now(), {old(p.space), t}, {})
    ensures !ok ==> p.space == old(p.space) && p.sz == old(p.sz) && p.pagetable == old(p.pagetable)
    ensures !ok ==> Restored(old(m.Now()), m.Now())
    ensures ok ==> p.sz == (Up(EndOf(segs)) + 2) * PGSIZE && sp == p.sz - StackSize(args)
    ensures ok ==> Ready(m.Now(), t, segs, page) && ArgsOn(page, p.sz - PGSIZE, sp, args)
    ensures (elfRead && StackSize(args) <= PAGE && (forall g <- segs :: Loadable(g))
             && |old(m.free)| >= 3 * Up(EndOf(segs)) + 11) ==> ok
  {
    hide Vm.Counted, Vm.Valid, Vm.Leaf, Tight, Outside, Image, Absent, Restored, Beyond, FlagsOf, Ready, ArgsOn, StackSize, EndOf;
    ghost var v := m.Now();
    sp, page := 0, [];
    RestoredNothing(v);
    OutsideNothing(v, t);
    if !elfRead {
      return false, sp, page;
    }
    var root := ProcPagetable(m, p.trapframe, tramp, t);
    ghost var v1 := m.Now();
    OutsideSize(v, v1, t);
    ImageKept(v, v1, p.space, p.pagetable, p.sz, p.trapframe, tramp, t);
    HeldStill(v, v1, t, p.trapframe);
    if root.None? {
      CostRestored(v, v1, t);
      return false, sp, page;
    }
    var sz;
    ok, sz, sp, page := Build(m, root.value, segs, args, t, p.trapframe, tramp);
    ghost var v2 := m.Now();
    OutsideTwice(v, v1, v2, t);
    ImageKept(v, v2, p.space, p.pagetable, p.sz, p.trapframe, tramp, t);
    HeldStill(v, v2, t, p.trapframe);
    if !ok {
      ProcFreepagetable(m, root.value, sz, t, p.trapframe, tramp);
      OutsideTwice(v, v2, m.Now(), t);
      CostRestored(v, m.Now(), t);
      OwnsRestored(v, m.Now(), p.space, p.pagetable, p.sz, p.trapframe, tramp);
      return;
    }
    Commit(m, p, root.value, sz, t, tramp);
    ReadyKept(v2, m.Now(), t, segs, page, old(p.space));
    Swapped(v, v2, m.Now(), old(p.space), t);
    BeyondOutside(v, v2, t);
    BeyondOutside(v2, m.Now(), old(p.space));
    BeyondTwice(v, v2, m.Now(), {t}, {}, {old(p.space)}, {});
    ghost var none: set<nat> := {};
    assert {t} + {old(p.space)} == {old(p.space), t} && none + none == none;
  }

  method Build(m: Memory, root: nat, segs: seq<Segment>, args: seq<Str>, ghost s: nat, ghost tf: nat, ghost tramp: nat)
    returns (ok: bool, sz: nat, sp: int, page: seq<Byte>)
    requires m.Valid() && Tight(m.Now()) && |m.mem| <= TOP && |args| < MAXARG && Image(m.Now(), s, root, 0, tf, tramp)
    requires forall g <- segs :: g.vaddr < UINT64 && g.memsz < UINT64
    modifies m`mem, m`free, m`uses, m`nodes
    ensures m.Valid() && Tight(m.Now()) && Outside(old(m.Now()), m.Now(), s)
    ensures Image(m.Now(), s, root, sz, tf, tramp) && (ok ==> sz == (Up(EndOf(segs)) + 2) * PGSIZE)
    ensures ok ==> sp == sz - StackSize(args) && ArgsOn(page, sz - PGSIZE, sp, args) && Ready(m.Now(), s, segs, page)
    ensures StackSize(args) <= PAGE && (forall g <- segs :: Loadable(g)) && |old(m.free)| >= 3 * Up(EndOf(segs)) + 6 ==> ok
  {
    hide Vm.Counted, Vm.Valid, Vm.Leaf, Tight, Outside, Image, Shows, FlagsOf, ArgsOn, StackSize, Ready, EndOf;
    ghost var v := m.Now();
    sp, page := 0, [];
    ok, sz := LoadAll(m, root, segs, s, tf, tramp);
    if !ok {
      return;
    }
    ghost var u := m.Now();
    OutsideSize(v, u, s);
    ok, sz, sp, page := MakeStack(m, root, args, segs, sz, s, tf, tramp);
    OutsideTwice(v, u, m.Now(), s);
  }

  lemma ReadyKept(v: Vm, w: Vm, s: nat, segs: seq<Segment>, page: seq<Byte>, t: nat)
    requires Outside(v, w, t) && s != t && Ready(v, s, segs, page)
    ensures Ready(w, s, segs, page)
  {
    hide Vm.Counted, Vm.Valid, Vm.Leaf, FrameOf, FlagsOf, ImageByte, Up, EndOf, WordsOf, PageSame;
    forall q | 0 <= q < Up(EndOf(segs)) ensures ShowsAt(w, s, q, segs) {
      assert ShowsAt(v, s, q, segs);
      OutsidePage(v, w, t, s, q);
      ShowsSame(v, w, s, q, segs);
    }
    var p := Up(EndOf(segs));
    OutsidePage(v, w, t, s, p);
    OutsidePage(v, w, t, s, p + 1);
    HoldsSame(v, w, s, p, VRWXU - PTE_U, Fill(0));
    HoldsSame(v, w, s, p + 1, VRWXU, WordsOf(page));
  }

  /** The commit point. */
  method Commit(m: Memory, p: Proc, root: nat, sz: nat, ghost t: nat, ghost tramp: nat)
    requires m.Valid() && Tight(m.Now()) && p.Owns(m.Now(), tramp) && t != p.space
    requires Image(m.Now(), t, root, sz, p.trapframe, tramp)
    modifies p`pagetable, p`sz, p`space, m`mem, m`free, m`uses, m`nodes
    ensures m.Valid() && Tight(m.Now()) && p.Owns(m.Now(), tramp) && p.space == t && p.sz == sz
    ensures Outside(old(m.Now()), m.Now(), old(p.space)) && Absent(m.Now(), old(p.space))
  {
    hide Vm.Counted, Vm.Valid, Vm.Leaf, Tight, Outside, Image, Absent;
    ghost var v, s := m.Now(), p.space;
    var oldpagetable, oldsz := p.pagetable, p.sz;
    p.pagetable, p.sz := root, sz;
    p.space := t;
    ProcFreepagetable(m, oldpagetable, oldsz, s, p.trapframe, tramp);
    ImageKept(v, m.Now(), t, root, sz, p.trapframe, tramp, s);
    HeldStill(v, m.Now(), s, p.trapframe);
  }

  lemma Swapped(v: Vm, u: Vm, w: Vm, s: nat, t: nat)
    requires Outside(v, u, t) && Outside(u, w, s) && Absent(w, s) && Absent(v, t) && s != t
    ensures forall f <- w.uses | !Of(w.uses[f], t) :: f in v.uses && v.uses[f] == w.uses[f]
    ensures forall f <- v.uses | !Of(v.uses[f], s) :: f in w.uses && w.uses[f] == v.uses[f]
  {
  }
}
