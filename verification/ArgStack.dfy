/** The arguments that exec of kernel/exec.c pushes on the new stack page: the strings, each aligned to 16
    bytes and ended by a NUL, and below them the array of their addresses, ended by 0. Offsets are
    from the base of the page, which is a multiple of its size. */
module ArgStack {
  import opened Basics
  import opened PageBytes

  const MAXARG: nat := 32

  type Str = seq<Byte>

  /** sp after a push of n bytes; below 0 it is off the page. */
  function Below(sp: int, n: nat): (r: int)
    ensures r % 16 == 0 && sp - n - 16 < r <= sp - n
  {
    sp - n - (sp - n) % 16
  }

  /** Where sp is after the first k strings. */
  function Pushed(args: seq<Str>, k: nat): (sp: int)
    requires k <= |args|
  {
    if k == 0 then PAGE else Below(Pushed(args, k - 1), |args[k - 1]| + 1)
  }

  /** Where sp is in the end: the address array is at sp. */
  function Bottom(args: seq<Str>): (sp: int)
  {
    Below(Pushed(args, |args|), 8 * (|args| + 1))
  }

  lemma {:induction false} PushedFalls(args: seq<Str>, j: nat, k: nat)
    requires j <= k <= |args|
    ensures Pushed(args, k) <= Pushed(args, j) <= PAGE
    decreases k
  {
    if j < k {
      PushedFalls(args, j, k - 1);
    } else if k > 0 {
      PushedFalls(args, 0, k - 1);
    }
  }

  lemma PushStep(args: seq<Str>, k: nat)
    requires k < |args|
    ensures Pushed(args, k + 1) == Below(Pushed(args, k), |args[k]| + 1)
    ensures Pushed(args, k + 1) % 16 == 0 && Pushed(args, k + 1) + |args[k]| + 1 <= Pushed(args, k)
  {
    hide Below;
  }

  /** s is on the page at sp, with a NUL after it. */
  ghost predicate StringAt(page: seq<Byte>, sp: int, s: Str)
  {
    |page| == PAGE && 0 <= sp && sp + |s| < PAGE && page[sp..sp + |s|] == s && page[sp + |s|] == 0
  }

  /** Eight bytes for w are on the page at sp. */
  ghost predicate WordAt(page: seq<Byte>, sp: int, w: int)
  {
    |page| == PAGE && 0 <= sp && sp + 8 <= PAGE && 0 <= w && forall j | 0 <= j < 8 :: page[sp + j] == ByteOf(w, j)
  }

  /** copyout to the page. */
  function Put(page: seq<Byte>, at: nat, data: seq<Byte>): (r: seq<Byte>)
    requires at + |data| <= |page|
    ensures |r| == |page|
  {
    page[..at] + data + page[at + |data|..]
  }

  /** A string above what is written stays. */
  lemma StringStays(page: seq<Byte>, at: nat, data: seq<Byte>, sp: int, s: Str)
    requires StringAt(page, sp, s) && at + |data| <= sp
    ensures StringAt(Put(page, at, data), sp, s)
  {
    var r := Put(page, at, data);
    assert forall k | at + |data| <= k < PAGE :: r[k] == page[k];
    assert r[sp..sp + |s|] == page[sp..sp + |s|];
  }

  lemma StringPut(page: seq<Byte>, at: nat, s: Str)
    requires |page| == PAGE && at + |s| + 1 <= PAGE
    ensures StringAt(Put(page, at, s + [0]), at, s)
  {
    var r := Put(page, at, s + [0]);
    assert forall k | 0 <= k < |s| :: r[at + k] == s[k];
    assert r[at..at + |s|] == s;
  }

  /** The first k strings are where they should be. */
  ghost predicate StringsAt(page: seq<Byte>, args: seq<Str>, k: nat)
    requires k <= |args|
  {
    |page| == PAGE && forall i | 0 <= i < k :: StringAt(page, Pushed(args, i + 1), args[i])
  }

  /** One string more. */
  lemma StringsMore(page: seq<Byte>, args: seq<Str>, k: nat)
    requires k < |args| && StringsAt(page, args, k) && 0 <= Pushed(args, k + 1)
    ensures Pushed(args, k + 1) + |args[k]| + 1 <= PAGE
    ensures StringsAt(Put(page, Pushed(args, k + 1), args[k] + [0]), args, k + 1)
  {
    hide Pushed, Below, StringAt, Put;
    var at := Pushed(args, k + 1);
    PushStep(args, k);
    PushedFalls(args, 0, k);
    StringPut(page, at, args[k]);
    forall i | 0 <= i < k ensures StringAt(Put(page, at, args[k] + [0]), Pushed(args, i + 1), args[i]) {
      PushedFalls(args, i + 1, k);
      StringStays(page, at, args[k] + [0], Pushed(args, i + 1), args[i]);
    }
  }

  /** Words as bytes, one after the other. */
  function Flat(ws: seq<nat>): (b: seq<Byte>)
    ensures |b| == 8 * |ws|
  {
    seq(8 * |ws|, i requires 0 <= i < 8 * |ws| => ByteOf(ws[i / 8], i % 8))
  }

  lemma FlatAt(page: seq<Byte>, at: nat, ws: seq<nat>, k: nat)
    requires |page| == PAGE && at + 8 * |ws| <= PAGE && k < |ws|
    ensures WordAt(Put(page, at, Flat(ws)), at + 8 * k, ws[k])
  {
    var r := Put(page, at, Flat(ws));
    forall j | 0 <= j < 8 ensures r[at + 8 * k + j] == ByteOf(ws[k], j) {
      assert (8 * k + j) / 8 == k && (8 * k + j) % 8 == j;
      assert r[at + 8 * k + j] == Flat(ws)[8 * k + j];
    }
  }

  /** The address of string i. */
  function Addr(args: seq<Str>, base: nat, i: nat): int
    requires i < |args|
  {
    base + Pushed(args, i + 1)
  }

  /** The strings and the array of their addresses where the pushes put them. */
  ghost predicate Laid(page: seq<Byte>, base: nat, args: seq<Str>)
  {
    && 0 <= Bottom(args) && StringsAt(page, args, |args|)
    && (forall i | 0 <= i < |args| :: WordAt(page, Bottom(args) + 8 * i, Addr(args, base, i)))
    && WordAt(page, Bottom(args) + 8 * |args|, 0)
  }

  /** The strings and the array are apart and aligned. */
  lemma Apart(args: seq<Str>, i: nat)
    requires i < |args| && 0 <= Bottom(args)
    ensures Pushed(args, i + 1) % 16 == 0 && Bottom(args) % 16 == 0
    ensures Pushed(args, i + 1) + |args[i]| + 1 <= Pushed(args, i) <= PAGE
    ensures Bottom(args) + 8 * (|args| + 1) <= Pushed(args, i + 1)
  {
    hide Pushed, Below;
    PushStep(args, i);
    PushedFalls(args, 0, i);
    PushedFalls(args, i + 1, |args|);
  }

  lemma BottomBelow(args: seq<Str>)
    ensures Bottom(args) <= Pushed(args, |args|)
  {
  }

  /** n rounded up to a multiple of 16. */
  function Rounded(n: nat): (r: nat)
    ensures r % 16 == 0 && n <= r < n + 16
  {
    (n + 15) / 16 * 16
  }

  /** The bytes that the strings take, each with its NUL. */
  function StringsSize(args: seq<Str>): nat
  {
    if args == [] then 0 else Rounded(|args[0]| + 1) + StringsSize(args[1..])
  }

  /** The bytes that the arguments take: the strings, and an address for each and a 0. */
  function StackSize(args: seq<Str>): nat
  {
    StringsSize(args) + Rounded(8 * (|args| + 1))
  }

  lemma BelowRounds(sp: int, n: nat)
    requires sp % 16 == 0
    ensures Below(sp, n) == sp - Rounded(n)
  {
  }

  lemma {:induction false} StringsSizeLast(args: seq<Str>)
    requires args != []
    ensures StringsSize(args) == StringsSize(args[..|args| - 1]) + Rounded(|args[|args| - 1]| + 1)
    decreases |args|
  {
    if |args| > 1 {
      StringsSizeLast(args[1..]);
      assert args[1..][..|args| - 2] == args[..|args| - 1][1..];
    }
  }

  lemma {:induction false} PushedIs(args: seq<Str>, k: nat)
    requires k <= |args|
    ensures Pushed(args, k) == PAGE - StringsSize(args[..k]) && Pushed(args, k) % 16 == 0
    decreases k
  {
    if k > 0 {
      PushedIs(args, k - 1);
      BelowRounds(Pushed(args, k - 1), |args[k - 1]| + 1);
      StringsSizeLast(args[..k]);
      assert args[..k][..k - 1] == args[..k - 1];
    }
  }

  /** Where the pushes end: the page less what the arguments take. */
  lemma BottomIs(args: seq<Str>)
    ensures Bottom(args) == PAGE - StackSize(args)
  {
    PushedIs(args, |args|);
    assert args[..|args|] == args;
    BelowRounds(Pushed(args, |args|), 8 * (|args| + 1));
  }

  /** What main(argc, argv) finds at argv, at offset at of the page: the addresses of the strings, and a
      0 after them. Each string is intact and 16-aligned, and lies below the one before it and above argv. */
  ghost predicate ArgsAt(page: seq<Byte>, base: nat, at: int, args: seq<Str>, ptrs: seq<int>)
  {
    && |ptrs| == |args| && at % 16 == 0 && WordAt(page, at + 8 * |args|, 0)
    && forall i | 0 <= i < |args| :: WordAt(page, at + 8 * i, base + ptrs[i]) && PlacedAt(page, at, args, ptrs, i)
  }

  ghost predicate PlacedAt(page: seq<Byte>, at: int, args: seq<Str>, ptrs: seq<int>, i: int)
    requires |ptrs| == |args| && 0 <= i < |args|
  {
    && StringAt(page, ptrs[i], args[i]) && ptrs[i] % 16 == 0
    && at + 8 * (|args| + 1) <= ptrs[i] && ptrs[i] + |args[i]| + 1 <= if i == 0 then PAGE else ptrs[i - 1]
  }

  ghost predicate ArgsOn(page: seq<Byte>, base: nat, sp: int, args: seq<Str>)
  {
    var at := sp - base;
    exists ptrs :: ArgsAt(page, base, at, args, ptrs)
  }

  function Offsets(args: seq<Str>): (ptrs: seq<int>)
    ensures |ptrs| == |args| && forall i | 0 <= i < |args| :: ptrs[i] == Pushed(args, i + 1)
  {
    seq(|args|, i requires 0 <= i < |args| => Pushed(args, i + 1))
  }

  lemma LaidAt(page: seq<Byte>, base: nat, args: seq<Str>, i: nat)
    requires Laid(page, base, args) && i < |args|
    ensures WordAt(page, Bottom(args) + 8 * i, base + Offsets(args)[i]) && PlacedAt(page, Bottom(args), args, Offsets(args), i)
  {
    hide Pushed, Below, StringAt, WordAt, Bottom;
    Apart(args, i);
    assert base + Offsets(args)[i] == Addr(args, base, i);
  }

  lemma LaidIs(page: seq<Byte>, base: nat, args: seq<Str>)
    requires Laid(page, base, args)
    ensures ArgsOn(page, base, base + Bottom(args), args)
  {
    hide Pushed, Below, StringAt, WordAt, Bottom, PlacedAt, Offsets;
    var at, ptrs := Bottom(args), Offsets(args);
    Aligned(args);
    forall i | 0 <= i < |args| ensures WordAt(page, at + 8 * i, base + ptrs[i]) && PlacedAt(page, at, args, ptrs, i) {
      LaidAt(page, base, args, i);
    }
    assert ArgsAt(page, base, at, args, ptrs);
    assert base + at - base == at;
  }

  lemma Aligned(args: seq<Str>)
    ensures Bottom(args) % 16 == 0
  {
  }

  /** The push loop and the push of the address array: it fails exactly if they do not fit the page. */
  method PushArgs(args: seq<Str>, base: nat) returns (ok: bool, sp: int, page: seq<Byte>)
    requires |args| < MAXARG
    ensures ok <==> StackSize(args) <= PAGE
    ensures ok ==> sp == base + PAGE - StackSize(args) && ArgsOn(page, base, sp, args)
    ensures |page| == PAGE
  {
    hide Below, StringAt, Put, Bottom, StackSize, ArgsOn;
    BottomIs(args);
    page := seq(PAGE, _ => 0);
    var ustack: seq<nat> := [];
    sp := PAGE;
    var argc := 0;
    while argc < |args|
      invariant argc <= |args| && |ustack| == argc && sp == Pushed(args, argc) >= 0 && StringsAt(page, args, argc)
      invariant forall i | 0 <= i < argc :: ustack[i] == Addr(args, base, i)
    {
      sp := Below(sp, |args[argc]| + 1);
      PushStep(args, argc);
      if sp < 0 {
        PushedFalls(args, argc + 1, |args|);
        BottomBelow(args);
        return false, sp, page;
      }
      StringsMore(page, args, argc);
      page := Put(page, sp, args[argc] + [0]);
      ustack := ustack + [base + sp];
      argc := argc + 1;
    }
    sp, page := PushPointers(args, page, ustack, base);
    ok := sp >= 0;
    if ok {
      LaidIs(page, base, args);
    }
    sp := if ok then base + sp else sp;
  }

  /** The push of the address array. */
  method PushPointers(args: seq<Str>, strings: seq<Byte>, ptrs: seq<nat>, base: nat) returns (sp: int, page: seq<Byte>)
    requires |ptrs| == |args| && Pushed(args, |args|) >= 0 && StringsAt(strings, args, |args|)
    requires forall i | 0 <= i < |args| :: ptrs[i] == Addr(args, base, i)
    ensures sp == Bottom(args) && |page| == PAGE && (sp >= 0 ==> Laid(page, base, args))
  {
    hide Pushed, Below, StringAt, WordAt, Put, Flat, Addr;
    var ustack := ptrs + [0];
    sp := Below(Pushed(args, |args|), 8 * (|args| + 1));
    page := strings;
    if sp < 0 {
      return;
    }
    PushedFalls(args, 0, |args|);
    page := Put(strings, sp, Flat(ustack));
    forall i | 0 <= i < |args| ensures StringAt(page, Pushed(args, i + 1), args[i]) {
      Apart(args, i);
      StringStays(strings, sp, Flat(ustack), Pushed(args, i + 1), args[i]);
    }
    forall i | 0 <= i < |args| ensures WordAt(page, Bottom(args) + 8 * i, Addr(args, base, i)) {
      FlatAt(strings, sp, ustack, i);
    }
    FlatAt(strings, sp, ustack, |args|);
  }
}
