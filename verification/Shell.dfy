/** The parser of user/sh.c as it runs: a position that the functions advance over a C string, and
    nulterminate, which writes into it. */
module Shell {

  import opened ShellGrammar
  import opened ShellLexer
  import opened ShellRoundTrip
  import S = ShellSpacing

  /** What gettoken returns for a token. */
  function Code(t: Token<Span>): char
  {
    match t
    case Sym(c) => c
    case To(m) => if m == Read then '<' else if m == Write then '>' else '+'
    case Word(_) => 'a'
  }

  class Parser {
    /** es - s of parsecmd: the length of the line. */
    const es: nat
    var buf: seq<char>
    /** *ps */
    var pos: nat

    ghost predicate Valid()
      reads this
    {
      |buf| == es + 1 && buf[es] == '\0' && (forall k | 0 <= k < es :: buf[k] != '\0') && pos <= es
    }

    ghost function Line(): string
      reads this
      requires Valid()
    {
      buf[..es]
    }

    ghost function Tokens(): seq<Token<Span>>
      reads this
      requires Valid()
    {
      Lex(Line(), pos)
    }

    constructor (s: string)
      requires '\0' !in s
      ensures Valid() && Line() == s && pos == 0
    {
      es, buf, pos := |s|, s + ['\0'], 0;
    }

    method SkipSpace(p: nat) returns (r: nat)
      requires Valid() && p <= es
      ensures r == Skip(Line(), p)
    {
      r := p;
      while r < es && IsSpace(buf[r])
        invariant p <= r <= es && Skip(Line(), r) == Skip(Line(), p)
      {
        r := r + 1;
      }
    }

    method SkipWord(p: nat) returns (r: nat)
      requires Valid() && p <= es
      ensures r == WordEnd(Line(), p)
    {
      r := p;
      while r < es && !IsSpace(buf[r]) && !IsSymbol(buf[r])
        invariant p <= r <= es && WordEnd(Line(), r) == WordEnd(Line(), p)
      {
        r := r + 1;
      }
    }

    /** The switch of gettoken. */
    method Scan(q: nat) returns (ret: char, eq: nat)
      requires Valid() && q <= es && (q < es ==> !IsSpace(buf[q]))
      ensures q == es ==> ret == '\0' && eq == es
      ensures q < es ==> ret == Code(TokenAt(Line(), q)) != '\0' && eq == TokenEnd(Line(), q)
      ensures q < es ==> (ret == 'a' <==> TokenAt(Line(), q).Word?)
    {
      ret := buf[q];
      if ret == '\0' {
        eq := q;
      } else if ret in "|();&<" {
        eq := q + 1;
      } else if ret == '>' {
        eq := q + 1;
        if buf[eq] == '>' {
          ret, eq := '+', q + 2;
        }
      } else {
        ret := 'a';
        eq := SkipWord(q);
      }
    }

    /** gettoken: takes exactly the first token, and says where it stands. */
    method Gettoken() returns (ret: char, q: nat, eq: nat)
      requires Valid()
      modifies this`pos
      ensures Valid() && old(pos) <= pos
      ensures ret == '\0' <==> old(Tokens()) == []
      ensures ret == '\0' ==> Tokens() == []
      ensures ret != '\0' ==> old(pos) < pos && Tokens() == old(Tokens())[1..] && ret == Code(old(Tokens())[0])
      ensures ret == 'a' <==> old(Tokens()) != [] && old(Tokens())[0].Word?
      ensures ret == 'a' ==> old(Tokens())[0] == Word(Span(q, eq))
    {
      hide Lex, TokenEnd, IsSpace, IsSymbol;
      ghost var s := Line();
      q := SkipSpace(pos);
      ret, eq := Scan(q);
      LexSkip(s, pos);
      if q < es {
        LexToken(s, q);
        WordAt(s, q);
      } else {
        LexEnd(s);
      }
      LexSkip(s, eq);
      pos := SkipSpace(eq);
    }

    /** peek, for symbols. */
    method Peek(toks: string) returns (r: bool)
      requires Valid() && forall c <- toks :: IsSymbol(c)
      modifies this`pos
      ensures Valid() && old(pos) <= pos && Tokens() == old(Tokens())
      ensures (r <==> Starts(Tokens(), toks)) && HeadOk(Tokens()) && pos == Skip(Line(), pos)
    {
      hide Lex, IsSpace;
      LexSkip(Line(), pos);
      SkipSkip(Line(), pos);
      pos := SkipSpace(pos);
      FirstToken(Line(), pos, toks);
      r := buf[pos] != '\0' && buf[pos] in toks;
    }

    /** parseredirs */
    method Parseredirs() returns (r: Result<seq<Redirect<Span>>>)
      requires Valid()
      modifies this`pos
      ensures Valid() && old(pos) <= pos
      ensures Agrees(r, Redirects(old(Tokens())), Tokens())
    {
      hide Lex, Redirects, Prepend;
      var acc := [];
      ghost var ts := Tokens();
      PrependNothing(Redirects(ts));
      while true
        invariant Valid() && old(pos) <= pos && Redirects(ts) == Prepend(acc, Redirects(Tokens()))
        decreases es - pos
      {
        ghost var now := Tokens();
        var more := Peek("<>");
        NoRedirect(acc, now);
        if !more {
          return Ok(acc);
        }
        var tok, _, _ := Gettoken();
        var word, q, eq := Gettoken();
        if word != 'a' {
          return Panic(MissingFile);
        }
        var mode := if tok == '<' then Read else if tok == '>' then Write else Append;
        OneRedirect(now);
        PrependOne(acc, Redirect(mode, Span(q, eq)), Redirects(Tokens()));
        acc := acc + [Redirect(mode, Span(q, eq))];
      }
    }

    /** The loop of parseexec. argv has room for every argument and the null after the last. */
    method Parseargs() returns (r: Result<Simple<Span>>)
      requires Valid()
      modifies this`pos
      ensures Valid() && old(pos) <= pos
      ensures Agrees(r, Arguments(old(Tokens()), 0), Tokens())
    {
      hide Lex, Arguments, Extend, Redirects;
      var argv, redirs := [], [];
      ghost var ts := Tokens();
      ExtendNothing(Arguments(ts, 0));
      while true
        invariant Valid() && old(pos) <= pos && |argv| < MAXARGS
        invariant Arguments(ts, 0) == Extend(argv, redirs, Arguments(Tokens(), |argv|))
        decreases es - pos
      {
        ghost var now := Tokens();
        NoArgument(argv, redirs, now);
        var stop := Peek("|)&;");
        if stop {
          return Ok(Simple(argv, redirs));
        }
        var tok, q, eq := Gettoken();
        if tok == '\0' {
          return Ok(Simple(argv, redirs));
        }
        if tok != 'a' {
          return Panic(BadToken);
        }
        if |argv| + 1 >= MAXARGS {
          return Panic(TooManyArgs);
        }
        OneArgument(now, |argv|);
        var more := Parseredirs();
        if more.Panic? {
          ExtendTwice(argv, redirs, [], [], Panic(more.error));
          return Panic(more.error);
        }
        ExtendTwice(argv, redirs, [now[0].w], more.value, Arguments(Tokens(), |argv| + 1));
        argv, redirs := argv + [Span(q, eq)], redirs + more.value;
      }
    }

    /** parseexec */
    method Parseexec() returns (r: Result<Cmd<Span>>)
      requires Valid()
      modifies this`pos
      ensures Valid() && old(pos) <= pos
      ensures Agrees(r, ExecPart(old(Tokens())), Tokens())
      decreases es - pos, 1
    {
      hide Lex, Arguments, Redirects, Block;
      ghost var ts := Tokens();
      var open := Peek("(");
      if open {
        r := Parseblock();
        return;
      }
      var first := Parseredirs();
      if first.Panic? {
        return Panic(first.error);
      }
      var args := Parseargs();
      if args.Panic? {
        return Panic(args.error);
      }
      return Ok(Wrap(Exec(args.value.argv), first.value + args.value.redirs));
    }

    /** parseblock; its first panic cannot happen. */
    method Parseblock() returns (r: Result<Cmd<Span>>)
      requires Valid() && At(Tokens(), '(')
      modifies this`pos
      ensures Valid() && old(pos) <= pos
      ensures Agrees(r, Block(old(Tokens())), Tokens())
      decreases es - pos, 0
    {
      hide Lex, ShellGrammar.Line, Redirects;
      ghost var ts := Tokens();
      var _, _, _ := Gettoken();
      var inner := Parseline();
      if inner.Panic? {
        return Panic(inner.error);
      }
      var close := Peek(")");
      if !close {
        return Panic(MissingParen);
      }
      var _, _, _ := Gettoken();
      var redirs := Parseredirs();
      if redirs.Panic? {
        return Panic(redirs.error);
      }
      return Ok(Wrap(inner.value, redirs.value));
    }

    /** parsepipe */
    method Parsepipe() returns (r: Result<Cmd<Span>>)
      requires Valid()
      modifies this`pos
      ensures Valid() && old(pos) <= pos
      ensures Agrees(r, PipePart(old(Tokens())), Tokens())
      decreases es - pos, 2
    {
      hide Lex, ExecPart;
      r := Parseexec();
      if r.Panic? {
        return;
      }
      var bar := Peek("|");
      if bar {
        var _, _, _ := Gettoken();
        var right := Parsepipe();
        if right.Panic? {
          return right;
        }
        r := Ok(Pipe(r.value, right.value));
      }
    }

    /** parseline */
    method Parseline() returns (r: Result<Cmd<Span>>)
      requires Valid()
      modifies this`pos
      ensures Valid() && old(pos) <= pos
      ensures Agrees(r, ShellGrammar.Line(old(Tokens())), Tokens())
      decreases es - pos, 3
    {
      hide Lex, PipePart;
      ghost var ts := Tokens();
      r := Parsepipe();
      if r.Panic? {
        return;
      }
      var cmd := Parsebacks(r.value);
      var semi := Peek(";");
      if !semi {
        return Ok(cmd);
      }
      var _, _, _ := Gettoken();
      var right := Parseline();
      if right.Panic? {
        return right;
      }
      return Ok(List(cmd, right.value));
    }

    /** The loop of parseline. */
    method Parsebacks(c: Cmd<Span>) returns (cmd: Cmd<Span>)
      requires Valid()
      modifies this`pos
      ensures Valid() && old(pos) <= pos
      ensures Parsed(cmd, Tokens()) == Backs(c, old(Tokens()))
    {
      hide Lex;
      cmd := c;
      while true
        invariant Valid() && old(pos) <= pos && Backs(cmd, Tokens()) == Backs(c, old(Tokens()))
        decreases es - pos
      {
        var amp := Peek("&");
        if !amp {
          return;
        }
        var _, _, _ := Gettoken();
        cmd := Back(cmd);
      }
    }

    /** nulterminate */
    method Nulterminate(c: Cmd<Span>)
      requires forall e <- Ends(c) :: e < |buf|
      modifies this`buf
      ensures Nulled(old(buf), buf, Ends(c))
      decreases c
    {
      match c
      case Exec(argv) =>
        var i := 0;
        while i < |argv|
          invariant i <= |argv| && Nulled(old(buf), buf, Ends(Exec(argv[..i])))
        {
          assert argv[i].eq in Ends(c);
          assert Ends(Exec(argv[..i + 1])) == Ends(Exec(argv[..i])) + {argv[i].eq};
          buf := buf[argv[i].eq := '\0'];
          i := i + 1;
        }
        assert argv[..i] == argv;
      case Redir(d, r) =>
        assert Ends(c) == Ends(d) + {r.file.eq};
        Nulterminate(d);
        buf := buf[r.file.eq := '\0'];
      case Pipe(l, r) =>
        assert Ends(c) == Ends(l) + Ends(r);
        Nulterminate(l);
        Nulterminate(r);
      case List(l, r) =>
        assert Ends(c) == Ends(l) + Ends(r);
        Nulterminate(l);
        Nulterminate(r);
      case Back(d) =>
        assert Ends(c) == Ends(d);
        Nulterminate(d);
    }

    /** parsecmd: the tree that the grammar gives, which is the command that the line spells, or a panic if
        it spells none; and every word in it a C string of its own, however close together they stood. */
    method Parsecmd() returns (r: Result<Cmd<Span>>)
      requires Valid() && pos == 0
      modifies this`pos, this`buf
      ensures r == Parse(Lex(old(Line()), 0))
      ensures forall c :: S.Spelt(old(Line()), c) <==> r.Ok? && TextCmd(old(Line()), r.value) == c
      ensures r.Ok? ==> CmdIn(r.value, iset w | Terminated(old(Line()), buf, w))
    {
      hide Lex, ShellGrammar.Line, Ends, Nulled, Terminated, WholeWord, S.Spelt;
      ghost var s := Line();
      r := Parseall();
      forall c ensures S.Spelt(s, c) <==> r.Ok? && TextCmd(s, r.value) == c { S.ReadsIff(s, c); }
      if r.Ok? {
        LexWords(s, 0);
        LineIn(Lex(s, 0), iset w | WholeWord(s, w));
        EndsBelow(s, r.value);
        Nulterminate(r.value);
        assert s + ['\0'] == old(buf);
        AllStand(s, buf, r.value, r.value);
      }
    }

    /** parsecmd before nulterminate. */
    method Parseall() returns (r: Result<Cmd<Span>>)
      requires Valid() && pos == 0
      modifies this`pos
      ensures Valid() && buf == old(buf) && r == Parse(Lex(Line(), 0))
    {
      hide Lex, ShellGrammar.Line;
      r := Parseline();
      if r.Ok? {
        var _ := Peek("");
        AtEnd(Line(), pos);
        if pos != es {
          return Panic(Leftovers);
        }
      }
    }
  }

  // nulterminate

  /** The ends of the words of a command. */
  ghost function Ends(c: Cmd<Span>): set<nat>
  {
    match c
    case Exec(argv) => set i | 0 <= i < |argv| :: argv[i].eq
    case Redir(d, r) => Ends(d) + {r.file.eq}
    case Pipe(l, r) => Ends(l) + Ends(r)
    case List(l, r) => Ends(l) + Ends(r)
    case Back(d) => Ends(d)
  }

  /** now is was with nulls at the places in es. */
  ghost predicate Nulled(was: seq<char>, now: seq<char>, es: set<nat>)
  {
    |now| == |was| && forall k | 0 <= k < |was| :: now[k] == if k in es then '\0' else was[k]
  }

  /** The C string at q. */
  function CString(buf: seq<char>, q: nat): string
    requires q <= |buf|
    decreases |buf| - q
  {
    if q == |buf| || buf[q] == '\0' then "" else [buf[q]] + CString(buf, q + 1)
  }

  lemma {:induction false} CStringAt(buf: seq<char>, q: nat, eq: nat)
    requires q <= eq < |buf| && buf[eq] == '\0' && forall k | q <= k < eq :: buf[k] != '\0'
    ensures CString(buf, q) == buf[q..eq]
    decreases eq - q
  {
    if q < eq { CStringAt(buf, q + 1, eq); }
  }

  lemma {:induction false} EndsBelow(s: string, c: Cmd<Span>)
    requires CmdIn(c, iset v | WholeWord(s, v))
    ensures forall e <- Ends(c) :: e <= |s|
  {
    match c
    case Exec(argv) =>
    case Redir(d, r) => EndsBelow(s, d);
    case Pipe(l, r) => EndsBelow(s, l); EndsBelow(s, r);
    case List(l, r) => EndsBelow(s, l); EndsBelow(s, r);
    case Back(d) => EndsBelow(s, d);
  }

  /** The ends of whole words lie outside every whole word. */
  lemma EndOutside(s: string, w: Span, v: Span)
    requires WholeWord(s, w) && WholeWord(s, v)
    ensures !(w.q <= v.eq < w.eq)
  {
  }

  lemma {:induction false} EndsOutside(s: string, c: Cmd<Span>, w: Span)
    requires CmdIn(c, iset v | WholeWord(s, v)) && WholeWord(s, w)
    ensures forall e <- Ends(c) :: !(w.q <= e < w.eq)
  {
    match c
    case Exec(argv) =>
      forall i | 0 <= i < |argv| ensures !(w.q <= argv[i].eq < w.eq) { EndOutside(s, w, argv[i]); }
    case Redir(d, r) => EndsOutside(s, d, w); EndOutside(s, w, r.file);
    case Pipe(l, r) => EndsOutside(s, l, w); EndsOutside(s, r, w);
    case List(l, r) => EndsOutside(s, l, w); EndsOutside(s, r, w);
    case Back(d) => EndsOutside(s, d, w);
  }

  /** After nulterminate the C string at every word that was recorded is the word itself. */
  ghost predicate Terminated(s: string, buf: seq<char>, w: Span)
  {
    w.q < w.eq <= |s| && w.q <= |buf| && CString(buf, w.q) == s[w.q..w.eq]
  }

  lemma WordsStand(s: string, buf: seq<char>, c: Cmd<Span>, w: Span)
    requires '\0' !in s && Nulled(s + ['\0'], buf, Ends(c)) && CmdIn(c, iset v | WholeWord(s, v))
    requires WholeWord(s, w) && w.eq in Ends(c)
    ensures Terminated(s, buf, w)
  {
    EndsOutside(s, c, w);
    CStringAt(buf, w.q, w.eq);
    assert buf[w.q..w.eq] == s[w.q..w.eq];
  }

  lemma {:induction false} AllStand(s: string, buf: seq<char>, c: Cmd<Span>, part: Cmd<Span>)
    requires '\0' !in s && Nulled(s + ['\0'], buf, Ends(c)) && CmdIn(c, iset v | WholeWord(s, v))
    requires CmdIn(part, iset v | WholeWord(s, v)) && Ends(part) <= Ends(c)
    ensures CmdIn(part, iset v | Terminated(s, buf, v))
  {
    match part
    case Exec(argv) =>
      forall i | 0 <= i < |argv| ensures Terminated(s, buf, argv[i]) {
        assert argv[i].eq in Ends(part);
        WordsStand(s, buf, c, argv[i]);
      }
    case Redir(d, r) => AllStand(s, buf, c, d); WordsStand(s, buf, c, r.file);
    case Pipe(l, r) => AllStand(s, buf, c, l); AllStand(s, buf, c, r);
    case List(l, r) => AllStand(s, buf, c, l); AllStand(s, buf, c, r);
    case Back(d) => AllStand(s, buf, c, d);
  }

  /** The first character of a token; words begin with none of the symbols. */
  function First(t: Token<Span>): char
  {
    match t
    case Sym(c) => c
    case To(m) => if m == Read then '<' else '>'
    case Word(_) => 'a'
  }

  /** Redirections are not plain symbols. */
  predicate HeadOk(ts: seq<Token<Span>>)
  {
    ts != [] && ts[0].Sym? ==> ts[0].c in "|&;()"
  }

  predicate Starts(ts: seq<Token<Span>>, toks: string)
  {
    ts != [] && First(ts[0]) in toks
  }

  lemma FirstToken(s: string, p: nat, toks: string)
    requires p <= |s| && p == Skip(s, p) && forall c <- toks :: IsSymbol(c)
    ensures Starts(Lex(s, p), toks) <==> p < |s| && s[p] in toks
    ensures HeadOk(Lex(s, p))
  {
    if p < |s| {
      LexToken(s, p);
      assert IsWordChar(s[p]) ==> s[p] !in toks;
      assert IsWordChar('a') ==> 'a' !in toks;
    }
  }

  /** A method's result is that of the grammar, and it has left the rest. */
  ghost predicate Agrees<T(!new)>(r: Result<T>, spec: Result<Parsed<T, Span>>, now: seq<Token<Span>>)
  {
    match spec
    case Panic(e) => r == Panic(e)
    case Ok(p) => r == Ok(p.it) && now == p.rest
  }

  ghost function Prepend(acc: seq<Redirect<Span>>, r: Result<Parsed<seq<Redirect<Span>>, Span>>)
    : Result<Parsed<seq<Redirect<Span>>, Span>>
  {
    match r
    case Panic(e) => Panic(e)
    case Ok(p) => Ok(Parsed(acc + p.it, p.rest))
  }

  lemma NoRedirect(acc: seq<Redirect<Span>>, ts: seq<Token<Span>>)
    ensures ts == [] || !ts[0].To? ==> Prepend(acc, Redirects(ts)) == Ok(Parsed(acc, ts))
    ensures ts != [] && ts[0].To? && (|ts| < 2 || !ts[1].Word?) ==> Prepend(acc, Redirects(ts)) == Panic(MissingFile)
  {
    assert acc + [] == acc;
  }

  lemma OneRedirect(ts: seq<Token<Span>>)
    requires |ts| >= 2 && ts[0].To? && ts[1].Word?
    ensures Redirects(ts) == Prepend([Redirect(ts[0].mode, ts[1].w)], Redirects(ts[1..][1..]))
  {
  }

  lemma PrependNothing(r: Result<Parsed<seq<Redirect<Span>>, Span>>)
    ensures Prepend([], r) == r
  {
    if r.Ok? { assert [] + r.value.it == r.value.it; }
  }

  lemma PrependOne(acc: seq<Redirect<Span>>, d: Redirect<Span>, r: Result<Parsed<seq<Redirect<Span>>, Span>>)
    ensures Prepend(acc, Prepend([d], r)) == Prepend(acc + [d], r)
  {
    if r.Ok? { assert acc + ([d] + r.value.it) == acc + [d] + r.value.it; }
  }

  lemma AtEnd(s: string, p: nat)
    requires p <= |s| && p == Skip(s, p)
    ensures p == |s| <==> Lex(s, p) == []
  {
  }

  ghost function Extend(argv: seq<Span>, redirs: seq<Redirect<Span>>, r: Result<Parsed<Simple<Span>, Span>>)
    : Result<Parsed<Simple<Span>, Span>>
  {
    match r
    case Panic(e) => Panic(e)
    case Ok(p) => Ok(Parsed(Simple(argv + p.it.argv, redirs + p.it.redirs), p.rest))
  }

  lemma ExtendNothing(r: Result<Parsed<Simple<Span>, Span>>)
    ensures Extend([], [], r) == r
  {
    if r.Ok? { assert [] + r.value.it.argv == r.value.it.argv && [] + r.value.it.redirs == r.value.it.redirs; }
  }

  lemma NoArgument(argv: seq<Span>, redirs: seq<Redirect<Span>>, ts: seq<Token<Span>>)
    requires |argv| < MAXARGS
    ensures (Starts(ts, "|)&;") && HeadOk(ts)) || ts == [] ==>
              Extend(argv, redirs, Arguments(ts, |argv|)) == Ok(Parsed(Simple(argv, redirs), ts))
    ensures ts != [] && !Starts(ts, "|)&;") && !ts[0].Word? ==>
              Extend(argv, redirs, Arguments(ts, |argv|)) == Panic(BadToken)
    ensures ts != [] && ts[0].Word? && |argv| + 1 >= MAXARGS ==>
              Extend(argv, redirs, Arguments(ts, |argv|)) == Panic(TooManyArgs)
  {
    assert argv + [] == argv && redirs + [] == redirs;
  }

  lemma OneArgument(ts: seq<Token<Span>>, argc: nat)
    requires ts != [] && ts[0].Word? && argc + 1 < MAXARGS
    ensures Redirects(ts[1..]).Panic? ==> Arguments(ts, argc) == Panic(Redirects(ts[1..]).error)
    ensures Redirects(ts[1..]).Ok? ==>
              var p := Redirects(ts[1..]).value;
              Arguments(ts, argc) == Extend([ts[0].w], p.it, Arguments(p.rest, argc + 1))
  {
  }

  lemma ExtendTwice(a: seq<Span>, x: seq<Redirect<Span>>, b: seq<Span>, y: seq<Redirect<Span>>,
                    r: Result<Parsed<Simple<Span>, Span>>)
    ensures Extend(a, x, Extend(b, y, r)) == Extend(a + b, x + y, r)
    ensures forall e :: Extend(a, x, Panic(e)) == Panic(e)
  {
    if r.Ok? {
      assert a + (b + r.value.it.argv) == a + b + r.value.it.argv;
      assert x + (y + r.value.it.redirs) == x + y + r.value.it.redirs;
    }
  }
}
