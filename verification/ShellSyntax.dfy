/** The lines that the shell accepts, as trees of what is written: redirections before, between and after
    words, parentheses only where they stand in the line. The parser accepts exactly these lines and makes
    of each the command it means. */
module ShellSyntax {

  import opened ShellGrammar

  /** A word and the redirections after it. */
  datatype Arg<W> = Arg(w: W, redirs: seq<Redirect<W>>)

  datatype Part<W> = Plain(lead: seq<Redirect<W>>, args: seq<Arg<W>>) | Group(inner: Script<W>, redirs: seq<Redirect<W>>)

  datatype Piped<W> = Last(part: Part<W>) | Bar(part: Part<W>, more: Piped<W>)

  /** A pipeline, so many '&' after it, and perhaps a ';' and more. */
  datatype Script<W> = Final(pipe: Piped<W>, amps: nat) | Then(pipe: Piped<W>, amps: nat, more: Script<W>)

  // How a line is written

  function ShowRedirs<W>(rs: seq<Redirect<W>>): (ts: seq<Token<W>>)
  {
    if rs == [] then [] else [To(rs[0].mode), Word(rs[0].file)] + ShowRedirs(rs[1..])
  }

  function ShowArgs<W>(args: seq<Arg<W>>): (ts: seq<Token<W>>)
  {
    if args == [] then [] else [Word(args[0].w)] + ShowRedirs(args[0].redirs) + ShowArgs(args[1..])
  }

  function Amps<W>(n: nat): (ts: seq<Token<W>>)
  {
    if n == 0 then [] else [Sym('&')] + Amps(n - 1)
  }

  function ShowPart<W>(p: Part<W>): (ts: seq<Token<W>>)
  {
    match p
    case Plain(lead, args) => ShowRedirs(lead) + ShowArgs(args)
    case Group(inner, redirs) => [Sym('(')] + ShowScript(inner) + [Sym(')')] + ShowRedirs(redirs)
  }

  function ShowPiped<W>(p: Piped<W>): (ts: seq<Token<W>>)
  {
    match p
    case Last(part) => ShowPart(part)
    case Bar(part, more) => ShowPart(part) + [Sym('|')] + ShowPiped(more)
  }

  function ShowScript<W>(t: Script<W>): (ts: seq<Token<W>>)
  {
    match t
    case Final(pipe, amps) => ShowPiped(pipe) + Amps(amps)
    case Then(pipe, amps, more) => ShowPiped(pipe) + Amps(amps) + [Sym(';')] + ShowScript(more)
  }

  /** No simple command has MAXARGS words or more. */
  predicate FewPart<W>(p: Part<W>)
  {
    match p
    case Plain(_, args) => |args| < MAXARGS
    case Group(inner, _) => FewScript(inner)
  }

  predicate FewPiped<W>(p: Piped<W>)
  {
    match p
    case Last(part) => FewPart(part)
    case Bar(part, more) => FewPart(part) && FewPiped(more)
  }

  predicate FewScript<W>(t: Script<W>)
  {
    match t
    case Final(pipe, _) => FewPiped(pipe)
    case Then(pipe, _, more) => FewPiped(pipe) && FewScript(more)
  }

  // What it means

  /** A redirection further right is done first, so it is further out. */
  function Under<W>(c: Cmd<W>, rs: seq<Redirect<W>>): (d: Cmd<W>)
    decreases |rs|
  {
    if rs == [] then c else Under(Redir(c, rs[0]), rs[1..])
  }

  function Backed<W>(c: Cmd<W>, n: nat): (d: Cmd<W>)
    decreases n
  {
    if n == 0 then c else Back(Backed(c, n - 1))
  }

  function ArgWords<W>(args: seq<Arg<W>>): (ws: seq<W>)
    ensures |ws| == |args| && forall i | 0 <= i < |args| :: ws[i] == args[i].w
  {
    seq(|args|, i requires 0 <= i < |args| => args[i].w)
  }

  function ArgRedirs<W>(args: seq<Arg<W>>): (rs: seq<Redirect<W>>)
  {
    if args == [] then [] else args[0].redirs + ArgRedirs(args[1..])
  }

  function PartMeans<W>(p: Part<W>): (c: Cmd<W>)
  {
    match p
    case Plain(lead, args) => Under(Exec(ArgWords(args)), lead + ArgRedirs(args))
    case Group(inner, redirs) => Under(ScriptMeans(inner), redirs)
  }

  function PipedMeans<W>(p: Piped<W>): (c: Cmd<W>)
  {
    match p
    case Last(part) => PartMeans(part)
    case Bar(part, more) => Pipe(PartMeans(part), PipedMeans(more))
  }

  function ScriptMeans<W>(t: Script<W>): (c: Cmd<W>)
  {
    match t
    case Final(pipe, amps) => Backed(PipedMeans(pipe), amps)
    case Then(pipe, amps, more) => List(Backed(PipedMeans(pipe), amps), ScriptMeans(more))
  }

  // Sequences

  lemma Assoc<T>(a: seq<T>, b: seq<T>, c: seq<T>)
    ensures a + b + c == a + (b + c)
  {
  }

  lemma Cons<T>(x: T, s: seq<T>)
    ensures ([x] + s)[0] == x && ([x] + s)[1..] == s
  {
  }

  lemma Uncons<T>(s: seq<T>)
    requires s != []
    ensures s == [s[0]] + s[1..]
  {
  }

  lemma ShowRedirsCons<W>(r: Redirect<W>, rs: seq<Redirect<W>>)
    ensures ShowRedirs([r] + rs) == [To(r.mode), Word(r.file)] + ShowRedirs(rs)
  {
    Cons(r, rs);
  }

  lemma ShowArgsCons<W>(a: Arg<W>, args: seq<Arg<W>>)
    ensures ShowArgs([a] + args) == [Word(a.w)] + (ShowRedirs(a.redirs) + ShowArgs(args))
    ensures ArgWords([a] + args) == [a.w] + ArgWords(args) && ArgRedirs([a] + args) == a.redirs + ArgRedirs(args)
  {
    Cons(a, args);
    Assoc([Word(a.w)], ShowRedirs(a.redirs), ShowArgs(args));
  }

  // What is written is parsed

  /** Ends a simple command. */
  predicate EndsPart<W(==)>(ts: seq<Token<W>>)
  {
    ts == [] || At(ts, '|') || At(ts, ')') || At(ts, '&') || At(ts, ';')
  }

  lemma {:induction false} UnderLast<W>(c: Cmd<W>, rs: seq<Redirect<W>>)
    requires rs != []
    ensures Under(c, rs) == Redir(Under(c, rs[..|rs| - 1]), rs[|rs| - 1])
    decreases |rs|
  {
    if |rs| > 1 {
      UnderLast(Redir(c, rs[0]), rs[1..]);
      assert rs[1..][..|rs| - 2] == rs[..|rs| - 1][1..];
    }
  }

  lemma {:induction false} WrapIs<W>(c: Cmd<W>, rs: seq<Redirect<W>>)
    ensures Wrap(c, rs) == Under(c, rs)
    decreases |rs|
  {
    if rs != [] {
      WrapIs(c, rs[..|rs| - 1]);
      UnderLast(c, rs);
    }
  }

  lemma {:induction false} RedirsParsed<W>(rs: seq<Redirect<W>>, rest: seq<Token<W>>)
    requires rest == [] || !rest[0].To?
    ensures Redirects(ShowRedirs(rs) + rest) == Ok(Parsed(rs, rest))
    decreases |rs|
  {
    var ts := ShowRedirs(rs) + rest;
    if rs == [] {
      assert ts == rest;
    } else {
      assert ts[2..] == ShowRedirs(rs[1..]) + rest;
      RedirsParsed(rs[1..], rest);
      assert [rs[0]] + rs[1..] == rs;
    }
  }

  lemma ArgsStart<W>(args: seq<Arg<W>>, rest: seq<Token<W>>)
    requires EndsPart(rest)
    ensures var ts := ShowArgs(args) + rest; ts == [] || !ts[0].To?
    ensures !At(ShowArgs(args) + rest, '(')
  {
    if args == [] { assert ShowArgs(args) + rest == rest; }
  }

  lemma ArgsSplit<W>(args: seq<Arg<W>>, rest: seq<Token<W>>)
    requires args != []
    ensures var ts := ShowArgs(args) + rest;
      |ts| > 0 && ts[0] == Word(args[0].w) && ts[1..] == ShowRedirs(args[0].redirs) + (ShowArgs(args[1..]) + rest)
  {
    hide ShowArgs, ShowRedirs;
    Uncons(args);
    ShowArgsCons(args[0], args[1..]);
    var r, more := ShowRedirs(args[0].redirs), ShowArgs(args[1..]);
    Assoc([Word(args[0].w)], r + more, rest);
    Assoc(r, more, rest);
    Cons(Word(args[0].w), r + (more + rest));
  }

  lemma ArgumentsFirst<W>(ts: seq<Token<W>>, argc: nat, rs: seq<Redirect<W>>, rest: seq<Token<W>>)
    requires ts != [] && ts[0].Word? && argc + 1 < MAXARGS && Redirects(ts[1..]) == Ok(Parsed(rs, rest))
    requires Arguments(rest, argc + 1).Ok?
    ensures var q := Arguments(rest, argc + 1).value;
      Arguments(ts, argc) == Ok(Parsed(Simple([ts[0].w] + q.it.argv, rs + q.it.redirs), q.rest))
  {
  }

  lemma NoArgs<W>(rest: seq<Token<W>>, argc: nat)
    requires EndsPart(rest)
    ensures Arguments(ShowArgs<W>([]) + rest, argc) == Ok(Parsed(Simple(ArgWords<W>([]), ArgRedirs<W>([])), rest))
  {
    assert ShowArgs<W>([]) + rest == rest;
  }

  lemma {:induction false} ArgsParsed<W>(args: seq<Arg<W>>, rest: seq<Token<W>>, argc: nat)
    requires EndsPart(rest) && argc + |args| < MAXARGS
    ensures Arguments(ShowArgs(args) + rest, argc) == Ok(Parsed(Simple(ArgWords(args), ArgRedirs(args)), rest))
    decreases |args|
  {
    hide ShowArgs, ShowRedirs, Arguments, Redirects, ArgWords, ArgRedirs;
    if args == [] {
      NoArgs(rest, argc);
    } else {
      var ts, tail := ShowArgs(args) + rest, ShowArgs(args[1..]) + rest;
      ArgsSplit(args, rest);
      ArgsStart(args[1..], rest);
      RedirsParsed(args[0].redirs, tail);
      ArgsParsed(args[1..], rest, argc + 1);
      ArgumentsFirst(ts, argc, args[0].redirs, tail);
      Uncons(args);
      ShowArgsCons(args[0], args[1..]);
    }
  }

  lemma PlainParsed<W>(lead: seq<Redirect<W>>, args: seq<Arg<W>>, rest: seq<Token<W>>)
    requires EndsPart(rest) && |args| < MAXARGS
    ensures ExecPart(ShowPart(Plain(lead, args)) + rest) == Ok(Parsed(PartMeans(Plain(lead, args)), rest))
  {
    hide Arguments, ShowArgs;
    var ts, tail := ShowPart(Plain(lead, args)) + rest, ShowArgs(args) + rest;
    assert ts == ShowRedirs(lead) + tail;
    ArgsStart(args, rest);
    assert !At(ts, '(') by { if lead == [] { assert ts == tail; } }
    RedirsParsed(lead, tail);
    ArgsParsed(args, rest, 0);
    WrapIs(Exec(ArgWords(args)), lead + ArgRedirs(args));
  }

  lemma {:induction false} GroupParsed<W>(inner: Script<W>, redirs: seq<Redirect<W>>, rest: seq<Token<W>>)
    requires EndsPart(rest) && FewScript(inner)
    ensures ExecPart(ShowPart(Group(inner, redirs)) + rest) == Ok(Parsed(PartMeans(Group(inner, redirs)), rest))
    decreases Group(inner, redirs), 0
  {
    hide Line;
    var ts, tail := ShowPart(Group(inner, redirs)) + rest, ShowRedirs(redirs) + rest;
    var close := [Sym(')')] + tail;
    assert ts[1..] == ShowScript(inner) + close;
    ScriptParsed(inner, close);
    assert close[1..] == tail;
    RedirsParsed(redirs, rest);
    WrapIs(ScriptMeans(inner), redirs);
  }

  lemma {:induction false} PartParsed<W>(p: Part<W>, rest: seq<Token<W>>)
    requires EndsPart(rest) && FewPart(p)
    ensures ExecPart(ShowPart(p) + rest) == Ok(Parsed(PartMeans(p), rest))
    decreases p, 1
  {
    match p
    case Plain(lead, args) => PlainParsed(lead, args, rest);
    case Group(inner, redirs) => GroupParsed(inner, redirs, rest);
  }

  lemma {:induction false} PipedParsed<W>(p: Piped<W>, rest: seq<Token<W>>)
    requires EndsPart(rest) && !At(rest, '|') && FewPiped(p)
    ensures PipePart(ShowPiped(p) + rest) == Ok(Parsed(PipedMeans(p), rest))
    decreases p, 2
  {
    hide ExecPart;
    match p
    case Last(part) => PartParsed(part, rest);
    case Bar(part, more) =>
      var ts, tail := ShowPiped(p) + rest, [Sym('|')] + (ShowPiped(more) + rest);
      assert ts == ShowPart(part) + tail;
      PartParsed(part, tail);
      assert tail[1..] == ShowPiped(more) + rest;
      PipedParsed(more, rest);
  }

  lemma {:induction false} BackedBack<W>(c: Cmd<W>, n: nat)
    ensures Backed(Back(c), n) == Back(Backed(c, n))
    decreases n
  {
    if n > 0 { BackedBack(c, n - 1); }
  }

  lemma {:induction false} AmpsParsed<W>(c: Cmd<W>, n: nat, rest: seq<Token<W>>)
    requires !At(rest, '&')
    ensures Backs(c, Amps(n) + rest) == Parsed(Backed(c, n), rest)
    decreases n
  {
    var ts := Amps(n) + rest;
    if n == 0 {
      assert ts == rest;
    } else {
      assert ts[1..] == Amps(n - 1) + rest;
      AmpsParsed(Back(c), n - 1, rest);
      BackedBack(c, n - 1);
    }
  }

  lemma AmpsEnd<W>(n: nat, rest: seq<Token<W>>)
    requires EndsPart(rest) && !At(rest, '|')
    ensures EndsPart(Amps(n) + rest) && !At(Amps(n) + rest, '|')
  {
    if n == 0 { assert Amps(n) + rest == rest; }
  }

  /** A line that is written is parsed to what it means. */
  lemma {:induction false} ScriptParsed<W>(t: Script<W>, rest: seq<Token<W>>)
    requires EndsLine(rest) && FewScript(t)
    ensures Line(ShowScript(t) + rest) == Ok(Parsed(ScriptMeans(t), rest))
    decreases t, 3
  {
    hide PipePart;
    var ts := ShowScript(t) + rest;
    match t
    case Final(pipe, amps) =>
      assert ts == ShowPiped(pipe) + (Amps(amps) + rest);
      AmpsEnd(amps, rest);
      PipedParsed(pipe, Amps(amps) + rest);
      AmpsParsed(PipedMeans(pipe), amps, rest);
    case Then(pipe, amps, more) =>
      var tail := [Sym(';')] + (ShowScript(more) + rest);
      assert ts == ShowPiped(pipe) + (Amps(amps) + tail);
      AmpsEnd(amps, tail);
      PipedParsed(pipe, Amps(amps) + tail);
      AmpsParsed(PipedMeans(pipe), amps, tail);
      assert tail[1..] == ShowScript(more) + rest;
      ScriptParsed(more, rest);
  }

  // What is parsed was written

  lemma {:induction false} RedirsShown<W>(ts: seq<Token<W>>)
    requires Redirects(ts).Ok?
    ensures ts == ShowRedirs(Redirects(ts).value.it) + Redirects(ts).value.rest
    decreases |ts|
  {
    if |ts| > 0 && ts[0].To? {
      var r, more := Redirect(ts[0].mode, ts[1].w), Redirects(ts[2..]).value;
      RedirsShown(ts[2..]);
      assert Redirects(ts).value == Parsed([r] + more.it, more.rest);
      hide Redirects, ShowRedirs;
      ShowRedirsCons(r, more.it);
      Assoc([ts[0], ts[1]], ShowRedirs(more.it), more.rest);
      assert ts == [ts[0], ts[1]] + ts[2..];
    } else {
      assert ShowRedirs<W>([]) + ts == ts;
    }
  }

  lemma {:induction false} ArgsShown<W>(ts: seq<Token<W>>, argc: nat) returns (args: seq<Arg<W>>)
    requires Arguments(ts, argc).Ok?
    ensures var p := Arguments(ts, argc).value;
      p.it == Simple(ArgWords(args), ArgRedirs(args)) && ts == ShowArgs(args) + p.rest && EndsPart(p.rest)
    decreases |ts|
  {
    args := [];
    if ts != [] && ts[0].Word? {
      var p := Redirects(ts[1..]).value;
      var q := Arguments(p.rest, argc + 1).value;
      RedirsShown(ts[1..]);
      var more := ArgsShown(p.rest, argc + 1);
      var a := Arg(ts[0].w, p.it);
      ArgumentsFirst(ts, argc, p.it, p.rest);
      hide Arguments, Redirects, ShowRedirs, ShowArgs;
      args := [a] + more;
      ShowArgsCons(a, more);
      Uncons(ts);
      Assoc(ShowRedirs(p.it), ShowArgs(more), q.rest);
      Assoc([ts[0]], ShowRedirs(p.it) + ShowArgs(more), q.rest);
    } else {
      assert ShowArgs<W>([]) + ts == ts;
    }
  }

  lemma {:induction false} GroupShown<W>(ts: seq<Token<W>>) returns (p: Part<W>)
    requires At(ts, '(') && Block(ts).Ok?
    ensures FewPart(p) && PartMeans(p) == Block(ts).value.it && ts == ShowPart(p) + Block(ts).value.rest
    decreases |ts|, 0
  {
    var l := Line(ts[1..]).value;
    var q := Redirects(l.rest[1..]).value;
    var inner := ScriptShown(ts[1..]);
    RedirsShown(l.rest[1..]);
    WrapIs(l.it, q.it);
    hide Line, Redirects, ShowRedirs, ShowScript;
    p := Group(inner, q.it);
    Uncons(ts);
    Uncons(l.rest);
    GroupTokens(ShowScript(inner), ShowRedirs(q.it), q.rest);
  }

  lemma GroupTokens<W>(inner: seq<Token<W>>, redirs: seq<Token<W>>, rest: seq<Token<W>>)
    ensures [Sym('(')] + inner + [Sym(')')] + redirs + rest == [Sym('(')] + (inner + ([Sym(')')] + (redirs + rest)))
  {
  }

  lemma PlainShown<W>(ts: seq<Token<W>>) returns (p: Part<W>)
    requires !At(ts, '(') && ExecPart(ts).Ok?
    ensures FewPart(p) && PartMeans(p) == ExecPart(ts).value.it && ts == ShowPart(p) + ExecPart(ts).value.rest
  {
    var lead := Redirects(ts).value;
    var q := Arguments(lead.rest, 0).value;
    RedirsShown(ts);
    var args := ArgsShown(lead.rest, 0);
    WrapIs(Exec(q.it.argv), lead.it + q.it.redirs);
    hide Arguments, Redirects, ShowRedirs, ShowArgs;
    p := Plain(lead.it, args);
    Assoc(ShowRedirs(lead.it), ShowArgs(args), q.rest);
  }

  lemma {:induction false} PartShown<W>(ts: seq<Token<W>>) returns (p: Part<W>)
    requires ExecPart(ts).Ok?
    ensures FewPart(p) && PartMeans(p) == ExecPart(ts).value.it && ts == ShowPart(p) + ExecPart(ts).value.rest
    decreases |ts|, 1
  {
    hide ShowPart, PartMeans, FewPart, Block;
    if At(ts, '(') {
      p := GroupShown(ts);
    } else {
      p := PlainShown(ts);
    }
  }

  lemma {:induction false} PipedShown<W>(ts: seq<Token<W>>) returns (p: Piped<W>)
    requires PipePart(ts).Ok?
    ensures FewPiped(p) && PipedMeans(p) == PipePart(ts).value.it && ts == ShowPiped(p) + PipePart(ts).value.rest
    decreases |ts|, 2
  {
    hide ExecPart;
    var e := ExecPart(ts).value;
    var part := PartShown(ts);
    p := Last(part);
    if At(e.rest, '|') {
      var more := PipedShown(e.rest[1..]);
      p := Bar(part, more);
      assert e.rest == [Sym('|')] + e.rest[1..];
    }
  }

  lemma {:induction false} AmpsShown<W>(c: Cmd<W>, ts: seq<Token<W>>) returns (n: nat)
    ensures Backs(c, ts).it == Backed(c, n) && ts == Amps(n) + Backs(c, ts).rest
    decreases |ts|
  {
    n := 0;
    if At(ts, '&') {
      var k := AmpsShown(Back(c), ts[1..]);
      BackedBack(c, k);
      n := k + 1;
      assert ts == [Sym('&')] + ts[1..];
    }
  }

  lemma ThenTokens<W>(first: seq<Token<W>>, more: seq<Token<W>>, rest: seq<Token<W>>)
    ensures first + [Sym(';')] + more + rest == first + ([Sym(';')] + (more + rest))
  {
  }

  lemma {:induction false} ScriptShown<W>(ts: seq<Token<W>>) returns (t: Script<W>)
    requires Line(ts).Ok?
    ensures FewScript(t) && ScriptMeans(t) == Line(ts).value.it && ts == ShowScript(t) + Line(ts).value.rest
    decreases |ts|, 3
  {
    hide PipePart;
    var p := PipePart(ts).value;
    var pipe := PipedShown(ts);
    var b := Backs(p.it, p.rest);
    var amps := AmpsShown(p.it, p.rest);
    t := Final(pipe, amps);
    hide ShowPiped, PipedMeans, FewPiped, Backs, Amps, Backed;
    Assoc(ShowPiped(pipe), Amps(amps), b.rest);
    if At(b.rest, ';') {
      var more := ScriptShown(b.rest[1..]);
      t := Then(pipe, amps, more);
      Uncons(b.rest);
      ThenTokens(ShowPiped(pipe) + Amps(amps), ShowScript(more), Line(b.rest[1..]).value.rest);
    }
  }

  /** The parser accepts exactly the lines that can be written, and makes of each what it means. */
  lemma AcceptedIff<W>(ts: seq<Token<W>>, c: Cmd<W>)
    ensures Parse(ts) == Ok(c) <==> exists t :: Writes(t, ts, c)
  {
    if Parse(ts) == Ok(c) {
      var t := ScriptShown(ts);
      assert Writes(t, ts, c);
    }
    forall t | Writes(t, ts, c) ensures Parse(ts) == Ok(c) {
      ScriptParsed(t, []);
      assert ts + [] == ts;
    }
  }

  ghost predicate Writes<W>(t: Script<W>, ts: seq<Token<W>>, c: Cmd<W>)
  {
    FewScript(t) && ShowScript(t) == ts && ScriptMeans(t) == c
  }

  // Nothing of a line is lost

  /** The arguments of a command from left to right, and its redirections. */
  function ArgsOf<W>(c: Cmd<W>): (ws: seq<W>)
  {
    match c
    case Exec(argv) => argv
    case Redir(d, _) => ArgsOf(d)
    case Pipe(l, r) => ArgsOf(l) + ArgsOf(r)
    case List(l, r) => ArgsOf(l) + ArgsOf(r)
    case Back(d) => ArgsOf(d)
  }

  function RedirsOf<W>(c: Cmd<W>): (rs: seq<Redirect<W>>)
  {
    match c
    case Exec(_) => []
    case Redir(d, r) => RedirsOf(d) + [r]
    case Pipe(l, r) => RedirsOf(l) + RedirsOf(r)
    case List(l, r) => RedirsOf(l) + RedirsOf(r)
    case Back(d) => RedirsOf(d)
  }

  /** The words of a line that are not files, and its redirections, in order. */
  function LineWords<W>(ts: seq<Token<W>>): (ws: seq<W>)
    decreases |ts|
  {
    if ts == [] then []
    else if ts[0].To? && |ts| > 1 then LineWords(ts[2..])
    else (if ts[0].Word? then [ts[0].w] else []) + LineWords(ts[1..])
  }

  function LineRedirs<W>(ts: seq<Token<W>>): (rs: seq<Redirect<W>>)
    decreases |ts|
  {
    if ts == [] then []
    else if ts[0].To? && |ts| > 1 && ts[1].Word? then [Redirect(ts[0].mode, ts[1].w)] + LineRedirs(ts[2..])
    else LineRedirs(ts[1..])
  }

  /** Tokens that bring these words and redirections, whatever follows. */
  ghost predicate Brings<W(!new)>(ts: seq<Token<W>>, ws: seq<W>, rs: seq<Redirect<W>>)
  {
    forall rest :: LineWords(ts + rest) == ws + LineWords(rest) && LineRedirs(ts + rest) == rs + LineRedirs(rest)
  }

  lemma BringsBoth<W(!new)>(a: seq<Token<W>>, v: seq<W>, p: seq<Redirect<W>>, b: seq<Token<W>>, w: seq<W>, q: seq<Redirect<W>>)
    requires Brings(a, v, p) && Brings(b, w, q)
    ensures Brings(a + b, v + w, p + q)
  {
    forall rest ensures LineWords(a + b + rest) == v + w + LineWords(rest) && LineRedirs(a + b + rest) == p + q + LineRedirs(rest) {
      hide LineWords, LineRedirs;
      Assoc(a, b, rest);
      assert LineWords(a + (b + rest)) == v + LineWords(b + rest);
      Assoc(v, w, LineWords(rest));
      Assoc(p, q, LineRedirs(rest));
    }
  }

  lemma BringsNothing<W(!new)>(ts: seq<Token<W>>)
    requires ts == [] || (|ts| == 1 && ts[0].Sym?)
    ensures Brings(ts, [], [])
  {
    forall rest ensures LineWords(ts + rest) == [] + LineWords(rest) && LineRedirs(ts + rest) == [] + LineRedirs(rest) {
      if ts == [] {
        assert ts + rest == rest;
      } else {
        assert (ts + rest)[1..] == rest;
      }
    }
  }

  lemma BringsWord<W(!new)>(w: W)
    ensures Brings([Word(w)], [w], [])
  {
    var ts := [Word(w)];
    forall rest ensures LineWords(ts + rest) == [w] + LineWords(rest) && LineRedirs(ts + rest) == [] + LineRedirs(rest) {
      Cons(Word(w), rest);
    }
  }

  lemma BringsRedirect<W(!new)>(r: Redirect<W>)
    ensures Brings([To(r.mode), Word(r.file)], [], [r])
  {
    var ts := [To(r.mode), Word(r.file)];
    forall rest ensures LineWords(ts + rest) == [] + LineWords(rest) && LineRedirs(ts + rest) == [r] + LineRedirs(rest) {
      assert (ts + rest)[2..] == rest;
    }
  }

  lemma {:induction false} BringsRedirs<W(!new)>(rs: seq<Redirect<W>>)
    ensures Brings(ShowRedirs(rs), [], rs)
    decreases |rs|
  {
    if rs == [] {
      BringsNothing(ShowRedirs(rs));
    } else {
      BringsRedirs(rs[1..]);
      BringsRedirect(rs[0]);
      BringsBoth([To(rs[0].mode), Word(rs[0].file)], [], [rs[0]], ShowRedirs(rs[1..]), [], rs[1..]);
      Uncons(rs);
    }
  }

  lemma {:induction false} BringsArgs<W(!new)>(args: seq<Arg<W>>)
    ensures Brings(ShowArgs(args), ArgWords(args), ArgRedirs(args))
    decreases |args|
  {
    if args == [] {
      BringsNothing(ShowArgs(args));
    } else {
      hide Brings, ShowArgs, ShowRedirs;
      var a, more := args[0], args[1..];
      Uncons(args);
      ShowArgsCons(a, more);
      BringsArgs(more);
      BringsRedirs(a.redirs);
      BringsWord(a.w);
      BringsBoth(ShowRedirs(a.redirs), [], a.redirs, ShowArgs(more), ArgWords(more), ArgRedirs(more));
      BringsBoth([Word(a.w)], [a.w], [], ShowRedirs(a.redirs) + ShowArgs(more), [] + ArgWords(more), a.redirs + ArgRedirs(more));
      assert [] + ArgWords(more) == ArgWords(more) && [] + (a.redirs + ArgRedirs(more)) == a.redirs + ArgRedirs(more);
    }
  }

  lemma {:induction false} UnderHas<W>(c: Cmd<W>, rs: seq<Redirect<W>>)
    ensures ArgsOf(Under(c, rs)) == ArgsOf(c) && RedirsOf(Under(c, rs)) == RedirsOf(c) + rs
    decreases |rs|
  {
    if rs != [] {
      UnderHas(Redir(c, rs[0]), rs[1..]);
      Uncons(rs);
      Assoc(RedirsOf(c), [rs[0]], rs[1..]);
    }
  }

  lemma {:induction false} BackedHas<W>(c: Cmd<W>, n: nat)
    ensures ArgsOf(Backed(c, n)) == ArgsOf(c) && RedirsOf(Backed(c, n)) == RedirsOf(c)
    decreases n
  {
    if n > 0 { BackedHas(c, n - 1); }
  }

  lemma {:induction false} BringsAmps<W(!new)>(n: nat)
    ensures Brings(Amps<W>(n), [], [])
    decreases n
  {
    hide Brings;
    var amp: seq<Token<W>>, ws: seq<W>, rs: seq<Redirect<W>> := [Sym('&')], [], [];
    if n == 0 {
      BringsNothing(Amps<W>(n));
    } else {
      BringsAmps<W>(n - 1);
      BringsNothing(amp);
      BringsBoth(amp, ws, rs, Amps(n - 1), ws, rs);
      assert ws + ws == ws && rs + rs == rs && Amps<W>(n) == amp + Amps(n - 1);
    }
  }

  lemma {:induction false} BringsPart<W(!new)>(p: Part<W>)
    ensures Brings(ShowPart(p), ArgsOf(PartMeans(p)), RedirsOf(PartMeans(p)))
    decreases p, 0
  {
    hide Brings;
    match p
    case Plain(lead, args) =>
      BringsRedirs(lead);
      BringsArgs(args);
      BringsBoth(ShowRedirs(lead), [], lead, ShowArgs(args), ArgWords(args), ArgRedirs(args));
      UnderHas(Exec(ArgWords(args)), lead + ArgRedirs(args));
      assert [] + ArgWords(args) == ArgWords(args) && [] + (lead + ArgRedirs(args)) == lead + ArgRedirs(args);
    case Group(inner, redirs) => BringsGroup(inner, redirs);
  }

  lemma {:induction false} BringsGroup<W(!new)>(inner: Script<W>, redirs: seq<Redirect<W>>)
    ensures var t := Group(inner, redirs); Brings(ShowPart(t), ArgsOf(PartMeans(t)), RedirsOf(PartMeans(t)))
    decreases inner, 1
  {
    hide Brings, ShowScript, ShowRedirs;
    var c := ScriptMeans(inner);
    var ws, rs := ArgsOf(c), RedirsOf(c);
    BringsScript(inner);
    BringsRedirs(redirs);
    BringsNothing<W>([Sym('(')]);
    BringsNothing<W>([Sym(')')]);
    BringsBoth([Sym('(')], [], [], ShowScript(inner), ws, rs);
    BringsBoth([Sym('(')] + ShowScript(inner), [] + ws, [] + rs, [Sym(')')], [], []);
    BringsBoth([Sym('(')] + ShowScript(inner) + [Sym(')')], [] + ws + [], [] + rs + [], ShowRedirs(redirs), [], redirs);
    assert [] + ws + [] + [] == ws && [] + rs + [] + redirs == rs + redirs;
    UnderHas(c, redirs);
  }

  lemma {:induction false} BringsPiped<W(!new)>(p: Piped<W>)
    ensures Brings(ShowPiped(p), ArgsOf(PipedMeans(p)), RedirsOf(PipedMeans(p)))
    decreases p, 0
  {
    hide Brings, ShowPart;
    match p
    case Last(part) => BringsPart(part);
    case Bar(part, more) =>
      var c, d := PartMeans(part), PipedMeans(more);
      BringsPart(part);
      BringsPiped(more);
      BringsNothing<W>([Sym('|')]);
      BringsBoth(ShowPart(part), ArgsOf(c), RedirsOf(c), [Sym('|')], [], []);
      BringsBoth(ShowPart(part) + [Sym('|')], ArgsOf(c) + [], RedirsOf(c) + [], ShowPiped(more), ArgsOf(d), RedirsOf(d));
      assert ArgsOf(c) + [] == ArgsOf(c) && RedirsOf(c) + [] == RedirsOf(c);
  }

  lemma {:induction false} BringsBacked<W(!new)>(pipe: Piped<W>, amps: nat)
    ensures Brings(ShowPiped(pipe) + Amps(amps), ArgsOf(Backed(PipedMeans(pipe), amps)), RedirsOf(Backed(PipedMeans(pipe), amps)))
    decreases pipe, 1
  {
    hide Brings, ShowPiped, Amps;
    var c := PipedMeans(pipe);
    BringsPiped(pipe);
    BringsAmps<W>(amps);
    BringsBoth(ShowPiped(pipe), ArgsOf(c), RedirsOf(c), Amps(amps), [], []);
    BackedHas(c, amps);
    assert ArgsOf(c) + [] == ArgsOf(c) && RedirsOf(c) + [] == RedirsOf(c);
  }

  lemma {:induction false} BringsScript<W(!new)>(t: Script<W>)
    ensures Brings(ShowScript(t), ArgsOf(ScriptMeans(t)), RedirsOf(ScriptMeans(t)))
    decreases t, 0
  {
    hide Brings, ShowPiped, Amps;
    BringsBacked(t.pipe, t.amps);
    if t.Then? {
      var c, d, ts := Backed(PipedMeans(t.pipe), t.amps), ScriptMeans(t.more), ShowPiped(t.pipe) + Amps(t.amps);
      BringsScript(t.more);
      BringsNothing<W>([Sym(';')]);
      BringsBoth(ts, ArgsOf(c), RedirsOf(c), [Sym(';')], [], []);
      BringsBoth(ts + [Sym(';')], ArgsOf(c) + [], RedirsOf(c) + [], ShowScript(t.more), ArgsOf(d), RedirsOf(d));
      assert ArgsOf(c) + [] == ArgsOf(c) && RedirsOf(c) + [] == RedirsOf(c);
    }
  }

  /** The words of an accepted line other than files, in order, are the arguments of the command from left
      to right, and its redirections are those of the command. */
  lemma NothingLost<W(!new)>(ts: seq<Token<W>>)
    requires Parse(ts).Ok?
    ensures ArgsOf(Parse(ts).value) == LineWords(ts) && RedirsOf(Parse(ts).value) == LineRedirs(ts)
  {
    var t := ScriptShown(ts);
    var c := ScriptMeans(t);
    BringsScript(t);
    assert ts + [] == ts && ShowScript(t) + [] == ts;
    assert LineWords(ShowScript(t) + []) == ArgsOf(c) + LineWords<W>([]);
    assert LineRedirs(ShowScript(t) + []) == RedirsOf(c) + LineRedirs<W>([]);
  }
}
