/** The command language of user/sh.c over tokens: what each parsing function makes of a token
    sequence, and a printer that it undoes. W is what stands for a word. */
module ShellGrammar {

  const MAXARGS: nat := 10

  /** Append is ">>". */
  datatype Mode = Read | Write | Append

  datatype Token<W> = Sym(c: char) | To(mode: Mode) | Word(w: W)

  datatype Redirect<W> = Redirect(mode: Mode, file: W)

  datatype Cmd<W> =
    | Exec(argv: seq<W>)
    | Redir(cmd: Cmd<W>, r: Redirect<W>)
    | Pipe(left: Cmd<W>, right: Cmd<W>)
    | List(left: Cmd<W>, right: Cmd<W>)
    | Back(cmd: Cmd<W>)

  datatype Error = MissingFile | MissingParen | BadToken | TooManyArgs | Leftovers

  datatype Result<T> = Ok(value: T) | Panic(error: Error)

  /** What was parsed, and the tokens left. */
  datatype Parsed<T, W> = Parsed(it: T, rest: seq<Token<W>>)

  predicate At<W(==)>(ts: seq<Token<W>>, c: char)
  {
    |ts| > 0 && ts[0] == Sym(c)
  }

  /** parseredirs */
  function Redirects<W>(ts: seq<Token<W>>): (r: Result<Parsed<seq<Redirect<W>>, W>>)
    ensures r.Ok? ==> |r.value.rest| <= |ts|
    ensures r.Ok? && r.value.rest != [] ==> !r.value.rest[0].To?
    decreases |ts|
  {
    if |ts| == 0 || !ts[0].To? then Ok(Parsed([], ts))
    else if |ts| < 2 || !ts[1].Word? then Panic(MissingFile)
    else
      match Redirects(ts[2..])
      case Panic(e) => Panic(e)
      case Ok(p) => Ok(Parsed([Redirect(ts[0].mode, ts[1].w)] + p.it, p.rest))
  }

  function Wrap<W>(c: Cmd<W>, rs: seq<Redirect<W>>): (d: Cmd<W>)
    ensures Printable(d) <==> Printable(c)
    decreases |rs|
  {
    if rs == [] then c else Redir(Wrap(c, rs[..|rs| - 1]), rs[|rs| - 1])
  }

  /** The arguments and redirections of a simple command, argc arguments being known. */
  datatype Simple<W> = Simple(argv: seq<W>, redirs: seq<Redirect<W>>)

  /** The loop of parseexec. */
  function Arguments<W(==)>(ts: seq<Token<W>>, argc: nat): (r: Result<Parsed<Simple<W>, W>>)
    ensures r.Ok? ==> |r.value.rest| <= |ts| && (argc < MAXARGS ==> argc + |r.value.it.argv| < MAXARGS)
    decreases |ts|
  {
    if At(ts, '|') || At(ts, ')') || At(ts, '&') || At(ts, ';') || ts == [] then Ok(Parsed(Simple([], []), ts))
    else if !ts[0].Word? then Panic(BadToken)
    else if argc + 1 >= MAXARGS then Panic(TooManyArgs)
    else
      match Redirects(ts[1..])
      case Panic(e) => Panic(e)
      case Ok(p) =>
        match Arguments(p.rest, argc + 1)
        case Panic(e) => Panic(e)
        case Ok(q) => Ok(Parsed(Simple([ts[0].w] + q.it.argv, p.it + q.it.redirs), q.rest))
  }

  /** parseexec */
  function ExecPart<W(==)>(ts: seq<Token<W>>): (r: Result<Parsed<Cmd<W>, W>>)
    ensures r.Ok? ==> |r.value.rest| <= |ts| && Printable(r.value.it)
    decreases |ts|, 1
  {
    if At(ts, '(') then Block(ts)
    else
      match Redirects(ts)
      case Panic(e) => Panic(e)
      case Ok(p) =>
        match Arguments(p.rest, 0)
        case Panic(e) => Panic(e)
        case Ok(q) => Ok(Parsed(Wrap(Exec(q.it.argv), p.it + q.it.redirs), q.rest))
  }

  /** parseblock */
  function Block<W(==)>(ts: seq<Token<W>>): (r: Result<Parsed<Cmd<W>, W>>)
    requires At(ts, '(')
    ensures r.Ok? ==> |r.value.rest| < |ts| && Printable(r.value.it)
    decreases |ts|, 0
  {
    match Line(ts[1..])
    case Panic(e) => Panic(e)
    case Ok(p) =>
      if !At(p.rest, ')') then Panic(MissingParen)
      else
        match Redirects(p.rest[1..])
        case Panic(e) => Panic(e)
        case Ok(q) => Ok(Parsed(Wrap(p.it, q.it), q.rest))
  }

  /** parsepipe */
  function PipePart<W(==)>(ts: seq<Token<W>>): (r: Result<Parsed<Cmd<W>, W>>)
    ensures r.Ok? ==> |r.value.rest| <= |ts| && Printable(r.value.it)
    decreases |ts|, 2
  {
    match ExecPart(ts)
    case Panic(e) => Panic(e)
    case Ok(p) =>
      if !At(p.rest, '|') then Ok(p)
      else
        match PipePart(p.rest[1..])
        case Panic(e) => Panic(e)
        case Ok(q) => Ok(Parsed(Pipe(p.it, q.it), q.rest))
  }

  /** The loop of parseline. */
  function Backs<W(==)>(c: Cmd<W>, ts: seq<Token<W>>): (p: Parsed<Cmd<W>, W>)
    ensures |p.rest| <= |ts| && !At(p.rest, '&') && (Printable(p.it) <==> Printable(c))
    decreases |ts|
  {
    if At(ts, '&') then Backs(Back(c), ts[1..]) else Parsed(c, ts)
  }

  /** parseline */
  function Line<W(==)>(ts: seq<Token<W>>): (r: Result<Parsed<Cmd<W>, W>>)
    ensures r.Ok? ==> |r.value.rest| <= |ts| && Printable(r.value.it)
    decreases |ts|, 3
  {
    match PipePart(ts)
    case Panic(e) => Panic(e)
    case Ok(p) =>
      var b := Backs(p.it, p.rest);
      if !At(b.rest, ';') then Ok(b)
      else
        match Line(b.rest[1..])
        case Panic(e) => Panic(e)
        case Ok(q) => Ok(Parsed(List(b.it, q.it), q.rest))
  }

  /** parsecmd */
  function Parse<W(==)>(ts: seq<Token<W>>): (r: Result<Cmd<W>>)
  {
    match Line(ts)
    case Panic(e) => Panic(e)
    case Ok(p) => if p.rest == [] then Ok(p.it) else Panic(Leftovers)
  }

  // The printer

  /** At most MAXARGS - 1 arguments everywhere. */
  predicate Printable<W>(c: Cmd<W>)
  {
    match c
    case Exec(argv) => |argv| < MAXARGS
    case Redir(d, _) => Printable(d)
    case Pipe(l, r) => Printable(l) && Printable(r)
    case List(l, r) => Printable(l) && Printable(r)
    case Back(d) => Printable(d)
  }

  function Words<W>(argv: seq<W>): (ts: seq<Token<W>>)
    ensures |ts| == |argv| && forall i | 0 <= i < |argv| :: ts[i] == Word(argv[i])
  {
    seq(|argv|, i requires 0 <= i < |argv| => Word(argv[i]))
  }

  function InParens<W>(ts: seq<Token<W>>): seq<Token<W>>
  {
    [Sym('(')] + ts + [Sym(')')]
  }

  function Print<W>(c: Cmd<W>): seq<Token<W>>
  {
    match c
    case Exec(argv) => Words(argv)
    case Redir(d, r) => InParens(Print(d)) + [To(r.mode), Word(r.file)]
    case Pipe(l, r) => InParens(Print(l)) + [Sym('|')] + InParens(Print(r))
    case List(l, r) => InParens(Print(l)) + [Sym(';')] + InParens(Print(r))
    case Back(d) => InParens(Print(d)) + [Sym('&')]
  }

  /** Ends a line: nothing left, or a closing parenthesis. */
  predicate EndsLine<W(==)>(ts: seq<Token<W>>)
  {
    ts == [] || At(ts, ')')
  }

  lemma {:induction false} ArgumentsBack<W>(argv: seq<W>, rest: seq<Token<W>>, argc: nat)
    requires EndsLine(rest) && argc + |argv| < MAXARGS
    ensures Arguments(Words(argv) + rest, argc) == Ok(Parsed(Simple(argv, []), rest))
    decreases |argv|
  {
    var ts := Words(argv) + rest;
    if argv == [] {
      assert ts == rest;
    } else {
      var tail := Words(argv[1..]) + rest;
      assert ts[1..] == tail;
      assert Redirects(tail) == Ok(Parsed([], tail));
      ArgumentsBack(argv[1..], rest, argc + 1);
      assert [argv[0]] + argv[1..] == argv;
    }
  }

  /** A printed command in parentheses is one simple command to the parser, if no redirection
      follows. */
  lemma {:induction false} BlockBack<W>(c: Cmd<W>, rest: seq<Token<W>>)
    requires Printable(c) && (rest == [] || !rest[0].To?)
    ensures ExecPart(InParens(Print(c)) + rest) == Ok(Parsed(c, rest))
    decreases c, 1, 0
  {
    var ts := InParens(Print(c)) + rest;
    assert ts[1..] == Print(c) + ([Sym(')')] + rest);
    LineBack(c, [Sym(')')] + rest);
    assert ([Sym(')')] + rest)[1..] == rest;
    assert Wrap(c, []) == c;
  }

  lemma OnePart<W>(ts: seq<Token<W>>, c: Cmd<W>, rest: seq<Token<W>>)
    requires ExecPart(ts) == Ok(Parsed(c, rest)) && !At(rest, '|')
    ensures PipePart(ts) == Ok(Parsed(c, rest))
  {
  }

  lemma OneLine<W>(ts: seq<Token<W>>, c: Cmd<W>, rest: seq<Token<W>>)
    requires PipePart(ts) == Ok(Parsed(c, rest)) && EndsLine(rest)
    ensures Line(ts) == Ok(Parsed(c, rest))
  {
  }

  /** Parsing undoes printing. */
  lemma {:induction false} LineBack<W>(c: Cmd<W>, rest: seq<Token<W>>)
    requires Printable(c) && EndsLine(rest)
    ensures Line(Print(c) + rest) == Ok(Parsed(c, rest))
    decreases c, 0, 1
  {
    hide Line, PipePart, ExecPart;
    match c
    case Exec(argv) => ExecBack(argv, rest);
    case Redir(d, r) =>
      RedirBack(d, r, rest);
      assert Print(c) + rest == InParens(Print(d)) + ([To(r.mode), Word(r.file)] + rest);
      OnePart(Print(c) + rest, c, rest);
      OneLine(Print(c) + rest, c, rest);
    case Pipe(l, r) => PipeBack(l, r, rest);
    case List(l, r) => ListBack(l, r, rest);
    case Back(d) => BackBack(d, rest);
  }

  lemma ExecBack<W>(argv: seq<W>, rest: seq<Token<W>>)
    requires |argv| < MAXARGS && EndsLine(rest)
    ensures Line(Words(argv) + rest) == Ok(Parsed(Exec(argv), rest))
  {
    hide Line, PipePart, Arguments;
    var ts := Words(argv) + rest;
    ArgumentsBack(argv, rest, 0);
    assert Redirects(ts) == Ok(Parsed([], ts));
    assert Wrap(Exec(argv), [] + []) == Exec(argv);
    OnePart(ts, Exec(argv), rest);
    OneLine(ts, Exec(argv), rest);
  }

  lemma {:induction false} PipeBack<W>(l: Cmd<W>, r: Cmd<W>, rest: seq<Token<W>>)
    requires Printable(l) && Printable(r) && EndsLine(rest)
    ensures Line(Print(Pipe(l, r)) + rest) == Ok(Parsed(Pipe(l, r), rest))
    decreases Pipe(l, r), 0, 0
  {
    hide Line, ExecPart;
    var ts, more := Print(Pipe(l, r)) + rest, InParens(Print(r)) + rest;
    assert ts == InParens(Print(l)) + ([Sym('|')] + more);
    BlockBack(l, [Sym('|')] + more);
    assert ([Sym('|')] + more)[1..] == more;
    BlockBack(r, rest);
    OnePart(more, r, rest);
    OneLine(ts, Pipe(l, r), rest);
  }

  lemma {:induction false} ListBack<W>(l: Cmd<W>, r: Cmd<W>, rest: seq<Token<W>>)
    requires Printable(l) && Printable(r) && EndsLine(rest)
    ensures Line(Print(List(l, r)) + rest) == Ok(Parsed(List(l, r), rest))
    decreases List(l, r), 0, 0
  {
    hide PipePart, ExecPart;
    var ts, more := Print(List(l, r)) + rest, InParens(Print(r)) + rest;
    assert ts == InParens(Print(l)) + ([Sym(';')] + more);
    BlockBack(l, [Sym(';')] + more);
    OnePart(ts, l, [Sym(';')] + more);
    assert ([Sym(';')] + more)[1..] == more;
    BlockBack(r, rest);
    OnePart(more, r, rest);
    OneLine(more, r, rest);
  }

  lemma {:induction false} BackBack<W>(d: Cmd<W>, rest: seq<Token<W>>)
    requires Printable(d) && EndsLine(rest)
    ensures Line(Print(Back(d)) + rest) == Ok(Parsed(Back(d), rest))
    decreases Back(d), 0, 0
  {
    hide PipePart, ExecPart;
    var ts := Print(Back(d)) + rest;
    assert ts == InParens(Print(d)) + ([Sym('&')] + rest);
    BlockBack(d, [Sym('&')] + rest);
    OnePart(ts, d, [Sym('&')] + rest);
    assert ([Sym('&')] + rest)[1..] == rest;
    assert Backs(d, [Sym('&')] + rest) == Parsed(Back(d), rest);
  }

  lemma {:induction false} RedirBack<W>(d: Cmd<W>, r: Redirect<W>, rest: seq<Token<W>>)
    requires Printable(d) && EndsLine(rest)
    ensures ExecPart(InParens(Print(d)) + ([To(r.mode), Word(r.file)] + rest)) == Ok(Parsed(Redir(d, r), rest))
    decreases d, 1, 0
  {
    var tail := [To(r.mode), Word(r.file)] + rest;
    var ts := InParens(Print(d)) + tail;
    assert ts[1..] == Print(d) + ([Sym(')')] + tail);
    LineBack(d, [Sym(')')] + tail);
    assert ([Sym(')')] + tail)[1..] == tail;
    assert tail[2..] == rest;
    assert Redirects(rest) == Ok(Parsed([], rest));
    assert [Redirect(r.mode, r.file)] + [] == [r];
    assert Redirects(tail) == Ok(Parsed([r], rest));
    assert Wrap(d, [r]) == Redir(d, r) by { assert [r][..0] == []; }
  }

  lemma ParseBack<W>(c: Cmd<W>)
    requires Printable(c)
    ensures Parse(Print(c)) == Ok(c)
  {
    LineBack(c, []);
    assert Print(c) + [] == Print(c);
  }

  /** Whatever the parser accepts, it makes the same of when printed. */
  lemma ParseAgain<W>(ts: seq<Token<W>>)
    requires Parse(ts).Ok?
    ensures Parse(Print(Parse(ts).value)) == Parse(ts)
  {
    ParseBack(Parse(ts).value);
  }

  // Where the words of a command come from

  ghost predicate TokensIn<W>(ts: seq<Token<W>>, ws: iset<W>)
  {
    forall i | 0 <= i < |ts| && ts[i].Word? :: ts[i].w in ws
  }

  ghost predicate RedirsIn<W>(rs: seq<Redirect<W>>, ws: iset<W>)
  {
    forall i | 0 <= i < |rs| :: rs[i].file in ws
  }

  ghost predicate CmdIn<W>(c: Cmd<W>, ws: iset<W>)
  {
    match c
    case Exec(argv) => forall i | 0 <= i < |argv| :: argv[i] in ws
    case Redir(d, r) => CmdIn(d, ws) && r.file in ws
    case Pipe(l, r) => CmdIn(l, ws) && CmdIn(r, ws)
    case List(l, r) => CmdIn(l, ws) && CmdIn(r, ws)
    case Back(d) => CmdIn(d, ws)
  }

  lemma {:induction false} RedirectsIn<W>(ts: seq<Token<W>>, ws: iset<W>)
    requires TokensIn(ts, ws) && Redirects(ts).Ok?
    ensures RedirsIn(Redirects(ts).value.it, ws) && TokensIn(Redirects(ts).value.rest, ws)
    decreases |ts|
  {
    if |ts| > 0 && ts[0].To? { RedirectsIn(ts[2..], ws); }
  }

  lemma {:induction false} WrapIn<W>(c: Cmd<W>, rs: seq<Redirect<W>>, ws: iset<W>)
    requires CmdIn(c, ws) && RedirsIn(rs, ws)
    ensures CmdIn(Wrap(c, rs), ws)
    decreases |rs|
  {
    if rs != [] { WrapIn(c, rs[..|rs| - 1], ws); }
  }

  lemma {:induction false} ArgumentsIn<W>(ts: seq<Token<W>>, argc: nat, ws: iset<W>)
    requires TokensIn(ts, ws) && Arguments(ts, argc).Ok?
    ensures var p := Arguments(ts, argc).value;
            CmdIn(Exec(p.it.argv), ws) && RedirsIn(p.it.redirs, ws) && TokensIn(p.rest, ws)
    decreases |ts|
  {
    if ts != [] && ts[0].Word? {
      RedirectsIn(ts[1..], ws);
      ArgumentsIn(Redirects(ts[1..]).value.rest, argc + 1, ws);
    }
  }

  lemma {:induction false} ExecIn<W>(ts: seq<Token<W>>, ws: iset<W>)
    requires TokensIn(ts, ws) && ExecPart(ts).Ok?
    ensures CmdIn(ExecPart(ts).value.it, ws) && TokensIn(ExecPart(ts).value.rest, ws)
    decreases |ts|, 1
  {
    if At(ts, '(') {
      LineIn(ts[1..], ws);
      var p := Line(ts[1..]).value;
      RedirectsIn(p.rest[1..], ws);
      WrapIn(p.it, Redirects(p.rest[1..]).value.it, ws);
    } else {
      RedirectsIn(ts, ws);
      var p := Redirects(ts).value;
      ArgumentsIn(p.rest, 0, ws);
      var q := Arguments(p.rest, 0).value;
      WrapIn(Exec(q.it.argv), p.it + q.it.redirs, ws);
    }
  }

  lemma {:induction false} PipeIn<W>(ts: seq<Token<W>>, ws: iset<W>)
    requires TokensIn(ts, ws) && PipePart(ts).Ok?
    ensures CmdIn(PipePart(ts).value.it, ws) && TokensIn(PipePart(ts).value.rest, ws)
    decreases |ts|, 2
  {
    hide ExecPart;
    ExecIn(ts, ws);
    var p := ExecPart(ts).value;
    if At(p.rest, '|') { PipeIn(p.rest[1..], ws); }
  }

  lemma {:induction false} BacksIn<W>(c: Cmd<W>, ts: seq<Token<W>>, ws: iset<W>)
    requires CmdIn(c, ws) && TokensIn(ts, ws)
    ensures CmdIn(Backs(c, ts).it, ws) && TokensIn(Backs(c, ts).rest, ws)
    decreases |ts|
  {
    if At(ts, '&') { BacksIn(Back(c), ts[1..], ws); }
  }

  /** Every word of a parsed command is a word of the line. */
  lemma {:induction false} LineIn<W>(ts: seq<Token<W>>, ws: iset<W>)
    requires TokensIn(ts, ws) && Line(ts).Ok?
    ensures CmdIn(Line(ts).value.it, ws) && TokensIn(Line(ts).value.rest, ws)
    decreases |ts|, 3
  {
    hide PipePart;
    PipeIn(ts, ws);
    var p := PipePart(ts).value;
    BacksIn(p.it, p.rest, ws);
    var b := Backs(p.it, p.rest);
    if At(b.rest, ';') { LineIn(b.rest[1..], ws); }
  }
}
