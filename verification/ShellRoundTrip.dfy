/** A command printed as text, lexed and parsed is the same command. */
module ShellRoundTrip {

  import opened ShellGrammar
  import opened ShellLexer

  /** The characters of a word. */
  function Text(s: string, w: Span): string
  {
    if w.q <= w.eq <= |s| then s[w.q..w.eq] else ""
  }

  function TextToken(s: string, t: Token<Span>): Token<string>
  {
    match t
    case Sym(c) => Sym(c)
    case To(m) => To(m)
    case Word(w) => Word(Text(s, w))
  }

  function TextTokens(s: string, ts: seq<Token<Span>>): (us: seq<Token<string>>)
    ensures |us| == |ts| && forall i | 0 <= i < |ts| :: us[i] == TextToken(s, ts[i])
  {
    seq(|ts|, i requires 0 <= i < |ts| => TextToken(s, ts[i]))
  }

  /** The command with its words spelt out. */
  function TextCmd(s: string, c: Cmd<Span>): Cmd<string>
  {
    match c
    case Exec(argv) => Exec(seq(|argv|, i requires 0 <= i < |argv| => Text(s, argv[i])))
    case Redir(d, r) => Redir(TextCmd(s, d), Redirect(r.mode, Text(s, r.file)))
    case Pipe(l, r) => Pipe(TextCmd(s, l), TextCmd(s, r))
    case List(l, r) => List(TextCmd(s, l), TextCmd(s, r))
    case Back(d) => Back(TextCmd(s, d))
  }

  function Size<W>(c: Cmd<W>): nat
  {
    match c
    case Exec(_) => 1
    case Redir(d, _) => 1 + Size(d)
    case Pipe(l, r) => 1 + Size(l) + Size(r)
    case List(l, r) => 1 + Size(l) + Size(r)
    case Back(d) => 1 + Size(d)
  }

  lemma TextConcat(s: string, a: seq<Token<Span>>, b: seq<Token<Span>>)
    ensures TextTokens(s, a + b) == TextTokens(s, a) + TextTokens(s, b)
  {
  }

  lemma TextInParens(s: string, ts: seq<Token<Span>>)
    ensures TextTokens(s, InParens(ts)) == InParens(TextTokens(s, ts))
  {
  }

  lemma {:induction false} PrintText(s: string, c: Cmd<Span>)
    ensures Print(TextCmd(s, c)) == TextTokens(s, Print(c))
    ensures Printable(TextCmd(s, c)) <==> Printable(c)
    decreases Size(c), 1
  {
    match c
    case Exec(argv) =>
    case Redir(d, r) =>
      PrintText(s, d);
      TextInParens(s, Print(d));
      TextConcat(s, InParens(Print(d)), [To(r.mode), Word(r.file)]);
    case Pipe(l, r) => PairText(s, l, r, '|');
    case List(l, r) => PairText(s, l, r, ';');
    case Back(d) =>
      PrintText(s, d);
      TextInParens(s, Print(d));
      TextConcat(s, InParens(Print(d)), [Sym('&')]);
  }

  lemma {:induction false} PairText(s: string, l: Cmd<Span>, r: Cmd<Span>, c: char)
    ensures TextTokens(s, InParens(Print(l)) + [Sym(c)] + InParens(Print(r)))
         == InParens(Print(TextCmd(s, l))) + [Sym(c)] + InParens(Print(TextCmd(s, r)))
    ensures Printable(TextCmd(s, l)) <==> Printable(l)
    ensures Printable(TextCmd(s, r)) <==> Printable(r)
    decreases 1 + Size(l) + Size(r), 0
  {
    PrintText(s, l);
    PrintText(s, r);
    TextInParens(s, Print(l));
    TextInParens(s, Print(r));
    TextConcat(s, InParens(Print(l)), [Sym(c)]);
    TextConcat(s, InParens(Print(l)) + [Sym(c)], InParens(Print(r)));
  }

  // Where the words of a printed command stand

  function Width(ts: seq<Token<string>>): nat
  {
    |Render(ts)|
  }

  lemma RenderStep(ts: seq<Token<string>>)
    requires ts != []
    ensures Width(ts) == |Spelling(ts[0])| + 1 + Width(ts[1..])
  {
  }

  lemma PlacedStep(ts: seq<Token<string>>, p: nat)
    requires ts != []
    ensures Placed(ts, p) == [PlaceToken(ts[0], p)] + Placed(ts[1..], p + |Spelling(ts[0])| + 1)
  {
  }

  lemma Assoc<T>(a: seq<T>, b: seq<T>, c: seq<T>)
    ensures a + (b + c) == a + b + c
  {
  }

  lemma {:induction false} PlacedConcat(a: seq<Token<string>>, b: seq<Token<string>>, p: nat)
    ensures Placed(a + b, p) == Placed(a, p) + Placed(b, p + Width(a))
    decreases |a|
  {
    if a == [] {
      assert a + b == b;
    } else {
      hide *;
      var q := p + |Spelling(a[0])| + 1;
      assert (a + b)[1..] == a[1..] + b;
      PlacedStep(a + b, p);
      PlacedStep(a, p);
      RenderStep(a);
      PlacedConcat(a[1..], b, q);
      Assoc([PlaceToken(a[0], p)], Placed(a[1..], q), Placed(b, p + Width(a)));
    }
  }

  function PlaceWords(argv: seq<string>, p: nat): (us: seq<Span>)
    ensures |us| == |argv|
  {
    if argv == [] then [] else [Span(p, p + |argv[0]|)] + PlaceWords(argv[1..], p + |argv[0]| + 1)
  }

  function Place(c: Cmd<string>, p: nat): Cmd<Span>
  {
    match c
    case Exec(argv) => Exec(PlaceWords(argv, p))
    case Redir(d, r) =>
      var q := p + Width(InParens(Print(d))) + |Spelling(To(r.mode))| + 1;
      Redir(Place(d, p + 2), Redirect(r.mode, Span(q, q + |r.file|)))
    case Pipe(l, r) => Pipe(Place(l, p + 2), Place(r, p + Width(InParens(Print(l))) + 4))
    case List(l, r) => List(Place(l, p + 2), Place(r, p + Width(InParens(Print(l))) + 4))
    case Back(d) => Back(Place(d, p + 2))
  }

  lemma PlacedInParens(ts: seq<Token<string>>, p: nat)
    ensures Placed(InParens(ts), p) == InParens(Placed(ts, p + 2))
  {
    var a: seq<Token<string>> := [Sym('(')];
    var z: seq<Token<string>> := [Sym(')')];
    PlacedOne('(', p);
    PlacedOne(')', p + 2 + Width(ts));
    PlacedConcat(a, ts, p);
    PlacedConcat(a + ts, z, p);
    RenderConcat(a, ts);
  }

  lemma PlacedOne(c: char, p: nat)
    ensures Placed([Sym(c)], p) == [Sym(c)] && Width([Sym(c)]) == 2
  {
    var ts: seq<Token<string>> := [Sym(c)];
    assert ts[1..] == [];
    assert Render(ts) == [c] + " " + "";
  }

  lemma {:induction false} RenderConcat(a: seq<Token<string>>, b: seq<Token<string>>)
    ensures Render(a + b) == Render(a) + Render(b)
    decreases |a|
  {
    if a == [] {
      assert a + b == b;
    } else {
      assert (a + b)[1..] == a[1..] + b;
      RenderConcat(a[1..], b);
    }
  }

  lemma WidthConcat(a: seq<Token<string>>, b: seq<Token<string>>)
    ensures Width(a + b) == Width(a) + Width(b)
  {
    RenderConcat(a, b);
  }

  lemma {:induction false} PlacedWords(argv: seq<string>, p: nat)
    ensures Placed(Words(argv), p) == Words(PlaceWords(argv, p))
    decreases |argv|
  {
    if argv != [] {
      assert Words(argv)[1..] == Words(argv[1..]);
      PlacedWords(argv[1..], p + |argv[0]| + 1);
    }
  }

  lemma {:induction false} PrintPlace(c: Cmd<string>, p: nat)
    ensures Print(Place(c, p)) == Placed(Print(c), p)
    ensures Printable(Place(c, p)) <==> Printable(c)
    decreases Size(c), 1
  {
    hide InParens, Width, Placed, Spelling;
    match c
    case Exec(argv) => PlacedWords(argv, p);
    case Redir(d, r) =>
      PrintPlace(d, p + 2);
      PlacedInParens(Print(d), p);
      PlacedRedirect(r.mode, r.file, p + Width(InParens(Print(d))));
      PlacedConcat(InParens(Print(d)), [To(r.mode), Word(r.file)], p);
    case Pipe(l, r) => PairPlace(l, r, '|', p);
    case List(l, r) => PairPlace(l, r, ';', p);
    case Back(d) =>
      PrintPlace(d, p + 2);
      PlacedInParens(Print(d), p);
      PlacedOne('&', p + Width(InParens(Print(d))));
      PlacedConcat(InParens(Print(d)), [Sym('&')], p);
  }

  lemma PlacedRedirect(m: Mode, w: string, p: nat)
    ensures var q := p + |Spelling(To(m))| + 1;
            Placed([To(m), Word(w)], p) == [To(m), Word(Span(q, q + |w|))]
  {
  }

  lemma {:induction false} PairPlace(l: Cmd<string>, r: Cmd<string>, c: char, p: nat)
    ensures Placed(InParens(Print(l)) + [Sym(c)] + InParens(Print(r)), p)
         == InParens(Print(Place(l, p + 2))) + [Sym(c)] + InParens(Print(Place(r, p + Width(InParens(Print(l))) + 4)))
    ensures Printable(Place(l, p + 2)) <==> Printable(l)
    ensures Printable(Place(r, p + Width(InParens(Print(l))) + 4)) <==> Printable(r)
    decreases 1 + Size(l) + Size(r), 0
  {
    hide InParens, Print, Placed, Width, Render, Place, Printable;
    var a, b: seq<Token<string>> := InParens(Print(l)), [Sym(c)];
    PrintPlace(l, p + 2);
    PrintPlace(r, p + Width(a) + 4);
    PlacedInParens(Print(l), p);
    PlacedOne(c, p + Width(a));
    PlacedConcat(a, b, p);
    WidthConcat(a, b);
    PlacedInParens(Print(r), p + Width(a) + 2);
    PlacedConcat(a + b, InParens(Print(r)), p);
  }

  // The theorem

  lemma TextAt(s: string, p: nat, t: Token<string>)
    requires p + |Spelling(t)| <= |s| && s[p..p + |Spelling(t)|] == Spelling(t)
    ensures TextTokens(s, [PlaceToken(t, p)]) == [t]
  {
  }

  lemma {:induction false} TextPlaced(s: string, p: nat, ts: seq<Token<string>>)
    requires p <= |s| && s[p..] == Render(ts)
    ensures TextTokens(s, Placed(ts, p)) == ts
    decreases |ts|
  {
    hide Spelling, PlaceToken, TextToken;
    if ts != [] {
      var n := |Spelling(ts[0])|;
      Split(s, p, Spelling(ts[0]), Render(ts[1..]));
      TextPlaced(s, p + n + 1, ts[1..]);
      TextAt(s, p, ts[0]);
      TextConcat(s, [PlaceToken(ts[0], p)], Placed(ts[1..], p + n + 1));
      assert [ts[0]] + ts[1..] == ts;
    }
  }

  predicate ValidWords(c: Cmd<string>)
  {
    forall t <- Print(c) :: Lexical(t)
  }

  /** Printing a command as text, with parentheses, and parsing the text gives the command back. */
  lemma TextBack(c: Cmd<string>)
    requires Printable(c) && ValidWords(c)
    ensures var s := Render(Print(c));
            Parse(Lex(s, 0)).Ok? && TextCmd(s, Parse(Lex(s, 0)).value) == c
  {
    var s, t := Render(Print(c)), Place(c, 0);
    LexBack(Print(c));
    PrintPlace(c, 0);
    ParseBack(t);
    assert s[0..] == s;
    TextPlaced(s, 0, Print(c));
    PrintText(s, t);
    ParseBack(TextCmd(s, t));
    ParseBack(c);
  }
}
