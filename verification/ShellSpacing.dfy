/** Command lines as characters, with blanks wherever they may stand or be left out: the shell reads exactly
    the lines that can be written so. */
module ShellSpacing {

  import opened ShellGrammar
  import opened ShellLexer
  import opened ShellRoundTrip
  import opened ShellSyntax

  predicate Blank(g: string)
  {
    forall k | 0 <= k < |g| :: IsSpace(g[k])
  }

  /** Two tokens that may stand side by side without a blank: not two words, and not ">" and another. */
  predicate MayTouch(t: Token<string>, u: Token<string>)
  {
    !(t.Word? && u.Word?) && !(t == To(Write) && u.To? && u.mode != Read)
  }

  /** There are blanks at least where tokens would run together. */
  predicate Spaced(ts: seq<Token<string>>, gaps: seq<string>)
  {
    && |gaps| == |ts| && (forall i | 0 <= i < |ts| :: Lexical(ts[i]) && Blank(gaps[i]))
    && forall i | 0 <= i < |ts| - 1 && gaps[i] == "" :: MayTouch(ts[i], ts[i + 1])
  }

  /** Each token and the blanks after it. */
  function Written(ts: seq<Token<string>>, gaps: seq<string>): (s: string)
    requires |gaps| == |ts|
  {
    if ts == [] then "" else Spelling(ts[0]) + gaps[0] + Written(ts[1..], gaps[1..])
  }

  lemma SpacedTail(ts: seq<Token<string>>, gaps: seq<string>)
    requires Spaced(ts, gaps) && ts != []
    ensures Spaced(ts[1..], gaps[1..]) && Lexical(ts[0]) && Blank(gaps[0])
  {
    var us, hs := ts[1..], gaps[1..];
    assert forall i | 0 <= i < |us| :: us[i] == ts[i + 1] && hs[i] == gaps[i + 1];
  }

  /** The first character of a token's spelling. */
  lemma SpellingStart(t: Token<string>)
    requires Lexical(t)
    ensures Spelling(t) != [] && !IsSpace(Spelling(t)[0]) && (IsWordChar(Spelling(t)[0]) <==> t.Word?)
    ensures Spelling(t)[0] == '>' <==> t.To? && t.mode != Read
  {
  }

  lemma WrittenStart(ts: seq<Token<string>>, gaps: seq<string>)
    requires Spaced(ts, gaps)
    ensures Written(ts, gaps) == [] <==> ts == []
    ensures ts != [] ==> Written(ts, gaps)[0] == Spelling(ts[0])[0]
  {
    if ts != [] { SpellingStart(ts[0]); }
  }

  /** What follows a token in a spaced line does not belong to it. */
  predicate Ends(t: Token<string>, after: string)
  {
    after == [] || (if t.Word? then !IsWordChar(after[0]) else t == To(Write) ==> after[0] != '>')
  }

  lemma AfterEnds(ts: seq<Token<string>>, gaps: seq<string>)
    requires Spaced(ts, gaps) && ts != []
    ensures Ends(ts[0], gaps[0] + Written(ts[1..], gaps[1..]))
  {
    hide Spelling, Lexical, Written;
    var after := gaps[0] + Written(ts[1..], gaps[1..]);
    SpacedTail(ts, gaps);
    WrittenStart(ts[1..], gaps[1..]);
    if gaps[0] != "" {
      assert after[0] == gaps[0][0];
    } else if |ts| > 1 {
      assert after == Written(ts[1..], gaps[1..]) && ts[1..][0] == ts[1] && MayTouch(ts[0], ts[1]);
      SpellingStart(ts[1]);
    }
  }

  lemma After(s: string, p: nat, a: string, b: string)
    requires p <= |s| && s[p..] == a + b
    ensures p + |a| <= |s| && s[p..p + |a|] == a && s[p + |a|..] == b
  {
  }

  lemma WordHere(s: string, p: nat, w: string, after: string)
    requires IsWord(w) && p <= |s| && s[p..] == w + after && (after == [] || !IsWordChar(after[0]))
    ensures p < |s| && !IsSpace(s[p]) && TokenAt(s, p) == Word(Span(p, p + |w|)) && TokenEnd(s, p) == p + |w|
  {
    After(s, p, w, after);
    var e := p + |w|;
    forall k | p <= k < e ensures s[k] == w[k - p] { assert s[k] == s[p..e][k - p]; }
    assert after != [] ==> s[e] == s[e..][0] == after[0];
    assert IsWordChar(s[p]);
    WordEndAt(s, p, e);
  }

  lemma SymbolHere(s: string, p: nat, t: Token<string>, after: string)
    requires Lexical(t) && !t.Word? && p <= |s| && s[p..] == Spelling(t) + after && Ends(t, after)
    ensures p < |s| && !IsSpace(s[p]) && TokenAt(s, p) == PlaceToken(t, p) && TokenEnd(s, p) == p + |Spelling(t)|
  {
    var x := Spelling(t);
    After(s, p, x, after);
    assert s[p] == s[p..][0] == x[0];
    assert |s| > p + 1 ==> s[p + 1] == s[p..][1];
  }

  /** The token that stands at p, whatever follows that does not belong to it. */
  lemma TokenHere(s: string, p: nat, t: Token<string>, after: string)
    requires Lexical(t) && p <= |s| && s[p..] == Spelling(t) + after && Ends(t, after)
    ensures p + |Spelling(t)| <= |s| && p < |s| && !IsSpace(s[p]) && s[p + |Spelling(t)|..] == after
    ensures TokenAt(s, p) == PlaceToken(t, p) && TokenEnd(s, p) == p + |Spelling(t)| && TextToken(s, TokenAt(s, p)) == t
  {
    hide TokenAt, TokenEnd, IsSpace, IsWordChar, IsWord;
    After(s, p, Spelling(t), after);
    if t.Word? {
      WordHere(s, p, t.w, after);
    } else {
      SymbolHere(s, p, t, after);
    }
  }

  lemma {:induction false} LexGap(s: string, p: nat, g: string, rest: string)
    requires p <= |s| && s[p..] == g + rest && Blank(g)
    ensures p + |g| <= |s| && s[p + |g|..] == rest && Lex(s, p) == Lex(s, p + |g|)
    decreases |g|
  {
    hide Lex, IsSpace;
    After(s, p, g, rest);
    if g != [] {
      assert s[p] == s[p..][0] == g[0];
      assert s[p + 1..] == s[p..][1..] == g[1..] + rest;
      LexGap(s, p + 1, g[1..], rest);
      SpaceLex(s, p);
    }
  }

  lemma SpaceLex(s: string, p: nat)
    requires p < |s| && IsSpace(s[p])
    ensures Lex(s, p) == Lex(s, p + 1)
  {
  }

  lemma TextFirst(s: string, t: Token<Span>, ts: seq<Token<Span>>)
    ensures TextTokens(s, [t] + ts) == [TextToken(s, t)] + TextTokens(s, ts)
  {
  }

  lemma WrittenFirst(ts: seq<Token<string>>, gaps: seq<string>)
    requires |gaps| == |ts| && ts != []
    ensures Written(ts, gaps) == Spelling(ts[0]) + (gaps[0] + Written(ts[1..], gaps[1..]))
  {
  }

  lemma LexNone(s: string, p: nat, gaps: seq<string>)
    requires p <= |s| && gaps == [] && s[p..] == Written([], gaps)
    ensures TextTokens(s, Lex(s, p)) == []
  {
    assert p == |s|;
  }

  /** Lexing a spaced line gives its tokens. */
  lemma {:induction false} LexWritten(s: string, p: nat, ts: seq<Token<string>>, gaps: seq<string>)
    requires Spaced(ts, gaps) && p <= |s| && s[p..] == Written(ts, gaps)
    ensures TextTokens(s, Lex(s, p)) == ts
    decreases |ts|
  {
    hide Lex, Lexical, Spelling, TokenAt, TokenEnd, TextToken, TextTokens, PlaceToken, Written, Ends, Blank, IsSpace;
    if ts == [] {
      LexNone(s, p, gaps);
    } else {
      var t, n, more := ts[0], |Spelling(ts[0])|, Written(ts[1..], gaps[1..]);
      WrittenFirst(ts, gaps);
      SpacedTail(ts, gaps);
      AfterEnds(ts, gaps);
      TokenHere(s, p, t, gaps[0] + more);
      LexToken(s, p);
      LexGap(s, p + n, gaps[0], more);
      LexWritten(s, p + n + |gaps[0]|, ts[1..], gaps[1..]);
      TextFirst(s, TokenAt(s, p), Lex(s, p + n));
      Uncons(ts);
    }
  }

  // Every line is a spaced line

  lemma TokenIs(s: string, p: nat)
    requires p < |s| && !IsSpace(s[p])
    ensures var t := TextToken(s, TokenAt(s, p));
      Lexical(t) && s[p..TokenEnd(s, p)] == Spelling(t) && Ends(t, s[TokenEnd(s, p)..])
  {
    var e := TokenEnd(s, p);
    assert e < |s| ==> s[e..][0] == s[e];
    assert forall k | 0 <= k < e - p :: s[p..e][k] == s[p + k];
    if IsWordChar(s[p]) {
      assert IsWord(s[p..e]);
    }
  }

  lemma LexIsNothing(s: string, gaps: seq<string>)
    requires gaps == []
    ensures TextTokens(s, Lex(s, |s|)) == [] && Spaced([], gaps) && s[|s|..] == Written([], gaps)
  {
  }

  lemma SkipsBlank(s: string, p: nat)
    requires p <= |s|
    ensures p <= Skip(s, p) <= |s| && Blank(s[p..Skip(s, p)]) && (Skip(s, p) < |s| ==> !IsSpace(s[Skip(s, p)]))
    ensures s[p..] == s[p..Skip(s, p)] + s[Skip(s, p)..]
  {
  }

  lemma {:induction false} LexIsWritten(s: string, p: nat) returns (gaps: seq<string>)
    requires p <= |s| && (p < |s| ==> !IsSpace(s[p]))
    ensures Spaced(TextTokens(s, Lex(s, p)), gaps) && s[p..] == Written(TextTokens(s, Lex(s, p)), gaps)
    decreases |s| - p
  {
    hide Lex, Skip, Lexical, Spelling, TokenAt, TokenEnd, TextToken, TextTokens, Written, Spaced, Ends, Blank, IsSpace;
    gaps := [];
    if p == |s| {
      LexIsNothing(s, gaps);
    } else {
      var e := TokenEnd(s, p);
      var b := Skip(s, e);
      LexToken(s, p);
      LexSkip(s, e);
      TokenIs(s, p);
      SkipsBlank(s, e);
      var more := LexIsWritten(s, b);
      var t, ts := TextToken(s, TokenAt(s, p)), TextTokens(s, Lex(s, b));
      TextFirst(s, TokenAt(s, p), Lex(s, b));
      gaps := [s[e..b]] + more;
      GapMore(t, s[e..b], ts, more, s[e..]);
      assert s[p..] == s[p..e] + s[e..];
    }
  }

  /** One token more in front of a spaced line. */
  lemma GapMore(t: Token<string>, g: string, ts: seq<Token<string>>, gaps: seq<string>, after: string)
    requires Lexical(t) && Blank(g) && Spaced(ts, gaps) && after == g + Written(ts, gaps) && Ends(t, after)
    ensures Spaced([t] + ts, [g] + gaps) && Written([t] + ts, [g] + gaps) == Spelling(t) + after
  {
    hide Spelling, Lexical;
    var us, hs := [t] + ts, [g] + gaps;
    assert us[1..] == ts && hs[1..] == gaps;
    assert Written(us, hs) == Spelling(t) + g + Written(ts, gaps);
    forall i | 0 <= i < |us| - 1 && hs[i] == "" ensures MayTouch(us[i], us[i + 1]) {
      if i == 0 {
        WrittenStart(ts, gaps);
        SpellingStart(ts[0]);
        assert after == Written(ts, gaps);
      } else {
        assert us[i] == ts[i - 1] && us[i + 1] == ts[i] && hs[i] == gaps[i - 1];
      }
    }
  }

  // Parsing words as places in the line and parsing them as texts is the same

  function TextRedirect(s: string, r: Redirect<Span>): Redirect<string>
  {
    Redirect(r.mode, Text(s, r.file))
  }

  function TextRedirs(s: string, rs: seq<Redirect<Span>>): (us: seq<Redirect<string>>)
    ensures |us| == |rs| && forall i | 0 <= i < |rs| :: us[i] == TextRedirect(s, rs[i])
  {
    seq(|rs|, i requires 0 <= i < |rs| => TextRedirect(s, rs[i]))
  }

  function TextWords(s: string, ws: seq<Span>): (us: seq<string>)
    ensures |us| == |ws| && forall i | 0 <= i < |ws| :: us[i] == Text(s, ws[i])
  {
    seq(|ws|, i requires 0 <= i < |ws| => Text(s, ws[i]))
  }

  lemma AtText(s: string, ts: seq<Token<Span>>, c: char)
    ensures At(TextTokens(s, ts), c) <==> At(ts, c)
  {
  }

  lemma TailText(s: string, ts: seq<Token<Span>>, k: nat)
    requires k <= |ts|
    ensures TextTokens(s, ts)[k..] == TextTokens(s, ts[k..])
  {
  }

  lemma {:induction false} RedirectsText(s: string, ts: seq<Token<Span>>)
    ensures Redirects(TextTokens(s, ts)) == match Redirects(ts)
            case Panic(e) => Panic(e)
            case Ok(p) => Ok(Parsed(TextRedirs(s, p.it), TextTokens(s, p.rest)))
    decreases |ts|
  {
    if |ts| >= 2 && ts[0].To? && ts[1].Word? {
      TailText(s, ts, 2);
      RedirectsText(s, ts[2..]);
      match Redirects(ts[2..])
      case Panic(e) =>
      case Ok(p) =>
        var r := Redirect(ts[0].mode, ts[1].w);
        assert TextRedirs(s, [r] + p.it) == [TextRedirect(s, r)] + TextRedirs(s, p.it);
    }
  }

  function TextSimple(s: string, r: Result<Parsed<Simple<Span>, Span>>): Result<Parsed<Simple<string>, string>>
  {
    match r
    case Panic(e) => Panic(e)
    case Ok(p) => Ok(Parsed(Simple(TextWords(s, p.it.argv), TextRedirs(s, p.it.redirs)), TextTokens(s, p.rest)))
  }

  lemma {:induction false} ArgumentsText(s: string, ts: seq<Token<Span>>, argc: nat)
    ensures Arguments(TextTokens(s, ts), argc) == TextSimple(s, Arguments(ts, argc))
    decreases |ts|
  {
    if !(ts != [] && ts[0].Word? && argc + 1 < MAXARGS) {
      ArgumentsTextStop(s, ts, argc);
    } else {
      hide Arguments, Redirects, TextSimple;
      TailText(s, ts, 1);
      RedirectsText(s, ts[1..]);
      match Redirects(ts[1..])
      case Panic(e) => ArgumentsTextPanic(s, ts, argc, e);
      case Ok(p) =>
        ArgumentsText(s, p.rest, argc + 1);
        ArgumentsTextStep(s, ts, argc, p);
    }
  }

  lemma ArgumentsTextPanic(s: string, ts: seq<Token<Span>>, argc: nat, e: Error)
    requires ts != [] && ts[0].Word? && argc + 1 < MAXARGS
    requires Redirects(ts[1..]) == Panic(e) && Redirects(TextTokens(s, ts)[1..]) == Panic(e)
    ensures Arguments(TextTokens(s, ts), argc) == TextSimple(s, Arguments(ts, argc))
  {
  }

  lemma ArgumentsTextStop(s: string, ts: seq<Token<Span>>, argc: nat)
    requires !(ts != [] && ts[0].Word? && argc + 1 < MAXARGS)
    ensures Arguments(TextTokens(s, ts), argc) == TextSimple(s, Arguments(ts, argc))
  {
    AtText(s, ts, '|');
    AtText(s, ts, ')');
    AtText(s, ts, '&');
    AtText(s, ts, ';');
  }

  lemma TextRedirsBoth(s: string, a: seq<Redirect<Span>>, b: seq<Redirect<Span>>)
    ensures TextRedirs(s, a + b) == TextRedirs(s, a) + TextRedirs(s, b)
  {
  }

  lemma TextWordsFirst(s: string, w: Span, ws: seq<Span>)
    ensures TextWords(s, [w] + ws) == [Text(s, w)] + TextWords(s, ws)
  {
  }

  /** What Arguments does with a word and redirections. */
  lemma ArgumentsStep<W>(ts: seq<Token<W>>, argc: nat, p: Parsed<seq<Redirect<W>>, W>)
    requires ts != [] && ts[0].Word? && argc + 1 < MAXARGS && Redirects(ts[1..]) == Ok(p)
    ensures Arguments(ts, argc) == match Arguments(p.rest, argc + 1)
            case Panic(e) => Panic(e)
            case Ok(q) => Ok(Parsed(Simple([ts[0].w] + q.it.argv, p.it + q.it.redirs), q.rest))
  {
  }

  lemma ArgumentsTextStep(s: string, ts: seq<Token<Span>>, argc: nat, p: Parsed<seq<Redirect<Span>>, Span>)
    requires ts != [] && ts[0].Word? && argc + 1 < MAXARGS && Redirects(ts[1..]) == Ok(p)
    requires Redirects(TextTokens(s, ts)[1..]) == Ok(Parsed(TextRedirs(s, p.it), TextTokens(s, p.rest)))
    requires Arguments(TextTokens(s, p.rest), argc + 1) == TextSimple(s, Arguments(p.rest, argc + 1))
    ensures Arguments(TextTokens(s, ts), argc) == TextSimple(s, Arguments(ts, argc))
  {
    hide Redirects, Arguments, TextRedirs, TextWords, Text;
    var us := TextTokens(s, ts);
    assert us[0] == Word(Text(s, ts[0].w));
    ArgumentsStep(ts, argc, p);
    ArgumentsStep(us, argc, Parsed(TextRedirs(s, p.it), TextTokens(s, p.rest)));
    match Arguments(p.rest, argc + 1)
    case Panic(e) =>
    case Ok(q) =>
      TextWordsFirst(s, ts[0].w, q.it.argv);
      TextRedirsBoth(s, p.it, q.it.redirs);
  }

  lemma {:induction false} WrapText(s: string, c: Cmd<Span>, rs: seq<Redirect<Span>>)
    ensures TextCmd(s, Wrap(c, rs)) == Wrap(TextCmd(s, c), TextRedirs(s, rs))
    decreases |rs|
  {
    if rs != [] {
      WrapText(s, c, rs[..|rs| - 1]);
      assert TextRedirs(s, rs)[..|rs| - 1] == TextRedirs(s, rs[..|rs| - 1]);
    }
  }

  function TextParsed(s: string, r: Result<Parsed<Cmd<Span>, Span>>): Result<Parsed<Cmd<string>, string>>
  {
    match r
    case Panic(e) => Panic(e)
    case Ok(p) => Ok(Parsed(TextCmd(s, p.it), TextTokens(s, p.rest)))
  }

  lemma {:induction false} ExecText(s: string, ts: seq<Token<Span>>)
    ensures ExecPart(TextTokens(s, ts)) == TextParsed(s, ExecPart(ts))
    decreases |ts|, 1
  {
    AtText(s, ts, '(');
    if At(ts, '(') {
      BlockText(s, ts);
    } else {
      PlainText(s, ts);
    }
  }

  /** What ExecPart does with redirections and arguments. */
  lemma ExecStep<W>(ts: seq<Token<W>>, p: Parsed<seq<Redirect<W>>, W>)
    requires !At(ts, '(') && Redirects(ts) == Ok(p)
    ensures ExecPart(ts) == match Arguments(p.rest, 0)
            case Panic(e) => Panic(e)
            case Ok(q) => Ok(Parsed(Wrap(Exec(q.it.argv), p.it + q.it.redirs), q.rest))
  {
  }

  lemma ExecWords(s: string, argv: seq<Span>)
    ensures TextCmd(s, Exec(argv)) == Exec(TextWords(s, argv))
  {
    assert seq(|argv|, i requires 0 <= i < |argv| => Text(s, argv[i])) == TextWords(s, argv);
  }

  lemma PlainText(s: string, ts: seq<Token<Span>>)
    requires !At(ts, '(')
    ensures ExecPart(TextTokens(s, ts)) == TextParsed(s, ExecPart(ts))
  {
    AtText(s, ts, '(');
    RedirectsText(s, ts);
    match Redirects(ts)
    case Panic(e) =>
    case Ok(p) =>
      hide Redirects, Arguments, ExecPart, TextCmd, TextRedirs, TextWords, Wrap;
      ArgumentsText(s, p.rest, 0);
      ExecStep(ts, p);
      ExecStep(TextTokens(s, ts), Parsed(TextRedirs(s, p.it), TextTokens(s, p.rest)));
      match Arguments(p.rest, 0) {
        case Panic(e) =>
        case Ok(q) =>
          WrapText(s, Exec(q.it.argv), p.it + q.it.redirs);
          TextRedirsBoth(s, p.it, q.it.redirs);
          ExecWords(s, q.it.argv);
      }
  }

  lemma {:induction false} BlockText(s: string, ts: seq<Token<Span>>)
    requires At(ts, '(')
    ensures At(TextTokens(s, ts), '(') && Block(TextTokens(s, ts)) == TextParsed(s, Block(ts))
    decreases |ts|, 0
  {
    hide Line, Redirects;
    TailText(s, ts, 1);
    LineText(s, ts[1..]);
    match Line(ts[1..])
    case Panic(e) =>
    case Ok(p) =>
      AtText(s, p.rest, ')');
      if At(p.rest, ')') {
        TailText(s, p.rest, 1);
        RedirectsText(s, p.rest[1..]);
        match Redirects(p.rest[1..])
        case Panic(e) =>
        case Ok(q) => WrapText(s, p.it, q.it);
      }
  }

  lemma {:induction false} PipeText(s: string, ts: seq<Token<Span>>)
    ensures PipePart(TextTokens(s, ts)) == TextParsed(s, PipePart(ts))
    decreases |ts|, 2
  {
    hide ExecPart;
    ExecText(s, ts);
    match ExecPart(ts)
    case Panic(e) =>
    case Ok(p) =>
      AtText(s, p.rest, '|');
      if At(p.rest, '|') {
        TailText(s, p.rest, 1);
        PipeText(s, p.rest[1..]);
      }
  }

  lemma {:induction false} BacksText(s: string, c: Cmd<Span>, ts: seq<Token<Span>>)
    ensures Backs(TextCmd(s, c), TextTokens(s, ts)) == Parsed(TextCmd(s, Backs(c, ts).it), TextTokens(s, Backs(c, ts).rest))
    decreases |ts|
  {
    AtText(s, ts, '&');
    if At(ts, '&') {
      TailText(s, ts, 1);
      BacksText(s, Back(c), ts[1..]);
    }
  }

  lemma {:induction false} LineText(s: string, ts: seq<Token<Span>>)
    ensures Line(TextTokens(s, ts)) == TextParsed(s, Line(ts))
    decreases |ts|, 3
  {
    hide PipePart;
    PipeText(s, ts);
    match PipePart(ts)
    case Panic(e) =>
    case Ok(p) =>
      BacksText(s, p.it, p.rest);
      var b := Backs(p.it, p.rest);
      AtText(s, b.rest, ';');
      if At(b.rest, ';') {
        TailText(s, b.rest, 1);
        LineText(s, b.rest[1..]);
      }
  }

  /** The command that the shell reads in a line, with its words as texts. */
  function Reads(s: string): (r: Result<Cmd<string>>)
  {
    match Parse(Lex(s, 0))
    case Panic(e) => Panic(e)
    case Ok(c) => Ok(TextCmd(s, c))
  }

  lemma ReadsIs(s: string)
    ensures Reads(s) == Parse(TextTokens(s, Lex(s, 0)))
  {
    LineText(s, Lex(s, 0));
  }

  /** How the characters of a line come to mean a command: blanks, the tokens of a line that can be
      written, and blanks after each. */
  ghost predicate Spells(s: string, lead: string, t: Script<string>, gaps: seq<string>, c: Cmd<string>)
  {
    && FewScript(t) && ScriptMeans(t) == c && Blank(lead) && Spaced(ShowScript(t), gaps)
    && s == lead + Written(ShowScript(t), gaps)
  }

  ghost predicate Spelt(s: string, c: Cmd<string>)
  {
    exists lead, t, gaps :: Spells(s, lead, t, gaps, c)
  }

  /** The shell reads a command in exactly the lines that spell it. */
  lemma ReadsIff(s: string, c: Cmd<string>)
    ensures Reads(s) == Ok(c) <==> Spelt(s, c)
  {
    ReadsIs(s);
    if Reads(s) == Ok(c) {
      var t, lead, gaps := SpelledOut(s, c);
    }
    forall lead, t, gaps | Spells(s, lead, t, gaps, c) ensures Reads(s) == Ok(c) {
      SpeltRead(s, lead, t, gaps, c);
    }
  }

  lemma SpelledOut(s: string, c: Cmd<string>) returns (t: Script<string>, lead: string, gaps: seq<string>)
    requires Parse(TextTokens(s, Lex(s, 0))) == Ok(c)
    ensures Spells(s, lead, t, gaps, c)
  {
    hide Lex, Skip, Spaced, Written, Parse, ShowScript, ScriptMeans, FewScript, TextTokens, Blank;
    var b, ts := Skip(s, 0), TextTokens(s, Lex(s, 0));
    SkipsBlank(s, 0);
    LexSkip(s, 0);
    gaps := LexIsWritten(s, b);
    AcceptedIff(ts, c);
    t :| Writes(t, ts, c);
    lead := s[..b];
    assert s[0..b] == lead && s[0..] == s;
  }

  lemma SpeltRead(s: string, lead: string, t: Script<string>, gaps: seq<string>, c: Cmd<string>)
    requires Spells(s, lead, t, gaps, c)
    ensures Reads(s) == Ok(c)
  {
    assert s[0..] == lead + Written(ShowScript(t), gaps);
    LexGap(s, 0, lead, Written(ShowScript(t), gaps));
    LexWritten(s, |lead|, ShowScript(t), gaps);
    ReadsIs(s);
    AcceptedIff(ShowScript(t), c);
    assert Writes(t, ShowScript(t), c);
  }
}
