/** The tokens of a command line, as gettoken of user/sh.c finds them. */
module ShellLexer {

  import opened ShellGrammar

  /** A word: the characters from q up to eq. */
  datatype Span = Span(q: nat, eq: nat)

  predicate IsSpace(c: char)
  {
    c in " \t\r\n\U{000b}"
  }

  predicate IsSymbol(c: char)
  {
    c in "<|>&;()"
  }

  predicate IsWordChar(c: char)
  {
    !IsSpace(c) && !IsSymbol(c)
  }

  function Skip(s: string, p: nat): (r: nat)
    requires p <= |s|
    ensures p <= r <= |s| && (r < |s| ==> !IsSpace(s[r])) && forall k | p <= k < r :: IsSpace(s[k])
    decreases |s| - p
  {
    if p < |s| && IsSpace(s[p]) then Skip(s, p + 1) else p
  }

  function WordEnd(s: string, p: nat): (r: nat)
    requires p <= |s|
    ensures p <= r <= |s| && (r < |s| ==> !IsWordChar(s[r])) && forall k | p <= k < r :: IsWordChar(s[k])
    decreases |s| - p
  {
    if p < |s| && IsWordChar(s[p]) then WordEnd(s, p + 1) else p
  }

  predicate IsAppend(s: string, p: nat)
  {
    p + 1 < |s| && s[p] == '>' && s[p + 1] == '>'
  }

  function TokenEnd(s: string, p: nat): (r: nat)
    requires p < |s| && !IsSpace(s[p])
    ensures p < r <= |s|
  {
    if IsAppend(s, p) then p + 2 else if IsSymbol(s[p]) then p + 1 else WordEnd(s, p)
  }

  function TokenAt(s: string, p: nat): Token<Span>
    requires p < |s| && !IsSpace(s[p])
  {
    if IsAppend(s, p) then To(Append)
    else if s[p] == '<' then To(Read)
    else if s[p] == '>' then To(Write)
    else if IsSymbol(s[p]) then Sym(s[p])
    else Word(Span(p, WordEnd(s, p)))
  }

  /** The tokens from p on. */
  function Lex(s: string, p: nat): seq<Token<Span>>
    requires p <= |s|
    decreases |s| - p
  {
    var b := Skip(s, p);
    if b == |s| then [] else [TokenAt(s, b)] + Lex(s, TokenEnd(s, b))
  }

  lemma {:induction false} SkipSkip(s: string, p: nat)
    requires p <= |s|
    ensures Skip(s, Skip(s, p)) == Skip(s, p)
  {
  }

  lemma LexSkip(s: string, p: nat)
    requires p <= |s|
    ensures Lex(s, Skip(s, p)) == Lex(s, p)
  {
  }

  lemma LexEnd(s: string)
    ensures Lex(s, |s|) == []
  {
  }

  lemma WordAt(s: string, p: nat)
    requires p < |s| && !IsSpace(s[p])
    ensures TokenAt(s, p).Word? ==> TokenAt(s, p) == Word(Span(p, TokenEnd(s, p)))
  {
  }

  /** A whole word of the line: it cannot be extended at its end. */
  ghost predicate WholeWord(s: string, w: Span)
  {
    && w.q < w.eq <= |s| && (forall k | w.q <= k < w.eq :: IsWordChar(s[k]))
    && (w.eq < |s| ==> !IsWordChar(s[w.eq]))
  }

  lemma {:induction false} LexWords(s: string, p: nat)
    requires p <= |s|
    ensures TokensIn(Lex(s, p), iset w | WholeWord(s, w))
    decreases |s| - p
  {
    var b := Skip(s, p);
    if b < |s| { LexWords(s, TokenEnd(s, b)); }
  }

  // Rendering

  predicate IsWord(w: string)
  {
    w != [] && forall k | 0 <= k < |w| :: IsWordChar(w[k])
  }

  function Spelling(t: Token<string>): string
  {
    match t
    case Sym(c) => [c]
    case To(m) => if m == Read then "<" else if m == Write then ">" else ">>"
    case Word(w) => w
  }

  /** Each token and a blank after it. */
  function Render(ts: seq<Token<string>>): string
  {
    if ts == [] then "" else Spelling(ts[0]) + " " + Render(ts[1..])
  }

  predicate Lexical(t: Token<string>)
  {
    match t
    case Sym(c) => c in "|&;()"
    case To(_) => true
    case Word(w) => IsWord(w)
  }

  /** The same tokens with their words where they stand in the text when the first is at p. */
  function Placed(ts: seq<Token<string>>, p: nat): (us: seq<Token<Span>>)
    ensures |us| == |ts|
  {
    if ts == [] then []
    else [PlaceToken(ts[0], p)] + Placed(ts[1..], p + |Spelling(ts[0])| + 1)
  }

  function PlaceToken(t: Token<string>, p: nat): Token<Span>
  {
    match t
    case Sym(c) => Sym(c)
    case To(m) => To(m)
    case Word(w) => Word(Span(p, p + |w|))
  }

  lemma {:induction false} WordEndAt(s: string, p: nat, e: nat)
    requires p <= e <= |s| && (forall k | p <= k < e :: IsWordChar(s[k])) && (e < |s| ==> !IsWordChar(s[e]))
    ensures WordEnd(s, p) == e
    decreases e - p
  {
    if p < e { WordEndAt(s, p + 1, e); }
  }

  /** The token that stands at p, followed by a blank. */
  lemma TokenBack(s: string, p: nat, t: Token<string>)
    requires Lexical(t) && p + |Spelling(t)| < |s| && s[p..p + |Spelling(t)|] == Spelling(t) && s[p + |Spelling(t)|] == ' '
    ensures !IsSpace(s[p]) && TokenAt(s, p) == PlaceToken(t, p) && TokenEnd(s, p) == p + |Spelling(t)|
  {
    var n := |Spelling(t)|;
    assert forall k | p <= k < p + n :: s[k] == s[p..p + n][k - p];
    if t.Word? {
      WordEndAt(s, p, p + n);
    } else if t.To? {
      assert s[p] == Spelling(t)[0];
      assert t.mode == Append ==> s[p + 1] == '>';
    } else {
      assert s[p] == t.c;
    }
  }

  lemma Split(s: string, p: nat, a: string, b: string)
    requires p <= |s| && s[p..] == a + " " + b
    ensures p + |a| < |s| && s[p..p + |a|] == a && s[p + |a|] == ' ' && s[p + |a| + 1..] == b
  {
  }

  lemma LexToken(s: string, p: nat)
    requires p < |s| && !IsSpace(s[p])
    ensures Lex(s, p) == [TokenAt(s, p)] + Lex(s, TokenEnd(s, p))
  {
  }

  lemma LexBlank(s: string, p: nat)
    requires p < |s| && s[p] == ' '
    ensures Lex(s, p) == Lex(s, p + 1)
  {
  }

  lemma {:induction false} LexFrom(s: string, p: nat, ts: seq<Token<string>>)
    requires p <= |s| && s[p..] == Render(ts) && forall t <- ts :: Lexical(t)
    ensures Lex(s, p) == Placed(ts, p)
    decreases |ts|
  {
    hide Lex, Lexical, Spelling, PlaceToken, Render, Placed;
    if ts == [] {
      LexNothing(s, p);
    } else {
      RenderFirst(ts, p);
      assert ts[0] in ts && forall t <- ts[1..] :: t in ts;
      LexFirst(s, p, ts[0], Render(ts[1..]));
      LexFrom(s, p + |Spelling(ts[0])| + 1, ts[1..]);
    }
  }

  lemma LexNothing(s: string, p: nat)
    requires p <= |s| && s[p..] == Render([])
    ensures Lex(s, p) == Placed([], p)
  {
    assert p == |s|;
  }

  lemma RenderFirst(ts: seq<Token<string>>, p: nat)
    requires ts != []
    ensures Render(ts) == Spelling(ts[0]) + " " + Render(ts[1..])
    ensures Placed(ts, p) == [PlaceToken(ts[0], p)] + Placed(ts[1..], p + |Spelling(ts[0])| + 1)
  {
  }

  /** The token at the front, and the blank after it. */
  lemma LexFirst(s: string, p: nat, t: Token<string>, rest: string)
    requires p <= |s| && s[p..] == Spelling(t) + " " + rest && Lexical(t)
    ensures p + |Spelling(t)| < |s| && s[p + |Spelling(t)| + 1..] == rest
    ensures Lex(s, p) == [PlaceToken(t, p)] + Lex(s, p + |Spelling(t)| + 1)
  {
    hide Lex, Lexical, Spelling, TokenAt, TokenEnd, PlaceToken, IsSpace;
    Split(s, p, Spelling(t), rest);
    TokenBack(s, p, t);
    LexToken(s, p);
    LexBlank(s, p + |Spelling(t)|);
  }

  /** Lexing undoes rendering. */
  lemma LexBack(ts: seq<Token<string>>)
    requires forall t <- ts :: Lexical(t)
    ensures Lex(Render(ts), 0) == Placed(ts, 0)
  {
    assert Render(ts)[0..] == Render(ts);
    LexFrom(Render(ts), 0, ts);
  }
}
