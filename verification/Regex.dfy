/** The matcher of user/grep.c. Patterns and texts are C strings, so they hold no NUL. */
module Regex {

  /** One element of a pattern: a character or '.', once or starred. */
  datatype Atom = One(c: char) | Star(c: char)

  /** What a pattern without its leading '^' stands for: atoms, and whether a final '$' anchors it. */
  datatype Pattern = Pattern(atoms: seq<Atom>, atEnd: bool)

  predicate Fits(c: char, x: char) { c == '.' || c == x }

  function Compile(re: string): (p: Pattern)
  {
    if re == [] then Pattern([], false)
    else if |re| >= 2 && re[1] == '*' then
      var rest := Compile(re[2..]);
      rest.(atoms := [Star(re[0])] + rest.atoms)
    else if re == "$" then Pattern([], true)
    else
      var rest := Compile(re[1..]);
      rest.(atoms := [One(re[0])] + rest.atoms)
  }

  // A pattern as text

  function ShowAtoms(atoms: seq<Atom>): (s: string)
  {
    if atoms == [] then [] else [atoms[0].c] + (if atoms[0].Star? then "*" else "") + ShowAtoms(atoms[1..])
  }

  /** A character stands for itself, a star for any number of the character before it, and a final '$'
      for the end of the text. */
  function Show(p: Pattern): (s: string)
  {
    ShowAtoms(p.atoms) + if p.atEnd then "$" else ""
  }

  /** The text says what the pattern is: no plain character is followed by a '*' of the next atom, and a
      final '$' is not meant to be one. */
  predicate Unambiguous(p: Pattern)
  {
    && (forall i | 0 <= i < |p.atoms| - 1 && p.atoms[i].One? :: p.atoms[i + 1].c != '*')
    && (p.atEnd || p.atoms == [] || p.atoms[|p.atoms| - 1] != One('$'))
  }

  lemma UnambiguousTail(p: Pattern)
    requires Unambiguous(p) && p.atoms != []
    ensures Unambiguous(p.(atoms := p.atoms[1..]))
  {
    var q := p.(atoms := p.atoms[1..]);
    assert forall i | 0 <= i < |q.atoms| :: q.atoms[i] == p.atoms[i + 1];
  }

  lemma ShowFirst(p: Pattern)
    requires p.atoms != []
    ensures Show(p) == [p.atoms[0].c] + (if p.atoms[0].Star? then "*" else "") + Show(p.(atoms := p.atoms[1..]))
  {
  }

  /** Compiling the text of a pattern gives the pattern back. */
  lemma {:induction false} CompileShown(p: Pattern)
    requires Unambiguous(p)
    ensures Compile(Show(p)) == p
    decreases |p.atoms|
  {
    if p.atoms == [] {
      assert Show(p) == if p.atEnd then "$" else "";
    } else {
      var a, q := p.atoms[0], p.(atoms := p.atoms[1..]);
      UnambiguousTail(p);
      ShowFirst(p);
      CompileShown(q);
      assert [a] + q.atoms == p.atoms;
      if a.Star? {
        assert Show(p)[2..] == Show(q);
      } else {
        assert Show(p)[1..] == Show(q);
        assert Show(q) != [] ==> Show(q)[0] != '*' by { ShowStart(p, q); }
        assert a.c == '$' ==> Show(q) != [];
      }
    }
  }

  lemma ShowStart(p: Pattern, q: Pattern)
    requires Unambiguous(p) && p.atoms != [] && p.atoms[0].One? && q == p.(atoms := p.atoms[1..])
    ensures Show(q) != [] ==> Show(q)[0] != '*'
  {
    if q.atoms != [] {
      ShowFirst(q);
      assert q.atoms[0] == p.atoms[1];
    }
  }

  lemma UnambiguousMore(a: Atom, q: Pattern)
    requires Unambiguous(q) && (a.One? && q.atoms != [] ==> q.atoms[0].c != '*')
    requires a == One('$') && q.atoms == [] ==> q.atEnd
    ensures Unambiguous(Pattern([a] + q.atoms, q.atEnd))
  {
    var p := Pattern([a] + q.atoms, q.atEnd);
    forall i | 0 <= i < |p.atoms| - 1 && p.atoms[i].One? ensures p.atoms[i + 1].c != '*' {
      assert p.atoms[i + 1] == q.atoms[i] && (i > 0 ==> p.atoms[i] == q.atoms[i - 1]);
    }
  }

  lemma ShowMore(a: Atom, q: Pattern)
    ensures Show(Pattern([a] + q.atoms, q.atEnd)) == [a.c] + (if a.Star? then "*" else "") + Show(q)
  {
    ShowFirst(Pattern([a] + q.atoms, q.atEnd));
    assert ([a] + q.atoms)[1..] == q.atoms;
  }

  lemma ShowHead(q: Pattern)
    ensures q.atoms != [] ==> Show(q) != [] && Show(q)[0] == q.atoms[0].c
    ensures Show(q) == [] <==> q.atoms == [] && !q.atEnd
  {
    if q.atoms != [] { ShowFirst(q); }
  }

  /** And every string is the text of what it compiles to. */
  lemma {:induction false} ShowCompiled(re: string)
    ensures Show(Compile(re)) == re && Unambiguous(Compile(re))
    decreases |re|
  {
    if re == [] || re == "$" {
      assert ShowAtoms([]) == [];
    } else {
      hide Show, Unambiguous;
      var star := |re| >= 2 && re[1] == '*';
      var rest := re[if star then 2 else 1..];
      var a, q := if star then Star(re[0]) else One(re[0]), Compile(rest);
      ShowCompiled(rest);
      ShowHead(q);
      ShowMore(a, q);
      assert re == [re[0]] + (if star then "*" else "") + rest;
      UnambiguousMore(a, q);
    }
  }

  /** A pattern can be written exactly if its text is unambiguous. */
  lemma CompileShownIff(p: Pattern)
    ensures Compile(Show(p)) == p <==> Unambiguous(p)
  {
    if Unambiguous(p) {
      CompileShown(p);
    }
    ShowCompiled(Show(p));
  }

  // What patterns mean

  /** s is a concatenation of one piece per atom: a fitting character, or any number of them. */
  ghost predicate InLanguage(atoms: seq<Atom>, s: string)
    decreases |atoms|
  {
    if atoms == [] then s == []
    else match atoms[0]
      case One(c) => s != [] && Fits(c, s[0]) && InLanguage(atoms[1..], s[1..])
      case Star(c) => exists k :: StarSplit(atoms, c, s, k)
  }

  ghost predicate StarSplit(atoms: seq<Atom>, c: char, s: string, k: int)
    requires atoms != []
    decreases |atoms|, 0
  {
    0 <= k <= |s| && (forall i | 0 <= i < k :: Fits(c, s[i])) && InLanguage(atoms[1..], s[k..])
  }

  /** A stretch of text from position i to j is in the language, up to the end of text if anchored. */
  ghost predicate Accepts(p: Pattern, text: string, i: int, j: int)
  {
    0 <= i <= j <= |text| && InLanguage(p.atoms, text[i..j]) && (p.atEnd ==> j == |text|)
  }

  ghost predicate AcceptsHere(p: Pattern, text: string)
  {
    exists j :: Accepts(p, text, 0, j)
  }

  /** What match() decides: some stretch of the text, at its beginning after '^', is accepted. */
  ghost predicate Matches(re: string, text: string)
  {
    if re != [] && re[0] == '^' then AcceptsHere(Compile(re[1..]), text)
    else exists i, j :: Accepts(Compile(re), text, i, j)
  }

  lemma OneHere(c: char, q: Pattern, text: string)
    ensures AcceptsHere(Pattern([One(c)] + q.atoms, q.atEnd), text) <==>
            text != [] && Fits(c, text[0]) && AcceptsHere(q, text[1..])
  {
    var p := Pattern([One(c)] + q.atoms, q.atEnd);
    assert p.atoms[1..] == q.atoms;
    if AcceptsHere(p, text) {
      var j :| Accepts(p, text, 0, j);
      assert text[0..j][1..] == text[1..][0..j - 1];
      assert Accepts(q, text[1..], 0, j - 1);
    }
    if text != [] && Fits(c, text[0]) && AcceptsHere(q, text[1..]) {
      var j :| Accepts(q, text[1..], 0, j);
      assert text[0..j + 1][1..] == text[1..][0..j];
      assert Accepts(p, text, 0, j + 1);
    }
  }

  /** k characters that fit c, and then the rest of the pattern. */
  ghost predicate AfterStar(c: char, q: Pattern, text: string, k: int)
  {
    0 <= k <= |text| && (forall i | 0 <= i < k :: Fits(c, text[i])) && AcceptsHere(q, text[k..])
  }

  lemma StarHere(c: char, q: Pattern, text: string)
    ensures AcceptsHere(Pattern([Star(c)] + q.atoms, q.atEnd), text) <==> exists k :: AfterStar(c, q, text, k)
  {
    var p := Pattern([Star(c)] + q.atoms, q.atEnd);
    assert p.atoms[1..] == q.atoms;
    if AcceptsHere(p, text) {
      var j :| Accepts(p, text, 0, j);
      assert InLanguage(p.atoms, text[0..j]);
      var k :| StarSplit(p.atoms, c, text[0..j], k);
      assert text[0..j][k..] == text[k..][0..j - k];
      assert Accepts(q, text[k..], 0, j - k);
      assert AfterStar(c, q, text, k);
    }
    if k :| AfterStar(c, q, text, k) {
      var j :| Accepts(q, text[k..], 0, j);
      assert text[0..k + j][k..] == text[k..][0..j];
      assert StarSplit(p.atoms, c, text[0..k + j], k);
      assert Accepts(p, text, 0, k + j);
    }
  }

  /** matchhere: search for re at the beginning of text. */
  method MatchHere(re: string, text: string) returns (r: bool)
    ensures r <==> AcceptsHere(Compile(re), text)
    decreases |re|, 1
  {
    var p := Compile(re);
    if re == [] {
      assert Accepts(p, text, 0, 0);
      return true;
    }
    if |re| >= 2 && re[1] == '*' {
      var rest := Compile(re[2..]);
      StarHere(re[0], rest, text);
      r := MatchStar(re[0], re[2..], text, rest);
      return;
    }
    if re[0] == '$' && |re| == 1 {
      assert Accepts(p, text, 0, |text|) <==> text == [];
      return text == [];
    }
    OneHere(re[0], Compile(re[1..]), text);
    if text != [] && (re[0] == '.' || re[0] == text[0]) {
      r := MatchHere(re[1..], text[1..]);
      return;
    }
    return false;
  }

  /** matchstar: search for c*re at the beginning of text. */
  method MatchStar(c: char, re: string, text: string, ghost q: Pattern) returns (r: bool)
    requires q == Compile(re)
    ensures r <==> exists k :: AfterStar(c, q, text, k)
    decreases |re|, 2
  {
    var t := 0;
    while true
      invariant 0 <= t <= |text|
      invariant forall i | 0 <= i < t :: Fits(c, text[i])
      invariant forall k | 0 <= k < t :: !AcceptsHere(q, text[k..])
      decreases |text| - t
    {
      var here := MatchHere(re, text[t..]);
      if here {
        assert AfterStar(c, q, text, t);
        return true;
      }
      if t < |text| && (text[t] == c || c == '.') {
        t := t + 1;
      } else {
        return false;
      }
    }
  }

  /** match: search for re anywhere in text. */
  method Match(re: string, text: string) returns (r: bool)
    ensures r <==> Matches(re, text)
  {
    if re != [] && re[0] == '^' {
      r := MatchHere(re[1..], text);
      return;
    }
    var p := Compile(re);
    var t := 0;
    while true
      invariant 0 <= t <= |text|
      invariant forall i, j | 0 <= i < t :: !Accepts(p, text, i, j)
      decreases |text| - t
    {
      var here := MatchHere(re, text[t..]);
      HereIsThere(p, text, t);
      if here {
        return true;
      }
      if t == |text| {
        return false;
      }
      t := t + 1;
    }
  }

  lemma HereIsThere(p: Pattern, text: string, i: nat)
    requires i <= |text|
    ensures AcceptsHere(p, text[i..]) <==> exists j :: Accepts(p, text, i, j)
  {
    if AcceptsHere(p, text[i..]) {
      var j :| Accepts(p, text[i..], 0, j);
      assert text[i..][0..j] == text[i..i + j];
      assert Accepts(p, text, i, i + j);
    }
    if j :| Accepts(p, text, i, j) {
      assert text[i..][0..j - i] == text[i..j];
      assert Accepts(p, text[i..], 0, j - i);
    }
  }

  // Laws of grep, in terms of texts alone

  /** A pattern of plain characters is found exactly in the texts that contain it. */
  lemma LiteralFound(re: string, text: string)
    requires forall k | 0 <= k < |re| :: re[k] !in "^.*$"
    ensures Matches(re, text) <==> exists i, j :: 0 <= i <= j <= |text| && text[i..j] == re
  {
    var p := Compile(re);
    forall i, j | 0 <= i <= j <= |text| ensures Accepts(p, text, i, j) <==> text[i..j] == re {
      LiteralIs(re, text[i..j]);
    }
    if i, j :| Accepts(p, text, i, j) {
      assert text[i..j] == re;
    }
    if i, j :| 0 <= i <= j <= |text| && text[i..j] == re {
      assert Accepts(p, text, i, j);
    }
  }

  lemma {:induction false} LiteralIs(re: string, s: string)
    requires forall k | 0 <= k < |re| :: re[k] !in "^.*$"
    ensures !Compile(re).atEnd && (InLanguage(Compile(re).atoms, s) <==> s == re)
    decreases |re|
  {
    if re != [] {
      assert Compile(re).atoms[1..] == Compile(re[1..]).atoms;
      assert forall k | 0 <= k < |re[1..]| :: re[1..][k] == re[k + 1];
      LiteralIs(re[1..], if s == [] then s else s[1..]);
      if s != [] {
        assert s == [s[0]] + s[1..] && re == [re[0]] + re[1..];
      }
    }
  }

  /** '^' and '$' around a pattern make it match the whole text, '.' any character, and a star any
      number of them. */
  lemma WholeText(c: char, text: string)
    requires c !in "^.*$"
    ensures Matches(['^', c, '*', '$'], text) <==> forall k | 0 <= k < |text| :: text[k] == c
    ensures Matches("^.*$", text)
    ensures Matches(".", text) <==> text != []
    ensures Matches("^$", text) <==> text == []
  {
    StarredText(c, text);
    StarredText('.', text);
    assert ['^', '.', '*', '$'] == "^.*$";
    DotText(text);
    EmptyText(text);
  }

  lemma StarredText(c: char, text: string)
    ensures Matches(['^', c, '*', '$'], text) <==> forall k | 0 <= k < |text| :: Fits(c, text[k])
  {
    var re := [c, '*', '$'];
    assert ['^', c, '*', '$'][1..] == re && re[2..] == "$";
    var q := Compile("$");
    assert Compile(re) == Pattern([Star(c)] + q.atoms, q.atEnd);
    StarHere(c, q, text);
    forall k | 0 <= k <= |text| ensures AcceptsHere(q, text[k..]) <==> k == |text| {
      if k == |text| { assert Accepts(q, text[k..], 0, 0); }
    }
    if forall k | 0 <= k < |text| :: Fits(c, text[k]) {
      assert AfterStar(c, q, text, |text|);
    }
  }

  lemma DotText(text: string)
    ensures Matches(".", text) <==> text != []
  {
    var p := Compile(".");
    assert "."[1..] == "" && p == Pattern([One('.')] + [], false);
    if text != [] {
      assert text[0..1][1..] == [];
      assert p.atoms[1..] == [];
      assert Accepts(p, text, 0, 1);
    }
  }

  lemma EmptyText(text: string)
    ensures Matches("^$", text) <==> text == []
  {
    assert "^$"[1..] == "$";
    var p := Compile("$");
    if text == [] { assert Accepts(p, text, 0, 0); }
  }
}
