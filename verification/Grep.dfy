/** The line loop of user/grep.c over its fixed buffer. */
module Grep {
  import opened Basics
  import opened Regex

  const BUFSIZE: nat := 1024

  lemma Assoc(a: string, b: string, c: string)
    ensures a + (b + c) == (a + b) + c
  {
  }

  /** The position of the first newline, or |s|. */
  function LineEnd(s: string): (q: nat)
    ensures q <= |s|
    ensures q < |s| ==> s[q] == '\n'
    ensures forall i | 0 <= i < q :: s[i] != '\n'
  {
    if s == [] || s[0] == '\n' then 0 else 1 + LineEnd(s[1..])
  }

  /** A line that the loop cannot get past: it does not fit the buffer with its newline and a NUL, or it
      holds a NUL, which hides its newline from strchr. */
  predicate Stops(line: string)
  {
    |line| + 1 > BUFSIZE - 1 || '\0' in line
  }

  /** No line of s can be handled, whatever follows. */
  ghost predicate Waiting(s: string)
  {
    LineEnd(s) == |s| || '\0' in s[..LineEnd(s)]
  }

  /** The matching newline-terminated lines in order, up to the first that the loop cannot get past. */
  ghost function Selected(re: string, input: string): (out: string)
    decreases |input|
  {
    var q := LineEnd(input);
    if q == |input| || Stops(input[..q]) then []
    else (if Matches(re, input[..q]) then input[..q + 1] else []) + Selected(re, input[q + 1..])
  }

  /** The lines of the input that end in a newline, without it. */
  ghost function Lines(input: string): (lines: seq<string>)
    decreases |input|
  {
    var q := LineEnd(input);
    if q == |input| then [] else [input[..q]] + Lines(input[q + 1..])
  }

  /** What grep is for: the lines that match, in order, each with its newline. */
  ghost function Matching(re: string, lines: seq<string>): (out: string)
  {
    if lines == [] then [] else (if Matches(re, lines[0]) then lines[0] + ['\n'] else []) + Matching(re, lines[1..])
  }

  /** No line matches that the loop cannot get past or that comes after such a line. */
  ghost predicate NoneLost(re: string, lines: seq<string>)
  {
    forall i, j | 0 <= i <= j < |lines| && Stops(lines[i]) :: !Matches(re, lines[j])
  }

  lemma {:induction false} MatchingNone(re: string, lines: seq<string>)
    ensures Matching(re, lines) == [] <==> forall j | 0 <= j < |lines| :: !Matches(re, lines[j])
  {
    if lines != [] {
      MatchingNone(re, lines[1..]);
      assert forall j | 1 <= j < |lines| :: lines[j] == lines[1..][j - 1];
    }
  }

  /** How many lines come before the first that the loop cannot get past. */
  ghost function Handled(lines: seq<string>): (k: nat)
    ensures k <= |lines| && (forall i | 0 <= i < k :: !Stops(lines[i])) && (k < |lines| ==> Stops(lines[k]))
  {
    if lines == [] || Stops(lines[0]) then 0 else 1 + Handled(lines[1..])
  }

  /** What is written are the matching ones of the lines before that. */
  lemma {:induction false} SelectedIs(re: string, input: string)
    ensures Selected(re, input) == Matching(re, Lines(input)[..Handled(Lines(input))])
    decreases |input|
  {
    hide Matches, Stops, LineEnd, Matching, Handled, Lines;
    var q, lines := LineEnd(input), Lines(input);
    LinesFirst(input);
    if q < |input| && !Stops(lines[0]) {
      SelectedIs(re, input[q + 1..]);
      HandledFirst(re, lines);
    } else {
      HandledNone(re, lines);
    }
  }

  lemma {:induction false} LinesFirst(input: string)
    ensures var q, lines := LineEnd(input), Lines(input);
            if q == |input| then lines == []
            else lines != [] && lines[0] == input[..q] && lines[1..] == Lines(input[q + 1..]) && input[..q + 1] == lines[0] + ['\n']
  {
    hide LineEnd;
    var q, lines := LineEnd(input), Lines(input);
    if q < |input| {
      assert lines == [input[..q]] + Lines(input[q + 1..]);
      assert input[..q + 1] == input[..q] + [input[q]];
    }
  }

  lemma HandledFirst(re: string, lines: seq<string>)
    requires lines != [] && !Stops(lines[0])
    ensures Matching(re, lines[..Handled(lines)])
         == (if Matches(re, lines[0]) then lines[0] + ['\n'] else []) + Matching(re, lines[1..][..Handled(lines[1..])])
  {
    hide Matches, Stops;
    var k := Handled(lines[1..]);
    assert lines[..k + 1][0] == lines[0] && lines[..k + 1][1..] == lines[1..][..k];
  }

  lemma HandledNone(re: string, lines: seq<string>)
    requires lines == [] || Stops(lines[0])
    ensures Matching(re, lines[..Handled(lines)]) == []
  {
  }

  /** The matching lines are all written exactly if none is lost to a line that is too long or holds a NUL. */
  lemma {:induction false} SelectedIff(re: string, input: string)
    ensures Selected(re, input) == Matching(re, Lines(input)) <==> NoneLost(re, Lines(input))
    decreases |input|
  {
    var q, lines := LineEnd(input), Lines(input);
    if q == |input| {
      assert lines == [];
    } else {
      assert lines[0] == input[..q] && lines[1..] == Lines(input[q + 1..]) && input[..q + 1] == lines[0] + ['\n'];
      if Stops(lines[0]) {
        MatchingNone(re, lines);
        assert NoneLost(re, lines) <==> forall j | 0 <= j < |lines| :: !Matches(re, lines[j]) by {
          assert Stops(lines[0]);
        }
      } else {
        SelectedIff(re, input[q + 1..]);
        NoneLostTail(re, lines);
        SamePrefix(if Matches(re, lines[0]) then input[..q + 1] else [], Selected(re, input[q + 1..]), Matching(re, lines[1..]));
      }
    }
  }

  lemma NoneLostTail(re: string, lines: seq<string>)
    requires lines != [] && !Stops(lines[0])
    ensures NoneLost(re, lines) <==> NoneLost(re, lines[1..])
  {
    assert forall j | 1 <= j < |lines| :: lines[j] == lines[1..][j - 1];
    if NoneLost(re, lines) {
      forall i, j | 0 <= i <= j < |lines[1..]| && Stops(lines[1..][i]) ensures !Matches(re, lines[1..][j]) {
        assert Stops(lines[i + 1]) && lines[j + 1] == lines[1..][j];
      }
    }
  }

  lemma SamePrefix(a: string, b: string, c: string)
    ensures a + b == a + c <==> b == c
  {
    if a + b == a + c {
      assert b == (a + b)[|a|..] == c;
    }
  }

  /** If every line fits and none holds a NUL, all matching lines are written. */
  lemma AllFit(re: string, input: string)
    requires forall i | 0 <= i < |Lines(input)| :: !Stops(Lines(input)[i])
    ensures Selected(re, input) == Matching(re, Lines(input))
  {
    SelectedIff(re, input);
  }

  lemma LineEndIs(s: string, q: nat)
    requires q <= |s| && (q < |s| ==> s[q] == '\n') && forall i | 0 <= i < q :: s[i] != '\n'
    ensures LineEnd(s) == q
  {
  }

  /** strchr(p, '\n') on the C string at p: its first newline, unless a NUL comes before it. */
  method FindNewline(buf: array<char>, p: nat, m: nat) returns (r: Option<nat>)
    requires p <= m < buf.Length && buf[m] == '\0'
    ensures r.None? <==> Waiting(buf[p..m])
    ensures r.Some? ==> p <= r.value < m && r.value - p == LineEnd(buf[p..m]) && '\0' !in buf[p..r.value]
  {
    var q := p;
    while buf[q] != '\0' && buf[q] != '\n'
      invariant p <= q <= m
      invariant forall i | p <= i < q :: buf[i] != '\n' && buf[i] != '\0'
      decreases m - q
    {
      q := q + 1;
    }
    ghost var s := buf[p..m];
    assert forall i | 0 <= i < q - p :: s[i] == buf[p + i];
    if buf[q] == '\0' {
      assert q < m ==> s[q - p] == '\0' && q - p < LineEnd(s) && s[..LineEnd(s)][q - p] == '\0';
      return None;
    }
    LineEndIs(s, q - p);
    assert s[..q - p] == buf[p..q];
    return Some(q);
  }

  /** One turn of the inner loop: cut the line at p out with a NUL, match it, and put its newline
      back if it is written. */
  method HandleLine(re: string, buf: array<char>, p: nat, q: nat) returns (line: string)
    requires p <= q < buf.Length && buf[q] == '\n'
    modifies buf
    ensures line == if Matches(re, old(buf[p..q])) then old(buf[p..q + 1]) else []
    ensures forall k | 0 <= k < buf.Length && k != q :: buf[k] == old(buf[k])
  {
    buf[q] := '\0';
    assert buf[p..q] == old(buf[p..q]);
    var hit := Match(re, buf[p..q]);
    line := [];
    if hit {
      buf[q] := '\n';
      line := buf[p..q + 1];
    }
  }

  /** The inner loop: handle every complete line in buf[..m] and return where the last one ends. */
  method HandleLines(re: string, buf: array<char>, m: nat, ghost rest: string) returns (p: nat, out: string)
    requires m < buf.Length == BUFSIZE && buf[m] == '\0'
    modifies buf
    ensures p <= m && buf[p..m] == old(buf[p..m])
    ensures Waiting(buf[p..m])
    ensures out + Selected(re, buf[p..m] + rest) == Selected(re, old(buf[..m]) + rest)
  {
    hide Selected, LineEnd, Matches, Waiting;
    p, out := 0, [];
    ghost var all := buf[..m];
    assert all[0..m] == all;
    while true
      invariant p <= m == |all| && buf[m] == '\0'
      invariant forall k | p <= k < m :: buf[k] == all[k]
      invariant out + Selected(re, all[p..m] + rest) == Selected(re, all + rest)
      decreases m - p
    {
      ghost var s := all[p..m];
      assert buf[p..m] == s;
      var r := FindNewline(buf, p, m);
      if r.None? {
        return;
      }
      var q := r.value;
      assert buf[q] == s[q - p] && buf[p..q] == s[..q - p] && buf[p..q + 1] == s[..q - p + 1];
      SelectLine(re, s, q - p, rest);
      assert s[q - p + 1..] == all[q + 1..m];
      var line := HandleLine(re, buf, p, q);
      Assoc(out, line, Selected(re, all[q + 1..m] + rest));
      out := out + line;
      p := q + 1;
    }
  }

  lemma SliceConcat(s: string, t: string, q: nat)
    requires q <= |s|
    ensures (s + t)[..q] == s[..q] && (s + t)[q..] == s[q..] + t
  {
  }

  /** Selecting the first line of what is in the buffer, whatever follows it in the input. */
  lemma SelectLine(re: string, s: string, q: nat, rest: string)
    requires q == LineEnd(s) < |s| < BUFSIZE && '\0' !in s[..q]
    ensures Selected(re, s + rest) == (if Matches(re, s[..q]) then s[..q + 1] else []) + Selected(re, s[q + 1..] + rest)
  {
    hide Matches;
    LineEndIs(s + rest, q);
    SliceConcat(s, rest, q);
    SliceConcat(s, rest, q + 1);
  }

  /** What is left when read returns 0, at the end of the input or for lack of room, is not written. */
  lemma NothingLeft(re: string, s: string, rest: string)
    requires Waiting(s) && (rest == [] || |s| == BUFSIZE - 1)
    ensures Selected(re, s + rest) == []
  {
    var q, e := LineEnd(s + rest), LineEnd(s);
    assert forall i | 0 <= i < |s| :: (s + rest)[i] == s[i];
    if e < |s| {
      LineEndIs(s + rest, e);
      assert (s + rest)[..e] == s[..e];
    }
  }

  lemma EmptyWaits(s: string)
    requires s == []
    ensures Waiting(s)
  {
  }

  /** read(fd, buf + m, sizeof(buf) - m - 1): at least one byte if there is room and input. */
  method ReadChunk(input: string, pos: nat, buf: array<char>, m: nat, want: nat) returns (n: nat)
    requires m < buf.Length == BUFSIZE && pos <= |input|
    modifies buf
    ensures m + n < BUFSIZE && pos + n <= |input|
    ensures n == 0 <==> pos == |input| || m == BUFSIZE - 1
    ensures buf[..m + n] == old(buf[..m]) + input[pos..pos + n]
  {
    n := if want == 0 then 1 else want;
    if n > BUFSIZE - m - 1 { n := BUFSIZE - m - 1; }
    if n > |input| - pos { n := |input| - pos; }
    forall k | 0 <= k < n { buf[m + k] := input[pos + k]; }
  }

  /** memmove(buf, buf + p, m) */
  method MoveDown(buf: array<char>, p: nat, m: nat)
    requires p + m <= buf.Length
    modifies buf
    ensures buf[..m] == old(buf[p..p + m])
  {
    forall k | 0 <= k < m { buf[k] := buf[p + k]; }
  }

  /** One turn of the outer loop: read, handle the complete lines, keep the rest. */
  method Turn(re: string, input: string, pos: nat, buf: array<char>, m: nat, want: nat) returns (n: nat, left: nat, out: string)
    requires pos <= |input| && m < buf.Length == BUFSIZE
    modifies buf
    ensures pos + n <= |input| && left < BUFSIZE
    ensures n == 0 <==> pos == |input| || m == BUFSIZE - 1
    ensures n > 0 ==>
      && Waiting(buf[..left])
      && out + Selected(re, buf[..left] + input[pos + n..]) == Selected(re, old(buf[..m]) + input[pos..])
  {
    hide Selected, LineEnd, Waiting;
    n := ReadChunk(input, pos, buf, m, want);
    if n == 0 {
      return n, 0, [];
    }
    ghost var s, t := old(buf[..m]), input[pos..pos + n];
    assert t + input[pos + n..] == input[pos..];
    Assoc(s, t, input[pos + n..]);
    buf[m + n] := '\0';
    assert buf[..m + n] == s + t;
    var p;
    p, out := HandleLines(re, buf, m + n, input[pos + n..]);
    assert buf[p..m + n] == (s + t)[p..m + n];
    left := m + n - p;
    MoveDown(buf, p, left);
  }

  /** grep(pattern, fd): however read splits the input, the output is the selected lines. */
  method Grep(re: string, input: string, want: nat -> nat) returns (out: string)
    ensures out == Selected(re, input) && out == Matching(re, Lines(input)[..Handled(Lines(input))])
    ensures out == Matching(re, Lines(input)) <==> NoneLost(re, Lines(input))
  {
    hide Selected, LineEnd, Waiting, Lines, Matching, NoneLost, Handled;
    SelectedIff(re, input);
    SelectedIs(re, input);
    var buf := new char[BUFSIZE];
    var m: nat, pos: nat, calls: nat := 0, 0, 0;
    out := [];
    EmptyWaits(buf[..0]);
    assert buf[..0] == input[0..0] && buf[..m] + input[pos..] == input;
    while true
      invariant pos <= |input| && m < BUFSIZE
      invariant Waiting(buf[..m])
      invariant out + Selected(re, buf[..m] + input[pos..]) == Selected(re, input)
      decreases |input| - pos
    {
      ghost var s := buf[..m];
      var n, left, lines := Turn(re, input, pos, buf, m, want(calls));
      if n == 0 {
        NothingLeft(re, s, input[pos..]);
        return;
      }
      Assoc(out, lines, Selected(re, buf[..left] + input[pos + n..]));
      out := out + lines;
      m, pos, calls := left, pos + n, calls + 1;
    }
  }

  /** A line of 1023 bytes is never written, though the empty pattern matches everything. */
  method LongLineLost() returns (out: string)
    ensures out == [] && Matching("", [seq(BUFSIZE - 1, _ => 'a')]) != []
  {
    var long := seq(BUFSIZE - 1, _ => 'a');
    var input := long + ['\n'];
    LineEndIs(input, BUFSIZE - 1);
    out := Grep("", input, _ => 1);
    MatchingNone("", [long]);
    assert Accepts(Compile(""), long, 0, 0);
    assert [long][0] == long;
  }

  /** A line with a NUL takes the lines after it along, though the pattern matches one of them. */
  method NulLineLost() returns (out: string)
    ensures out == [] && Matching("a", ["\0", "a"]) != []
  {
    var input := ['\0', '\n', 'a', '\n'];
    LineEndIs(input, 1);
    assert input[..1][0] == '\0';
    out := Grep("a", input, _ => 1);
    var lines := ["\0", "a"];
    MatchingNone("a", lines);
    assert Accepts(Compile("a"), "a", 0, 1);
    assert lines[1] == "a";
  }
}
