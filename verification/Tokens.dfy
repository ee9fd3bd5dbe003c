// common/stringop.c: splitting a command line into raw tokens and joining
// them again.  Quotes, criteria brackets and backslashes keep whitespace
// inside a token; they stay part of it.
module Tokens {
  import opened Sequences

  const NUL := '\0'

  // " \f\n\r\t\v"
  predicate IsSpace(c: char) {
    c == ' ' || c == '\U{C}' || c == '\n' || c == '\r' || c == '\t' || c == '\U{B}'
  }

  predicate Blank(s: string) {
    forall i :: 0 <= i < |s| ==> IsSpace(s[i])
  }

  // The text behind its leading whitespace.
  function TrimLeft(s: string): (r: string)
    ensures r != [] ==> !IsSpace(r[0])
  {
    if s != [] && IsSpace(s[0]) then TrimLeft(s[1..]) else s
  }

  // The flags of the splitting loop.
  datatype Quoting = Quoting(inString: bool, inChar: bool, inBrackets: bool, escaped: bool)

  const NEUTRAL := Quoting(false, false, false, false)

  function Next(q: Quoting, c: char): (r: Quoting) {
    var toggled :=
      if c == '"' && !q.inChar && !q.escaped then q.(inString := !q.inString)
      else if c == '\'' && !q.inString && !q.escaped then q.(inChar := !q.inChar)
      else if c == '[' && !q.inString && !q.inChar && !q.inBrackets && !q.escaped then q.(inBrackets := true)
      else if c == ']' && !q.inString && !q.inChar && q.inBrackets && !q.escaped then q.(inBrackets := false)
      else if c == '\\' then q.(escaped := !q.escaped)
      else q;
    if c != '\\' then toggled.(escaped := false) else toggled
  }

  // Whether c ends the token it follows.
  predicate Ends(q: Quoting, c: char) {
    !q.inString && !q.inChar && !q.inBrackets && !q.escaped && IsSpace(c)
  }

  // How far the token that is in state q extends into s.
  function TokenLength(s: string, q: Quoting): (n: nat)
    ensures n <= |s|
    decreases |s|
  {
    if s == [] || Ends(q, s[0]) then 0 else 1 + TokenLength(s[1..], Next(q, s[0]))
  }

  function Split(s: string): (tokens: seq<string>)
    decreases |s|
  {
    if s == [] then []
    else if IsSpace(s[0]) then Split(s[1..])
    else
      var n := TokenLength(s, NEUTRAL);
      [s[..n]] + Split(s[n..])
  }

  function Join(tokens: seq<string>): (s: string) {
    if tokens == [] then []
    else if |tokens| == 1 then tokens[0]
    else tokens[0] + [' '] + Join(tokens[1..])
  }

  // A string that splitting would deliver as one token: it starts outside
  // whitespace and no whitespace in it ends it.
  ghost predicate IsToken(t: string) {
    t != [] && !IsSpace(t[0]) && TokenLength(t, NEUTRAL) == |t|
  }

  // The state after reading s.
  function After(q: Quoting, s: string): (r: Quoting)
    decreases |s|
  {
    if s == [] then q else After(Next(q, s[0]), s[1..])
  }

  // A token that whitespace may follow: all quotes and brackets are closed.
  ghost predicate IsClosed(t: string) {
    IsToken(t) && Closes(After(NEUTRAL, t))
  }

  predicate Closes(q: Quoting) {
    !q.inString && !q.inChar && !q.inBrackets && !q.escaped
  }

  // Whitespace and tokens in alternation, starting and ending with whitespace.
  function Weave(gaps: seq<string>, tokens: seq<string>): (s: string)
    requires |gaps| == |tokens| + 1
  {
    if tokens == [] then gaps[0] else gaps[0] + (tokens[0] + Weave(gaps[1..], tokens[1..]))
  }

  // A layout of a line: blank gaps around proper tokens, with at least one
  // whitespace character wherever one token follows another, and no open quote
  // in a token that whitespace follows.
  ghost predicate IsLayout(gaps: seq<string>, tokens: seq<string>) {
    && |gaps| == |tokens| + 1
    && (forall i :: 0 <= i < |gaps| ==> Blank(gaps[i]))
    && (forall i :: 0 < i < |gaps| - 1 ==> gaps[i] != [])
    && (forall i :: 0 <= i < |tokens| ==> IsToken(tokens[i]))
    && (forall i :: 0 <= i < |tokens| ==> gaps[i + 1] != [] ==> IsClosed(tokens[i]))
  }

  lemma LayoutTail(gaps: seq<string>, tokens: seq<string>)
    requires IsLayout(gaps, tokens) && tokens != []
    ensures IsLayout(gaps[1..], tokens[1..])
    ensures var tail := Weave(gaps[1..], tokens[1..]);
      tail == [] || (IsClosed(tokens[0]) && IsSpace(tail[0]))
  {
    if gaps[1] == [] {
      assert |tokens| == 1;
      assert Weave(gaps[1..], tokens[1..]) == [];
    } else {
      assert Weave(gaps[1..], tokens[1..])[0] == gaps[1][0];
    }
  }

  lemma {:induction false} TokenLengthStops(t: string, q: Quoting, tail: string)
    requires TokenLength(t, q) == |t|
    requires tail == [] || Ends(After(q, t), tail[0])
    ensures TokenLength(t + tail, q) == |t|
  {
    if t == [] {
      assert t + tail == tail;
    } else {
      assert (t + tail)[0] == t[0] && (t + tail)[1..] == t[1..] + tail;
      TokenLengthStops(t[1..], Next(q, t[0]), tail);
    }
  }

  lemma {:induction false} TokenLengthPrefix(s: string, q: Quoting)
    ensures var n := TokenLength(s, q);
      && TokenLength(s[..n], q) == n
      && (n < |s| ==> IsSpace(s[n]) && Closes(After(q, s[..n])))
  {
    var n := TokenLength(s, q);
    if n > 0 {
      TokenLengthPrefix(s[1..], Next(q, s[0]));
      assert s[..n][0] == s[0] && s[..n][1..] == s[1..][..n - 1];
    }
  }

  lemma {:induction false} SplitSkips(gap: string, tail: string)
    requires Blank(gap)
    ensures Split(gap + tail) == Split(tail)
  {
    if gap == [] {
      assert gap + tail == tail;
    } else {
      assert (gap + tail)[0] == gap[0] && (gap + tail)[1..] == gap[1..] + tail;
      SplitSkips(gap[1..], tail);
    }
  }

  // Splitting, one token at a time.
  lemma SplitToken(gap: string, t: string, tail: string)
    requires Blank(gap) && IsToken(t)
    requires tail == [] || (IsClosed(t) && IsSpace(tail[0]))
    ensures Split(gap + (t + tail)) == [t] + Split(tail)
  {
    var line := t + tail;
    SplitSkips(gap, line);
    TokenLengthStops(t, NEUTRAL, tail);
    assert line[0] == t[0] && line[..|t|] == t && line[|t|..] == tail;
  }

  // Whatever whitespace separates them, the tokens of a layout are the ones
  // splitting finds: the line determines its tokens.
  lemma {:induction false} SplitWeave(gaps: seq<string>, tokens: seq<string>)
    requires IsLayout(gaps, tokens)
    ensures Split(Weave(gaps, tokens)) == tokens
    decreases |tokens|
  {
    if tokens == [] {
      SplitSkips(gaps[0], []);
      assert gaps[0] + [] == gaps[0];
    } else {
      LayoutTail(gaps, tokens);
      SplitWeave(gaps[1..], tokens[1..]);
      var gap, t, tail := gaps[0], tokens[0], Weave(gaps[1..], tokens[1..]);
      SplitToken(gap, t, tail);
      assert Weave(gaps, tokens) == gap + (t + tail);
      assert tokens == [t] + tokens[1..];
    }
  }

  // The whitespace splitting skips over.
  function Gaps(s: string): (gaps: seq<string>)
    ensures |gaps| > 0
    decreases |s|
  {
    if s == [] then [[]]
    else if IsSpace(s[0]) then
      var gaps := Gaps(s[1..]);
      [[s[0]] + gaps[0]] + gaps[1..]
    else
      [[]] + Gaps(s[TokenLength(s, NEUTRAL)..])
  }

  // Every line has such a layout: outside its tokens there is only whitespace
  // and nothing is lost.
  lemma {:induction false} SplitLayout(s: string)
    ensures IsLayout(Gaps(s), Split(s)) && Weave(Gaps(s), Split(s)) == s
    ensures s != [] ==> (IsSpace(s[0]) <==> Gaps(s)[0] != [])
    decreases |s|
  {
    if s == [] {
    } else if IsSpace(s[0]) {
      SplitLayout(s[1..]);
      WidenFirstGap(s[0], Gaps(s[1..]), Split(s[1..]));
    } else {
      var t, rest := FirstToken(s);
      SplitLayout(rest);
      PrependToLayout([], t, Gaps(rest), Split(rest));
    }
  }

  lemma FirstToken(s: string) returns (t: string, rest: string)
    requires s != [] && !IsSpace(s[0])
    ensures s == t + rest && IsToken(t)
    ensures rest != [] ==> IsClosed(t) && IsSpace(rest[0])
    ensures Split(s) == [t] + Split(rest) && Gaps(s) == [[]] + Gaps(rest)
  {
    var n := TokenLength(s, NEUTRAL);
    TokenLengthPrefix(s, NEUTRAL);
    t, rest := s[..n], s[n..];
  }

  lemma WidenFirstGap(c: char, gaps: seq<string>, tokens: seq<string>)
    requires IsSpace(c) && IsLayout(gaps, tokens)
    ensures var wider := [[c] + gaps[0]] + gaps[1..];
      IsLayout(wider, tokens) && Weave(wider, tokens) == [c] + Weave(gaps, tokens)
  {
    var wider := [[c] + gaps[0]] + gaps[1..];
    assert wider[1..] == gaps[1..];
    assert forall i :: 0 < i < |gaps| ==> wider[i] == gaps[i];
  }

  lemma PrependToLayout(gap: string, t: string, gaps: seq<string>, tokens: seq<string>)
    requires Blank(gap) && IsToken(t) && IsLayout(gaps, tokens)
    requires gaps[0] == [] ==> tokens == []
    requires gaps[0] != [] ==> IsClosed(t)
    ensures IsLayout([gap] + gaps, [t] + tokens)
    ensures Weave([gap] + gaps, [t] + tokens) == gap + (t + Weave(gaps, tokens))
  {
    var g, ts := [gap] + gaps, [t] + tokens;
    forall i | 0 < i < |g| - 1 ensures g[i] != [] {
      assert g[i] == gaps[i - 1];
    }
    forall i | 0 <= i < |ts| && g[i + 1] != [] ensures IsClosed(ts[i]) {
      if i > 0 { assert ts[i] == tokens[i - 1] && g[i + 1] == gaps[i]; }
    }
    assert g[1..] == gaps && ts[1..] == tokens;
  }

  // Splitting characterised without its loop.
  lemma SplitIffLayout(s: string, tokens: seq<string>)
    ensures Split(s) == tokens <==> exists gaps :: IsLayout(gaps, tokens) && Weave(gaps, tokens) == s
  {
    SplitLayout(s);
    forall gaps | IsLayout(gaps, tokens) && Weave(gaps, tokens) == s ensures Split(s) == tokens {
      SplitWeave(gaps, tokens);
    }
  }

  lemma {:induction false} WeaveMember(gaps: seq<string>, tokens: seq<string>, c: char)
    requires |gaps| == |tokens| + 1
    requires exists i :: 0 <= i < |tokens| && c in tokens[i]
    ensures c in Weave(gaps, tokens)
    decreases |tokens|
  {
    if c !in tokens[0] {
      var i :| 0 <= i < |tokens| && c in tokens[i];
      assert tokens[1..][i - 1] == tokens[i];
      WeaveMember(gaps[1..], tokens[1..], c);
    }
  }

  // Tokens have no characters that the line does not have.
  lemma SplitMember(line: string, c: char)
    requires c !in line
    ensures forall i :: 0 <= i < |Split(line)| ==> c !in Split(line)[i]
  {
    SplitLayout(line);
    if exists i :: 0 <= i < |Split(line)| && c in Split(line)[i] {
      WeaveMember(Gaps(line), Split(line), c);
    }
  }

  // Only the last token of a line may run on to its end in an open quote.
  ghost predicate AreTokens(tokens: seq<string>) {
    && (forall i :: 0 <= i < |tokens| ==> IsToken(tokens[i]))
    && (forall i :: 0 <= i < |tokens| - 1 ==> IsClosed(tokens[i]))
  }

  lemma SplitGivesTokens(s: string)
    ensures AreTokens(Split(s))
  {
    SplitLayout(s);
  }

  // The gaps of n joined tokens behind a leading gap.
  function JoinGaps(lead: string, n: nat): (gaps: seq<string>)
    requires n > 0
    ensures |gaps| == n + 1 && gaps[0] == lead && gaps[n] == []
    ensures forall i :: 0 < i < n ==> gaps[i] == [' ']
    decreases n
  {
    if n == 1 then [lead, []] else [lead] + JoinGaps([' '], n - 1)
  }

  lemma {:induction false} JoinIsWeave(lead: string, tokens: seq<string>)
    requires tokens != []
    ensures Weave(JoinGaps(lead, |tokens|), tokens) == lead + Join(tokens)
    decreases |tokens|
  {
    var gaps, t := JoinGaps(lead, |tokens|), tokens[0];
    if |tokens| == 1 {
      assert gaps[1..] == [[]] && tokens[1..] == [];
      assert Weave(gaps[1..], tokens[1..]) == [] && t + [] == t;
    } else {
      assert gaps[1..] == JoinGaps([' '], |tokens| - 1);
      JoinIsWeave([' '], tokens[1..]);
      assert t + ([' '] + Join(tokens[1..])) == Join(tokens);
    }
  }

  lemma JoinIsLayout(tokens: seq<string>)
    requires AreTokens(tokens) && tokens != []
    ensures IsLayout(JoinGaps([], |tokens|), tokens)
  {
    var n, gaps := |tokens|, JoinGaps([], |tokens|);
    forall i | 0 <= i <= n ensures Blank(gaps[i]) {
      assert gaps[i] == [] || gaps[i] == [' '];
    }
    forall i | 0 <= i < n && gaps[i + 1] != [] ensures IsClosed(tokens[i]) {
      assert i + 1 != n;
    }
  }

  // Joining and splitting again gives the same tokens.
  lemma SplitJoin(tokens: seq<string>)
    requires AreTokens(tokens) && tokens != []
    ensures Split(Join(tokens)) == tokens
  {
    var gaps := JoinGaps([], |tokens|);
    JoinIsWeave([], tokens);
    assert [] + Join(tokens) == Join(tokens);
    JoinIsLayout(tokens);
    SplitWeave(gaps, tokens);
  }

  lemma ResplitIsStable(s: string)
    requires Split(s) != []
    ensures Split(Join(Split(s))) == Split(s)
  {
    SplitGivesTokens(s);
    SplitJoin(Split(s));
  }

  // The splitting loop is inside a token that began at start: the tokens found
  // so far and what the line splits into from there on make up the goal.
  ghost predicate Inside(s: string, start: nat, end: nat, q: Quoting, tokens: seq<string>, goal: seq<string>)
    requires end <= |s|
  {
    && start <= end && start < |s| && !IsSpace(s[start])
    && TokenLength(s[start..], NEUTRAL) == end - start + TokenLength(s[end..], q)
    && tokens + Split(s[start..]) == goal
  }

  // The splitting loop is between tokens.
  ghost predicate Between(s: string, end: nat, q: Quoting, tokens: seq<string>, goal: seq<string>)
    requires end <= |s|
  {
    && (end == |s| || q == NEUTRAL)
    && tokens + Split(s[end..]) == goal
  }

  lemma ReadMore(s: string, start: nat, end: nat, q: Quoting, tokens: seq<string>, goal: seq<string>)
    requires end < |s| && Inside(s, start, end, q, tokens, goal)
    requires !Ends(q, s[end])
    ensures Inside(s, start, end + 1, Next(q, s[end]), tokens, goal)
  {
    assert s[end..][1..] == s[end + 1..];
  }

  lemma TokenRead(s: string, start: nat, end: nat, q: Quoting, tokens: seq<string>, goal: seq<string>)
    requires start < end <= |s| && Inside(s, start, end, q, tokens, goal)
    requires end == |s| || Ends(q, s[end])
    ensures Between(s, end, q.(escaped := false), tokens + [s[start..end]], goal)
  {
    var line, t, rest := s[start..], s[start..end], s[end..];
    assert line[..end - start] == t && line[end - start..] == rest;
    assert tokens + [t] + Split(rest) == tokens + ([t] + Split(rest));
  }

  // The strspn that moves to the next token.
  method SkipSpace(s: string, end: nat, ghost q: Quoting, ghost tokens: seq<string>,
          ghost goal: seq<string>) returns (next: nat)
    requires end <= |s| && Between(s, end, q, tokens, goal)
    ensures end <= next <= |s| && Between(s, next, q, tokens, goal)
    ensures next < |s| ==> Inside(s, next, next, q, tokens, goal)
  {
    next := end;
    while next < |s| && IsSpace(s[next])
      invariant end <= next <= |s| && Between(s, next, q, tokens, goal)
    {
      assert s[next..][1..] == s[next + 1..];
      next := next + 1;
    }
  }

  // One turn of the splitting loop, up to the decision whether c (or the end of
  // the line, for which c is NUL) ends the token.
  method Examine(q: Quoting, c: char) returns (addToken: bool, r: Quoting)
    ensures addToken <==> c == NUL || Ends(q, c)
    ensures r == if addToken then q else Next(q, c)
  {
    var inString, inChar, inBrackets, escaped := q.inString, q.inChar, q.inBrackets, q.escaped;
    addToken := false;
    if c == '"' && !inChar && !escaped {
      inString := !inString;
    } else if c == '\'' && !inString && !escaped {
      inChar := !inChar;
    } else if c == '[' && !inString && !inChar && !inBrackets && !escaped {
      inBrackets := true;
    } else if c == ']' && !inString && !inChar && inBrackets && !escaped {
      inBrackets := false;
    } else if c == '\\' {
      escaped := !escaped;
    } else if c == NUL || (!inString && !inChar && !inBrackets && !escaped && IsSpace(c)) {
      addToken := true;
    }
    if !addToken && c != '\\' {
      escaped := false;
    }
    r := Quoting(inString, inChar, inBrackets, escaped);
  }

  // The returned array has room for a terminator behind the tokens.
  method SplitArgs(s: string) returns (argv: array<string>, argc: nat)
    requires NUL !in s
    ensures fresh(argv) && argc < argv.Length
    ensures argv[..argc] == Split(s)
  {
    argc := 0;
    var alloc := 2;
    argv := new string[alloc](_ => []);
    ghost var tokens, goal := [], Split(s);
    var inToken, q := false, NEUTRAL;
    var start, end := 0, 0;
    assert s[0..] == s;
    while start < |s|
      invariant 0 <= start <= end <= |s|
      invariant fresh(argv) && argc + 1 < alloc == argv.Length && argv[..argc] == tokens
      invariant inToken ==> start < end && Inside(s, start, end, q, tokens, goal)
      invariant !inToken ==> Between(s, end, q, tokens, goal) && (start == |s| ==> end == |s|)
      decreases |s| - end, inToken, |s| - start
    {
      if !inToken {
        end := SkipSpace(s, end, q, tokens, goal);
        start := end;
        inToken := true;
      }
      var c := if end < |s| then s[end] else NUL;
      var addToken, r := Examine(q, c);
      if !addToken {
        ReadMore(s, start, end, q, tokens, goal);
        q := r;
        end := end + 1;
      } else {
        if end - start > 0 {
          TokenRead(s, start, end, q, tokens, goal);
          argv, alloc := AddToken(argv, argc, alloc, s[start..end]);
          argc := argc + 1;
          tokens := tokens + [s[start..end]];
        }
        inToken := false;
        q := q.(escaped := false);
      }
    }
    assert s[|s|..] == [];
  }

  // Stores a token and keeps room for one more entry and the terminator.
  method AddToken(argv: array<string>, argc: nat, alloc: nat, token: string) returns (r: array<string>, size: nat)
    requires argc + 1 < alloc == argv.Length
    modifies argv
    ensures r == argv || fresh(r)
    ensures argc + 2 < size == r.Length
    ensures r[..argc + 1] == old(argv[..argc]) + [token]
  {
    argv[argc] := token;
    r, size := argv, alloc;
    if argc + 2 == alloc {
      size := 2 * alloc;
      r := Grown(argv, size);
    }
  }

  // realloc for the token array.
  method Grown(argv: array<string>, alloc: nat) returns (r: array<string>)
    requires argv.Length <= alloc
    ensures fresh(r) && r.Length == alloc && r[..argv.Length] == argv[..]
  {
    r := new string[alloc](_ => []);
    forall i | 0 <= i < argv.Length {
      r[i] := argv[i];
    }
  }

  // A line that continues joined closed tokens splits into them and then into
  // what the continuation alone would split into.
  lemma {:induction false} SplitContinues(tokens: seq<string>, line: string)
    requires tokens != [] && forall i :: 0 <= i < |tokens| ==> IsClosed(tokens[i])
    ensures Split(Join(tokens) + [' '] + line) == tokens + Split(line)
    decreases |tokens|
  {
    var t := tokens[0];
    var after := if |tokens| == 1 then line else Join(tokens[1..]) + [' '] + line;
    var tail := [' '] + after;
    assert Join(tokens) + [' '] + line == [] + (t + tail);
    SplitToken([], t, tail);
    SplitSkips([' '], after);
    if |tokens| > 1 {
      SplitContinues(tokens[1..], line);
      assert tokens + Split(line) == [t] + (tokens[1..] + Split(line));
    } else {
      assert tokens == [t];
    }
  }

  // Every token with a space behind it, as the joining loop writes them.
  function Padded(tokens: seq<string>): (s: string) {
    if tokens == [] then [] else tokens[0] + [' '] + Padded(tokens[1..])
  }

  lemma {:induction false} PaddedIsJoin(tokens: seq<string>)
    requires tokens != []
    ensures Padded(tokens) == Join(tokens) + [' ']
    decreases |tokens|
  {
    if |tokens| == 1 {
      assert tokens[1..] == [];
    } else {
      PaddedIsJoin(tokens[1..]);
    }
  }

  method JoinedSize(argv: seq<string>) returns (len: nat)
    ensures len == |Padded(argv)|
  {
    len := 0;
    var i := 0;
    assert argv[0..] == argv;
    while i < |argv|
      invariant 0 <= i <= |argv|
      invariant len + |Padded(argv[i..])| == |Padded(argv)|
    {
      assert argv[i..][1..] == argv[i + 1..];
      len := len + |argv[i]| + 1;
      i := i + 1;
    }
  }

  // The buffer is filled exactly: every token and one byte behind it, the last
  // of which becomes the terminator.
  method JoinArgs(argv: seq<string>) returns (ok: bool, res: array<char>)
    ensures ok <==> argv != []
    ensures ok ==> res[..] == Join(argv) + [NUL]
  {
    if argv == [] {
      return false, new char[0];
    }
    var size := JoinedSize(argv);
    res := new char[size];
    FillArgs(res, argv);
    PaddedIsJoin(argv);
    res[size - 1] := NUL;
    assert res[..] == Padded(argv)[..size - 1] + [NUL];
    return true, res;
  }

  method FillArgs(res: array<char>, argv: seq<string>)
    requires res.Length == |Padded(argv)|
    modifies res
    ensures res[..] == Padded(argv)
  {
    ghost var goal := Padded(argv);
    var len, i := 0, 0;
    assert argv[0..] == argv;
    while i < |argv|
      invariant 0 <= i <= |argv| && 0 <= len <= res.Length == |goal|
      invariant res[..len] + Padded(argv[i..]) == goal
    {
      assert argv[i..][1..] == argv[i + 1..];
      Associative(res[..len], argv[i] + [' '], Padded(argv[i + 1..]));
      len := AppendArg(res, len, argv[i]);
      i := i + 1;
    }
    assert argv[i..] == [] && res[..len] == goal && len == res.Length;
  }

  method AppendArg(res: array<char>, len: nat, arg: string) returns (r: nat)
    requires len + |arg| < res.Length
    modifies res
    ensures r == len + |arg| + 1 && res[..r] == old(res[..len]) + (arg + [' '])
  {
    forall k | 0 <= k < |arg| {
      res[len + k] := arg[k];
    }
    res[len + |arg|] := ' ';
    r := len + |arg| + 1;
  }
}
