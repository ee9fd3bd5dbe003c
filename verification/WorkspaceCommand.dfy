// swaybar/ipc.c: the bar asks the compositor to switch to a workspace.  The
// name is quoted here; what becomes of it on the other side is told below.
module WorkspaceCommand {
  import opened Sequences
  import opened Wrappers
  import A = ArgSep
  import C = ConfigReader
  import E = ExecuteCommand
  import I = IpcCommand
  import Q = Quotes
  import T = Tokens
  import V = Variables

  const NUL := '\0'
  const PREFIX := "workspace \""

  predicate IsSpecial(c: char) {
    c == '"' || c == '\\'
  }

  function Escaped(ws: string): (r: string) {
    if ws == [] then []
    else (if IsSpecial(ws[0]) then ['\\', ws[0]] else [ws[0]]) + Escaped(ws[1..])
  }

  function Quoted(ws: string): (r: string) {
    ['"'] + Escaped(ws) + ['"']
  }

  function Specials(ws: string): (n: nat) {
    if ws == [] then 0 else (if IsSpecial(ws[0]) then 1 else 0) + Specials(ws[1..])
  }

  lemma {:induction false} EscapedLength(ws: string)
    ensures |Escaped(ws)| == |ws| + Specials(ws)
  {
    if ws != [] { EscapedLength(ws[1..]); }
  }

  // The buffer is sized by counting and filled by index; every one of its bytes
  // is written and the text ends exactly at the terminator.
  method BuildCommand(ws: string) returns (command: array<char>)
    requires NUL !in ws
    ensures command[..] == "workspace " + Quoted(ws) + [NUL]
  {
    var size := CommandSize(ws);
    EscapedLength(ws);
    command := new char[size + 1];
    StrCpy(command, 0, PREFIX);
    StrCpy(command, size - 1, "\"");
    assert command[..|PREFIX|] == PREFIX && command[size - 1..] == ['"', NUL];
    FillName(command, |PREFIX|, ws);
    assert command[..|PREFIX|] == PREFIX && command[size - 1..] == ['"', NUL];
    Assembled(command[..], PREFIX, Escaped(ws), ['"', NUL]);
    SentText(ws);
  }

  lemma Assembled(buf: string, a: string, b: string, c: string)
    requires |buf| == |a| + |b| + |c| && buf[..|a|] == a
    requires buf[|a|..|a| + |b|] == b && buf[|a| + |b|..] == c
    ensures buf == a + b + c
  {
    assert buf == buf[..|a|] + buf[|a|..|a| + |b|] + buf[|a| + |b|..];
  }

  lemma SentText(ws: string)
    ensures "workspace " + Quoted(ws) + [NUL] == PREFIX + Escaped(ws) + ['"', NUL]
    ensures "workspace " + Quoted(ws) == PREFIX + (Escaped(ws) + ['"'])
  {
  }

  method CommandSize(ws: string) returns (size: nat)
    ensures size == |PREFIX| + 1 + |ws| + Specials(ws)
  {
    size := |PREFIX| + 1 + |ws|;
    var i := 0;
    assert ws[0..] == ws;
    while i < |ws|
      invariant 0 <= i <= |ws|
      invariant size + Specials(ws[i..]) == |PREFIX| + 1 + |ws| + Specials(ws)
    {
      assert ws[i..][1..] == ws[i + 1..];
      if ws[i] == '"' || ws[i] == '\\' {
        size := size + 1;
      }
      i := i + 1;
    }
  }

  method FillName(command: array<char>, from: nat, ws: string)
    requires from + |Escaped(ws)| < command.Length
    modifies command
    ensures command[from..from + |Escaped(ws)|] == Escaped(ws)
    ensures forall k :: 0 <= k < command.Length && !(from <= k < from + |Escaped(ws)|) ==> command[k] == old(command[k])
  {
    ghost var goal := Escaped(ws);
    var i, d := 0, from;
    assert ws[0..] == ws;
    while i < |ws|
      invariant 0 <= i <= |ws| && from <= d <= from + |goal|
      invariant command[from..d] + Escaped(ws[i..]) == goal
      invariant forall k :: 0 <= k < command.Length && !(from <= k < d) ==> command[k] == old(command[k])
    {
      assert ws[i..][1..] == ws[i + 1..];
      ghost var done, rest := command[from..d], Escaped(ws[i + 1..]);
      ghost var piece := if IsSpecial(ws[i]) then ['\\', ws[i]] else [ws[i]];
      Associative(done, piece, rest);
      if ws[i] == '"' || ws[i] == '\\' {
        command[d] := '\\';
        d := d + 1;
      }
      command[d] := ws[i];
      d := d + 1;
      assert command[from..d] == done + piece;
      i := i + 1;
    }
    assert ws[i..] == [] && command[from..d] == goal;
  }

  method StrCpy(buf: array<char>, at: nat, s: string)
    requires at + |s| < buf.Length
    modifies buf
    ensures buf[at..at + |s|] == s && buf[at + |s|] == NUL
    ensures forall k :: 0 <= k < buf.Length && !(at <= k <= at + |s|) ==> buf[k] == old(buf[k])
  {
    forall k | 0 <= k < |s| {
      buf[at + k] := s[k];
    }
    buf[at + |s|] := NUL;
  }

  lemma {:induction false} StripInside(ws: string)
    ensures Q.Strip(Escaped(ws) + ['"'], true, false, false) == Escaped(ws)
  {
    if ws != [] {
      var c, rest := ws[0], Escaped(ws[1..]) + ['"'];
      StripInside(ws[1..]);
      if IsSpecial(c) {
        var line := Escaped(ws) + ['"'];
        assert line == ['\\', c] + rest;
        assert line[1..] == [c] + rest && line[1..][1..] == rest;
        assert Q.Strip(line[1..], true, false, true) == [c] + Q.Strip(rest, true, false, false);
      } else {
        assert Escaped(ws) + ['"'] == [c] + rest;
      }
    }
  }

  // Removing the quotes gives back the escaped name, for every name.
  lemma StripQuoted(ws: string)
    ensures Q.StripQuotes(Quoted(ws)) == Escaped(ws)
  {
    StripInside(ws);
    assert Quoted(ws)[1..] == Escaped(ws) + ['"'];
  }

  lemma {:induction false} DecodeEscaped(ws: string)
    ensures Q.Decodable(Escaped(ws)) && Q.Decode(Escaped(ws)) == ws
  {
    if ws != [] {
      DecodeEscaped(ws[1..]);
      var e := Escaped(ws);
      if IsSpecial(ws[0]) {
        assert e[2..] == Escaped(ws[1..]);
      } else {
        assert e[1..] == Escaped(ws[1..]);
      }
    }
  }

  // Unquoting followed by unescaping, as for a configuration command, inverts
  // the quoting for every name.
  lemma QuotingIsInverted(ws: string)
    ensures var stripped := Q.StripQuotes(Quoted(ws));
      Q.Decodable(stripped) && Q.Decode(stripped) == ws
  {
    StripQuoted(ws);
    DecodeEscaped(ws);
  }

  lemma {:induction false} EscapedIsPlainIff(ws: string)
    ensures Escaped(ws) == ws <==> forall i :: 0 <= i < |ws| ==> !IsSpecial(ws[i])
  {
    EscapedLength(ws);
    if Escaped(ws) == ws {
      NoSpecials(ws);
    } else {
      SomeSpecial(ws);
    }
  }

  lemma {:induction false} NoSpecials(ws: string)
    requires Specials(ws) == 0
    ensures forall i :: 0 <= i < |ws| ==> !IsSpecial(ws[i])
  {
    if ws != [] {
      NoSpecials(ws[1..]);
      assert forall i :: 0 < i < |ws| ==> ws[i] == ws[1..][i - 1];
    }
  }

  lemma {:induction false} SomeSpecial(ws: string)
    requires Escaped(ws) != ws
    ensures exists i :: 0 <= i < |ws| && IsSpecial(ws[i])
  {
    if !IsSpecial(ws[0]) {
      SomeSpecial(ws[1..]);
      var i :| 0 <= i < |ws[1..]| && IsSpecial(ws[1..][i]);
      assert ws[i + 1] == ws[1..][i];
    }
  }

  lemma {:induction false} TokenInside(ws: string)
    ensures var inString := T.NEUTRAL.(inString := true);
      T.TokenLength(Escaped(ws) + ['"'], inString) == |Escaped(ws)| + 1
      && T.After(inString, Escaped(ws) + ['"']) == T.NEUTRAL
  {
    var q := T.NEUTRAL.(inString := true);
    if ws == [] {
      assert ['"'][1..] == [];
    } else {
      var c, rest := ws[0], Escaped(ws[1..]) + ['"'];
      var line := Escaped(ws) + ['"'];
      TokenInside(ws[1..]);
      if IsSpecial(c) {
        assert line == ['\\', c] + rest;
        assert line[1..] == [c] + rest && line[1..][1..] == rest;
        var e := T.Next(q, '\\');
        assert e.escaped && T.Next(e, c) == q;
        assert T.TokenLength(line[1..], e) == 1 + T.TokenLength(rest, q);
        assert T.After(e, line[1..]) == T.After(q, rest);
      } else {
        assert line == [c] + rest && line[1..] == rest;
        assert T.Next(q, c) == q;
      }
    }
  }

  lemma QuotedIsClosed(ws: string)
    ensures T.IsClosed(Quoted(ws))
  {
    TokenInside(ws);
    assert Quoted(ws)[1..] == Escaped(ws) + ['"'];
  }

  lemma TwoTokens(a: string, b: string)
    requires T.IsClosed(a) && T.IsToken(b)
    ensures T.Split(a + [' '] + b) == [a, b]
  {
    var tokens := [a, b];
    assert T.AreTokens(tokens);
    T.SplitJoin(tokens);
    assert tokens[1..] == [b];
  }

  lemma {:induction false} LettersAreClosed(s: string)
    requires forall i :: 0 <= i < |s| ==> 'a' <= s[i] <= 'z'
    ensures T.TokenLength(s, T.NEUTRAL) == |s| && T.After(T.NEUTRAL, s) == T.NEUTRAL
  {
    if s != [] {
      assert T.Next(T.NEUTRAL, s[0]) == T.NEUTRAL;
      LettersAreClosed(s[1..]);
    }
  }

  // ---- What arrives ----

  // The command as it is sent, and the list the compositor makes of it.
  function Sent(ws: string): (command: string) {
    "workspace " + Quoted(ws)
  }

  function Received(ws: string): (list: string) {
    I.Joined(Sent(ws), true)
  }

  // The commands in that list.
  function CommandsIn(list: string): (texts: seq<string>) {
    E.Texts(list, E.RawCommands(list, E.SEPARATORS, 0))
  }

  // The list is a single command, and its handler is given just the name.
  ghost predicate Arrives(ws: string, symbols: seq<V.Variable>)
    requires V.ProperNames(symbols)
  {
    var texts := CommandsIn(Received(ws));
    |texts| == 1 && E.Arguments(T.Split(texts[0]), false, symbols) == ["workspace", ws]
  }

  // The name with the newlines at the ends of its lines replaced.
  function Name(ws: string): (n: string) {
    I.Joined(ws, false)
  }

  lemma {:induction false} JoinedBehind(a: string, b: string, blank: bool)
    requires I.NEWLINE !in a
    ensures I.Joined(a + b, blank) == a + I.Joined(b, blank && a == [])
  {
    if a == [] {
      assert a + b == b && a + I.Joined(b, blank) == I.Joined(b, blank);
    } else {
      assert (a + b)[0] == a[0] && (a + b)[1..] == a[1..] + b;
      JoinedBehind(a[1..], b, false);
    }
  }

  ghost predicate JoinsEscaped(ws: string, blank: bool) {
    I.Joined(Escaped(ws) + ['"'], blank) == Escaped(I.Joined(ws, blank)) + ['"']
  }

  lemma NewlineEscaped(ws: string, blank: bool)
    requires ws != [] && ws[0] == I.NEWLINE && JoinsEscaped(ws[1..], true)
    ensures JoinsEscaped(ws, blank)
  {
    var rest := Escaped(ws[1..]) + ['"'];
    assert Escaped(ws) + ['"'] == [I.NEWLINE] + rest && ([I.NEWLINE] + rest)[1..] == rest;
  }

  lemma OtherEscaped(ws: string, blank: bool)
    requires ws != [] && ws[0] != I.NEWLINE && JoinsEscaped(ws[1..], false)
    ensures JoinsEscaped(ws, blank)
  {
    var c := ws[0];
    var first := if IsSpecial(c) then ['\\', c] else [c];
    var rest := Escaped(ws[1..]) + ['"'];
    assert Escaped(ws) + ['"'] == first + rest;
    JoinedBehind(first, rest, blank);
  }

  lemma {:induction false} JoinedEscaped(ws: string, blank: bool)
    ensures JoinsEscaped(ws, blank)
  {
    if ws == [] {
      assert Escaped(ws) + ['"'] == ['"'] && ['"'][1..] == [];
    } else {
      JoinedEscaped(ws[1..], ws[0] == I.NEWLINE);
      if ws[0] == I.NEWLINE {
        NewlineEscaped(ws, blank);
      } else {
        OtherEscaped(ws, blank);
      }
    }
  }

  // The newlines are replaced as if that had been done before quoting.
  lemma ReceivedName(ws: string)
    ensures Received(ws) == Sent(Name(ws))
  {
    JoinedBehind(PREFIX, Escaped(ws) + ['"'], true);
    JoinedEscaped(ws, false);
    SentText(ws);
    SentText(Name(ws));
  }

  lemma CommandTokens(n: string)
    ensures T.Split(Sent(n)) == ["workspace", Quoted(n)]
  {
    QuotedIsClosed(n);
    LettersAreClosed("workspace");
    TwoTokens("workspace", Quoted(n));
    assert "workspace" + [' '] == "workspace ";
  }

  // If the command is not cut, the handler is given the escaped name with its
  // variables replaced: the quotes are removed, the escapes stay.
  lemma SentArguments(n: string, symbols: seq<V.Variable>)
    requires V.ProperNames(symbols)
    ensures E.Arguments(T.Split(Sent(n)), false, symbols) == ["workspace", V.Expand([], Escaped(n), symbols)]
  {
    CommandTokens(n);
    StripQuoted(n);
    assert !E.KeepsQuotes("workspace") by { assert |"workspace"| == 9 && |"exec"| == 4 && |"mode"| == 4; }
  }

  lemma {:induction false} EscapedMember(ws: string, c: char)
    requires c !in ws && c != '\\'
    ensures c !in Escaped(ws)
  {
    if ws != [] { EscapedMember(ws[1..], c); }
  }

  lemma QuotedIsResolved(ws: string, overrun: string -> string)
    requires NUL !in ws
    ensures C.Resolved(Quoted(ws), false, overrun) == ws
  {
    StripQuoted(ws);
    DecodeEscaped(ws);
    EscapedMember(ws, NUL);
    Q.DecodableIsDecoded(Escaped(ws));
  }

  // ---- When the command is not cut ----

  const IN_QUOTES := A.Reading(true, false, false)

  // How a character of the name, with its backslash if it gets one, is read when
  // the list is cut.
  function NameStep(q: A.Reading, c: char): (r: A.Reading) {
    A.Read(E.SEPARATORS, if IsSpecial(c) then A.Read(E.SEPARATORS, q, '\\') else q, c)
  }

  // No separator of the name is outside quotes.
  predicate Whole(n: string, q: A.Reading) {
    n == [] || (!(n[0] in E.SEPARATORS && q == A.OUTSIDE) && Whole(n[1..], NameStep(q, n[0])))
  }

  lemma {:induction false} WholeIffNoSeparator(a: string, n: string, q: A.Reading)
    ensures var s := a + (Escaped(n) + ['"']);
      A.Separator(s, E.SEPARATORS, |a|, q) == |s| <==> Whole(n, q)
    decreases |n|
  {
    var s := a + (Escaped(n) + ['"']);
    if n == [] {
      assert s[|a|] == '"' && |s| == |a| + 1;
    } else {
      var c := n[0];
      var a' := a + if IsSpecial(c) then ['\\', c] else [c];
      assert s == a' + (Escaped(n[1..]) + ['"']);
      WholeIffNoSeparator(a', n[1..], NameStep(q, c));
      assert s[|a|] == if IsSpecial(c) then '\\' else c;
      if IsSpecial(c) {
        assert s[|a| + 1] == c;
      }
    }
  }

  lemma {:induction false} PlainIsPassed(s: string, i: nat, end: nat)
    requires i <= end <= |s| && forall k :: i <= k < end ==> !A.IsInteresting(E.SEPARATORS, s[k])
    ensures A.Separator(s, E.SEPARATORS, i, A.OUTSIDE) == A.Separator(s, E.SEPARATORS, end, A.OUTSIDE)
    decreases end - i
  {
    if i < end { PlainIsPassed(s, i + 1, end); }
  }

  // The command is not cut exactly if every separator in the name is read inside
  // its quotes.
  lemma StaysOnePieceIff(n: string)
    ensures A.Separator(Sent(n), E.SEPARATORS, 0, A.OUTSIDE) == |Sent(n)| <==> Whole(n, IN_QUOTES)
  {
    var s := Sent(n);
    SentText(n);
    assert forall k :: 0 <= k < 10 ==> s[k] == "workspace "[k];
    PlainIsPassed(s, 0, 10);
    assert s[10] == '"' && A.Read(E.SEPARATORS, A.OUTSIDE, '"') == IN_QUOTES;
    WholeIffNoSeparator(PREFIX, n, IN_QUOTES);
  }

  lemma {:induction false} NotAllBlank(s: string, from: nat, end: nat)
    requires from < end <= |s| && !T.IsSpace(s[end - 1])
    ensures E.SkipBlanks(s, from, end) < end
    decreases end - from
  {
    if from < end - 1 && T.IsSpace(s[from]) { NotAllBlank(s, from + 1, end); }
  }

  lemma {:induction false} EndsInCommand(s: string, from: nat)
    requires from < |s| && !T.IsSpace(s[|s| - 1]) && s[|s| - 1] !in E.SEPARATORS
    ensures E.RawCommands(s, E.SEPARATORS, from).Then?
    decreases |s| - from
  {
    var n := A.Separator(s, E.SEPARATORS, from, A.OUTSIDE);
    A.SeparatorIsFirst(s, E.SEPARATORS, from, from);
    if n < |s| {
      EndsInCommand(s, n + 1);
    } else {
      NotAllBlank(s, from, |s|);
    }
  }

  // A list that begins and ends with characters of commands.
  predicate IsTight(s: string) {
    && s != [] && !T.IsSpace(s[0]) && s[0] !in E.SEPARATORS && s[0] != '['
    && !T.IsSpace(s[|s| - 1]) && s[|s| - 1] !in E.SEPARATORS
  }

  predicate IsUncut(s: string) {
    A.Separator(s, E.SEPARATORS, 0, A.OUTSIDE) == |s|
  }

  lemma OneCommandIff(s: string)
    requires IsTight(s)
    ensures IsUncut(s) ==> E.RawCommands(s, E.SEPARATORS, 0) == E.Then(E.Span(0, |s|), E.Done)
    ensures if IsUncut(s) then CommandsIn(s) == [s] else |CommandsIn(s)| >= 2
  {
    assert s[0..|s|] == s;
    var end := A.Separator(s, E.SEPARATORS, 0, A.OUTSIDE);
    assert end > 0 && E.SkipBlanks(s, 0, end) == 0;
    if end < |s| {
      A.SeparatorIsFirst(s, E.SEPARATORS, 0, 0);
      EndsInCommand(s, end + 1);
      var rest := E.RawCommands(s, E.SEPARATORS, end + 1);
      assert E.RawCommands(s, E.SEPARATORS, 0) == E.Then(E.Span(0, end), rest);
      assert |E.Texts(s, rest)| > 0;
    } else {
      assert E.Texts(s, E.Then(E.Span(0, |s|), E.Done)) == [s] + E.Texts(s, E.Done);
    }
  }

  lemma OneCommandRuns<Env(!new), Container(!new)>(session: E.Session<Env, Container>, env: Env, s: string)
    requires E.Proper(session) && IsTight(s) && IsUncut(s)
    ensures var (after, status) := E.RunCommand(session, env, None, s);
      E.Run(session, env, s, A.CutsOf(s, E.SEPARATORS), 0, true, None) == E.Result(after, [status])
  {
    OneCommandIff(s);
    E.RawCommandsAreNonBlank(s, E.SEPARATORS, 0);
    var commands := E.Then(E.Span(0, |s|), E.Done);
    assert E.NoCriteria(s, commands) && s[0..|s|] == s;
    E.PlainListRunsPieces(session, env, s);
  }

  lemma SentIsTight(n: string)
    ensures IsTight(Sent(n))
  {
  }

  // The name arrives unchanged if and only if its command is not cut and putting
  // in backslashes, joining lines and replacing variables cancel out.
  lemma ArrivesIff(ws: string, symbols: seq<V.Variable>)
    requires V.ProperNames(symbols)
    ensures Arrives(ws, symbols) <==>
      Whole(Name(ws), IN_QUOTES) && V.Expand([], Escaped(Name(ws)), symbols) == ws
  {
    var n := Name(ws);
    ReceivedName(ws);
    SentIsTight(n);
    StaysOnePieceIff(n);
    OneCommandIff(Sent(n));
    SentArguments(n, symbols);
    var name := V.Expand([], Escaped(n), symbols);
    assert ["workspace", name] == ["workspace", ws] <==> name == ws by {
      assert ["workspace", name][1] == name && ["workspace", ws][1] == ws;
    }
  }

  lemma SentRuns<Env(!new), Container(!new)>(session: E.Session<Env, Container>, env: Env, n: string)
    requires E.Proper(session) && "workspace" in session.handlers && "workspace" !in session.setters
    ensures E.RunCommand(session, env, None, Sent(n)) ==
      session.run(env, None, ["workspace", V.Expand([], Escaped(n), session.symbols(env))])
  {
    CommandTokens(n);
    SentArguments(n, session.symbols(env));
  }

  // And then the compositor runs just that.
  lemma ArrivalRuns<Env(!new), Container(!new)>(session: E.Session<Env, Container>, env: Env, ws: string)
    requires E.Proper(session) && "workspace" in session.handlers && "workspace" !in session.setters
    requires Arrives(ws, session.symbols(env))
    ensures var (after, status) := session.run(env, None, ["workspace", ws]);
      E.Run(session, env, Received(ws), A.CutsOf(Received(ws), E.SEPARATORS), 0, true, None) ==
        E.Result(after, [status])
  {
    var n := Name(ws);
    ReceivedName(ws);
    ArrivesIff(ws, session.symbols(env));
    SentIsTight(n);
    StaysOnePieceIff(n);
    SentRuns(session, env, n);
    OneCommandRuns(session, env, Sent(n));
  }

  // ---- Which names arrive ----

  predicate IsPlain(ws: string) {
    '"' !in ws && '\\' !in ws && I.NEWLINE !in ws
  }

  lemma {:induction false} WithoutQuotesWhole(n: string, q: A.Reading)
    requires '"' !in n && q.inString
    ensures Whole(n, q)
  {
    if n != [] { WithoutQuotesWhole(n[1..], NameStep(q, n[0])); }
  }

  lemma {:induction false} EscapedCounts(ws: string)
    ensures multiset(Escaped(ws))['\\'] == multiset(ws)['\\'] + Specials(ws)
    ensures multiset(Escaped(ws))[';'] == multiset(ws)[';']
  {
    if ws != [] {
      EscapedCounts(ws[1..]);
      assert ws == [ws[0]] + ws[1..];
    }
  }

  lemma {:induction false} JoinedCounts(ws: string, blank: bool)
    ensures multiset(I.Joined(ws, blank))['\\'] == multiset(ws)['\\']
    ensures multiset(I.Joined(ws, blank))[';'] >= multiset(ws)[';']
    ensures !blank && I.NEWLINE in ws ==> multiset(I.Joined(ws, blank))[';'] > multiset(ws)[';']
    ensures I.NEWLINE !in ws ==> I.Joined(ws, blank) == ws
  {
    if ws != [] {
      JoinedCounts(ws[1..], ws[0] == I.NEWLINE);
      assert ws == [ws[0]] + ws[1..];
    }
  }

  // Replacing variables loses no character that is in no name.
  lemma {:induction false} ExpandKeeps(c: char, done: string, rest: string, symbols: seq<V.Variable>)
    requires V.ProperNames(symbols) && c != '$' && forall v :: v in symbols ==> c !in v.name
    ensures multiset(V.Expand(done, rest, symbols))[c] >= multiset(done)[c] + multiset(rest)[c]
    decreases |rest|
  {
    if rest != [] {
      assert rest == [rest[0]] + rest[1..];
      if rest[0] != '$' || V.Escaped(done) {
        ExpandKeeps(c, done + [rest[0]], rest[1..], symbols);
      } else if |rest| > 1 && rest[1] == '$' {
        assert rest == ['$', '$'] + rest[2..];
        ExpandKeeps(c, done + ['$'], rest[2..], symbols);
      } else {
        match V.Match(symbols, rest)
        case Some(v) =>
          assert rest == v.name + rest[|v.name|..] && multiset(v.name)[c] == 0;
          ExpandKeeps(c, done + v.value, rest[|v.name|..], symbols);
        case None => ExpandKeeps(c, done + ['$'], rest[1..], symbols);
      }
    }
  }

  predicate HasPlainNames(symbols: seq<V.Variable>) {
    forall v :: v in symbols ==> '\\' !in v.name && ';' !in v.name
  }

  lemma PlainName(ws: string)
    requires IsPlain(ws)
    ensures Name(ws) == ws && Escaped(ws) == ws && Whole(ws, IN_QUOTES)
  {
    JoinedCounts(ws, false);
    assert forall i :: 0 <= i < |ws| ==> ws[i] in ws;
    EscapedIsPlainIff(ws);
    WithoutQuotesWhole(ws, IN_QUOTES);
  }

  lemma OnlyPlainNamesSurvive(ws: string, symbols: seq<V.Variable>)
    requires V.ProperNames(symbols) && HasPlainNames(symbols)
    requires V.Expand([], Escaped(Name(ws)), symbols) == ws
    ensures IsPlain(ws)
  {
    var n := Name(ws);
    JoinedCounts(ws, false);
    EscapedCounts(n);
    ExpandKeeps('\\', [], Escaped(n), symbols);
    ExpandKeeps(';', [], Escaped(n), symbols);
    assert Specials(n) == 0 && I.NEWLINE !in ws && n == ws;
    NoSpecials(ws);
  }

  // With variables whose names have neither a backslash nor a semicolon, a name
  // arrives unchanged exactly if it has no double quote, backslash or newline and
  // replacing variables leaves it as it is.
  lemma ArrivesPlainIff(ws: string, symbols: seq<V.Variable>)
    requires V.ProperNames(symbols) && HasPlainNames(symbols)
    ensures Arrives(ws, symbols) <==> IsPlain(ws) && V.Expand([], ws, symbols) == ws
  {
    ArrivesIff(ws, symbols);
    if Arrives(ws, symbols) {
      OnlyPlainNamesSurvive(ws, symbols);
    }
    if IsPlain(ws) {
      PlainName(ws);
    }
  }

  // A variable that stands for nothing and has the shortest name.
  const EMPTY_VARIABLE := V.Variable("$", "")

  lemma {:induction false} EmptyVariableShortens(done: string, rest: string)
    requires '\\' !in done && '\\' !in rest
    ensures |V.Expand(done, rest, [EMPTY_VARIABLE])| <= |done| + |rest|
    ensures '$' in rest ==> |V.Expand(done, rest, [EMPTY_VARIABLE])| < |done| + |rest|
    decreases |rest|
  {
    if rest != [] {
      if rest[0] != '$' {
        EmptyVariableShortens(done + [rest[0]], rest[1..]);
      } else if |rest| > 1 && rest[1] == '$' {
        EmptyVariableShortens(done + ['$'], rest[2..]);
      } else {
        assert "$" <= rest;
        assert done + [] == done;
        EmptyVariableShortens(done, rest[1..]);
      }
    }
  }

  // A name arrives unchanged whatever the variables are exactly if it has no
  // double quote, backslash, newline or dollar sign.
  lemma AlwaysArrivesIff(ws: string)
    ensures (forall symbols :: V.ProperNames(symbols) ==> Arrives(ws, symbols)) <==> IsPlain(ws) && '$' !in ws
  {
    if IsPlain(ws) && '$' !in ws {
      forall symbols | V.ProperNames(symbols)
        ensures Arrives(ws, symbols)
      {
        PlainName(ws);
        V.NothingToReplace(ws, symbols);
        ArrivesIff(ws, symbols);
      }
    }
    if forall symbols :: V.ProperNames(symbols) ==> Arrives(ws, symbols) {
      var t := [EMPTY_VARIABLE];
      assert V.ProperNames(t) && HasPlainNames(t);
      ArrivesPlainIff(ws, t);
      EmptyVariableShortens([], ws);
    }
  }

  // ---- The same command in the configuration ----

  // What the handler is given for it there.
  function ConfigArguments(ws: string, symbols: seq<V.Variable>, overrun: string -> string): (argv: seq<string>)
    requires V.ProperNames(symbols)
    ensures |argv| == |T.Split(V.Expand([], Sent(ws), symbols))|
  {
    var tokens := T.Split(V.Expand([], Sent(ws), symbols));
    seq(|tokens|, i requires 0 <= i < |tokens| =>
      if i == 0 then tokens[0] else C.Resolved(tokens[i], false, overrun))
  }

  lemma ConfigLineRuns<Env(!new)>(ws: string, env: Env, commands: C.Commands<Env>)
    requires C.Proper(commands)
    requires commands.isKnown("workspace") && !commands.isSet("workspace") && !commands.keepsQuotes("workspace")
    ensures var (after, status) := commands.run(env, ConfigArguments(ws, commands.symbols(env), commands.overrun));
      C.LineOutcome(T.Split(Sent(ws)), env, commands) == C.Ran(after, status)
  {
    var tokens := ["workspace", Quoted(ws)];
    CommandTokens(ws);
    assert Quoted(ws)[0] == '"' && tokens[0][0] == 'w' && tokens[1] == Quoted(ws);
    assert tokens[1..] == [Quoted(ws)];
    assert T.Join(tokens) == "workspace" + [' '] + Quoted(ws) == Sent(ws);
    var argv := C.Arguments(tokens, env, commands);
    assert argv == C.Resplit(tokens, false, commands.symbols(env));
    assert C.ProtectName(tokens, false) == tokens;
    assert C.Handed(argv, "workspace", commands) ==
      ConfigArguments(ws, commands.symbols(env), commands.overrun);
  }

  // What is left of a name where the empty variable is defined: one of two dollar
  // signs, and nothing of a single one.
  function Dropped(ws: string): (r: string)
    ensures |r| <= |ws| && ('$' in ws ==> |r| < |ws|)
  {
    if ws == [] then []
    else if ws[0] != '$' then [ws[0]] + Dropped(ws[1..])
    else if |ws| > 1 && ws[1] == '$' then ['$'] + Dropped(ws[2..])
    else Dropped(ws[1..])
  }

  lemma {:induction false} EscapedAppend(d: string, c: char)
    ensures Escaped(d + [c]) == Escaped(d) + Escaped([c])
  {
    if d == [] {
      assert d + [c] == [c];
    } else {
      assert (d + [c])[0] == d[0] && (d + [c])[1..] == d[1..] + [c];
      EscapedAppend(d[1..], c);
    }
  }

  // What stands for a character of the name.
  lemma EscapedOne(c: char)
    ensures Escaped([c]) == if IsSpecial(c) then ['\\', c] else [c]
  {
    assert [c][1..] == [];
  }

  // The part of the command up to somewhere in the name.
  function Front(d: string): (r: string) {
    PREFIX + Escaped(d)
  }

  lemma FrontNext(d: string, c: char)
    ensures Front(d + [c]) == Front(d) + Escaped([c])
  {
    EscapedAppend(d, c);
  }

  // No dollar sign behind it counts as escaped: backslashes come in pairs.
  lemma NothingEscapedBehind(d: string)
    ensures !V.Escaped(Front(d))
  {
    if d == [] {
      assert Front(d) == PREFIX && PREFIX[10] == '"';
    } else {
      var c := d[|d| - 1];
      assert d == d[..|d| - 1] + [c];
      FrontNext(d[..|d| - 1], c);
      EscapedOne(c);
    }
  }

  lemma EscapedRest(ws: string)
    requires ws != []
    ensures Escaped(ws) + ['"'] == Escaped([ws[0]]) + (Escaped(ws[1..]) + ['"'])
  {
    EscapedOne(ws[0]);
  }

  // With the rest of the name still to come.
  function Onward(d: string, ws: string): (r: string) {
    V.Expand(Front(d), Escaped(ws) + ['"'], [EMPTY_VARIABLE])
  }

  lemma PairExpands(done: string, rest: string)
    requires !V.Escaped(done)
    ensures V.Expand(done, ['$'] + (['$'] + rest), [EMPTY_VARIABLE]) == V.Expand(done + ['$'], rest, [EMPTY_VARIABLE])
  {
    var all := ['$'] + (['$'] + rest);
    assert all[1] == '$' && all[2..] == rest;
  }

  lemma SingleExpands(done: string, rest: string)
    requires !V.Escaped(done) && rest != [] && rest[0] != '$'
    ensures V.Expand(done, ['$'] + rest, [EMPTY_VARIABLE]) == V.Expand(done, rest, [EMPTY_VARIABLE])
  {
    var all := ['$'] + rest;
    assert all[1] == rest[0] && all[1..] == rest && "$" <= all && done + [] == done;
  }

  lemma CharacterStays(d: string, ws: string)
    requires ws != [] && ws[0] != '$'
    ensures Onward(d, ws) == Onward(d + [ws[0]], ws[1..])
  {
    var c, rest := ws[0], Escaped(ws[1..]) + ['"'];
    EscapedRest(ws);
    EscapedOne(c);
    FrontNext(d, c);
    V.PlainTextIsCopied(Front(d), Escaped([c]), rest, [EMPTY_VARIABLE]);
  }

  lemma PairLeavesOne(d: string, ws: string)
    requires |ws| > 1 && ws[0] == '$' && ws[1] == '$'
    ensures Onward(d, ws) == Onward(d + ['$'], ws[2..])
  {
    EscapedRest(ws);
    EscapedRest(ws[1..]);
    EscapedOne('$');
    NothingEscapedBehind(d);
    FrontNext(d, '$');
    assert ws[1..][1..] == ws[2..];
    PairExpands(Front(d), Escaped(ws[2..]) + ['"']);
  }

  lemma SingleIsDropped(d: string, ws: string)
    requires ws != [] && ws[0] == '$' && (|ws| > 1 ==> ws[1] != '$')
    ensures Onward(d, ws) == Onward(d, ws[1..])
  {
    var rest := Escaped(ws[1..]) + ['"'];
    EscapedRest(ws);
    EscapedOne('$');
    NothingEscapedBehind(d);
    if |ws| > 1 {
      EscapedRest(ws[1..]);
      EscapedOne(ws[1]);
      assert rest[0] != '$';
    } else {
      assert rest == ['"'];
    }
    SingleExpands(Front(d), rest);
  }

  lemma {:induction false} ExpandDrops(d: string, ws: string)
    ensures Onward(d, ws) == Front(d + Dropped(ws)) + ['"']
    decreases |ws|
  {
    if ws == [] {
      assert d + [] == d;
      QuoteExpands(Front(d));
    } else if ws[0] != '$' {
      CharacterStays(d, ws);
      ExpandDrops(d + [ws[0]], ws[1..]);
      Associative(d, [ws[0]], Dropped(ws[1..]));
    } else if |ws| > 1 && ws[1] == '$' {
      PairLeavesOne(d, ws);
      ExpandDrops(d + ['$'], ws[2..]);
      Associative(d, ['$'], Dropped(ws[2..]));
    } else {
      SingleIsDropped(d, ws);
      ExpandDrops(d, ws[1..]);
    }
  }

  lemma QuoteExpands(done: string)
    ensures V.Expand(done, Escaped([]) + ['"'], [EMPTY_VARIABLE]) == done + ['"']
  {
    assert Escaped([]) + ['"'] == ['"'] && ['"'][1..] == [];
  }

  // With the empty variable the command is the one for what is left of the name.
  lemma LeftInCommand(ws: string)
    ensures V.Expand([], Sent(ws), [EMPTY_VARIABLE]) == Sent(Dropped(ws))
  {
    var left := Dropped(ws);
    V.PlainTextIsCopied([], PREFIX, Escaped(ws) + ['"'], [EMPTY_VARIABLE]);
    SentText(ws);
    SentText(left);
    assert [] + PREFIX == PREFIX && PREFIX + [] == PREFIX && [] + left == left;
    Associative(PREFIX, Escaped(left), ['"']);
    ExpandDrops([], ws);
  }

  lemma DollarDoesNotSurvive(ws: string, overrun: string -> string)
    requires NUL !in ws && '$' in ws
    ensures C.ProperSymbols([EMPTY_VARIABLE])
    ensures ConfigArguments(ws, [EMPTY_VARIABLE], overrun) != ["workspace", ws]
  {
    var left := Dropped(ws);
    LeftInCommand(ws);
    CommandTokens(left);
    DroppedMember(ws);
    QuotedIsResolved(left, overrun);
    assert ConfigArguments(ws, [EMPTY_VARIABLE], overrun)[1] == left;
  }

  lemma {:induction false} DroppedMember(ws: string)
    requires NUL !in ws
    ensures NUL !in Dropped(ws)
    decreases |ws|
  {
    if ws != [] {
      DroppedMember(ws[1..]);
      if |ws| > 1 { DroppedMember(ws[2..]); }
    }
  }

  // There the name gets through whatever the variables are if and only if it has no
  // dollar sign: quotes, backslashes and newlines do no harm.
  lemma SurvivesConfigIff(ws: string, overrun: string -> string)
    requires NUL !in ws
    ensures (forall symbols ::
        C.ProperSymbols(symbols) ==> ConfigArguments(ws, symbols, overrun) == ["workspace", ws])
      <==> '$' !in ws
  {
    if '$' in ws {
      DollarDoesNotSurvive(ws, overrun);
    } else {
      forall symbols | C.ProperSymbols(symbols)
        ensures ConfigArguments(ws, symbols, overrun) == ["workspace", ws]
      {
        EscapedMember(ws, '$');
        V.NothingToReplace(Sent(ws), symbols);
        CommandTokens(ws);
        QuotedIsResolved(ws, overrun);
      }
    }
  }

  // So the command itself runs with every such name.
  lemma NameSurvivesConfig<Env(!new)>(ws: string, env: Env, commands: C.Commands<Env>)
    requires C.Proper(commands) && NUL !in ws && '$' !in ws
    requires commands.isKnown("workspace") && !commands.isSet("workspace") && !commands.keepsQuotes("workspace")
    ensures var (after, status) := commands.run(env, ["workspace", ws]);
      C.LineOutcome(T.Split(Sent(ws)), env, commands) == C.Ran(after, status)
  {
    ConfigLineRuns(ws, env, commands);
    SurvivesConfigIff(ws, commands.overrun);
  }

  // ---- Names that do not arrive ----

  // What becomes of a name whose command is not cut.
  lemma ArrivesAs(ws: string, n: string, symbols: seq<V.Variable>, name: string)
    requires V.ProperNames(symbols) && n == Name(ws) && IsPlain(n) && V.Expand([], n, symbols) == name
    ensures CommandsIn(Received(ws)) == [Sent(n)]
    ensures E.Arguments(T.Split(Sent(n)), false, symbols) == ["workspace", name]
    ensures Arrives(ws, symbols) <==> name == ws
  {
    PlainName(n);
    ReceivedName(ws);
    SentIsTight(n);
    StaysOnePieceIff(n);
    OneCommandIff(Sent(n));
    SentArguments(n, symbols);
    ArrivesIff(ws, symbols);
  }

  lemma TwoDollars(symbols: seq<V.Variable>)
    requires V.ProperNames(symbols)
    ensures V.Expand([], "a$$b", symbols) == "a$b"
  {
    var ws, rest := "a$$b", "$$b";
    assert ws[1..] == rest && rest[2..] == "b" && rest[1] == '$';
    assert V.Expand([], ws, symbols) == V.Expand(['a'], rest, symbols);
    assert V.Expand(['a'], rest, symbols) == V.Expand(['a', '$'], "b", symbols);
    assert V.Expand(['a', '$'], "b", symbols) == V.Expand(['a', '$', 'b'], [], symbols);
  }

  // Of two dollar signs one is left.
  lemma DollarIsLost(ws: string, symbols: seq<V.Variable>)
    requires ws == "a$$b" && V.ProperNames(symbols)
    ensures CommandsIn(Received(ws)) == [Sent(ws)]
    ensures E.Arguments(T.Split(Sent(ws)), false, symbols) == ["workspace", "a$b"]
    ensures !Arrives(ws, symbols)
  {
    TwoDollars(symbols);
    TwoDollarsName(ws);
    ShorterIsLost(ws, "a$b", symbols);
  }

  lemma TwoDollarsName(ws: string)
    requires ws == "a$$b"
    ensures IsPlain(ws) && |ws| == 4
  {
  }

  lemma ShorterIsLost(ws: string, name: string, symbols: seq<V.Variable>)
    requires V.ProperNames(symbols) && IsPlain(ws) && V.Expand([], ws, symbols) == name && |name| < |ws|
    ensures CommandsIn(Received(ws)) == [Sent(ws)]
    ensures E.Arguments(T.Split(Sent(ws)), false, symbols) == ["workspace", name]
    ensures !Arrives(ws, symbols)
  {
    JoinedCounts(ws, false);
    ArrivesAs(ws, ws, symbols, name);
  }

  // A line ends in a semicolon, which stays inside the quotes.
  lemma NewlineIsLost(symbols: seq<V.Variable>)
    requires V.ProperNames(symbols)
    ensures CommandsIn(Received("a\nb")) == [Sent("a;b")]
    ensures E.Arguments(T.Split(Sent("a;b")), false, symbols) == ["workspace", "a;b"]
    ensures !Arrives("a\nb", symbols)
  {
    var ws, n := "a\nb", "a;b";
    assert ws[1..] == "\nb" && ws[1..][1..] == "b";
    assert Name(ws) == n && n[1] != ws[1];
    V.NothingToReplace(n, symbols);
    ArrivesAs(ws, n, symbols, n);
  }

  // With a variable whose name has a semicolon in it, even a name with a newline
  // may arrive.
  lemma NewlineMayArrive()
    ensures Arrives("$a\n", [V.Variable("$a;", "$a\n")])
  {
    var ws, n, v := "$a\n", "$a;", V.Variable("$a;", "$a\n");
    assert ws[1..] == "a\n" && ws[1..][1..] == "\n";
    assert Name(ws) == n;
    assert V.Match([v], n) == Some(v) && n[|v.name|..] == [] && [] + v.value == ws;
    assert V.Expand([], n, [v]) == ws;
    ArrivesAs(ws, n, [v], ws);
  }

  // The escape in front of a quote runs on to the next backslash, so that a second
  // quote ends the quoting; the command is cut at the semicolon.
  lemma QuotesEndTooEarly(ws: string, symbols: seq<V.Variable>)
    requires ws == "\"\\\";x" && V.ProperNames(symbols)
    ensures A.RawPieces(Received(ws), E.SEPARATORS, 0).end == 17 < |Received(ws)|
    ensures |CommandsIn(Received(ws))| >= 2 && !Arrives(ws, symbols)
  {
    JoinedCounts(ws, false);
    ReceivedName(ws);
    SentIsTight(ws);
    FirstCut(ws);
    OneCommandIff(Sent(ws));
  }

  lemma EscapedSample()
    ensures Escaped("\"\\\";x") == "\\\"\\\\\\\";x"
  {
    var n0, n1, n2, n3 := "\"\\\";x", "\\\";x", "\";x", ";x";
    assert n0[1..] == n1 && n1[1..] == n2 && n2[1..] == n3 && n3[1..] == "x";
    assert Escaped("x") == "x" && Escaped(n3) == ";x";
    assert Escaped(n2) == "\\\";x";
    assert Escaped(n1) == "\\\\" + "\\\";x";
  }

  lemma FirstCut(ws: string)
    requires ws == "\"\\\";x"
    ensures A.Separator(Sent(ws), E.SEPARATORS, 0, A.OUTSIDE) == 17 < |Sent(ws)|
  {
    var s, e, esc := Sent(ws), Escaped(ws), IN_QUOTES.(escaped := true);
    EscapedSample();
    SentText(ws);
    assert forall k :: 0 <= k < 11 ==> s[k] == PREFIX[k];
    assert forall k :: 0 <= k < 8 ==> s[11 + k] == e[k];
    PlainIsPassed(s, 0, 10);
    assert A.Separator(s, E.SEPARATORS, 17, A.OUTSIDE) == 17;
    assert A.Separator(s, E.SEPARATORS, 16, IN_QUOTES) == 17;
    assert A.Separator(s, E.SEPARATORS, 15, esc) == 17;
    assert A.Separator(s, E.SEPARATORS, 14, IN_QUOTES) == 17;
    assert A.Separator(s, E.SEPARATORS, 13, esc) == 17;
    assert A.Separator(s, E.SEPARATORS, 12, esc) == 17;
    assert A.Separator(s, E.SEPARATORS, 11, IN_QUOTES) == 17;
    assert A.Separator(s, E.SEPARATORS, 10, A.OUTSIDE) == 17;
  }
}
