// sway/commands.c: running a command list.
module ExecuteCommand {
  import opened ArgSep
  import opened CommandStatus
  import opened Sequences
  import opened Tokens
  import opened Wrappers
  import C = CriteriaText
  import Q = Quotes
  import V = Variables

  const SEPARATORS := ";,"

  // ---- What the handler of a command is given ----

  // Arguments of these commands keep their quotes.
  predicate KeepsQuotes(name: string) {
    name == "exec" || name == "exec_always" || name == "mode"
  }

  function Unquoted(arg: string): (r: string) {
    if arg != [] && (arg[0] == '"' || arg[0] == '\'') then Q.StripQuotes(arg) else arg
  }

  // One argument of a command: without quotes, if it starts with one, and with
  // variables replaced, except in the name that is set.
  function Argument(tokens: seq<string>, i: nat, isSet: bool, symbols: seq<V.Variable>): (arg: string)
    requires i < |tokens| && V.ProperNames(symbols)
  {
    if i == 0 then tokens[0]
    else
      var arg := if KeepsQuotes(tokens[0]) then tokens[i] else Unquoted(tokens[i]);
      if i == 1 && isSet then arg else V.Expand([], arg, symbols)
  }

  function Arguments(tokens: seq<string>, isSet: bool, symbols: seq<V.Variable>): (argv: seq<string>)
    requires V.ProperNames(symbols)
    ensures |argv| == |tokens| && forall i :: 0 <= i < |tokens| ==> argv[i] == Argument(tokens, i, isSet, symbols)
  {
    seq(|tokens|, i requires 0 <= i < |tokens| => Argument(tokens, i, isSet, symbols))
  }

  method StripArguments(argv: array<string>, argc: nat)
    requires 0 < argc <= argv.Length && forall i :: 0 <= i < argc ==> NUL !in argv[i]
    modifies argv
    ensures argv[0] == old(argv[0])
    ensures forall i :: 1 <= i < argc ==>
      argv[i] == if KeepsQuotes(argv[0]) then old(argv[i]) else Unquoted(old(argv[i]))
  {
    if argv[0] != "exec" && argv[0] != "exec_always" && argv[0] != "mode" {
      for i := 1 to argc
        invariant forall k :: 0 <= k < argv.Length && !(1 <= k < i) ==> argv[k] == old(argv[k])
        invariant forall k :: 1 <= k < i ==> argv[k] == Unquoted(old(argv[k]))
      {
        if argv[i] != [] && (argv[i][0] == '"' || argv[i][0] == '\'') {
          argv[i] := Stripped(argv[i]);
        }
      }
    }
  }

  // The in-place removal of quotes on the C string of one argument.
  method Stripped(arg: string) returns (r: string)
    requires NUL !in arg
    ensures r == Q.StripQuotes(arg)
  {
    var buf := new char[|arg| + 1];
    forall k | 0 <= k < |arg| {
      buf[k] := arg[k];
    }
    buf[|arg|] := NUL;
    assert buf[..|arg|] == arg;
    Q.StripQuotesInPlace(buf, arg);
    var len := Q.StrLen(buf, Q.StripQuotes(arg));
    r := buf[..len];
  }

  method ReplaceVariables(argv: array<string>, argc: nat, isSet: bool, symbols: seq<V.Variable>)
    requires 0 < argc <= argv.Length && V.ProperNames(symbols)
    modifies argv
    ensures forall i :: 0 <= i < argc ==>
      argv[i] == if i == 0 || (i == 1 && isSet) then old(argv[i]) else V.Expand([], old(argv[i]), symbols)
  {
    var i := if isSet then 2 else 1;
    while i < argc
      invariant 1 <= i
      invariant forall k :: 0 <= k < argc && (k >= i || k == 0 || (k == 1 && isSet)) ==> argv[k] == old(argv[k])
      invariant forall k :: 1 <= k < i && k < argc && !(k == 1 && isSet) ==>
        argv[k] == V.Expand([], old(argv[k]), symbols)
    {
      argv[i] := V.DoVarReplacement(argv[i], symbols);
      i := i + 1;
    }
  }

  // ---- Running a list ----

  // What the list acts on: the containers that criteria select, unless there is a
  // mistake in these; the names of the commands, and of those that set a variable;
  // their effects, for the focus (None) or for one container.
  datatype Session<!Env, !Container> = Session(
    select: (Env, seq<C.Pair>) -> Option<seq<Container>>,
    handlers: set<string>,
    setters: set<string>,
    symbols: Env -> seq<V.Variable>,
    run: (Env, Option<Container>, seq<string>) -> (Env, Status))

  ghost predicate Proper<Env(!new), Container(!new)>(session: Session<Env, Container>) {
    forall env :: V.ProperNames(session.symbols(env))
  }

  datatype Result<Env> = Result(env: Env, statuses: seq<Status>)

  // A command with criteria runs on each container; the last failure counts, and
  // an invalid command ends it.
  function RunOnEach<Env, Container>(session: Session<Env, Container>, env: Env, containers: seq<Container>,
          argv: seq<string>, status: Status): (r: (Env, Status))
  {
    if containers == [] then (env, status)
    else
      var (after, s) := session.run(env, Some(containers[0]), argv);
      if s == Invalid then (after, Invalid)
      else RunOnEach(session, after, containers[1..], argv, if s == Success then status else s)
  }

  function RunCommand<Env(!new), Container(!new)>(session: Session<Env, Container>, env: Env,
          scope: Option<seq<Container>>, command: string): (r: (Env, Status))
    requires Proper(session)
  {
    var tokens := Split(command);
    if tokens == [] || tokens[0] !in session.handlers then (env, Invalid)
    else
      var argv := Arguments(tokens, tokens[0] in session.setters, session.symbols(env));
      match scope
      case None => session.run(env, None, argv)
      case Some(containers) =>
        if containers == [] then (env, Failure) else RunOnEach(session, env, containers, argv, Success)
  }

  function SkipBlanks(s: string, from: nat, end: nat): (i: nat)
    requires from <= end <= |s|
    ensures from <= i <= end
    decreases end - from
  {
    if from < end && IsSpace(s[from]) then SkipBlanks(s, from + 1, end) else from
  }

  // Criteria are looked for at the start of a list and behind a semicolon only:
  // where the command begins and what it acts on, or None for bad criteria.
  function Scoped<Env(!new), Container(!new)>(session: Session<Env, Container>, env: Env, s: string, h: nat,
          first: bool, scope: Option<seq<Container>>): (r: Option<(nat, Option<seq<Container>>)>)
    requires Proper(session) && h <= |s|
    ensures r.Some? ==> h <= r.value.0 <= |s|
  {
    if !first then Some((h, scope))
    else if h == |s| || s[h] != '[' then Some((h, None))
    else ScopeOf(session, env, s, h, C.Parse(s[h..]))
  }

  // What criteria that begin at h and were read like this select, and where the
  // command behind them begins.
  function ScopeOf<Env, Container>(session: Session<Env, Container>, env: Env, s: string, h: nat,
          parsed: C.Parsed): (r: Option<(nat, Option<seq<Container>>)>)
    requires h <= |s| && (parsed.Parsed? ==> parsed.end <= |s[h..]|)
    ensures r.Some? ==> h <= r.value.0 <= |s|
  {
    match parsed
    case Bad => None
    case Parsed(pairs, end) =>
      match session.select(env, pairs)
      case None => None
      case Some(containers) => Some((SkipBlanks(s, h + end, |s|), Some(containers)))
  }

  // The rest of a list, from `head` on: one piece at a time, up to the first
  // invalid command.
  function Run<Env(!new), Container(!new)>(session: Session<Env, Container>, env: Env, s: string, cuts: seq<Cut>,
          head: nat, first: bool, scope: Option<seq<Container>>): (r: Result<Env>)
    requires Proper(session) && AreCuts(s, cuts) && head <= |s|
    decreases |s| - head, 1
  {
    match Scoped(session, env, s, SkipBlanks(s, head, |s|), first, scope)
    case None => Result(env, [Invalid])
    case Some((body, scope')) => RunBody(session, env, s, cuts, body, scope')
  }

  function RunBody<Env(!new), Container(!new)>(session: Session<Env, Container>, env: Env, s: string, cuts: seq<Cut>,
          body: nat, scope: Option<seq<Container>>): (r: Result<Env>)
    requires Proper(session) && AreCuts(s, cuts) && body <= |s|
    decreases |s| - body, 0
  {
    var cut := cuts[body];
    assert IsCut(s, cut, body);
    var i := SkipBlanks(s, cut.start, cut.end);
    var (after, statuses) := RunPiece(session, env, scope, s[i..cut.end]);
    if statuses == [Invalid] || !cut.found then Result(after, statuses)
    else Ahead(statuses, Run(session, after, s, cuts, cut.end + 1, s[cut.end] == ';', scope))
  }

  // Nothing happens for a blank piece.
  function RunPiece<Env(!new), Container(!new)>(session: Session<Env, Container>, env: Env,
          scope: Option<seq<Container>>, text: string): (r: (Env, seq<Status>))
    requires Proper(session)
  {
    if text == [] then (env, [])
    else
      var (after, status) := RunCommand(session, env, scope, text);
      (after, [status])
  }

  function Ahead<Env>(statuses: seq<Status>, rest: Result<Env>): (r: Result<Env>) {
    Result(rest.env, statuses + rest.statuses)
  }

  // ---- The loop ----

  // A buffer in which the rest of the list s stands, and what the calls of the
  // cutting function do with it.
  ghost predicate AreCutsOf(s: string, cuts: seq<Cut>) {
    AreCuts(s, cuts) && forall i :: 0 <= i <= |s| ==> MakesCut(s, cuts, i)
  }

  predicate MakesCut(s: string, cuts: seq<Cut>, i: nat)
    requires AreCuts(s, cuts) && i <= |s|
  {
    cuts[i] == Scan(s, SEPARATORS, Begin(i))
  }

  method SkipSpace(buf: array<char>, from: nat, ghost end: nat, ghost s: string) returns (i: nat)
    requires HoldsPiece(buf, s, from, end)
    ensures i == SkipBlanks(s, from, end)
  {
    i := from;
    while IsSpace(buf[i])
      invariant from <= i <= end && SkipBlanks(s, i, end) == SkipBlanks(s, from, end)
      decreases end - i
    {
      i := i + 1;
    }
  }

  // The C string at a place in the buffer.
  method TextAt(buf: array<char>, from: nat, ghost end: nat, ghost s: string) returns (text: string)
    requires HoldsPiece(buf, s, from, end)
    ensures text == s[from..end]
    ensures NUL !in text
  {
    var i := from;
    while buf[i] != NUL
      invariant from <= i <= end
      decreases end - i
    {
      i := i + 1;
    }
    assert buf[i] !in s;
    text := buf[from..i];
    assert forall c :: c in s[from..end] ==> c in s;
  }

  method ScopeAt<Env(!new), Container(!new)>(buf: array<char>, session: Session<Env, Container>, env: Env, h: nat,
          first: bool, scope: Option<seq<Container>>, ghost s: string)
    returns (ok: bool, body: nat, newScope: Option<seq<Container>>)
    requires Proper(session) && Remains(buf, s, h)
    ensures Scoped(session, env, s, h, first, scope) == if ok then Some((body, newScope)) else None
    ensures h <= body <= |s|
  {
    ok, body, newScope := true, h, scope;
    if first {
      newScope := None;
      assert buf[h] == if h < |s| then s[h] else NUL;
      if buf[h] == '[' {
        var text := TextAt(buf, h, |s|, s);
        assert text == s[h..];
        var parsed := C.ParseText(text);
        if parsed == C.Bad {
          return false, h, scope;
        }
        var containers := session.select(env, parsed.pairs);
        if containers.None? {
          return false, h, scope;
        }
        body := SkipSpace(buf, h + parsed.end, |s|, s);
        newScope := containers;
      }
    }
  }

  method RunOnContainers<Env, Container>(session: Session<Env, Container>, env: Env, containers: seq<Container>,
          argv: seq<string>) returns (after: Env, status: Status)
    ensures (after, status) == RunOnEach(session, env, containers, argv, Success)
  {
    after, status := env, Success;
    var i := 0;
    assert containers[0..] == containers;
    while i < |containers|
      invariant 0 <= i <= |containers|
      invariant RunOnEach(session, after, containers[i..], argv, status) ==
        RunOnEach(session, env, containers, argv, Success)
    {
      assert containers[i..][1..] == containers[i + 1..];
      var (next, s) := session.run(after, Some(containers[i]), argv);
      after := next;
      if s != Success {
        status := s;
        if s == Invalid {
          return;
        }
      }
      i := i + 1;
    }
  }

  method HandleCommand<Env(!new), Container(!new)>(session: Session<Env, Container>, env: Env,
          scope: Option<seq<Container>>, cmd: string) returns (after: Env, status: Status)
    requires Proper(session) && NUL !in cmd && cmd != [] && !IsSpace(cmd[0])
    ensures (after, status) == RunCommand(session, env, scope, cmd)
  {
    var argv, argc := SplitArgs(cmd);
    ghost var tokens := Split(cmd);
    SplitMember(cmd, NUL);
    assert argv[..argc] == tokens && argv[0] == tokens[0];
    assert forall i :: 0 <= i < argc ==> argv[i] == tokens[i];
    StripArguments(argv, argc);
    if argv[0] !in session.handlers {
      return env, Invalid;
    }
    var isSet := argv[0] in session.setters;
    ReplaceVariables(argv, argc, isSet, session.symbols(env));
    var arguments := argv[..argc];
    assert arguments == Arguments(tokens, isSet, session.symbols(env));
    match scope {
      case None =>
        var (after', status') := session.run(env, None, arguments);
        return after', status';
      case Some(containers) =>
        if |containers| == 0 {
          return env, Failure;
        }
        after, status := RunOnContainers(session, env, containers, arguments);
    }
  }

  // One turn of the loop, behind the criteria: the status of the command, if the
  // piece was not blank, and where the next piece starts, if the list goes on.
  method BodyStep<Env(!new), Container(!new)>(buf: array<char>, session: Session<Env, Container>, env: Env,
          body: nat, scope: Option<seq<Container>>, ghost s: string, ghost cuts: seq<Cut>)
    returns (after: Env, statuses: seq<Status>, next: Option<nat>, first: bool)
    requires Proper(session) && Remains(buf, s, body) && AreCutsOf(s, cuts)
    modifies buf
    ensures next.Some? ==> body < next.value && Remains(buf, s, next.value)
    ensures RunBody(session, env, s, cuts, body, scope) == Onward(session, after, s, cuts, statuses, next, first, scope)
  {
    var text, rest;
    text, rest, first := NextPiece(buf, body, s, cuts);
    after, statuses := HandlePiece(session, env, scope, text);
    RunsPiece(session, env, s, cuts, body, scope, text, rest, first);
    next := if statuses == [Invalid] then None else rest;
  }

  lemma RunsPiece<Env(!new), Container(!new)>(session: Session<Env, Container>, env: Env, s: string, cuts: seq<Cut>,
          body: nat, scope: Option<seq<Container>>, text: string, next: Option<nat>, first: bool)
    requires Proper(session) && AreCuts(s, cuts) && body <= |s|
    requires IsCut(s, cuts[body], body) && IsPiece(s, cuts[body], text, next, first)
    ensures var (after, statuses) := RunPiece(session, env, scope, text);
      RunBody(session, env, s, cuts, body, scope) ==
        Onward(session, after, s, cuts, statuses, if statuses == [Invalid] then None else next, first, scope)
  {
  }

  // Cuts off one piece and drops its leading whitespace.
  method NextPiece(buf: array<char>, body: nat, ghost s: string, ghost cuts: seq<Cut>)
    returns (text: string, next: Option<nat>, first: bool)
    requires Remains(buf, s, body) && AreCutsOf(s, cuts)
    modifies buf
    ensures IsCut(s, cuts[body], body) && IsPiece(s, cuts[body], text, next, first)
    ensures next.Some? ==> Remains(buf, s, next.value)
    ensures NUL !in text && (text != [] ==> !IsSpace(text[0]))
  {
    var cmd, rest, matched, cut := ArgSep.ArgSep(buf, body, SEPARATORS, s);
    assert MakesCut(s, cuts, body) && cut == cuts[body];
    next, first := rest, matched == ';';
    cmd := SkipSpace(buf, cmd, cut.end, s);
    text := TextAt(buf, cmd, cut.end, s);
    SkipsAll(s, cut.start, cut.end);
    assert text != [] ==> text[0] == s[cmd];
  }

  ghost predicate IsPiece(s: string, cut: Cut, text: string, next: Option<nat>, first: bool)
    requires IsCut(s, cut, 0)
  {
    && text == s[SkipBlanks(s, cut.start, cut.end)..cut.end]
    && next == (if cut.found then Some(cut.end + 1) else None)
    && (cut.found ==> first == (s[cut.end] == ';'))
  }

  method HandlePiece<Env(!new), Container(!new)>(session: Session<Env, Container>, env: Env,
          scope: Option<seq<Container>>, cmd: string) returns (after: Env, statuses: seq<Status>)
    requires Proper(session) && NUL !in cmd && (cmd != [] ==> !IsSpace(cmd[0]))
    ensures (after, statuses) == RunPiece(session, env, scope, cmd)
  {
    if cmd == "" {
      return env, [];
    }
    var status;
    after, status := HandleCommand(session, env, scope, cmd);
    statuses := [status];
  }

  // What is done so far, and what the rest of the list adds to it.
  ghost function Onward<Env(!new), Container(!new)>(session: Session<Env, Container>, env: Env, s: string,
          cuts: seq<Cut>, statuses: seq<Status>, next: Option<nat>, first: bool,
          scope: Option<seq<Container>>): (r: Result<Env>)
    requires Proper(session) && AreCuts(s, cuts) && (next.Some? ==> next.value <= |s|)
  {
    match next
    case None => Result(env, statuses)
    case Some(n) => Ahead(statuses, Run(session, env, s, cuts, n, first, scope))
  }

  lemma {:induction false} SkipsAll(s: string, from: nat, end: nat)
    requires from <= end <= |s|
    ensures var i := SkipBlanks(s, from, end); i < end ==> !IsSpace(s[i])
    decreases end - from
  {
    if from < end && IsSpace(s[from]) { SkipsAll(s, from + 1, end); }
  }

  method ExecuteCommand<Env(!new), Container(!new)>(buf: array<char>, session: Session<Env, Container>, env: Env,
          ghost s: string) returns (after: Env, statuses: seq<Status>)
    requires Proper(session) && Remains(buf, s, 0)
    modifies buf
    ensures Result(after, statuses) == Run(session, env, s, CutsOf(s, SEPARATORS), 0, true, None)
  {
    after, statuses := env, [];
    var next, first, scope := Some(0), true, None;
    ghost var cuts := CutsOf(s, SEPARATORS);
    while next.Some?
      invariant next.Some? ==> Remains(buf, s, next.value)
      invariant Run(session, env, s, cuts, 0, true, None) ==
        Onward(session, after, s, cuts, statuses, next, first, scope)
      decreases next.Some?, if next.Some? then |s| - next.value else 0
    {
      var h := SkipSpace(buf, next.value, |s|, s);
      var ok, body, newScope := ScopeAt(buf, session, after, h, first, scope, s);
      if !ok {
        return after, statuses + [Invalid];
      }
      var added;
      ghost var before := statuses;
      after, added, next, first := BodyStep(buf, session, after, body, newScope, s, cuts);
      statuses, scope := statuses + added, newScope;
      if next.Some? {
        Associative(before, added, Run(session, after, s, cuts, next.value, first, scope).statuses);
      }
    }
  }

  // ---- Lists without criteria ----

  // A command by where it stands in the list.
  datatype Span = Span(start: nat, end: nat)

  datatype CommandList = Done | Then(command: Span, rest: CommandList)

  // A piece without its leading whitespace is a command, unless nothing is left.
  function InFront(s: string, start: nat, end: nat, rest: CommandList): (commands: CommandList)
    requires start <= end <= |s|
  {
    var i := SkipBlanks(s, start, end);
    if i == end then rest else Then(Span(i, end), rest)
  }

  // The commands that the loop finds in the rest of a list.
  function Commands(s: string, cuts: seq<Cut>, head: nat): (commands: CommandList)
    requires AreCuts(s, cuts) && head <= |s|
    decreases |s| - head
  {
    var h := SkipBlanks(s, head, |s|);
    var cut := cuts[h];
    assert IsCut(s, cut, h);
    InFront(s, cut.start, cut.end, if cut.found then Commands(s, cuts, cut.end + 1) else Done)
  }

  // The pieces that are not blank, without their leading whitespace.
  function NonBlank(s: string, pieces: Pieces): (commands: CommandList)
    requires Fit(s, pieces)
  {
    InFront(s, pieces.start, pieces.end, if pieces.More? then NonBlank(s, pieces.rest) else Done)
  }

  predicate Fit(s: string, pieces: Pieces) {
    pieces.start <= pieces.end <= |s| && (pieces.More? ==> Fit(s, pieces.rest))
  }

  function RawCommands(s: string, delim: string, head: nat): (commands: CommandList)
    requires head <= |s|
    decreases |s| - head
  {
    var n := Separator(s, delim, head, OUTSIDE);
    InFront(s, head, n, if n == |s| then Done else RawCommands(s, delim, n + 1))
  }

  lemma {:induction false} RawCommandsAreNonBlank(s: string, delim: string, head: nat)
    requires head <= |s|
    ensures var raw := RawPieces(s, delim, head); Fit(s, raw) && RawCommands(s, delim, head) == NonBlank(s, raw)
    decreases |s| - head
  {
    var n := Separator(s, delim, head, OUTSIDE);
    if n < |s| { RawCommandsAreNonBlank(s, delim, n + 1); }
  }

  lemma BlankSkipped(s: string, delim: string, from: nat)
    requires from < |s| && IsSpace(s[from]) && s[from] !in delim
    ensures RawCommands(s, delim, from) == RawCommands(s, delim, from + 1)
  {
    var n := Separator(s, delim, from, OUTSIDE);
    assert n == Separator(s, delim, from + 1, OUTSIDE);
    assert SkipBlanks(s, from, n) == SkipBlanks(s, from + 1, n);
  }

  lemma {:induction false} BlanksSkipped(s: string, delim: string, from: nat, n: nat)
    requires from <= |s| && (forall c :: c in delim ==> !IsSpace(c))
    requires n == SkipBlanks(s, from, |s|)
    ensures RawCommands(s, delim, from) == RawCommands(s, delim, n)
    decreases |s| - from
  {
    if from < n {
      BlankSkipped(s, delim, from);
      BlanksSkipped(s, delim, from + 1, n);
    }
  }

  lemma SeparatorPassed(s: string, delim: string, head: nat)
    requires head < |s| && Separator(s, delim, head, OUTSIDE) == head
    ensures RawCommands(s, delim, head) == RawCommands(s, delim, head + 1)
  {}

  predicate IsInFront(s: string, delim: string, head: nat, cut: Cut)
    requires head <= |s| && IsCut(s, cut, head)
  {
    RawCommands(s, delim, head) ==
      InFront(s, cut.start, cut.end, if cut.found then RawCommands(s, delim, cut.end + 1) else Done)
  }

  lemma {:induction false} CutIsInFront(s: string, delim: string, cuts: seq<Cut>, head: nat)
    requires AreCuts(s, cuts) && CutsAtSeparators(s, delim, cuts) && head <= |s|
    ensures IsCut(s, cuts[head], head) && IsInFront(s, delim, head, cuts[head])
    decreases |s| - head
  {
    assert CutsAtSeparator(s, delim, cuts, head);
    if Separator(s, delim, head, OUTSIDE) == head < |s| {
      SeparatorPassed(s, delim, head);
      CutIsInFront(s, delim, cuts, head + 1);
    }
  }

  lemma {:induction false} CommandsAreRaw(s: string, delim: string, cuts: seq<Cut>, head: nat)
    requires AreCuts(s, cuts) && CutsAtSeparators(s, delim, cuts) && head <= |s|
    requires forall c :: c in delim ==> !IsSpace(c)
    ensures Commands(s, cuts, head) == RawCommands(s, delim, head)
    decreases |s| - head
  {
    var h := SkipBlanks(s, head, |s|);
    BlanksSkipped(s, delim, head, h);
    CutIsInFront(s, delim, cuts, h);
    if cuts[h].found { CommandsAreRaw(s, delim, cuts, cuts[h].end + 1); }
  }

  // A list runs as the non-blank pieces between its separators.
  lemma CommandsAreThePieces(s: string)
    ensures var raw := RawPieces(s, SEPARATORS, 0);
      Fit(s, raw) && Commands(s, CutsOf(s, SEPARATORS), 0) == NonBlank(s, raw)
  {
    CutsAreAtSeparators(s, SEPARATORS);
    CommandsAreRaw(s, SEPARATORS, CutsOf(s, SEPARATORS), 0);
    RawCommandsAreNonBlank(s, SEPARATORS, 0);
  }

  function Text(s: string, command: Span): (text: string) {
    if command.start <= command.end <= |s| then s[command.start..command.end] else []
  }

  function Texts(s: string, commands: CommandList): (texts: seq<string>) {
    match commands
    case Done => []
    case Then(command, rest) => [Text(s, command)] + Texts(s, rest)
  }

  // The commands one after the other, up to the first invalid one.
  function RunCommands<Env(!new), Container(!new)>(session: Session<Env, Container>, env: Env, s: string,
          commands: CommandList): (r: Result<Env>)
    requires Proper(session)
  {
    match commands
    case Done => Result(env, [])
    case Then(command, rest) =>
      var (after, status) := RunCommand(session, env, None, Text(s, command));
      if status == Invalid then Result(after, [status])
      else Ahead([status], RunCommands(session, after, s, rest))
  }

  predicate NoCriteria(s: string, commands: CommandList) {
    match commands
    case Done => true
    case Then(command, rest) => (command.start < |s| ==> s[command.start] != '[') && NoCriteria(s, rest)
  }

  // The commands from `head` on, the piece at the cut first.
  lemma CommandsStep(s: string, cuts: seq<Cut>, head: nat)
    requires AreCuts(s, cuts) && head <= |s|
    ensures var cut := cuts[SkipBlanks(s, head, |s|)];
      && IsCut(s, cut, head)
      && Commands(s, cuts, head) ==
        InFront(s, cut.start, cut.end, if cut.found then Commands(s, cuts, cut.end + 1) else Done)
  {
    assert IsCut(s, cuts[SkipBlanks(s, head, |s|)], SkipBlanks(s, head, |s|));
  }

  lemma BracketIsCommand(s: string, cuts: seq<Cut>, head: nat)
    requires AreCuts(s, cuts) && CutsAtSeparators(s, SEPARATORS, cuts) && head <= |s|
    requires var h := SkipBlanks(s, head, |s|); h < |s| && s[h] == '['
    ensures Commands(s, cuts, head).Then? && Commands(s, cuts, head).command.start == SkipBlanks(s, head, |s|)
  {
    var h := SkipBlanks(s, head, |s|);
    assert CutsAtSeparator(s, SEPARATORS, cuts, h) && Separator(s, SEPARATORS, h, OUTSIDE) > h;
    CommandsStep(s, cuts, head);
  }

  lemma FrontRuns<Env(!new), Container(!new)>(session: Session<Env, Container>, env: Env, s: string, start: nat,
          end: nat, rest: CommandList)
    requires Proper(session) && start <= end <= |s|
    ensures var (after, statuses) := RunPiece(session, env, None, s[SkipBlanks(s, start, end)..end]);
      RunCommands(session, env, s, InFront(s, start, end, rest)) ==
        if statuses == [Invalid] then Result(after, statuses)
        else Ahead(statuses, RunCommands(session, after, s, rest))
  {
    if SkipBlanks(s, start, end) == end {
      var r := RunCommands(session, env, s, rest);
      assert [] + r.statuses == r.statuses;
    }
  }

  lemma NoScope<Env(!new), Container(!new)>(session: Session<Env, Container>, env: Env, s: string, cuts: seq<Cut>,
          head: nat, first: bool)
    requires Proper(session) && AreCuts(s, cuts) && CutsAtSeparators(s, SEPARATORS, cuts) && head <= |s|
    requires NoCriteria(s, Commands(s, cuts, head))
    ensures var h := SkipBlanks(s, head, |s|);
      Run(session, env, s, cuts, head, first, None) == RunBody(session, env, s, cuts, h, None)
  {
    var h := SkipBlanks(s, head, |s|);
    if h < |s| && s[h] == '[' {
      BracketIsCommand(s, cuts, head);
    }
  }

  // Without criteria a turn of the loop runs what comes first.
  lemma RunStep<Env(!new), Container(!new)>(session: Session<Env, Container>, env: Env, s: string, cuts: seq<Cut>,
          head: nat, first: bool) returns (cut: Cut, after: Env, statuses: seq<Status>)
    requires Proper(session) && AreCuts(s, cuts) && CutsAtSeparators(s, SEPARATORS, cuts) && head <= |s|
    requires NoCriteria(s, Commands(s, cuts, head))
    ensures IsCut(s, cut, head)
    ensures cut.found ==> NoCriteria(s, Commands(s, cuts, cut.end + 1))
    ensures Run(session, env, s, cuts, head, first, None) ==
      if statuses == [Invalid] || !cut.found then Result(after, statuses)
      else Ahead(statuses, Run(session, after, s, cuts, cut.end + 1, s[cut.end] == ';', None))
    ensures RunCommands(session, env, s, Commands(s, cuts, head)) ==
      if statuses == [Invalid] || !cut.found then Result(after, statuses)
      else Ahead(statuses, RunCommands(session, after, s, Commands(s, cuts, cut.end + 1)))
  {
    var h := SkipBlanks(s, head, |s|);
    cut := cuts[h];
    CommandsStep(s, cuts, head);
    FrontRuns(session, env, s, cut.start, cut.end, if cut.found then Commands(s, cuts, cut.end + 1) else Done);
    NoScope(session, env, s, cuts, head, first);
    var r := RunPiece(session, env, None, s[SkipBlanks(s, cut.start, cut.end)..cut.end]);
    after, statuses := r.0, r.1;
    assert statuses + [] == statuses;
  }

  ghost predicate RunsCommands<Env(!new), Container(!new)>(session: Session<Env, Container>, env: Env, s: string,
          cuts: seq<Cut>, head: nat, first: bool, commands: CommandList)
    requires Proper(session) && AreCuts(s, cuts) && head <= |s|
  {
    Run(session, env, s, cuts, head, first, None) == RunCommands(session, env, s, commands)
  }

  lemma {:induction false} RunIsCommands<Env(!new), Container(!new)>(session: Session<Env, Container>, env: Env,
          s: string, cuts: seq<Cut>, head: nat, first: bool)
    requires Proper(session) && AreCuts(s, cuts) && CutsAtSeparators(s, SEPARATORS, cuts) && head <= |s|
    requires NoCriteria(s, Commands(s, cuts, head))
    ensures RunsCommands(session, env, s, cuts, head, first, Commands(s, cuts, head))
    decreases |s| - head
  {
    var cut, after, statuses := RunStep(session, env, s, cuts, head, first);
    if cut.found {
      RunIsCommands(session, after, s, cuts, cut.end + 1, s[cut.end] == ';');
    }
  }

  // The whole of it: a list without criteria runs as the non-blank pieces between
  // its separators, up to the first invalid one.
  lemma PlainListRunsPieces<Env(!new), Container(!new)>(session: Session<Env, Container>, env: Env, s: string)
    requires Proper(session)
    ensures var raw := RawPieces(s, SEPARATORS, 0);
      Fit(s, raw) && (NoCriteria(s, NonBlank(s, raw)) ==>
        Run(session, env, s, CutsOf(s, SEPARATORS), 0, true, None) ==
          RunCommands(session, env, s, NonBlank(s, raw)))
  {
    CommandsAreThePieces(s);
    CutsAreAtSeparators(s, SEPARATORS);
    if NoCriteria(s, NonBlank(s, RawPieces(s, SEPARATORS, 0))) {
      RunIsCommands(session, env, s, CutsOf(s, SEPARATORS), 0, true);
    }
  }
}
