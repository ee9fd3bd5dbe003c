// sway/config.c and sway/commands.c: reading a configuration file line by line,
// with nested blocks, and turning each line into the arguments of a command.
module ConfigReader {
  import opened CommandStatus
  import opened Tokens
  import E = ExecuteCommand
  import Q = Quotes
  import V = Variables

  // The commands of the compositor, by name.  Their effects are summed up in an
  // environment, which also holds the variables.
  datatype Commands<!Env> = Commands(
    isKnown: string -> bool,
    isSet: string -> bool,
    keepsQuotes: string -> bool,
    overrun: string -> string,
    symbols: Env -> seq<V.Variable>,
    run: (Env, seq<string>) -> (Env, Status))

  ghost predicate Proper<Env(!new)>(commands: Commands<Env>) {
    forall env :: ProperSymbols(commands.symbols(env))
  }

  // Names begin with a dollar sign, and values are C strings.
  ghost predicate ProperSymbols(symbols: seq<V.Variable>) {
    V.ProperNames(symbols) && forall v :: v in symbols ==> NUL !in v.value
  }

  datatype Outcome<Env> = Ran(env: Env, status: Status) | Block(header: string) | BlockEnd

  // The arguments a command line without block braces ends up with, before its
  // quotes and escapes are resolved.
  function Arguments<Env(!new)>(tokens: seq<string>, env: Env, commands: Commands<Env>): (argv: seq<string>)
    requires Proper(commands)
  {
    var symbols := commands.symbols(env);
    var argv := ResolveName(tokens, symbols);
    if argv == [] || !commands.isKnown(argv[0]) then argv else Resplit(argv, commands.isSet(argv[0]), symbols)
  }

  // A command stored in a variable is looked up before anything else.
  function ResolveName(tokens: seq<string>, symbols: seq<V.Variable>): (argv: seq<string>)
    requires V.ProperNames(symbols)
  {
    if tokens != [] && tokens[0] != [] && tokens[0][0] == '$' then
      Split(Join([V.Expand([], tokens[0], symbols)] + tokens[1..]))
    else tokens
  }

  // The name that is being set gets a second dollar sign, so that it is not
  // replaced by the value of a shorter name.
  function ProtectName(argv: seq<string>, isSet: bool): (r: seq<string>)
    ensures |r| == |argv|
  {
    if isSet && |argv| > 1 && argv[1] != [] && argv[1][0] == '$' then argv[1 := ['$'] + argv[1]] else argv
  }

  function Resplit(argv: seq<string>, isSet: bool, symbols: seq<V.Variable>): (r: seq<string>)
    requires V.ProperNames(symbols)
  {
    Split(V.Expand([], Join(ProtectName(argv, isSet)), symbols))
  }

  // An argument as its command is given it.  Where the scan for escapes runs over
  // the end of an argument, what it finds there is not known.
  function Resolved(arg: string, keepsQuotes: bool, overrun: string -> string): (r: string) {
    var text := if keepsQuotes then arg else E.Unquoted(arg);
    if Q.Mark(text).RunsOver? then overrun(text) else Q.Unescape(text).text
  }

  function Handed<Env>(argv: seq<string>, name: string, commands: Commands<Env>): (r: seq<string>)
    ensures |r| == |argv|
  {
    var first := if commands.isSet(name) then 2 else 1;
    seq(|argv|, i requires 0 <= i < |argv| =>
      if i < first then argv[i] else Resolved(argv[i], commands.keepsQuotes(name), commands.overrun))
  }

  function LineOutcome<Env(!new)>(tokens: seq<string>, env: Env, commands: Commands<Env>): (o: Outcome<Env>)
    requires Proper(commands)
  {
    var argc := |tokens|;
    if argc == 0 then Ran(env, Success)
    else if argc > 1 && tokens[argc - 1] == "{" then Block(Join(tokens[..argc - 1]))
    else if tokens[argc - 1] == "}" then BlockEnd
    else
      var named := ResolveName(tokens, commands.symbols(env));
      if named == [] then Ran(env, Success)
      else if !commands.isKnown(named[0]) then Ran(env, Invalid)
      else
        var argv := Handed(Arguments(tokens, env, commands), named[0], commands);
        var (env', status) := commands.run(env, argv);
        Ran(env', status)
  }

  lemma {:induction false} JoinMember(tokens: seq<string>, c: char)
    requires c != ' ' && forall i :: 0 <= i < |tokens| ==> c !in tokens[i]
    ensures c !in Join(tokens)
    decreases |tokens|
  {
    if |tokens| > 1 { JoinMember(tokens[1..], c); }
  }

  // Where there is nothing to substitute, joining and splitting again leaves
  // the arguments of a line as they were.
  lemma PlainLineIsUnchanged<Env(!new)>(line: string, env: Env, commands: Commands<Env>)
    requires Proper(commands) && '$' !in line
    ensures Arguments(Split(line), env, commands) == Split(line)
  {
    var tokens, symbols := Split(line), commands.symbols(env);
    SplitMember(line, '$');
    SplitLayout(line);
    assert tokens != [] ==> tokens[0] != [] && tokens[0][0] in tokens[0];
    if tokens != [] {
      assert |tokens| > 1 ==> tokens[1] != [] && tokens[1][0] in tokens[1];
      assert ProtectName(tokens, commands.isSet(tokens[0])) == tokens;
      JoinMember(tokens, '$');
      V.NothingToReplace(Join(tokens), symbols);
      ResplitIsStable(line);
    }
  }

  lemma ProtectedNameExpands(command: string, name: string, tail: string, symbols: seq<V.Variable>)
    requires V.ProperNames(symbols) && '$' !in command
    requires name != [] && name[0] == '$' && '$' !in name[1..]
    ensures V.Expand([], command + [' '] + (['$'] + name + tail), symbols) ==
      V.Expand(command + [' '] + name, tail, symbols)
  {
    var start := command + [' '];
    var rest := ['$'] + name + tail;
    V.PlainTextIsCopied([], start, rest, symbols);
    assert [] + start == start;
    assert rest[1] == '$' && rest[2..] == name[1..] + tail;
    V.PlainTextIsCopied(start + ['$'], name[1..], tail, symbols);
    assert start + ['$'] + name[1..] == command + [' '] + name;
  }

  // The name in `set $name ...` reaches the command as it was written, even if
  // it or a beginning of it is already defined.
  lemma SetNameSurvives(argv: seq<string>, symbols: seq<V.Variable>)
    requires V.ProperNames(symbols) && AreTokens(argv) && |argv| >= 2
    requires '$' !in argv[0] && argv[1][0] == '$' && '$' !in argv[1][1..]
    ensures var r := Resplit(argv, true, symbols); |r| >= 2 && r[..2] == argv[..2]
  {
    var front, head := argv[..2], argv[0] + [' '] + argv[1];
    var tail := if |argv| == 2 then [] else [' '] + Join(argv[2..]);
    JoinProtected(argv);
    ProtectedNameExpands(argv[0], argv[1], tail, symbols);
    assert Join(front) == head by { assert front[1..] == [argv[1]]; }
    var r := V.Expand(head, tail, symbols);
    if |argv| == 2 {
      assert front == argv;
      SplitJoin(front);
    } else {
      var rest := Join(argv[2..]);
      assert tail[0] == ' ' && tail[1..] == rest;
      V.WrittenStays(head + [' '], rest, symbols);
      assert r == head + [' '] + r[|head| + 1..];
      SplitContinues(front, r[|head| + 1..]);
    }
  }

  lemma JoinProtected(argv: seq<string>)
    requires |argv| >= 2 && argv[1] != [] && argv[1][0] == '$'
    ensures Join(ProtectName(argv, true)) ==
      argv[0] + [' '] + (['$'] + argv[1] + (if |argv| == 2 then [] else [' '] + Join(argv[2..])))
  {
    var p := ProtectName(argv, true);
    assert p[1..][1..] == argv[2..] && p[1..][0] == ['$'] + argv[1];
    if |argv| == 2 {
      assert argv[2..] == [];
    }
  }

  // Splits a line and either recognises a block brace or runs the command.
  method ConfigCommand<Env(!new)>(exec: string, env: Env, commands: Commands<Env>) returns (outcome: Outcome<Env>)
    requires Proper(commands) && NUL !in exec
    ensures outcome == LineOutcome(Split(exec), env, commands)
  {
    var words, argc := SplitArgs(exec);
    var argv := words[..argc];
    if argc == 0 {
      return Ran(env, Success);
    }
    if argc > 1 && argv[argc - 1] == "{" {
      return Block(Join(argv[..argc - 1]));
    }
    if argv[argc - 1] == "}" {
      return BlockEnd;
    }
    var symbols := commands.symbols(env);
    SplitGivesTokens(exec);
    SplitMember(exec, NUL);
    if argv[0][0] == '$' {
      var first := V.DoVarReplacement(argv[0], symbols);
      V.ExpandMember([], argv[0], symbols, NUL);
      JoinMember([first] + argv[1..], NUL);
      SplitMember(Join([first] + argv[1..]), NUL);
      argv := Split(Join([first] + argv[1..]));
      if argv == [] {
        return Ran(env, Success);
      }
    }
    if !commands.isKnown(argv[0]) {
      return Ran(env, Invalid);
    }
    var isSet := commands.isSet(argv[0]);
    ghost var name := argv[0];
    if isSet && |argv| > 1 && argv[1] != [] && argv[1][0] == '$' {
      argv := argv[1 := ['$'] + argv[1]];
    }
    JoinMember(argv, NUL);
    V.ExpandMember([], Join(argv), symbols, NUL);
    var keepsQuotes := commands.keepsQuotes(argv[0]);
    var command := V.DoVarReplacement(Join(argv), symbols);
    SplitMember(command, NUL);
    argv := Split(command);
    argv := ResolveAll(argv, isSet, keepsQuotes, commands.overrun);
    assert argv == Handed(Split(command), name, commands);
    var (env', status) := commands.run(env, argv);
    return Ran(env', status);
  }

  // The loop over the arguments.
  method ResolveAll(argv: seq<string>, isSet: bool, keepsQuotes: bool, overrun: string -> string)
    returns (r: seq<string>)
    requires forall i :: 0 <= i < |argv| ==> NUL !in argv[i]
    ensures |r| == |argv|
    ensures forall i :: 0 <= i < |argv| ==>
      r[i] == if i < (if isSet then 2 else 1) then argv[i] else Resolved(argv[i], keepsQuotes, overrun)
  {
    r := argv;
    var i := if isSet then 2 else 1;
    while i < |argv|
      invariant |r| == |argv|
      invariant forall k :: 0 <= k < |argv| && k >= i ==> r[k] == argv[k]
      invariant forall k :: 0 <= k < |argv| && k < i ==>
        r[k] == if k < (if isSet then 2 else 1) then argv[k] else Resolved(argv[k], keepsQuotes, overrun)
    {
      var arg := Resolve(argv[i], keepsQuotes, overrun);
      r := r[i := arg];
      i := i + 1;
    }
  }

  // Removes the quotes and resolves the escapes of one argument, in place.
  method Resolve(arg: string, keepsQuotes: bool, overrun: string -> string) returns (r: string)
    requires NUL !in arg
    ensures r == Resolved(arg, keepsQuotes, overrun)
  {
    var text := arg;
    if !keepsQuotes && arg != [] && (arg[0] == '"' || arg[0] == '\'') {
      text := E.Stripped(arg);
      Q.StripKeepsNulOut(arg, false, false, false);
    }
    if Q.Mark(text).RunsOver? {
      return overrun(text);
    }
    var buf := new char[|text| + 1];
    forall k | 0 <= k < |text| {
      buf[k] := text[k];
    }
    buf[|text|] := NUL;
    assert buf[..|text|] == text;
    var n := Q.UnescapeInPlace(buf, text);
    var len := Q.StrLen(buf, Q.Unescape(text).text);
    r := buf[..len];
  }

  // ---- Block structure ----

  const COMMANDS_BLOCK := "<commands>"

  // The reader's state: the texts of the open blocks, innermost first, whether
  // all went well, the lines put off until later, and the environment.
  datatype Reader<Env> = Reader(stack: seq<string>, success: bool, deferred: seq<string>, env: Env)

  function ExpandLine(stack: seq<string>, line: string): (expanded: string) {
    if stack == [] then line else stack[0] + [' '] + line
  }

  // A line in a block that is literally named `<commands>`.
  function CommandsOutcome<Env>(tokens: seq<string>, env: Env): (o: Outcome<Env>) {
    if tokens == [] then Ran(env, Success)
    else if tokens[0] == "}" then BlockEnd
    else if tokens[0] == "*" then Ran(env, Success)
    else Ran(env, Invalid)
  }

  function Apply<Env>(r: Reader<Env>, expanded: string, outcome: Outcome<Env>): (n: Reader<Env>) {
    match outcome
    case Ran(env, status) =>
      var after := r.(env := env);
      if status == Failure || status == Invalid then after.(success := false)
      else if status == Defer then after.(deferred := r.deferred + [expanded])
      else after
    case Block(header) => r.(stack := [header] + r.stack)
    case BlockEnd => if r.stack == [] then r.(success := false) else r.(stack := r.stack[1..])
  }

  function ReadLine<Env(!new)>(r: Reader<Env>, line: string, commands: Commands<Env>): (n: Reader<Env>)
    requires Proper(commands)
  {
    var expanded := ExpandLine(r.stack, line);
    var tokens := Split(expanded);
    if r.stack != [] && r.stack[0] == COMMANDS_BLOCK then Apply(r, expanded, CommandsOutcome(tokens, r.env))
    else Apply(r, expanded, LineOutcome(tokens, r.env, commands))
  }

  function ReadLines<Env(!new)>(r: Reader<Env>, lines: seq<string>, commands: Commands<Env>): (n: Reader<Env>)
    requires Proper(commands)
    decreases |lines|
  {
    if lines == [] then r else ReadLines(ReadLine(r, lines[0], commands), lines[1..], commands)
  }

  // The same block structure told without the texts: each line contributes its
  // own tokens, and an open block is the list of its header's tokens.
  function Flatten(open: seq<seq<string>>): (tokens: seq<string>) {
    if open == [] then [] else open[0] + Flatten(open[1..])
  }

  function TrackBlocks(open: seq<seq<string>>, line: string): (r: seq<seq<string>>) {
    TrackTokens(open, Split(line))
  }

  function TrackTokens(open: seq<seq<string>>, tokens: seq<string>): (r: seq<seq<string>>) {
    var n := |tokens|;
    if n == 0 || Flatten(open) == [COMMANDS_BLOCK] then open
    else if tokens[n - 1] == "{" && (n > 1 || open != []) then open + [tokens[..n - 1]]
    else if tokens[n - 1] == "}" && open != [] then open[..|open| - 1]
    else open
  }

  function TrackAll(open: seq<seq<string>>, lines: seq<string>): (r: seq<seq<string>>)
    decreases |lines|
  {
    if lines == [] then open else TrackAll(TrackBlocks(open, lines[0]), lines[1..])
  }

  // The stack holds, for each open block, the single-space join of all header
  // tokens from the outermost block to this one.
  ghost predicate Represents(stack: seq<string>, open: seq<seq<string>>) {
    && |stack| == |open|
    && (forall k :: 0 <= k < |stack| ==> stack[k] == Join(Flatten(open[..|open| - k])))
    && (forall t :: t in Flatten(open) ==> IsClosed(t))
    && (open != [] ==> open[0] != [])
  }

  lemma {:induction false} FlattenAppend(open: seq<seq<string>>, header: seq<string>)
    ensures Flatten(open + [header]) == Flatten(open) + header
  {
    if open == [] {
      assert open + [header] == [header] && [header][1..] == [];
    } else {
      assert (open + [header])[1..] == open[1..] + [header];
      FlattenAppend(open[1..], header);
      assert open[0] + (Flatten(open[1..]) + header) == open[0] + Flatten(open[1..]) + header;
    }
  }

  lemma ExpandedTokens(stack: seq<string>, open: seq<seq<string>>, line: string)
    requires Represents(stack, open)
    ensures Split(ExpandLine(stack, line)) == Flatten(open) + Split(line)
    ensures open != [] ==> Flatten(open) != []
  {
    if open != [] {
      assert open[..|open|] == open;
      assert Flatten(open)[0] == open[0][0];
      SplitContinues(Flatten(open), line);
    } else {
      assert [] + Split(line) == Split(line);
    }
  }

  // A word without anything the splitting loop reacts to.
  lemma {:induction false} PlainWord(s: string)
    requires forall i :: 0 <= i < |s| ==> !IsSpace(s[i]) && s[i] !in "\"'[]\\"
    ensures TokenLength(s, NEUTRAL) == |s| && After(NEUTRAL, s) == NEUTRAL
  {
    if s != [] {
      assert Next(NEUTRAL, s[0]) == NEUTRAL;
      PlainWord(s[1..]);
    }
  }

  lemma PlainWordSplits(s: string)
    requires s != [] && forall i :: 0 <= i < |s| ==> !IsSpace(s[i]) && s[i] !in "\"'[]\\"
    ensures Split(s) == [s]
  {
    PlainWord(s);
    SplitClosed([s]);
  }

  lemma SplitClosed(tokens: seq<string>)
    requires tokens != [] && forall t :: t in tokens ==> IsClosed(t)
    ensures Split(Join(tokens)) == tokens
  {
    forall i | 0 <= i < |tokens| ensures IsClosed(tokens[i]) {
      assert tokens[i] in tokens;
    }
    SplitJoin(tokens);
  }

  lemma InCommandsBlockIff(stack: seq<string>, open: seq<seq<string>>)
    requires Represents(stack, open)
    ensures stack != [] && stack[0] == COMMANDS_BLOCK <==> Flatten(open) == [COMMANDS_BLOCK]
  {
    if open != [] {
      var flat := Flatten(open);
      assert open[..|open|] == open && flat[0] == open[0][0];
      SplitClosed(flat);
      PlainWordSplits(COMMANDS_BLOCK);
    }
  }

  lemma PushRepresents(stack: seq<string>, open: seq<seq<string>>, header: seq<string>)
    requires Represents(stack, open)
    requires forall t :: t in header ==> IsClosed(t)
    requires open == [] ==> header != []
    ensures Represents([Join(Flatten(open) + header)] + stack, open + [header])
  {
    var s, o := [Join(Flatten(open) + header)] + stack, open + [header];
    FlattenAppend(open, header);
    forall k | 0 <= k < |s| ensures s[k] == Join(Flatten(o[..|o| - k])) {
      if k == 0 {
        assert o[..|o|] == o;
      } else {
        assert o[..|o| - k] == open[..|open| - (k - 1)];
      }
    }
  }

  lemma PopRepresents(stack: seq<string>, open: seq<seq<string>>)
    requires Represents(stack, open) && open != []
    ensures Represents(stack[1..], open[..|open| - 1])
  {
    var n := |open| - 1;
    var o := open[..n];
    assert open == o + [open[n]];
    FlattenAppend(o, open[n]);
    forall k | 0 <= k < n ensures stack[1..][k] == Join(Flatten(o[..n - k])) {
      assert o[..n - k] == open[..|open| - (k + 1)];
    }
  }

  // What the outcome of a line says about block braces.
  ghost predicate Matches<Env(!new)>(outcome: Outcome<Env>, tokens: seq<string>) {
    var argc := |tokens|;
    if argc > 1 && tokens[argc - 1] == "{" then outcome == Block(Join(tokens[..argc - 1]))
    else if argc > 0 && tokens[argc - 1] == "}" then outcome == BlockEnd
    else outcome.Ran?
  }

  lemma LineOutcomeMatches<Env(!new)>(tokens: seq<string>, env: Env, commands: Commands<Env>)
    requires Proper(commands)
    ensures Matches(LineOutcome(tokens, env, commands), tokens)
  {
  }

  lemma ApplyTracks<Env(!new)>(r: Reader<Env>, open: seq<seq<string>>, expanded: string, words: seq<string>,
          outcome: Outcome<Env>)
    requires Represents(r.stack, open) && AreTokens(words) && words != []
    requires Flatten(open) != [COMMANDS_BLOCK]
    requires open != [] ==> Flatten(open) != []
    requires Matches(outcome, Flatten(open) + words)
    ensures Represents(Apply(r, expanded, outcome).stack, TrackTokens(open, words))
  {
    var flat, n := Flatten(open), |words|;
    var tokens := flat + words;
    assert tokens[|tokens| - 1] == words[n - 1];
    if words[n - 1] == "{" && (n > 1 || open != []) {
      var header := words[..n - 1];
      assert tokens[..|tokens| - 1] == flat + header;
      PushRepresents(r.stack, open, header);
    } else if words[n - 1] == "}" && open != [] {
      PopRepresents(r.stack, open);
    }
  }

  // One line changes the texts on the stack exactly as it changes the blocks.
  lemma ReadLineTracksBlocks<Env(!new)>(r: Reader<Env>, open: seq<seq<string>>, line: string, commands: Commands<Env>)
    requires Proper(commands) && Represents(r.stack, open) && Split(line) != []
    ensures Represents(ReadLine(r, line, commands).stack, TrackBlocks(open, line))
  {
    ExpandedTokens(r.stack, open, line);
    InCommandsBlockIff(r.stack, open);
    var tokens := Flatten(open) + Split(line);
    if Flatten(open) == [COMMANDS_BLOCK] {
      assert tokens[0] == COMMANDS_BLOCK;
    } else {
      SplitGivesTokens(line);
      LineOutcomeMatches(tokens, r.env, commands);
      ApplyTracks(r, open, ExpandLine(r.stack, line), Split(line), LineOutcome(tokens, r.env, commands));
    }
  }

  // A closing brace outside all blocks is an error and changes nothing else.
  lemma UnmatchedCloseFails<Env(!new)>(r: Reader<Env>, line: string, commands: Commands<Env>)
    requires Proper(commands) && r.stack == []
    requires Split(line) != [] && Split(line)[|Split(line)| - 1] == "}"
    ensures ReadLine(r, line, commands) == r.(success := false)
  {
    LineOutcomeMatches(Split(line), r.env, commands);
  }

  lemma {:induction false} ReadLinesTrackBlocks<Env(!new)>(r: Reader<Env>, open: seq<seq<string>>,
          lines: seq<string>, commands: Commands<Env>)
    requires Proper(commands) && Represents(r.stack, open)
    requires forall line :: line in lines ==> Split(line) != []
    ensures Represents(ReadLines(r, lines, commands).stack, TrackAll(open, lines))
    decreases |lines|
  {
    if lines != [] {
      assert lines[0] in lines;
      ReadLineTracksBlocks(r, open, lines[0], commands);
      ReadLinesTrackBlocks(ReadLine(r, lines[0], commands), TrackBlocks(open, lines[0]), lines[1..], commands);
    }
  }

  // A line opens a block if an opening brace is its last word and something
  // comes before it, if only the header of the block around it; it closes one
  // if a closing brace is its last word and a block is open.
  predicate OpensBlock(words: seq<string>, depth: nat) {
    words != [] && words[|words| - 1] == "{" && (|words| > 1 || depth > 0)
  }

  predicate ClosesBlock(words: seq<string>, depth: nat) {
    words != [] && words[|words| - 1] == "}" && depth > 0
  }

  predicate OpensCommandsBlock(words: seq<string>, depth: nat) {
    depth == 0 && words == [COMMANDS_BLOCK, "{"]
  }

  // How many lines open a block, and how many close one.  After a `<commands>`
  // block has been opened, braces mean nothing.
  function Opens(lines: seq<string>, depth: nat): (n: nat)
    decreases |lines|
  {
    if lines == [] then 0
    else
      var words := Split(lines[0]);
      if OpensCommandsBlock(words, depth) then 1
      else if OpensBlock(words, depth) then 1 + Opens(lines[1..], depth + 1)
      else if ClosesBlock(words, depth) then Opens(lines[1..], depth - 1)
      else Opens(lines[1..], depth)
  }

  function Closes(lines: seq<string>, depth: nat): (n: nat)
    decreases |lines|
  {
    if lines == [] then 0
    else
      var words := Split(lines[0]);
      if OpensCommandsBlock(words, depth) then 0
      else if OpensBlock(words, depth) then Closes(lines[1..], depth + 1)
      else if ClosesBlock(words, depth) then 1 + Closes(lines[1..], depth - 1)
      else Closes(lines[1..], depth)
  }

  lemma {:induction false} CommandsBlockStays(open: seq<seq<string>>, lines: seq<string>)
    requires Flatten(open) == [COMMANDS_BLOCK]
    ensures TrackAll(open, lines) == open
    decreases |lines|
  {
    if lines != [] { CommandsBlockStays(open, lines[1..]); }
  }

  // No `<commands>` block has been opened.
  predicate Ordinary(open: seq<seq<string>>) {
    open != [] ==> open[0] != [] && open[0] != [COMMANDS_BLOCK]
  }

  lemma OrdinaryFlat(open: seq<seq<string>>)
    requires Ordinary(open)
    ensures Flatten(open) != [COMMANDS_BLOCK]
  {
    if open != [] {
      assert Flatten(open)[0] == open[0][0];
      assert |open[0]| == 1 ==> open[0] == [open[0][0]];
    }
  }

  lemma {:induction false} BlocksAreCounted(open: seq<seq<string>>, lines: seq<string>)
    requires Ordinary(open)
    ensures |TrackAll(open, lines)| == |open| + Opens(lines, |open|) - Closes(lines, |open|)
    decreases |lines|
  {
    OrdinaryFlat(open);
    if lines != [] {
      var words, after := Split(lines[0]), TrackBlocks(open, lines[0]);
      if OpensCommandsBlock(words, |open|) {
        assert words[..1] == [COMMANDS_BLOCK] && open == [];
        assert after == [[COMMANDS_BLOCK]] && after[1..] == [];
        CommandsBlockStays(after, lines[1..]);
      } else {
        if OpensBlock(words, |open|) {
          assert words == words[..|words| - 1] + ["{"];
        }
        BlocksAreCounted(after, lines[1..]);
      }
    }
  }

  // A block that is named `<commands>` cannot be closed again: whatever lines
  // follow, it stays open, and every one of them is an error.
  lemma {:induction false} CommandsBlockNeverCloses<Env(!new)>(r: Reader<Env>, lines: seq<string>,
          commands: Commands<Env>)
    requires Proper(commands) && Represents(r.stack, [[COMMANDS_BLOCK]])
    requires forall line :: line in lines ==> Split(line) != []
    ensures ReadLines(r, lines, commands).stack == r.stack
    ensures lines != [] ==> !ReadLines(r, lines, commands).success
    decreases |lines|
  {
    if lines != [] {
      var open := [[COMMANDS_BLOCK]];
      assert open[1..] == [] && Flatten(open) == [COMMANDS_BLOCK];
      assert lines[0] in lines;
      ExpandedTokens(r.stack, open, lines[0]);
      InCommandsBlockIff(r.stack, open);
      assert Split(ExpandLine(r.stack, lines[0]))[0] == COMMANDS_BLOCK;
      var next := ReadLine(r, lines[0], commands);
      assert next == r.(success := false);
      CommandsBlockNeverCloses(next, lines[1..], commands);
      FailureStays(next, lines[1..], commands);
    }
  }

  lemma {:induction false} FailureStays<Env(!new)>(r: Reader<Env>, lines: seq<string>, commands: Commands<Env>)
    requires Proper(commands) && !r.success
    ensures !ReadLines(r, lines, commands).success
    decreases |lines|
  {
    if lines != [] {
      FailureStays(ReadLine(r, lines[0], commands), lines[1..], commands);
    }
  }

  // ---- From the lines of the file to the lines that are executed ----

  function TrimRight(s: string): (r: string)
    ensures r <= s
    ensures r != [] ==> !IsSpace(r[|r| - 1])
  {
    if s != [] && IsSpace(s[|s| - 1]) then TrimRight(s[..|s| - 1]) else s
  }

  function Trimmed(s: string): (r: string)
    ensures r != [] ==> !IsSpace(r[0]) && !IsSpace(r[|r| - 1])
  {
    TrimRight(TrimLeft(s))
  }

  predicate Continues(text: string) {
    text != [] && text[|text| - 1] == '\\' && text[0] != '#'
  }

  // A line of the file with the lines its trailing backslashes pull in, and the
  // number of the line after them.
  function Continued(text: string, raw: seq<string>, next: nat): (r: (string, nat))
    requires next <= |raw|
    ensures next <= r.1 <= |raw|
    decreases |raw| - next
  {
    if Continues(text) && next < |raw| then Continued(text[..|text| - 1] + raw[next], raw, next + 1) else (text, next)
  }

  // The number of lines up to and including one that is just an opening brace,
  // if nothing but blank lines come first.
  function BraceAhead(raw: seq<string>, pos: nat): (n: nat)
    requires pos <= |raw|
    ensures pos + n <= |raw|
    decreases |raw| - pos
  {
    if pos == |raw| then 0
    else if Trimmed(raw[pos]) == "{" then 1
    else if Trimmed(raw[pos]) != [] then 0
    else
      var n := BraceAhead(raw, pos + 1);
      if n == 0 then 0 else n + 1
  }

  function BracesFor(line: string, raw: seq<string>, next: nat): (n: nat)
    requires line != [] && next <= |raw|
    ensures next + n <= |raw|
  {
    if line[|line| - 1] != '{' && line[|line| - 1] != '}' then BraceAhead(raw, next) else 0
  }

  // What the reading loop makes of the lines from pos on: whether to skip, the
  // text to execute otherwise, and where to go on.
  function LineAt(raw: seq<string>, pos: nat): (r: (bool, string, nat))
    requires pos < |raw|
    ensures pos < r.2 <= |raw|
  {
    var (text, next) := Continued(raw[pos], raw, pos + 1);
    WithBrace(Trimmed(text), raw, next)
  }

  function WithBrace(line: string, raw: seq<string>, next: nat): (r: (bool, string, nat))
    requires next <= |raw|
    ensures next <= r.2 <= |raw|
  {
    if line == [] || line[0] == '#' then (true, line, next)
    else
      var n := BracesFor(line, raw, next);
      (false, if n > 0 then line + " {" else line, next + n)
  }

  function LogicalLines(raw: seq<string>, pos: nat): (lines: seq<string>)
    requires pos <= |raw|
    decreases |raw| - pos
  {
    if pos == |raw| then []
    else
      var (skip, line, next) := LineAt(raw, pos);
      (if skip then [] else [line]) + LogicalLines(raw, next)
  }

  lemma {:induction false} LogicalLinesHaveTokens(raw: seq<string>, pos: nat)
    requires pos <= |raw|
    ensures forall line :: line in LogicalLines(raw, pos) ==> Split(line) != []
    decreases |raw| - pos
  {
    if pos < |raw| {
      LogicalLinesHaveTokens(raw, LineAt(raw, pos).2);
    }
  }

  lemma {:induction false} ContinuedNulFree(text: string, raw: seq<string>, next: nat)
    requires next <= |raw| && NUL !in text && forall t :: t in raw ==> NUL !in t
    ensures NUL !in Continued(text, raw, next).0
    decreases |raw| - next
  {
    if Continues(text) && next < |raw| {
      assert raw[next] in raw;
      ContinuedNulFree(text[..|text| - 1] + raw[next], raw, next + 1);
    }
  }

  lemma {:induction false} TrimLeftMembers(s: string)
    ensures forall c :: c in TrimLeft(s) ==> c in s
  {
    if s != [] && IsSpace(s[0]) { TrimLeftMembers(s[1..]); }
  }

  lemma TrimmedNulFree(s: string)
    requires NUL !in s
    ensures NUL !in Trimmed(s)
  {
    TrimLeftMembers(s);
    var t := TrimLeft(s);
    assert TrimRight(t) == t[..|TrimRight(t)|];
  }

  method GetLineWithCont(raw: seq<string>, pos: nat) returns (text: string, next: nat)
    requires pos < |raw|
    ensures (text, next) == Continued(raw[pos], raw, pos + 1)
  {
    text, next := raw[pos], pos + 1;
    while Continues(text) && next < |raw|
      invariant next <= |raw|
      invariant Continued(text, raw, next) == Continued(raw[pos], raw, pos + 1)
    {
      text := text[..|text| - 1] + raw[next];
      next := next + 1;
    }
  }

  method DetectBrace(raw: seq<string>, pos: nat) returns (ret: nat)
    requires pos <= |raw|
    ensures ret == BraceAhead(raw, pos)
  {
    ret := 0;
    var lines := 0;
    while pos + lines < |raw|
      invariant pos + lines <= |raw| && ret == 0
      invariant BraceAhead(raw, pos) ==
        (var n := BraceAhead(raw, pos + lines); if n == 0 then 0 else lines + n)
    {
      var line := Trimmed(raw[pos + lines]);
      lines := lines + 1;
      if line != [] {
        if line == "{" {
          ret := lines;
        }
        break;
      }
    }
  }

  method NextLine(raw: seq<string>, pos: nat) returns (skip: bool, line: string, next: nat)
    requires pos < |raw|
    ensures (skip, line, next) == LineAt(raw, pos)
  {
    var text;
    text, next := GetLineWithCont(raw, pos);
    line := Trimmed(text);
    skip := line == [] || line[0] == '#';
    if !skip && line[|line| - 1] != '{' && line[|line| - 1] != '}' {
      var braceDetected := DetectBrace(raw, next);
      if braceDetected > 0 {
        line := line + " {";
      }
      next := next + braceDetected;
    }
  }

  lemma LineAtNulFree(raw: seq<string>, pos: nat)
    requires pos < |raw| && forall t :: t in raw ==> NUL !in t
    ensures NUL !in LineAt(raw, pos).1
  {
    assert raw[pos] in raw;
    ContinuedNulFree(raw[pos], raw, pos + 1);
    TrimmedNulFree(Continued(raw[pos], raw, pos + 1).0);
  }

  // Reads the whole file.
  method ReadConfig<Env(!new)>(raw: seq<string>, env: Env, commands: Commands<Env>) returns (r: Reader<Env>)
    requires Proper(commands) && forall t :: t in raw ==> NUL !in t
    ensures r == ReadLines(Reader([], true, [], env), LogicalLines(raw, 0), commands)
  {
    r := Reader([], true, [], env);
    ghost var goal := ReadLines(r, LogicalLines(raw, 0), commands);
    var pos := 0;
    while pos < |raw|
      invariant 0 <= pos <= |raw|
      invariant forall t :: t in r.stack ==> NUL !in t
      invariant ReadLines(r, LogicalLines(raw, pos), commands) == goal
      decreases |raw| - pos
    {
      ghost var lines := LogicalLines(raw, pos);
      LineAtNulFree(raw, pos);
      var skip, line;
      skip, line, pos := NextLine(raw, pos);
      if !skip {
        assert lines[0] == line && lines[1..] == LogicalLines(raw, pos);
        r := HandleLine(r, line, commands);
      } else {
        assert lines == LogicalLines(raw, pos);
      }
    }
  }

  // The part of the loop that executes one line.
  method HandleLine<Env(!new)>(r: Reader<Env>, line: string, commands: Commands<Env>) returns (n: Reader<Env>)
    requires Proper(commands) && NUL !in line && forall t :: t in r.stack ==> NUL !in t
    ensures n == ReadLine(r, line, commands)
    ensures forall t :: t in n.stack ==> NUL !in t
  {
    var expanded := ExpandLine(r.stack, line);
    var outcome;
    if r.stack != [] && r.stack[0] == COMMANDS_BLOCK {
      var words, argc := SplitArgs(expanded);
      outcome := CommandsOutcome(words[..argc], r.env);
    } else {
      outcome := ConfigCommand(expanded, r.env, commands);
      SplitMember(expanded, NUL);
      LineOutcomeMatches(Split(expanded), r.env, commands);
      if outcome.Block? {
        JoinMember(Split(expanded)[..|Split(expanded)| - 1], NUL);
      }
    }
    n := Apply(r, expanded, outcome);
  }

  // The whole file: the texts on the stack are those of the blocks that its
  // lines open and close.
  lemma FileTracksBlocks<Env(!new)>(raw: seq<string>, env: Env, commands: Commands<Env>)
    requires Proper(commands)
    ensures var r := ReadLines(Reader([], true, [], env), LogicalLines(raw, 0), commands);
      Represents(r.stack, TrackAll([], LogicalLines(raw, 0)))
  {
    LogicalLinesHaveTokens(raw, 0);
    ReadLinesTrackBlocks(Reader([], true, [], env), [], LogicalLines(raw, 0), commands);
  }

  // The depth of the stack at the end of any file is the number of lines that
  // opened a block less the number of lines that closed one.
  lemma DepthIsOpensMinusCloses<Env(!new)>(raw: seq<string>, env: Env, commands: Commands<Env>)
    requires Proper(commands)
    ensures var lines := LogicalLines(raw, 0);
      |ReadLines(Reader([], true, [], env), lines, commands).stack| == Opens(lines, 0) - Closes(lines, 0)
  {
    FileTracksBlocks(raw, env, commands);
    BlocksAreCounted([], LogicalLines(raw, 0));
  }
}
