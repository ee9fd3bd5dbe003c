// sway/config.c, sway/commands.c: what a configuration file comes to, told line by
// line.
module ConfigLaws {
  import opened CommandStatus
  import opened ConfigReader
  import opened Readings
  import opened Tokens
  import opened Wrappers
  import E = ExecuteCommand
  import Q = Quotes
  import V = Variables

  // ---- The lines of a file ----

  lemma {:induction false} TrimLeftLaw(s: string)
    ensures |TrimLeft(s)| <= |s| && TrimLeft(s) == s[|s| - |TrimLeft(s)|..] && Blank(s[..|s| - |TrimLeft(s)|])
  {
    if s != [] && IsSpace(s[0]) {
      TrimLeftLaw(s[1..]);
      var n := |s| - |TrimLeft(s)|;
      assert s[n..] == s[1..][n - 1..] && s[..n] == [s[0]] + s[1..][..n - 1];
    }
  }

  lemma {:induction false} TrimRightLaw(s: string)
    ensures Blank(s[|TrimRight(s)|..])
  {
    if s != [] && IsSpace(s[|s| - 1]) {
      var front := s[..|s| - 1];
      TrimRightLaw(front);
      assert s[|TrimRight(s)|..] == front[|TrimRight(front)|..] + [s[|s| - 1]];
    }
  }

  // Trimming takes away whitespace alone; none is left at either end.
  lemma TrimmedLaw(s: string) returns (before: string, behind: string)
    ensures s == before + Trimmed(s) + behind && Blank(before) && Blank(behind)
    ensures Trimmed(s) != [] ==> !IsSpace(Trimmed(s)[0]) && !IsSpace(Trimmed(s)[|Trimmed(s)| - 1])
  {
    var left := TrimLeft(s);
    TrimLeftLaw(s);
    TrimRightLaw(left);
    before, behind := s[..|s| - |left|], left[|Trimmed(s)|..];
    assert left == Trimmed(s) + behind;
  }

  function Concat(parts: seq<string>): (s: string) {
    if parts == [] then [] else parts[0] + Concat(parts[1..])
  }

  // Lines that end in a backslash, and one that does not.
  ghost predicate AreContinued(raw: seq<string>, pos: nat, parts: seq<string>, last: string) {
    && pos + |parts| < |raw| && raw[pos + |parts|] == last && last != [] && last[|last| - 1] != '\\'
    && forall i :: 0 <= i < |parts| ==> raw[pos + i] == parts[i] + ['\\']
  }

  lemma {:induction false} ContinuedFrom(raw: seq<string>, next: nat, text: string, parts: seq<string>, last: string)
    requires AreContinued(raw, next, parts, last) && text != [] && text[0] != '#'
    ensures Continued(text + ['\\'], raw, next) == (text + Concat(parts) + last, next + |parts| + 1)
    decreases |parts|
  {
    var whole := text + ['\\'];
    assert whole[..|whole| - 1] == text;
    if parts == [] {
      assert text + Concat(parts) + last == text + last;
    } else {
      assert raw[next + 0] == parts[0] + ['\\'] && text + raw[next] == (text + parts[0]) + ['\\'];
      forall i | 0 <= i < |parts| - 1
        ensures raw[next + 1 + i] == parts[1..][i] + ['\\']
      {
        assert raw[next + (i + 1)] == parts[i + 1] + ['\\'];
      }
      ContinuedFrom(raw, next + 1, text + parts[0], parts[1..], last);
      assert text + parts[0] + Concat(parts[1..]) + last == text + Concat(parts) + last;
    }
  }

  // A line that ends in a backslash goes on with the next one, without the backslash,
  // unless it is a comment; others stand for themselves.
  lemma ContinuationLaw(raw: seq<string>, pos: nat, first: string, parts: seq<string>, last: string)
    requires pos < |raw| && AreContinued(raw, pos + 1, parts, last)
    requires raw[pos] == first + ['\\'] && first != []
    ensures Continued(raw[pos], raw, pos + 1) ==
      if first[0] == '#' then (raw[pos], pos + 1) else (first + Concat(parts) + last, pos + |parts| + 2)
  {
    if first[0] != '#' { ContinuedFrom(raw, pos + 1, first, parts, last); }
  }

  lemma PlainLineLaw(raw: seq<string>, pos: nat)
    requires pos < |raw| && (raw[pos] == [] || raw[pos][|raw[pos]| - 1] != '\\')
    ensures Continued(raw[pos], raw, pos + 1) == (raw[pos], pos + 1)
  {
  }

  // A line that is just an opening brace, with nothing but blank ones before it.
  ghost predicate IsBraceAt(raw: seq<string>, pos: nat, n: nat) {
    && 0 < n && pos + n <= |raw| && Trimmed(raw[pos + n - 1]) == "{"
    && forall i :: pos <= i < pos + n - 1 ==> Trimmed(raw[i]) == []
  }

  lemma {:induction false} BraceAheadIff(raw: seq<string>, pos: nat, n: nat)
    requires pos <= |raw| && n > 0
    ensures BraceAhead(raw, pos) == n <==> IsBraceAt(raw, pos, n)
    decreases |raw| - pos
  {
    if pos < |raw| {
      if Trimmed(raw[pos]) == [] {
        if n > 1 {
          BraceAheadIff(raw, pos + 1, n - 1);
          assert IsBraceAt(raw, pos, n) <==> IsBraceAt(raw, pos + 1, n - 1) by {
            assert pos + n - 1 == pos + 1 + (n - 1) - 1;
          }
        }
      } else if n > 1 {
        assert !IsBraceAt(raw, pos, n);
      }
    }
  }

  // What the loop does with the line at pos: a blank one or a comment is skipped; one
  // that does not end in a brace takes in an opening brace on a line of its own.
  lemma LineLaw(raw: seq<string>, pos: nat)
    requires pos < |raw|
    ensures var (text, next) := Continued(raw[pos], raw, pos + 1);
      var (skip, line, after) := LineAt(raw, pos);
      var trimmed := Trimmed(text);
      && (skip <==> trimmed == [] || trimmed[0] == '#')
      && (skip ==> after == next)
      && (!skip && trimmed[|trimmed| - 1] in "{}" ==> line == trimmed && after == next)
      && (!skip && trimmed[|trimmed| - 1] !in "{}" ==>
            && (forall n :: IsBraceAt(raw, next, n) ==> line == trimmed + " {" && after == next + n)
            && ((forall n :: !IsBraceAt(raw, next, n)) ==> line == trimmed && after == next))
  {
    var (text, next) := Continued(raw[pos], raw, pos + 1);
    var found := BraceAhead(raw, next);
    if found > 0 { BraceAheadIff(raw, next, found); }
    forall n: nat | IsBraceAt(raw, next, n)
      ensures found == n
    {
      BraceAheadIff(raw, next, n);
    }
  }

  // ---- What a line does to the reader ----

  // A command changes the environment, and nothing else unless it fails or is put off;
  // only a failure or an invalid command spoils the result.
  lemma CommandLineLaw<Env(!new)>(r: Reader<Env>, line: string, commands: Commands<Env>, open: seq<seq<string>>)
    requires Proper(commands) && Represents(r.stack, open) && Split(line) != [] && Flatten(open) != [COMMANDS_BLOCK]
    requires LineOutcome(Flatten(open) + Split(line), r.env, commands).Ran?
    ensures var n, o := ReadLine(r, line, commands), LineOutcome(Flatten(open) + Split(line), r.env, commands);
      && n.env == o.env && n.stack == r.stack
      && (n.success <==> r.success && o.status != Failure && o.status != Invalid)
      && (if o.status == Defer then |n.deferred| == |r.deferred| + 1 && n.deferred[..|r.deferred|] == r.deferred
            && Split(n.deferred[|r.deferred|]) == Flatten(open) + Split(line)
          else n.deferred == r.deferred)
  {
    ExpandedTokens(r.stack, open, line);
    InCommandsBlockIff(r.stack, open);
  }

  // The lines that spoil the result.
  ghost predicate Fails<Env(!new)>(r: Reader<Env>, line: string, commands: Commands<Env>)
    requires Proper(commands)
  {
    var tokens := Split(ExpandLine(r.stack, line));
    var inCommands := r.stack != [] && r.stack[0] == COMMANDS_BLOCK;
    match if inCommands then CommandsOutcome(tokens, r.env) else LineOutcome(tokens, r.env, commands)
    case Ran(_, status) => status == Failure || status == Invalid
    case Block(_) => false
    case BlockEnd => r.stack == []
  }

  lemma {:induction false} ReadOneMore<Env(!new)>(r: Reader<Env>, lines: seq<string>, line: string,
          commands: Commands<Env>)
    requires Proper(commands)
    ensures ReadLines(r, lines + [line], commands) == ReadLine(ReadLines(r, lines, commands), line, commands)
    decreases |lines|
  {
    if lines == [] {
      assert (lines + [line])[1..] == [];
    } else {
      assert (lines + [line])[1..] == lines[1..] + [line];
      ReadOneMore(ReadLine(r, lines[0], commands), lines[1..], line, commands);
    }
  }

  ghost predicate FailsAt<Env(!new)>(r: Reader<Env>, lines: seq<string>, k: nat, commands: Commands<Env>)
    requires Proper(commands) && k < |lines|
  {
    Fails(ReadLines(r, lines[..k], commands), lines[k], commands)
  }

  // A file is read with success if and only if none of its lines fails.
  lemma {:induction false} SuccessIff<Env(!new)>(r: Reader<Env>, lines: seq<string>, commands: Commands<Env>)
    requires Proper(commands)
    ensures ReadLines(r, lines, commands).success <==>
      r.success && forall k :: 0 <= k < |lines| ==> !FailsAt(r, lines, k, commands)
    decreases |lines|
  {
    if lines != [] {
      var n := |lines| - 1;
      var front := lines[..n];
      assert lines == front + [lines[n]];
      SuccessIff(r, front, commands);
      ReadOneMore(r, front, lines[n], commands);
      forall k | 0 <= k < n
        ensures FailsAt(r, front, k, commands) == FailsAt(r, lines, k, commands)
      {
        assert front[..k] == lines[..k];
      }
      assert FailsAt(r, lines, n, commands) == Fails(ReadLines(r, front, commands), lines[n], commands);
    }
  }

  // ---- What the command of a line is given ----

  // One argument: its quotes are removed if it begins with one and the command does
  // not keep them, and its escapes are resolved.
  lemma ArgumentLaw(arg: string, keepsQuotes: bool, overrun: string -> string)
    requires NUL !in arg
    ensures var text := if !keepsQuotes && arg != [] && IsQuote(arg[0]) then Bare(arg, |arg|) else arg;
      && (Q.Decodable(text) ==> Resolved(arg, keepsQuotes, overrun) == Q.Decode(text))
      && (Q.Mark(text).RunsOver? ==> Resolved(arg, keepsQuotes, overrun) == overrun(text))
  {
    Q.StripLaw(arg);
    Q.StripKeepsNulOut(arg, false, false, false);
    var text := if !keepsQuotes && arg != [] && IsQuote(arg[0]) then Bare(arg, |arg|) else arg;
    assert text == if keepsQuotes then arg else E.Unquoted(arg);
    if Q.Decodable(text) { Q.DecodableIsDecoded(text); }
  }

  // Each word resolved, but the name of the command, and the name that is set.
  ghost predicate AreResolved<Env>(words: seq<string>, name: string, commands: Commands<Env>, argv: seq<string>) {
    |argv| == |words| && forall i :: 0 <= i < |words| ==>
      argv[i] == if i == 0 || (i == 1 && commands.isSet(name)) then words[i]
        else Resolved(words[i], commands.keepsQuotes(name), commands.overrun)
  }

  // A line without variables and braces is one call of its command with these words; a
  // name that is not known is invalid, and no call is made.
  lemma PlainCommandLaw<Env(!new)>(line: string, env: Env, commands: Commands<Env>, words: seq<string>,
          argv: seq<string>)
    requires Proper(commands) && '$' !in line
    requires words == Split(line) && words != [] && words[|words| - 1] !in {"{", "}"}
    requires AreResolved(words, words[0], commands, argv)
    ensures LineOutcome(words, env, commands) ==
      if !commands.isKnown(words[0]) then Ran(env, Invalid)
      else
        var (after, status) := commands.run(env, argv);
        Ran(after, status)
  {
    PlainLineIsUnchanged(line, env, commands);
    NameStays(line, words[0], commands.symbols(env));
    HandedIs(words, words[0], commands, argv);
    UnchangedRuns(words, env, commands, argv);
  }

  lemma NameStays(line: string, name: string, symbols: seq<V.Variable>)
    requires V.ProperNames(symbols) && '$' !in line && Split(line) != [] && name == Split(line)[0]
    ensures ResolveName(Split(line), symbols) == Split(line)
  {
    SplitMember(line, '$');
    assert name != [] ==> name[0] in name;
  }

  lemma UnchangedRuns<Env(!new)>(words: seq<string>, env: Env, commands: Commands<Env>, argv: seq<string>)
    requires Proper(commands) && words != [] && words[|words| - 1] !in {"{", "}"}
    requires ResolveName(words, commands.symbols(env)) == words && Arguments(words, env, commands) == words
    requires Handed(words, words[0], commands) == argv
    ensures LineOutcome(words, env, commands) ==
      if !commands.isKnown(words[0]) then Ran(env, Invalid)
      else
        var (after, status) := commands.run(env, argv);
        Ran(after, status)
  {
  }

  lemma HandedIs<Env(!new)>(words: seq<string>, name: string, commands: Commands<Env>, argv: seq<string>)
    requires AreResolved(words, name, commands, argv)
    ensures Handed(words, name, commands) == argv
  {
  }

  lemma NameExpands(v: V.Variable, symbols: seq<V.Variable>)
    requires V.ProperNames(symbols) && V.Match(symbols, v.name) == Some(v) && |v.name| > 1 && v.name[1] != '$'
    ensures V.Expand([], v.name, symbols) == v.value && v.name[0] == '$'
  {
    assert v.name[|v.name|..] == [] && [] + v.value == v.value;
  }

  lemma StoredAlone(stored: seq<string>, value: string)
    requires stored != [] && value == Join(stored) && forall i :: 0 <= i < |stored| ==> IsClosed(stored[i])
    ensures Split(Join([value])) == stored
  {
    SplitJoin(stored);
  }

  lemma StoredInFront(stored: seq<string>, value: string, words: seq<string>)
    requires stored != [] && value == Join(stored) && forall i :: 0 <= i < |stored| ==> IsClosed(stored[i])
    requires words != [] && AreTokens(words)
    ensures Split(Join([value] + words)) == stored + words
  {
    var all := [value] + words;
    assert all[0] == value && all[1..] == words;
    SplitJoin(words);
    SplitContinues(stored, Join(words));
  }

  lemma OtherTokens(word: string, words: seq<string>)
    requires AreTokens([word] + words)
    ensures AreTokens(words)
  {
    var all := [word] + words;
    assert forall i :: 0 <= i < |words| ==> all[i + 1] == words[i];
  }

  // A command stored in a variable takes the place of its name.
  lemma StoredCommandLaw(v: V.Variable, words: seq<string>, stored: seq<string>, symbols: seq<V.Variable>)
    requires V.ProperNames(symbols) && V.Match(symbols, v.name) == Some(v) && |v.name| > 1 && v.name[1] != '$'
    requires stored != [] && v.value == Join(stored) && forall i :: 0 <= i < |stored| ==> IsClosed(stored[i])
    requires AreTokens([v.name] + words)
    ensures ResolveName([v.name] + words, symbols) == stored + words
  {
    var all := [v.name] + words;
    assert all[0] == v.name && all[1..] == words;
    NameExpands(v, symbols);
    if words == [] {
      StoredAlone(stored, v.value);
      assert [v.value] + words == [v.value] && stored + words == stored;
    } else {
      OtherTokens(v.name, words);
      StoredInFront(stored, v.value, words);
    }
  }

  // So a line that begins with its name runs as the line with the command itself.
  lemma StoredCommandRuns<Env(!new)>(env: Env, commands: Commands<Env>, v: V.Variable, words: seq<string>,
          stored: seq<string>)
    requires Proper(commands)
    requires V.Match(commands.symbols(env), v.name) == Some(v) && |v.name| > 1 && v.name[1] != '$'
    requires stored != [] && v.value == Join(stored) && forall i :: 0 <= i < |stored| ==> IsClosed(stored[i])
    requires AreTokens([v.name] + words) && stored[0] != [] && stored[0][0] != '$'
    requires (stored + words)[|stored + words| - 1] !in {"{", "}"}
    ensures LineOutcome([v.name] + words, env, commands) == LineOutcome(stored + words, env, commands)
  {
    var all, whole := [v.name] + words, stored + words;
    StoredCommandLaw(v, words, stored, commands.symbols(env));
    assert whole[0] == stored[0] && IsClosed(stored[0]);
    assert ResolveName(whole, commands.symbols(env)) == whole;
    NameIsNoBrace(v, commands.symbols(env));
    assert all[|all| - 1] == if words == [] then v.name else whole[|whole| - 1];
    SameNamed(all, whole, env, commands);
  }

  lemma NameIsNoBrace(v: V.Variable, symbols: seq<V.Variable>)
    requires V.ProperNames(symbols) && V.Match(symbols, v.name) == Some(v)
    ensures v.name !in {"{", "}"}
  {
    assert v.name[0] == '$';
  }

  lemma SameNamed<Env(!new)>(a: seq<string>, b: seq<string>, env: Env, commands: Commands<Env>)
    requires Proper(commands) && a != [] && b != []
    requires a[|a| - 1] !in {"{", "}"} && b[|b| - 1] !in {"{", "}"}
    requires ResolveName(a, commands.symbols(env)) == ResolveName(b, commands.symbols(env))
    ensures LineOutcome(a, env, commands) == LineOutcome(b, env, commands)
  {
  }
}
