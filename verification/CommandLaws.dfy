// sway/commands.c: what a command is given, what it acts on and which answers a list
// gets, told without the functions that compute it.
module CommandLaws {
  import opened CommandStatus
  import opened CriteriaTurns
  import opened ExecuteCommand
  import opened Readings
  import opened Tokens
  import opened Wrappers
  import ArgSep
  import Q = Quotes
  import V = Variables

  // ---- Criteria: one call for each container ----

  // The handler is called on the containers one after the other, each time in the
  // environment that the last call left, up to the first invalid answer.
  ghost predicate AreCalls<Env(!new), Container(!new)>(session: Session<Env, Container>, envs: seq<Env>,
          statuses: seq<Status>, containers: seq<Container>, argv: seq<string>)
  {
    && |envs| == |statuses| + 1 && |statuses| <= |containers|
    && (forall i :: 0 <= i < |statuses| ==> IsCall(session, envs, statuses, containers, argv, i))
    && (forall i :: 0 <= i < |statuses| - 1 ==> statuses[i] != Invalid)
    && (|statuses| < |containers| ==> statuses != [] && statuses[|statuses| - 1] == Invalid)
  }

  ghost predicate IsCall<Env(!new), Container(!new)>(session: Session<Env, Container>, envs: seq<Env>,
          statuses: seq<Status>, containers: seq<Container>, argv: seq<string>, i: nat)
    requires |envs| == |statuses| + 1 && i < |statuses| <= |containers|
  {
    session.run(envs[i], Some(containers[i]), argv) == (envs[i + 1], statuses[i])
  }

  // The answer of them all: invalid if one was, else the last that was no success.
  predicate IsAnswer(statuses: seq<Status>, r: Status) {
    if Invalid in statuses then r == Invalid
    else if r == Success then forall i :: 0 <= i < |statuses| ==> statuses[i] == Success
    else
      exists i ::
        0 <= i < |statuses| && statuses[i] == r && forall j :: i < j < |statuses| ==> statuses[j] == Success
  }

  // Behind answers that came to `status` so far.
  predicate IsAnswerBehind(status: Status, statuses: seq<Status>, r: Status) {
    if forall i :: 0 <= i < |statuses| ==> statuses[i] == Success then r == status else IsAnswer(statuses, r)
  }

  lemma {:induction false} CallsFrom<Env(!new), Container(!new)>(session: Session<Env, Container>, env: Env,
          containers: seq<Container>, argv: seq<string>, status: Status)
    returns (envs: seq<Env>, statuses: seq<Status>)
    ensures AreCalls(session, envs, statuses, containers, argv) && envs[0] == env
    ensures var r := RunOnEach(session, env, containers, argv, status);
      r.0 == envs[|statuses|] && IsAnswerBehind(status, statuses, r.1)
    decreases |containers|
  {
    if containers == [] {
      envs, statuses := [env], [];
    } else {
      var (after, s) := session.run(env, Some(containers[0]), argv);
      if s == Invalid {
        envs, statuses := [env, after], [s];
      } else {
        var es, ss := CallsFrom(session, after, containers[1..], argv, if s == Success then status else s);
        envs, statuses := [env] + es, [s] + ss;
        OneMoreCall(session, env, s, es, ss, containers, argv);
        OneMoreAnswer(status, s, ss, RunOnEach(session, env, containers, argv, status).1);
      }
    }
  }

  lemma OneMoreCall<Env(!new), Container(!new)>(session: Session<Env, Container>, env: Env, s: Status,
          envs: seq<Env>, statuses: seq<Status>, containers: seq<Container>, argv: seq<string>)
    requires containers != [] && AreCalls(session, envs, statuses, containers[1..], argv)
    requires session.run(env, Some(containers[0]), argv) == (envs[0], s) && s != Invalid
    ensures AreCalls(session, [env] + envs, [s] + statuses, containers, argv)
  {
    forall i | 0 <= i < |statuses| + 1
      ensures IsCall(session, [env] + envs, [s] + statuses, containers, argv, i)
    {
      if i > 0 { assert IsCall(session, envs, statuses, containers[1..], argv, i - 1); }
    }
  }

  lemma OneMoreAnswer(status: Status, s: Status, statuses: seq<Status>, r: Status)
    requires s != Invalid && IsAnswerBehind(if s == Success then status else s, statuses, r)
    ensures IsAnswerBehind(status, [s] + statuses, r)
  {
    var all := [s] + statuses;
    assert all[0] == s && forall i :: 0 <= i < |statuses| ==> all[i + 1] == statuses[i];
    if forall i :: 0 <= i < |statuses| ==> statuses[i] == Success {
      assert forall i :: 0 < i < |all| ==> all[i] == statuses[i - 1];
      assert Invalid !in all;
    } else {
      var k :| 0 <= k < |statuses| && statuses[k] != Success;
      assert all[k + 1] != Success;
      AnswerShifted(s, statuses, r);
    }
  }

  lemma AnswerShifted(s: Status, statuses: seq<Status>, r: Status)
    requires s != Invalid && IsAnswer(statuses, r) && exists i :: 0 <= i < |statuses| && statuses[i] != Success
    ensures IsAnswer([s] + statuses, r)
  {
    var all := [s] + statuses;
    assert Invalid in all <==> Invalid in statuses;
    if Invalid !in statuses {
      var i :| 0 <= i < |statuses| && statuses[i] == r && forall j :: i < j < |statuses| ==> statuses[j] == Success;
      assert all[i + 1] == r && forall j :: i + 1 < j < |all| ==> all[j] == statuses[j - 1];
    }
  }

  // There is only one such sequence of calls.
  lemma {:induction false} CallsAreUnique<Env(!new), Container(!new)>(session: Session<Env, Container>,
          envs: seq<Env>, statuses: seq<Status>, envs': seq<Env>, statuses': seq<Status>,
          containers: seq<Container>, argv: seq<string>)
    requires AreCalls(session, envs, statuses, containers, argv)
    requires AreCalls(session, envs', statuses', containers, argv) && envs[0] == envs'[0]
    ensures envs == envs' && statuses == statuses'
  {
    var n := if |statuses| <= |statuses'| then |statuses| else |statuses'|;
    SameCalls(session, envs, statuses, envs', statuses', containers, argv, n);
    assert n > 0 ==> statuses[n - 1] == statuses[..n][n - 1] == statuses'[..n][n - 1] == statuses'[n - 1];
    assert |statuses| == |statuses'|;
  }

  lemma {:induction false} SameCalls<Env(!new), Container(!new)>(session: Session<Env, Container>,
          envs: seq<Env>, statuses: seq<Status>, envs': seq<Env>, statuses': seq<Status>,
          containers: seq<Container>, argv: seq<string>, n: nat)
    requires AreCalls(session, envs, statuses, containers, argv)
    requires AreCalls(session, envs', statuses', containers, argv) && envs[0] == envs'[0]
    requires n <= |statuses| && n <= |statuses'|
    ensures envs[..n + 1] == envs'[..n + 1] && statuses[..n] == statuses'[..n]
  {
    if n > 0 {
      SameCalls(session, envs, statuses, envs', statuses', containers, argv, n - 1);
      assert envs[n - 1] == envs[..n][n - 1] == envs'[..n][n - 1];
      assert IsCall(session, envs, statuses, containers, argv, n - 1);
      assert IsCall(session, envs', statuses', containers, argv, n - 1);
      assert envs[..n + 1] == envs[..n] + [envs[n]] && envs'[..n + 1] == envs'[..n] + [envs'[n]];
      assert statuses[..n] == statuses[..n - 1] + [statuses[n - 1]];
      assert statuses'[..n] == statuses'[..n - 1] + [statuses'[n - 1]];
    }
  }

  // What a command does: nothing if its name is not known; one call for the focus
  // without criteria; a failure if criteria selected nothing; else one call for each
  // container that they selected.
  lemma CommandLaw<Env(!new), Container(!new)>(session: Session<Env, Container>, env: Env,
          scope: Option<seq<Container>>, command: string)
    returns (argv: seq<string>, envs: seq<Env>, statuses: seq<Status>)
    requires Proper(session) && Split(command) != []
    ensures argv == Arguments(Split(command), Split(command)[0] in session.setters, session.symbols(env))
    ensures var r, known := RunCommand(session, env, scope, command), Split(command)[0] in session.handlers;
      && (!known ==> r == (env, Invalid))
      && (known && scope == None ==> r == session.run(env, None, argv))
      && (known && scope == Some([]) ==> r == (env, Failure))
      && (known && scope.Some? && scope.value != [] ==>
            && AreCalls(session, envs, statuses, scope.value, argv) && envs[0] == env
            && r.0 == envs[|statuses|] && IsAnswer(statuses, r.1))
  {
    var tokens := Split(command);
    argv := Arguments(tokens, tokens[0] in session.setters, session.symbols(env));
    envs, statuses := [env], [];
    if scope.Some? {
      envs, statuses := CallsFrom(session, env, scope.value, argv, Success);
    }
  }

  // ---- The arguments of a command ----

  // Quotes stay for these commands, and in arguments that do not begin with one.
  predicate LosesQuotes(name: string, arg: string) {
    name !in {"exec", "exec_always", "mode"} && arg != [] && IsQuote(arg[0])
  }

  lemma ArgumentsLaw(tokens: seq<string>, isSet: bool, symbols: seq<V.Variable>)
    requires V.ProperNames(symbols)
    ensures var argv := Arguments(tokens, isSet, symbols);
      && |argv| == |tokens|
      && (tokens != [] ==> argv[0] == tokens[0])
      && forall i :: 1 <= i < |tokens| ==>
           var arg := tokens[i];
           var text := if LosesQuotes(tokens[0], arg) then Bare(arg, |arg|) else arg;
           argv[i] == if i == 1 && isSet then text else V.Expand([], text, symbols)
  {
    forall i | 1 <= i < |tokens|
      ensures Q.StripQuotes(tokens[i]) == Bare(tokens[i], |tokens[i]|)
    {
      Q.StripLaw(tokens[i]);
    }
  }

  // ---- The answers of a list ----

  // How many of the pieces from k on have a command.
  function CommandsFrom(s: string, parts: seq<Part>, k: nat): (n: nat)
    requires k <= |parts| && forall i :: 0 <= i < |parts| ==> InList(s, parts[i])
    decreases |parts| - k
  {
    if k == |parts| then 0
    else (if CommandOf(s, parts[k]) == [] then 0 else 1) + CommandsFrom(s, parts, k + 1)
  }

  // Only an invalid command or a mistake in criteria ends a list early.
  ghost predicate AreAnswers(statuses: seq<Status>, n: nat) {
    && (forall i :: 0 <= i < |statuses| - 1 ==> statuses[i] != Invalid)
    && ((statuses != [] && statuses[|statuses| - 1] == Invalid) || |statuses| == n)
  }

  lemma {:induction false} AnswersFrom<Env(!new), Container(!new)>(session: Session<Env, Container>, env: Env,
          s: string, parts: seq<Part>, k: nat, scope: Option<seq<Container>>)
    requires Proper(session) && k <= |parts| && forall i :: 0 <= i < |parts| ==> InList(s, parts[i])
    ensures AreAnswers(RunParts(session, env, s, parts, k, scope).statuses, CommandsFrom(s, parts, k))
    decreases |parts| - k, 1
  {
    if k < |parts| {
      if LooksForCriteria(parts[k]) {
        assert InList(s, parts[k]);
        var r := ScopeAtPlace(session, env, s, SkipBlanks(s, parts[k].start, |s|));
        if r.Some? { PartAnswers(session, env, s, parts, k, r.value); }
      } else {
        PartAnswers(session, env, s, parts, k, scope);
      }
    }
  }

  lemma {:induction false} PartAnswers<Env(!new), Container(!new)>(session: Session<Env, Container>, env: Env,
          s: string, parts: seq<Part>, k: nat, scope: Option<seq<Container>>)
    requires Proper(session) && k < |parts| && forall i :: 0 <= i < |parts| ==> InList(s, parts[i])
    ensures AreAnswers(RunPart(session, env, s, parts, k, scope).statuses, CommandsFrom(s, parts, k))
    decreases |parts| - k, 0
  {
    var (after, statuses) := RunPiece(session, env, scope, CommandOf(s, parts[k]));
    if statuses != [Invalid] {
      AnswersFrom(session, after, s, parts, k + 1, scope);
      MoreAnswers(statuses, RunParts(session, after, s, parts, k + 1, scope).statuses, CommandsFrom(s, parts, k + 1));
    }
  }

  lemma MoreAnswers(a: seq<Status>, b: seq<Status>, n: nat)
    requires AreAnswers(b, n) && |a| <= 1 && a != [Invalid]
    ensures AreAnswers(a + b, |a| + n)
  {
    var all := a + b;
    assert forall i :: 0 <= i < |b| ==> all[|a| + i] == b[i];
    assert forall i :: |a| <= i < |all| ==> all[i] == b[i - |a|];
    if b == [] && a != [] { assert all[0] == a[0]; }
  }

  // A list gets one answer for each of its commands, up to the first invalid one or
  // to criteria with a mistake, whatever the other answers are.
  lemma AnswersLaw<Env(!new), Container(!new)>(session: Session<Env, Container>, env: Env, s: string)
    requires Proper(session)
    ensures AreAnswers(Run(session, env, s, ArgSep.CutsOf(s, SEPARATORS), 0, true, None).statuses,
      CommandsFrom(s, Parts(s), 0))
  {
    ListRunsInParts(session, env, s);
    AnswersFrom(session, env, s, Parts(s), 0, None);
  }
}
