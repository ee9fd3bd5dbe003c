// A command list as it is meant: groups of commands, each with its own criteria
// or none.  Written out, with whitespace where people put it, it runs as it is meant.
module CommandPlans {
  import opened ArgSep
  import opened CommandStatus
  import opened ExecuteCommand
  import opened Sequences
  import opened Tokens
  import opened Wrappers
  import C = CriteriaText

  // A command with the whitespace in front of it, and commands with the criteria
  // they run on, if any.
  datatype Item = Item(gap: string, text: string)

  datatype Group = Group(gap: string, criteria: string, commands: seq<Item>)

  ghost predicate IsGap(gap: string) {
    forall i :: BlankAt(gap, i)
  }

  predicate BlankAt(gap: string, i: int) {
    0 <= i < |gap| ==> IsSpace(gap[i])
  }

  lemma GapTail(gap: string)
    requires IsGap(gap) && gap != []
    ensures IsSpace(gap[0]) && IsGap(gap[1..])
  {
    assert BlankAt(gap, 0);
    forall i
      ensures BlankAt(gap[1..], i)
    {
      assert BlankAt(gap, i + 1);
    }
  }

  lemma GapsJoin(a: string, b: string)
    requires IsGap(a) && IsGap(b)
    ensures IsGap(a + b)
  {
    forall i
      ensures BlankAt(a + b, i)
    {
      assert BlankAt(a, i) && BlankAt(b, i - |a|);
    }
  }

  // A command with all its quotes closed, and no separator outside them.
  predicate IsCommand(c: string) {
    && c != [] && !IsSpace(c[0])
    && Separator(c, SEPARATORS, 0, OUTSIDE) == |c|
    && ReadingAt(c, SEPARATORS, 0, |c|) == OUTSIDE
  }

  ghost predicate AreCommands(commands: seq<Item>) {
    forall i :: CommandAt(commands, i)
  }

  ghost predicate CommandAt(commands: seq<Item>, i: int) {
    0 <= i < |commands| ==> IsGap(commands[i].gap) && IsCommand(commands[i].text)
  }

  // Criteria without a mistake, which end at their bracket.
  predicate AreCriteria(text: string) {
    text != [] && text[0] == '[' && C.Parse(text).Parsed? && C.Parse(text).end == |text|
  }

  ghost predicate IsWritable(group: Group) {
    && IsGap(group.gap) && group.commands != [] && AreCommands(group.commands)
    && var first := group.commands[0].text;
    if group.criteria == [] then first != [] && first[0] != '[' else AreCriteria(group.criteria)
  }

  ghost predicate AreWritable(groups: seq<Group>) {
    forall i :: WritableAt(groups, i)
  }

  ghost predicate WritableAt(groups: seq<Group>, i: int) {
    0 <= i < |groups| ==> IsWritable(groups[i])
  }

  lemma FirstCommand(commands: seq<Item>)
    requires commands != [] && AreCommands(commands)
    ensures IsGap(commands[0].gap) && commands[0].text != [] && !IsSpace(commands[0].text[0])
  {
    assert CommandAt(commands, 0);
  }

  lemma OtherCommands(commands: seq<Item>)
    requires commands != [] && AreCommands(commands)
    ensures AreCommands(commands[1..])
  {
    forall i
      ensures CommandAt(commands[1..], i)
    {
      assert CommandAt(commands, i + 1);
    }
  }

  lemma OtherGroups(groups: seq<Group>)
    requires groups != [] && AreWritable(groups)
    ensures IsWritable(groups[0]) && AreWritable(groups[1..])
  {
    assert WritableAt(groups, 0);
    forall i
      ensures WritableAt(groups[1..], i)
    {
      assert WritableAt(groups, i + 1);
    }
  }

  // What follows a command: more commands of its group behind commas, more groups
  // behind semicolons.
  function ShowRest(commands: seq<Item>, groups: seq<Group>): (s: string)
    decreases |groups|, 1 + |commands|
  {
    if commands != [] then [','] + (commands[0].gap + (commands[0].text + ShowRest(commands[1..], groups)))
    else if groups != [] then [';'] + Show(groups)
    else []
  }

  function Show(groups: seq<Group>): (s: string)
    decreases |groups|, 0
  {
    if groups == [] || groups[0].commands == [] then []
    else groups[0].gap + ShowBody(groups[0], ShowRest(groups[0].commands[1..], groups[1..]))
  }

  // A group behind the whitespace in front of it.
  function ShowBody(group: Group, rest: string): (s: string)
    requires group.commands != []
  {
    group.criteria + (group.commands[0].gap + (group.commands[0].text + rest))
  }

  // What criteria select; None for a mistake in them.
  function Select<Env, Container>(session: Session<Env, Container>, env: Env,
          criteria: string): (r: Option<seq<Container>>)
    requires criteria != [] && criteria[0] == '['
  {
    match C.Parse(criteria)
    case Bad => None
    case Parsed(pairs, _) => session.select(env, pairs)
  }

  // What the groups mean: each command runs in the scope of its group, which is
  // selected when the group's turn has come; a mistake in the criteria or an invalid
  // command ends it all.
  function RunPlan<Env(!new), Container(!new)>(session: Session<Env, Container>, env: Env,
          groups: seq<Group>): (r: Result<Env>)
    requires Proper(session)
    decreases |groups|, 0
  {
    if groups == [] then Result(env, [])
    else
      var g := groups[0];
      if g.criteria == [] || g.criteria[0] != '[' then RunGroup(session, env, None, g.commands, groups[1..])
      else match Select(session, env, g.criteria)
        case None => Result(env, [Invalid])
        case Some(containers) => RunGroup(session, env, Some(containers), g.commands, groups[1..])
  }

  function RunGroup<Env(!new), Container(!new)>(session: Session<Env, Container>, env: Env,
          scope: Option<seq<Container>>, commands: seq<Item>, groups: seq<Group>): (r: Result<Env>)
    requires Proper(session)
    decreases |groups|, 1 + |commands|
  {
    if commands == [] then RunPlan(session, env, groups)
    else
      var (after, status) := RunCommand(session, env, scope, commands[0].text);
      if status == Invalid then Result(after, [status])
      else Ahead([status], RunGroup(session, after, scope, commands[1..], groups))
  }

  // A command is read inside a list as on its own.
  lemma {:induction false} SeparatorInside(s: string, at: nat, c: string, k: nat)
    requires k <= |c| && at + |c| <= |s| && s[at..at + |c|] == c
    requires Separator(c, SEPARATORS, k, ReadingAt(c, SEPARATORS, 0, k)) == |c|
    ensures Separator(s, SEPARATORS, at + k, ReadingAt(c, SEPARATORS, 0, k)) ==
      Separator(s, SEPARATORS, at + |c|, ReadingAt(c, SEPARATORS, 0, |c|))
    decreases |c| - k
  {
    if k < |c| {
      assert s[at + k] == c[k];
      SeparatorInside(s, at, c, k + 1);
    }
  }

  // What cutting does with a list.
  ghost predicate AreListCuts(s: string, cuts: seq<Cut>) {
    AreCuts(s, cuts) && CutsAtSeparators(s, SEPARATORS, cuts)
  }

  lemma CommandIsCutOff(s: string, cuts: seq<Cut>, at: nat, commands: seq<Item>, c: string)
    requires commands != [] && AreCommands(commands) && c == commands[0].text
    requires AreListCuts(s, cuts) && at + |c| <= |s| && s[at..at + |c|] == c
    requires at + |c| == |s| || s[at + |c|] in SEPARATORS
    ensures cuts[at] == Cut(at + |c| < |s|, at, at + |c|)
    ensures SkipBlanks(s, at, at + |c|) == at
  {
    assert CommandAt(commands, 0);
    SeparatorInside(s, at, c, 0);
    assert CutsAtSeparator(s, SEPARATORS, cuts, at);
    assert s[at] == c[0];
  }

  // Whitespace in front of a text is skipped.
  lemma {:induction false} SkipGap(s: string, at: nat, gap: string, text: string)
    requires Stands(s, at, gap, text) && IsGap(gap) && text != [] && !IsSpace(text[0])
    ensures SkipBlanks(s, at, |s|) == at + |gap| < |s| && s[at + |gap|] == text[0]
    decreases |gap|
  {
    StandsAt(s, at, gap, text);
    if gap != [] {
      GapTail(gap);
      assert s[at + 0] == gap[0] && gap == [gap[0]] + gap[1..];
      Regrouped(s, at, gap, text, [gap[0]], gap[1..] + text);
      StandsNext(s, at, [gap[0]], gap[1..], text);
      SkipGap(s, at + 1, gap[1..], text);
    }
  }

  // One command of the list runs, and the list goes on behind the separator.
  lemma CommandRuns<Env(!new), Container(!new)>(session: Session<Env, Container>, env: Env, s: string, cuts: seq<Cut>,
          at: nat, scope: Option<seq<Container>>, commands: seq<Item>, end: nat)
    returns (after: Env, status: Status)
    requires Proper(session) && AreListCuts(s, cuts) && commands != [] && AreCommands(commands)
    requires end == at + |commands[0].text| <= |s| && s[at..end] == commands[0].text
    requires end < |s| ==> s[end] in SEPARATORS
    ensures (after, status) == RunCommand(session, env, scope, commands[0].text)
    ensures RunBody(session, env, s, cuts, at, scope) ==
      if status == Invalid || end == |s| then Result(after, [status])
      else Ahead([status], Run(session, after, s, cuts, end + 1, s[end] == ';', scope))
  {
    var c := commands[0].text;
    FirstCommand(commands);
    CommandIsCutOff(s, cuts, at, commands, c);
    var r := RunCommand(session, env, scope, c);
    after, status := r.0, r.1;
    var next := if end == |s| then None else Some(end + 1);
    RunsPiece(session, env, s, cuts, at, scope, c, next, end < |s| && s[end] == ';');
  }

  // A list goes on with a command of the same group.
  lemma CommandFollows<Env(!new), Container(!new)>(session: Session<Env, Container>, env: Env, s: string,
          cuts: seq<Cut>, at: nat, scope: Option<seq<Container>>, body: nat)
    requires Proper(session) && AreListCuts(s, cuts) && at <= |s| && SkipBlanks(s, at, |s|) == body
    ensures Run(session, env, s, cuts, at, false, scope) == RunBody(session, env, s, cuts, body, scope)
  {
  }

  // Where the first command of a group begins.
  function BodyOf(at: nat, group: Group): (body: nat)
    requires group.commands != []
  {
    at + |group.gap| + |group.criteria| + |group.commands[0].gap|
  }

  // A list goes on with another group: one without criteria begins at h, one with
  // criteria has its first command at the body.
  lemma PlainGroupFollows<Env(!new), Container(!new)>(session: Session<Env, Container>, env: Env, s: string,
          cuts: seq<Cut>, at: nat, scope: Option<seq<Container>>, h: nat)
    requires Proper(session) && AreListCuts(s, cuts) && at <= |s| && SkipBlanks(s, at, |s|) == h < |s|
    requires s[h] != '['
    ensures Run(session, env, s, cuts, at, true, scope) == RunBody(session, env, s, cuts, h, None)
  {
  }

  lemma GroupFollows<Env(!new), Container(!new)>(session: Session<Env, Container>, env: Env, s: string,
          cuts: seq<Cut>, at: nat, scope: Option<seq<Container>>, h: nat, criteria: string, body: nat)
    requires Proper(session) && AreListCuts(s, cuts) && at <= |s| && SkipBlanks(s, at, |s|) == h < |s|
    requires s[h] == '[' && AreCriteria(criteria) && C.Parse(s[h..]) == C.Parse(criteria)
    requires h + |criteria| <= |s| && SkipBlanks(s, h + |criteria|, |s|) == body
    ensures Run(session, env, s, cuts, at, true, scope) ==
      match Select(session, env, criteria)
      case None => Result(env, [Invalid])
      case Some(containers) => RunBody(session, env, s, cuts, body, Some(containers))
  {
    var selected := Select(session, env, criteria);
    assert ExecuteCommand.ScopeOf(session, env, s, h, C.Parse(criteria)) ==
      if selected.None? then None else Some((body, selected));
    ScopedRuns(session, env, s, cuts, at, scope, h, body, selected);
  }

  lemma ScopedRuns<Env(!new), Container(!new)>(session: Session<Env, Container>, env: Env, s: string,
          cuts: seq<Cut>, at: nat, scope: Option<seq<Container>>, h: nat, body: nat, selected: Option<seq<Container>>)
    requires Proper(session) && AreListCuts(s, cuts) && at <= |s| && SkipBlanks(s, at, |s|) == h && body <= |s|
    requires Scoped(session, env, s, h, true, scope) == if selected.None? then None else Some((body, selected))
    ensures Run(session, env, s, cuts, at, true, scope) ==
      if selected.None? then Result(env, [Invalid]) else RunBody(session, env, s, cuts, body, selected)
  {
  }

  // Where a group begins in the list, and that its criteria are read as they are.
  lemma PlainGroupBegins(s: string, at: nat, group: Group, rest: string)
    requires IsWritable(group) && group.criteria == [] && Stands(s, at, group.gap, ShowBody(group, rest))
    ensures var h := BodyOf(at, group);
      at <= |s| && SkipBlanks(s, at, |s|) == h < |s| && s[h] != '[' && Stands(s, h, group.commands[0].text, rest)
  {
    FirstCommand(group.commands);
    var c := group.commands[0];
    var blank := group.gap + c.gap;
    GapsJoin(group.gap, c.gap);
    assert group.gap + ShowBody(group, rest) == blank + (c.text + rest);
    Regrouped(s, at, group.gap, ShowBody(group, rest), blank, c.text + rest);
    SkipGap(s, at, blank, c.text + rest);
    StandsNext(s, at, blank, c.text, rest);
  }

  lemma GroupBegins(s: string, at: nat, group: Group, rest: string) returns (h: nat)
    requires IsWritable(group) && group.criteria != [] && Stands(s, at, group.gap, ShowBody(group, rest))
    ensures h == at + |group.gap| && at <= |s| && SkipBlanks(s, at, |s|) == h < |s| && s[h] == '['
    ensures C.Parse(s[h..]) == C.Parse(group.criteria)
    ensures h + |group.criteria| <= |s| && SkipBlanks(s, h + |group.criteria|, |s|) == BodyOf(at, group)
    ensures Stands(s, BodyOf(at, group), group.commands[0].text, rest)
  {
    var c := group.commands[0];
    h := at + |group.gap|;
    SkipGap(s, at, group.gap, ShowBody(group, rest));
    StandsNext(s, at, group.gap, group.criteria, c.gap + (c.text + rest));
    CriteriaRead(s, h, group.criteria, c.gap + (c.text + rest));
    CommandBehind(s, h, group.criteria, group.commands, rest);
  }

  lemma CriteriaRead(s: string, h: nat, criteria: string, tail: string)
    requires AreCriteria(criteria) && Stands(s, h, criteria, tail)
    ensures h < |s| && s[h] == '[' && C.Parse(s[h..]) == C.Parse(criteria)
  {
    StandsAt(s, h, criteria, tail);
    assert s[h..] == criteria + tail && s[h + 0] == criteria[0];
    C.PairsPrefix(criteria, tail, 1);
  }

  lemma CommandBehind(s: string, h: nat, text: string, commands: seq<Item>, rest: string)
    requires commands != [] && AreCommands(commands)
    requires Stands(s, h, text, commands[0].gap + (commands[0].text + rest))
    ensures h + |text| <= |s| && SkipBlanks(s, h + |text|, |s|) == h + |text| + |commands[0].gap|
    ensures Stands(s, h + |text| + |commands[0].gap|, commands[0].text, rest)
  {
    var c := commands[0];
    FirstCommand(commands);
    StandsNext(s, h, text, c.gap, c.text + rest);
    SkipGap(s, h + |text|, c.gap, c.text + rest);
    StandsNext(s, h + |text|, c.gap, c.text, rest);
  }

  ghost predicate RunsGroup<Env(!new), Container(!new)>(session: Session<Env, Container>, env: Env, s: string,
          cuts: seq<Cut>, at: nat, scope: Option<seq<Container>>, commands: seq<Item>, groups: seq<Group>)
    requires Proper(session) && AreListCuts(s, cuts)
  {
    at <= |s| && RunBody(session, env, s, cuts, at, scope) == RunGroup(session, env, scope, commands, groups)
  }

  ghost predicate RunsOnward<Env(!new), Container(!new)>(session: Session<Env, Container>, env: Env, s: string,
          cuts: seq<Cut>, at: nat, first: bool, scope: Option<seq<Container>>, commands: seq<Item>, groups: seq<Group>)
    requires Proper(session) && AreListCuts(s, cuts)
  {
    && at <= |s|
    && Run(session, env, s, cuts, at, first, scope) == RunGroup(session, env, scope, commands, groups)
  }

  lemma CommandThenRest<Env(!new), Container(!new)>(session: Session<Env, Container>, env: Env, s: string,
          cuts: seq<Cut>, at: nat, scope: Option<seq<Container>>, commands: seq<Item>, groups: seq<Group>, end: nat)
    requires Proper(session) && AreListCuts(s, cuts) && commands != [] && AreCommands(commands)
    requires end == at + |commands[0].text| <= |s| && s[at..end] == commands[0].text
    requires end == |s| ==> commands[1..] == [] && groups == []
    requires end < |s| ==>
      && s[end] in SEPARATORS
      && var after := RunCommand(session, env, scope, commands[0].text).0;
      RunsOnward(session, after, s, cuts, end + 1, s[end] == ';', scope, commands[1..], groups)
    ensures RunsGroup(session, env, s, cuts, at, scope, commands, groups)
  {
    var after, status := CommandRuns(session, env, s, cuts, at, scope, commands, end);
  }

  // What follows a command, in the list.
  lemma {:induction false} RestStands(s: string, at: nat, c: string, commands: seq<Item>, groups: seq<Group>)
    requires Stands(s, at, c, ShowRest(commands, groups)) && AreWritable(groups)
    ensures at + |c| <= |s| && s[at..at + |c|] == c
    ensures at + |c| == |s| <==> commands == [] && groups == []
    ensures commands != [] ==>
      && s[at + |c|] == ','
      && Stands(s, at + |c| + 1, commands[0].gap, commands[0].text + ShowRest(commands[1..], groups))
    ensures commands == [] && groups != [] ==> s[at + |c|] == ';' && GroupStands(s, at + |c| + 1, groups)
  {
    StandsAt(s, at, c, ShowRest(commands, groups));
    if commands != [] {
      var tail := commands[0].text + ShowRest(commands[1..], groups);
      StandsNext(s, at, c, [','], commands[0].gap + tail);
      StandsNext(s, at + |c|, [','], commands[0].gap, tail);
    } else if groups != [] {
      OtherGroups(groups);
      var body := ShowBody(groups[0], ShowRest(groups[0].commands[1..], groups[1..]));
      assert ShowRest(commands, groups) == [';'] + Show(groups) && Show(groups) == groups[0].gap + body;
      StandsNext(s, at, c, [';'], groups[0].gap + body);
      StandsNext(s, at + |c|, [';'], groups[0].gap, body);
    }
  }

  ghost predicate GroupStands(s: string, at: nat, groups: seq<Group>) {
    && groups != [] && groups[0].commands != []
    && Stands(s, at, groups[0].gap, ShowBody(groups[0], ShowRest(groups[0].commands[1..], groups[1..])))
  }

  lemma {:induction false} RestRuns<Env(!new), Container(!new)>(session: Session<Env, Container>, env: Env, s: string,
          cuts: seq<Cut>, at: nat, scope: Option<seq<Container>>, commands: seq<Item>, groups: seq<Group>)
    requires Proper(session) && AreListCuts(s, cuts)
    requires commands != [] && AreCommands(commands) && AreWritable(groups)
    requires Stands(s, at, commands[0].text, ShowRest(commands[1..], groups))
    ensures RunsGroup(session, env, s, cuts, at, scope, commands, groups)
    decreases |groups|, |commands|, 0
  {
    var c, more := commands[0].text, commands[1..];
    var end, after := at + |c|, RunCommand(session, env, scope, c).0;
    RestStands(s, at, c, more, groups);
    OtherCommands(commands);
    if more != [] {
      CommandsRun(session, after, s, cuts, end + 1, scope, more, groups);
    } else if groups != [] {
      GroupsRun(session, after, s, cuts, end + 1, scope, groups);
    }
    CommandThenRest(session, env, s, cuts, at, scope, commands, groups, end);
  }

  lemma {:induction false} CommandsRun<Env(!new), Container(!new)>(session: Session<Env, Container>, env: Env,
          s: string, cuts: seq<Cut>, at: nat, scope: Option<seq<Container>>, commands: seq<Item>, groups: seq<Group>)
    requires Proper(session) && AreListCuts(s, cuts)
    requires commands != [] && AreCommands(commands) && AreWritable(groups)
    requires Stands(s, at, commands[0].gap, commands[0].text + ShowRest(commands[1..], groups))
    ensures RunsOnward(session, env, s, cuts, at, false, scope, commands, groups)
    decreases |groups|, |commands|, 1
  {
    var rest := ShowRest(commands[1..], groups);
    FirstCommand(commands);
    SkipGap(s, at, commands[0].gap, commands[0].text + rest);
    StandsNext(s, at, commands[0].gap, commands[0].text, rest);
    RestRuns(session, env, s, cuts, at + |commands[0].gap|, scope, commands, groups);
    CommandFollows(session, env, s, cuts, at, scope, at + |commands[0].gap|);
  }

  lemma {:induction false} GroupsRun<Env(!new), Container(!new)>(session: Session<Env, Container>, env: Env, s: string,
          cuts: seq<Cut>, at: nat, scope: Option<seq<Container>>, groups: seq<Group>)
    requires Proper(session) && AreListCuts(s, cuts)
    requires groups != [] && AreWritable(groups) && GroupStands(s, at, groups)
    ensures RunsOnward(session, env, s, cuts, at, true, scope, [], groups)
    decreases |groups|, 0
  {
    var g, others := groups[0], groups[1..];
    OtherGroups(groups);
    if g.criteria == [] {
      PlainGroupBegins(s, at, g, ShowRest(g.commands[1..], others));
      PlainGroupFollows(session, env, s, cuts, at, scope, BodyOf(at, g));
      RestRuns(session, env, s, cuts, BodyOf(at, g), None, g.commands, others);
    } else {
      var h := GroupBegins(s, at, g, ShowRest(g.commands[1..], others));
      GroupFollows(session, env, s, cuts, at, scope, h, g.criteria, BodyOf(at, g));
      match Select(session, env, g.criteria) {
        case None =>
        case Some(cs) => RestRuns(session, env, s, cuts, BodyOf(at, g), Some(cs), g.commands, others);
      }
    }
  }

  // A list that is written from groups of commands runs as these are meant: each
  // group on what its criteria select by then, up to the next semicolon.
  lemma PlanRunsAsMeant<Env(!new), Container(!new)>(session: Session<Env, Container>, env: Env, groups: seq<Group>)
    requires Proper(session) && groups != [] && AreWritable(groups)
    ensures var s := Show(groups);
      Run(session, env, s, CutsOf(s, SEPARATORS), 0, true, None) == RunPlan(session, env, groups)
  {
    var s, g := Show(groups), groups[0];
    OtherGroups(groups);
    CutsAreAtSeparators(s, SEPARATORS);
    assert s[0..] == s;
    StandsIf(s, 0, g.gap, ShowBody(g, ShowRest(g.commands[1..], groups[1..])));
    GroupsRun(session, env, s, CutsOf(s, SEPARATORS), 0, None, groups);
  }

  // ---- Lists as they are written ----

  // A text without quotes, backslashes and separators is a command.
  lemma PlainCommand(c: string)
    requires c != [] && !IsSpace(c[0]) && forall i :: 0 <= i < |c| ==> !IsInteresting(SEPARATORS, c[i])
    ensures IsCommand(c)
  {
    PlainFrom(c, 0);
  }

  lemma {:induction false} PlainFrom(c: string, k: nat)
    requires k <= |c| && forall i :: 0 <= i < |c| ==> !IsInteresting(SEPARATORS, c[i])
    requires ReadingAt(c, SEPARATORS, 0, k) == OUTSIDE
    ensures Separator(c, SEPARATORS, k, OUTSIDE) == |c| && ReadingAt(c, SEPARATORS, 0, |c|) == OUTSIDE
    decreases |c| - k
  {
    if k < |c| { PlainFrom(c, k + 1); }
  }

  lemma GapIf(gap: string)
    requires gap == "" || gap == " "
    ensures IsGap(gap)
  {
    forall i
      ensures BlankAt(gap, i)
    {
    }
  }

  lemma CommandsIf(commands: seq<Item>)
    requires forall i :: 0 <= i < |commands| ==> commands[i].gap == "" || commands[i].gap == " "
    requires forall i :: 0 <= i < |commands| ==> IsCommand(commands[i].text)
    ensures AreCommands(commands)
  {
    forall i
      ensures CommandAt(commands, i)
    {
      if 0 <= i < |commands| { GapIf(commands[i].gap); }
    }
  }

  lemma ShowGroup(group: Group, others: seq<Group>, more: seq<Item>)
    requires group.commands != [] && group.commands[1..] == more
    ensures Show([group] + others) == group.gap + ShowBody(group, ShowRest(more, others))
  {
    assert ([group] + others)[1..] == others;
  }

  lemma ShowNext(c: Item, more: seq<Item>, others: seq<Group>)
    ensures ShowRest([c] + more, others) == [','] + (c.gap + (c.text + ShowRest(more, others)))
  {
    assert ([c] + more)[1..] == more;
  }

  // A group of one command and, behind it, a group of two without criteria.
  lemma WrittenText(a: Group, b: Group, kill: Item, focus: Item, mark: Item)
    requires a.commands == [kill] && b.commands == [focus, mark] && b.criteria == []
    ensures Show([a, b]) == a.gap + (a.criteria + (kill.gap + (kill.text + (";" + (b.gap +
      (focus.gap + (focus.text + ("," + (mark.gap + mark.text)))))))))
  {
    ShowGroup(a, [b], []);
    ShowGroup(b, [], [mark]);
    ShowNext(mark, [], []);
    WrittenTail(b, focus, mark);
    assert [a] + [b] == [a, b] && [b] + [] == [b];
  }

  lemma WrittenTail(b: Group, focus: Item, mark: Item)
    requires b.commands == [focus, mark] && b.criteria == []
    ensures Show([b]) == b.gap + (focus.gap + (focus.text + ("," + (mark.gap + mark.text))))
  {
    ShowGroup(b, [], [mark]);
    ShowNext(mark, [], []);
    assert [mark] + [] == [mark] && [b] + [] == [b];
  }

  lemma AppIdCriteria(criteria: string)
    requires criteria == "[app_id=\"x\"]"
    ensures AreCriteria(criteria)
  {
    var pairs := [C.Pair("app_id", Some("x"))];
    assert C.Escaped("x") == "x";
    assert C.Show(pairs) == criteria;
    C.ReadBackIff(pairs);
  }

  lemma WritablePair(a: Group, b: Group)
    requires IsWritable(a) && IsWritable(b)
    ensures AreWritable([a, b])
  {
    forall i
      ensures WritableAt([a, b], i)
    {
    }
  }

  lemma WrittenGroups(a: Group, b: Group, kill: Item, focus: Item, mark: Item)
    requires a == Group("", "[app_id=\"x\"]", [kill]) && b == Group(" ", "", [focus, mark])
    requires kill == Item(" ", "kill") && focus == Item("", "focus left") && mark == Item(" ", "mark a")
    ensures AreWritable([a, b])
  {
    PlainCommand(kill.text);
    PlainCommand(focus.text);
    PlainCommand(mark.text);
    CommandsIf([kill]);
    CommandsIf([focus, mark]);
    GapIf("");
    GapIf(" ");
    AppIdCriteria(a.criteria);
    assert focus.text[0] == 'f';
    WritablePair(a, b);
  }

  // For example this list, with its two groups.
  lemma WrittenList(a: Group, b: Group, kill: Item, focus: Item, mark: Item)
    requires a == Group("", "[app_id=\"x\"]", [kill]) && b == Group(" ", "", [focus, mark])
    requires kill == Item(" ", "kill") && focus == Item("", "focus left") && mark == Item(" ", "mark a")
    ensures AreWritable([a, b]) && Show([a, b]) == "[app_id=\"x\"] kill; focus left, mark a"
  {
    WrittenGroups(a, b, kill, focus, mark);
    WrittenText(a, b, kill, focus, mark);
  }
}
