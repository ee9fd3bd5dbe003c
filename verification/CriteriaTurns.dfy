// sway/commands.c: which pieces of a command list may begin with criteria.
module CriteriaTurns {
  import opened ArgSep
  import opened CommandStatus
  import opened ExecuteCommand
  import opened Tokens
  import opened Wrappers
  import C = CriteriaText

  // A piece of a list: where it starts and ends, whether a turn of the loop starts
  // with it, whether it is the first of the list or stands behind a semicolon, and
  // where its command begins.
  datatype Part = Part(start: nat, turn: bool, first: bool, body: nat, end: nat)

  // The place behind criteria that begin at h.
  function BehindCriteria(s: string, h: nat): (body: nat)
    requires h <= |s|
    ensures h <= body <= |s|
  {
    if h == |s| || s[h] != '[' then h
    else match C.Parse(s[h..])
      case Bad => h
      case Parsed(_, end) => SkipBlanks(s, h + end, |s|)
  }

  // Criteria are looked for where a turn starts, at the start of the list and
  // behind a semicolon.
  function BodyOf(s: string, start: nat, turn: bool, first: bool): (body: nat)
    requires start <= |s|
    ensures start <= body <= |s|
  {
    if !turn then start
    else if !first then SkipBlanks(s, start, |s|)
    else BehindCriteria(s, SkipBlanks(s, start, |s|))
  }

  function PartAt(s: string, start: nat, turn: bool, first: bool): (p: Part)
    requires start <= |s|
    ensures InList(s, p)
  {
    var body := BodyOf(s, start, turn, first);
    Part(start, turn, first, body, Separator(s, SEPARATORS, body, OUTSIDE))
  }

  // The rest of a list, piece by piece.  A piece without a command uses up the turn
  // that starts with it: the next call of the cutting function passes over the
  // separator behind it.
  function PartsFrom(s: string, start: nat, turn: bool, first: bool): (parts: seq<Part>)
    requires start <= |s|
    ensures parts != [] && parts[0] == PartAt(s, start, turn, first)
    ensures InOrder(s, parts)
    decreases |s| - start
  {
    var p := PartAt(s, start, turn, first);
    if p.end == |s| then [p]
    else
      var rest := PartsFrom(s, p.end + 1, p.body < p.end, s[p.end] == ';');
      OneMoreInOrder(s, p, rest);
      [p] + rest
  }

  function Parts(s: string): (parts: seq<Part>)
    ensures parts != []
    ensures InOrder(s, parts)
  {
    PartsFrom(s, 0, true, true)
  }

  predicate InList(s: string, p: Part) {
    p.start <= p.body <= p.end <= |s|
  }

  predicate InOrder(s: string, parts: seq<Part>) {
    && (forall k :: 0 <= k < |parts| ==> InList(s, parts[k]))
    && (forall k :: 0 <= k < |parts| ==> IsNext(s, parts, k))
  }

  lemma OneMoreInOrder(s: string, p: Part, rest: seq<Part>)
    requires p.start <= |s| && p == PartAt(s, p.start, p.turn, p.first) && p.end < |s| && rest != [] && InOrder(s, rest)
    requires rest[0] == PartAt(s, p.end + 1, p.body < p.end, s[p.end] == ';')
    ensures InOrder(s, [p] + rest)
  {
    var parts := [p] + rest;
    forall k | 0 <= k < |parts|
      ensures InList(s, parts[k]) && IsNext(s, parts, k)
    {
      assert k > 0 ==> parts[k] == rest[k - 1] && IsNext(s, rest, k - 1);
    }
  }

  predicate IsNext(s: string, parts: seq<Part>, k: nat)
    requires k < |parts|
  {
    var p := parts[k];
    && InList(s, p)
    && p.body == BodyOf(s, p.start, p.turn, p.first)
    && p.end == Separator(s, SEPARATORS, p.body, OUTSIDE)
    && (p.end == |s| <==> k + 1 == |parts|)
    && (k + 1 < |parts| ==>
          var next := parts[k + 1];
          next.start == p.end + 1 && next.turn == (p.body < p.end) && next.first == (s[p.end] == ';'))
  }

  // The command of a piece, without the whitespace in front of it.
  function CommandOf(s: string, p: Part): (text: string)
    requires InList(s, p)
  {
    s[SkipBlanks(s, p.body, p.end)..p.end]
  }

  // What commands act on from h on: what the criteria there select, or the focus
  // if there are none; no answer for a mistake in them.
  function ScopeAtPlace<Env(!new), Container(!new)>(session: Session<Env, Container>, env: Env, s: string,
          h: nat): (r: Option<Option<seq<Container>>>)
    requires h <= |s|
  {
    if h == |s| || s[h] != '[' then Some(None)
    else match C.Parse(s[h..])
      case Bad => None
      case Parsed(pairs, _) =>
        match session.select(env, pairs)
        case None => None
        case Some(containers) => Some(Some(containers))
  }

  // A list run piece by piece.
  function RunParts<Env(!new), Container(!new)>(session: Session<Env, Container>, env: Env, s: string,
          parts: seq<Part>, k: nat, scope: Option<seq<Container>>): (r: Result<Env>)
    requires Proper(session) && k <= |parts| && forall i :: 0 <= i < |parts| ==> InList(s, parts[i])
    decreases |parts| - k, 1
  {
    if k == |parts| then Result(env, [])
    else if LooksForCriteria(parts[k]) then
      assert InList(s, parts[k]);
      match ScopeAtPlace(session, env, s, SkipBlanks(s, parts[k].start, |s|))
      case None => Result(env, [Invalid])
      case Some(newScope) => RunPart(session, env, s, parts, k, newScope)
    else RunPart(session, env, s, parts, k, scope)
  }

  predicate LooksForCriteria(p: Part) {
    p.turn && p.first
  }

  function RunPart<Env(!new), Container(!new)>(session: Session<Env, Container>, env: Env, s: string,
          parts: seq<Part>, k: nat, scope: Option<seq<Container>>): (r: Result<Env>)
    requires Proper(session) && k < |parts| && forall i :: 0 <= i < |parts| ==> InList(s, parts[i])
    decreases |parts| - k, 0
  {
    var (after, statuses) := RunPiece(session, env, scope, CommandOf(s, parts[k]));
    if statuses == [Invalid] then Result(after, statuses)
    else Ahead(statuses, RunParts(session, after, s, parts, k + 1, scope))
  }

  // ---- The loop runs these pieces ----

  ghost predicate AreParts(s: string, cuts: seq<Cut>, parts: seq<Part>) {
    && AreCuts(s, cuts) && CutsAtSeparators(s, SEPARATORS, cuts) && InOrder(s, parts)
  }

  // What the loop does with a piece: where a turn starts it does all of it, else
  // the call of the cutting function goes on there.
  ghost predicate LoopRuns<Env(!new), Container(!new)>(session: Session<Env, Container>, env: Env, s: string,
          cuts: seq<Cut>, parts: seq<Part>, k: nat, scope: Option<seq<Container>>)
    requires Proper(session) && AreParts(s, cuts, parts) && k < |parts|
  {
    RunParts(session, env, s, parts, k, scope) ==
      if parts[k].turn then Run(session, env, s, cuts, parts[k].start, parts[k].first, scope)
      else RunBody(session, env, s, cuts, parts[k].start, scope)
  }

  lemma ScopeIsSame<Env(!new), Container(!new)>(session: Session<Env, Container>, env: Env, s: string, h: nat,
          scope: Option<seq<Container>>)
    requires Proper(session) && h <= |s|
    ensures Scoped(session, env, s, h, true, scope) ==
      match ScopeAtPlace(session, env, s, h)
      case None => None
      case Some(newScope) => Some((BehindCriteria(s, h), newScope))
  {
  }

  lemma LastPartRuns<Env(!new), Container(!new)>(session: Session<Env, Container>, env: Env, s: string,
          cuts: seq<Cut>, parts: seq<Part>, k: nat, scope: Option<seq<Container>>)
    requires Proper(session) && AreParts(s, cuts, parts) && k + 1 == |parts|
    ensures RunBody(session, env, s, cuts, parts[k].body, scope) == RunPart(session, env, s, parts, k, scope)
  {
    var p := parts[k];
    assert IsNext(s, parts, k) && CutsAtSeparator(s, SEPARATORS, cuts, p.body);
    var r := RunPiece(session, env, scope, CommandOf(s, p));
    assert Ahead(r.1, Result(r.0, [])) == Result(r.0, r.1);
  }

  lemma PartRuns<Env(!new), Container(!new)>(session: Session<Env, Container>, env: Env, s: string,
          cuts: seq<Cut>, parts: seq<Part>, k: nat, scope: Option<seq<Container>>)
    requires Proper(session) && AreParts(s, cuts, parts) && k + 1 < |parts|
    requires var after := RunPiece(session, env, scope, CommandOf(s, parts[k])).0;
      LoopRuns(session, after, s, cuts, parts, k + 1, scope)
    ensures RunBody(session, env, s, cuts, parts[k].body, scope) == RunPart(session, env, s, parts, k, scope)
  {
    var p := parts[k];
    assert IsNext(s, parts, k) && CutsAtSeparator(s, SEPARATORS, cuts, p.body);
    if p.body == p.end {
      EmptyPartRuns(session, env, s, cuts, p.end, scope);
      NothingAhead(RunParts(session, env, s, parts, k + 1, scope));
    }
  }

  lemma EmptyPartRuns<Env(!new), Container(!new)>(session: Session<Env, Container>, env: Env, s: string,
          cuts: seq<Cut>, n: nat, scope: Option<seq<Container>>)
    requires Proper(session) && AreCuts(s, cuts) && n < |s| && cuts[n] == cuts[n + 1]
    ensures RunBody(session, env, s, cuts, n, scope) == RunBody(session, env, s, cuts, n + 1, scope)
  {
  }

  lemma NothingAhead<Env>(r: Result<Env>)
    ensures Ahead([], r) == r
  {
    assert [] + r.statuses == r.statuses;
  }

  lemma {:induction false} PartsRun<Env(!new), Container(!new)>(session: Session<Env, Container>, env: Env, s: string,
          cuts: seq<Cut>, parts: seq<Part>, k: nat, scope: Option<seq<Container>>)
    requires Proper(session) && AreParts(s, cuts, parts) && k < |parts|
    ensures LoopRuns(session, env, s, cuts, parts, k, scope)
    decreases |parts| - k, 1
  {
    var p := parts[k];
    assert IsNext(s, parts, k);
    if LooksForCriteria(p) {
      var h := SkipBlanks(s, p.start, |s|);
      ScopeIsSame(session, env, s, h, scope);
      var r := ScopeAtPlace(session, env, s, h);
      if r.Some? { BodyRuns(session, env, s, cuts, parts, k, r.value); }
    } else {
      BodyRuns(session, env, s, cuts, parts, k, scope);
    }
  }

  lemma {:induction false} BodyRuns<Env(!new), Container(!new)>(session: Session<Env, Container>, env: Env, s: string,
          cuts: seq<Cut>, parts: seq<Part>, k: nat, scope: Option<seq<Container>>)
    requires Proper(session) && AreParts(s, cuts, parts) && k < |parts|
    ensures RunBody(session, env, s, cuts, parts[k].body, scope) == RunPart(session, env, s, parts, k, scope)
    decreases |parts| - k, 0
  {
    if k + 1 < |parts| {
      PartsRun(session, RunPiece(session, env, scope, CommandOf(s, parts[k])).0, s, cuts, parts, k + 1, scope);
      PartRuns(session, env, s, cuts, parts, k, scope);
    } else {
      LastPartRuns(session, env, s, cuts, parts, k, scope);
    }
  }

  // Every list runs piece by piece, and criteria are looked for in just those pieces
  // with which a turn starts, of the first piece and those behind a semicolon.  A
  // piece in which they are not looked for runs in the scope of the one before.
  lemma ListRunsInParts<Env(!new), Container(!new)>(session: Session<Env, Container>, env: Env, s: string)
    requires Proper(session)
    ensures Run(session, env, s, CutsOf(s, SEPARATORS), 0, true, None) ==
      RunParts(session, env, s, Parts(s), 0, None)
  {
    CutsAreAtSeparators(s, SEPARATORS);
    PartsRun(session, env, s, CutsOf(s, SEPARATORS), Parts(s), 0, None);
  }

  // ---- With which pieces a turn starts ----

  // A piece is empty, or has no command, or has one.
  datatype Kind = Empty | Blank | Command

  function KindOf(s: string, p: Part): (kind: Kind)
    requires InList(s, p)
  {
    if p.start == p.end then Empty else if CommandOf(s, p) == [] then Blank else Command
  }

  predicate IsBlank(s: string, p: Part) {
    InList(s, p) && KindOf(s, p) == Blank
  }

  // How many pieces directly before k have no command, though they are not empty.
  function BlanksBefore(s: string, parts: seq<Part>, k: nat): (r: nat)
    requires k <= |parts|
    ensures r <= k && forall i :: k - r <= i < k ==> IsBlank(s, parts[i])
    ensures r < k ==> !IsBlank(s, parts[k - r - 1])
  {
    if k == 0 || !IsBlank(s, parts[k - 1]) then 0 else BlanksBefore(s, parts, k - 1) + 1
  }

  // A command begins right where its piece has its body.
  lemma BodyIsCommand(s: string, p: Part)
    requires p.start <= |s| && p.turn && p == PartAt(s, p.start, p.turn, p.first)
    ensures p.body == p.end <==> CommandOf(s, p) == []
  {
    NoBlankInFront(s, p.start, p.first);
    assert p.body < p.end ==> SkipBlanks(s, p.body, p.end) == p.body;
  }

  lemma NoBlankInFront(s: string, start: nat, first: bool)
    requires start <= |s|
    ensures var body := BodyOf(s, start, true, first); body < |s| ==> !IsSpace(s[body])
  {
    var h := SkipBlanks(s, start, |s|);
    SkipsAll(s, start, |s|);
    if h < |s| && s[h] == '[' && C.Parse(s[h..]).Parsed? {
      SkipsAll(s, h + C.Parse(s[h..]).end, |s|);
    }
  }

  // A turn starts behind each command; a piece with no command hands on what it
  // does not use itself, and an empty one leaves no turn to the next.
  lemma TurnStep(s: string, parts: seq<Part>, k: nat)
    requires k + 1 < |parts| && InOrder(s, parts)
    ensures parts[k + 1].turn <==>
      match KindOf(s, parts[k])
      case Empty => false
      case Blank => !parts[k].turn
      case Command => true
  {
    var p := parts[k];
    assert IsNext(s, parts, k);
    if p.turn { BodyIsCommand(s, p); }
  }

  // An even number of pieces that are blank, but not empty, stand between a piece and
  // a command or the start of the list, or an odd number between it and an empty one.
  predicate EvenBehindCommand(s: string, parts: seq<Part>, k: nat)
    requires k < |parts| && forall i :: 0 <= i < |parts| ==> InList(s, parts[i])
  {
    var r := BlanksBefore(s, parts, k);
    r % 2 == 0 <==> (r == k || KindOf(s, parts[k - r - 1]) == Command)
  }

  lemma EvenStep(s: string, parts: seq<Part>, k: nat)
    requires 0 < k < |parts| && forall i :: 0 <= i < |parts| ==> InList(s, parts[i])
    ensures EvenBehindCommand(s, parts, k) <==>
      match KindOf(s, parts[k - 1])
      case Empty => false
      case Blank => !EvenBehindCommand(s, parts, k - 1)
      case Command => true
  {
    var q := BlanksBefore(s, parts, k - 1);
    assert IsBlank(s, parts[k - 1]) ==> BlanksBefore(s, parts, k) == q + 1 && (q + 1) % 2 != q % 2;
  }

  // A turn starts with a piece if and only if that is so.
  lemma {:induction false} TurnIff(s: string, parts: seq<Part>, k: nat)
    requires k < |parts| && InOrder(s, parts) && parts[0].turn
    ensures parts[k].turn <==> EvenBehindCommand(s, parts, k)
  {
    if k > 0 {
      TurnStep(s, parts, k - 1);
      EvenStep(s, parts, k);
      TurnIff(s, parts, k - 1);
    }
  }

  predicate BehindSemicolon(s: string, parts: seq<Part>, k: nat)
    requires k < |parts| && InOrder(s, parts)
  {
    k > 0 && (assert IsNext(s, parts, k - 1); s[parts[k - 1].end] == ';')
  }

  // Criteria are looked for under that condition, at the start of the list and behind
  // a semicolon.
  lemma LooksIff(s: string, k: nat)
    requires k < |Parts(s)|
    ensures var parts := Parts(s);
      LooksForCriteria(parts[k]) <==> (k == 0 || BehindSemicolon(s, parts, k)) && EvenBehindCommand(s, parts, k)
  {
    var parts := Parts(s);
    TurnIff(s, parts, k);
    if k > 0 { assert IsNext(s, parts, k - 1); }
  }

  // Criteria that are not looked for are taken for a command, which ends the list.
  lemma HiddenCriteriaAreInvalid<Env(!new), Container(!new)>(session: Session<Env, Container>, env: Env, s: string,
          k: nat, scope: Option<seq<Container>>)
    requires Proper(session) && k < |Parts(s)| && !LooksForCriteria(Parts(s)[k])
    requires var text := CommandOf(s, Parts(s)[k]); text != [] && text[0] == '['
    requires forall name :: name in session.handlers ==> name == [] || name[0] != '['
    ensures RunParts(session, env, s, Parts(s), k, scope) == Result(env, [Invalid])
  {
    var text := CommandOf(s, Parts(s)[k]);
    BracketIsNoCommand(session, env, scope, text);
  }

  lemma BracketIsNoCommand<Env(!new), Container(!new)>(session: Session<Env, Container>, env: Env,
          scope: Option<seq<Container>>, text: string)
    requires Proper(session) && text != [] && text[0] == '['
    requires forall name :: name in session.handlers ==> name == [] || name[0] != '['
    ensures RunCommand(session, env, scope, text) == (env, Invalid)
  {
    assert Split(text)[0][0] == '[';
  }

  // ---- The pieces between separators ----

  function Bounds(parts: seq<Part>, k: nat): (pieces: Pieces)
    requires k < |parts|
    decreases |parts| - k
  {
    var p := parts[k];
    if k + 1 == |parts| then Last(p.start, p.end) else More(p.start, p.end, Bounds(parts, k + 1))
  }

  // Criteria of a piece hide no separator, and show none that is hidden without them.
  predicate CutsAlike(s: string, p: Part) {
    InList(s, p) && p.end == Separator(s, SEPARATORS, p.start, OUTSIDE)
  }

  lemma {:induction false} BoundsIff(s: string, parts: seq<Part>, k: nat)
    requires k < |parts| && InOrder(s, parts)
    ensures parts[k].start <= |s|
    ensures Bounds(parts, k) == RawPieces(s, SEPARATORS, parts[k].start) <==>
      forall i :: k <= i < |parts| ==> CutsAlike(s, parts[i])
    decreases |parts| - k
  {
    assert IsNext(s, parts, k);
    if k + 1 < |parts| { BoundsIff(s, parts, k + 1); }
  }

  lemma {:induction false} BlanksKeepSeparator(s: string, from: nat)
    requires from <= |s|
    ensures Separator(s, SEPARATORS, SkipBlanks(s, from, |s|), OUTSIDE) == Separator(s, SEPARATORS, from, OUTSIDE)
    decreases |s| - from
  {
    if from < |s| && IsSpace(s[from]) { BlanksKeepSeparator(s, from + 1); }
  }

  // Where criteria are read, and the text behind them.
  predicate ReadsCriteria(s: string, p: Part) {
    && InList(s, p) && LooksForCriteria(p)
    && var h := SkipBlanks(s, p.start, |s|);
    h < |s| && s[h] == '[' && C.Parse(s[h..]).Parsed?
  }

  // Without criteria it is the text of a piece that makes it blank.
  lemma {:induction false} SkipsToEndIff(s: string, from: nat, end: nat)
    requires from <= end <= |s|
    ensures SkipBlanks(s, from, end) == end <==> forall i :: from <= i < end ==> IsSpace(s[i])
    decreases end - from
  {
    if from < end && IsSpace(s[from]) { SkipsToEndIff(s, from + 1, end); }
  }

  lemma HasCommandIff(s: string, k: nat)
    requires k < |Parts(s)|
    ensures var p := Parts(s)[k];
      !ReadsCriteria(s, p) ==>
        (KindOf(s, p) == Command <==> exists i :: p.start <= i < p.end && !IsSpace(s[i]))
  {
    var p := Parts(s)[k];
    assert IsNext(s, Parts(s), k);
    if !ReadsCriteria(s, p) {
      SkipsToEndIff(s, p.body, p.end);
      SkipsOnlyBlanks(s, p.start, |s|);
      assert p.body == p.start || p.body == SkipBlanks(s, p.start, |s|);
    }
  }

  lemma {:induction false} SkipsOnlyBlanks(s: string, from: nat, end: nat)
    requires from <= end <= |s|
    ensures forall i :: from <= i < SkipBlanks(s, from, end) ==> IsSpace(s[i])
    decreases end - from
  {
    if from < end && IsSpace(s[from]) { SkipsOnlyBlanks(s, from + 1, end); }
  }

  // The pieces are those between the separators of the list if and only if the first
  // separator behind each criteria that are read is the first one from their piece's
  // start on as well.
  lemma PartsAreRawPiecesIff(s: string)
    ensures Bounds(Parts(s), 0) == RawPieces(s, SEPARATORS, 0) <==>
      forall i :: 0 <= i < |Parts(s)| && ReadsCriteria(s, Parts(s)[i]) ==> CutsAlike(s, Parts(s)[i])
  {
    var parts := Parts(s);
    BoundsIff(s, parts, 0);
    forall i | 0 <= i < |parts| && !ReadsCriteria(s, parts[i])
      ensures CutsAlike(s, parts[i])
    {
      assert IsNext(s, parts, i);
      BlanksKeepSeparator(s, parts[i].start);
    }
  }

  // ---- Three lists ----

  lemma OneMorePart(s: string, p: Part, next: Part, rest: seq<Part>)
    requires p.start <= |s| && p == PartAt(s, p.start, p.turn, p.first) && p.end < |s|
    requires next.start == p.end + 1 && next.turn == (p.body < p.end) && next.first == (s[p.end] == ';')
    requires PartsFrom(s, next.start, next.turn, next.first) == rest
    ensures PartsFrom(s, p.start, p.turn, p.first) == [p] + rest
  {
  }

  lemma LastPart(s: string, p: Part)
    requires p.start <= |s| && p == PartAt(s, p.start, p.turn, p.first) && p.end == |s|
    ensures PartsFrom(s, p.start, p.turn, p.first) == [p]
  {
  }

  // The parts of a list of three.
  lemma ThreeParts(s: string, a: Part, b: Part, c: Part)
    requires a.end < |s| && b.start == a.end + 1 && b.end < |s| && c.start == b.end + 1 && c.end == |s|
    requires a == PartAt(s, 0, true, true) && b == PartAt(s, b.start, a.body < a.end, s[a.end] == ';')
    requires c == PartAt(s, c.start, b.body < b.end, s[b.end] == ';')
    ensures Parts(s) == [a, b, c]
  {
    LastPart(s, c);
    OneMorePart(s, b, c, [c]);
    OneMorePart(s, a, b, [b, c]);
    assert [b] + [c] == [b, c] && [a] + [b, c] == [a, b, c];
  }

  // In a;;[x] the empty piece takes the turn, and the criteria are not looked for.
  lemma HiddenParts(s: string)
    requires s == "a;;[x]"
    ensures Parts(s) == [Part(0, true, true, 0, 1), Part(2, true, true, 2, 2), Part(3, false, true, 3, 6)]
  {
    assert Separator(s, SEPARATORS, 0, OUTSIDE) == 1;
    assert Separator(s, SEPARATORS, 2, OUTSIDE) == 2;
    BracketsAreOnePiece(s, 3);
    ThreeParts(s, Part(0, true, true, 0, 1), Part(2, true, true, 2, 2), Part(3, false, true, 3, 6));
  }

  lemma BracketsAreOnePiece(s: string, at: nat)
    requires at + 3 == |s| && s[at..] == "[x]"
    ensures Separator(s, SEPARATORS, at, OUTSIDE) == |s| && s[at] == '['
  {
    var text := s[at..];
    assert s[at] == text[0] && s[at + 1] == text[1] && s[at + 2] == text[2];
    assert Separator(s, SEPARATORS, at + 2, OUTSIDE) == |s|;
    assert Separator(s, SEPARATORS, at + 1, OUTSIDE) == |s|;
  }

  // In ; ;[x] the blank piece is cut off with the turn of the empty one, and a turn
  // starts with the criteria.
  lemma FoundParts(s: string)
    requires s == "; ;[x]"
    ensures Parts(s) == [Part(0, true, true, 0, 0), Part(1, false, true, 1, 2), Part(3, true, true, 6, 6)]
  {
    assert Separator(s, SEPARATORS, 1, OUTSIDE) == 2;
    XCriteria(s, 3);
    ThreeParts(s, Part(0, true, true, 0, 0), Part(1, false, true, 1, 2), Part(3, true, true, 6, 6));
  }

  lemma XCriteria(s: string, at: nat)
    requires at + 3 <= |s| && s[at..at + 3] == "[x]"
    ensures C.Parse(s[at..]) == C.Parsed.Parsed([C.Pair("x", None)], 3) && s[at] == '['
  {
    var pairs := [C.Pair("x", None)];
    var text, rest := s[at..at + 3], s[at + 3..];
    assert C.Show(pairs) == text;
    C.ReadBackIff(pairs);
    assert s[at..] == text + rest && text[0] == '[' && s[at] == text[0];
    C.PairsPrefix(text, rest, 1);
  }

  // In [x]a,;b the empty piece takes the turn as well.
  lemma KeptParts(s: string)
    requires s == "[x]a,;b"
    ensures Parts(s) == [Part(0, true, true, 3, 4), Part(5, true, false, 5, 5), Part(6, false, true, 6, 7)]
  {
    XCriteria(s, 0);
    assert s[0..] == s && Separator(s, SEPARATORS, 3, OUTSIDE) == 4;
    ThreeParts(s, Part(0, true, true, 3, 4), Part(5, true, false, 5, 5), Part(6, false, true, 6, 7));
  }

  lemma OnePieceRuns<Env(!new), Container(!new)>(session: Session<Env, Container>, env: Env, s: string,
          parts: seq<Part>, k: nat, scope: Option<seq<Container>>)
    requires Proper(session) && InOrder(s, parts) && k < |parts| && !LooksForCriteria(parts[k])
    ensures RunParts(session, env, s, parts, k, scope) == RunPart(session, env, s, parts, k, scope)
  {
  }

  lemma EmptyRuns<Env(!new), Container(!new)>(session: Session<Env, Container>, env: Env, s: string,
          parts: seq<Part>, k: nat, scope: Option<seq<Container>>)
    requires Proper(session) && InOrder(s, parts) && k < |parts| && CommandOf(s, parts[k]) == []
    ensures RunPart(session, env, s, parts, k, scope) == RunParts(session, env, s, parts, k + 1, scope)
  {
    NothingAhead(RunParts(session, env, s, parts, k + 1, scope));
  }

  lemma CommandRuns<Env(!new), Container(!new)>(session: Session<Env, Container>, env: Env, s: string,
          parts: seq<Part>, k: nat, scope: Option<seq<Container>>, text: string)
    requires Proper(session) && InOrder(s, parts) && k < |parts| && CommandOf(s, parts[k]) == text != []
    ensures var (after, status) := RunCommand(session, env, scope, text);
      RunPart(session, env, s, parts, k, scope) ==
        if status == Invalid then Result(after, [Invalid])
        else Ahead([status], RunParts(session, after, s, parts, k + 1, scope))
  {
  }

  lemma ScopedPieceRuns<Env(!new), Container(!new)>(session: Session<Env, Container>, env: Env, s: string,
          parts: seq<Part>, k: nat, scope: Option<seq<Container>>, newScope: Option<seq<Container>>)
    requires Proper(session) && InOrder(s, parts) && k < |parts| && LooksForCriteria(parts[k])
    requires InList(s, parts[k]) && ScopeAtPlace(session, env, s, SkipBlanks(s, parts[k].start, |s|)) == Some(newScope)
    ensures RunParts(session, env, s, parts, k, scope) == RunPart(session, env, s, parts, k, newScope)
  {
  }

  // The texts of three pieces, and where criteria are looked for.
  ghost predicate AreThree(s: string, parts: seq<Part>, a: string, looks: bool, b: string, more: bool, c: string) {
    && InOrder(s, parts) && |parts| == 3
    && CommandOf(s, parts[0]) == a && LooksForCriteria(parts[0])
    && CommandOf(s, parts[1]) == b && LooksForCriteria(parts[1]) == looks
    && CommandOf(s, parts[2]) == c && LooksForCriteria(parts[2]) == more
  }

  // Nothing, and a command that stays in the scope.
  lemma OthersRun<Env(!new), Container(!new)>(session: Session<Env, Container>, env: Env, s: string, parts: seq<Part>,
          scope: Option<seq<Container>>, a: string, looks: bool, c: string)
    requires Proper(session) && c != [] && AreThree(s, parts, a, looks, [], false, c) && InList(s, parts[1])
    requires looks ==> ScopeAtPlace(session, env, s, SkipBlanks(s, parts[1].start, |s|)) == Some(scope)
    ensures RunParts(session, env, s, parts, 1, scope) ==
      var (end, last) := RunCommand(session, env, scope, c);
      Result(end, [last])
  {
    if looks {
      ScopedPieceRuns(session, env, s, parts, 1, scope, scope);
    } else {
      OnePieceRuns(session, env, s, parts, 1, scope);
    }
    EmptyRuns(session, env, s, parts, 1, scope);
    OnePieceRuns(session, env, s, parts, 2, scope);
    CommandRuns(session, env, s, parts, 2, scope, c);
  }

  // Criteria behind an empty command are taken for a command.
  lemma EmptyCommandHides<Env(!new), Container(!new)>(session: Session<Env, Container>, env: Env, s: string)
    requires Proper(session) && s == "a;;[x]"
    requires forall name :: name in session.handlers ==> name == [] || name[0] != '['
    ensures var (after, status) := RunCommand(session, env, None, "a");
      Run(session, env, s, CutsOf(s, SEPARATORS), 0, true, None) ==
        Result(after, if status == Invalid then [Invalid] else [status, Invalid])
  {
    var parts := Parts(s);
    HiddenParts(s);
    ListRunsInParts(session, env, s);
    HiddenAreThree(s, parts);
    ScopedPieceRuns(session, env, s, parts, 0, None, None);
    var after := RunCommand(session, env, None, "a").0;
    CommandRuns(session, env, s, parts, 0, None, "a");
    OthersRun(session, after, s, parts, None, "a", true, "[x]");
    BracketIsNoCommand(session, after, None, "[x]");
  }

  lemma HiddenAreThree(s: string, parts: seq<Part>)
    requires s == "a;;[x]" && InOrder(s, parts)
    requires parts == [Part(0, true, true, 0, 1), Part(2, true, true, 2, 2), Part(3, false, true, 3, 6)]
    ensures AreThree(s, parts, "a", true, [], false, "[x]")
    ensures SkipBlanks(s, 0, |s|) == 0 && SkipBlanks(s, 2, |s|) == 2
  {
  }

  // Behind a blank one they are read.
  lemma BlankPieceShows<Env(!new), Container(!new)>(session: Session<Env, Container>, env: Env, s: string)
    requires Proper(session) && s == "; ;[x]"
    ensures Run(session, env, s, CutsOf(s, SEPARATORS), 0, true, None) ==
      Result(env, if session.select(env, [C.Pair("x", None)]).None? then [Invalid] else [])
  {
    var parts := Parts(s);
    FoundParts(s);
    XCriteria(s, 3);
    ListRunsInParts(session, env, s);
    FoundAreThree(s, parts);
    ScopedPieceRuns(session, env, s, parts, 0, None, None);
    NothingRuns(session, env, s, parts);
  }

  lemma FoundAreThree(s: string, parts: seq<Part>)
    requires s == "; ;[x]" && InOrder(s, parts)
    requires parts == [Part(0, true, true, 0, 0), Part(1, false, true, 1, 2), Part(3, true, true, 6, 6)]
    ensures AreThree(s, parts, [], false, [], true, [])
    ensures SkipBlanks(s, 0, |s|) == 0 && SkipBlanks(s, 3, |s|) == 3
  {
  }

  lemma NothingRuns<Env(!new), Container(!new)>(session: Session<Env, Container>, env: Env, s: string,
          parts: seq<Part>)
    requires Proper(session) && AreThree(s, parts, [], false, [], true, [])
    ensures InList(s, parts[2])
    ensures RunPart(session, env, s, parts, 0, None) ==
      if ScopeAtPlace(session, env, s, SkipBlanks(s, parts[2].start, |s|)).None? then Result(env, [Invalid])
      else Result(env, [])
  {
    EmptyRuns(session, env, s, parts, 0, None);
    OnePieceRuns(session, env, s, parts, 1, None);
    EmptyRuns(session, env, s, parts, 1, None);
    var selected := ScopeAtPlace(session, env, s, SkipBlanks(s, parts[2].start, |s|));
    if selected.Some? { EmptyRuns(session, env, s, parts, 2, selected.value); }
  }

  // A command behind a comma and a semicolon still runs on what the criteria before
  // them have selected.
  lemma SemicolonKeepsScope<Env(!new), Container(!new)>(session: Session<Env, Container>, env: Env, s: string)
    requires Proper(session) && s == "[x]a,;b"
    ensures Run(session, env, s, CutsOf(s, SEPARATORS), 0, true, None) ==
      match session.select(env, [C.Pair("x", None)])
      case None => Result(env, [Invalid])
      case Some(containers) =>
        var (after, status) := RunCommand(session, env, Some(containers), "a");
        if status == Invalid then Result(after, [Invalid])
        else
          var (end, last) := RunCommand(session, after, Some(containers), "b");
          Result(end, [status, last])
  {
    var parts := Parts(s);
    KeptParts(s);
    XCriteria(s, 0);
    ListRunsInParts(session, env, s);
    KeptAreThree(s, parts);
    var selected := session.select(env, [C.Pair("x", None)]);
    if selected.Some? {
      ScopedPieceRuns(session, env, s, parts, 0, None, selected);
      CommandRuns(session, env, s, parts, 0, selected, "a");
      OthersRun(session, RunCommand(session, env, selected, "a").0, s, parts, selected, "a", false, "b");
    }
  }

  lemma KeptAreThree(s: string, parts: seq<Part>)
    requires s == "[x]a,;b" && InOrder(s, parts)
    requires parts == [Part(0, true, true, 3, 4), Part(5, true, false, 5, 5), Part(6, false, true, 6, 7)]
    ensures AreThree(s, parts, "a", false, [], false, "b")
    ensures SkipBlanks(s, 0, |s|) == 0
  {
  }
}
