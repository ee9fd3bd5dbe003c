// common/gesture.c, common/stringop.c: reading and writing gestures such as
// swipe:3:up+left.
module Gesture {
  import opened Wrappers

  // ---- split_string ----

  // Where the token that i belongs to ends.
  function TokenEnd(s: string, delim: char, i: nat): (n: nat)
    requires i <= |s|
    ensures i <= n <= |s|
    ensures n < |s| ==> s[n] == delim
    ensures forall k :: i <= k < n ==> s[k] != delim
    decreases |s| - i
  {
    if i == |s| || s[i] == delim then i else TokenEnd(s, delim, i + 1)
  }

  // The non-empty tokens of the rest of a string.
  function Split(s: string, delim: char, i: nat): (tokens: seq<string>)
    requires i <= |s|
    decreases |s| - i
  {
    if i == |s| then []
    else if s[i] == delim then Split(s, delim, i + 1)
    else
      var n := TokenEnd(s, delim, i);
      [s[i..n]] + Split(s, delim, n)
  }

  method SplitString(s: string, delim: char) returns (tokens: seq<string>)
    ensures tokens == Split(s, delim, 0)
  {
    tokens := [];
    var i := 0;
    while i < |s|
      invariant i <= |s|
      invariant tokens + Split(s, delim, i) == Split(s, delim, 0)
      decreases |s| - i
    {
      var token, next := NextToken(s, delim, i);
      if token != [] {
        assert tokens + Split(s, delim, i) == tokens + [token] + Split(s, delim, next);
        tokens := tokens + [token];
      }
      i := next;
    }
  }

  // One call of strtok.
  method NextToken(s: string, delim: char, from: nat) returns (token: string, next: nat)
    requires from < |s|
    ensures from < next <= |s|
    ensures Split(s, delim, from) == if token == [] then Split(s, delim, next) else [token] + Split(s, delim, next)
  {
    var i := from;
    while i < |s| && s[i] == delim
      invariant from <= i <= |s| && Split(s, delim, i) == Split(s, delim, from)
      decreases |s| - i
    {
      i := i + 1;
    }
    next := i;
    while next < |s| && s[next] != delim
      invariant i <= next <= |s| && TokenEnd(s, delim, next) == TokenEnd(s, delim, i)
      decreases |s| - next
    {
      next := next + 1;
    }
    token := s[i..next];
  }

  // Tokens with a delimiter between them.
  function JoinedWith(tokens: seq<string>, delim: char): (s: string) {
    if tokens == [] then []
    else if |tokens| == 1 then tokens[0]
    else tokens[0] + [delim] + JoinedWith(tokens[1..], delim)
  }

  ghost predicate AreTokens(tokens: seq<string>, delim: char) {
    forall i :: 0 <= i < |tokens| ==> tokens[i] != [] && delim !in tokens[i]
  }

  // ---- Gestures ----

  datatype Kind = NoGesture | Hold | Pinch | Swipe

  // The directions by their bit.
  datatype Gesture = Gesture(kind: Kind, fingers: nat, directions: set<nat>)

  const ANY_FINGERS := 0

  function KindName(k: Kind): (s: string) {
    match k
    case NoGesture => "none"
    case Hold => "hold"
    case Pinch => "pinch"
    case Swipe => "swipe"
  }

  function KindOf(s: string): (k: Option<Kind>) {
    if s == "hold" then Some(Hold)
    else if s == "pinch" then Some(Pinch)
    else if s == "swipe" then Some(Swipe)
    else None
  }

  function DirectionName(bit: nat): (s: string) {
    match bit
    case 0 => "up"
    case 1 => "down"
    case 2 => "left"
    case 3 => "right"
    case 4 => "inward"
    case 5 => "outward"
    case 6 => "clockwise"
    case 7 => "counterclockwise"
    case _ => "unknown"
  }

  // The directions that a word adds.
  function DirectionOf(s: string): (directions: Option<set<nat>>) {
    if s == "any" then Some({})
    else if s == "up" then Some({0})
    else if s == "down" then Some({1})
    else if s == "left" then Some({2})
    else if s == "right" then Some({3})
    else if s == "inward" then Some({4})
    else if s == "outward" then Some({5})
    else if s == "clockwise" then Some({6})
    else if s == "counterclockwise" then Some({7})
    else None
  }

  // ---- Writing ----

  function Decimal(n: nat): (s: string)
    ensures s != [] && (|s| == 1 <==> n < 10)
    ensures forall c :: c in s ==> '0' <= c <= '9'
    ensures n < 10 ==> s[0] as int == '0' as int + n
  {
    if n < 10 then [('0' as int + n) as char] else Decimal(n / 10) + [('0' as int + n % 10) as char]
  }

  // The names of the directions below a bit.
  function NamesBelow(directions: set<nat>, bit: nat): (names: seq<string>) {
    if bit == 0 then []
    else NamesBelow(directions, bit - 1) + (if bit - 1 in directions then [DirectionName(bit - 1)] else [])
  }

  function DirectionNames(directions: set<nat>): (names: seq<string>) {
    var names := NamesBelow(directions, 32);
    if names == [] then ["any"] else names
  }

  function ToString(g: Gesture): (s: string) {
    JoinedWith([KindName(g.kind), Decimal(g.fingers), JoinedWith(DirectionNames(g.directions), '+')], ':')
  }

  // ---- Reading ----

  datatype Error =
    NotAGesture(input: string) | NotAKind(got: string) | NotAFingerCount(got: string) | NotADirection(got: string)

  // The gesture is filled in as far as the string was read when it failed.
  datatype Result = Ok(gesture: Gesture) | Failed(error: Error, gesture: Gesture)

  const CLEARED := Gesture(NoGesture, ANY_FINGERS, {})

  predicate IsFingerCount(s: string) {
    |s| == 1 && '1' <= s[0] <= '9'
  }

  function Count(s: string): (n: nat)
    requires IsFingerCount(s)
    ensures 1 <= n <= 9
  {
    s[0] as int - '0' as int
  }

  // All directions, or the first word that is none and the directions before it.
  datatype Directions = Directions(directions: set<nat>) | BadWord(word: string, directions: set<nat>)

  function ParseDirections(words: seq<string>): (d: Directions) {
    if words == [] then Directions({})
    else
      var front, word := ParseDirections(words[..|words| - 1]), words[|words| - 1];
      if front.BadWord? then front
      else if DirectionOf(word).None? then BadWord(word, front.directions)
      else Directions(front.directions + DirectionOf(word).value)
  }

  function WithDirections(kind: Kind, fingers: nat, s: string): (r: Result) {
    match ParseDirections(Split(s, '+', 0))
    case Directions(directions) => Ok(Gesture(kind, fingers, directions))
    case BadWord(word, directions) => Failed(NotADirection(word), Gesture(kind, fingers, directions))
  }

  function Parse(input: string): (r: Result) {
    var split := Split(input, ':', 0);
    if |split| < 1 || |split| > 3 then Failed(NotAGesture(input), CLEARED)
    else if KindOf(split[0]).None? then Failed(NotAKind(split[0]), CLEARED)
    else
      var kind := KindOf(split[0]).value;
      if |split| == 1 then Ok(Gesture(kind, ANY_FINGERS, {}))
      else if IsFingerCount(split[1]) then
        if |split| == 3 then WithDirections(kind, Count(split[1]), split[2])
        else Ok(Gesture(kind, Count(split[1]), {}))
      else if |split| == 3 then Failed(NotAFingerCount(split[1]), CLEARED.(kind := kind))
      else WithDirections(kind, ANY_FINGERS, split[1])
  }

  // gesture_parse: the error, if any, and the gesture as far as it was read.
  method GestureParse(input: string) returns (error: Option<Error>, output: Gesture)
    ensures match Parse(input)
      case Ok(g) => error == None && output == g
      case Failed(e, g) => error == Some(e) && output == g
  {
    output := CLEARED;
    var split := SplitString(input, ':');
    if |split| < 1 || |split| > 3 {
      return Some(NotAGesture(input)), output;
    }
    if split[0] == "hold" {
      output := output.(kind := Hold);
    } else if split[0] == "pinch" {
      output := output.(kind := Pinch);
    } else if split[0] == "swipe" {
      output := output.(kind := Swipe);
    } else {
      return Some(NotAKind(split[0])), output;
    }
    if |split| > 1 {
      var next := Some(split[1]);
      if |split[1]| == 1 && '1' <= split[1][0] <= '9' {
        output := output.(fingers := split[1][0] as int - '0' as int);
        next := if |split| == 3 then Some(split[2]) else None;
      } else if |split| == 3 {
        return Some(NotAFingerCount(split[1])), output;
      }
      if next.Some? {
        var words := SplitString(next.value, '+');
        var bad, directions := ReadDirections(words);
        output := output.(directions := directions);
        if bad.Some? {
          return Some(NotADirection(bad.value)), output;
        }
      }
    }
    return None, output;
  }

  // The loop over the directions.
  method ReadDirections(words: seq<string>) returns (bad: Option<string>, directions: set<nat>)
    ensures match ParseDirections(words)
      case Directions(d) => bad == None && directions == d
      case BadWord(word, d) => bad == Some(word) && directions == d
  {
    directions := {};
    for i := 0 to |words|
      invariant ParseDirections(words[..i]) == Directions(directions)
    {
      var word := words[i];
      assert words[..i + 1][..i] == words[..i];
      var added := DirectionOf(word);
      if added.None? {
        BadWordStays(words, i + 1);
        return Some(word), directions;
      }
      directions := directions + added.value;
    }
    assert words[..|words|] == words;
    bad := None;
  }

  lemma {:induction false} BadWordStays(words: seq<string>, i: nat)
    requires i <= |words| && ParseDirections(words[..i]).BadWord?
    ensures ParseDirections(words) == ParseDirections(words[..i])
    decreases |words|
  {
    if i < |words| {
      assert words[..|words| - 1][..i] == words[..i];
      BadWordStays(words[..|words| - 1], i);
    } else {
      assert words[..i] == words;
    }
  }

  // gesture_directions_to_string
  method DirectionsToString(directions: set<nat>) returns (s: string)
    ensures s == JoinedWith(DirectionNames(directions), '+')
  {
    var result: Option<string> := None;
    ghost var names: seq<string> := [];
    for bit := 0 to 32
      invariant names == NamesBelow(directions, bit)
      invariant if names == [] then result == None else result == Some(JoinedWith(names, '+'))
    {
      if bit in directions {
        var name := DirectionName(bit);
        JoinMore(names, name, '+');
        result := if result == None then Some(name) else Some(result.value + "+" + name);
        names := names + [name];
      }
    }
    s := if result == None then "any" else result.value;
  }

  lemma {:induction false} JoinMore(tokens: seq<string>, token: string, delim: char)
    ensures JoinedWith(tokens + [token], delim) ==
      if tokens == [] then token else JoinedWith(tokens, delim) + [delim] + token
    decreases |tokens|
  {
    if |tokens| > 0 {
      assert (tokens + [token])[1..] == tokens[1..] + [token];
      JoinMore(tokens[1..], token, delim);
    }
  }

  method GestureToString(g: Gesture) returns (s: string)
    ensures s == ToString(g)
  {
    var directions := DirectionsToString(g.directions);
    var kind, fingers := KindName(g.kind), Decimal(g.fingers);
    s := kind + ":" + fingers + ":" + directions;
    ThreeJoined(kind, fingers, directions, ':');
  }

  lemma ThreeJoined(a: string, b: string, c: string, delim: char)
    ensures JoinedWith([a, b, c], delim) == a + [delim] + b + [delim] + c
  {
    assert [a, b, c][1..] == [b, c] && [b, c][1..] == [c];
    assert JoinedWith([b, c], delim) == b + [delim] + c;
    assert JoinedWith([a, b, c], delim) == a + [delim] + JoinedWith([b, c], delim);
    assert a + [delim] + (b + [delim] + c) == a + [delim] + b + [delim] + c;
  }

  // ---- Reading back what was written ----

  lemma {:induction false} TokenEndIs(s: string, delim: char, i: nat, n: nat)
    requires i <= n <= |s| && (n == |s| || s[n] == delim) && forall k :: i <= k < n ==> s[k] != delim
    ensures TokenEnd(s, delim, i) == n
    decreases n - i
  {
    if i < n { TokenEndIs(s, delim, i + 1, n); }
  }

  lemma {:induction false} SplitJoinedAt(s: string, delim: char, i: nat, tokens: seq<string>)
    requires i <= |s| && s[i..] == JoinedWith(tokens, delim) && AreTokens(tokens, delim)
    ensures Split(s, delim, i) == tokens
    decreases |tokens|
  {
    if tokens == [] {
      assert |s[i..]| == 0;
    } else {
      var t, n := tokens[0], i + |tokens[0]|;
      FirstToken(s, delim, i, tokens);
      if |tokens| == 1 {
        assert tokens == [t];
      } else {
        SplitJoinedAt(s, delim, n + 1, tokens[1..]);
        assert tokens == [t] + tokens[1..];
      }
    }
  }

  lemma FirstToken(s: string, delim: char, i: nat, tokens: seq<string>)
    requires i <= |s| && s[i..] == JoinedWith(tokens, delim) && AreTokens(tokens, delim) && tokens != []
    ensures var n := i + |tokens[0]|;
      && i < n <= |s| && s[i] != delim && TokenEnd(s, delim, i) == n && s[i..n] == tokens[0]
      && (|tokens| == 1 ==> n == |s|)
      && (|tokens| > 1 ==> n < |s| && s[n] == delim && s[n + 1..] == JoinedWith(tokens[1..], delim))
  {
    var t, n, rest := tokens[0], i + |tokens[0]|, s[i..];
    assert rest[..|t|] == t;
    assert forall k :: 0 <= k < |t| ==> s[i + k] == rest[k] == t[k] && t[k] in t;
    if |tokens| > 1 {
      assert rest[|t|] == delim && rest[|t| + 1..] == JoinedWith(tokens[1..], delim);
      assert s[n + 1..] == rest[|t| + 1..];
    }
    assert forall k :: i <= k < n ==> s[k] == t[k - i];
    TokenEndIs(s, delim, i, n);
  }

  // Splitting undoes joining, for tokens that are neither empty nor hold the
  // delimiter.
  lemma SplitJoined(tokens: seq<string>, delim: char)
    requires AreTokens(tokens, delim)
    ensures Split(JoinedWith(tokens, delim), delim, 0) == tokens
  {
    var s := JoinedWith(tokens, delim);
    assert s[0..] == s;
    SplitJoinedAt(s, delim, 0, tokens);
  }

  lemma NamesAreTokens(directions: set<nat>, bit: nat, delim: char)
    requires delim == '+' || delim == ':'
    ensures AreTokens(NamesBelow(directions, bit), delim)
  {}

  lemma DirectionOfName(bit: nat)
    ensures DirectionOf(DirectionName(bit)) == if bit < 8 then Some({bit}) else None
  {}

  predicate Known(directions: set<nat>) {
    forall d :: d in directions ==> d < 8
  }

  // The directions below a bit.
  function Below(directions: set<nat>, bit: nat): (r: set<nat>) {
    set d | d in directions && d < bit
  }

  lemma BelowNext(directions: set<nat>, bit: nat)
    requires bit > 0 && bit - 1 in directions
    ensures Below(directions, bit) == Below(directions, bit - 1) + {bit - 1}
    ensures Known(Below(directions, bit)) <==> Known(Below(directions, bit - 1)) && bit <= 8
    ensures Known(Below(directions, bit - 1)) && bit > 8 ==> Below(directions, bit - 1) == Below(directions, 8)
  {
    var less, more := Below(directions, bit - 1), Below(directions, bit);
    assert more == less + {bit - 1};
  }

  // The names of the directions below a bit are read back, up to the first that is
  // none.
  ghost predicate NamesAreRead(directions: set<nat>, bit: nat) {
    ParseDirections(NamesBelow(directions, bit)) ==
      if Known(Below(directions, bit)) then Directions(Below(directions, bit))
      else BadWord("unknown", Below(directions, 8))
  }

  // One word more.
  lemma WordRead(front: seq<string>, bit: nat)
    ensures ParseDirections(front + [DirectionName(bit)]) ==
      match ParseDirections(front)
      case BadWord(word, read) => BadWord(word, read)
      case Directions(read) => if bit < 8 then Directions(read + {bit}) else BadWord("unknown", read)
  {
    var words := front + [DirectionName(bit)];
    assert words[..|words| - 1] == front && words[|words| - 1] == DirectionName(bit);
    DirectionOfName(bit);
  }

  lemma NextIsRead(directions: set<nat>, bit: nat)
    requires bit > 0 && bit - 1 in directions && NamesAreRead(directions, bit - 1)
    ensures NamesAreRead(directions, bit)
  {
    WordRead(NamesBelow(directions, bit - 1), bit - 1);
    BelowNext(directions, bit);
  }

  lemma {:induction false} ParseNames(directions: set<nat>, bit: nat)
    ensures NamesAreRead(directions, bit)
  {
    if bit == 0 {
      assert Below(directions, 0) == {};
    } else {
      ParseNames(directions, bit - 1);
      if bit - 1 in directions {
        NextIsRead(directions, bit);
      } else {
        assert Below(directions, bit) == Below(directions, bit - 1);
        assert NamesBelow(directions, bit) == NamesBelow(directions, bit - 1);
      }
    }
  }

  // A gesture's directions are 32 bits.
  predicate IsBitField(directions: set<nat>) {
    forall d :: d in directions ==> d < 32
  }

  lemma ReadDirectionsBack(directions: set<nat>)
    requires IsBitField(directions)
    ensures ParseDirections(Split(JoinedWith(DirectionNames(directions), '+'), '+', 0)) ==
      if Known(directions) then Directions(directions) else BadWord("unknown", Below(directions, 8))
  {
    assert Below(directions, 32) == directions;
    NamesAreTokens(directions, 32, '+');
    var names := DirectionNames(directions);
    SplitJoined(names, '+');
    ParseNames(directions, 32);
    if NamesBelow(directions, 32) == [] {
      assert names[..0] == [];
    }
  }

  lemma ThreeParts(g: Gesture)
    ensures Split(ToString(g), ':', 0) ==
      [KindName(g.kind), Decimal(g.fingers), JoinedWith(DirectionNames(g.directions), '+')]
  {
    var kind, fingers := KindName(g.kind), Decimal(g.fingers);
    var directions := JoinedWith(DirectionNames(g.directions), '+');
    NamesAreTokens(g.directions, 32, ':');
    JoinedIsToken(DirectionNames(g.directions), '+', ':');
    assert ':' !in kind && kind != [];
    assert AreTokens([kind, fingers, directions], ':');
    SplitJoined([kind, fingers, directions], ':');
  }

  lemma {:induction false} JoinedIsToken(tokens: seq<string>, delim: char, other: char)
    requires AreTokens(tokens, other) && tokens != [] && delim != other
    ensures JoinedWith(tokens, delim) != [] && other !in JoinedWith(tokens, delim)
  {
    assert tokens[0] != [];
    if |tokens| > 1 {
      JoinedIsToken(tokens[1..], delim, other);
    }
  }

  lemma FingerCountIff(n: nat)
    ensures IsFingerCount(Decimal(n)) <==> 1 <= n <= 9
    ensures 1 <= n <= 9 ==> Count(Decimal(n)) == n
  {}

  // What is read back from a written gesture, whatever the gesture.
  lemma ReadBack(g: Gesture)
    requires IsBitField(g.directions)
    ensures Parse(ToString(g)) ==
      if g.kind == NoGesture then Failed(NotAKind("none"), CLEARED)
      else if !(1 <= g.fingers <= 9) then Failed(NotAFingerCount(Decimal(g.fingers)), CLEARED.(kind := g.kind))
      else if !Known(g.directions) then Failed(NotADirection("unknown"), g.(directions := Below(g.directions, 8)))
      else Ok(g)
  {
    ThreeParts(g);
    FingerCountIff(g.fingers);
    ReadDirectionsBack(g.directions);
  }

  // So writing and reading gives the gesture back exactly if it has a kind, 1 to 9
  // fingers, and no direction bit beyond the eight.
  lemma RoundTripIff(g: Gesture)
    requires IsBitField(g.directions)
    ensures Parse(ToString(g)) == Ok(g) <==> g.kind != NoGesture && 1 <= g.fingers <= 9 && Known(g.directions)
  {
    ReadBack(g);
  }

  lemma {:induction false} ParsedAreKnown(words: seq<string>)
    ensures ParseDirections(words).Directions? ==> Known(ParseDirections(words).directions)
  {
    if words != [] { ParsedAreKnown(words[..|words| - 1]); }
  }

  lemma ParsedGesture(s: string)
    requires Parse(s).Ok?
    ensures var g := Parse(s).gesture; g.kind != NoGesture && g.fingers <= 9 && Known(g.directions)
  {
    var split := Split(s, ':', 0);
    forall word | word in split
      ensures var d := ParseDirections(Split(word, '+', 0)); d.Directions? ==> Known(d.directions)
    {
      ParsedAreKnown(Split(word, '+', 0));
    }
  }

  // Any accepted string, in whatever order and however often it names directions,
  // gives a gesture that is read back after writing if and only if the string gave
  // a finger count; without one, what is written is refused.
  lemma AcceptedRoundTripIff(s: string)
    requires Parse(s).Ok?
    ensures var g := Parse(s).gesture;
      Parse(ToString(g)) ==
        if g.fingers == ANY_FINGERS then Failed(NotAFingerCount("0"), CLEARED.(kind := g.kind)) else Ok(g)
  {
    ParsedGesture(s);
    ReadBack(Parse(s).gesture);
  }

  // ---- What a string says ----

  // The words of the directions matter as a set only.
  lemma {:induction false} DirectionsAreASet(words: seq<string>, d: nat)
    requires ParseDirections(words).Directions?
    ensures d in ParseDirections(words).directions <==>
      exists i :: 0 <= i < |words| && d < 8 && words[i] == DirectionName(d)
  {
    if words != [] {
      var front, word := words[..|words| - 1], words[|words| - 1];
      DirectionsAreASet(front, d);
      DirectionOfIff(word, d);
      if d in ParseDirections(front).directions {
        var i :| 0 <= i < |front| && d < 8 && front[i] == DirectionName(d);
        assert words[i] == DirectionName(d);
      }
      if exists i :: 0 <= i < |words| && d < 8 && words[i] == DirectionName(d) {
        var i :| 0 <= i < |words| && d < 8 && words[i] == DirectionName(d);
        if i < |front| { assert front[i] == DirectionName(d); }
      }
    }
  }

  lemma DirectionOfIff(word: string, d: nat)
    requires DirectionOf(word).Some?
    ensures d in DirectionOf(word).value <==> d < 8 && word == DirectionName(d)
  {
    if d < 8 && word == DirectionName(d) { DirectionOfName(d); }
  }
}
