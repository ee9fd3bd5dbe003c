// common/gesture.c: which strings are gestures, and which, told by their words.
module GestureLaws {
  import opened Gesture
  import opened Sequences
  import opened Wrappers

  // ---- Words between delimiters ----

  function Repeated(c: char, n: nat): (s: string)
    ensures |s| == n && forall i :: 0 <= i < n ==> s[i] == c
  {
    if n == 0 then [] else [c] + Repeated(c, n - 1)
  }

  // Words with so many delimiters in front of, between and behind them.
  function Woven(words: seq<string>, gaps: seq<nat>, delim: char): (s: string)
    requires |gaps| == |words| + 1
  {
    Repeated(delim, gaps[0]) + if words == [] then [] else words[0] + Woven(words[1..], gaps[1..], delim)
  }

  lemma {:induction false} DelimitersSkipped(s: string, delim: char, i: nat, n: nat)
    requires i <= n <= |s| && forall k :: i <= k < n ==> s[k] == delim
    ensures Split(s, delim, i) == Split(s, delim, n)
    decreases n - i
  {
    if i < n { DelimitersSkipped(s, delim, i + 1, n); }
  }

  lemma GapPassed(s: string, delim: char, i: nat, n: nat, tail: string)
    requires Stands(s, i, Repeated(delim, n) + tail, [])
    ensures i + n <= |s| && Stands(s, i + n, tail, []) && Split(s, delim, i) == Split(s, delim, i + n)
  {
    var gap := Repeated(delim, n);
    assert gap + tail + [] == gap + tail && tail + [] == tail;
    Regrouped(s, i, gap + tail, [], gap, tail);
    StandsAt(s, i, gap, tail);
    DelimitersSkipped(s, delim, i, i + n);
    StandsIf(s, i + n, tail, []);
  }

  ghost predicate AreWoven(words: seq<string>, gaps: seq<nat>, delim: char) {
    && AreTokens(words, delim) && |gaps| == |words| + 1
    && forall k :: 0 < k < |gaps| - 1 ==> gaps[k] > 0
  }

  lemma RestIsWoven(words: seq<string>, gaps: seq<nat>, delim: char)
    requires AreWoven(words, gaps, delim) && words != []
    ensures AreWoven(words[1..], gaps[1..], delim) && (|words| > 1 ==> gaps[1] > 0)
    ensures words[0] != [] && delim !in words[0]
  {
  }

  lemma WordFound(s: string, delim: char, n: nat, w: string, tail: string)
    requires w != [] && delim !in w && (tail != [] ==> tail[0] == delim)
    requires Stands(s, n, w + tail, [])
    ensures var end := n + |w|;
      end <= |s| && Stands(s, end, tail, []) && Split(s, delim, n) == [w] + Split(s, delim, end)
  {
    var end := n + |w|;
    assert w + tail + [] == w + tail && tail + [] == tail;
    Regrouped(s, n, w + tail, [], w, tail);
    StandsAt(s, n, w, tail);
    forall k | n <= k < end
      ensures s[k] != delim
    {
      assert s[n + (k - n)] == w[k - n] && w[k - n] in w;
    }
    StandsIf(s, end, tail, []);
    TokenEndIs(s, delim, n, end);
  }

  lemma {:induction false} SplitStands(s: string, delim: char, i: nat, words: seq<string>, gaps: seq<nat>)
    requires AreWoven(words, gaps, delim) && Stands(s, i, Woven(words, gaps, delim), [])
    ensures i <= |s| && Split(s, delim, i) == words
    decreases |words|
  {
    if words == [] {
      GapPassed(s, delim, i, gaps[0], []);
    } else {
      var tail := Woven(words[1..], gaps[1..], delim);
      RestIsWoven(words, gaps, delim);
      GapPassed(s, delim, i, gaps[0], words[0] + tail);
      TailBegins(words, gaps, delim);
      WordFound(s, delim, i + gaps[0], words[0], tail);
      SplitStands(s, delim, i + gaps[0] + |words[0]|, words[1..], gaps[1..]);
    }
  }

  lemma TailBegins(words: seq<string>, gaps: seq<nat>, delim: char)
    requires |gaps| == |words| + 1 && words != [] && (|words| > 1 ==> gaps[1] > 0)
    ensures var tail := Woven(words[1..], gaps[1..], delim); tail != [] ==> tail[0] == delim
  {
  }

  // However many delimiters there are, just the words are found.
  lemma SplitWoven(words: seq<string>, gaps: seq<nat>, delim: char)
    requires AreWoven(words, gaps, delim)
    ensures Split(Woven(words, gaps, delim), delim, 0) == words
  {
    var s := Woven(words, gaps, delim);
    assert s[0..] == s + [];
    StandsIf(s, 0, s, []);
    SplitStands(s, delim, 0, words, gaps);
  }

  // ---- Gestures ----

  // The names of the directions, in the order of their bits.
  const NAMES := ["up", "down", "left", "right", "inward", "outward", "clockwise", "counterclockwise"]

  // A direction adds its bit, "any" adds nothing, and nothing else is a direction.
  lemma DirectionsByName(word: string)
    ensures DirectionOf(word).Some? <==> word == "any" || word in NAMES
    ensures word == "any" ==> DirectionOf(word) == Some({})
    ensures forall d :: 0 <= d < 8 && word == NAMES[d] ==> DirectionOf(word) == Some({d})
  {
    if word in NAMES {
      var d :| 0 <= d < 8 && NAMES[d] == word;
    }
  }

  lemma KindsByName(word: string)
    ensures KindOf(word) ==
      if word == "hold" then Some(Hold) else if word == "pinch" then Some(Pinch)
      else if word == "swipe" then Some(Swipe) else None
  {
  }

  predicate IsDirection(word: string) {
    word == "any" || word in NAMES
  }

  // The bits of the directions among some words.
  ghost predicate AreBitsOf(directions: set<nat>, words: seq<string>) {
    forall d: nat :: d in directions <==> d < 8 && NAMES[d] in words
  }

  lemma OneMoreWord(directions: set<nat>, words: seq<string>, word: string)
    requires AreBitsOf(directions, words) && IsDirection(word)
    ensures AreBitsOf(directions + DirectionOf(word).value, words + [word])
  {
    var more := directions + DirectionOf(word).value;
    DirectionsByName(word);
    forall d: nat
      ensures d in more <==> d < 8 && NAMES[d] in words + [word]
    {
      if d < 8 {
        NamesDiffer(d);
        DirectionsByName(NAMES[d]);
      }
      if word != "any" {
        var k :| 0 <= k < 8 && NAMES[k] == word;
        assert DirectionOf(word) == Some({k});
      }
    }
  }

  lemma NamesDiffer(k: nat)
    requires k < 8
    ensures forall d :: 0 <= d < 8 && NAMES[d] == NAMES[k] ==> d == k
  {
    forall d | 0 <= d < 8 && NAMES[d] == NAMES[k]
      ensures d == k
    {
      DirectionsByName(NAMES[k]);
      assert DirectionOf(NAMES[k]) == Some({d}) && DirectionOf(NAMES[k]) == Some({k});
      assert d in {k};
    }
  }

  // Words are all read if they are directions, as the set of their bits; else the first
  // that is none is reported, with the bits of those before it.
  lemma {:induction false} DirectionsLaw(words: seq<string>)
    ensures match ParseDirections(words)
      case Directions(ds) => (forall w :: w in words ==> IsDirection(w)) && AreBitsOf(ds, words)
      case BadWord(word, ds) =>
        exists k :: 0 <= k < |words| && words[k] == word && !IsDirection(word)
          && (forall w :: w in words[..k] ==> IsDirection(w)) && AreBitsOf(ds, words[..k])
  {
    if words != [] {
      var n := |words| - 1;
      var front, word := words[..n], words[n];
      assert words == front + [word];
      DirectionsLaw(front);
      DirectionsByName(word);
      match ParseDirections(front)
      case Directions(ds) =>
        if IsDirection(word) { OneMoreWord(ds, front, word); }
      case BadWord(bad, ds) =>
        var k :| 0 <= k < n && front[k] == bad && !IsDirection(bad)
          && (forall w :: w in front[..k] ==> IsDirection(w)) && AreBitsOf(ds, front[..k]);
        assert words[..k] == front[..k] && words[k] == bad;
    }
  }

  // A finger count is a single digit other than zero.
  predicate IsCount(word: string) {
    word in {"1", "2", "3", "4", "5", "6", "7", "8", "9"}
  }

  lemma CountsByDigit(word: string)
    ensures IsFingerCount(word) <==> IsCount(word)
    ensures IsCount(word) ==> word == [Count(word) as char + '0']
  {
    if IsFingerCount(word) { assert word == [word[0]]; }
  }

  ghost predicate AreDirections(words: string) {
    forall w :: w in Split(words, '+', 0) ==> IsDirection(w)
  }

  // A string is a gesture if and only if it has one to three words between colons, of
  // which the first is a kind, and the others are a count and directions, or one of
  // these.
  lemma AcceptedIff(input: string)
    ensures var words := Split(input, ':', 0);
      Parse(input).Ok? <==>
        && 1 <= |words| <= 3 && words[0] in {"hold", "pinch", "swipe"}
        && (|words| == 3 ==> IsCount(words[1]) && AreDirections(words[2]))
        && (|words| == 2 ==> IsCount(words[1]) || AreDirections(words[1]))
  {
    var words := Split(input, ':', 0);
    if 1 <= |words| <= 3 {
      KindsByName(words[0]);
      if |words| > 1 {
        CountsByDigit(words[1]);
        DirectionsLaw(Split(words[1], '+', 0));
        NoBadWord(words[1]);
      }
      if |words| == 3 {
        DirectionsLaw(Split(words[2], '+', 0));
        NoBadWord(words[2]);
      }
    }
  }

  lemma NoBadWord(s: string)
    ensures ParseDirections(Split(s, '+', 0)).Directions? <==> AreDirections(s)
  {
    var words := Split(s, '+', 0);
    DirectionsLaw(words);
    match ParseDirections(words)
    case Directions(_) =>
    case BadWord(word, ds) =>
      var k :| 0 <= k < |words| && words[k] == word && !IsDirection(word);
      assert words[k] in words;
  }

  // Which gesture it is.
  lemma AcceptedLaw(input: string)
    requires Parse(input).Ok?
    ensures var words, g := Split(input, ':', 0), Parse(input).gesture;
      && 1 <= |words| <= 3
      && (g.kind == Hold <==> words[0] == "hold") && (g.kind == Pinch <==> words[0] == "pinch")
      && (g.kind == Swipe <==> words[0] == "swipe") && g.kind != NoGesture
      && (if |words| > 1 && IsCount(words[1]) then words[1] == [g.fingers as char + '0'] else g.fingers == 0)
      && AreBitsOf(g.directions,
           if |words| == 3 then Split(words[2], '+', 0)
           else if |words| == 2 && !IsCount(words[1]) then Split(words[1], '+', 0) else [])
  {
    var words := Split(input, ':', 0);
    AcceptedIff(input);
    KindsByName(words[0]);
    if |words| > 1 {
      CountsByDigit(words[1]);
      DirectionsLaw(Split(words[1], '+', 0));
    }
    if |words| == 3 { DirectionsLaw(Split(words[2], '+', 0)); }
  }

  // The error is for the first thing that is wrong.
  lemma ErrorLaw(input: string)
    requires Parse(input).Failed?
    ensures var words, e := Split(input, ':', 0), Parse(input).error;
      if !(1 <= |words| <= 3) then e == NotAGesture(input)
      else if words[0] !in {"hold", "pinch", "swipe"} then e == NotAKind(words[0])
      else if |words| == 3 && !IsCount(words[1]) then e == NotAFingerCount(words[1])
      else e.NotADirection? && !IsDirection(e.got) && e.got in Split(words[|words| - 1], '+', 0)
  {
    var words := Split(input, ':', 0);
    if 1 <= |words| <= 3 {
      KindsByName(words[0]);
      if |words| > 1 {
        CountsByDigit(words[1]);
        DirectionsLaw(Split(words[|words| - 1], '+', 0));
      }
    }
  }

  // The directions are written in the order of their bits.
  lemma WrittenInOrder(g: Gesture)
    requires g == Gesture(Swipe, 3, {0, 2})
    ensures ToString(g) == "swipe:3:up+left"
  {
    NamesOfTwo(g.directions, 32);
    var names := DirectionNames(g.directions);
    assert names == ["up", "left"] && names[1..] == ["left"];
    assert JoinedWith(["left"], '+') == "left" && JoinedWith(names, '+') == "up" + ['+'] + "left";
    ThreeJoined("swipe", "3", "up+left", ':');
  }

  lemma {:induction false} NamesOfTwo(directions: set<nat>, bit: nat)
    requires directions == {0, 2}
    ensures NamesBelow(directions, bit) == if bit == 0 then [] else if bit < 3 then ["up"] else ["up", "left"]
  {
    if bit > 0 { NamesOfTwo(directions, bit - 1); }
  }
}
