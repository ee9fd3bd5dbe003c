// sway/config.c: when a name is replaced, told by the text in front of it.
module VariableLaws {
  import opened Readings
  import opened Variables
  import opened Wrappers

  // A dollar sign counts as escaped behind exactly one backslash.
  lemma EscapedIff(done: string)
    ensures Escaped(done) <==> BackslashesBefore(done, |done|) == 1
  {
    var n := |done|;
    if n > 0 && done[n - 1] == '\\' {
      assert BackslashesBefore(done, n) == 1 + BackslashesBefore(done, n - 1);
    }
  }

  function Backslashes(n: nat): (r: string)
    ensures |r| == n
  {
    if n == 0 then [] else Backslashes(n - 1) + ['\\']
  }

  lemma {:induction false} AllBackslashes(n: nat)
    ensures '$' !in Backslashes(n) && BackslashesBefore(Backslashes(n), n) == n
  {
    if n > 0 {
      AllBackslashes(n - 1);
      SameInFront(Backslashes(n - 1), '\\', n - 1);
    }
  }

  lemma {:induction false} SameInFront(s: string, c: char, k: nat)
    requires k <= |s|
    ensures BackslashesBefore(s + [c], k) == BackslashesBefore(s, k)
  {
    if k > 0 { SameInFront(s, c, k - 1); }
  }

  // A name behind n backslashes stays as it is if n is one, and is replaced otherwise,
  // for other odd numbers as well.
  lemma BackslashLaw(n: nat, v: Variable, symbols: seq<Variable>)
    requires ProperNames(symbols) && Match(symbols, v.name) == Some(v) && '$' !in v.name[1..]
    ensures Expand([], Backslashes(n) + v.name, symbols) == Backslashes(n) + (if n == 1 then v.name else v.value)
  {
    var front, name := Backslashes(n), v.name;
    AllBackslashes(n);
    EscapedIff(front);
    PlainTextIsCopied([], front, name, symbols);
    assert [] + front == front;
    if n == 1 {
      PlainTextIsCopied(front + ['$'], name[1..], [], symbols);
      assert name[1..] + [] == name[1..] && front + ['$'] + name[1..] == front + name;
    } else {
      assert |name| > 1 ==> name[1] in name[1..];
      assert name[|name|..] == [];
    }
  }

  // Text in which no name begins and no two dollar signs follow each other stays.
  lemma {:induction false} UnknownStays(done: string, rest: string, symbols: seq<Variable>)
    requires ProperNames(symbols)
    requires forall i :: 0 <= i < |rest| && rest[i] == '$' ==>
      Match(symbols, rest[i..]) == None && (i + 1 < |rest| ==> rest[i + 1] != '$')
    ensures Expand(done, rest, symbols) == done + rest
    decreases |rest|
  {
    if rest == [] {
      assert done + rest == done;
    } else {
      var more := rest[1..];
      assert rest[0..] == rest && rest == [rest[0]] + more;
      forall i | 0 <= i < |more| && more[i] == '$'
        ensures Match(symbols, more[i..]) == None && (i + 1 < |more| ==> more[i + 1] != '$')
      {
        assert more[i..] == rest[i + 1..] && rest[i + 1] == '$';
      }
      UnknownStays(done + [rest[0]], more, symbols);
      assert done + [rest[0]] + more == done + rest;
    }
  }

  // In an ordered table a name is replaced by the value of the longest variable that
  // begins there, for example $ab rather than $a.
  lemma LongestIsReplaced(v: Variable, rest: string, symbols: seq<Variable>)
    requires Ordered(symbols) && v in symbols && |v.name| > 1 && v.name[1] != '$'
    requires forall w :: w in symbols && w.name <= v.name + rest ==> |w.name| <= |v.name|
    ensures Expand([], v.name + rest, symbols) == Expand(v.value, rest, symbols)
  {
    var text := v.name + rest;
    MatchIsLongest(symbols, text);
    assert v.name == text[..|v.name|];
    var w := Match(symbols, text).value;
    assert w.name == text[..|w.name|] && |w.name| == |v.name|;
    assert w == v by {
      var i :| 0 <= i < |symbols| && symbols[i] == w;
      var j :| 0 <= j < |symbols| && symbols[j] == v;
    }
    assert text[|v.name|..] == rest && [] + v.value == v.value && text[1] == v.name[1];
  }
}
