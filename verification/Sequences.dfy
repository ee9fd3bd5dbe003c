// Facts about sequences that several components need.
module Sequences {
  // The sequence without the item at i.
  function Without<T>(s: seq<T>, i: nat): (r: seq<T>)
    requires i < |s|
    ensures |r| == |s| - 1
    ensures forall k :: 0 <= k < |r| ==> r[k] == s[if k < i then k else k + 1]
  {
    s[..i] + s[i + 1..]
  }

  lemma Associative<T>(a: seq<T>, b: seq<T>, c: seq<T>)
    ensures (a + b) + c == a + (b + c)
  {
  }

  // From i on, t is a text and what follows it.  A quantifier keeps the contents out
  // of the way where they do not matter.
  ghost predicate Stands<T>(t: seq<T>, i: nat, text: seq<T>, rest: seq<T>) {
    |t| == i + |text| + |rest| && forall k :: SameAt(t, i, text, rest, k)
  }

  ghost predicate SameAt<T>(t: seq<T>, i: nat, text: seq<T>, rest: seq<T>, k: int)
    requires |t| == i + |text| + |rest|
  {
    && (0 <= k < |text| ==> t[i + k] == text[k])
    && (0 <= k < |rest| ==> t[i + |text| + k] == rest[k])
  }

  lemma StandsIf<T>(t: seq<T>, i: nat, text: seq<T>, rest: seq<T>)
    requires i <= |t| && t[i..] == text + rest
    ensures Stands(t, i, text, rest)
  {
    forall k
      ensures SameAt(t, i, text, rest, k)
    {
      var all := t[i..];
      assert 0 <= k < |text| ==> t[i + k] == all[k] == text[k];
      assert 0 <= k < |rest| ==> t[i + |text| + k] == all[|text| + k] == rest[k];
    }
  }

  lemma StandsAt<T>(t: seq<T>, i: nat, text: seq<T>, rest: seq<T>)
    requires Stands(t, i, text, rest)
    ensures i + |text| <= |t| && t[i..i + |text|] == text && t[i + |text|..] == rest
    ensures forall k :: 0 <= k < |text| ==> t[i + k] == text[k]
    ensures rest != [] ==> i + |text| < |t| && t[i + |text|] == rest[0]
  {
    forall k | 0 <= k < |text|
      ensures t[i + k] == text[k]
    {
      assert SameAt(t, i, text, rest, k);
    }
    forall k | 0 <= k < |rest|
      ensures t[i + |text| + k] == rest[k]
    {
      assert SameAt(t, i, text, rest, k);
    }
  }

  // What follows begins with a text of its own.
  lemma StandsNext<T>(t: seq<T>, i: nat, text: seq<T>, next: seq<T>, rest: seq<T>)
    requires Stands(t, i, text, next + rest)
    ensures Stands(t, i + |text|, next, rest)
  {
    StandsAt(t, i, text, next + rest);
    StandsIf(t, i + |text|, next, rest);
  }

  lemma Regrouped<T>(t: seq<T>, i: nat, a: seq<T>, b: seq<T>, c: seq<T>, d: seq<T>)
    requires Stands(t, i, a, b) && a + b == c + d
    ensures Stands(t, i, c, d)
  {
    StandsAt(t, i, a, b);
    assert t[i..] == t[i..i + |a|] + t[i + |a|..];
    StandsIf(t, i, c, d);
  }
}
