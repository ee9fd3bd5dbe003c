// What keeps an argument together, told by the characters of the text.
module TokenLaws {
  import opened Readings
  import opened Tokens
  import opened Wrappers

  predicate OpensBracket(t: string, i: nat)
    requires i < |t|
  {
    t[i] == '[' && !IsEscaped(t, i) && OpenQuote(t, i) == None
  }

  predicate ClosesBracket(t: string, j: nat)
    requires j < |t|
  {
    t[j] == ']' && !IsEscaped(t, j) && OpenQuote(t, j) == None
  }

  ghost predicate InBrackets(t: string, k: nat)
    requires k <= |t|
  {
    exists i :: 0 <= i < k && OpensBracket(t, i) && forall j :: i < j < k ==> !ClosesBracket(t, j)
  }

  // What keeps whitespace at k from ending an argument.
  ghost predicate IsProtected(t: string, k: nat)
    requires k <= |t|
  {
    IsEscaped(t, k) || OpenQuote(t, k).Some? || InBrackets(t, k)
  }

  // The flags of the splitting loop at k.
  ghost function FlagsAt(t: string, k: nat): (q: Quoting)
    requires k <= |t|
  {
    Quoting(OpenQuote(t, k) == Some('"'), OpenQuote(t, k) == Some('\''), InBrackets(t, k), IsEscaped(t, k))
  }

  lemma InBracketsNext(t: string, k: nat)
    requires k < |t|
    ensures InBrackets(t, k + 1) <==> (InBrackets(t, k) && !ClosesBracket(t, k)) || OpensBracket(t, k)
  {
    if InBrackets(t, k) && !ClosesBracket(t, k) {
      var i :| 0 <= i < k && OpensBracket(t, i) && forall j :: i < j < k ==> !ClosesBracket(t, j);
      assert forall j :: i < j < k + 1 ==> !ClosesBracket(t, j);
    }
    if InBrackets(t, k + 1) && !OpensBracket(t, k) {
      var i :| 0 <= i < k + 1 && OpensBracket(t, i) && forall j :: i < j < k + 1 ==> !ClosesBracket(t, j);
      assert i < k && !ClosesBracket(t, k);
    }
  }

  lemma FlagsNext(t: string, k: nat)
    requires k < |t|
    ensures FlagsAt(t, k + 1) == Next(FlagsAt(t, k), t[k])
  {
    OnlyQuotesOpen(t, k);
    InBracketsNext(t, k);
  }

  // An argument goes on from k as far as no whitespace at or behind k is unprotected.
  lemma {:induction false} TokenGoesOn(t: string, k: nat)
    requires k <= |t|
    ensures TokenLength(t[k..], FlagsAt(t, k)) == |t| - k
      <==> forall i :: k <= i < |t| && IsSpace(t[i]) ==> IsProtected(t, i)
    decreases |t| - k
  {
    if k < |t| {
      var rest := t[k..];
      assert rest[0] == t[k] && rest[1..] == t[k + 1..];
      FlagsNext(t, k);
      OnlyQuotesOpen(t, k);
      TokenGoesOn(t, k + 1);
    }
  }

  lemma {:induction false} FlagsBehind(t: string, k: nat)
    requires k <= |t|
    ensures After(FlagsAt(t, k), t[k..]) == FlagsAt(t, |t|)
    decreases |t| - k
  {
    if k < |t| {
      var rest := t[k..];
      assert rest[0] == t[k] && rest[1..] == t[k + 1..];
      FlagsNext(t, k);
      FlagsBehind(t, k + 1);
    }
  }

  // A text is one argument if and only if it begins outside whitespace, and all
  // whitespace in it is escaped, in quotes, or in brackets that are not themselves in
  // quotes or escaped.
  lemma IsTokenIff(t: string)
    ensures IsToken(t) <==>
      t != [] && !IsSpace(t[0]) && forall k :: 0 <= k < |t| && IsSpace(t[k]) ==> IsProtected(t, k)
  {
    assert t[0..] == t && FlagsAt(t, 0) == NEUTRAL;
    TokenGoesOn(t, 0);
  }

  // Whitespace may follow it if and only if nothing is open at its end.
  lemma IsClosedIff(t: string)
    ensures IsClosed(t) <==> IsToken(t) && !IsProtected(t, |t|)
  {
    assert t[0..] == t && FlagsAt(t, 0) == NEUTRAL;
    FlagsBehind(t, 0);
    OnlyQuotesOpen(t, |t|);
  }

  // So a line splits into arguments in just one way, told by its characters: arguments
  // with whitespace around them, which is where whitespace is not protected.
  ghost predicate IsArgument(t: string) {
    t != [] && !IsSpace(t[0]) && forall k :: 0 <= k < |t| && IsSpace(t[k]) ==> IsProtected(t, k)
  }

  ghost predicate AreArguments(gaps: seq<string>, tokens: seq<string>) {
    && |gaps| == |tokens| + 1
    && (forall i :: 0 <= i < |gaps| ==> Blank(gaps[i]))
    && (forall i :: 0 < i < |gaps| - 1 ==> gaps[i] != [])
    && (forall i :: 0 <= i < |tokens| ==> IsArgument(tokens[i]))
    && (forall i :: 0 <= i < |tokens| && gaps[i + 1] != [] ==> !IsProtected(tokens[i], |tokens[i]|))
  }

  lemma SplitsIff(s: string, tokens: seq<string>)
    ensures Split(s) == tokens <==> exists gaps :: AreArguments(gaps, tokens) && Weave(gaps, tokens) == s
  {
    SplitIffLayout(s, tokens);
    forall gaps
      ensures AreArguments(gaps, tokens) <==> IsLayout(gaps, tokens)
    {
      LayoutIff(gaps, tokens);
    }
  }

  lemma LayoutIff(gaps: seq<string>, tokens: seq<string>)
    ensures AreArguments(gaps, tokens) <==> IsLayout(gaps, tokens)
  {
    forall i | 0 <= i < |tokens|
      ensures IsToken(tokens[i]) <==> IsArgument(tokens[i])
      ensures IsClosed(tokens[i]) <==> IsToken(tokens[i]) && !IsProtected(tokens[i], |tokens[i]|)
    {
      IsTokenIff(tokens[i]);
      IsClosedIff(tokens[i]);
    }
  }

  // Whitespace is what isspace takes for it in the C locale.
  lemma WhitespaceIs(c: char)
    ensures IsSpace(c) <==> c == ' ' || 9 <= c as int <= 13
  {
  }

  // ---- One kind of protection at a time ----

  // Without quotes and backslashes: whitespace needs an opening bracket before it and
  // no closing one between.
  lemma OnlyBrackets(t: string)
    requires forall i :: 0 <= i < |t| ==> !IsQuote(t[i]) && t[i] != '\\'
    ensures IsToken(t) <==>
      && t != [] && !IsSpace(t[0])
      && forall k :: 0 <= k < |t| && IsSpace(t[k]) ==>
           exists i :: 0 <= i < k && t[i] == '[' && forall j :: i < j < k ==> t[j] != ']'
  {
    forall k | 0 <= k <= |t|
      ensures OpenQuote(t, k) == None && !IsEscaped(t, k)
    {
      NoQuoteOpen(t, k);
    }
    forall k | 0 <= k < |t|
      ensures IsProtected(t, k) <==> exists i :: 0 <= i < k && t[i] == '[' && forall j :: i < j < k ==> t[j] != ']'
    {
      if exists i :: 0 <= i < k && t[i] == '[' && forall j :: i < j < k ==> t[j] != ']' {
        var i :| 0 <= i < k && t[i] == '[' && forall j :: i < j < k ==> t[j] != ']';
        assert OpensBracket(t, i);
      }
      if InBrackets(t, k) {
        var i :| 0 <= i < k && OpensBracket(t, i) && forall j :: i < j < k ==> !ClosesBracket(t, j);
        assert forall j :: i < j < k ==> t[j] != ']' by {
          forall j | i < j < k
            ensures t[j] != ']'
          {
            assert !ClosesBracket(t, j);
          }
        }
      }
    }
    IsTokenIff(t);
  }

  // With quotes of one kind and no brackets or backslashes: whitespace needs an odd
  // number of them before it.
  lemma OnlyOneQuote(t: string, c: char)
    requires IsQuote(c)
    requires forall i :: 0 <= i < |t| ==> t[i] != '\\' && t[i] != '[' && (IsQuote(t[i]) ==> t[i] == c)
    ensures IsToken(t) <==>
      && t != [] && !IsSpace(t[0])
      && forall k :: 0 <= k < |t| && IsSpace(t[k]) ==> CountBefore(t, c, k) % 2 == 1
  {
    forall k | 0 <= k < |t|
      ensures IsProtected(t, k) <==> CountBefore(t, c, k) % 2 == 1
    {
      OneKindOfQuotes(t, c, k);
    }
    IsTokenIff(t);
  }

  // Without quotes and brackets: whitespace needs an odd number of backslashes right
  // in front of it.
  lemma OnlyBackslashes(t: string)
    requires forall i :: 0 <= i < |t| ==> !IsQuote(t[i]) && t[i] != '['
    ensures IsToken(t) <==>
      && t != [] && !IsSpace(t[0])
      && forall k :: 0 <= k < |t| && IsSpace(t[k]) ==> BackslashesBefore(t, k) % 2 == 1
  {
    forall k | 0 <= k < |t|
      ensures IsProtected(t, k) <==> IsEscaped(t, k)
    {
      NoQuoteOpen(t, k);
    }
    IsTokenIff(t);
  }

  // Criteria stay together.
  lemma CriteriaAreOneArgument(t: string)
    requires t == "[a b]"
    ensures Split(t) == [t]
  {
    assert forall k :: 0 <= k < |t| && IsSpace(t[k]) ==> k == 2;
    OnlyBrackets(t) by { assert t[0] == '[' && t[1] != ']'; }
    SplitToken([], t, []);
    assert [] + (t + []) == t && [t] + Split([]) == [t];
  }
}
