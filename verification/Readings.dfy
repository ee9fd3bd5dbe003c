// How the characters of a command are read, told by the text: which of them are
// escaped, and which quote is open.
module Readings {
  import opened Wrappers

  // How many backslashes stand right in front of k.
  function BackslashesBefore(s: string, k: nat): (n: nat)
    requires k <= |s|
  {
    if k == 0 || s[k - 1] != '\\' then 0 else 1 + BackslashesBefore(s, k - 1)
  }

  predicate IsEscaped(s: string, k: nat)
    requires k <= |s|
  {
    BackslashesBefore(s, k) % 2 == 1
  }

  predicate IsQuote(c: char) {
    c == '"' || c == '\''
  }

  // The quote that is open at k.
  function OpenQuote(s: string, k: nat): (q: Option<char>)
    requires k <= |s|
  {
    if k == 0 then None
    else
      var open, c := OpenQuote(s, k - 1), s[k - 1];
      if !IsQuote(c) || IsEscaped(s, k - 1) then open
      else if open == None then Some(c)
      else if open == Some(c) then None
      else open
  }

  lemma {:induction false} OnlyQuotesOpen(t: string, k: nat)
    requires k <= |t|
    ensures OpenQuote(t, k).Some? ==> IsQuote(OpenQuote(t, k).value)
  {
    if k > 0 { OnlyQuotesOpen(t, k - 1); }
  }

  // A quote that opens a quotation, and one that may close it.
  predicate Opens(s: string, i: nat, c: char)
    requires i < |s|
  {
    s[i] == c && IsQuote(c) && !IsEscaped(s, i) && OpenQuote(s, i) == None
  }

  predicate MayClose(s: string, j: nat, c: char)
    requires j < |s|
  {
    s[j] == c && !IsEscaped(s, j)
  }

  ghost predicate InQuotes(s: string, k: nat, c: char)
    requires k <= |s|
  {
    exists i :: 0 <= i < k && Opens(s, i, c) && forall j :: i < j < k ==> !MayClose(s, j, c)
  }

  // A quote is open exactly if it has opened a quotation and none of its kind, not
  // escaped, has followed.
  lemma {:induction false} OpenQuoteIff(s: string, k: nat, c: char)
    requires k <= |s|
    ensures OpenQuote(s, k) == Some(c) <==> InQuotes(s, k, c)
  {
    if k > 0 {
      OpenQuoteIff(s, k - 1, c);
      if OpenQuote(s, k) == Some(c) { StillOpen(s, k, c); }
      if InQuotes(s, k, c) { OpenBefore(s, k, c); }
    }
  }

  lemma StillOpen(s: string, k: nat, c: char)
    requires 0 < k <= |s| && OpenQuote(s, k) == Some(c)
    requires OpenQuote(s, k - 1) == Some(c) <==> InQuotes(s, k - 1, c)
    ensures InQuotes(s, k, c)
  {
    if OpenQuote(s, k - 1) == Some(c) {
      var i :| 0 <= i < k - 1 && Opens(s, i, c) && forall j :: i < j < k - 1 ==> !MayClose(s, j, c);
      assert !MayClose(s, k - 1, c);
    } else {
      assert Opens(s, k - 1, c);
    }
  }

  lemma OpenBefore(s: string, k: nat, c: char)
    requires 0 < k <= |s| && InQuotes(s, k, c)
    requires OpenQuote(s, k - 1) == Some(c) <==> InQuotes(s, k - 1, c)
    ensures OpenQuote(s, k) == Some(c)
  {
    var i :| 0 <= i < k && Opens(s, i, c) && forall j :: i < j < k ==> !MayClose(s, j, c);
    if i < k - 1 {
      assert InQuotes(s, k - 1, c);
      assert !MayClose(s, k - 1, c);
    }
  }

  // The quotes that open or close a quotation.
  predicate Delimits(s: string, k: nat)
    requires k < |s|
  {
    && IsQuote(s[k]) && !IsEscaped(s, k)
    && (OpenQuote(s, k) == None || OpenQuote(s, k) == Some(s[k]))
  }

  // The text up to k without them.
  function Bare(s: string, k: nat): (r: string)
    requires k <= |s|
  {
    if k == 0 then [] else Bare(s, k - 1) + (if Delimits(s, k - 1) then [] else [s[k - 1]])
  }

  // How often c stands before k.
  function CountBefore(s: string, c: char, k: nat): (n: nat)
    requires k <= |s|
  {
    if k == 0 then 0 else CountBefore(s, c, k - 1) + (if s[k - 1] == c then 1 else 0)
  }

  // In a text with quotes of one kind and no backslashes, a quotation is open behind
  // an odd number of them.
  lemma {:induction false} OneKindOfQuotes(s: string, c: char, k: nat)
    requires k <= |s| && IsQuote(c)
    requires forall i :: 0 <= i < |s| ==> s[i] != '\\' && (IsQuote(s[i]) ==> s[i] == c)
    ensures !IsEscaped(s, k)
    ensures OpenQuote(s, k) == if CountBefore(s, c, k) % 2 == 1 then Some(c) else None
  {
    if k > 0 { OneKindOfQuotes(s, c, k - 1); }
  }

  lemma {:induction false} NoQuoteOpen(s: string, k: nat)
    requires k <= |s| && forall i :: 0 <= i < |s| ==> !IsQuote(s[i])
    ensures OpenQuote(s, k) == None
  {
    if k > 0 { NoQuoteOpen(s, k - 1); }
  }
}
