// sway/criteria.c: reading criteria such as [app_id="foot" floating] from the
// head of a text, up to where their tokens are looked up.
module CriteriaText {
  import opened Sequences
  import opened Wrappers

  // A token, with its value if one is given.
  datatype Pair = Pair(name: string, value: Option<string>)

  // What the criteria say and where they end, or a mistake in them.
  datatype Parsed = Parsed(pairs: seq<Pair>, end: nat) | Bad

  datatype Stop = NotSpace | NotName | Quote | Bare

  predicate IsNameChar(c: char) {
    'a' <= c <= 'z' || c == '_'
  }

  // What ends a stretch of text.  A quote behind a backslash does not count.
  predicate StopsAt(t: string, i: nat, stop: Stop)
    requires i < |t|
  {
    match stop
    case NotSpace => t[i] != ' '
    case NotName => !IsNameChar(t[i])
    case Quote => t[i] == '"' && (i == 0 || t[i - 1] != '\\')
    case Bare => t[i] == ' ' || t[i] == ']'
  }

  function Until(t: string, i: nat, stop: Stop): (n: nat)
    requires i <= |t|
    ensures i <= n <= |t| && (n < |t| ==> StopsAt(t, n, stop))
    decreases |t| - i
  {
    if i == |t| || StopsAt(t, i, stop) then i else Until(t, i + 1, stop)
  }

  // A value without the backslashes in front of its quotes.
  function Unescaped(v: string): (r: string) {
    if v == [] then []
    else if v[0] == '\\' && |v| > 1 && v[1] == '"' then ['"'] + Unescaped(v[2..])
    else [v[0]] + Unescaped(v[1..])
  }

  function InFront(pair: Pair, rest: Parsed): (p: Parsed) {
    match rest
    case Bad => Bad
    case Parsed(pairs, end) => Parsed([pair] + pairs, end)
  }

  // Where a value begins and ends that follows the equals sign in front of i, and
  // where reading goes on; None if its closing quote is missing.
  function ValueAt(t: string, i: nat): (v: Option<(nat, nat, nat)>)
    requires i <= |t|
    ensures v.Some? ==> i <= v.value.0 <= v.value.1 <= v.value.2 <= |t|
  {
    var w := Until(t, i, NotSpace);
    if w < |t| && t[w] == '"' then
      var q := Until(t, w + 1, Quote);
      if q == |t| then None else Some((w + 1, q, Until(t, q + 1, NotSpace)))
    else
      var e := Until(t, w, Bare);
      Some((w, e, Until(t, e, NotSpace)))
  }

  // Where a name begins and ends, and what follows it.
  function NameAt(t: string, i: nat): (n: (nat, nat, nat))
    requires i <= |t|
    ensures i <= n.0 <= n.1 <= n.2 <= |t|
  {
    var start := Until(t, i, NotSpace);
    var end := Until(t, start, NotName);
    (start, end, Until(t, end, NotSpace))
  }

  // One token and where reading goes on behind it; None if there is a mistake in it.
  function PairAt(t: string, i: nat): (r: Option<(Pair, nat)>)
    requires i <= |t|
    ensures r.Some? ==> i < r.value.1 <= |t|
  {
    var (n, e, v) := NameAt(t, i);
    if n == e then None else WithValue(t, t[n..e], v)
  }

  function WithValue(t: string, name: string, v: nat): (r: Option<(Pair, nat)>)
    requires v <= |t|
    ensures r.Some? ==> v <= r.value.1 <= |t|
  {
    if v == |t| || t[v] != '=' then Some((Pair(name, None), v))
    else match ValueAt(t, v + 1)
      case None => None
      case Some((start, end, next)) => Some((Pair(name, Some(Unescaped(t[start..end]))), next))
  }

  // The tokens from i on, up to the closing bracket.
  function PairsFrom(t: string, i: nat): (p: Parsed)
    requires i <= |t|
    ensures p.Parsed? ==> i < p.end <= |t|
    decreases |t| - i
  {
    if i == |t| then Bad
    else if t[i] == ']' then Parsed([], i + 1)
    else match PairAt(t, i)
      case None => Bad
      case Some((pair, next)) => InFront(pair, PairsFrom(t, next))
  }

  function Parse(text: string): (p: Parsed)
    requires text != [] && text[0] == '['
    ensures p.Parsed? ==> 1 < p.end <= |text|
  {
    PairsFrom(text, 1)
  }

  // ---- The loops ----

  method Scan(t: string, i: nat, stop: Stop) returns (n: nat)
    requires i <= |t|
    ensures n == Until(t, i, stop)
  {
    n := i;
    while n < |t| && !StopsAt(t, n, stop)
      invariant i <= n <= |t| && Until(t, n, stop) == Until(t, i, stop)
    {
      n := n + 1;
    }
  }

  // Copies the value over itself, without some of its backslashes.
  method Unescape(value: string) returns (copy: string)
    ensures copy == Unescaped(value)
  {
    copy := [];
    var i := 0;
    assert value[0..] == value;
    while i < |value|
      invariant 0 <= i <= |value|
      invariant copy + Unescaped(value[i..]) == Unescaped(value)
    {
      ghost var rest := value[i..];
      var c := value[i];
      if c == '\\' && i + 1 < |value| && value[i + 1] == '"' {
        i := i + 1;
        c := '"';
        assert rest[2..] == value[i + 1..];
      }
      assert rest[1..] == if rest[0] == c then value[i + 1..] else value[i..];
      Associative(copy, [c], Unescaped(value[i + 1..]));
      copy := copy + [c];
      i := i + 1;
    }
    assert value[i..] == [];
  }

  method ParseText(text: string) returns (p: Parsed)
    requires text != [] && text[0] == '['
    ensures p == Parse(text)
  {
    var head, pairs := 1, [];
    while head < |text| && text[head] != ']'
      invariant 0 < head <= |text|
      invariant Parse(text) == AllInFront(pairs, PairsFrom(text, head))
      decreases |text| - head
    {
      var r := ParsePair(text, head);
      if r == None {
        return Bad;
      }
      OneMoreInFront(pairs, r.value.0, PairsFrom(text, r.value.1));
      pairs := pairs + [r.value.0];
      head := r.value.1;
    }
    if head == |text| {
      return Bad;
    }
    return Parsed(pairs, head + 1);
  }

  lemma OneMoreInFront(pairs: seq<Pair>, pair: Pair, rest: Parsed)
    ensures AllInFront(pairs, InFront(pair, rest)) == AllInFront(pairs + [pair], rest)
  {
    if rest.Parsed? { Associative(pairs, [pair], rest.pairs); }
  }

  method ParsePair(t: string, i: nat) returns (r: Option<(Pair, nat)>)
    requires i <= |t|
    ensures r == PairAt(t, i)
  {
    var namestart := Scan(t, i, NotSpace);
    var nameend := Scan(t, namestart, NotName);
    var head := Scan(t, nameend, NotSpace);
    var name := t[namestart..nameend];
    if name == [] {
      return None;
    }
    if head < |t| && t[head] == '=' {
      var v := ParseValue(t, head + 1);
      if v == None {
        return None;
      }
      return Some((Pair(name, Some(v.value.0)), v.value.1));
    }
    return Some((Pair(name, None), head));
  }

  function AllInFront(pairs: seq<Pair>, rest: Parsed): (p: Parsed) {
    match rest
    case Bad => Bad
    case Parsed(more, end) => Parsed(pairs + more, end)
  }

  method ParseValue(t: string, i: nat) returns (v: Option<(string, nat)>)
    requires i <= |t|
    ensures v == match ValueAt(t, i)
      case None => None
      case Some((start, end, next)) => Some((Unescaped(t[start..end]), next))
    ensures v.Some? ==> v.value.1 <= |t|
  {
    var start := Scan(t, i, NotSpace);
    var inQuotes := start < |t| && t[start] == '"';
    if inQuotes {
      start := start + 1;
    }
    var end := Scan(t, start, if inQuotes then Quote else Bare);
    if inQuotes && end == |t| {
      return None;
    }
    var value := Unescape(t[start..end]);
    var next := Scan(t, if inQuotes then end + 1 else end, NotSpace);
    return Some((value, next));
  }

  // ---- What follows does not matter ----

  lemma {:induction false} UntilPrefix(t: string, tail: string, i: nat, stop: Stop)
    requires i <= |t| && Until(t, i, stop) < |t|
    ensures Until(t + tail, i, stop) == Until(t, i, stop)
    decreases |t| - i
  {
    var u := t + tail;
    assert u[i] == t[i] && (i > 0 ==> u[i - 1] == t[i - 1]);
    if !StopsAt(t, i, stop) { UntilPrefix(t, tail, i + 1, stop); }
  }

  lemma ValuePrefix(t: string, tail: string, i: nat)
    requires i <= |t| && ValueAt(t, i).Some? && ValueAt(t, i).value.2 < |t|
    ensures ValueAt(t + tail, i) == ValueAt(t, i)
  {
    var w := Until(t, i, NotSpace);
    UntilPrefix(t, tail, i, NotSpace);
    if t[w] == '"' {
      UntilPrefix(t, tail, w + 1, Quote);
      UntilPrefix(t, tail, ValueAt(t, i).value.1 + 1, NotSpace);
    } else {
      UntilPrefix(t, tail, w, Bare);
      UntilPrefix(t, tail, ValueAt(t, i).value.1, NotSpace);
    }
  }

  lemma NamePrefix(t: string, tail: string, i: nat)
    requires i <= |t| && NameAt(t, i).2 < |t|
    ensures NameAt(t + tail, i) == NameAt(t, i)
  {
    UntilPrefix(t, tail, i, NotSpace);
    UntilPrefix(t, tail, NameAt(t, i).0, NotName);
    UntilPrefix(t, tail, NameAt(t, i).1, NotSpace);
  }

  lemma PartPrefix(t: string, tail: string, from: nat, end: nat)
    requires from <= end <= |t|
    ensures (t + tail)[from..end] == t[from..end]
  {
  }

  lemma WithValuePrefix(t: string, tail: string, name: string, v: nat)
    requires v <= |t| && WithValue(t, name, v).Some? && WithValue(t, name, v).value.1 < |t|
    ensures WithValue(t + tail, name, v) == WithValue(t, name, v)
  {
    assert (t + tail)[v] == t[v];
    if t[v] == '=' {
      var (start, end, next) := ValueAt(t, v + 1).value;
      ValuePrefix(t, tail, v + 1);
      PartPrefix(t, tail, start, end);
    }
  }

  lemma PairPrefix(t: string, tail: string, i: nat)
    requires i <= |t| && PairAt(t, i).Some? && PairAt(t, i).value.1 < |t|
    ensures PairAt(t + tail, i) == PairAt(t, i)
  {
    var (n, e, v) := NameAt(t, i);
    NamePrefix(t, tail, i);
    PartPrefix(t, tail, n, e);
    WithValuePrefix(t, tail, t[n..e], v);
  }

  // Good criteria are read the same, whatever follows.
  lemma {:induction false} PairsPrefix(t: string, tail: string, i: nat)
    requires i <= |t| && PairsFrom(t, i).Parsed?
    ensures PairsFrom(t + tail, i) == PairsFrom(t, i)
    decreases |t| - i
  {
    assert (t + tail)[i] == t[i];
    if t[i] != ']' {
      PairPrefix(t, tail, i);
      PairsPrefix(t, tail, PairAt(t, i).value.1);
    }
  }

  // ---- Writing criteria ----

  function Escaped(v: string): (r: string) {
    if v == [] then [] else (if v[0] == '"' then ['\\', '"'] else [v[0]]) + Escaped(v[1..])
  }

  function ShowPair(pair: Pair): (s: string) {
    pair.name + match pair.value
      case None => []
      case Some(v) => ['=', '"'] + (Escaped(v) + ['"'])
  }

  function ShowFrom(pairs: seq<Pair>): (s: string) {
    if pairs == [] then [']']
    else if |pairs| == 1 then ShowPair(pairs[0]) + [']']
    else ShowPair(pairs[0]) + ([' '] + ShowFrom(pairs[1..]))
  }

  function Show(pairs: seq<Pair>): (s: string) {
    ['['] + ShowFrom(pairs)
  }

  predicate IsName(name: string) {
    name != [] && forall i :: 0 <= i < |name| ==> IsNameChar(name[i])
  }

  predicate HaveNames(pairs: seq<Pair>) {
    forall i :: 0 <= i < |pairs| ==> IsName(pairs[i].name)
  }

  // A value that does not end in a backslash.
  predicate EndsPlainly(pair: Pair) {
    match pair.value
    case None => true
    case Some(v) => IsPlain(v)
  }

  predicate IsPlain(v: string) {
    v == [] || v[|v| - 1] != '\\'
  }

  lemma {:induction false} EscapedQuotes(v: string, k: nat)
    requires k < |Escaped(v)| && Escaped(v)[k] == '"'
    ensures k > 0 && Escaped(v)[k - 1] == '\\'
  {
    var n := if v[0] == '"' then 2 else 1;
    if k >= n { EscapedQuotes(v[1..], k - n); }
  }

  lemma {:induction false} EscapedLast(v: string)
    requires v != []
    ensures Escaped(v) != [] && Escaped(v)[|Escaped(v)| - 1] == v[|v| - 1]
  {
    if |v| > 1 { EscapedLast(v[1..]); }
  }

  lemma UnescapedStep(c: char, tail: string)
    ensures Unescaped(['\\', '"'] + tail) == ['"'] + Unescaped(tail)
    ensures c != '\\' || tail == [] || tail[0] != '"' ==> Unescaped([c] + tail) == [c] + Unescaped(tail)
  {
    assert (['\\', '"'] + tail)[2..] == tail && ([c] + tail)[1..] == tail;
  }

  // What an escaped value begins with is no quote.
  lemma EscapedHead(v: string, c: char)
    requires v != []
    ensures Escaped(v) != [] && Escaped(v)[0] != '"'
    ensures Escaped([c] + v) == (if c == '"' then ['\\', '"'] else [c]) + Escaped(v)
  {
    assert ([c] + v)[1..] == v;
  }

  lemma {:induction false} UnescapedEscaped(v: string)
    ensures Unescaped(Escaped(v)) == v
  {
    if v != [] {
      UnescapedEscaped(v[1..]);
      UnescapedStep(v[0], Escaped(v[1..]));
      if |v| > 1 { EscapedHead(v[1..], v[0]); }
    }
  }

  // A quote behind a backslash at the end of a value is taken for a part of it.
  lemma {:induction false} QuoteIsTakenIn(v: string, more: string)
    requires v != [] && v[|v| - 1] == '\\'
    ensures var r := Unescaped(Escaped(v) + (['"'] + more)); |r| >= |v| && r[|v| - 1] == '"'
  {
    var rest := ['"'] + more;
    if |v| == 1 {
      assert v == ['\\'] && Escaped(v) == ['\\'] && ['\\'] + rest == ['\\', '"'] + more;
      UnescapedStep('"', more);
    } else {
      var tail, first := Escaped(v[1..]) + rest, if v[0] == '"' then ['\\', '"'] else [v[0]];
      QuoteIsTakenIn(v[1..], more);
      EscapedHead(v[1..], v[0]);
      Associative(first, Escaped(v[1..]), rest);
      UnescapedStep(v[0], tail);
    }
  }

  lemma {:induction false} UntilSkips(t: string, i: nat, n: nat, stop: Stop)
    requires i <= n <= |t| && forall k :: i <= k < n ==> !StopsAt(t, k, stop)
    ensures Until(t, i, stop) == Until(t, n, stop)
    decreases n - i
  {
    if i < n { UntilSkips(t, i + 1, n, stop); }
  }

  lemma NameRead(t: string, i: nat, name: string, rest: string)
    requires IsName(name) && Stands(t, i, name, rest) && rest != [] && !IsNameChar(rest[0])
    ensures NameAt(t, i).0 == i && NameAt(t, i).1 == i + |name|
    ensures rest[0] != ' ' ==> NameAt(t, i).2 == i + |name|
    ensures rest[0] == ' ' && |rest| > 1 && rest[1] != ' ' ==> NameAt(t, i).2 == i + |name| + 1
  {
    StandsAt(t, i, name, rest);
    var e := i + |name|;
    assert t[i + 0] == name[0] && IsNameChar(name[0]) && StopsAt(t, i, NotSpace);
    assert t[e] == rest[0] && StopsAt(t, e, NotName);
    forall k | i <= k < e
      ensures !StopsAt(t, k, NotName)
    {
      assert t[i + (k - i)] == name[k - i];
    }
    UntilSkips(t, i, e, NotName);
    if rest[0] == ' ' && |rest| > 1 && rest[1] != ' ' {
      assert t[e + 1] == t[e..][1] && !StopsAt(t, e, NotSpace) && StopsAt(t, e + 1, NotSpace);
      assert Until(t, e, NotSpace) == e + 1;
    } else if rest[0] != ' ' {
      assert StopsAt(t, e, NotSpace);
    }
  }

  // Where the value in quotes at i ends: at its closing quote, or behind it if the
  // value ends in a backslash.
  lemma QuoteFound(t: string, i: nat, v: string, rest: string)
    requires i > 0 && t != [] && i - 1 < |t| && t[i - 1] == '"' && Stands(t, i, Escaped(v), ['"'] + rest)
    ensures var q, e := Until(t, i, Quote), i + |Escaped(v)|;
      if IsPlain(v) then q == e < |t| else q > e
  {
    var e := i + |Escaped(v)|;
    StandsAt(t, i, Escaped(v), ['"'] + rest);
    forall k | i <= k < e
      ensures !StopsAt(t, k, Quote)
    {
      assert t[i + (k - i)] == Escaped(v)[k - i];
      if t[k] == '"' {
        EscapedQuotes(v, k - i);
        assert t[i + (k - i - 1)] == Escaped(v)[k - i - 1];
      }
    }
    assert t[e] == '"';
    UntilSkips(t, i, e, Quote);
    if v != [] {
      EscapedLast(v);
      assert t[i + (|Escaped(v)| - 1)] == v[|v| - 1];
      assert t[e - 1] == v[|v| - 1];
    } else {
      assert e == i;
    }
    assert StopsAt(t, e, Quote) <==> IsPlain(v);
  }

  // What comes behind a token: a space and another one, or the bracket.
  predicate IsBehind(rest: string) {
    rest != [] && (rest[0] == ']' || (rest[0] == ' ' && |rest| > 1 && IsNameChar(rest[1])))
  }

  function Spaces(rest: string): (n: nat)
    requires rest != []
  {
    if rest[0] == ' ' then 1 else 0
  }

  lemma SpaceSkipped(t: string, i: nat, rest: string)
    requires Stands(t, i, [], rest) && IsBehind(rest)
    ensures Until(t, i, NotSpace) == i + Spaces(rest)
  {
    StandsAt(t, i, [], rest);
    if rest[0] == ' ' {
      assert t[i + 1] == t[i..][1];
      assert t[i + 1] == rest[1] && StopsAt(t, i + 1, NotSpace);
      assert Until(t, i, NotSpace) == Until(t, i + 1, NotSpace);
    } else {
      assert StopsAt(t, i, NotSpace);
    }
  }

  lemma QuotesApart(t: string, i: nat, e: string, rest: string)
    requires Stands(t, i, ['"'], e + (['"'] + rest))
    ensures Stands(t, i + 1, e, ['"'] + rest) && Stands(t, i + 1 + |e| + 1, [], rest)
    ensures i + 1 + |e| < |t| && t[i] == '"' && t[i + 1..i + 1 + |e|] == e
  {
    var end := i + 1 + |e|;
    StandsAt(t, i, ['"'], e + (['"'] + rest));
    StandsNext(t, i, ['"'], e, ['"'] + rest);
    StandsAt(t, i + 1, e, ['"'] + rest);
    StandsNext(t, i + 1, e, ['"'], rest);
    assert [] + rest == rest;
    StandsNext(t, end, ['"'], [], rest);
  }

  lemma ValueRead(t: string, i: nat, v: string, rest: string) returns (at: (nat, nat, nat))
    requires Stands(t, i, ['"'], Escaped(v) + (['"'] + rest)) && IsPlain(v) && IsBehind(rest)
    ensures ValueAt(t, i) == Some(at) && Unescaped(t[at.0..at.1]) == v
    ensures at.2 == i + |Escaped(v)| + 2 + Spaces(rest)
  {
    var end := i + 1 + |Escaped(v)|;
    QuotesApart(t, i, Escaped(v), rest);
    QuoteFound(t, i + 1, v, rest);
    SpaceSkipped(t, end + 1, rest);
    UnescapedEscaped(v);
    QuotedValueAt(t, i, end);
    at := (i + 1, end, end + 1 + Spaces(rest));
  }

  lemma QuotedValueAt(t: string, i: nat, end: nat)
    requires i < |t| && t[i] == '"' && Until(t, i + 1, Quote) == end < |t|
    ensures ValueAt(t, i) == Some((i + 1, end, Until(t, end + 1, NotSpace)))
  {
    assert StopsAt(t, i, NotSpace);
  }

  lemma NameAloneRead(t: string, i: nat, name: string, rest: string)
    requires IsName(name) && IsBehind(rest) && Stands(t, i, name, rest)
    ensures PairAt(t, i) == Some((Pair(name, None), i + |name| + Spaces(rest)))
  {
    NameRead(t, i, name, rest);
    StandsAt(t, i, name, rest);
    AfterName(t, i, name, rest);
  }

  lemma PairRead(t: string, i: nat, pair: Pair, rest: string)
    requires IsName(pair.name) && EndsPlainly(pair) && IsBehind(rest) && Stands(t, i, ShowPair(pair), rest)
    ensures PairAt(t, i) == Some((pair, i + |ShowPair(pair)| + Spaces(rest)))
  {
    match pair.value
    case None =>
      assert ShowPair(pair) == pair.name;
      NameAloneRead(t, i, pair.name, rest);
    case Some(v) =>
      ShownPair(pair.name, v, rest);
      Regrouped(t, i, ShowPair(pair), rest, pair.name, ['='] + (['"'] + (Escaped(v) + (['"'] + rest))));
      ValuePairRead(t, i, pair.name, v, rest);
  }

  lemma ShownPair(name: string, v: string, rest: string)
    ensures ShowPair(Pair(name, Some(v))) + rest == name + (['='] + (['"'] + (Escaped(v) + (['"'] + rest))))
    ensures |ShowPair(Pair(name, Some(v)))| == |name| + |Escaped(v)| + 3
  {
  }

  lemma ValuePairRead(t: string, i: nat, name: string, v: string, rest: string)
    requires IsName(name) && IsPlain(v) && IsBehind(rest)
    requires Stands(t, i, name, ['='] + (['"'] + (Escaped(v) + (['"'] + rest))))
    ensures PairAt(t, i) == Some((Pair(name, Some(v)), i + |name| + |Escaped(v)| + 3 + Spaces(rest)))
  {
    var n := i + |name|;
    ValueStands(t, i, name, Escaped(v) + (['"'] + rest));
    var at := ValueRead(t, n + 1, v, rest);
    NamedValueRead(t, i, n, name, v, at);
  }

  lemma NamedValueRead(t: string, i: nat, n: nat, name: string, v: string, at: (nat, nat, nat))
    requires i < n < |t| && NameAt(t, i) == (i, n, n) && t[i..n] == name && t[n] == '='
    requires ValueAt(t, n + 1) == Some(at) && Unescaped(t[at.0..at.1]) == v
    ensures PairAt(t, i) == Some((Pair(name, Some(v)), at.2))
  {
  }

  lemma AfterName(t: string, i: nat, name: string, rest: string)
    requires Stands(t, i, name, rest) && IsBehind(rest)
    ensures var v := i + |name| + Spaces(rest); v < |t| && t[v] == rest[Spaces(rest)]
    ensures rest[0] == ' ' ==> t[i + |name| + 1] == rest[1]
  {
    StandsAt(t, i, name, rest);
    assert rest[0] == ' ' ==> t[i + |name|..][1] == rest[1];
  }

  lemma ValueStands(t: string, i: nat, name: string, tail: string)
    requires IsName(name) && Stands(t, i, name, ['='] + (['"'] + tail))
    ensures var n := i + |name|;
      && NameAt(t, i) == (i, n, n) && n < |t| && t[n] == '=' && t[i..n] == name
      && Stands(t, n + 1, ['"'], tail)
  {
    NameRead(t, i, name, ['='] + (['"'] + tail));
    StandsAt(t, i, name, ['='] + (['"'] + tail));
    StandsNext(t, i, name, ['='], ['"'] + tail);
    StandsNext(t, i + |name|, ['='], ['"'], tail);
  }

  lemma PairMisread(t: string, i: nat, name: string, v: string, rest: string)
    requires IsName(name) && !IsPlain(v)
    requires Stands(t, i, name, ['='] + (['"'] + (Escaped(v) + (['"'] + rest))))
    ensures PairAt(t, i) == None || PairAt(t, i).value.0 != Pair(name, Some(v))
  {
    var n := i + |name|;
    ValueStands(t, i, name, Escaped(v) + (['"'] + rest));
    var at := ValueMisread(t, n + 1, v, rest);
    if at.Some? {
      assert PairAt(t, i) == WithValue(t, t[i..n], n);
    }
  }

  lemma ValueMisread(t: string, i: nat, v: string, rest: string) returns (at: Option<(nat, nat, nat)>)
    requires !IsPlain(v) && Stands(t, i, ['"'], Escaped(v) + (['"'] + rest))
    ensures i <= |t| && at == ValueAt(t, i)
    ensures at.Some? ==> at.value.0 <= at.value.1 <= |t| && Unescaped(t[at.value.0..at.value.1]) != v
  {
    QuotesApart(t, i, Escaped(v), rest);
    QuoteFound(t, i + 1, v, rest);
    var q := Until(t, i + 1, Quote);
    at := ValueAt(t, i);
    assert StopsAt(t, i, NotSpace);
    if q < |t| {
      QuotedValueAt(t, i, q);
      ValueTooLong(t, i + 1, q, v, rest);
    }
  }

  lemma ValueTooLong(t: string, i: nat, q: nat, v: string, rest: string)
    requires Stands(t, i, Escaped(v), ['"'] + rest) && !IsPlain(v) && i + |Escaped(v)| < q <= |t|
    ensures Unescaped(t[i..q]) != v
  {
    var e := i + |Escaped(v)|;
    StandsAt(t, i, Escaped(v), ['"'] + rest);
    var more := t[e + 1..q];
    assert t[i..q] == t[i..e] + ([t[e]] + more);
    QuoteIsTakenIn(v, more);
  }

  // What follows the first of some tokens.
  function Behind(pairs: seq<Pair>): (rest: string)
    requires pairs != []
  {
    (if |pairs| > 1 then [' '] else []) + ShowFrom(pairs[1..])
  }

  lemma ShownFirst(pairs: seq<Pair>)
    requires pairs != [] && HaveNames(pairs)
    ensures ShowFrom(pairs) == ShowPair(pairs[0]) + Behind(pairs) && IsBehind(Behind(pairs))
    ensures ShowPair(pairs[0]) != [] && IsNameChar(ShowPair(pairs[0])[0])
  {
    assert IsName(pairs[0].name) && ShowPair(pairs[0])[0] == pairs[0].name[0];
    if |pairs| > 1 {
      var more := pairs[1..];
      assert more[0] == pairs[1] && IsName(pairs[1].name);
      assert ShowFrom(more)[0] == pairs[1].name[0];
    } else {
      assert pairs[1..] == [];
    }
  }

  lemma FirstShown(t: string, i: nat, pairs: seq<Pair>)
    requires pairs != [] && HaveNames(pairs) && Stands(t, i, ShowFrom(pairs), [])
    ensures Stands(t, i, ShowPair(pairs[0]), Behind(pairs)) && IsBehind(Behind(pairs))
    ensures i < |t| && t[i] != ']'
    ensures Stands(t, i + |ShowPair(pairs[0])| + Spaces(Behind(pairs)), ShowFrom(pairs[1..]), [])
  {
    ShownFirst(pairs);
    SpaceBehind(pairs);
    ShownApart(t, i, ShowFrom(pairs), ShowPair(pairs[0]), Behind(pairs), if |pairs| > 1 then [' '] else [],
      ShowFrom(pairs[1..]));
  }

  lemma ShownApart(t: string, i: nat, whole: string, a: string, rest: string, gap: string, more: string)
    requires Stands(t, i, whole, []) && whole == a + rest && rest == gap + more && a != []
    ensures Stands(t, i, a, rest) && i < |t| && t[i] == a[0]
    ensures Stands(t, i + |a| + |gap|, more, [])
  {
    assert whole + [] == a + rest;
    Regrouped(t, i, whole, [], a, rest);
    FirstCharacter(t, i, a, rest);
    RestShown(t, i, a, gap, more);
  }

  lemma SpaceBehind(pairs: seq<Pair>)
    requires pairs != [] && HaveNames(pairs)
    ensures Behind(pairs) != [] && Spaces(Behind(pairs)) == if |pairs| > 1 then 1 else 0
  {
    ShownFirst(pairs);
    if |pairs| == 1 { assert pairs[1..] == []; }
  }

  lemma FirstCharacter(t: string, i: nat, a: string, rest: string)
    requires Stands(t, i, a, rest) && a != []
    ensures i < |t| && t[i] == a[0]
  {
    StandsAt(t, i, a, rest);
    assert t[i + 0] == a[0];
  }

  lemma RestShown(t: string, i: nat, a: string, gap: string, more: string)
    requires Stands(t, i, a, gap + more)
    ensures Stands(t, i + |a| + |gap|, more, [])
  {
    assert more + [] == more;
    StandsNext(t, i, a, gap, more);
    StandsNext(t, i + |a|, gap, more, []);
  }

  lemma FirstMisread(t: string, i: nat, pairs: seq<Pair>)
    requires pairs != [] && HaveNames(pairs) && Stands(t, i, ShowFrom(pairs), []) && !EndsPlainly(pairs[0])
    ensures i <= |t| && PairsFrom(t, i) != Parsed(pairs, |t|)
  {
    var p := pairs[0];
    var v := p.value.value;
    FirstShown(t, i, pairs);
    ShownPair(p.name, v, Behind(pairs));
    Regrouped(t, i, ShowPair(p), Behind(pairs), p.name, ['='] + (['"'] + (Escaped(v) + (['"'] + Behind(pairs)))));
    PairMisread(t, i, p.name, v, Behind(pairs));
  }

  ghost predicate ReadsIff(t: string, i: nat, pairs: seq<Pair>) {
    i <= |t| && (PairsFrom(t, i) == Parsed(pairs, |t|) <==> AllEndPlainly(pairs))
  }

  lemma FirstRead(t: string, i: nat, pairs: seq<Pair>, next: nat)
    requires pairs != [] && i < |t| && t[i] != ']' && EndsPlainly(pairs[0])
    requires PairAt(t, i) == Some((pairs[0], next)) && ReadsIff(t, next, pairs[1..])
    ensures ReadsIff(t, i, pairs)
  {
    RestReadIff(t, pairs, PairsFrom(t, next));
  }

  lemma {:induction false} PairsReadIff(t: string, i: nat, pairs: seq<Pair>)
    requires HaveNames(pairs) && Stands(t, i, ShowFrom(pairs), [])
    ensures ReadsIff(t, i, pairs)
    decreases |pairs|
  {
    if pairs == [] {
      StandsAt(t, i, [']'], []);
      assert t[i + 0] == [']'][0];
    } else if EndsPlainly(pairs[0]) {
      var next := i + |ShowPair(pairs[0])| + Spaces(Behind(pairs));
      FirstShown(t, i, pairs);
      PairRead(t, i, pairs[0], Behind(pairs));
      PairsReadIff(t, next, pairs[1..]);
      FirstRead(t, i, pairs, next);
    } else {
      FirstMisread(t, i, pairs);
    }
  }

  lemma RestReadIff(t: string, pairs: seq<Pair>, rest: Parsed)
    requires pairs != [] && EndsPlainly(pairs[0])
    ensures AllEndPlainly(pairs) <==> AllEndPlainly(pairs[1..])
    ensures InFront(pairs[0], rest) == Parsed(pairs, |t|) <==> rest == Parsed(pairs[1..], |t|)
  {
    var more := pairs[1..];
    assert forall k :: 0 < k < |pairs| ==> pairs[k] == more[k - 1];
    assert pairs == [pairs[0]] + more;
    if rest.Parsed? && [pairs[0]] + rest.pairs == pairs {
      assert rest.pairs == ([pairs[0]] + rest.pairs)[1..];
    }
  }

  predicate AllEndPlainly(pairs: seq<Pair>) {
    forall k :: 0 <= k < |pairs| ==> EndsPlainly(pairs[k])
  }

  // Criteria that are written with their values in quotes, and a backslash in front
  // of each quote in a value, are read back if and only if no value ends in a
  // backslash.
  lemma ReadBackIff(pairs: seq<Pair>)
    requires HaveNames(pairs)
    ensures Parse(Show(pairs)) == Parsed(pairs, |Show(pairs)|) <==> AllEndPlainly(pairs)
  {
    var t := Show(pairs);
    assert t[1..] == ShowFrom(pairs) + [];
    StandsIf(t, 1, ShowFrom(pairs), []);
    PairsReadIff(t, 1, pairs);
  }

  // ---- Values without quotes ----

  // A value that may stand without quotes as it is.
  predicate IsBare(v: string) {
    v != [] && v[0] != '"' && forall i :: 0 <= i < |v| ==> v[i] !in " ]\\"
  }

  lemma {:induction false} NothingUnescaped(v: string)
    requires '\\' !in v
    ensures Unescaped(v) == v
  {
    if v != [] { NothingUnescaped(v[1..]); }
  }

  lemma BareReaches(t: string, i: nat, v: string, rest: string)
    requires IsBare(v) && IsBehind(rest) && Stands(t, i, v, rest)
    ensures var e := i + |v|;
      i < e < |t| && t[i] != '"' && Until(t, i, NotSpace) == i && Until(t, i, Bare) == e && t[i..e] == v
  {
    var e := i + |v|;
    StandsAt(t, i, v, rest);
    assert t[i + 0] == v[0] && StopsAt(t, i, NotSpace);
    forall k | i <= k < e
      ensures !StopsAt(t, k, Bare)
    {
      assert t[i + (k - i)] == v[k - i];
    }
    UntilSkips(t, i, e, Bare);
    assert StopsAt(t, e, Bare);
  }

  lemma NothingBetween(t: string, i: nat, v: string, rest: string)
    requires Stands(t, i, v, rest)
    ensures Stands(t, i + |v|, [], rest)
  {
    StandsAt(t, i, v, rest);
    assert [] + rest == rest;
    StandsIf(t, i + |v|, [], rest);
  }

  lemma BareIsKept(v: string)
    requires IsBare(v)
    ensures Unescaped(v) == v
  {
    NothingUnescaped(v);
  }

  lemma BareValueFound(t: string, i: nat, v: string, rest: string)
    requires IsBare(v) && IsBehind(rest) && Stands(t, i, v, rest)
    ensures ValueAt(t, i) == Some((i, i + |v|, i + |v| + Spaces(rest))) && t[i..i + |v|] == v
  {
    BareReaches(t, i, v, rest);
    NothingBetween(t, i, v, rest);
    SpaceSkipped(t, i + |v|, rest);
  }

  lemma EqualsStands(t: string, i: nat, name: string, v: string, rest: string)
    requires IsName(name) && Stands(t, i, name, ['='] + (v + rest))
    ensures var n := i + |name|;
      && i < n < |t| && NameAt(t, i) == (i, n, n) && t[n] == '=' && t[i..n] == name
      && Stands(t, n + 1, v, rest)
  {
    var tail := ['='] + (v + rest);
    NameRead(t, i, name, tail);
    StandsAt(t, i, name, tail);
    StandsNext(t, i, name, ['='], v + rest);
    StandsNext(t, i + |name|, ['='], v, rest);
  }

  // A value without quotes reaches up to the next space or bracket.
  lemma BarePairRead(t: string, i: nat, name: string, v: string, rest: string)
    requires IsName(name) && IsBare(v) && IsBehind(rest) && Stands(t, i, name, ['='] + (v + rest))
    ensures PairAt(t, i) == Some((Pair(name, Some(v)), i + |name| + 1 + |v| + Spaces(rest)))
  {
    var n := i + |name|;
    EqualsStands(t, i, name, v, rest);
    BareValueFound(t, n + 1, v, rest);
    BareIsKept(v);
    NamedValueRead(t, i, n, name, v, (n + 1, n + 1 + |v|, n + 1 + |v| + Spaces(rest)));
  }

  lemma BareCriteria(name: string, v: string)
    requires IsName(name) && IsBare(v)
    ensures var t := ['['] + (name + (['='] + (v + [']']))); Parse(t) == Parsed([Pair(name, Some(v))], |t|)
  {
    var t := ['['] + (name + (['='] + (v + [']'])));
    assert t[1..] == name + (['='] + (v + [']']));
    StandsIf(t, 1, name, ['='] + (v + [']']));
    BarePairRead(t, 1, name, v, [']']);
    OnePairRead(t, Pair(name, Some(v)));
  }

  lemma OnePairRead(t: string, pair: Pair)
    requires |t| > 2 && t[0] == '[' && t[1] != ']' && t[|t| - 1] == ']' && PairAt(t, 1) == Some((pair, |t| - 1))
    ensures Parse(t) == Parsed([pair], |t|)
  {
    assert PairsFrom(t, |t| - 1) == Parsed([], |t|);
    assert [pair] + [] == [pair];
  }
}
