// sway/config.c and sway/commands/set.c: the table of configuration variables
// and their substitution in command lines.
module Variables {
  import opened Sequences
  import opened Wrappers

  datatype Variable = Variable(name: string, value: string)

  // Names begin with a dollar sign, which the set command insists on.
  ghost predicate ProperNames(symbols: seq<Variable>) {
    forall v :: v in symbols ==> v.name != [] && v.name[0] == '$'
  }

  // The first variable whose name the text begins with.
  function Match(symbols: seq<Variable>, text: string): (v: Option<Variable>)
    ensures v.Some? ==> v.value in symbols && v.value.name <= text
    ensures v.None? ==> forall w :: w in symbols ==> !(w.name <= text)
  {
    if symbols == [] then None
    else if symbols[0].name <= text then Some(symbols[0])
    else Match(symbols[1..], text)
  }

  // Whether a dollar sign behind this text counts as escaped: there is exactly
  // one backslash in front of it, or the second one before is not a backslash.
  predicate Escaped(done: string) {
    var n := |done|;
    n > 0 && done[n - 1] == '\\' && (n == 1 || done[n - 2] != '\\')
  }

  // Substitution as one pass: `rest` is read from left to right, `done` is only
  // ever appended to.  A backslash keeps the dollar sign behind it, two dollar
  // signs make one, a known name is replaced by its value.
  function Expand(done: string, rest: string, symbols: seq<Variable>): (r: string)
    requires ProperNames(symbols)
    decreases |rest|
  {
    if rest == [] then done
    else if rest[0] != '$' || Escaped(done) then Expand(done + [rest[0]], rest[1..], symbols)
    else if |rest| > 1 && rest[1] == '$' then Expand(done + ['$'], rest[2..], symbols)
    else match Match(symbols, rest)
      case Some(v) => Expand(done + v.value, rest[|v.name|..], symbols)
      case None => Expand(done + ['$'], rest[1..], symbols)
  }

  // The substitution loop, which edits the string in place behind a cursor.
  method DoVarReplacement(s: string, symbols: seq<Variable>) returns (str: string)
    requires ProperNames(symbols)
    ensures str == Expand([], s, symbols)
  {
    str := s;
    var find := 0;
    ghost var goal := Expand([], s, symbols);
    assert s[..0] == [] && s[0..] == s;
    while true
      invariant 0 <= find <= |str|
      invariant Expand(str[..find], str[find..], symbols) == goal
      decreases |str| - find
    {
      find := StrChr(str, find, symbols);
      if find == |str| {
        break;
      }
      CutBehind(str, find);
      if find > 0 && str[find - 1] == '\\' {
        if find == 1 || !(find > 1 && str[find - 2] == '\\') {
          find := find + 1;
          continue;
        }
      }
      if find + 1 < |str| && str[find + 1] == '$' {
        str := Unescape(str, find);
        find := find + 1;
        continue;
      }
      var i := FindVariable(symbols, str, find);
      if i < |symbols| {
        str, find := Replace(str, find, symbols[i]);
      } else {
        find := find + 1;
      }
    }
    assert str[..|str|] == str && str[|str|..] == [];
  }

  lemma CutBehind(str: string, find: nat)
    requires find < |str|
    ensures str[..find + 1] == str[..find] + [str[find]] && str[find + 1..] == str[find..][1..]
  {
  }

  // Moves the text behind the first of two dollar signs over it.
  method Unescape(str: string, find: nat) returns (newstr: string)
    requires find + 1 < |str| && str[find + 1] == '$'
    ensures |newstr| == |str| - 1
    ensures newstr[..find + 1] == str[..find] + ['$'] && newstr[find + 1..] == str[find..][2..]
  {
    newstr := str[..find] + str[find + 1..];
  }

  // The text with the name at the cursor replaced, and the cursor behind the
  // value.
  method Replace(str: string, find: nat, v: Variable) returns (newstr: string, next: nat)
    requires find <= |str| && v.name <= str[find..]
    ensures |newstr| - next == |str| - find - |v.name| && next <= |newstr|
    ensures newstr[..next] == str[..find] + v.value && newstr[next..] == str[find..][|v.name|..]
  {
    newstr := str[..find] + v.value + str[find + |v.name|..];
    next := find + |v.value|;
  }

  // The next dollar sign, or the end of the string.
  method StrChr(str: string, from: nat, ghost symbols: seq<Variable>) returns (find: nat)
    requires from <= |str| && ProperNames(symbols)
    ensures from <= find <= |str| && (find < |str| ==> str[find] == '$')
    ensures Expand(str[..find], str[find..], symbols) == Expand(str[..from], str[from..], symbols)
  {
    find := from;
    while find < |str| && str[find] != '$'
      invariant from <= find <= |str|
      invariant Expand(str[..find], str[find..], symbols) == Expand(str[..from], str[from..], symbols)
    {
      assert str[..find + 1] == str[..find] + [str[find]] && str[find + 1..] == str[find..][1..];
      find := find + 1;
    }
  }

  // The index of the first variable whose name stands at the cursor, or the
  // length of the table.
  method FindVariable(symbols: seq<Variable>, str: string, find: nat) returns (i: nat)
    requires find <= |str|
    ensures i <= |symbols|
    ensures i < |symbols| ==> Match(symbols, str[find..]) == Some(symbols[i])
    ensures i == |symbols| ==> Match(symbols, str[find..]) == None
  {
    i := 0;
    assert symbols[0..] == symbols;
    while i < |symbols|
      invariant i <= |symbols|
      invariant Match(symbols[i..], str[find..]) == Match(symbols, str[find..])
    {
      if symbols[i].name <= str[find..] {
        return;
      }
      assert symbols[i..][1..] == symbols[i + 1..];
      i := i + 1;
    }
  }

  // What has been written is never changed: names in an inserted value are not
  // replaced, not even its own.  Only the check for an escape looks back at it.
  lemma {:induction false} WrittenStays(done: string, rest: string, symbols: seq<Variable>)
    requires ProperNames(symbols)
    ensures done <= Expand(done, rest, symbols)
    decreases |rest|
  {
    if rest == [] {
    } else if rest[0] != '$' || Escaped(done) {
      WrittenStays(done + [rest[0]], rest[1..], symbols);
    } else if |rest| > 1 && rest[1] == '$' {
      WrittenStays(done + ['$'], rest[2..], symbols);
    } else {
      match Match(symbols, rest)
      case Some(v) => WrittenStays(done + v.value, rest[|v.name|..], symbols);
      case None => WrittenStays(done + ['$'], rest[1..], symbols);
    }
  }

  lemma {:induction false} PlainTextIsCopied(done: string, plain: string, rest: string, symbols: seq<Variable>)
    requires ProperNames(symbols) && '$' !in plain
    ensures Expand(done, plain + rest, symbols) == Expand(done + plain, rest, symbols)
    decreases |plain|
  {
    if plain == [] {
      assert plain + rest == rest && done + plain == done;
    } else {
      assert (plain + rest)[0] == plain[0] && (plain + rest)[1..] == plain[1..] + rest;
      PlainTextIsCopied(done + [plain[0]], plain[1..], rest, symbols);
      assert done + [plain[0]] + plain[1..] == done + plain;
    }
  }

  lemma NothingToReplace(s: string, symbols: seq<Variable>)
    requires ProperNames(symbols) && '$' !in s
    ensures Expand([], s, symbols) == s
  {
    PlainTextIsCopied([], s, [], symbols);
    assert s + [] == s && [] + s == s;
  }

  // Substitution brings in characters of the values only.
  lemma {:induction false} ExpandMember(done: string, rest: string, symbols: seq<Variable>, c: char)
    requires ProperNames(symbols) && c != '$' && c !in done && c !in rest
    requires forall v :: v in symbols ==> c !in v.value
    ensures c !in Expand(done, rest, symbols)
    decreases |rest|
  {
    if rest == [] {
    } else if rest[0] != '$' || Escaped(done) {
      ExpandMember(done + [rest[0]], rest[1..], symbols, c);
    } else if |rest| > 1 && rest[1] == '$' {
      ExpandMember(done + ['$'], rest[2..], symbols, c);
    } else {
      match Match(symbols, rest)
      case Some(v) => ExpandMember(done + v.value, rest[|v.name|..], symbols, c);
      case None => ExpandMember(done + ['$'], rest[1..], symbols, c);
    }
  }

  // A value goes into the result as it is, and the pass goes on behind the name
  // it replaces.
  lemma ValueIsInsertedVerbatim(plain: string, v: Variable, rest: string, symbols: seq<Variable>)
    requires ProperNames(symbols) && '$' !in plain && !Escaped(plain)
    requires Match(symbols, v.name + rest) == Some(v)
    requires |v.name + rest| > 1 ==> (v.name + rest)[1] != '$'
    ensures Expand([], plain + (v.name + rest), symbols) == Expand(plain + v.value, rest, symbols)
    ensures plain + v.value <= Expand([], plain + (v.name + rest), symbols)
  {
    PlainTextIsCopied([], plain, v.name + rest, symbols);
    assert [] + plain == plain;
    assert (v.name + rest)[|v.name|..] == rest;
    WrittenStays(plain + v.value, rest, symbols);
  }

  // ---- What the text behind a value depends on ----

  // Whether a text says nothing about a dollar sign behind it.
  predicate EndsPlainly(done: string) {
    done == [] || done[|done| - 1] != '\\'
  }

  lemma EscapedBehind(d: string, done: string)
    requires EndsPlainly(d)
    ensures Escaped(d + done) == Escaped(done)
  {
  }

  lemma {:induction false} ContextDropped(d: string, done: string, rest: string, symbols: seq<Variable>)
    requires ProperNames(symbols) && EndsPlainly(d)
    ensures Expand(d + done, rest, symbols) == d + Expand(done, rest, symbols)
    decreases |rest|
  {
    EscapedBehind(d, done);
    if rest == [] {
    } else if rest[0] != '$' || Escaped(done) {
      ContextDropped(d, done + [rest[0]], rest[1..], symbols);
      assert d + done + [rest[0]] == d + (done + [rest[0]]);
    } else if |rest| > 1 && rest[1] == '$' {
      ContextDropped(d, done + ['$'], rest[2..], symbols);
      assert d + done + ['$'] == d + (done + ['$']);
    } else {
      match Match(symbols, rest)
      case Some(v) =>
        ContextDropped(d, done + v.value, rest[|v.name|..], symbols);
        assert d + done + v.value == d + (done + v.value);
      case None =>
        ContextDropped(d, done + ['$'], rest[1..], symbols);
        assert d + done + ['$'] == d + (done + ['$']);
    }
  }

  // The text behind what has been written is expanded as if it stood alone,
  // whatever it is and whatever the variables are, if and only if what has been
  // written does not end in a backslash.
  lemma ContextIsForgottenIff(done: string)
    ensures
      (forall rest, symbols ::
         ProperNames(symbols) ==> Expand(done, rest, symbols) == done + Expand([], rest, symbols))
      <==> EndsPlainly(done)
  {
    if EndsPlainly(done) {
      forall rest, symbols | ProperNames(symbols)
        ensures Expand(done, rest, symbols) == done + Expand([], rest, symbols)
      {
        ContextDropped(done, [], rest, symbols);
        assert done + [] == done;
      }
    } else {
      BackslashReachesOut(done);
    }
  }

  lemma BackslashReachesOut(done: string)
    requires !EndsPlainly(done)
    ensures exists rest, symbols ::
      ProperNames(symbols) && Expand(done, rest, symbols) != done + Expand([], rest, symbols)
  {
    var symbols := [Variable("$b", "y")];
    var name := "$b";
    assert name[2..] == [] && name[1..] == "b";
    assert Match(symbols, name) == Some(symbols[0]);
    if Escaped(done) {
      assert Expand(done, name, symbols) == Expand(done + ['$'], "b", symbols) == done + ['$'] + ['b'];
      assert Expand([], name, symbols) == [] + "y";
      assert |Expand(done, name, symbols)| != |done + Expand([], name, symbols)|;
    } else {
      var rest := "\\$b";
      assert rest[1..] == name;
      assert Expand(done, rest, symbols) == Expand(done + ['\\'], name, symbols) == done + ['\\'] + "y";
      assert Expand([], rest, symbols) == Expand([] + ['\\'], name, symbols);
      assert Expand([] + ['\\'], name, symbols) == Expand([] + ['\\'] + ['$'], "b", symbols);
      assert Expand([] + ['\\'] + ['$'], "b", symbols) == [] + ['\\'] + ['$'] + ['b'];
      assert |Expand(done, rest, symbols)| != |done + Expand([], rest, symbols)|;
    }
  }

  // A value that ends in a backslash keeps the variable behind it from being
  // replaced.
  lemma ValueEscapesNextName()
    ensures var symbols := [Variable("$a", "x\\"), Variable("$b", "y")];
      ProperNames(symbols) && Expand([], "$b", symbols) == "y" && Expand([], "$a$b", symbols) == "x\\$b"
  {
    var a, b := Variable("$a", "x\\"), Variable("$b", "y");
    var symbols, ab, name, done: string := [a, b], "$a$b", "$b", "x\\";
    assert ab[2..] == name && name[1..] == ['b'] && name[2..] == [] && [b][0] == b && symbols[1..] == [b];
    assert a.name == ab[..2] && a.name <= ab && b.name <= name;
    assert !(a.name <= name) by { assert a.name[1] != name[1]; }
    assert Match([b], name) == Some(b) && Match(symbols, name) == Match([b], name);
    assert Expand([], ab, symbols) == Expand([] + done, name, symbols) && [] + done == done;
    assert Expand(done, name, symbols) == Expand(done + ['$'], ['b'], symbols);
    assert Expand(done + ['$'], ['b'], symbols) == done + ['$'] + ['b'] == "x\\$b";
    assert Expand([], name, symbols) == Expand([] + b.value, [], symbols);
  }

  // Substitution that decides what is escaped by the text of the line alone: an
  // inserted value leaves no trace.
  function ExpandApart(context: string, rest: string, symbols: seq<Variable>): (r: string)
    requires ProperNames(symbols)
    decreases |rest|
  {
    if rest == [] then []
    else if rest[0] != '$' || Escaped(context) then [rest[0]] + ExpandApart(context + [rest[0]], rest[1..], symbols)
    else if |rest| > 1 && rest[1] == '$' then ['$'] + ExpandApart(context + ['$'], rest[2..], symbols)
    else match Match(symbols, rest)
      case Some(v) => v.value + ExpandApart(if v.value == [] then context else [], rest[|v.name|..], symbols)
      case None => ['$'] + ExpandApart(context + ['$'], rest[1..], symbols)
  }

  lemma {:induction false} PlainValuesAreApart(context: string, rest: string, symbols: seq<Variable>)
    requires ProperNames(symbols) && forall v :: v in symbols ==> EndsPlainly(v.value)
    ensures Expand(context, rest, symbols) == context + ExpandApart(context, rest, symbols)
    decreases |rest|, 0
  {
    if rest == [] {
    } else if rest[0] != '$' || Escaped(context) {
      PlainValuesAreApart(context + [rest[0]], rest[1..], symbols);
      Associative(context, [rest[0]], ExpandApart(context + [rest[0]], rest[1..], symbols));
    } else if |rest| > 1 && rest[1] == '$' {
      PlainValuesAreApart(context + ['$'], rest[2..], symbols);
      Associative(context, ['$'], ExpandApart(context + ['$'], rest[2..], symbols));
    } else {
      match Match(symbols, rest)
      case Some(v) => ValueIsApart(context, v.value, rest[|v.name|..], symbols);
      case None =>
        PlainValuesAreApart(context + ['$'], rest[1..], symbols);
        Associative(context, ['$'], ExpandApart(context + ['$'], rest[1..], symbols));
    }
  }

  lemma {:induction false} ValueIsApart(context: string, value: string, rest: string, symbols: seq<Variable>)
    requires ProperNames(symbols) && EndsPlainly(value) && forall v :: v in symbols ==> EndsPlainly(v.value)
    ensures Expand(context + value, rest, symbols) ==
      context + (value + ExpandApart(if value == [] then context else [], rest, symbols))
    decreases |rest|, 1
  {
    if value == [] {
      PlainValuesAreApart(context, rest, symbols);
      var apart := ExpandApart(context, rest, symbols);
      assert context + value == context && value + apart == apart;
    } else {
      var apart := ExpandApart([], rest, symbols);
      PlainValuesAreApart([], rest, symbols);
      ContextDropped(context + value, [], rest, symbols);
      assert context + value + [] == context + value && [] + apart == apart;
      Associative(context, value, apart);
    }
  }

  // If no value ends in a backslash, no value has an effect on the text behind it.
  lemma ValuesAreInert(s: string, symbols: seq<Variable>)
    requires ProperNames(symbols) && forall v :: v in symbols ==> EndsPlainly(v.value)
    ensures Expand([], s, symbols) == ExpandApart([], s, symbols)
  {
    PlainValuesAreApart([], s, symbols);
    assert [] + ExpandApart([], s, symbols) == ExpandApart([], s, symbols);
  }

  // Every dollar sign twice, which is how a text is protected.
  function Doubled(s: string): (r: string) {
    if s == [] then []
    else (if s[0] == '$' then ['$', '$'] else [s[0]]) + Doubled(s[1..])
  }

  // No dollar sign of s counts as escaped when s is written behind done.
  ghost predicate NoEscapedDollar(done: string, s: string) {
    forall i :: 0 <= i < |s| && s[i] == '$' ==> !Escaped(done + s[..i])
  }

  lemma {:induction false} DoublingProtects(done: string, s: string, symbols: seq<Variable>)
    requires ProperNames(symbols) && NoEscapedDollar(done, s)
    ensures Expand(done, Doubled(s), symbols) == done + s
    decreases |s|
  {
    if s != [] {
      var d := Doubled(s);
      assert done + s[..0] == done;
      forall i | 0 <= i < |s[1..]| && s[1..][i] == '$' ensures !Escaped(done + [s[0]] + s[1..][..i]) {
        assert done + [s[0]] + s[1..][..i] == done + s[..i + 1];
      }
      DoublingProtects(done + [s[0]], s[1..], symbols);
      assert done + [s[0]] + s[1..] == done + s;
      if s[0] == '$' {
        assert d[0] == '$' && d[1] == '$' && d[2..] == Doubled(s[1..]);
      } else {
        assert d[1..] == Doubled(s[1..]);
      }
    } else {
      assert done + s == done;
    }
  }

  // Without variables a protected text never gets shorter, nor does one behind
  // a dollar sign left over from a pair whose first half was escaped.
  lemma {:induction false} DoublingNeverShortens(done: string, s: string)
    ensures |Expand(done, Doubled(s), [])| >= |done| + |s|
    decreases |s|, 0
  {
    if s != [] {
      var d := Doubled(s);
      if s[0] != '$' {
        assert d[1..] == Doubled(s[1..]);
        DoublingNeverShortens(done + [s[0]], s[1..]);
      } else if Escaped(done) {
        assert d[1..] == ['$'] + Doubled(s[1..]);
        OddDollarNeverShortens(done + ['$'], s[1..]);
      } else {
        assert d[2..] == Doubled(s[1..]);
        DoublingNeverShortens(done + ['$'], s[1..]);
      }
    }
  }

  lemma {:induction false} OddDollarNeverShortens(done: string, s: string)
    requires done != [] && done[|done| - 1] == '$'
    ensures |Expand(done, ['$'] + Doubled(s), [])| >= |done| + |s| + 1
    decreases |s|, 1
  {
    var d := ['$'] + Doubled(s);
    if s != [] && s[0] == '$' {
      assert d[1] == '$' && d[2..] == ['$'] + Doubled(s[1..]);
      OddDollarNeverShortens(done + ['$'], s[1..]);
    } else {
      assert |d| > 1 ==> d[1] == s[0];
      assert d[1..] == Doubled(s);
      DoublingNeverShortens(done + ['$'], s);
    }
  }

  lemma {:induction false} EscapedDollarGrows(done: string, s: string)
    requires !NoEscapedDollar(done, s)
    ensures |Expand(done, Doubled(s), [])| > |done| + |s|
    decreases |s|
  {
    var d := Doubled(s);
    assert done + s[..0] == done;
    if s[0] == '$' && Escaped(done) {
      assert d[1..] == ['$'] + Doubled(s[1..]);
      OddDollarNeverShortens(done + ['$'], s[1..]);
    } else {
      var i :| 0 <= i < |s| && s[i] == '$' && Escaped(done + s[..i]);
      assert done + [s[0]] + s[1..][..i - 1] == done + s[..i];
      EscapedDollarGrows(done + [s[0]], s[1..]);
      if s[0] == '$' {
        assert d[0] == '$' && d[1] == '$' && d[2..] == Doubled(s[1..]);
      } else {
        assert d[1..] == Doubled(s[1..]);
      }
    }
  }

  // Doubling protects a text against every table of variables exactly if none
  // of its dollar signs is escaped by a backslash in front of it.
  lemma DoublingProtectsIff(s: string)
    ensures (forall symbols :: ProperNames(symbols) ==> Expand([], Doubled(s), symbols) == s)
      <==> NoEscapedDollar([], s)
  {
    assert [] + s == s;
    if NoEscapedDollar([], s) {
      forall symbols | ProperNames(symbols) ensures Expand([], Doubled(s), symbols) == s {
        DoublingProtects([], s, symbols);
      }
    } else {
      EscapedDollarGrows([], s);
      assert ProperNames([]) && Expand([], Doubled(s), []) != s;
    }
  }

  // The table of a running configuration.  The set command keeps its names
  // distinct and sorts it from the longest to the shortest.
  class Symbols {
    var table: seq<Variable>

    ghost predicate Valid()
      reads this
    {
      Ordered(table)
    }

    constructor ()
      ensures Valid() && table == []
    {
      table := [];
    }

    // Defines a variable or gives it a new value.
    method Set(name: string, value: string) returns (ok: bool)
      requires Valid()
      modifies this
      ensures Valid()
      ensures ok <==> name != [] && name[0] == '$'
      ensures !ok ==> table == old(table)
      ensures ok ==> forall v :: v in table <==> v == Variable(name, value) || (v in old(table) && v.name != name)
    {
      if name == [] || name[0] != '$' {
        return false;
      }
      var i := 0;
      while i < |table|
        invariant 0 <= i <= |table|
        invariant forall j :: 0 <= j < i ==> table[j].name != name
      {
        if table[i].name == name {
          break;
        }
        i := i + 1;
      }
      if i < |table| {
        SetValueAt(table, i, value);
        table := table[i := Variable(name, value)];
      } else {
        InsertKeepsOrder(table, Variable(name, value));
        table := InsertByLength(table, Variable(name, value));
      }
      return true;
    }
  }

  ghost predicate Ordered(table: seq<Variable>) {
    && ProperNames(table)
    && (forall i, j :: 0 <= i < j < |table| ==> table[i].name != table[j].name)
    && (forall i, j :: 0 <= i < j < |table| ==> |table[i].name| >= |table[j].name|)
  }

  // Appending and sorting, in one of the orders qsort may choose for names of
  // equal length; MatchIgnoresTieOrder shows that the choice does not matter.
  function InsertByLength(table: seq<Variable>, v: Variable): (r: seq<Variable>)
    ensures |r| == |table| + 1
  {
    if table == [] || |table[0].name| < |v.name| then [v] + table
    else [table[0]] + InsertByLength(table[1..], v)
  }

  lemma {:induction false} InsertMembers(table: seq<Variable>, v: Variable)
    ensures forall w :: w in InsertByLength(table, v) <==> w == v || w in table
  {
    if !(table == [] || |table[0].name| < |v.name|) {
      InsertMembers(table[1..], v);
      assert table == [table[0]] + table[1..];
    }
  }

  lemma {:induction false} InsertKeepsOrder(table: seq<Variable>, v: Variable)
    requires Ordered(table) && v.name != [] && v.name[0] == '$'
    requires forall w :: w in table ==> w.name != v.name
    ensures Ordered(InsertByLength(table, v))
    ensures forall w :: w in InsertByLength(table, v) <==> w == v || w in table
  {
    InsertMembers(table, v);
    if table == [] || |table[0].name| < |v.name| {
      PrependKeepsOrder(v, table);
    } else {
      var rest := InsertByLength(table[1..], v);
      InsertKeepsOrder(table[1..], v);
      InsertMembers(table[1..], v);
      assert table[0] in table && forall w :: w in table[1..] ==> w in table;
      PrependKeepsOrder(table[0], rest);
    }
  }

  lemma PrependKeepsOrder(v: Variable, table: seq<Variable>)
    requires Ordered(table) && v.name != [] && v.name[0] == '$'
    requires forall w :: w in table ==> w.name != v.name && |w.name| <= |v.name|
    ensures Ordered([v] + table)
  {
  }

  lemma SetValueAt(table: seq<Variable>, i: nat, value: string)
    requires Ordered(table) && i < |table|
    ensures var r := table[i := Variable(table[i].name, value)];
      && Ordered(r)
      && forall v :: v in r <==> v == Variable(table[i].name, value) || (v in table && v.name != table[i].name)
  {
    var name := table[i].name;
    var r := table[i := Variable(name, value)];
    forall v | v in r ensures v == Variable(name, value) || (v in table && v.name != name) {
      var j :| 0 <= j < |r| && r[j] == v;
    }
    assert r[i] == Variable(name, value);
    forall v | v in table && v.name != name ensures v in r {
      var j :| 0 <= j < |table| && table[j] == v;
      assert r[j] == v;
    }
  }

  // In an ordered table the first match is the longest one.
  lemma {:induction false} MatchIsLongest(table: seq<Variable>, text: string)
    requires Ordered(table)
    ensures Match(table, text).Some? ==>
      forall w :: w in table && w.name <= text ==> |w.name| <= |Match(table, text).value.name|
  {
    if table != [] && !(table[0].name <= text) {
      MatchIsLongest(table[1..], text);
      assert table == [table[0]] + table[1..];
    }
  }

  // Two ordered tables with the same variables find the same match.
  lemma MatchIgnoresTieOrder(a: seq<Variable>, b: seq<Variable>, text: string)
    requires Ordered(a) && Ordered(b) && forall v :: v in a <==> v in b
    ensures Match(a, text) == Match(b, text)
  {
    MatchIsLongest(a, text);
    MatchIsLongest(b, text);
    if Match(a, text).Some? && Match(b, text).Some? {
      var v, w := Match(a, text).value, Match(b, text).value;
      assert |v.name| == |w.name| && v.name == text[..|v.name|] && w.name == text[..|w.name|];
    }
  }

  // So the order in which an unstable sort leaves names of equal length has no
  // effect on any substitution.
  lemma {:induction false} ExpandIgnoresTieOrder(done: string, rest: string, a: seq<Variable>, b: seq<Variable>)
    requires Ordered(a) && Ordered(b) && forall v :: v in a <==> v in b
    ensures Expand(done, rest, a) == Expand(done, rest, b)
    decreases |rest|
  {
    if rest == [] {
    } else if rest[0] != '$' || Escaped(done) {
      ExpandIgnoresTieOrder(done + [rest[0]], rest[1..], a, b);
    } else if |rest| > 1 && rest[1] == '$' {
      ExpandIgnoresTieOrder(done + ['$'], rest[2..], a, b);
    } else {
      MatchIgnoresTieOrder(a, b, rest);
      match Match(a, rest)
      case Some(v) => ExpandIgnoresTieOrder(done + v.value, rest[|v.name|..], a, b);
      case None => ExpandIgnoresTieOrder(done + ['$'], rest[1..], a, b);
    }
  }
}
