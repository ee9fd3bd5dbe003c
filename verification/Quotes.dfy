// common/stringop.c: removing quotes and resolving escapes, in place.
module Quotes {
  import opened Memory
  import opened Readings
  import opened Sequences
  import opened Wrappers

  const NUL := '\0'

  // The buffer holds the text s as a C string.
  ghost predicate Holds(buf: array<char>, s: string)
    reads buf
  {
    && |s| < buf.Length
    && buf[..|s|] == s
    && buf[|s|] == NUL
    && NUL !in s
  }

  // The text without its quotes.  A quote inside quotes of the other kind or
  // behind a backslash stays, and so does every backslash.
  function Strip(s: string, inStr: bool, inChr: bool, escaped: bool): (r: string) {
    if s == [] then []
    else if s[0] == '\'' && !inStr && !escaped then Strip(s[1..], inStr, !inChr, false)
    else if s[0] == '"' && !inChr && !escaped then Strip(s[1..], !inStr, inChr, false)
    else [s[0]] + Strip(s[1..], inStr, inChr, s[0] == '\\' && !escaped)
  }

  function StripQuotes(s: string): (r: string) {
    Strip(s, false, false, false)
  }

  // What becomes of the text from k on.
  function StripAt(s: string, k: nat): (r: string)
    requires k <= |s|
  {
    Strip(s[k..], OpenQuote(s, k) == Some('"'), OpenQuote(s, k) == Some('\''), IsEscaped(s, k))
  }

  lemma StripOne(s: string, k: nat)
    requires k < |s|
    ensures StripAt(s, k) == (if Delimits(s, k) then [] else [s[k]]) + StripAt(s, k + 1)
  {
    var rest := s[k..];
    assert rest[0] == s[k] && rest[1..] == s[k + 1..];
    OnlyQuotesOpen(s, k);
  }

  lemma {:induction false} StripFrom(s: string, k: nat)
    requires k <= |s|
    ensures Bare(s, k) + StripAt(s, k) == Bare(s, |s|)
    decreases |s| - k
  {
    if k < |s| {
      StripOne(s, k);
      StripFrom(s, k + 1);
      Associative(Bare(s, k), if Delimits(s, k) then [] else [s[k]], StripAt(s, k + 1));
    } else {
      assert StripAt(s, k) == [];
    }
  }

  lemma StripWhole(s: string)
    ensures StripAt(s, 0) == StripQuotes(s)
  {
    assert s[0..] == s;
  }

  // Just the quotes that open or close a quotation are removed.
  lemma StripLaw(s: string)
    ensures StripQuotes(s) == Bare(s, |s|)
  {
    StripWhole(s);
    StripFrom(s, 0);
    assert [] + StripAt(s, 0) == StripAt(s, 0);
  }

  lemma {:induction false} StripKeepsNulOut(s: string, inStr: bool, inChr: bool, escaped: bool)
    requires NUL !in s
    ensures NUL !in Strip(s, inStr, inChr, escaped)
  {
    if s != [] {
      StripKeepsNulOut(s[1..], inStr, !inChr, false);
      StripKeepsNulOut(s[1..], !inStr, inChr, false);
      StripKeepsNulOut(s[1..], inStr, inChr, s[0] == '\\' && !escaped);
    }
  }

  // What happens to one character and to the flags.
  method StripStep(c: char, inStr: bool, inChr: bool, escaped: bool, ghost rest: string)
    returns (drop: bool, newInStr: bool, newInChr: bool, newEscaped: bool)
    requires rest != [] && rest[0] == c
    ensures Strip(rest, inStr, inChr, escaped) ==
      (if drop then [] else [c]) + Strip(rest[1..], newInStr, newInChr, newEscaped)
  {
    drop, newInStr, newInChr, newEscaped := false, inStr, inChr, escaped;
    if c == '\'' && !inStr && !escaped {
      newInChr := !inChr;
      drop := true;
    } else if c == '"' && !inChr && !escaped {
      newInStr := !inStr;
      drop := true;
    } else if c == '\\' {
      newEscaped := !escaped;
    } else {
      newEscaped := false;
    }
  }

  method StripQuotesInPlace(buf: array<char>, ghost s: string)
    requires Holds(buf, s)
    modifies buf
    ensures Holds(buf, StripQuotes(s))
  {
    var inStr, inChr, escaped := false, false, false;
    var end := StrLen(buf, s);
    var i := 0;
    ghost var goal := StripQuotes(s);
    assert buf[0..end] == s && buf[..0] == [];
    StripKeepsNulOut(s, false, false, false);
    while buf[i] != NUL
      invariant 0 <= i <= end < buf.Length
      invariant buf[end] == NUL && forall k :: i <= k < end ==> buf[k] != NUL
      invariant buf[..i] + Strip(buf[i..end], inStr, inChr, escaped) == goal
      decreases end - i
    {
      ghost var done, rest := buf[..i], buf[i..end];
      var drop;
      drop, inStr, inChr, escaped := StripStep(buf[i], inStr, inChr, escaped, rest);
      ghost var left := Strip(rest[1..], inStr, inChr, escaped);
      assert rest[1..] == buf[i + 1..end];
      if drop {
        assert done + ([] + left) == done + left;
        end := ShiftOver(buf, i, end);
      } else {
        Associative(done, [rest[0]], left);
        i := i + 1;
        assert buf[..i] == done + [rest[0]];
      }
    }
    assert buf[i..end] == [];
    buf[end] := NUL;
  }

  lemma NoNulInside(buf: array<char>, s: string)
    requires Holds(buf, s)
    ensures forall k :: 0 <= k < |s| ==> buf[k] != NUL
  {
    forall k | 0 <= k < |s| ensures buf[k] != NUL {
      assert buf[k] == s[k] && s[k] in s;
    }
  }

  method StrLen(buf: array<char>, ghost s: string) returns (len: nat)
    requires Holds(buf, s)
    ensures len == |s| && forall k :: 0 <= k < len ==> buf[k] != NUL
  {
    NoNulInside(buf, s);
    len := 0;
    while buf[len] != NUL
      invariant len <= |s|
      decreases |s| - len
    {
      len := len + 1;
    }
  }

  // Moves the rest of the string and its terminator over one character.
  method ShiftOver(buf: array<char>, i: nat, end: nat) returns (newEnd: nat)
    requires i < end < buf.Length
    modifies buf
    ensures newEnd == end - 1
    ensures forall k :: i <= k < newEnd ==> buf[k] == old(buf[k + 1])
    ensures buf[..i] == old(buf[..i]) && buf[i..newEnd] == old(buf[i + 1..end]) && buf[newEnd] == old(buf[end])
  {
    ghost var s := buf[..];
    MemMove(buf, i, i + 1, end - i);
    assert forall k :: i <= k < end ==> buf[k] == s[k + 1];
    newEnd := end - 1;
  }

  // The character a one-letter escape stands for.
  function EscapeValue(c: char): (v: Option<char>)
    ensures v.Some? ==> v.value != NUL
  {
    match c
    case 'a' => Some('\U{7}')
    case 'b' => Some('\U{8}')
    case 'f' => Some('\U{C}')
    case 'n' => Some('\n')
    case 'r' => Some('\r')
    case 't' => Some('\t')
    case 'v' => Some('\U{B}')
    case '\\' => Some('\\')
    case '\'' => Some('\'')
    case '"' => Some('"')
    case '?' => Some('?')
    case _ => None
  }

  predicate IsDigit(c: char) {
    '0' <= c <= '9'
  }

  function DigitValue(c: char): (n: nat)
    requires IsDigit(c)
    ensures n <= 9
  {
    (c - '0') as nat
  }

  // How many digits after \x are taken, and the byte they make; only decimal
  // digits count, and at most two.
  function HexDigits(s: string): (n: nat)
    ensures n <= 2 && n <= |s|
  {
    if s == [] || !IsDigit(s[0]) then 0 else if |s| == 1 || !IsDigit(s[1]) then 1 else 2
  }

  function HexByte(s: string): (b: char)
    requires HexDigits(s) > 0
  {
    if HexDigits(s) == 1 then DigitValue(s[0]) as char else (0x10 * DigitValue(s[0]) + DigitValue(s[1])) as char
  }

  // What the first pass leaves in the buffer: characters, and marks (NULs) to be
  // squeezed out.  It ends early at \0, and runs over the terminator behind a
  // backslash that has nothing to escape.
  datatype Marked = Marked(text: string, early: bool) | RunsOver

  function Behind(front: string, m: Marked): (r: Marked) {
    match m
    case RunsOver => RunsOver
    case Marked(text, early) => Marked(front + text, early)
  }

  // A one-letter escape becomes its value and a mark, \x without digits two marks;
  // an unknown one stays as it is.
  function LetterMarks(c: char): (r: string)
    ensures |r| == 2
  {
    if c == 'x' then [NUL, NUL]
    else match EscapeValue(c)
      case Some(v) => [v, NUL]
      case None => ['\\', c]
  }

  // Digits after \x put a mark where the scan looks next, which stops it: what
  // follows them is kept as it is.
  function HexMarks(s: string): (r: string)
    requires HexDigits(s) > 0
    ensures |r| == |s| + 2
  {
    [HexByte(s)] + (if HexDigits(s) == 1 then [NUL, NUL] else [NUL, NUL, NUL]) + s[HexDigits(s)..]
  }

  function Mark(s: string): (m: Marked)
    ensures m.Marked? && !m.early ==> |m.text| == |s|
    ensures m.Marked? && m.early ==> 0 < |m.text| <= |s| && m.text[|m.text| - 1] == NUL
  {
    if s == [] then Marked([], false)
    else if s[0] != '\\' then Behind([s[0]], Mark(s[1..]))
    else if |s| == 1 then RunsOver
    else if s[1] == '0' then Marked([NUL], true)
    else if s[1] == 'x' && HexDigits(s[2..]) > 0 then Marked(HexMarks(s[2..]), false)
    else Behind(LetterMarks(s[1]), Mark(s[2..]))
  }

  function Squeezed(s: string): (r: string) {
    if s == [] then [] else (if s[0] == NUL then [] else [s[0]]) + Squeezed(s[1..])
  }

  function UpToNul(s: string): (r: string) {
    if s == [] || s[0] == NUL then [] else [s[0]] + UpToNul(s[1..])
  }

  // The text that is left, and the length that is returned.
  datatype Unescaped = Unescaped(text: string, length: nat)

  function Unescape(s: string): (r: Unescaped)
    requires Mark(s).Marked?
  {
    var m := Mark(s);
    if m.early then Unescaped(UpToNul(m.text), |m.text| - 1)
    else Unescaped(Squeezed(m.text), |Squeezed(m.text)|)
  }

  lemma {:induction false} SqueezedAppend(s: string, t: string)
    ensures Squeezed(s + t) == Squeezed(s) + Squeezed(t)
  {
    if s == [] {
      assert s + t == t;
    } else {
      assert (s + t)[0] == s[0] && (s + t)[1..] == s[1..] + t;
      SqueezedAppend(s[1..], t);
    }
  }

  lemma {:induction false} SqueezedPlain(s: string)
    ensures NUL !in Squeezed(s)
    ensures NUL !in s ==> Squeezed(s) == s
  {
    if s != [] { SqueezedPlain(s[1..]); }
  }

  lemma SqueezedSnoc(s: string, i: nat)
    requires i < |s|
    ensures Squeezed(s[..i + 1]) == Squeezed(s[..i]) + (if s[i] == NUL then [] else [s[i]])
  {
    assert s[..i + 1] == s[..i] + [s[i]];
    SqueezedAppend(s[..i], [s[i]]);
    assert [s[i]][1..] == [];
  }

  lemma SqueezedPair(a: char, b: char)
    ensures Squeezed([a, b]) == (if a == NUL then [] else [a]) + (if b == NUL then [] else [b])
  {
    SqueezedAppend([a], [b]);
    assert [a] + [b] == [a, b] && [a][1..] == [] && [b][1..] == [];
  }

  lemma {:induction false} AllMarks(marks: string)
    requires forall k :: 0 <= k < |marks| ==> marks[k] == NUL
    ensures Squeezed(marks) == []
  {
    if marks != [] { AllMarks(marks[1..]); }
  }

  // ---- The first pass ----

  // What has been passed is final, what is ahead is still the text.
  ghost predicate Scanning(buf: string, s: string, i: nat)
    requires i <= |s| == |buf|
  {
    buf[i..] == s[i..] && Behind(buf[..i], Mark(s[i..])) == Mark(s)
  }

  lemma ScanOn(before: string, after: string, s: string, i: nat, n: nat)
    requires i + n <= |s| == |before| == |after| && Scanning(before, s, i)
    requires after[..i] == before[..i] && after[i + n..] == s[i + n..]
    requires Mark(s[i..]) == Behind(after[i..i + n], Mark(s[i + n..]))
    ensures Scanning(after, s, i + n)
  {
    assert after[..i + n] == after[..i] + after[i..i + n];
    var m := Mark(s[i + n..]);
    if m.Marked? {
      Associative(after[..i], after[i..i + n], m.text);
    }
  }

  lemma ScanPlain(buf: string, s: string, i: nat)
    requires i < |s| == |buf| && Scanning(buf, s, i) && s[i] != '\\'
    ensures Scanning(buf, s, i + 1)
  {
    assert buf[i] == buf[i..][0] == s[i..][0] && s[i..][1..] == s[i + 1..] && buf[i + 1..] == buf[i..][1..];
    assert buf[i..i + 1] == [s[i]];
    ScanOn(buf, buf, s, i, 1);
  }

  lemma ScanLetter(before: string, after: string, s: string, i: nat)
    requires i + 1 < |s| == |before| == |after| && Scanning(before, s, i) && s[i] == '\\'
    requires s[i + 1] != '0' && !(s[i + 1] == 'x' && HexDigits(s[i + 2..]) > 0)
    requires after[..i] == before[..i] && after[i + 2..] == s[i + 2..] && after[i..i + 2] == LetterMarks(s[i + 1])
    ensures Scanning(after, s, i + 2)
  {
    assert s[i..][2..] == s[i + 2..];
    ScanOn(before, after, s, i, 2);
  }

  lemma ScanEnds(before: string, after: string, s: string, i: nat, m: Marked)
    requires i <= |s| == |before| && i <= |after| && Scanning(before, s, i)
    requires after[..i] == before[..i] && m.Marked? && Mark(s[i..]) == m && after[i..] == m.text
    ensures Mark(s) == Marked(after, m.early)
  {
    assert after == after[..i] + after[i..];
  }

  // The escape at position i, behind which the scan goes on, stops or ends early.
  datatype Progress = GoOn | Stop | EndEarly

  method MarkEscape(buf: array<char>, i: nat, len: nat, ghost s: string) returns (p: Progress)
    requires i < len < buf.Length && len == |s| && NUL !in s && buf[len] == NUL
    requires Scanning(buf[..len], s, i) && s[i] == '\\' && Mark(s).Marked?
    modifies buf
    ensures i + 1 < len && buf[len] == NUL
    ensures p == GoOn ==> i + 2 <= len && Scanning(buf[..len], s, i + 2)
    ensures p == Stop ==> i + 2 < len && buf[i + 2] == NUL && Mark(s) == Marked(buf[..len], false)
    ensures p == EndEarly ==> Mark(s) == Marked(buf[..i + 1], true)
  {
    ghost var before, rest := buf[..len], s[i..];
    assert before[i..] == rest && before[i..] == buf[i..len];
    assert rest[0] == '\\' && |rest| > 1;
    assert buf[i + 1] == before[i..][1] == rest[1] == s[i + 1] && s[i + 1] in s;
    if buf[i + 1] == '0' {
      buf[i] := NUL;
      ScanEnds(before, buf[..i + 1], s, i, Mark(rest));
      return EndEarly;
    }
    var text := buf[i + 2..len];
    assert text == rest[2..] == s[i + 2..];
    if buf[i + 1] == 'x' && HexDigits(text) > 0 {
      MarkHex(buf, i, len, text);
      ScanEnds(before, buf[..len], s, i, Mark(rest)) by { assert buf[..len][i..] == buf[i..len]; }
      return Stop;
    }
    MarkLetter(buf, i);
    assert buf[..len][i + 2..] == buf[i + 2..len] && buf[..len][i..i + 2] == buf[i..i + 2];
    ScanLetter(before, buf[..len], s, i);
    return GoOn;
  }

  method MarkLetter(buf: array<char>, i: nat)
    requires i + 1 < buf.Length && buf[i] == '\\'
    modifies buf
    ensures forall k :: 0 <= k < buf.Length && !(i <= k < i + 2) ==> buf[k] == old(buf[k])
    ensures buf[i..i + 2] == LetterMarks(old(buf[i + 1]))
  {
    var c := buf[i + 1];
    if c == 'x' {
      buf[i], buf[i + 1] := NUL, NUL;
    } else {
      match EscapeValue(c) {
        case Some(v) =>
          buf[i], buf[i + 1] := v, NUL;
        case None =>
      }
    }
  }

  // Writes the byte over the backslash and marks over the x and the digits.
  method MarkHex(buf: array<char>, i: nat, len: nat, text: string)
    requires i + 2 <= len < buf.Length && text == buf[i + 2..len] && HexDigits(text) > 0
    modifies buf
    ensures forall k :: 0 <= k < buf.Length && !(i <= k < len) ==> buf[k] == old(buf[k])
    ensures buf[i..len] == HexMarks(text) && buf[i + 2] == NUL
  {
    var n, b := HexDigits(text), HexByte(text);
    forall k | i < k < i + 2 + n {
      buf[k] := NUL;
    }
    buf[i] := b;
    assert forall k :: i + 2 + n <= k < len ==> buf[k] == text[k - i - 2];
  }

  method MarkEscapes(buf: array<char>, len: nat, ghost s: string) returns (early: Option<nat>)
    requires Holds(buf, s) && Mark(s).Marked? && len == |s|
    modifies buf
    ensures early == None ==> buf[len] == NUL && Mark(s) == Marked(buf[..len], false)
    ensures early.Some? ==> early.value < len && Mark(s) == Marked(buf[..early.value + 1], true)
  {
    var i := 0;
    ghost var stopped := false;
    assert s[0..] == s && buf[..len] == s && [] + Mark(s).text == Mark(s).text;
    while buf[i] != NUL
      invariant 0 <= i <= len < buf.Length && buf[len] == NUL
      invariant !stopped ==> Scanning(buf[..len], s, i)
      invariant stopped ==> buf[i] == NUL && Mark(s) == Marked(buf[..len], false)
      decreases len - i
    {
      assert buf[i] == buf[..len][i..][0] == s[i..][0] == s[i];
      if buf[i] == '\\' {
        var p := MarkEscape(buf, i, len, s);
        if p == EndEarly {
          return Some(i);
        }
        stopped := p == Stop;
        i := i + 2;
      } else {
        ScanPlain(buf[..len], s, i);
        i := i + 1;
      }
    }
    if !stopped {
      if i < len { ScanHead(buf[..len], s, i); }
      NothingAhead(buf[..len], s);
    }
    return None;
  }

  lemma ScanHead(buf: string, s: string, i: nat)
    requires i < |s| == |buf| && Scanning(buf, s, i) && NUL !in s
    ensures buf[i] == s[i] != NUL
  {
    assert buf[i..][0] == s[i..][0] && s[i] in s;
  }

  lemma NothingAhead(buf: string, s: string)
    requires |s| == |buf| && Scanning(buf, s, |s|)
    ensures Mark(s) == Marked(buf, false)
  {
    assert s[|s|..] == [] && buf[..|s|] + [] == buf;
  }

  // Shifts the characters over the marks.
  method SqueezeInPlace(buf: array<char>, len: nat) returns (n: nat)
    requires len < buf.Length
    modifies buf
    ensures n <= len && buf[..n] == Squeezed(old(buf[..len])) && buf[n] == NUL
  {
    var shift, i := 0, 0;
    ghost var marked := buf[..len];
    while i < len
      invariant 0 <= shift <= i <= len
      invariant forall k :: i <= k < len ==> buf[k] == marked[k]
      invariant buf[..i - shift] == Squeezed(marked[..i])
    {
      SqueezedSnoc(marked, i);
      if buf[i] == NUL {
        shift := shift + 1;
      } else {
        buf[i - shift] := buf[i];
      }
      i := i + 1;
    }
    assert marked[..len] == marked;
    buf[len - shift] := NUL;
    n := len - shift;
  }

  // Resolves the escapes; returns the new length.  The source demands that the
  // scan does not run over the terminator.
  method UnescapeInPlace(buf: array<char>, ghost s: string) returns (n: nat)
    requires Holds(buf, s) && Mark(s).Marked?
    modifies buf
    ensures n == Unescape(s).length && Holds(buf, Unescape(s).text)
  {
    var len := StrLen(buf, s);
    var early := MarkEscapes(buf, len, s);
    match early {
      case Some(end) =>
        ghost var marked := buf[..end + 1];
        FirstNul(marked, UpToNul(marked));
        return end;
      case None =>
        SqueezedPlain(buf[..len]);
        n := SqueezeInPlace(buf, len);
    }
  }

  lemma {:induction false} FirstNul(s: string, t: string)
    requires s != [] && s[|s| - 1] == NUL && t == UpToNul(s)
    ensures |t| < |s| && s[|t|] == NUL && NUL !in t && s[..|t|] == t
  {
    if s[0] != NUL {
      FirstNul(s[1..], t[1..]);
    }
  }

  // ---- What it means ----

  // The texts whose scan neither meets \0 nor runs over the terminator.
  predicate Decodable(s: string) {
    if s == [] then true
    else if s[0] != '\\' then Decodable(s[1..])
    else
      && |s| > 1 && s[1] != '0'
      && if s[1] == 'x' && HexDigits(s[2..]) > 0 then true else Decodable(s[2..])
  }

  // What the escape of one letter stands for.
  function LetterValue(c: char): (r: string) {
    if c == 'x' then [] else match EscapeValue(c) case Some(v) => [v] case None => ['\\', c]
  }

  // The text with its escapes resolved.  Digits after \x stop the scan: what
  // follows them is kept as it is.
  function Decode(s: string): (r: string)
    requires Decodable(s)
  {
    if s == [] then []
    else if s[0] != '\\' then [s[0]] + Decode(s[1..])
    else if s[1] == 'x' then
      var n := HexDigits(s[2..]);
      if n > 0 then Squeezed([HexByte(s[2..])]) + s[2 + n..] else Decode(s[2..])
    else
      LetterValue(s[1]) + Decode(s[2..])
  }

  ghost predicate IsDecoded(s: string)
    requires Decodable(s)
  {
    var m := Mark(s);
    m.Marked? && !m.early && Squeezed(m.text) == Decode(s)
  }

  lemma PlainDecoded(s: string)
    requires s != [] && s[0] != '\\' && s[0] != NUL && Decodable(s[1..]) && IsDecoded(s[1..])
    ensures Decodable(s) && IsDecoded(s)
  {
    SqueezedAppend([s[0]], Mark(s[1..]).text);
    assert [s[0]][1..] == [];
  }

  lemma LetterDecoded(s: string)
    requires |s| > 1 && s[0] == '\\' && s[1] != '0' && s[1] != NUL && !(s[1] == 'x' && HexDigits(s[2..]) > 0)
    requires Decodable(s[2..]) && IsDecoded(s[2..])
    ensures Decodable(s) && IsDecoded(s)
  {
    LetterSqueezed(s[1]);
    SqueezedAppend(LetterMarks(s[1]), Mark(s[2..]).text);
    assert Decode(s) == LetterValue(s[1]) + Decode(s[2..]) by {
      assert s[1] == 'x' ==> [] + Decode(s[2..]) == Decode(s[2..]);
    }
  }

  lemma LetterSqueezed(c: char)
    requires c != NUL
    ensures Squeezed(LetterMarks(c)) == LetterValue(c)
  {
    var marks := LetterMarks(c);
    assert marks == [marks[0], marks[1]];
    SqueezedPair(marks[0], marks[1]);
  }

  lemma HexDecoded(s: string)
    requires |s| > 2 && s[0] == '\\' && s[1] == 'x' && HexDigits(s[2..]) > 0 && NUL !in s
    ensures Decodable(s) && IsDecoded(s)
  {
    var n := HexDigits(s[2..]);
    assert s[2..][n..] == s[2 + n..] && forall c :: c in s[2 + n..] ==> c in s;
    SqueezeHex(HexMarks(s[2..]), HexByte(s[2..]), n, s[2 + n..]);
  }

  lemma {:induction false} AllDecoded(s: string)
    requires Decodable(s) && NUL !in s
    ensures IsDecoded(s)
  {
    if s != [] {
      assert s[0] in s;
      if s[0] != '\\' {
        AllDecoded(s[1..]);
        PlainDecoded(s);
      } else {
        assert s[1] in s;
        if s[1] == 'x' && HexDigits(s[2..]) > 0 {
          HexDecoded(s);
        } else {
          AllDecoded(s[2..]);
          LetterDecoded(s);
        }
      }
    }
  }

  // For these the two passes give the decoded text.
  lemma DecodableIsDecoded(s: string)
    requires Decodable(s) && NUL !in s
    ensures Mark(s).Marked? && Unescape(s) == Unescaped(Decode(s), |Decode(s)|)
  {
    AllDecoded(s);
  }

  lemma SqueezeHex(t: string, b: char, n: nat, tail: string)
    requires 1 <= n <= 2 && t == [b] + (if n == 1 then [NUL, NUL] else [NUL, NUL, NUL]) + tail && NUL !in tail
    ensures Squeezed(t) == Squeezed([b]) + tail
  {
    var marks := if n == 1 then [NUL, NUL] else [NUL, NUL, NUL];
    AllMarks(marks);
    SqueezedAppend([b] + marks, tail);
    SqueezedAppend([b], marks);
    SqueezedPlain(tail);
  }

  // An escape begins at k: an even number of backslashes is in front of it.
  predicate EscapeAt(s: string, k: nat)
    requires k < |s|
  {
    s[k] == '\\' && BackslashesBefore(s, k) % 2 == 0
  }

  // The scan gets no further than the escape at k: a \0, or \x with a digit.
  predicate StopsAt(s: string, k: nat)
    requires k < |s|
  {
    && EscapeAt(s, k) && k + 1 < |s|
    && (s[k + 1] == '0' || (s[k + 1] == 'x' && k + 2 < |s| && IsDigit(s[k + 2])))
  }

  // What the scan makes of the text from i on.
  lemma MarkStep(s: string, i: nat)
    requires i < |s|
    ensures s[i] != '\\' ==> Mark(s[i..]) == Behind([s[i]], Mark(s[i + 1..]))
    ensures s[i] == '\\' && i + 1 == |s| ==> Mark(s[i..]) == RunsOver
    ensures s[i] == '\\' && i + 1 < |s| ==>
      if s[i + 1] == '0' then Mark(s[i..]) == Marked([NUL], true)
      else if s[i + 1] == 'x' && i + 2 < |s| && IsDigit(s[i + 2]) then Mark(s[i..]).Marked? && !Mark(s[i..]).early
      else Mark(s[i..]) == Behind(LetterMarks(s[i + 1]), Mark(s[i + 2..]))
  {
    var rest := s[i..];
    assert rest[0] == s[i] && rest[1..] == s[i + 1..];
    if i + 1 < |s| {
      assert rest[1] == s[i + 1] && rest[2..] == s[i + 2..];
      assert i + 2 < |s| ==> rest[2..][0] == s[i + 2];
    }
  }

  // The scan runs over the terminator if and only if the text ends in a backslash
  // that is not itself escaped, and nothing stops the scan before.
  lemma RunsOverIff(s: string)
    ensures Mark(s).RunsOver? <==>
      s != [] && EscapeAt(s, |s| - 1) && forall k :: 0 <= k < |s| ==> !StopsAt(s, k)
  {
    assert s[0..] == s;
    RunsOverFrom(s, 0);
  }

  // Nothing stops the scan from i on.
  predicate NoStopFrom(s: string, i: nat) {
    forall k :: i <= k < |s| ==> !StopsAt(s, k)
  }

  lemma NoStopStep(s: string, i: nat)
    requires i < |s|
    ensures NoStopFrom(s, i) <==> !StopsAt(s, i) && NoStopFrom(s, i + 1)
  {
  }

  // An escape takes the character behind it with it.
  lemma NoStopBehind(s: string, i: nat)
    requires i + 1 < |s| && EscapeAt(s, i)
    ensures NoStopFrom(s, i) <==> !StopsAt(s, i) && NoStopFrom(s, i + 2)
    ensures BackslashesBefore(s, i + 2) % 2 == 0
  {
    NoStopStep(s, i);
    NoStopStep(s, i + 1);
    assert !EscapeAt(s, i + 1);
  }

  lemma {:induction false} RunsOverFrom(s: string, i: nat)
    requires i <= |s| && BackslashesBefore(s, i) % 2 == 0
    ensures Mark(s[i..]).RunsOver? <==> i < |s| && EscapeAt(s, |s| - 1) && NoStopFrom(s, i)
    decreases |s| - i
  {
    if i < |s| {
      MarkStep(s, i);
      if s[i] != '\\' {
        NoStopStep(s, i);
        RunsOverFrom(s, i + 1);
      } else if i + 1 < |s| {
        NoStopBehind(s, i);
        RunsOverFrom(s, i + 2);
      }
    }
  }

  // ---- Where an early end leaves the text ----

  // The escape at k leaves a mark: one that is known, or an x.
  predicate LeavesMark(s: string, k: nat)
    requires k < |s|
  {
    EscapeAt(s, k) && k + 1 < |s| && (s[k + 1] == 'x' || EscapeValue(s[k + 1]).Some?)
  }

  // The first escape from i on that leaves a mark, or the end.
  function FirstMark(s: string, i: nat, end: nat): (k: nat)
    requires i <= end <= |s|
    ensures i <= k <= end && forall j :: i <= j < k ==> !LeavesMark(s, j)
    ensures k < end ==> LeavesMark(s, k)
    decreases end - i
  {
    if i == end || LeavesMark(s, i) then i else FirstMark(s, i + 1, end)
  }

  // What stands before the mark of the escape c.
  function BeforeMark(c: char): (r: string) {
    match EscapeValue(c)
    case None => []
    case Some(v) => [v]
  }

  // What is left from i on, when k is the first mark before the end.
  function LeftFrom(s: string, i: nat, k: nat, end: nat): (r: string)
    requires i <= k <= end < |s|
  {
    s[i..k] + (if k < end then BeforeMark(s[k + 1]) else [])
  }

  ghost predicate Leaves(s: string, i: nat, m: Marked, end: nat) {
    && m.Marked? && m.early && i + |m.text| == end + 1 && i <= end < |s|
    && UpToNul(m.text) == LeftFrom(s, i, FirstMark(s, i, end), end)
    && MarkIsBefore(s, i, end)
  }

  // The mark is not where the end is.
  predicate MarkIsBefore(s: string, i: nat, end: nat)
    requires i <= end <= |s|
  {
    var k := FirstMark(s, i, end);
    k < end ==> k + 1 < end
  }

  lemma LeavesBehind(s: string, i: nat, n: nat, front: string, m: Marked, end: nat)
    requires i + n <= end < |s| && front == s[i..i + n] && NUL !in front
    requires Leaves(s, i + n, m, end) && FirstMark(s, i, end) == FirstMark(s, i + n, end)
    ensures Leaves(s, i, Behind(front, m), end)
  {
    var k := FirstMark(s, i, end);
    UpToNulBehind(front, m.text);
    LeftBehind(s, i, n, k, end);
  }

  lemma LeftBehind(s: string, i: nat, n: nat, k: nat, end: nat)
    requires i + n <= k <= end < |s|
    ensures LeftFrom(s, i, k, end) == s[i..i + n] + LeftFrom(s, i + n, k, end)
  {
    assert s[i..k] == s[i..i + n] + s[i + n..k];
  }

  lemma {:induction false} UpToNulBehind(front: string, text: string)
    requires NUL !in front
    ensures UpToNul(front + text) == front + UpToNul(text)
  {
    if front == [] {
      assert front + text == text;
    } else {
      assert front[0] in front && (front + text)[0] == front[0] && (front + text)[1..] == front[1..] + text;
      UpToNulBehind(front[1..], text);
    }
  }

  lemma LeavesHere(s: string, i: nat, m: Marked, end: nat)
    requires i + 2 <= end < |s| && LeavesMark(s, i)
    requires m.Marked? && m.early && i + 2 + |m.text| == end + 1
    ensures Leaves(s, i, Behind(LetterMarks(s[i + 1]), m), end)
  {
    UpToMark(s[i + 1], m.text);
    assert s[i..i] == [];
  }

  lemma UpToMark(c: char, text: string)
    requires c == 'x' || EscapeValue(c).Some?
    ensures UpToNul(LetterMarks(c) + text) == BeforeMark(c)
  {
    var marks := LetterMarks(c);
    var all := marks + text;
    assert all[0] == marks[0] && all[1] == marks[1] && all[1..][0] == all[1];
  }

  // From i on the scan makes m of the text.  The quantifier keeps the scan out of the
  // way where only m matters.
  ghost predicate IsMarked(s: string, i: nat, m: Marked) {
    i <= |s| && forall k :: MarkedAt(s, i, m, k)
  }

  ghost predicate MarkedAt(s: string, i: nat, m: Marked, k: int)
    requires i <= |s|
  {
    k == 0 ==> Mark(s[i..]) == m
  }

  predicate EndsEarly(m: Marked) {
    m.Marked? && m.early
  }

  lemma MarkedOnward(s: string, i: nat, m: Marked) returns (next: Marked)
    requires NUL !in s && IsMarked(s, i, m) && EndsEarly(m)
    ensures i < |s|
    ensures s[i] != '\\' ==> IsMarked(s, i + 1, next) && m == Behind([s[i]], next)
    ensures s[i] == '\\' ==> i + 1 < |s|
    ensures s[i] == '\\' && s[i + 1] == '0' ==> m == Marked([NUL], true)
    ensures s[i] == '\\' && s[i + 1] != '0' ==> IsMarked(s, i + 2, next) && m == Behind(LetterMarks(s[i + 1]), next)
  {
    assert MarkedAt(s, i, m, 0);
    if i < |s| {
      MarkStep(s, i);
      next := if s[i] != '\\' then Mark(s[i + 1..]) else if i + 1 < |s| then Mark(s[i + 2..]) else m;
    } else {
      next := m;
    }
  }

  lemma {:induction false} LeavesFrom(s: string, i: nat, m: Marked) returns (end: nat)
    requires NUL !in s && IsMarked(s, i, m) && EndsEarly(m) && BackslashesBefore(s, i) % 2 == 0
    ensures Leaves(s, i, m, end)
    decreases |s| - i
  {
    var next := MarkedOnward(s, i, m);
    assert s[i] in s;
    if s[i] != '\\' {
      end := LeavesFrom(s, i + 1, next);
      LeavesBehind(s, i, 1, [s[i]], next, end);
    } else if s[i + 1] == '0' {
      end := i;
      LeavesNothing(s, i);
    } else {
      assert s[i + 1] in s;
      end := LeavesFrom(s, i + 2, next);
      EscapeLeaves(s, i, next, end);
    }
  }

  lemma LeavesNothing(s: string, i: nat)
    requires i < |s|
    ensures Leaves(s, i, Marked([NUL], true), i)
  {
    assert s[i..i] == [];
  }

  lemma EscapeLeaves(s: string, i: nat, m: Marked, end: nat)
    requires i + 2 <= end < |s| && s[i] == '\\' && BackslashesBefore(s, i) % 2 == 0
    requires NUL != s[i + 1] && Leaves(s, i + 2, m, end)
    ensures Leaves(s, i, Behind(LetterMarks(s[i + 1]), m), end)
  {
    if LeavesMark(s, i) {
      LeavesHere(s, i, m, end);
    } else {
      NoMarkHere(s, i, end);
      LeavesBehind(s, i, 2, ['\\', s[i + 1]], m, end);
    }
  }

  lemma NoMarkHere(s: string, i: nat, end: nat)
    requires i + 2 <= end < |s| && s[i] == '\\' && BackslashesBefore(s, i) % 2 == 0 && !LeavesMark(s, i)
    ensures FirstMark(s, i, end) == FirstMark(s, i + 2, end)
    ensures LetterMarks(s[i + 1]) == ['\\', s[i + 1]]
  {
    assert EscapeAt(s, i) && !EscapeAt(s, i + 1) && !LeavesMark(s, i + 1);
  }

  // At \0 the scan ends, and nothing is squeezed.  The text that is left has the
  // length returned if and only if no earlier escape is known or is an x: else it
  // ends at the mark of the first of these, behind the value it has.
  lemma EarlyEndIff(s: string)
    requires NUL !in s && Mark(s).Marked? && Mark(s).early
    ensures var r := Unescape(s);
      && r.length < |s|
      && r.text == LeftFrom(s, 0, FirstMark(s, 0, r.length), r.length)
      && (|r.text| == r.length <==> forall k :: 0 <= k < r.length ==> !LeavesMark(s, k))
  {
    assert s[0..] == s;
    var end := LeavesFrom(s, 0, Mark(s));
    assert end == Unescape(s).length;
    var k := FirstMark(s, 0, end);
    assert |LeftFrom(s, 0, k, end)| == end <==> k == end;
  }

  // Behind \0 nothing is squeezed any more, so the text ends where the first of
  // the earlier escapes left a mark, and is shorter than the length returned.
  lemma EarlyEndCutsText()
    ensures var s := "a\\nb\\0";
      Mark(s).Marked? && Unescape(s) == Unescaped("a\n", 4)
  {
    var s := "a\\nb\\0";
    assert s[1..] == "\\nb\\0" && s[1..][2..] == "b\\0" && s[1..][2..][1..] == "\\0";
    assert Mark("\\0") == Marked([NUL], true);
    assert Mark("b\\0") == Marked(['b', NUL], true);
    assert Mark(s[1..]) == Marked(['\n', NUL, 'b', NUL], true);
    var marked := ['a', '\n', NUL, 'b', NUL];
    assert Mark(s) == Marked(marked, true);
    assert marked[1..][0] == '\n' && marked[1..][1..][0] == NUL;
    assert UpToNul(marked[1..][1..]) == [] && UpToNul(marked[1..]) == ['\n'];
  }
}
