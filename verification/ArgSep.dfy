// common/stringop.c: cutting a command list at its separators, in place.
module ArgSep {
  import opened Tokens
  import opened Wrappers
  import R = Readings

  predicate IsSpecial(c: char) {
    c == '"' || c == '\'' || c == '\\'
  }

  // The first special character or separator at or behind `from`.
  function NextInteresting(s: string, delim: string, from: nat): (i: nat)
    requires from <= |s|
    ensures from <= i <= |s|
    ensures i < |s| ==> IsSpecial(s[i]) || s[i] in delim
    decreases |s| - from
  {
    if from == |s| || IsSpecial(s[from]) || s[from] in delim then from else NextInteresting(s, delim, from + 1)
  }

  // Where one call starts and ends its piece, and whether a separator ended it.
  datatype Cut = Cut(found: bool, start: nat, end: nat)

  // The local variables of one call.
  datatype Progress = Progress(start: nat, end: nat, inString: bool, inChar: bool, escaped: bool)

  function Begin(head: nat): (p: Progress) {
    Progress(head, head, false, false, false)
  }

  // What the interesting character c at i does to them, or that it ends the
  // piece.  An escaped character leaves the flag set, so that the next one counts
  // as escaped too if it follows at once; and a separator in quotes moves the
  // scan on by one character only.
  function Advance(p: Progress, i: nat, c: char): (r: (bool, Progress))
    requires p.start <= p.end <= i
    ensures !r.0 ==> r.1.start <= r.1.end && p.end < r.1.end <= i + 1
    ensures r.0 ==> p.start == r.1.start < i == r.1.end
  {
    var q := p.(escaped := p.escaped && i == p.end);
    if c == '"' && !q.inChar && !q.escaped then (false, q.(inString := !q.inString, end := i + 1))
    else if c == '\'' && !q.inString && !q.escaped then (false, q.(inChar := !q.inChar, end := i + 1))
    else if c == '\\' then (false, q.(escaped := !q.escaped, end := i + 1))
    else if !q.inString && !q.inChar && !q.escaped then
      if i > q.start then (true, q.(end := i)) else (false, q.(start := q.start + 1, end := q.start + 1))
    else (false, q.(end := q.end + 1))
  }

  function Scan(s: string, delim: string, p: Progress): (r: Cut)
    requires p.start <= p.end <= |s|
    ensures p.start <= r.start <= r.end <= |s|
    ensures if r.found then r.start < r.end < |s| else r.end == |s|
    decreases |s| - p.end
  {
    var i := NextInteresting(s, delim, p.end);
    if i == |s| then Cut(false, p.start, |s|)
    else
      var (cut, q) := Advance(p, i, s[i]);
      if cut then Cut(true, q.start, i) else Scan(s, delim, q)
  }

  // The buffer of a command list s, of which everything before `head` has been
  // handed out already.
  ghost predicate Remains(buf: array<char>, s: string, head: nat)
    reads buf
  {
    && head <= |s| < buf.Length
    && NUL !in s
    && buf[|s|] == NUL
    && forall k :: head <= k < |s| ==> buf[k] == s[k]
  }

  // The C string at `start` is what the list s held from there up to `end`.
  ghost predicate HoldsPiece(buf: array<char>, s: string, start: nat, end: nat)
    reads buf
  {
    && start <= end <= |s| < buf.Length
    && NUL !in s
    && buf[end] == NUL
    && forall k :: start <= k < end ==> buf[k] == s[k]
  }

  // Cuts off one piece: it begins at `start` and is terminated there by a NUL
  // written over the separator.
  method ArgSep(buf: array<char>, head: nat, delim: string, ghost s: string)
    returns (start: nat, next: Option<nat>, matched: char, ghost cut: Cut)
    requires Remains(buf, s, head)
    modifies buf
    ensures cut == Scan(s, delim, Begin(head)) && start == cut.start
    ensures HoldsPiece(buf, s, cut.start, cut.end)
    ensures !cut.found ==> matched == NUL && next == None
    ensures cut.found ==> matched == s[cut.end] && next == Some(cut.end + 1) && Remains(buf, s, cut.end + 1)
    ensures forall k :: 0 <= k < buf.Length && !(cut.found && k == cut.end) ==> buf[k] == old(buf[k])
  {
    var c := FindCut(buf, head, delim, s);
    start, cut := c.start, c;
    if !c.found {
      next, matched := None, NUL;
    } else {
      matched := buf[c.end];
      buf[c.end] := NUL;
      next := Some(c.end + 1);
    }
  }

  // The loop of ArgSep, which only reads.
  method FindCut(buf: array<char>, head: nat, delim: string, ghost s: string) returns (cut: Cut)
    requires Remains(buf, s, head)
    ensures cut == Scan(s, delim, Begin(head)) && head <= cut.start
  {
    var p := Begin(head);
    while true
      invariant head <= p.start <= p.end <= |s|
      invariant Scan(s, delim, p) == Scan(s, delim, Begin(head))
      decreases |s| - p.end
    {
      var interesting := FindInteresting(buf, p.end, delim, s);
      var c := buf[interesting];
      if c == NUL {
        return Cut(false, p.start, interesting);
      }
      var found, q := Turn(p, interesting, c);
      if found {
        return Cut(true, q.start, q.end);
      }
      p := q;
    }
  }

  // One turn of the loop in ArgSep.
  method Turn(p: Progress, interesting: nat, c: char) returns (cut: bool, q: Progress)
    requires p.start <= p.end <= interesting
    ensures (cut, q) == Advance(p, interesting, c)
  {
    var start, end, inString, inChar, escaped := p.start, p.end, p.inString, p.inChar, p.escaped;
    cut := false;
    if escaped && interesting != end {
      escaped := false;
    }
    if c == '"' && !inChar && !escaped {
      inString := !inString;
      end := interesting + 1;
    } else if c == '\'' && !inString && !escaped {
      inChar := !inChar;
      end := interesting + 1;
    } else if c == '\\' {
      escaped := !escaped;
      end := interesting + 1;
    } else if !inString && !inChar && !escaped {
      end := interesting;
      if end - start > 0 {
        cut := true;
      } else {
        start := start + 1;
        end := start;
      }
    } else {
      end := end + 1;
    }
    q := Progress(start, end, inString, inChar, escaped);
  }

  // The strpbrk that looks for the next interesting character.
  method FindInteresting(buf: array<char>, from: nat, delim: string, ghost s: string) returns (i: nat)
    requires Remains(buf, s, from)
    ensures i == NextInteresting(s, delim, from)
    ensures buf[i] == (if i < |s| then s[i] else NUL)
    ensures i < |s| ==> buf[i] != NUL
  {
    i := from;
    assert forall k :: from <= k < |s| ==> buf[k] in s;
    while buf[i] != NUL && !IsSpecial(buf[i]) && buf[i] !in delim
      invariant from <= i <= |s|
      invariant NextInteresting(s, delim, i) == NextInteresting(s, delim, from)
      decreases |s| - i
    {
      i := i + 1;
    }
  }

  // ---- What the calls add up to ----

  predicate IsInteresting(delim: string, c: char) {
    IsSpecial(c) || c in delim
  }

  // How a place is read: inside double or single quotes, or escaped.
  datatype Reading = Reading(inString: bool, inChar: bool, escaped: bool)

  const OUTSIDE := Reading(false, false, false)

  // An escaped quote or separator leaves what follows it escaped, too; only a
  // backslash or a character of no interest ends that.
  function Read(delim: string, q: Reading, c: char): (r: Reading) {
    if c == '"' && !q.inChar && !q.escaped then q.(inString := !q.inString)
    else if c == '\'' && !q.inString && !q.escaped then q.(inChar := !q.inChar)
    else if c == '\\' then q.(escaped := !q.escaped)
    else if IsInteresting(delim, c) then q
    else q.(escaped := false)
  }

  // How k is read when reading starts at `from`.
  function ReadingAt(s: string, delim: string, from: nat, k: nat): (q: Reading)
    requires from <= k <= |s|
  {
    if k == from then OUTSIDE else Read(delim, ReadingAt(s, delim, from, k - 1), s[k - 1])
  }

  predicate Separates(s: string, delim: string, from: nat, k: nat)
    requires from <= k < |s|
  {
    s[k] in delim && ReadingAt(s, delim, from, k) == OUTSIDE
  }

  // The first separator, neither quoted nor escaped, at or behind `from`, or the
  // end.
  function Separator(s: string, delim: string, from: nat, q: Reading): (n: nat)
    requires from <= |s|
    ensures from <= n <= |s|
    decreases |s| - from
  {
    if from == |s| || (s[from] in delim && q == OUTSIDE) then from
    else Separator(s, delim, from + 1, Read(delim, q, s[from]))
  }

  predicate ProperDelim(delim: string) {
    NUL !in delim && forall c :: c in delim ==> !IsSpecial(c)
  }

  lemma {:induction false} SeparatorIsFirst(s: string, delim: string, from: nat, i: nat)
    requires from <= i <= |s|
    ensures var n := Separator(s, delim, i, ReadingAt(s, delim, from, i));
      && (forall k :: i <= k < n ==> !Separates(s, delim, from, k))
      && (n < |s| ==> Separates(s, delim, from, n))
    decreases |s| - i
  {
    if i < |s| && !Separates(s, delim, from, i) {
      SeparatorIsFirst(s, delim, from, i + 1);
    }
  }

  // Pieces of a list by where they start and end.
  datatype Pieces = Last(start: nat, end: nat) | More(start: nat, end: nat, rest: Pieces)

  // The rest of the list cut at every separator that is not quoted or escaped.
  function RawPieces(s: string, delim: string, from: nat): (pieces: Pieces)
    requires from <= |s|
    decreases |s| - from
  {
    var n := Separator(s, delim, from, OUTSIDE);
    if n == |s| then Last(from, n) else More(from, n, RawPieces(s, delim, n + 1))
  }

  // The pieces are the rest of the list, with one such separator behind
  // every piece but the last, and none in a piece.
  ghost predicate AreCut(s: string, delim: string, from: nat, pieces: Pieces)
    decreases pieces
  {
    && pieces.start == from <= pieces.end <= |s|
    && (forall k :: from <= k < pieces.end ==> !Separates(s, delim, from, k))
    && match pieces
       case Last(_, end) => end == |s|
       case More(_, end, rest) => end < |s| && Separates(s, delim, from, end) && AreCut(s, delim, end + 1, rest)
  }

  lemma {:induction false} RawPiecesAreCut(s: string, delim: string, from: nat)
    requires from <= |s|
    ensures AreCut(s, delim, from, RawPieces(s, delim, from))
    decreases |s| - from
  {
    var n := Separator(s, delim, from, OUTSIDE);
    SeparatorIsFirst(s, delim, from, from);
    if n < |s| { RawPiecesAreCut(s, delim, n + 1); }
  }

  lemma SameEnd(s: string, delim: string, from: nat, p: Pieces, q: Pieces)
    requires AreCut(s, delim, from, p) && AreCut(s, delim, from, q)
    ensures q.end <= p.end
  {}

  // There is only one way to cut.
  lemma {:induction false} CuttingIsUnique(s: string, delim: string, from: nat, p: Pieces, q: Pieces)
    requires AreCut(s, delim, from, p) && AreCut(s, delim, from, q)
    ensures p == q
    decreases p
  {
    SameEnd(s, delim, from, p, q);
    SameEnd(s, delim, from, q, p);
    if p.More? { CuttingIsUnique(s, delim, p.end + 1, p.rest, q.rest); }
  }

  // The cut a call makes, for every place where it may start.
  function CutsOf(s: string, delim: string): (cuts: seq<Cut>)
    ensures AreCuts(s, cuts)
  {
    seq(|s| + 1, i requires 0 <= i <= |s| => Scan(s, delim, Begin(i)))
  }

  predicate AreCuts(s: string, cuts: seq<Cut>) {
    |cuts| == |s| + 1 && forall i :: 0 <= i <= |s| ==> IsCut(s, cuts[i], i)
  }

  predicate IsCut(s: string, cut: Cut, from: nat) {
    from <= cut.start <= cut.end <= |s| && (cut.found ==> cut.end < |s|)
  }

  // What successive calls return on the rest of a list.
  function Calls(s: string, cuts: seq<Cut>, from: nat): (pieces: Pieces)
    requires AreCuts(s, cuts) && from <= |s|
    decreases |s| - from
  {
    var cut := cuts[from];
    assert IsCut(s, cut, from);
    if cut.found then More(cut.start, cut.end, Calls(s, cuts, cut.end + 1)) else Last(cut.start, cut.end)
  }

  // The non-empty pieces, and the last piece even if it is empty.
  function NonEmpty(raw: Pieces): (pieces: Pieces) {
    match raw
    case Last(_, _) => raw
    case More(start, end, rest) => if start == end then NonEmpty(rest) else More(start, end, NonEmpty(rest))
  }

  // Characters of no interest only end an escape.
  lemma {:induction false} SkipToInteresting(s: string, delim: string, from: nat, q: Reading)
    requires from <= |s|
    ensures var i := NextInteresting(s, delim, from);
      Separator(s, delim, from, q) == Separator(s, delim, i, q.(escaped := q.escaped && i == from))
    decreases |s| - from
  {
    if from < |s| && !IsInteresting(delim, s[from]) {
      SkipToInteresting(s, delim, from + 1, q.(escaped := false));
    }
  }

  function ReadingOf(p: Progress): (q: Reading) {
    Reading(p.inString, p.inChar, p.escaped)
  }

  // The scan looks for the first separator.
  lemma {:induction false} ScanFindsSeparator(s: string, delim: string, p: Progress)
    requires ProperDelim(delim)
    requires p.start <= p.end <= |s|
    requires p.start < p.end || ReadingOf(p) == OUTSIDE
    ensures var n := Separator(s, delim, p.end, ReadingOf(p));
      Scan(s, delim, p) ==
        if n == |s| then Cut(false, p.start, |s|)
        else if n > p.start then Cut(true, p.start, n)
        else Scan(s, delim, Begin(n + 1))
    decreases |s| - p.end
  {
    var i := NextInteresting(s, delim, p.end);
    SkipToInteresting(s, delim, p.end, ReadingOf(p));
    if i < |s| {
      var (cut, q) := Advance(p, i, s[i]);
      if !cut && q.start == p.start {
        AdvanceKeepsSeparator(s, delim, p, i);
        ScanFindsSeparator(s, delim, q);
      }
    }
  }

  lemma AdvanceKeepsSeparator(s: string, delim: string, p: Progress, i: nat)
    requires ProperDelim(delim) && p.start <= p.end <= |s|
    requires i == NextInteresting(s, delim, p.end) < |s|
    requires var (cut, q) := Advance(p, i, s[i]); !cut && q.start == p.start
    ensures var q := Advance(p, i, s[i]).1;
      && q.start < q.end
      && Separator(s, delim, q.end, ReadingOf(q)) ==
        Separator(s, delim, i, ReadingOf(p).(escaped := p.escaped && i == p.end))
  {
    var q := Advance(p, i, s[i]).1;
    if q.end <= i {
      assert NextInteresting(s, delim, p.end) == NextInteresting(s, delim, q.end);
      SkipToInteresting(s, delim, q.end, ReadingOf(q));
    }
  }

  // Calls cut at the separators, and pass over one right where they start.
  ghost predicate CutsAtSeparators(s: string, delim: string, cuts: seq<Cut>)
    requires AreCuts(s, cuts)
  {
    forall i :: 0 <= i <= |s| ==> CutsAtSeparator(s, delim, cuts, i)
  }

  predicate CutsAtSeparator(s: string, delim: string, cuts: seq<Cut>, i: nat)
    requires AreCuts(s, cuts) && i <= |s|
  {
    var n := Separator(s, delim, i, OUTSIDE);
    cuts[i] ==
      if n == |s| then Cut(false, i, |s|)
      else if n > i then Cut(true, i, n)
      else cuts[i + 1]
  }

  lemma CutsAreAtSeparators(s: string, delim: string)
    requires ProperDelim(delim)
    ensures CutsAtSeparators(s, delim, CutsOf(s, delim))
  {
    var cuts := CutsOf(s, delim);
    forall i | 0 <= i <= |s|
      ensures CutsAtSeparator(s, delim, cuts, i)
    {
      ScanFindsSeparator(s, delim, Begin(i));
      assert i < |s| ==> cuts[i + 1] == Scan(s, delim, Begin(i + 1));
    }
  }

  lemma {:induction false} CallsSkipEmptyPieces(s: string, delim: string, cuts: seq<Cut>, from: nat)
    requires AreCuts(s, cuts) && CutsAtSeparators(s, delim, cuts) && from <= |s|
    ensures Calls(s, cuts, from) == NonEmpty(RawPieces(s, delim, from))
    decreases |s| - from
  {
    var n := Separator(s, delim, from, OUTSIDE);
    assert CutsAtSeparator(s, delim, cuts, from);
    if n < |s| { CallsSkipEmptyPieces(s, delim, cuts, n + 1); }
  }

  // The splitting law: successive calls return the non-empty pieces between the
  // separators, in order, and perhaps one empty piece at the very end.
  lemma CallsReturnNonEmptyPieces(s: string, delim: string)
    requires ProperDelim(delim)
    ensures Calls(s, CutsOf(s, delim), 0) == NonEmpty(RawPieces(s, delim, 0))
  {
    CutsAreAtSeparators(s, delim);
    CallsSkipEmptyPieces(s, delim, CutsOf(s, delim), 0);
  }

  // ---- When escapes are read as intended ----

  // A backslash is meant to escape one character.
  function Intended(q: Reading, c: char): (r: Reading) {
    if c == '"' && !q.inChar && !q.escaped then q.(inString := !q.inString)
    else if c == '\'' && !q.inString && !q.escaped then q.(inChar := !q.inChar)
    else if c == '\\' then q.(escaped := !q.escaped)
    else q.(escaped := false)
  }

  function IntendedAt(s: string, k: nat): (q: Reading)
    requires k <= |s|
  {
    if k == 0 then OUTSIDE else Intended(IntendedAt(s, k - 1), s[k - 1])
  }

  // Something of interest at k follows an escaped quote or separator.
  predicate Overrun(s: string, delim: string, k: nat)
    requires k < |s|
  {
    && 0 < k && IntendedAt(s, k - 1).escaped
    && s[k - 1] != '\\' && IsInteresting(delim, s[k - 1]) && IsInteresting(delim, s[k])
  }

  predicate NoOverrun(s: string, delim: string) {
    forall k :: 0 <= k < |s| ==> !Overrun(s, delim, k)
  }

  predicate ReadAsIntended(s: string, delim: string, k: nat)
    requires k < |s|
  {
    IsInteresting(delim, s[k]) ==> ReadingAt(s, delim, 0, k) == IntendedAt(s, k)
  }

  // What a quote, backslash or separator means is as intended throughout a list
  // if and only if none of them follows an escaped quote or separator directly.
  lemma EscapesAreAsIntendedIff(s: string, delim: string)
    ensures (forall k :: 0 <= k < |s| ==> ReadAsIntended(s, delim, k)) <==> NoOverrun(s, delim)
  {
    if NoOverrun(s, delim) {
      forall k | 0 <= k < |s|
        ensures ReadAsIntended(s, delim, k)
      {
        ReadingsMeet(s, delim, k);
        assert !Overrun(s, delim, k);
      }
    }
    if forall k :: 0 <= k < |s| ==> ReadAsIntended(s, delim, k) {
      forall k | 0 < k < |s|
        ensures !Overrun(s, delim, k)
      {
        assert ReadAsIntended(s, delim, k) && ReadAsIntended(s, delim, k - 1);
      }
    }
  }

  // The two readings differ at most behind an escaped quote or separator.
  lemma {:induction false} ReadingsMeet(s: string, delim: string, k: nat)
    requires k <= |s| && forall j :: 0 <= j < k ==> !Overrun(s, delim, j)
    ensures var q, r := ReadingAt(s, delim, 0, k), IntendedAt(s, k);
      || q == r
      || (k > 0 && IntendedAt(s, k - 1).escaped && s[k - 1] != '\\' && IsInteresting(delim, s[k - 1])
          && q == r.(escaped := true))
  {
    if k > 0 {
      ReadingsMeet(s, delim, k - 1);
      assert !Overrun(s, delim, k - 1);
    }
  }

  // It is the reading told by the text: the quote that is open, and whether an odd
  // number of backslashes stands in front.
  lemma {:induction false} IntendedLaw(s: string, k: nat)
    requires k <= |s|
    ensures IntendedAt(s, k) ==
      Reading(R.OpenQuote(s, k) == Some('"'), R.OpenQuote(s, k) == Some('\''), R.IsEscaped(s, k))
  {
    if k > 0 {
      IntendedLaw(s, k - 1);
      R.OnlyQuotesOpen(s, k - 1);
    }
  }

  // The pieces between the marked places from `from` on.
  function PiecesAt(marks: seq<bool>, from: nat): (pieces: Pieces)
    requires from <= |marks|
    decreases |marks| - from
  {
    var n := NextMark(marks, from);
    if n == |marks| then Last(from, n) else More(from, n, PiecesAt(marks, n + 1))
  }

  function NextMark(marks: seq<bool>, from: nat): (n: nat)
    requires from <= |marks|
    ensures from <= n <= |marks| && (n < |marks| ==> marks[n])
    ensures forall k :: from <= k < n ==> !marks[k]
    decreases |marks| - from
  {
    if from == |marks| || marks[from] then from else NextMark(marks, from + 1)
  }

  // Where a list is cut, and where it is meant to be cut.
  function Cuts(s: string, delim: string): (marks: seq<bool>)
    ensures |marks| == |s| && forall k :: 0 <= k < |s| ==> marks[k] == Separates(s, delim, 0, k)
  {
    seq(|s|, k requires 0 <= k < |s| => Separates(s, delim, 0, k))
  }

  predicate MeantToSeparate(s: string, delim: string, k: nat)
    requires k < |s|
  {
    s[k] in delim && IntendedAt(s, k) == OUTSIDE
  }

  function IntendedCuts(s: string, delim: string): (marks: seq<bool>)
    ensures |marks| == |s| && forall k :: 0 <= k < |s| ==> marks[k] == MeantToSeparate(s, delim, k)
  {
    seq(|s|, k requires 0 <= k < |s| => MeantToSeparate(s, delim, k))
  }

  // The pieces a list is meant to have: cut where a separator is neither in quotes
  // nor escaped by the one backslash in front of it.
  function IntendedPieces(s: string, delim: string): (pieces: Pieces) {
    PiecesAt(IntendedCuts(s, delim), 0)
  }

  lemma {:induction false} SeparatorIsMark(s: string, delim: string, i: nat)
    requires i <= |s|
    ensures Separator(s, delim, i, ReadingAt(s, delim, 0, i)) == NextMark(Cuts(s, delim), i)
    decreases |s| - i
  {
    if i < |s| {
      assert Cuts(s, delim)[i] == Separates(s, delim, 0, i);
      if !Separates(s, delim, 0, i) { SeparatorIsMark(s, delim, i + 1); }
    }
  }

  lemma {:induction false} RawPiecesAreMarked(s: string, delim: string, from: nat)
    requires ProperDelim(delim) && from <= |s| && ReadingAt(s, delim, 0, from) == OUTSIDE
    ensures RawPieces(s, delim, from) == PiecesAt(Cuts(s, delim), from)
    decreases |s| - from
  {
    var n := NextMark(Cuts(s, delim), from);
    SeparatorIsMark(s, delim, from);
    if n < |s| {
      assert Separates(s, delim, 0, n) && !IsSpecial(s[n]);
      RawPiecesAreMarked(s, delim, n + 1);
    }
  }

  lemma {:induction false} PiecesShowMarks(a: seq<bool>, b: seq<bool>, from: nat, k: nat)
    requires |a| == |b| && from <= k < |a| && PiecesAt(a, from) == PiecesAt(b, from)
    ensures a[k] == b[k]
    decreases |a| - from
  {
    var n := NextMark(a, from);
    assert n == NextMark(b, from);
    if k > n { PiecesShowMarks(a, b, n + 1, k); }
  }

  // A list is cut as intended if and only if each of its separators separates when
  // it is meant to.
  lemma PiecesAreAsIntendedIff(s: string, delim: string)
    requires ProperDelim(delim)
    ensures RawPieces(s, delim, 0) == IntendedPieces(s, delim)
      <==> forall k :: 0 <= k < |s| ==> (Separates(s, delim, 0, k) <==> MeantToSeparate(s, delim, k))
  {
    var a, b := Cuts(s, delim), IntendedCuts(s, delim);
    RawPiecesAreMarked(s, delim, 0);
    if RawPieces(s, delim, 0) == IntendedPieces(s, delim) {
      forall k | 0 <= k < |s|
        ensures Separates(s, delim, 0, k) <==> MeantToSeparate(s, delim, k)
      {
        PiecesShowMarks(a, b, 0, k);
      }
    }
    if forall k :: 0 <= k < |s| ==> (Separates(s, delim, 0, k) <==> MeantToSeparate(s, delim, k)) {
      assert a == b;
    }
  }

  // So it is whenever no quote, backslash or separator follows an escaped quote or
  // separator directly.
  lemma WithoutOverrunCutAsIntended(s: string, delim: string)
    requires ProperDelim(delim) && NoOverrun(s, delim)
    ensures RawPieces(s, delim, 0) == IntendedPieces(s, delim)
  {
    EscapesAreAsIntendedIff(s, delim);
    forall k | 0 <= k < |s|
      ensures Separates(s, delim, 0, k) <==> MeantToSeparate(s, delim, k)
    {
      assert ReadAsIntended(s, delim, k);
    }
    PiecesAreAsIntendedIff(s, delim);
  }

  // ---- Lists without quotes ----

  predicate NoQuotes(s: string) {
    '"' !in s && '\'' !in s
  }

  // The separator at j is escaped, and up to the one at k there are only backslashes.
  predicate CarriesOver(s: string, delim: string, j: nat, k: nat)
    requires j < k < |s|
  {
    s[j] in delim && s[k] in delim && R.IsEscaped(s, j) && R.BackslashesBefore(s, k) == k - j - 1
  }

  lemma {:induction false} IntendedByParity(s: string, k: nat)
    requires NoQuotes(s) && k <= |s|
    ensures IntendedAt(s, k) == Reading(false, false, R.IsEscaped(s, k))
  {
    if k > 0 {
      IntendedByParity(s, k - 1);
      assert s[k - 1] in s;
    }
  }

  // Before the backslashes in front of k stands an escaped separator.
  ghost predicate Carried(s: string, delim: string, k: nat)
    requires k <= |s|
  {
    var p := k - R.BackslashesBefore(s, k);
    p > 0 && s[p - 1] in delim && ReadingAt(s, delim, 0, p - 1).escaped
  }

  // That changes how k is read, and nothing else does.
  lemma {:induction false} ReadByParity(s: string, delim: string, k: nat)
    requires NoQuotes(s) && k <= |s| && ProperDelim(delim)
    ensures ReadingAt(s, delim, 0, k) == Reading(false, false, R.IsEscaped(s, k) != Carried(s, delim, k))
  {
    if k > 0 {
      ReadByParity(s, delim, k - 1);
      assert s[k - 1] in s;
    }
  }

  lemma Carries(s: string, delim: string, j: nat, k: nat)
    requires j < k < |s| && s[j] in delim && s[k] in delim
    requires R.IsEscaped(s, j) && R.BackslashesBefore(s, k) == k - j - 1
    ensures CarriesOver(s, delim, j, k)
  {
  }

  lemma {:induction false} SeparatorAgrees(s: string, delim: string, k: nat)
    requires NoQuotes(s) && ProperDelim(delim) && k < |s| && s[k] in delim
    requires forall i, j :: 0 <= i < j < |s| ==> !CarriesOver(s, delim, i, j)
    ensures Separates(s, delim, 0, k) <==> MeantToSeparate(s, delim, k)
  {
    ReadByParity(s, delim, k);
    IntendedByParity(s, k);
    if Carried(s, delim, k) {
      var j := k - R.BackslashesBefore(s, k) - 1;
      SeparatorAgrees(s, delim, j);
      IntendedByParity(s, j);
      Carries(s, delim, j, k);
    }
  }

  lemma OneDisagrees(s: string, delim: string, j: nat, k: nat)
    requires NoQuotes(s) && ProperDelim(delim) && j < k < |s| && CarriesOver(s, delim, j, k)
    ensures (Separates(s, delim, 0, j) && !MeantToSeparate(s, delim, j))
      || (Separates(s, delim, 0, k) <==> !MeantToSeparate(s, delim, k))
  {
    ReadByParity(s, delim, j);
    IntendedByParity(s, j);
    ReadByParity(s, delim, k);
    IntendedByParity(s, k);
  }

  // Without quotes a list is cut as intended if and only if there are no two
  // separators with nothing but backslashes between them, the first of which has an
  // odd number of backslashes directly in front of it.
  lemma WithoutQuotesAsIntendedIff(s: string, delim: string)
    requires NoQuotes(s) && ProperDelim(delim)
    ensures RawPieces(s, delim, 0) == IntendedPieces(s, delim)
      <==> forall j, k :: 0 <= j < k < |s| ==> !CarriesOver(s, delim, j, k)
  {
    PiecesAreAsIntendedIff(s, delim);
    if RawPieces(s, delim, 0) == IntendedPieces(s, delim) {
      forall j, k | 0 <= j < k < |s|
        ensures !CarriesOver(s, delim, j, k)
      {
        if CarriesOver(s, delim, j, k) { OneDisagrees(s, delim, j, k); }
      }
    }
    if forall j, k :: 0 <= j < k < |s| ==> !CarriesOver(s, delim, j, k) {
      forall k | 0 <= k < |s|
        ensures Separates(s, delim, 0, k) <==> MeantToSeparate(s, delim, k)
      {
        if s[k] in delim { SeparatorAgrees(s, delim, k); }
      }
    }
  }

  lemma {:induction false} NothingIsEscaped(s: string, k: nat)
    requires '\\' !in s && k <= |s|
    ensures !IntendedAt(s, k).escaped
  {
    if k > 0 {
      NothingIsEscaped(s, k - 1);
      assert s[k - 1] in s;
    }
  }

  // In particular without backslashes: the calls return the non-empty pieces
  // between the separators outside quotes, and nothing is escaped.
  lemma WithoutBackslashes(s: string, delim: string)
    requires ProperDelim(delim) && '\\' !in s
    ensures Calls(s, CutsOf(s, delim), 0) == NonEmpty(IntendedPieces(s, delim))
    ensures forall k :: 0 <= k <= |s| ==> !IntendedAt(s, k).escaped
  {
    forall k | 0 <= k <= |s|
      ensures !IntendedAt(s, k).escaped
    {
      NothingIsEscaped(s, k);
    }
    WithoutOverrunCutAsIntended(s, delim);
    CallsReturnNonEmptyPieces(s, delim);
  }

  // A list that is not cut as intended: the semicolon of \"; is taken for an
  // escaped one.
  lemma EscapeRunsOn()
    ensures var s := "\\\";"; RawPieces(s, ";", 0) == Last(0, 3) && IntendedPieces(s, ";") == More(0, 2, Last(3, 3))
  {
    var s := "\\\";";
    assert ReadingAt(s, ";", 0, 1) == Reading(false, false, true);
    assert Separator(s, ";", 2, Reading(false, false, true)) == 3;
    assert Separator(s, ";", 1, Reading(false, false, true)) == 3;
    var marks := IntendedCuts(s, ";");
    assert IntendedAt(s, 1) == Reading(false, false, true) && IntendedAt(s, 2) == OUTSIDE;
    assert !marks[0] && !marks[1] && marks[2];
    assert NextMark(marks, 2) == 2 && NextMark(marks, 1) == 2 && NextMark(marks, 0) == 2;
  }
}
