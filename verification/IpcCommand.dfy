// sway/ipc-server.c: the text of an IPC command, whose lines are made into
// commands of one list before it is executed.
module IpcCommand {
  import opened Wrappers
  import Q = Quotes

  const NUL := '\0'
  const NEWLINE := '\n'

  // A line ends in a semicolon instead of a newline; further newlines behind it,
  // and those at the very start, stay.
  function Joined(s: string, blank: bool): (r: string)
    ensures |r| == |s|
  {
    if s == [] then []
    else if s[0] == NEWLINE then [if blank then NEWLINE else ';'] + Joined(s[1..], true)
    else [s[0]] + Joined(s[1..], false)
  }

  predicate EndsLine(s: string, k: nat)
    requires k < |s|
  {
    s[k] == NEWLINE && k > 0 && s[k - 1] != NEWLINE
  }

  // Just the newlines at the end of a line are replaced.
  lemma {:induction false} JoinedAt(s: string, blank: bool, k: nat)
    requires k < |s|
    ensures Joined(s, blank)[k] ==
      if k == 0 then (if s[0] == NEWLINE && !blank then ';' else s[0]) else if EndsLine(s, k) then ';' else s[k]
  {
    if k > 0 {
      JoinedAt(s[1..], s[0] == NEWLINE, k - 1);
    }
  }

  // The text behind `pos` is still that of s, the text before it is joined.
  ghost predicate JoinedUpTo(buf: array<char>, s: string, pos: nat)
    reads buf
  {
    && pos <= |s| < buf.Length
    && NUL !in s
    && buf[|s|] == NUL
    && (forall k :: 0 <= k < pos ==> buf[k] == Joined(s, true)[k])
    && (forall k :: pos <= k < |s| ==> buf[k] == s[k])
  }

  // The line that ends at `end` is cut off there; the text before is joined.
  ghost predicate CutOffAt(buf: array<char>, s: string, end: nat)
    reads buf
  {
    && end <= |s| < buf.Length
    && NUL !in s
    && buf[|s|] == NUL && buf[end] == NUL
    && (end < |s| ==> EndsLine(s, end))
    && (forall k :: 0 <= k < end ==> buf[k] == Joined(s, true)[k])
    && (forall k :: end < k < |s| ==> buf[k] == s[k])
  }

  // strtok: skips newlines and cuts off the next line, if there is one.
  method NextLine(buf: array<char>, pos: nat, ghost s: string)
    returns (line: Option<nat>, next: nat, ghost end: nat)
    requires JoinedUpTo(buf, s, pos) && (0 < pos < |s| ==> s[pos - 1] == NEWLINE)
    modifies buf
    ensures line == None ==> JoinedUpTo(buf, s, |s|)
    ensures line.Some? ==> CutOffAt(buf, s, end) && pos <= line.value < end
    ensures line.Some? ==> next == if end < |s| then end + 1 else end
  {
    var start := pos;
    while buf[start] == NEWLINE
      invariant pos <= start <= |s| && JoinedUpTo(buf, s, start)
      invariant 0 < start < |s| ==> s[start - 1] == NEWLINE
      decreases |s| - start
    {
      JoinedAt(s, true, start);
      start := start + 1;
    }
    assert start < |s| ==> buf[start] in s;
    if buf[start] == NUL {
      return None, start, start;
    }
    var i := start;
    while buf[i] != NUL && buf[i] != NEWLINE
      invariant start <= i <= |s| && JoinedUpTo(buf, s, i)
      invariant i > start ==> s[i - 1] != NEWLINE
      decreases |s| - i
    {
      JoinedAt(s, true, i);
      i := i + 1;
    }
    assert i < |s| ==> buf[i] in s;
    end := i;
    if buf[i] == NEWLINE {
      buf[i] := NUL;
      next := i + 1;
    } else {
      next := i;
    }
    line := Some(start);
  }

  method StrLenAt(buf: array<char>, from: nat, ghost s: string, ghost end: nat) returns (length: nat)
    requires CutOffAt(buf, s, end) && from <= end
    ensures length == end - from
  {
    JoinedHasNoNul(s, true);
    assert forall k :: from <= k < end ==> buf[k] in Joined(s, true);
    var i := from;
    while buf[i] != NUL
      invariant from <= i <= end
      decreases end - i
    {
      i := i + 1;
    }
    length := i - from;
  }

  // The loop over the lines of a command of the given length.
  method JoinLines(buf: array<char>, length: nat, ghost s: string)
    requires Q.Holds(buf, s) && length == |s|
    modifies buf
    ensures Q.Holds(buf, Joined(s, true))
  {
    assert forall k :: 0 <= k < |s| ==> buf[k] == buf[..|s|][k];
    var line, next, end := NextLine(buf, 0, s);
    while line.Some?
      invariant line == None ==> JoinedUpTo(buf, s, |s|)
      invariant line.Some? ==> CutOffAt(buf, s, end) && line.value < end
      invariant line.Some? ==> next == if end < |s| then end + 1 else end
      decreases if line.Some? then |s| + 1 - end else 0
    {
      var lineLength := StrLenAt(buf, line.value, s, end);
      if line.value + lineLength >= length {
        break;
      }
      JoinedAt(s, true, end);
      buf[line.value + lineLength] := ';';
      line, next, end := NextLine(buf, next, s);
    }
    ghost var joined := Joined(s, true);
    assert buf[..|s|] == joined;
    JoinedHasNoNul(s, true);
  }

  lemma {:induction false} JoinedHasNoNul(s: string, blank: bool)
    requires NUL !in s
    ensures NUL !in Joined(s, blank)
  {
    if s != [] { JoinedHasNoNul(s[1..], s[0] == NEWLINE); }
  }
}
