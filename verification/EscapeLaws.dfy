// common/stringop.c: what the escapes of a string stand for, told by its characters.
module EscapeLaws {
  import opened Quotes
  import opened Readings
  import opened Sequences
  import opened Wrappers

  // The letters that are known, with the codes of the characters they stand for.
  const MEANINGS: map<char, int> := map[
    'a' := 7, 'b' := 8, 'f' := 12, 'n' := 10, 'r' := 13, 't' := 9, 'v' := 11, '\\' := 92, '\'' := 39, '"' := 34,
    '?' := 63]

  lemma EscapeTable(c: char)
    ensures EscapeValue(c).Some? <==> c in MEANINGS
    ensures c in MEANINGS ==> EscapeValue(c).value as int == MEANINGS[c]
  {
  }

  function CharOf(code: int): (c: char)
    requires 0 <= code < 0x100
  {
    code as char
  }

  // What an escape stands for: the character of a known letter, nothing for an x
  // without digits, and itself if the letter is not known.
  function Meaning(c: char): (r: string) {
    if c == 'x' then [] else if c in MEANINGS then [CharOf(MEANINGS[c])] else ['\\', c]
  }

  // What the character at k adds: an escape its meaning, the letter of one nothing,
  // any other itself.
  function Adds(s: string, k: nat): (r: string)
    requires k < |s|
  {
    if EscapeAt(s, k) && k + 1 < |s| then Meaning(s[k + 1])
    else if k > 0 && EscapeAt(s, k - 1) then []
    else [s[k]]
  }

  function Added(s: string, k: nat): (r: string)
    requires k <= |s|
  {
    if k == 0 then [] else Added(s, k - 1) + Adds(s, k - 1)
  }

  // The scan stops at the hexadecimal escape at k.
  predicate IsHexAt(s: string, k: nat) {
    k + 2 < |s| && EscapeAt(s, k) && s[k + 1] == 'x' && IsDigit(s[k + 2])
  }

  // Its byte, of one or two decimal digits taken as hexadecimal ones, and how far it
  // goes.
  function HexAt(s: string, k: nat): (r: (int, nat))
    requires IsHexAt(s, k)
    ensures k + 2 < r.1 <= |s| && 0 <= r.0 < 0x100
  {
    var d := s[k + 2] as int - '0' as int;
    if k + 3 < |s| && IsDigit(s[k + 3]) then (16 * d + s[k + 3] as int - '0' as int, k + 4) else (d, k + 3)
  }

  lemma DecodePlain(s: string, i: nat)
    requires i < |s| && s[i] != '\\' && Decodable(s[i..])
    ensures Decodable(s[i + 1..]) && Decode(s[i..]) == [s[i]] + Decode(s[i + 1..])
  {
    var rest := s[i..];
    assert rest[0] == s[i] && rest[1..] == s[i + 1..];
  }

  lemma DecodeEscape(s: string, i: nat)
    requires i < |s| && s[i] == '\\' && Decodable(s[i..])
    requires i + 2 < |s| && s[i + 1] == 'x' ==> !IsDigit(s[i + 2])
    ensures i + 1 < |s| && Decodable(s[i + 2..]) && Decode(s[i..]) == Meaning(s[i + 1]) + Decode(s[i + 2..])
  {
    var rest := s[i..];
    assert rest[0] == s[i] && rest[1] == s[i + 1] && rest[2..] == s[i + 2..];
    assert i + 2 < |s| ==> rest[2..][0] == s[i + 2];
    EscapeTable(s[i + 1]);
    if s[i + 1] == 'x' {
      assert [] + Decode(s[i + 2..]) == Decode(s[i + 2..]);
    }
  }

  lemma HexRead(s: string, k: nat, tail: string)
    requires IsHexAt(s, k) && tail == s[k + 2..]
    ensures var (b, end) := HexAt(s, k);
      HexDigits(tail) > 0 && end == k + 2 + HexDigits(tail) && HexByte(tail) == CharOf(b)
  {
    assert tail[0] == s[k + 2] && |tail| == |s| - k - 2;
    assert k + 3 < |s| ==> tail[1] == s[k + 3];
  }

  lemma DecodeHex(s: string, k: nat)
    requires IsHexAt(s, k) && Decodable(s[k..])
    ensures var (b, end) := HexAt(s, k); Decode(s[k..]) == Squeezed([CharOf(b)]) + s[end..]
  {
    var rest, tail := s[k..], s[k + 2..];
    assert rest[0] == s[k] && rest[1] == s[k + 1] && rest[2..] == tail;
    HexRead(s, k, tail);
    assert rest[2 + HexDigits(tail)..] == s[HexAt(s, k).1..];
  }

  lemma AddedPlain(s: string, i: nat)
    requires i < |s| && s[i] != '\\' && BackslashesBefore(s, i) % 2 == 0
    ensures Added(s, i + 1) == Added(s, i) + [s[i]]
  {
    if i > 0 && s[i - 1] == '\\' { assert BackslashesBefore(s, i) == 1 + BackslashesBefore(s, i - 1); }
  }

  lemma AddedEscape(s: string, i: nat)
    requires i + 1 < |s| && EscapeAt(s, i)
    ensures Added(s, i + 2) == Added(s, i) + Meaning(s[i + 1])
    ensures BackslashesBefore(s, i + 2) % 2 == 0 && !EscapeAt(s, i + 1)
  {
    assert Added(s, i + 1) + [] == Added(s, i + 1);
  }

  // What the text up to i adds and what the rest decodes to make up the whole.
  ghost predicate DecodesAt(s: string, i: nat, whole: string) {
    i <= |s| && Decodable(s[i..]) && Added(s, i) + Decode(s[i..]) == whole
  }

  lemma PlainOn(s: string, i: nat, whole: string)
    requires i < |s| && s[i] != '\\' && BackslashesBefore(s, i) % 2 == 0 && DecodesAt(s, i, whole)
    ensures DecodesAt(s, i + 1, whole)
  {
    DecodePlain(s, i);
    AddedPlain(s, i);
    Associative(Added(s, i), [s[i]], Decode(s[i + 1..]));
  }

  lemma EscapeOn(s: string, i: nat, whole: string)
    requires i < |s| && EscapeAt(s, i) && DecodesAt(s, i, whole) && !IsHexAt(s, i)
    ensures i + 2 <= |s| && DecodesAt(s, i + 2, whole)
    ensures BackslashesBefore(s, i + 2) % 2 == 0 && !EscapeAt(s, i + 1)
  {
    DecodeEscape(s, i);
    AddedEscape(s, i);
    Associative(Added(s, i), Meaning(s[i + 1]), Decode(s[i + 2..]));
  }

  lemma {:induction false} DecodeFrom(s: string, i: nat, k: nat, whole: string)
    requires i <= k <= |s| && BackslashesBefore(s, i) % 2 == 0 && DecodesAt(s, i, whole)
    requires (forall j :: i <= j < k ==> !IsHexAt(s, j)) && (k < |s| ==> IsHexAt(s, k))
    ensures DecodesAt(s, k, whole)
    decreases k - i
  {
    if i < k {
      if s[i] != '\\' {
        PlainOn(s, i, whole);
        DecodeFrom(s, i + 1, k, whole);
      } else {
        EscapeOn(s, i, whole);
        DecodeFrom(s, i + 2, k, whole);
      }
    }
  }

  // A string without \0 at which the scan would end, and without a backslash that is
  // left alone, decodes to what its characters add, up to the first hexadecimal escape;
  // that is its byte, if it is not zero, and what follows it is kept.
  lemma DecodeLaw(s: string, k: nat)
    requires Decodable(s) && k <= |s|
    requires (forall j :: 0 <= j < k ==> !IsHexAt(s, j)) && (k < |s| ==> IsHexAt(s, k))
    ensures Decode(s) == Added(s, k) +
      if k == |s| then [] else
        var (b, end) := HexAt(s, k);
        (if b == 0 then [] else [CharOf(b)]) + s[end..]
  {
    assert s[0..] == s && [] + Decode(s) == Decode(s);
    DecodeFrom(s, 0, k, Decode(s));
    EndDecodes(s, k);
  }

  lemma EndDecodes(s: string, k: nat)
    requires k <= |s| && Decodable(s[k..]) && (k < |s| ==> IsHexAt(s, k))
    ensures Decode(s[k..]) ==
      if k == |s| then [] else
        var (b, end) := HexAt(s, k);
        (if b == 0 then [] else [CharOf(b)]) + s[end..]
  {
    if k < |s| {
      DecodeHex(s, k);
      OneSqueezed(CharOf(HexAt(s, k).0));
    }
  }

  lemma OneSqueezed(b: char)
    ensures Squeezed([b]) == if b == NUL then [] else [b]
  {
    assert [b][1..] == [];
  }
}
