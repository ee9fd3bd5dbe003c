// sway/commands/bind.c, sway/config.c: what a keymap makes of the bindings, told by
// the keymap, and which of them stay, told by their order.
module BindingLaws {
  import opened Bindings
  import opened Wrappers

  // A single keycode gives the keysym, which is none of the absent ones.
  ghost predicate Gives(keymap: Keymap, code: nat, sym: nat) {
    sym != 0 && exists i :: 0 <= i < |keymap| && keymap[i] == (code, sym) && IsAlone(keymap, i)
  }

  predicate IsAlone(keymap: Keymap, i: nat)
    requires i < |keymap|
  {
    forall j :: 0 <= j < |keymap| && j != i ==> keymap[j].1 != keymap[i].1
  }

  ghost predicate AllGive(keymap: Keymap, codes: seq<nat>, syms: seq<nat>) {
    |codes| == |syms| && forall i :: 0 <= i < |codes| ==> Gives(keymap, codes[i], syms[i])
  }

  lemma GivesIff(keymap: Keymap, code: nat, sym: nat)
    ensures CodeFor(keymap, sym) == Some(code) <==> Gives(keymap, code, sym)
  {
    CodeForIff(keymap, sym, code);
    if CodeFor(keymap, sym) == Some(code) {
      var i :| 0 <= i < |keymap| && keymap[i].0 == code && OnlyMatch(keymap, sym, i);
      forall j | 0 <= j < |keymap| && j != i
        ensures keymap[j].1 != keymap[i].1
      {
        assert !IsMatch(keymap[j], sym);
      }
      assert IsAlone(keymap, i) && keymap[i] == (code, sym);
    }
    if Gives(keymap, code, sym) {
      var i :| 0 <= i < |keymap| && keymap[i] == (code, sym) && IsAlone(keymap, i);
      assert OnlyMatch(keymap, sym, i);
    }
  }

  lemma {:induction false} CodesIff(keymap: Keymap, syms: seq<nat>, codes: seq<nat>)
    ensures Codes(keymap, syms) == Some(codes) <==> AllGive(keymap, codes, syms)
    decreases |syms|
  {
    if syms != [] {
      var last := |syms| - 1;
      if codes != [] {
        var n := |codes| - 1;
        CodesIff(keymap, syms[..last], codes[..n]);
        GivesIff(keymap, codes[n], syms[last]);
        assert codes == codes[..n] + [codes[n]];
        if AllGive(keymap, codes, syms) { FrontGives(keymap, codes, syms); }
        if Codes(keymap, syms) == Some(codes) { LastGives(keymap, codes, syms); }
      }
    }
  }

  lemma FrontGives(keymap: Keymap, codes: seq<nat>, syms: seq<nat>)
    requires syms != [] && AllGive(keymap, codes, syms)
    ensures AllGive(keymap, codes[..|codes| - 1], syms[..|syms| - 1])
  {
    var n := |codes| - 1;
    forall i | 0 <= i < n
      ensures Gives(keymap, codes[..n][i], syms[..n][i])
    {
      assert Gives(keymap, codes[i], syms[i]);
    }
  }

  lemma LastGives(keymap: Keymap, codes: seq<nat>, syms: seq<nat>)
    requires syms != [] && codes != [] && Codes(keymap, syms) == Some(codes)
    requires Codes(keymap, syms[..|syms| - 1]) == Some(codes[..|codes| - 1]) ==>
      AllGive(keymap, codes[..|codes| - 1], syms[..|syms| - 1])
    ensures AllGive(keymap, codes, syms)
  {
    var n, front := |codes| - 1, Codes(keymap, syms[..|syms| - 1]).value;
    assert codes[..n] == front && codes[n] == CodeFor(keymap, syms[|syms| - 1]).value;
    GivesIff(keymap, codes[n], syms[|syms| - 1]);
    forall i | 0 <= i < |codes|
      ensures Gives(keymap, codes[i], syms[i])
    {
      if i < n { assert Gives(keymap, codes[..n][i], syms[..n][i]); }
    }
  }

  // A binding is translated if and only if it is for the keyboard, is marked for it,
  // and each of its keysyms is given by a single keycode: then it is for these
  // keycodes, sorted, and keeps its keysyms.  Else a marked one is for its keysyms, and
  // any other one is left alone.  Nothing but kind, keys and keysyms ever changes.
  lemma TranslationLaw(v: Value, keymap: Keymap, codes: seq<nat>)
    requires WellFormed(v)
    ensures var r := Translated(v, keymap);
      && r == v.(kind := r.kind, keys := r.keys, syms := r.syms)
      && (Code !in v.flags || v.kind == MouseCode || v.kind == MouseSym ==> r == v)
      && (Code in v.flags && (v.kind == KeySym || v.kind == KeyCode) ==>
            var syms := if v.kind == KeySym then v.keys else v.syms.value;
            && (AllGive(keymap, codes, syms) ==>
                  r.kind == KeyCode && r.syms == Some(syms) && Ascending(r.keys)
                  && multiset(r.keys) == multiset(codes))
            && ((forall others :: !AllGive(keymap, others, syms)) ==>
                  r.kind == KeySym && r.keys == syms && r.syms == None))
  {
    if IsTranslatable(v) {
      var syms := Original(v);
      CodesIff(keymap, syms, codes);
      if Codes(keymap, syms).Some? {
        var found := Codes(keymap, syms).value;
        CodesIff(keymap, syms, found);
        SortAscending(found);
      }
    }
  }

  // ---- Which bindings stay ----

  // The binding at i, under the keymap, has a key that no later one has.
  ghost predicate IsLastWithKey(vs: seq<Value>, keymap: Keymap, i: nat)
    requires i < |vs| && AllWellFormed(vs)
  {
    forall j :: i < j < |vs| ==> KeyOf(Translated(vs[j], keymap)) != KeyOf(Translated(vs[i], keymap))
  }

  ghost predicate ComesLast(vs: seq<Value>, keymap: Keymap, b: Value)
    requires AllWellFormed(vs)
  {
    exists i :: 0 <= i < |vs| && Translated(vs[i], keymap) == b && IsLastWithKey(vs, keymap, i)
  }

  lemma {:induction false} LastWithIs(vs: seq<Value>, k: Key, b: Value)
    ensures LastWith(vs, k) == Some(b) <==>
      exists i :: 0 <= i < |vs| && vs[i] == b && KeyOf(b) == k && forall j :: i < j < |vs| ==> KeyOf(vs[j]) != k
  {
    if vs != [] {
      var n := |vs| - 1;
      LastWithIs(vs[..n], k, b);
      if LastWith(vs, k) == Some(b) {
        if KeyOf(vs[n]) == k {
          assert vs[n] == b;
        } else {
          var i :| 0 <= i < n && vs[..n][i] == b && KeyOf(b) == k && forall j :: i < j < n ==> KeyOf(vs[..n][j]) != k;
          assert forall j :: i < j < |vs| ==> KeyOf(vs[j]) != k by {
            assert forall j :: i < j < n ==> vs[..n][j] == vs[j];
          }
        }
      }
      if exists i :: 0 <= i < |vs| && vs[i] == b && KeyOf(b) == k && forall j :: i < j < |vs| ==> KeyOf(vs[j]) != k {
        var i :| 0 <= i < |vs| && vs[i] == b && KeyOf(b) == k && forall j :: i < j < |vs| ==> KeyOf(vs[j]) != k;
        if i < n {
          assert KeyOf(vs[n]) != k && vs[..n][i] == b;
          assert forall j :: i < j < n ==> vs[..n][j] == vs[j];
        }
      }
    }
  }

  // A keymap change leaves just these bindings: of those that get the same key the
  // last one, where the keysym bindings come before the keycode bindings.
  lemma RetranslationLaw(t: Tables, keymap: Keymap, b: Value)
    requires AreTables(t)
    ensures AllWellFormed(t.syms + t.codes)
    ensures var r := Retranslated(t, keymap);
      && (b in r.syms <==> b.kind == KeySym && ComesLast(t.syms + t.codes, keymap, b))
      && (b in r.codes <==> b.kind == KeyCode && ComesLast(t.syms + t.codes, keymap, b))
  {
    TablesAreWellFormed(t);
    var vs := t.syms + t.codes;
    var image, r := Image(vs, keymap), Retranslated(t, keymap);
    RetranslatedAreTables(t, keymap);
    ImageIsWellFormed(vs, keymap);
    LaterBindingWins(image, KeyOf(b));
    LastWithIs(image, KeyOf(b), b);
    LookupIsMember(r.syms, b);
    LookupIsMember(r.codes, b);
    LastInImage(vs, keymap, b);
    if b in r.syms { KindOfMember(r.syms, KeySym, b); }
    if b in r.codes { KindOfMember(r.codes, KeyCode, b); }
  }

  lemma KindOfMember(t: seq<Value>, kind: Kind, b: Value)
    requires IsTable(t, kind) && b in t
    ensures b.kind == kind
  {
  }

  lemma LookupIsMember(t: seq<Value>, b: Value)
    requires NoConflicts(t)
    ensures Lookup(t, KeyOf(b)) == Some(b) <==> b in t
  {
    if b in t {
      var i :| 0 <= i < |t| && t[i] == b;
      assert FindKey(t, KeyOf(b), 0) == i;
    }
  }

  lemma LastInImage(vs: seq<Value>, keymap: Keymap, b: Value)
    requires AllWellFormed(vs)
    ensures var image := Image(vs, keymap);
      ComesLast(vs, keymap, b) <==>
        exists i :: 0 <= i < |image| && image[i] == b && forall j :: i < j < |image| ==> KeyOf(image[j]) != KeyOf(b)
  {
    var image := Image(vs, keymap);
    if ComesLast(vs, keymap, b) {
      var i :| 0 <= i < |vs| && Translated(vs[i], keymap) == b && IsLastWithKey(vs, keymap, i);
      assert image[i] == b && forall j :: i < j < |image| ==> KeyOf(image[j]) != KeyOf(b);
    }
    if exists i :: 0 <= i < |image| && image[i] == b && forall j :: i < j < |image| ==> KeyOf(image[j]) != KeyOf(b) {
      var i :| 0 <= i < |image| && image[i] == b && forall j :: i < j < |image| ==> KeyOf(image[j]) != KeyOf(b);
      forall j | i < j < |vs|
        ensures KeyOf(Translated(vs[j], keymap)) != KeyOf(b)
      {
        assert KeyOf(image[j]) != KeyOf(b);
      }
      assert IsLastWithKey(vs, keymap, i);
    }
  }

  // A keymap change is no more than that, and binding and unbinding leave the keymap.
  lemma KeymapLaw(s: State, e: Event)
    requires CanHappen(e) && IsGood(s)
    ensures Step(s, e).keymap == if e.ChangeKeymap? then e.keymap else s.keymap
    ensures e.ChangeKeymap? ==> Step(s, e).mouse == s.mouse
  {
  }

  // Where a binding goes in its table: to the place of the one it replaces, or behind
  // all others, which stay where they are.
  lemma UpsertPlace(t: seq<Value>, v: Value, i: nat)
    requires NoConflicts(t) && i < |t|
    ensures Upserted(t, v)[i] == if KeyOf(t[i]) == KeyOf(v) then v else t[i]
    ensures (exists j :: 0 <= j < |t| && KeyOf(t[j]) == KeyOf(v)) <==> |Upserted(t, v)| == |t|
    ensures |Upserted(t, v)| == |t| || (|Upserted(t, v)| == |t| + 1 && Upserted(t, v)[|t|] == v)
  {
  }
}
