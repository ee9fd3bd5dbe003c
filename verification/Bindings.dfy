// sway/commands/bind.c, sway/config.c: the key bindings of a mode, as tables
// keyed by what triggers them, and the translation of keysyms to keycodes.
module Bindings {
  import opened Wrappers

  datatype Kind = KeyCode | KeySym | MouseCode | MouseSym

  datatype Flag = Release | Locked | Border | Contents | Titlebar | Code | Reload | Inhibited | NoRepeat | Exact

  const CONFLICTING := {Release, Border, Contents, Titlebar, Locked, Inhibited}

  // What a binding holds.  `syms` is kept only while its keysyms are translated.
  datatype Value = Value(
    kind: Kind, order: int, input: string, flags: set<Flag>, keys: seq<nat>, syms: Option<seq<nat>>,
    modifiers: nat, group: nat, command: string)

  // What makes two bindings conflict.
  datatype Key = Key(kind: Kind, input: string, flags: set<Flag>, keys: seq<nat>, modifiers: nat, group: nat)

  function KeyOf(v: Value): (k: Key) {
    Key(v.kind, v.input, v.flags * CONFLICTING, v.keys, v.modifiers, v.group)
  }

  // ---- Sorted keys ----

  predicate Ascending(keys: seq<nat>) {
    forall i, j :: 0 <= i < j < |keys| ==> keys[i] <= keys[j]
  }

  function Inserted(sorted: seq<nat>, key: nat): (r: seq<nat>)
    ensures multiset(r) == multiset(sorted) + multiset{key}
  {
    if sorted == [] then [key]
    else if key <= sorted[0] then [key] + sorted
    else
      assert sorted == [sorted[0]] + sorted[1..];
      [sorted[0]] + Inserted(sorted[1..], key)
  }

  lemma {:induction false} InsertedAscending(sorted: seq<nat>, key: nat)
    requires Ascending(sorted)
    ensures Ascending(Inserted(sorted, key))
  {
    if sorted != [] && key > sorted[0] {
      var r := Inserted(sorted[1..], key);
      InsertedAscending(sorted[1..], key);
      forall j | 0 <= j < |r|
        ensures sorted[0] <= r[j]
      {
        assert r[j] in multiset(r);
        assert r[j] == key || r[j] in sorted[1..];
      }
    }
  }

  // What qsort makes of keys: LibcSort below says that there is no choice.
  function Sort(keys: seq<nat>): (r: seq<nat>)
    ensures multiset(r) == multiset(keys)
  {
    if keys == [] then []
    else
      assert keys == keys[..|keys| - 1] + [keys[|keys| - 1]];
      Inserted(Sort(keys[..|keys| - 1]), keys[|keys| - 1])
  }

  lemma {:induction false} SortAscending(keys: seq<nat>)
    ensures Ascending(Sort(keys)) && |Sort(keys)| == |keys|
  {
    if keys != [] {
      SortAscending(keys[..|keys| - 1]);
      InsertedAscending(Sort(keys[..|keys| - 1]), keys[|keys| - 1]);
    }
    assert |multiset(Sort(keys))| == |multiset(keys)|;
  }

  lemma FirstIsLeast(a: seq<nat>, x: nat)
    requires Ascending(a) && x in multiset(a)
    ensures a[0] <= x
  {
    assert x in a;
  }

  lemma SameFirst(a: seq<nat>, b: seq<nat>)
    requires Ascending(a) && Ascending(b) && multiset(a) == multiset(b) && a != [] && b != []
    ensures a[0] == b[0]
  {
    assert a[0] in multiset(a) && b[0] in multiset(b);
    FirstIsLeast(a, b[0]);
    FirstIsLeast(b, a[0]);
  }

  lemma RestOf(a: seq<nat>)
    requires a != []
    ensures multiset(a[1..]) == multiset(a) - multiset{a[0]} && (Ascending(a) ==> Ascending(a[1..]))
  {
    assert a == [a[0]] + a[1..];
  }

  lemma {:induction false} AscendingIsUnique(a: seq<nat>, b: seq<nat>)
    requires Ascending(a) && Ascending(b) && multiset(a) == multiset(b)
    ensures a == b
    decreases |a|
  {
    assert |multiset(a)| == |a| && |multiset(b)| == |b|;
    if a != [] {
      SameFirst(a, b);
      RestOf(a);
      RestOf(b);
      AscendingIsUnique(a[1..], b[1..]);
      assert a == [a[0]] + a[1..] && b == [b[0]] + b[1..];
    }
  }

  // Any sorting of the keys gives Sort(keys).
  lemma LibcSort(keys: seq<nat>, sorted: seq<nat>)
    requires Ascending(sorted) && multiset(sorted) == multiset(keys)
    ensures sorted == Sort(keys)
  {
    SortAscending(keys);
    AscendingIsUnique(sorted, Sort(keys));
  }

  // On sorted keys the comparison of bindings asks for the same keys, each as often,
  // and for the same flags apart from those that make no conflict.
  lemma SameKeyIff(a: Value, b: Value)
    requires Ascending(a.keys) && Ascending(b.keys)
    ensures KeyOf(a) == KeyOf(b) <==>
      && a.input == b.input && a.kind == b.kind && a.group == b.group && a.modifiers == b.modifiers
      && a.flags - {Code, Reload, NoRepeat, Exact} == b.flags - {Code, Reload, NoRepeat, Exact}
      && multiset(a.keys) == multiset(b.keys)
  {
    if multiset(a.keys) == multiset(b.keys) { AscendingIsUnique(a.keys, b.keys); }
    ConflictingAreTheOthers(a.flags);
    ConflictingAreTheOthers(b.flags);
  }

  lemma ConflictingAreTheOthers(flags: set<Flag>)
    ensures flags * CONFLICTING == flags - {Code, Reload, NoRepeat, Exact}
  {
    forall f
      ensures f in flags * CONFLICTING <==> f in flags - {Code, Reload, NoRepeat, Exact}
    {
      match f
      case Release => case Locked => case Border => case Contents => case Titlebar =>
      case Code => case Reload => case Inhibited => case NoRepeat => case Exact =>
    }
  }

  // ---- Tables ----

  predicate NoConflicts(t: seq<Value>) {
    forall i, j :: 0 <= i < j < |t| ==> KeyOf(t[i]) != KeyOf(t[j])
  }

  function FindKey(t: seq<Value>, k: Key, from: nat): (i: nat)
    requires from <= |t|
    ensures from <= i <= |t|
    ensures i < |t| ==> KeyOf(t[i]) == k
    ensures forall j :: from <= j < i ==> KeyOf(t[j]) != k
    decreases |t| - from
  {
    if from == |t| || KeyOf(t[from]) == k then from else FindKey(t, k, from + 1)
  }

  function Upserted(t: seq<Value>, v: Value): (r: seq<Value>) {
    var i := FindKey(t, KeyOf(v), 0);
    if i < |t| then t[i := v] else t + [v]
  }

  function Removed(t: seq<Value>, k: Key): (r: seq<Value>) {
    var i := FindKey(t, k, 0);
    if i < |t| then t[..i] + t[i + 1..] else t
  }

  // A table stands for a finite map.
  ghost predicate Represents(t: seq<Value>, m: map<Key, Value>) {
    NoConflicts(t) && forall k :: RepresentsAt(t, m, k)
  }

  predicate RepresentsAt(t: seq<Value>, m: map<Key, Value>, k: Key) {
    var i := FindKey(t, k, 0);
    if i < |t| then k in m && m[k] == t[i] else k !in m
  }

  lemma UpsertFinds(t: seq<Value>, v: Value, k: Key)
    requires NoConflicts(t)
    ensures NoConflicts(Upserted(t, v))
    ensures var r := Upserted(t, v);
      var i, j := FindKey(t, k, 0), FindKey(r, k, 0);
      && (j < |r| <==> k == KeyOf(v) || i < |t|)
      && (j < |r| ==> r[j] == if k == KeyOf(v) then v else t[i])
  {
    var r, n := Upserted(t, v), FindKey(t, KeyOf(v), 0);
    var i := FindKey(t, k, 0);
    assert r[n] == v;
    if k != KeyOf(v) && i < |t| { assert r[i] == t[i]; }
    if i == |t| && k != KeyOf(v) { assert forall j :: 0 <= j < |r| && j != n ==> r[j] == t[j]; }
  }

  // Inserting or updating is map update.
  lemma UpsertIsMapUpdate(t: seq<Value>, m: map<Key, Value>, v: Value)
    requires Represents(t, m)
    ensures Represents(Upserted(t, v), m[KeyOf(v) := v])
  {
    var r, m' := Upserted(t, v), m[KeyOf(v) := v];
    UpsertFinds(t, v, KeyOf(v));
    forall k
      ensures RepresentsAt(r, m', k)
    {
      assert RepresentsAt(t, m, k);
      UpsertFinds(t, v, k);
    }
  }

  function Skip(j: nat, i: nat): (n: nat) {
    if j < i then j else j + 1
  }

  lemma RemovedNoConflicts(t: seq<Value>, gone: Key)
    requires NoConflicts(t)
    ensures NoConflicts(Removed(t, gone))
    ensures var r, n := Removed(t, gone), FindKey(t, gone, 0);
      |r| == (if n < |t| then |t| - 1 else |t|) && forall x :: 0 <= x < |r| ==> r[x] == t[Skip(x, n)]
  {
    var r, n := Removed(t, gone), FindKey(t, gone, 0);
    assert forall x :: 0 <= x < |r| ==> r[x] == t[Skip(x, n)];
  }

  lemma RemoveFinds(t: seq<Value>, gone: Key, k: Key)
    requires NoConflicts(t)
    ensures var r := Removed(t, gone);
      var i, j := FindKey(t, k, 0), FindKey(r, k, 0);
      && (j < |r| <==> k != gone && i < |t|)
      && (j < |r| ==> r[j] == t[i])
  {
    RemovedNoConflicts(t, gone);
    var r, n := Removed(t, gone), FindKey(t, gone, 0);
    var i, j := FindKey(t, k, 0), FindKey(r, k, 0);
    if j < |r| {
      assert r[j] == t[Skip(j, n)];
    }
    if k != gone && i < |t| {
      var x := if i < n then i else i - 1;
      assert r[x] == t[Skip(x, n)];
    }
  }

  lemma RemoveIsMapRemoval(t: seq<Value>, m: map<Key, Value>, gone: Key)
    requires Represents(t, m)
    ensures Represents(Removed(t, gone), m - {gone})
  {
    RemovedNoConflicts(t, gone);
    forall k
      ensures RepresentsAt(Removed(t, gone), m - {gone}, k)
    {
      assert RepresentsAt(t, m, k);
      RemoveFinds(t, gone, k);
    }
  }

  // Every table without conflicts stands for a map, and for one only.
  ghost function MapOf(t: seq<Value>): (m: map<Key, Value>)
    requires NoConflicts(t)
    ensures Represents(t, m)
  {
    if t == [] then
      map[]
    else
      var last := |t| - 1;
      assert t == Upserted(t[..last], t[last]) by { assert FindKey(t[..last], KeyOf(t[last]), 0) == last; }
      UpsertIsMapUpdate(t[..last], MapOf(t[..last]), t[last]);
      MapOf(t[..last])[KeyOf(t[last]) := t[last]]
  }

  predicate AgreeAt(m: map<Key, Value>, m': map<Key, Value>, k: Key) {
    (k in m <==> k in m') && (k in m ==> m[k] == m'[k])
  }

  lemma OneMapOnly(t: seq<Value>, m: map<Key, Value>, m': map<Key, Value>)
    requires Represents(t, m) && Represents(t, m')
    ensures m == m'
  {
    forall k
      ensures AgreeAt(m, m', k)
    {
      assert RepresentsAt(t, m, k) && RepresentsAt(t, m', k);
    }
    assert forall k :: k in m.Keys ==> AgreeAt(m, m', k);
    assert forall k :: k in m'.Keys ==> AgreeAt(m, m', k);
  }

  // ---- Translation ----

  // The keycodes of a keymap, each with the one keysym it gives.
  type Keymap = seq<(nat, nat)>

  const NO_SYMBOL := 0

  // The last keycode that gives a keysym, and how many do.
  datatype Matches = Matches(keycode: nat, count: nat)

  predicate IsMatch(entry: (nat, nat), sym: nat) {
    entry.1 == sym && sym != NO_SYMBOL
  }

  function MatchesIn(keymap: Keymap, sym: nat): (m: Matches) {
    if keymap == [] then Matches(0, 0)
    else
      var last := |keymap| - 1;
      var m := MatchesIn(keymap[..last], sym);
      if IsMatch(keymap[last], sym) then Matches(keymap[last].0, m.count + 1) else m
  }

  function CodeFor(keymap: Keymap, sym: nat): (code: Option<nat>) {
    var m := MatchesIn(keymap, sym);
    if m.count == 1 then Some(m.keycode) else None
  }

  lemma {:induction false} NoMatches(keymap: Keymap, sym: nat)
    ensures MatchesIn(keymap, sym).count == 0 <==> forall i :: 0 <= i < |keymap| ==> !IsMatch(keymap[i], sym)
  {
    if keymap != [] { NoMatches(keymap[..|keymap| - 1], sym); }
  }

  // A keysym translates if and only if exactly one keycode gives it, and to that.
  lemma {:induction false} CodeForIff(keymap: Keymap, sym: nat, code: nat)
    ensures CodeFor(keymap, sym) == Some(code) <==>
      exists i :: 0 <= i < |keymap| && keymap[i].0 == code && OnlyMatch(keymap, sym, i)
  {
    if keymap != [] {
      var last := |keymap| - 1;
      var front := keymap[..last];
      NoMatches(front, sym);
      CodeForIff(front, sym, code);
      if IsMatch(keymap[last], sym) {
        if CodeFor(keymap, sym) == Some(code) { assert OnlyMatch(keymap, sym, last); }
      } else {
        forall i | 0 <= i < last
          ensures OnlyMatch(keymap, sym, i) == OnlyMatch(front, sym, i)
        {
          OnlyMatchFront(keymap, sym, i);
        }
      }
    }
  }

  predicate OnlyMatch(keymap: Keymap, sym: nat, i: nat)
    requires i < |keymap|
  {
    IsMatch(keymap[i], sym) && forall j :: 0 <= j < |keymap| && j != i ==> !IsMatch(keymap[j], sym)
  }

  lemma OnlyMatchFront(keymap: Keymap, sym: nat, i: nat)
    requires i < |keymap| - 1 && !IsMatch(keymap[|keymap| - 1], sym)
    ensures OnlyMatch(keymap, sym, i) == OnlyMatch(keymap[..|keymap| - 1], sym, i)
  {
    var front := keymap[..|keymap| - 1];
    assert forall j :: 0 <= j < |front| ==> front[j] == keymap[j];
  }

  // The keycodes of all keysyms, unless one has no single keycode.
  function Codes(keymap: Keymap, syms: seq<nat>): (codes: Option<seq<nat>>)
    ensures codes.Some? ==> |codes.value| == |syms|
  {
    if syms == [] then Some([])
    else
      var last := |syms| - 1;
      var front, code := Codes(keymap, syms[..last]), CodeFor(keymap, syms[last]);
      if front.None? || code.None? then None else Some(front.value + [code.value])
  }

  // The keysyms that a binding to be translated was made with.
  function Original(v: Value): (syms: seq<nat>)
    requires IsTranslatable(v)
  {
    if v.kind == KeySym then v.keys else v.syms.value
  }

  predicate IsTranslatable(v: Value) {
    Code in v.flags && (v.kind == KeySym || (v.kind == KeyCode && v.syms.Some?))
  }

  function Translated(v: Value, keymap: Keymap): (r: Value)
    requires WellFormed(v)
  {
    if Code !in v.flags || !(v.kind == KeySym || v.kind == KeyCode) then v
    else
      var syms := Original(v);
      var codes := Codes(keymap, syms);
      if codes.Some? then v.(kind := KeyCode, keys := Sort(codes.value), syms := Some(syms))
      else v.(kind := KeySym, keys := syms, syms := None)
  }

  // A binding has keysyms beside its keys exactly if they are translated.
  predicate WellFormed(v: Value) {
    && Ascending(v.keys)
    && (v.syms.Some? <==> Code in v.flags && v.kind == KeyCode)
    && (v.syms.Some? ==> Ascending(v.syms.value))
  }

  lemma TranslatedIsWellFormed(v: Value, keymap: Keymap)
    requires WellFormed(v)
    ensures WellFormed(Translated(v, keymap))
  {
    if IsTranslatable(v) && Codes(keymap, Original(v)).Some? { SortAscending(Codes(keymap, Original(v)).value); }
  }

  // Translating again forgets the first translation.
  lemma TranslatedTwice(v: Value, first: Keymap, second: Keymap)
    requires WellFormed(v)
    ensures WellFormed(Translated(v, first)) && Translated(Translated(v, first), second) == Translated(v, second)
  {
    TranslatedIsWellFormed(v, first);
  }

  function Through(v: Value, keymaps: seq<Keymap>): (r: Value)
    requires WellFormed(v)
    ensures WellFormed(r)
    decreases |keymaps|
  {
    if keymaps == [] then v
    else
      TranslatedIsWellFormed(v, keymaps[0]);
      Through(Translated(v, keymaps[0]), keymaps[1..])
  }

  // Whatever the keymaps before, a binding is as its original keysyms and the last
  // keymap have it; and where that keymap fails it is restored.
  lemma {:induction false} OnlyTheLastKeymapMatters(v: Value, keymaps: seq<Keymap>)
    requires WellFormed(v) && keymaps != []
    ensures Through(v, keymaps) == Translated(v, keymaps[|keymaps| - 1])
    ensures v.kind == KeySym && Code in v.flags && Codes(keymaps[|keymaps| - 1], v.keys) == None ==>
      Through(v, keymaps) == v
    decreases |keymaps|
  {
    TranslatedIsWellFormed(v, keymaps[0]);
    if |keymaps| > 1 {
      OnlyTheLastKeymapMatters(Translated(v, keymaps[0]), keymaps[1..]);
      TranslatedTwice(v, keymaps[0], keymaps[|keymaps| - 1]);
    }
  }

  // ---- Rebuilding the tables of a mode ----

  datatype Tables = Tables(syms: seq<Value>, codes: seq<Value>)

  function All(t: Tables): (vs: seq<Value>) {
    t.syms + t.codes
  }

  predicate IsKeyboard(v: Value) {
    v.kind == KeySym || v.kind == KeyCode
  }

  function Added(t: Tables, v: Value): (r: Tables) {
    match v.kind
    case KeySym => t.(syms := Upserted(t.syms, v))
    case KeyCode => t.(codes := Upserted(t.codes, v))
    case _ => t
  }

  // Empty tables with bindings put in one by one.
  function Rebuilt(vs: seq<Value>): (t: Tables) {
    if vs == [] then Tables([], []) else Added(Rebuilt(vs[..|vs| - 1]), vs[|vs| - 1])
  }

  function Image(vs: seq<Value>, keymap: Keymap): (r: seq<Value>)
    requires AllWellFormed(vs)
    ensures |r| == |vs| && forall i :: 0 <= i < |vs| ==> r[i] == Translated(vs[i], keymap)
  {
    seq(|vs|, i requires 0 <= i < |vs| => Translated(vs[i], keymap))
  }

  predicate AllWellFormed(vs: seq<Value>) {
    forall i :: 0 <= i < |vs| ==> WellFormed(vs[i]) && IsKeyboard(vs[i])
  }

  function Retranslated(t: Tables, keymap: Keymap): (r: Tables)
    requires AllWellFormed(All(t))
  {
    Rebuilt(Image(All(t), keymap))
  }

  predicate IsTable(t: seq<Value>, kind: Kind) {
    NoConflicts(t) && forall i :: 0 <= i < |t| ==> t[i].kind == kind && WellFormed(t[i])
  }

  // The keysym table holds keysym bindings, the keycode table keycode bindings.
  predicate AreTables(t: Tables) {
    IsTable(t.syms, KeySym) && IsTable(t.codes, KeyCode)
  }

  lemma UpsertKeepsTable(t: seq<Value>, kind: Kind, v: Value)
    requires IsTable(t, kind) && v.kind == kind && WellFormed(v)
    ensures IsTable(Upserted(t, v), kind)
  {
    UpsertFinds(t, v, KeyOf(v));
  }

  lemma {:induction false} RebuiltAreTables(vs: seq<Value>)
    requires AllWellFormed(vs)
    ensures AreTables(Rebuilt(vs))
  {
    if vs != [] {
      var t, v := Rebuilt(vs[..|vs| - 1]), vs[|vs| - 1];
      assert AllWellFormed(vs[..|vs| - 1]);
      RebuiltAreTables(vs[..|vs| - 1]);
      assert WellFormed(v);
      if v.kind == KeySym { UpsertKeepsTable(t.syms, KeySym, v); } else { UpsertKeepsTable(t.codes, KeyCode, v); }
    }
  }

  lemma ImageIsWellFormed(vs: seq<Value>, keymap: Keymap)
    requires AllWellFormed(vs)
    ensures AllWellFormed(Image(vs, keymap))
  {
    forall i | 0 <= i < |vs|
      ensures WellFormed(Image(vs, keymap)[i]) && IsKeyboard(Image(vs, keymap)[i])
    {
      TranslatedIsWellFormed(vs[i], keymap);
    }
  }

  // Retranslation keeps the tables tables: no two bindings in them conflict, and
  // each holds one kind.
  lemma RetranslatedAreTables(t: Tables, keymap: Keymap)
    requires AllWellFormed(All(t))
    ensures AreTables(Retranslated(t, keymap))
  {
    ImageIsWellFormed(All(t), keymap);
    RebuiltAreTables(Image(All(t), keymap));
  }

  // The last binding with a key, or none.
  function LastWith(vs: seq<Value>, k: Key): (v: Option<Value>) {
    if vs == [] then None
    else if KeyOf(vs[|vs| - 1]) == k then Some(vs[|vs| - 1])
    else LastWith(vs[..|vs| - 1], k)
  }

  function Lookup(t: seq<Value>, k: Key): (v: Option<Value>) {
    var i := FindKey(t, k, 0);
    if i < |t| then Some(t[i]) else None
  }

  // For each key, the later binding wins.
  lemma {:induction false} LaterBindingWins(vs: seq<Value>, k: Key)
    requires AllWellFormed(vs)
    ensures k.kind == KeySym ==> Lookup(Rebuilt(vs).syms, k) == LastWith(vs, k)
    ensures k.kind == KeyCode ==> Lookup(Rebuilt(vs).codes, k) == LastWith(vs, k)
  {
    if vs != [] {
      var front, v := vs[..|vs| - 1], vs[|vs| - 1];
      assert AllWellFormed(front) && IsKeyboard(v);
      LaterBindingWins(front, k);
      RebuiltAreTables(front);
      if v.kind == KeySym { UpsertFinds(Rebuilt(front).syms, v, k); } else { UpsertFinds(Rebuilt(front).codes, v, k); }
    }
  }

  // ---- When nothing gets lost ----

  function OfKind(vs: seq<Value>, kind: Kind): (r: seq<Value>)
    ensures forall v :: v in r <==> v in vs && v.kind == kind
  {
    if vs == [] then []
    else
      var front, v := vs[..|vs| - 1], vs[|vs| - 1];
      assert vs == front + [v];
      OfKind(front, kind) + (if v.kind == kind then [v] else [])
  }

  lemma {:induction false} KindsAddUp(vs: seq<Value>)
    requires AllWellFormed(vs)
    ensures |OfKind(vs, KeySym)| + |OfKind(vs, KeyCode)| == |vs|
  {
    if vs != [] {
      assert AllWellFormed(vs[..|vs| - 1]) && IsKeyboard(vs[|vs| - 1]);
      KindsAddUp(vs[..|vs| - 1]);
    }
  }

  lemma RebuiltNoLarger(vs: seq<Value>)
    ensures |All(Rebuilt(vs))| <= |vs|
  {
    if vs != [] { RebuiltNoLarger(vs[..|vs| - 1]); }
  }

  lemma Absent(t: seq<Value>, vs: seq<Value>, kind: Kind, v: Value)
    requires t == OfKind(vs, kind) && v.kind == kind && NoConflicts(vs + [v])
    ensures Upserted(t, v) == t + [v]
  {
    forall i | 0 <= i < |t|
      ensures KeyOf(t[i]) != KeyOf(v)
    {
      assert t[i] in vs;
      var j :| 0 <= j < |vs| && vs[j] == t[i];
      assert (vs + [v])[j] == t[i] && (vs + [v])[|vs|] == v;
    }
  }

  // Without conflicts every binding goes into its table, in order.
  lemma {:induction false} WithoutConflictsAllStay(vs: seq<Value>)
    requires AllWellFormed(vs) && NoConflicts(vs)
    ensures Rebuilt(vs) == Tables(OfKind(vs, KeySym), OfKind(vs, KeyCode))
  {
    if vs != [] {
      var front, v := vs[..|vs| - 1], vs[|vs| - 1];
      assert AllWellFormed(front) && IsKeyboard(v) && NoConflicts(front) && vs == front + [v];
      WithoutConflictsAllStay(front);
      Absent(OfKind(front, v.kind), front, v.kind, v);
    }
  }

  lemma {:induction false} ConflictLoses(vs: seq<Value>, i: nat, j: nat)
    requires AllWellFormed(vs) && i < j < |vs| && KeyOf(vs[i]) == KeyOf(vs[j])
    ensures |All(Rebuilt(vs))| < |vs|
  {
    var front, v := vs[..|vs| - 1], vs[|vs| - 1];
    assert AllWellFormed(front) && IsKeyboard(v);
    if j < |vs| - 1 {
      ConflictLoses(front, i, j);
    } else {
      RebuiltNoLarger(front);
      LaterBindingWins(front, KeyOf(v));
      Present(front, KeyOf(v), i);
    }
  }

  lemma {:induction false} Present(vs: seq<Value>, k: Key, i: nat)
    requires i < |vs| && KeyOf(vs[i]) == k
    ensures LastWith(vs, k).Some?
  {
    if i < |vs| - 1 { Present(vs[..|vs| - 1], k, i); }
  }

  // Retranslation loses a binding if and only if two bindings conflict under the
  // keymap.
  lemma NothingIsLostIff(t: Tables, keymap: Keymap)
    requires AllWellFormed(All(t))
    ensures |All(Retranslated(t, keymap))| == |All(t)| <==> NoConflicts(Image(All(t), keymap))
    ensures |All(Retranslated(t, keymap))| <= |All(t)|
  {
    var vs := Image(All(t), keymap);
    ImageIsWellFormed(All(t), keymap);
    RebuiltNoLarger(vs);
    if NoConflicts(vs) {
      WithoutConflictsAllStay(vs);
      KindsAddUp(vs);
    } else {
      var i, j :| 0 <= i < j < |vs| && KeyOf(vs[i]) == KeyOf(vs[j]);
      ConflictLoses(vs, i, j);
    }
  }

  // ---- Translating the tables back and forth ----

  lemma {:induction false} OfKindAt(vs: seq<Value>, kind: Kind, i: nat, j: nat)
    requires i < j < |OfKind(vs, kind)|
    ensures exists a, b :: 0 <= a < b < |vs| && vs[a] == OfKind(vs, kind)[i] && vs[b] == OfKind(vs, kind)[j]
  {
    var front, v := vs[..|vs| - 1], vs[|vs| - 1];
    var rest := OfKind(front, kind);
    if j < |rest| {
      OfKindAt(front, kind, i, j);
      var a, b :| 0 <= a < b < |front| && front[a] == rest[i] && front[b] == rest[j];
      assert vs[a] == rest[i] && vs[b] == rest[j];
    } else {
      assert rest[i] in rest;
      var a :| 0 <= a < |front| && front[a] == rest[i];
      assert vs[a] == rest[i] && vs[|vs| - 1] == OfKind(vs, kind)[j];
    }
  }

  lemma {:induction false} SymsAndCodes(vs: seq<Value>, i: nat, j: nat)
    requires i < j < |OfKind(vs, KeySym)| + |OfKind(vs, KeyCode)|
    ensures var all := OfKind(vs, KeySym) + OfKind(vs, KeyCode);
      exists a, b :: 0 <= a < |vs| && 0 <= b < |vs| && a != b && vs[a] == all[i] && vs[b] == all[j]
  {
    var syms, codes := OfKind(vs, KeySym), OfKind(vs, KeyCode);
    if j < |syms| {
      OfKindAt(vs, KeySym, i, j);
    } else if i >= |syms| {
      OfKindAt(vs, KeyCode, i - |syms|, j - |syms|);
    } else {
      var v, w := syms[i], codes[j - |syms|];
      assert v in vs && w in vs && v.kind == KeySym && w.kind == KeyCode;
      var a :| 0 <= a < |vs| && vs[a] == v;
      var b :| 0 <= b < |vs| && vs[b] == w;
    }
  }

  // Where the first keymap makes no conflicts, the second sees the same bindings
  // as if it had come first.
  lemma NoConflictsThrough(t: Tables, first: Keymap, second: Keymap)
    requires AllWellFormed(All(t)) && NoConflicts(Image(All(t), first)) && NoConflicts(Image(All(t), second))
    ensures AllWellFormed(All(Retranslated(t, first)))
    ensures NoConflicts(Image(All(Retranslated(t, first)), second))
  {
    var vs, us := All(t), Image(All(t), first);
    ImageIsWellFormed(vs, first);
    WithoutConflictsAllStay(us);
    var all := All(Retranslated(t, first));
    assert all == OfKind(us, KeySym) + OfKind(us, KeyCode);
    forall i | 0 <= i < |all|
      ensures WellFormed(all[i]) && IsKeyboard(all[i])
    {
      assert all[i] in us;
    }
    forall i, j | 0 <= i < j < |all|
      ensures KeyOf(Image(all, second)[i]) != KeyOf(Image(all, second)[j])
    {
      SymsAndCodes(us, i, j);
      var a, b :| 0 <= a < |us| && 0 <= b < |us| && a != b && us[a] == all[i] && us[b] == all[j];
      TranslatedTwice(vs[a], first, second);
      TranslatedTwice(vs[b], first, second);
      assert KeyOf(Image(vs, second)[a]) != KeyOf(Image(vs, second)[b]);
    }
  }

  lemma RetranslatedMembers(t: Tables, keymap: Keymap, v: Value)
    requires AllWellFormed(All(t)) && NoConflicts(Image(All(t), keymap))
    ensures v in All(Retranslated(t, keymap)) <==> v in Image(All(t), keymap)
  {
    var us := Image(All(t), keymap);
    ImageIsWellFormed(All(t), keymap);
    WithoutConflictsAllStay(us);
    if v in us {
      var i :| 0 <= i < |us| && us[i] == v;
      assert IsKeyboard(us[i]);
    }
  }

  lemma SameMembers(t: Tables, first: Keymap, second: Keymap, v: Value)
    requires AllWellFormed(All(t)) && NoConflicts(Image(All(t), first))
    requires AllWellFormed(All(Retranslated(t, first)))
    ensures v in Image(All(Retranslated(t, first)), second) <==> v in Image(All(t), second)
  {
    var vs, us, all := All(t), Image(All(t), first), All(Retranslated(t, first));
    if v in Image(all, second) {
      var i :| 0 <= i < |all| && Image(all, second)[i] == v;
      RetranslatedMembers(t, first, all[i]);
      assert all[i] in all;
      var a :| 0 <= a < |us| && us[a] == all[i];
      TranslatedTwice(vs[a], first, second);
      assert Image(vs, second)[a] == v;
    }
    if v in Image(vs, second) {
      var a :| 0 <= a < |vs| && Image(vs, second)[a] == v;
      TranslatedTwice(vs[a], first, second);
      RetranslatedMembers(t, first, us[a]);
      assert us[a] in us;
      var i :| 0 <= i < |all| && all[i] == us[a];
      assert Image(all, second)[i] == v;
    }
  }

  // Under a keymap without conflicts, the tables are as if the keymap before had
  // never been, if and only if that one had no conflicts either: a binding that it
  // made conflict does not come back.
  lemma TablesForgetKeymapIff(t: Tables, first: Keymap, second: Keymap)
    requires AllWellFormed(All(t)) && NoConflicts(Image(All(t), second))
    ensures AllWellFormed(All(Retranslated(t, first)))
    ensures var once, twice := All(Retranslated(t, second)), All(Retranslated(Retranslated(t, first), second));
      if NoConflicts(Image(All(t), first)) then
        |twice| == |once| && forall v :: v in twice <==> v in once
      else
        |twice| < |once|
  {
    var t' := Retranslated(t, first);
    RetranslatedAreTables(t, first);
    NothingIsLostIff(t, first);
    NothingIsLostIff(t, second);
    NothingIsLostIff(t', second);
    if NoConflicts(Image(All(t), first)) {
      NoConflictsThrough(t, first, second);
      forall v
        ensures v in All(Retranslated(t', second)) <==> v in All(Retranslated(t, second))
      {
        RetranslatedMembers(t', second, v);
        RetranslatedMembers(t, second, v);
        SameMembers(t, first, second, v);
      }
    }
  }

  // Two bindings that agree but for what they are bound to.
  predicate DifferInKeys(a: Value, b: Value) {
    && a.input == b.input && a.flags * CONFLICTING == b.flags * CONFLICTING
    && a.modifiers == b.modifiers && a.group == b.group
  }

  // A binding made with --to-code conflicts with a keycode binding under just
  // those keymaps that give its keysyms to the keycodes of that one.
  lemma ConflictsWithCodeIff(bySym: Value, byCode: Value, keymap: Keymap)
    requires WellFormed(bySym) && IsTranslatable(bySym)
    requires WellFormed(byCode) && byCode.kind == KeyCode && Code !in byCode.flags
    ensures KeyOf(Translated(bySym, keymap)) == KeyOf(Translated(byCode, keymap)) <==>
      && DifferInKeys(bySym, byCode)
      && var codes := Codes(keymap, Original(bySym));
      codes.Some? && multiset(codes.value) == multiset(byCode.keys)
  {
    TranslatedIsWellFormed(bySym, keymap);
    var codes := Codes(keymap, Original(bySym));
    if codes.Some? {
      SortAscending(codes.value);
      if multiset(codes.value) == multiset(byCode.keys) { AscendingIsUnique(Sort(codes.value), byCode.keys); }
    }
  }

  // Two bindings made with --to-code conflict if both are given the same keycodes,
  // or if neither translates and they have the same keysyms.
  lemma ConflictsWithSymIff(a: Value, b: Value, keymap: Keymap)
    requires WellFormed(a) && IsTranslatable(a) && WellFormed(b) && IsTranslatable(b)
    ensures KeyOf(Translated(a, keymap)) == KeyOf(Translated(b, keymap)) <==>
      && DifferInKeys(a, b)
      && match (Codes(keymap, Original(a)), Codes(keymap, Original(b)))
         case (Some(x), Some(y)) => multiset(x) == multiset(y)
         case (None, None) => Original(a) == Original(b)
         case _ => false
  {
    match (Codes(keymap, Original(a)), Codes(keymap, Original(b)))
    case (Some(x), Some(y)) =>
      SortAscending(x);
      SortAscending(y);
      assert multiset(Sort(x)) == multiset(x) && multiset(Sort(y)) == multiset(y);
      if multiset(x) == multiset(y) { AscendingIsUnique(Sort(x), Sort(y)); }
    case _ =>
  }

  lemma OneCode(keymap: Keymap, sym: nat, code: nat)
    requires CodeFor(keymap, sym) == Some(code)
    ensures Codes(keymap, [sym]) == Some([code])
  {
    var syms := [sym];
    var none: seq<nat> := [];
    assert syms[..|syms| - 1] == none && Codes(keymap, none) == Some(none);
    assert none + [code] == [code];
  }

  // So with bindings to one key, a keymap that translates the keysym makes a
  // conflict exactly if it is to the keycode of the other binding.
  lemma KeymapMayMakeConflict(bySym: Value, byCode: Value, sym: nat, code: nat, keymap: Keymap)
    requires WellFormed(bySym) && IsTranslatable(bySym) && Original(bySym) == [sym]
    requires WellFormed(byCode) && byCode.kind == KeyCode && Code !in byCode.flags
    requires DifferInKeys(bySym, byCode) && CodeFor(keymap, sym) == Some(code)
    ensures KeyOf(Translated(bySym, keymap)) == KeyOf(Translated(byCode, keymap)) <==> byCode.keys == [code]
  {
    OneCode(keymap, sym, code);
    ConflictsWithCodeIff(bySym, byCode, keymap);
    if multiset([code]) == multiset(byCode.keys) { AscendingIsUnique([code], byCode.keys); }
  }

  lemma PairConflictIff(vs: seq<Value>, keymap: Keymap)
    requires |vs| == 2 && AllWellFormed(vs)
    ensures NoConflicts(Image(vs, keymap)) <==>
      KeyOf(Translated(vs[0], keymap)) != KeyOf(Translated(vs[1], keymap))
  {
    var image := Image(vs, keymap);
    assert image[0] == Translated(vs[0], keymap) && image[1] == Translated(vs[1], keymap);
  }

  // Two keymaps that give a keysym to different keycodes: going to the first of
  // them and back again loses one of two bindings.
  lemma KeymapLosesBinding(t: Tables, sym: nat, code: nat, other: nat, first: Keymap, second: Keymap)
    requires t.syms == [] && |t.codes| == 2 && AllWellFormed(t.codes)
    requires var byCode, bySym := t.codes[0], t.codes[1];
      && byCode.kind == KeyCode && Code !in byCode.flags && byCode.keys == [code]
      && bySym.kind == KeyCode && IsTranslatable(bySym) && Original(bySym) == [sym]
      && DifferInKeys(bySym, byCode)
    requires CodeFor(first, sym) == Some(code) && CodeFor(second, sym) == Some(other) && code != other
    ensures AllWellFormed(All(t)) && AllWellFormed(All(Retranslated(t, first)))
    ensures |All(Retranslated(t, second))| == 2
    ensures |All(Retranslated(Retranslated(t, first), second))| < 2
  {
    assert All(t) == t.codes;
    KeymapMayMakeConflict(t.codes[1], t.codes[0], sym, code, first);
    KeymapMayMakeConflict(t.codes[1], t.codes[0], sym, other, second);
    PairConflictIff(t.codes, first);
    PairConflictIff(t.codes, second);
    NothingIsLostIff(t, second);
    TablesForgetKeymapIff(t, first, second);
  }

  // For example the binding to the keycode 38, under a keymap that has the keysym a
  // there, if another binding is to that keysym.
  lemma LostBinding()
    ensures var byCode := Value(KeyCode, 0, "*", {}, [38], None, 0, 0, "kill");
      var bySym := Value(KeyCode, 1, "*", {Code}, [24], Some([0x61]), 0, 0, "exit");
      var t, first, second := Tables([], [byCode, bySym]), [(38, 0x61)], [(24, 0x61)];
      && AllWellFormed(All(t)) && AllWellFormed(All(Retranslated(t, first)))
      && |All(Retranslated(t, second))| == 2
      && |All(Retranslated(Retranslated(t, first), second))| < 2
  {
    var byCode := Value(KeyCode, 0, "*", {}, [38], None, 0, 0, "kill");
    var bySym := Value(KeyCode, 1, "*", {Code}, [24], Some([0x61]), 0, 0, "exit");
    OneEntry(38, 0x61);
    OneEntry(24, 0x61);
    assert byCode.flags * CONFLICTING == bySym.flags * CONFLICTING;
    var t := Tables([], [byCode, bySym]);
    assert t.codes[0] == byCode && t.codes[1] == bySym;
    KeymapLosesBinding(t, 0x61, 38, 24, [(38, 0x61)], [(24, 0x61)]);
  }

  lemma OneEntry(code: nat, sym: nat)
    requires sym != NO_SYMBOL
    ensures CodeFor([(code, sym)], sym) == Some(code)
  {
    var keymap := [(code, sym)];
    assert keymap[..|keymap| - 1] == [] && MatchesIn([], sym) == Matches(0, 0);
    assert MatchesIn(keymap, sym) == Matches(code, 1);
  }

  // ---- Every run ----

  // The bindings of a mode, and the keymap that keysyms are translated with.
  datatype State = State(tables: Tables, mouse: seq<Value>, keymap: Keymap)

  // A binding is made or removed by a command, or the keymap changes.
  datatype Event = Bind(v: Value) | Unbind(v: Value) | ChangeKeymap(keymap: Keymap)

  // What parsing a command gives: sorted keys, and only keysyms marked for
  // translation.
  predicate IsParsed(v: Value) {
    Ascending(v.keys) && v.syms == None && !(Code in v.flags && v.kind == KeyCode)
  }

  predicate CanHappen(e: Event) {
    match e
    case ChangeKeymap(_) => true
    case _ => IsParsed(e.v)
  }

  function TableFor(s: State, kind: Kind): (t: seq<Value>) {
    match kind
    case KeySym => s.tables.syms
    case KeyCode => s.tables.codes
    case _ => s.mouse
  }

  function WithTable(s: State, kind: Kind, t: seq<Value>): (r: State) {
    match kind
    case KeySym => s.(tables := s.tables.(syms := t))
    case KeyCode => s.(tables := s.tables.(codes := t))
    case _ => s.(mouse := t)
  }

  function Step(s: State, e: Event): (r: State)
    requires CanHappen(e) && IsGood(s)
  {
    match e
    case Bind(v) =>
      var b := Translated(v, s.keymap);
      WithTable(s, b.kind, Upserted(TableFor(s, b.kind), b))
    case Unbind(v) =>
      var b := Translated(v, s.keymap);
      WithTable(s, b.kind, Removed(TableFor(s, b.kind), KeyOf(b)))
    case ChangeKeymap(keymap) =>
      TablesAreWellFormed(s.tables);
      State(Retranslated(s.tables, keymap), s.mouse, keymap)
  }

  lemma TablesAreWellFormed(t: Tables)
    requires AreTables(t)
    ensures AllWellFormed(All(t))
  {
  }

  // No two bindings of a table conflict, each table holds its kinds, and every
  // binding is as the present keymap translates it.
  predicate IsGood(s: State) {
    && AreTables(s.tables)
    && IsMouseTable(s.mouse)
    && IsUpToDate(s.tables.syms, s.keymap) && IsUpToDate(s.tables.codes, s.keymap)
  }

  predicate IsMouseTable(t: seq<Value>) {
    NoConflicts(t) && forall i :: 0 <= i < |t| ==> !IsKeyboard(t[i])
  }

  predicate IsUpToDate(t: seq<Value>, keymap: Keymap) {
    forall i :: 0 <= i < |t| ==> WellFormed(t[i]) && Translated(t[i], keymap) == t[i]
  }

  lemma UpsertUpToDate(t: seq<Value>, b: Value, keymap: Keymap)
    requires IsUpToDate(t, keymap) && WellFormed(b) && Translated(b, keymap) == b
    ensures IsUpToDate(Upserted(t, b), keymap)
  {
  }

  lemma UpsertKeepsMouse(t: seq<Value>, b: Value)
    requires IsMouseTable(t) && !IsKeyboard(b)
    ensures IsMouseTable(Upserted(t, b))
  {
    UpsertFinds(t, b, KeyOf(b));
  }

  lemma RemoveKeeps(t: seq<Value>, k: Key, kind: Kind, keymap: Keymap)
    ensures IsTable(t, kind) ==> IsTable(Removed(t, k), kind)
    ensures IsMouseTable(t) ==> IsMouseTable(Removed(t, k))
    ensures IsUpToDate(t, keymap) ==> IsUpToDate(Removed(t, k), keymap)
  {
    if NoConflicts(t) { RemovedNoConflicts(t, k); }
    var r := Removed(t, k);
    assert forall i :: 0 <= i < |r| ==> r[i] in t;
  }

  lemma {:induction false} RebuiltMembers(vs: seq<Value>, v: Value)
    requires v in All(Rebuilt(vs))
    ensures v in vs
  {
    if vs != [] {
      var front, last := vs[..|vs| - 1], vs[|vs| - 1];
      assert vs == front + [last];
      if v != last {
        var t := Rebuilt(front);
        assert v in All(t);
        RebuiltMembers(front, v);
      }
    }
  }

  lemma RetranslatedIsUpToDate(t: Tables, keymap: Keymap)
    requires AreTables(t)
    ensures AllWellFormed(All(t))
    ensures var r := Retranslated(t, keymap); IsUpToDate(r.syms, keymap) && IsUpToDate(r.codes, keymap)
  {
    TablesAreWellFormed(t);
    var vs, r := Image(All(t), keymap), Retranslated(t, keymap);
    forall v | v in All(r)
      ensures WellFormed(v) && Translated(v, keymap) == v
    {
      RebuiltMembers(vs, v);
      var i :| 0 <= i < |vs| && vs[i] == v;
      TranslatedTwice(All(t)[i], keymap, keymap);
    }
    assert forall i :: 0 <= i < |r.syms| ==> r.syms[i] in All(r);
    assert forall i :: 0 <= i < |r.codes| ==> r.codes[i] in All(r);
  }

  // Every event keeps the state good.
  lemma StepKeeps(s: State, e: Event)
    requires CanHappen(e) && IsGood(s)
    ensures IsGood(Step(s, e))
  {
    match e
    case Bind(v) => BindKeeps(s, v);
    case Unbind(v) => UnbindKeeps(s, v);
    case ChangeKeymap(keymap) =>
      TablesAreWellFormed(s.tables);
      RetranslatedAreTables(s.tables, keymap);
      RetranslatedIsUpToDate(s.tables, keymap);
  }

  lemma BindKeeps(s: State, v: Value)
    requires IsParsed(v) && IsGood(s)
    ensures IsGood(Step(s, Bind(v)))
  {
    var b := Translated(v, s.keymap);
    TranslatedTwice(v, s.keymap, s.keymap);
    match b.kind
    case KeySym =>
      UpsertKeepsTable(s.tables.syms, KeySym, b);
      UpsertUpToDate(s.tables.syms, b, s.keymap);
    case KeyCode =>
      UpsertKeepsTable(s.tables.codes, KeyCode, b);
      UpsertUpToDate(s.tables.codes, b, s.keymap);
    case _ => UpsertKeepsMouse(s.mouse, b);
  }

  lemma UnbindKeeps(s: State, v: Value)
    requires IsParsed(v) && IsGood(s)
    ensures IsGood(Step(s, Unbind(v)))
  {
    var b := Translated(v, s.keymap);
    RemoveKeeps(TableFor(s, b.kind), KeyOf(b), b.kind, s.keymap);
  }

  // The state after some events, from empty tables on.
  function After(keymap: Keymap, events: seq<Event>): (s: State)
    requires forall e :: e in events ==> CanHappen(e)
    ensures IsGood(s)
  {
    if events == [] then State(Tables([], []), [], keymap)
    else
      var before := After(keymap, events[..|events| - 1]);
      StepKeeps(before, events[|events| - 1]);
      Step(before, events[|events| - 1])
  }

  // What is bound is found, what is removed is not, and nothing else changes.
  lemma BindFinds(s: State, v: Value, k: Key)
    requires IsParsed(v) && IsGood(s)
    ensures var b := Translated(v, s.keymap);
      Lookup(TableFor(Step(s, Bind(v)), k.kind), k) ==
        if k == KeyOf(b) then Some(b) else Lookup(TableFor(s, k.kind), k)
  {
    var b := Translated(v, s.keymap);
    UpsertFinds(TableFor(s, b.kind), b, k);
  }

  lemma UnbindFinds(s: State, v: Value, k: Key)
    requires IsParsed(v) && IsGood(s)
    ensures var b := Translated(v, s.keymap);
      Lookup(TableFor(Step(s, Unbind(v)), k.kind), k) ==
        if k == KeyOf(b) then None else Lookup(TableFor(s, k.kind), k)
  {
    var b := Translated(v, s.keymap);
    RemoveFinds(TableFor(s, b.kind), KeyOf(b), k);
  }

  // ---- The bindings themselves ----

  class Binding {
    var kind: Kind
    var order: int
    var input: string
    var flags: set<Flag>
    var keys: seq<nat>
    var syms: Option<seq<nat>>
    var modifiers: nat
    var group: nat
    var command: string

    constructor (v: Value)
      ensures View() == v
    {
      kind, order, input, flags, keys, syms := v.kind, v.order, v.input, v.flags, v.keys, v.syms;
      modifiers, group, command := v.modifiers, v.group, v.command;
    }

    ghost function View(): (v: Value)
      reads this
    {
      Value(kind, order, input, flags, keys, syms, modifiers, group, command)
    }

    // binding_key_compare
    method KeyCompare(other: Binding) returns (same: bool)
      ensures same <==> KeyOf(View()) == KeyOf(other.View())
    {
      if input != other.input || kind != other.kind || flags * CONFLICTING != other.flags * CONFLICTING
        || group != other.group || modifiers != other.modifiers || |keys| != |other.keys|
      {
        return false;
      }
      for i := 0 to |keys|
        invariant forall j :: 0 <= j < i ==> keys[j] == other.keys[j]
      {
        if keys[i] != other.keys[i] {
          return false;
        }
      }
      return true;
    }

    // translate_binding
    method Translate(keymap: Keymap) returns (ok: bool)
      requires WellFormed(View())
      modifies this
      ensures View() == Translated(old(View()), keymap)
      ensures ok <==> (old(IsTranslatable(View())) ==> kind == KeyCode)
    {
      if Code !in flags {
        return true;
      }
      match kind {
        case KeySym =>
          syms := Some(keys);
          keys := [];
        case KeyCode =>
          keys := [];
        case _ =>
          return true;
      }
      ghost var original := syms.value;
      for i := 0 to |syms.value|
        invariant syms == Some(original) && Codes(keymap, original[..i]) == Some(keys)
        invariant View() == old(View()).(kind := kind, keys := keys, syms := syms) && kind == old(kind)
      {
        var matches := GetKeycodeForKeysym(keymap, syms.value[i]);
        assert original[..i + 1][..i] == original[..i];
        if matches.count != 1 {
          CodesFail(keymap, original, i + 1);
          kind := KeySym;
          keys := syms.value;
          syms := None;
          return false;
        }
        keys := keys + [matches.keycode];
      }
      assert original[..|original|] == original;
      keys := QSort(keys);
      kind := KeyCode;
      return true;
    }
  }

  lemma {:induction false} CodesFail(keymap: Keymap, syms: seq<nat>, i: nat)
    requires i <= |syms| && Codes(keymap, syms[..i]) == None
    ensures Codes(keymap, syms) == None
    decreases |syms|
  {
    if i < |syms| {
      assert syms[..|syms| - 1][..i] == syms[..i];
      CodesFail(keymap, syms[..|syms| - 1], i);
    } else {
      assert syms[..i] == syms;
    }
  }

  method GetKeycodeForKeysym(keymap: Keymap, keysym: nat) returns (matches: Matches)
    ensures matches == MatchesIn(keymap, keysym)
  {
    matches := Matches(0, 0);
    for i := 0 to |keymap|
      invariant matches == MatchesIn(keymap[..i], keysym)
    {
      var (keycode, sym) := keymap[i];
      assert keymap[..i + 1][..i] == keymap[..i];
      if sym != NO_SYMBOL && sym == keysym {
        matches := Matches(keycode, matches.count + 1);
      }
    }
    assert keymap[..|keymap|] == keymap;
  }

  // The libc function, of which only the result matters here.
  method QSort(keys: seq<nat>) returns (sorted: seq<nat>)
    ensures sorted == Sort(keys) && Ascending(sorted)
  {
    sorted := Sort(keys);
    SortAscending(keys);
  }

  ghost function Views(items: seq<Binding>): (vs: seq<Value>)
    reads items
    ensures |vs| == |items| && forall i :: 0 <= i < |items| ==> vs[i] == items[i].View()
  {
    seq(|items|, i requires 0 <= i < |items| reads items => items[i].View())
  }

  ghost function Objects(items: seq<Binding>): (objects: set<Binding>) {
    set b | b in items
  }

  class BindingList {
    var items: seq<Binding>

    constructor ()
      ensures items == []
    {
      items := [];
    }

    // binding_upsert
    method Upsert(binding: Binding) returns (replaced: Binding?)
      modifies this
      ensures Views(items) == Upserted(old(Views(items)), binding.View())
      ensures Objects(items) <= Objects(old(items)) + {binding}
      ensures var i := old(FindKey(Views(items), KeyOf(binding.View()), 0));
        replaced == if i < |old(items)| then old(items)[i] else null
    {
      var i := Find(binding);
      if i < |items| {
        replaced := items[i];
        items := items[i := binding];
      } else {
        items := items + [binding];
        replaced := null;
      }
    }

    // binding_remove
    method Remove(binding: Binding) returns (found: bool)
      modifies this
      ensures Views(items) == Removed(old(Views(items)), KeyOf(binding.View()))
      ensures found <==> exists b :: b in old(items) && KeyOf(b.View()) == KeyOf(binding.View())
      ensures found <==> Lookup(old(Views(items)), KeyOf(binding.View())).Some?
    {
      var i := Find(binding);
      found := i < |items|;
      if found {
        assert items[i] in items;
        items := items[..i] + items[i + 1..];
      } else {
        assert forall j :: 0 <= j < |items| ==> KeyOf(Views(items)[j]) != KeyOf(binding.View());
      }
    }

    method Find(binding: Binding) returns (i: nat)
      ensures i == FindKey(Views(items), KeyOf(binding.View()), 0)
    {
      i := 0;
      while i < |items|
        invariant i <= |items|
        invariant FindKey(Views(items), KeyOf(binding.View()), i) == FindKey(Views(items), KeyOf(binding.View()), 0)
        decreases |items| - i
      {
        var same := binding.KeyCompare(items[i]);
        if same {
          return;
        }
        i := i + 1;
      }
    }
  }

  ghost predicate DistinctObjects(items: seq<Binding>) {
    forall i, j :: 0 <= i < j < |items| ==> items[i] != items[j]
  }

  ghost function ViewOf(syms: BindingList, codes: BindingList): (t: Tables)
    reads syms, syms.items, codes, codes.items
  {
    Tables(Views(syms.items), Views(codes.items))
  }

  // The bindings that are in the two tables.
  ghost function Held(syms: BindingList, codes: BindingList): (held: set<Binding>)
    reads syms, codes
  {
    Objects(syms.items) + Objects(codes.items)
  }

  // translate_binding_list: puts the translated bindings into the new tables, which
  // hold `before` already.
  method TranslateBindingList(bindings: seq<Binding>, syms: BindingList, codes: BindingList, keymap: Keymap,
          ghost before: seq<Value>)
    requires DistinctObjects(bindings) && AllWellFormed(Views(bindings)) && syms != codes
    requires Held(syms, codes) !! Objects(bindings)
    requires ViewOf(syms, codes) == Rebuilt(before)
    modifies bindings, syms, codes
    ensures ViewOf(syms, codes) == Rebuilt(before + Image(old(Views(bindings)), keymap))
    ensures Held(syms, codes) <= old(Held(syms, codes)) + Objects(bindings)
  {
    ghost var views := Views(bindings);
    ghost var image := Image(views, keymap);
    assert before + image[..0] == before;
    for i := 0 to |bindings|
      invariant forall j :: i <= j < |bindings| ==> bindings[j].View() == views[j]
      invariant forall j :: i <= j < |bindings| ==> bindings[j] !in Held(syms, codes)
      invariant ViewOf(syms, codes) == Rebuilt(before + image[..i])
      invariant Held(syms, codes) <= old(Held(syms, codes)) + Objects(bindings)
    {
      assert WellFormed(views[i]) && IsKeyboard(views[i]);
      TranslateInto(bindings[i], syms, codes, keymap);
      RebuiltNext(before, image, i);
    }
    assert image[..|bindings|] == image;
  }

  lemma RebuiltNext(before: seq<Value>, vs: seq<Value>, i: nat)
    requires i < |vs|
    ensures Rebuilt(before + vs[..i + 1]) == Added(Rebuilt(before + vs[..i]), vs[i])
  {
    var more := before + vs[..i + 1];
    assert more[..|more| - 1] == before + vs[..i];
  }

  lemma ImageOfAll(t: Tables, keymap: Keymap)
    requires AllWellFormed(t.syms) && AllWellFormed(t.codes)
    ensures AllWellFormed(All(t)) && Image(t.syms, keymap) + Image(t.codes, keymap) == Image(All(t), keymap)
  {}

  // The loop body of translate_binding_list.
  method TranslateInto(binding: Binding, syms: BindingList, codes: BindingList, keymap: Keymap)
    requires WellFormed(binding.View()) && IsKeyboard(binding.View()) && syms != codes
    requires binding !in Held(syms, codes)
    modifies binding, syms, codes
    ensures ViewOf(syms, codes) == Added(old(ViewOf(syms, codes)), Translated(old(binding.View()), keymap))
    ensures Held(syms, codes) <= old(Held(syms, codes)) + {binding}
  {
    ghost var table := ViewOf(syms, codes);
    var _ := binding.Translate(keymap);
    assert ViewOf(syms, codes) == table;
    match binding.kind {
      case KeySym => var _ := syms.Upsert(binding);
      case KeyCode => var _ := codes.Upsert(binding);
      case _ =>
    }
  }

  class Mode {
    var keysymBindings: BindingList
    var keycodeBindings: BindingList
    var mouseBindings: BindingList

    ghost predicate Valid()
      reads this
    {
      keysymBindings != keycodeBindings && mouseBindings != keysymBindings && mouseBindings != keycodeBindings
    }

    ghost function StateUnder(keymap: Keymap): (s: State)
      reads this, keysymBindings, keysymBindings.items, keycodeBindings, keycodeBindings.items
      reads mouseBindings, mouseBindings.items
    {
      State(ViewOf(keysymBindings, keycodeBindings), Views(mouseBindings.items), keymap)
    }

    ghost function Bindings(): (held: set<Binding>)
      reads this, keysymBindings, keycodeBindings, mouseBindings
    {
      Held(keysymBindings, keycodeBindings) + Objects(mouseBindings.items)
    }

    constructor (keymap: Keymap)
      ensures Valid() && StateUnder(keymap) == After(keymap, [])
      ensures fresh(keysymBindings) && fresh(keycodeBindings) && fresh(mouseBindings)
    {
      keysymBindings := new BindingList();
      keycodeBindings := new BindingList();
      mouseBindings := new BindingList();
    }

    function ListFor(kind: Kind): (list: BindingList)
      reads this
    {
      match kind
      case KeySym => keysymBindings
      case KeyCode => keycodeBindings
      case _ => mouseBindings
    }

    method Add(binding: Binding, keymap: Keymap)
      requires Valid()
      modifies keysymBindings, keycodeBindings, mouseBindings
      ensures Bindings() <= old(Bindings()) + {binding}
      ensures var s, kind := old(StateUnder(keymap)), binding.kind;
        StateUnder(keymap) == WithTable(s, kind, Upserted(TableFor(s, kind), binding.View()))
    {
      var kind := binding.kind;
      ghost var s := StateUnder(keymap);
      var list := ListFor(kind);
      assert Views(list.items) == TableFor(s, kind);
      var _ := list.Upsert(binding);
      ghost var t := Views(list.items);
      assert StateUnder(keymap) == WithTable(s, kind, t);
    }

    method Drop(binding: Binding, keymap: Keymap) returns (found: bool)
      requires Valid()
      modifies keysymBindings, keycodeBindings, mouseBindings
      ensures var s, kind := old(StateUnder(keymap)), binding.kind;
        StateUnder(keymap) == WithTable(s, kind, Removed(TableFor(s, kind), KeyOf(binding.View())))
      ensures found <==> Lookup(TableFor(old(StateUnder(keymap)), binding.kind), KeyOf(binding.View())).Some?
    {
      var kind := binding.kind;
      ghost var s, k := StateUnder(keymap), KeyOf(binding.View());
      var list := ListFor(kind);
      assert Views(list.items) == TableFor(s, kind);
      found := list.Remove(binding);
      ghost var t := Views(list.items);
      assert t == Removed(TableFor(s, kind), k);
      assert StateUnder(keymap) == WithTable(s, kind, t);
    }

    // The end of bindsym and bindcode, when the binding is parsed.
    method Bind(binding: Binding, keymap: Keymap)
      requires Valid() && IsGood(StateUnder(keymap))
      requires IsParsed(binding.View()) && binding !in Bindings()
      modifies binding, keysymBindings, keycodeBindings, mouseBindings
      ensures Bindings() <= old(Bindings()) + {binding}
      ensures StateUnder(keymap) == Step(old(StateUnder(keymap)), Event.Bind(old(binding.View())))
    {
      TranslateOutside(binding, keymap);
      Add(binding, keymap);
    }

    // The end of unbindsym and unbindcode.
    method Unbind(binding: Binding, keymap: Keymap) returns (found: bool)
      requires Valid() && IsGood(StateUnder(keymap))
      requires IsParsed(binding.View()) && binding !in Bindings()
      modifies binding, keysymBindings, keycodeBindings, mouseBindings
      ensures StateUnder(keymap) == Step(old(StateUnder(keymap)), Event.Unbind(old(binding.View())))
      ensures var s, b := old(StateUnder(keymap)), Translated(old(binding.View()), keymap);
        found <==> Lookup(TableFor(s, b.kind), KeyOf(b)).Some?
    {
      TranslateOutside(binding, keymap);
      found := Drop(binding, keymap);
    }

    // Translating a binding that is in no table.
    method TranslateOutside(binding: Binding, keymap: Keymap)
      requires WellFormed(binding.View()) && binding !in Bindings()
      modifies binding
      ensures binding.View() == Translated(old(binding.View()), keymap)
      ensures StateUnder(keymap) == old(StateUnder(keymap))
    {
      ghost var syms, codes, mouse := keysymBindings.items, keycodeBindings.items, mouseBindings.items;
      ghost var s := StateUnder(keymap);
      var _ := binding.Translate(keymap);
      assert Views(syms) == s.tables.syms && Views(codes) == s.tables.codes && Views(mouse) == s.mouse;
    }

    // translate_keysyms, once the keymap is there.
    method TranslateKeysyms(previous: Keymap, keymap: Keymap)
      requires Valid() && IsGood(StateUnder(previous))
      modifies this, keysymBindings.items, keycodeBindings.items
      ensures Valid() && mouseBindings == old(mouseBindings)
      ensures StateUnder(keymap) == Step(old(StateUnder(previous)), ChangeKeymap(keymap))
    {
      ghost var mouse, views := mouseBindings.items, Views(mouseBindings.items);
      KindsOf(keysymBindings.items, KeySym);
      KindsOf(keycodeBindings.items, KeyCode);
      MouseKinds(mouse);
      keysymBindings, keycodeBindings := Retranslate(keysymBindings.items, keycodeBindings.items, keymap);
      assert Views(mouse) == views;
    }
  }

  lemma KindsOf(items: seq<Binding>, kind: Kind)
    requires IsTable(Views(items), kind)
    ensures forall b :: b in items ==> b.kind == kind
  {
    forall i | 0 <= i < |items| ensures items[i].kind == kind {
      assert Views(items)[i].kind == kind;
    }
  }

  lemma MouseKinds(items: seq<Binding>)
    requires IsMouseTable(Views(items))
    ensures forall b :: b in items ==> b.kind != KeySym && b.kind != KeyCode
  {
    forall i | 0 <= i < |items| ensures items[i].kind != KeySym && items[i].kind != KeyCode {
      assert !IsKeyboard(Views(items)[i]);
    }
  }

  // The body of the loop over modes.
  method Retranslate(keysymBindings: seq<Binding>, keycodeBindings: seq<Binding>, keymap: Keymap)
    returns (syms: BindingList, codes: BindingList)
    requires AreTables(Tables(Views(keysymBindings), Views(keycodeBindings)))
    modifies keysymBindings, keycodeBindings
    ensures fresh(syms) && fresh(codes) && syms != codes
    ensures var t := Tables(old(Views(keysymBindings)), old(Views(keycodeBindings)));
      AllWellFormed(All(t)) && ViewOf(syms, codes) == Retranslated(t, keymap)
  {
    ghost var t := Tables(Views(keysymBindings), Views(keycodeBindings));
    DifferentKinds(keysymBindings, keycodeBindings);
    ImageOfAll(t, keymap);
    syms, codes := TranslateIntoNew(keysymBindings, keymap);
    assert Views(keycodeBindings) == t.codes;
    TranslateBindingList(keycodeBindings, syms, codes, keymap, Image(t.syms, keymap));
  }

  method TranslateIntoNew(bindings: seq<Binding>, keymap: Keymap) returns (syms: BindingList, codes: BindingList)
    requires DistinctObjects(bindings) && AllWellFormed(Views(bindings))
    modifies bindings
    ensures fresh(syms) && fresh(codes) && syms != codes
    ensures ViewOf(syms, codes) == Rebuilt(Image(old(Views(bindings)), keymap))
    ensures Held(syms, codes) <= Objects(bindings)
  {
    ghost var image := Image(Views(bindings), keymap);
    assert [] + image == image;
    syms := new BindingList();
    codes := new BindingList();
    TranslateBindingList(bindings, syms, codes, keymap, []);
  }

  lemma DifferentKinds(first: seq<Binding>, second: seq<Binding>)
    requires IsTable(Views(first), KeySym) && IsTable(Views(second), KeyCode)
    ensures DistinctObjects(first) && DistinctObjects(second)
    ensures Objects(first) !! Objects(second)
    ensures AllWellFormed(Views(first)) && AllWellFormed(Views(second))
  {
    forall i, j | 0 <= i < j < |first| ensures first[i] != first[j] {
      assert KeyOf(Views(first)[i]) != KeyOf(Views(first)[j]);
    }
    forall i, j | 0 <= i < j < |second| ensures second[i] != second[j] {
      assert KeyOf(Views(second)[i]) != KeyOf(Views(second)[j]);
    }
    forall i, j | 0 <= i < |first| && 0 <= j < |second| ensures first[i] != second[j] {
      assert Views(first)[i].kind == KeySym && Views(second)[j].kind == KeyCode;
    }
  }
}
