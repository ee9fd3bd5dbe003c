// What each event does to the session lock, and over whole runs, told by what is
// mapped, shown and focused rather than by the handlers.
module LockLaws {
  import opened SessionLock
  import opened Wrappers

  // The surface is shown on the output.
  ghost predicate Shows(l: Lock, output: nat, surface: nat) {
    exists i :: 0 <= i < |l.outputs| && l.outputs[i] == LockOutput(output, Some(surface))
  }

  ghost predicate HasOutput(l: Lock, output: nat) {
    exists i :: 0 <= i < |l.outputs| && l.outputs[i].output == output
  }

  ghost predicate OnScreen(l: Lock, mapped: set<nat>, surface: nat) {
    surface in mapped && exists i :: 0 <= i < |l.outputs| && l.outputs[i].surface == Some(surface)
  }

  // The surface of the first lock output, in their order, that has a mapped one.
  ghost predicate IsFirstMapped(l: Lock, mapped: set<nat>, r: Option<nat>) {
    match r
    case None => forall k :: 0 <= k < |l.outputs| ==> !IsMapped(l.outputs[k], mapped)
    case Some(x) =>
      exists i ::
        && 0 <= i < |l.outputs| && l.outputs[i].surface == r && IsMapped(l.outputs[i], mapped)
        && forall k :: 0 <= k < i ==> !IsMapped(l.outputs[k], mapped)
  }

  // The same lock is there before and after.
  predicate KeepsLock(s: State, e: Event)
    requires Enabled(s, e)
  {
    s.lock.Some? && HasLock(Step(s, e), s.lock.value.id)
  }

  // ---- The focus ----

  // The focus stays where it is as long as its surface is on screen; else it goes to
  // the first lock output with a mapped surface.
  ghost predicate FocusFollows(l: Lock, next: Lock, mapped: set<nat>) {
    if l.focused.Some? && OnScreen(next, mapped, l.focused.value) then next.focused == l.focused
    else IsFirstMapped(next, mapped, next.focused)
  }

  lemma MapFocus(l: Lock, outputs: seq<nat>, mapped: set<nat>, x: nat)
    requires LockIsRight(l, outputs, mapped)
    ensures FocusFollows(l, MappedIn(l, x), mapped + {x})
  {
    var os, i := l.outputs, FindSurface(l.outputs, x, 0);
    if l.focused.Some? {
      assert os[FindSurface(os, l.focused.value, 0)].surface == l.focused;
    } else if i < |os| {
      assert IsMapped(os[i], mapped + {x});
    }
  }

  lemma DestroyFocus(l: Lock, outputs: seq<nat>, mapped: set<nat>, x: nat)
    requires LockIsRight(l, outputs, mapped)
    ensures FocusFollows(l, DestroyedIn(l, x, mapped - {x}), mapped - {x})
  {
    var os, left, next := l.outputs, mapped - {x}, DestroyedIn(l, x, mapped - {x});
    var i := FindSurface(os, x, 0);
    if l.focused == Some(x) {
      var n := NextMapped(os, i, left, 0);
      if n < |os| { assert IsMapped(next.outputs[n], left); }
    } else if l.focused.Some? {
      assert next.outputs[FindSurface(os, l.focused.value, 0)].surface == l.focused;
    }
  }

  lemma GoneFocusFollows(l: Lock, outputs: seq<nat>, mapped: set<nat>, output: nat)
    requires LockIsRight(l, outputs, mapped)
    ensures FocusFollows(l, OutputGoneIn(l, output, mapped), mapped)
  {
    var os, next := l.outputs, OutputGoneIn(l, output, mapped);
    var i := FindOutput(os, output, 0);
    if l.focused.Some? {
      if i < |os| && os[i].surface == l.focused {
        FocusedGone(l, mapped, i);
      } else {
        var k := FindSurface(os, l.focused.value, 0);
        assert next.outputs[if k < i then k else k - 1].surface == l.focused;
      }
    }
  }

  lemma FocusedGone(l: Lock, mapped: set<nat>, i: nat)
    requires i < |l.outputs| && l.focused.Some? && l.outputs[i].surface == l.focused && DistinctSurfaces(l.outputs)
    ensures FocusFollows(l, WithoutOutput(l, mapped, i), mapped)
  {
    var next := WithoutOutput(l, mapped, i);
    var n := NextMapped(l.outputs, i, mapped, 0);
    if n < |l.outputs| {
      var k := if n < i then n else n - 1;
      assert next.outputs[k] == l.outputs[n] && IsMapped(next.outputs[k], mapped);
    }
  }

  lemma SurfaceFocus(l: Lock, outputs: seq<nat>, mapped: set<nat>, output: nat, x: nat)
    requires LockIsRight(l, outputs, mapped) && FindOutput(l.outputs, output, 0) < |l.outputs|
    requires x !in mapped && l.outputs[FindOutput(l.outputs, output, 0)].surface == None
    ensures FocusFollows(l, SurfaceIn(l, output, x), mapped)
  {
    if l.focused.Some? {
      var k := FindSurface(l.outputs, l.focused.value, 0);
      assert SurfaceIn(l, output, x).outputs[k].surface == l.focused;
    }
  }

  lemma FocusLaw(s: State, e: Event)
    requires Inv(s) && Enabled(s, e) && KeepsLock(s, e)
    ensures FocusFollows(s.lock.value, Step(s, e).lock.value, Step(s, e).mapped)
  {
    var l, next := s.lock.value, Step(s, e).lock.value;
    StepKeeps(s, e);
    match e
    case MapSurface(x) => MapFocus(l, s.allOutputs, s.mapped, x);
    case DestroySurface(x) => DestroyFocus(l, s.allOutputs, s.mapped, x);
    case DestroyOutput(o) => GoneFocusFollows(l, s.allOutputs, s.mapped, o);
    case NewSurface(id, o, x) =>
      if next != l {
        assert l.outputs[FindOutput(l.outputs, o, 0)] in l.outputs;
        SurfaceFocus(l, s.allOutputs, s.mapped, o, x);
      }
    case NewOutput(o) =>
      if l.focused.Some? { assert next.outputs[1 + FindSurface(l.outputs, l.focused.value, 0)].surface == l.focused; }
    case NewLock(_) => SameFocus(l, next, s.allOutputs, s.mapped);
    case Abandon(_) => SameFocus(l, next, s.allOutputs, s.mapped);
    case Unlock(_) => SameFocus(l, next, s.allOutputs, s.mapped);
    case RemoveOutput(_) => SameFocus(l, next, s.allOutputs, s.mapped);
    case DestroyManager =>
  }

  lemma SameFocus(l: Lock, next: Lock, outputs: seq<nat>, mapped: set<nat>)
    requires LockIsRight(l, outputs, mapped) && next.outputs == l.outputs && next.focused == l.focused
    ensures FocusFollows(l, next, mapped)
  {
    if l.focused.Some? { assert l.outputs[FindSurface(l.outputs, l.focused.value, 0)].surface == l.focused; }
  }

  // What can take the focus off a surface.
  ghost predicate TakesAway(s: State, e: Event, x: nat)
    requires Enabled(s, e) && s.lock.Some?
  {
    || e == DestroySurface(x)
    || (e.DestroyOutput? && Shows(s.lock.value, e.output, x))
    || !KeepsLock(s, e)
  }

  ghost predicate NothingTakesAway(s: State, events: seq<Event>, x: nat)
    requires CanRun(s, events)
    decreases |events|
  {
    events == [] ||
      (s.lock.Some? && !TakesAway(s, events[0], x) && NothingTakesAway(Step(s, events[0]), events[1..], x))
  }

  lemma FocusStep(s: State, e: Event, x: nat)
    requires Inv(s) && Enabled(s, e) && s.lock.Some? && s.lock.value.focused == Some(x) && !TakesAway(s, e, x)
    ensures Step(s, e).lock.Some? && Step(s, e).lock.value.focused == Some(x)
  {
    var l, next := s.lock.value, Step(s, e).lock.value;
    var k := FindSurface(l.outputs, x, 0);
    FocusLaw(s, e);
    assert l.outputs[k] == LockOutput(l.outputs[k].output, Some(x)) && l.outputs[k] in l.outputs;
    OutputAfter(s, e, k);
    assert next.outputs[Moved(l, e, k)].surface == Some(x);
  }

  // The focus is not taken away: over any run a surface that has it keeps it until
  // it is destroyed itself, its output is destroyed, or the lock goes.
  lemma {:induction false} FocusStays(s: State, events: seq<Event>, x: nat)
    requires Inv(s) && CanRun(s, events) && NothingTakesAway(s, events, x)
    requires s.lock.Some? && s.lock.value.focused == Some(x)
    ensures Run(s, events).lock.Some? && Run(s, events).lock.value.focused == Some(x)
    decreases |events|
  {
    if events != [] {
      FocusStep(s, events[0], x);
      StepKeeps(s, events[0]);
      FocusStays(Step(s, events[0]), events[1..], x);
    }
  }

  // ---- Outputs and surfaces ----

  // What is there after an event.
  lemma StateLaw(s: State, e: Event)
    requires Inv(s) && Enabled(s, e)
    ensures var t := Step(s, e);
      && (forall o :: o in t.allOutputs <==> (o in s.allOutputs && e != RemoveOutput(o)) || e == NewOutput(o))
      && (forall x :: x in t.mapped <==> (x in s.mapped && e != DestroySurface(x)) || e == MapSurface(x))
      && (t.manager <==> s.manager && e != DestroyManager)
  {
    if e.RemoveOutput? {
      var i := IndexOf(s.allOutputs, e.output);
      var all, rest := s.allOutputs, Step(s, e).allOutputs;
      forall o
        ensures o in rest <==> o in all && o != e.output
      {
        if o in all && o != e.output {
          var k :| 0 <= k < |all| && all[k] == o;
          assert rest[if k < i then k else k - 1] == o;
        }
      }
    }
  }

  // Where lock output i is after an event, unless that takes it away, and where the
  // lock output at k comes from, unless it is new.
  function Moved(l: Lock, e: Event, i: nat): (k: int) {
    match e
    case NewOutput(_) => i + 1
    case DestroyOutput(o) => if i < FindOutput(l.outputs, o, 0) then i else i - 1
    case _ => i
  }

  function CameFrom(l: Lock, e: Event, k: nat): (i: int) {
    match e
    case NewOutput(_) => k - 1
    case DestroyOutput(o) => if k < FindOutput(l.outputs, o, 0) then k else k + 1
    case _ => k
  }

  // The surface of a lock output after an event.
  function SurfaceAfter(l: Lock, lo: LockOutput, e: Event): (surface: Option<nat>) {
    match e
    case DestroySurface(x) => if lo.surface == Some(x) then None else lo.surface
    case NewSurface(id, o, x) => if id == l.id && !l.abandoned && o == lo.output then Some(x) else lo.surface
    case _ => lo.surface
  }

  lemma OutputAfter(s: State, e: Event, i: nat)
    requires Inv(s) && Enabled(s, e) && KeepsLock(s, e) && i < |s.lock.value.outputs|
    requires e != DestroyOutput(s.lock.value.outputs[i].output)
    ensures var l, next := s.lock.value, Step(s, e).lock.value;
      var lo, k := l.outputs[i], Moved(l, e, i);
      0 <= k < |next.outputs| && next.outputs[k] == LockOutput(lo.output, SurfaceAfter(l, lo, e))
  {
    var l := s.lock.value;
    match e
    case DestroySurface(x) => assert l.outputs[i].surface == Some(x) ==> i == FindSurface(l.outputs, x, 0);
    case NewSurface(id, o, x) => assert l.outputs[i].output == o ==> i == FindOutput(l.outputs, o, 0);
    case _ =>
  }

  lemma OutputBefore(s: State, e: Event, k: nat)
    requires Inv(s) && Enabled(s, e) && KeepsLock(s, e) && k < |Step(s, e).lock.value.outputs|
    ensures var l, next := s.lock.value, Step(s, e).lock.value;
      var i := CameFrom(l, e, k);
      if i < 0 then e == NewOutput(next.outputs[k].output) && next.outputs[k].surface == None && k == 0
      else
        && i < |l.outputs| && e != DestroyOutput(l.outputs[i].output)
        && next.outputs[k] == LockOutput(l.outputs[i].output, SurfaceAfter(l, l.outputs[i], e))
  {
    var l := s.lock.value;
    var i := CameFrom(l, e, k);
    if 0 <= i < |l.outputs| && e != DestroyOutput(l.outputs[i].output) {
      OutputAfter(s, e, i);
    }
  }

  // Which outputs a lock has.
  lemma OutputsLaw(s: State, e: Event, o: nat)
    requires Inv(s) && Enabled(s, e) && KeepsLock(s, e)
    ensures var l, next := s.lock.value, Step(s, e).lock.value;
      HasOutput(next, o) <==> (HasOutput(l, o) && e != DestroyOutput(o)) || e == NewOutput(o)
  {
    var l, next := s.lock.value, Step(s, e).lock.value;
    if HasOutput(l, o) && e != DestroyOutput(o) {
      var i :| 0 <= i < |l.outputs| && l.outputs[i].output == o;
      OutputAfter(s, e, i);
    }
    if HasOutput(next, o) {
      var k :| 0 <= k < |next.outputs| && next.outputs[k].output == o;
      OutputBefore(s, e, k);
    }
    if e == NewOutput(o) { assert next.outputs[0].output == o; }
  }

  // And which surfaces on which of them.
  lemma SurfacesLaw(s: State, e: Event, o: nat, x: nat)
    requires Inv(s) && Enabled(s, e) && KeepsLock(s, e)
    ensures var l, next := s.lock.value, Step(s, e).lock.value;
      Shows(next, o, x) <==>
        || (Shows(l, o, x) && e != DestroySurface(x) && e != DestroyOutput(o))
        || (e == NewSurface(l.id, o, x) && !l.abandoned && HasOutput(l, o))
  {
    var l, next := s.lock.value, Step(s, e).lock.value;
    if Shows(l, o, x) && e != DestroySurface(x) && e != DestroyOutput(o) {
      var i :| 0 <= i < |l.outputs| && l.outputs[i] == LockOutput(o, Some(x));
      OutputAfter(s, e, i);
      assert l.outputs[i] in l.outputs;
    }
    if e == NewSurface(l.id, o, x) && !l.abandoned && HasOutput(l, o) {
      var i :| 0 <= i < |l.outputs| && l.outputs[i].output == o;
      OutputAfter(s, e, i);
    }
    if Shows(next, o, x) {
      var k :| 0 <= k < |next.outputs| && next.outputs[k] == LockOutput(o, Some(x));
      OutputBefore(s, e, k);
    }
  }

  // Their order: a new output comes first, and the others keep theirs.
  ghost predicate InFront(l: Lock, o: nat, p: nat) {
    exists i, j :: 0 <= i < j < |l.outputs| && l.outputs[i].output == o && l.outputs[j].output == p
  }

  lemma OrderKept(s: State, e: Event, o: nat, p: nat)
    requires Inv(s) && Enabled(s, e) && KeepsLock(s, e)
    requires InFront(s.lock.value, o, p) && e != DestroyOutput(o) && e != DestroyOutput(p)
    ensures InFront(Step(s, e).lock.value, o, p)
  {
    var l, next := s.lock.value, Step(s, e).lock.value;
    var i, j :| 0 <= i < j < |l.outputs| && l.outputs[i].output == o && l.outputs[j].output == p;
    OutputAfter(s, e, i);
    OutputAfter(s, e, j);
    var i', j' := Moved(l, e, i), Moved(l, e, j);
    assert i' < j' && next.outputs[i'].output == o && next.outputs[j'].output == p;
  }

  lemma OrderBefore(s: State, e: Event, o: nat, p: nat)
    requires Inv(s) && Enabled(s, e) && KeepsLock(s, e) && InFront(Step(s, e).lock.value, o, p)
    ensures var l := s.lock.value;
      || (InFront(l, o, p) && e != DestroyOutput(o) && e != DestroyOutput(p))
      || (e == NewOutput(o) && HasOutput(l, p))
  {
    var l, next := s.lock.value, Step(s, e).lock.value;
    var i, j :| 0 <= i < j < |next.outputs| && next.outputs[i].output == o && next.outputs[j].output == p;
    OutputBefore(s, e, i);
    OutputBefore(s, e, j);
    var i', j' := CameFrom(l, e, i), CameFrom(l, e, j);
    assert i' < j' && l.outputs[j'].output == p && (i' >= 0 ==> l.outputs[i'].output == o);
  }

  lemma OrderLaw(s: State, e: Event, o: nat, p: nat)
    requires Inv(s) && Enabled(s, e) && KeepsLock(s, e)
    ensures var l, next := s.lock.value, Step(s, e).lock.value;
      InFront(next, o, p) <==>
        || (InFront(l, o, p) && e != DestroyOutput(o) && e != DestroyOutput(p))
        || (e == NewOutput(o) && HasOutput(l, p))
  {
    var l, next := s.lock.value, Step(s, e).lock.value;
    if InFront(l, o, p) && e != DestroyOutput(o) && e != DestroyOutput(p) { OrderKept(s, e, o, p); }
    if InFront(next, o, p) { OrderBefore(s, e, o, p); }
    if e == NewOutput(o) && HasOutput(l, p) {
      var j :| 0 <= j < |l.outputs| && l.outputs[j].output == p;
      assert next.outputs[0].output == o && next.outputs[j + 1].output == p;
    }
  }

  // A new lock gets the session exactly if the manager is there and no live lock
  // holds it; it covers the outputs and starts with nothing on them.
  lemma NewLockLaw(s: State, id: nat)
    requires Inv(s) && Enabled(s, NewLock(id))
    ensures var t := Step(s, NewLock(id));
      if s.manager && !PhaseOf(s).Locked? then
        && PhaseOf(t) == Locked(id) && t.lock.value.focused == None
        && (forall o :: HasOutput(t.lock.value, o) <==> o in s.allOutputs)
        && (forall i :: 0 <= i < |t.lock.value.outputs| ==> t.lock.value.outputs[i].surface == None)
      else t == s
  {
    if s.manager && !PhaseOf(s).Locked? {
      var l, all := Step(s, NewLock(id)).lock.value, s.allOutputs;
      forall o
        ensures HasOutput(l, o) <==> o in all
      {
        if o in all {
          var k :| 0 <= k < |all| && all[k] == o;
          assert l.outputs[|all| - 1 - k].output == o;
        }
      }
    }
  }

  // How a lock ends, and what its abandonment leaves.
  lemma EndLaw(s: State, id: nat)
    requires Inv(s) && PhaseOf(s) == Locked(id)
    ensures PhaseOf(Step(s, Unlock(id))) == Unlocked && PhaseOf(Step(s, DestroyManager)) == Unlocked
    ensures PhaseOf(Step(s, Abandon(id))) == Abandoned(id)
    ensures var l, a := s.lock.value, Step(s, Abandon(id)).lock.value;
      a.outputs == l.outputs && a.focused == l.focused
  {
  }

  // Without a manager there is never a lock again.
  lemma {:induction false} NoManagerNoLock(s: State, events: seq<Event>)
    requires Inv(s) && CanRun(s, events) && !s.manager && s.lock == None
    ensures Run(s, events).lock == None && !Run(s, events).manager
    decreases |events|
  {
    if events != [] {
      StepKeeps(s, events[0]);
      NoManagerNoLock(Step(s, events[0]), events[1..]);
    }
  }
}
