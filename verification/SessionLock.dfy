// sway/lock.c: the session lock.  Outputs and surfaces are numbers; what wlroots
// and the rest of sway do arrives as events.
module SessionLock {
  import opened Sequences
  import opened Wrappers

  // The part of a lock on one output.
  datatype LockOutput = LockOutput(output: nat, surface: Option<nat>)

  // Which of its three listeners a lock has linked.
  datatype Listeners = Listeners(destroy: bool, unlock: bool, newSurface: bool)

  const LINKED := Listeners(true, true, true)
  const UNLINKED := Listeners(false, false, false)

  datatype Lock = Lock(id: nat, outputs: seq<LockOutput>, focused: Option<nat>, abandoned: bool, listeners: Listeners)

  // The server: its lock, all its outputs, the surfaces that are mapped, and
  // whether the lock manager is still there.
  datatype State = State(lock: Option<Lock>, allOutputs: seq<nat>, mapped: set<nat>, manager: bool)

  datatype Event =
    | NewLock(id: nat)
    | Abandon(id: nat)
    | Unlock(id: nat)
    | NewSurface(id: nat, output: nat, surface: nat)
    | MapSurface(surface: nat)
    | DestroySurface(surface: nat)
    | NewOutput(output: nat)
    | RemoveOutput(output: nat)
    | DestroyOutput(output: nat)
    | DestroyManager

  // ---- What the handlers do ----

  predicate IsMapped(lo: LockOutput, mapped: set<nat>) {
    lo.surface.Some? && lo.surface.value in mapped
  }

  function FindOutput(os: seq<LockOutput>, output: nat, from: nat): (i: nat)
    requires from <= |os|
    ensures from <= i <= |os|
    ensures i < |os| ==> os[i].output == output
    ensures forall k :: from <= k < i ==> os[k].output != output
    decreases |os| - from
  {
    if from == |os| || os[from].output == output then from else FindOutput(os, output, from + 1)
  }

  function FindSurface(os: seq<LockOutput>, surface: nat, from: nat): (i: nat)
    requires from <= |os|
    ensures from <= i <= |os|
    ensures i < |os| ==> os[i].surface == Some(surface)
    ensures forall k :: from <= k < i ==> os[k].surface != Some(surface)
    decreases |os| - from
  {
    if from == |os| || os[from].surface == Some(surface) then from else FindSurface(os, surface, from + 1)
  }

  // The first lock output at or behind `from`, other than `but`, whose surface is
  // mapped.
  function NextMapped(os: seq<LockOutput>, but: nat, mapped: set<nat>, from: nat): (i: nat)
    requires from <= |os|
    ensures from <= i <= |os|
    ensures i < |os| ==> i != but && IsMapped(os[i], mapped)
    ensures forall k :: from <= k < i && k != but ==> !IsMapped(os[k], mapped)
    decreases |os| - from
  {
    if from == |os| || (from != but && IsMapped(os[from], mapped)) then from else NextMapped(os, but, mapped, from + 1)
  }

  // The focus when the surface of lock output i goes away.
  function Refocused(os: seq<LockOutput>, focused: Option<nat>, mapped: set<nat>, i: nat): (r: Option<nat>)
    requires i < |os|
  {
    if focused == os[i].surface then
      var next := NextMapped(os, i, mapped, 0);
      if next < |os| then os[next].surface else None
    else focused
  }

  // Each output is put in front of those before it.
  function Covering(outputs: seq<nat>): (os: seq<LockOutput>)
    ensures |os| == |outputs|
    ensures forall k :: 0 <= k < |os| ==> os[k] == LockOutput(outputs[|outputs| - 1 - k], None)
  {
    if outputs == [] then [] else Covering(outputs[1..]) + [LockOutput(outputs[0], None)]
  }

  // The lock without its part on lock output i.
  function WithoutOutput(l: Lock, mapped: set<nat>, i: nat): (r: Lock)
    requires i < |l.outputs|
  {
    l.(outputs := Without(l.outputs, i),
       focused := if l.outputs[i].surface.Some? then Refocused(l.outputs, l.focused, mapped, i) else l.focused)
  }

  function IndexOf(outputs: seq<nat>, output: nat): (i: nat)
    ensures i <= |outputs|
    ensures i < |outputs| ==> outputs[i] == output
    ensures i == |outputs| ==> output !in outputs
  {
    if outputs == [] || outputs[0] == output then 0 else 1 + IndexOf(outputs[1..], output)
  }

  function MappedIn(l: Lock, surface: nat): (r: Lock) {
    if FindSurface(l.outputs, surface, 0) < |l.outputs| && l.focused == None then l.(focused := Some(surface)) else l
  }

  function DestroyedIn(l: Lock, surface: nat, mapped: set<nat>): (r: Lock) {
    var i := FindSurface(l.outputs, surface, 0);
    if i == |l.outputs| then l
    else
      var cleared := l.outputs[i].(surface := None);
      l.(outputs := l.outputs[i := cleared], focused := Refocused(l.outputs, l.focused, mapped, i))
  }

  function SurfaceIn(l: Lock, output: nat, surface: nat): (r: Lock)
    requires FindOutput(l.outputs, output, 0) < |l.outputs|
  {
    var i := FindOutput(l.outputs, output, 0);
    l.(outputs := l.outputs[i := l.outputs[i].(surface := Some(surface))])
  }

  function OutputGoneIn(l: Lock, output: nat, mapped: set<nat>): (r: Lock) {
    var i := FindOutput(l.outputs, output, 0);
    if i == |l.outputs| then l else WithoutOutput(l, mapped, i)
  }

  predicate HasLock(s: State, id: nat) {
    s.lock.Some? && s.lock.value.id == id
  }

  // What may happen next.  Objects that come new are not around yet; a surface is
  // for an output without one; an output is destroyed after its removal; and a
  // surface is unmapped only when it is destroyed.
  predicate Enabled(s: State, e: Event) {
    match e
    case NewLock(id) => !HasLock(s, id)
    case NewSurface(id, output, surface) =>
      && output in s.allOutputs && surface !in s.mapped
      && (s.lock.Some? ==> FindSurface(s.lock.value.outputs, surface, 0) == |s.lock.value.outputs|)
      && (HasLock(s, id) ==> forall lo :: lo in s.lock.value.outputs && lo.output == output ==> lo.surface == None)
    case NewOutput(output) =>
      && output !in s.allOutputs
      && (s.lock.Some? ==> FindOutput(s.lock.value.outputs, output, 0) == |s.lock.value.outputs|)
    case RemoveOutput(output) => output in s.allOutputs
    case DestroyOutput(output) => output !in s.allOutputs
    case DestroyManager => s.manager
    case _ => true
  }

  function Step(s: State, e: Event): (r: State) {
    match e
    case NewLock(id) =>
      if !s.manager || (s.lock.Some? && !s.lock.value.abandoned) then s
      else s.(lock := Some(Lock(id, Covering(s.allOutputs), None, false, LINKED)))
    case Abandon(id) =>
      if HasLock(s, id) && s.lock.value.listeners.destroy then
        s.(lock := Some(s.lock.value.(abandoned := true, listeners := UNLINKED)))
      else s
    case Unlock(id) => if HasLock(s, id) && s.lock.value.listeners.unlock then s.(lock := None) else s
    case NewSurface(id, output, surface) =>
      if HasLock(s, id) && s.lock.value.listeners.newSurface
        && FindOutput(s.lock.value.outputs, output, 0) < |s.lock.value.outputs|
      then
        s.(lock := Some(SurfaceIn(s.lock.value, output, surface)))
      else s
    case MapSurface(surface) =>
      var lock := if s.lock.Some? then Some(MappedIn(s.lock.value, surface)) else None;
      State(lock, s.allOutputs, s.mapped + {surface}, s.manager)
    case DestroySurface(surface) =>
      var mapped := s.mapped - {surface};
      var lock := if s.lock.Some? then Some(DestroyedIn(s.lock.value, surface, mapped)) else None;
      State(lock, s.allOutputs, mapped, s.manager)
    case NewOutput(output) =>
      var added := [LockOutput(output, None)];
      var lock := if s.lock.Some? then Some(s.lock.value.(outputs := added + s.lock.value.outputs)) else None;
      State(lock, [output] + s.allOutputs, s.mapped, s.manager)
    case RemoveOutput(output) =>
      var i := IndexOf(s.allOutputs, output);
      if i < |s.allOutputs| then s.(allOutputs := Without(s.allOutputs, i)) else s
    case DestroyOutput(output) =>
      if s.lock.Some? then s.(lock := Some(OutputGoneIn(s.lock.value, output, s.mapped))) else s
    case DestroyManager => s.(lock := None, manager := false)
  }

  // ---- What every run keeps ----

  predicate DistinctOutputs(os: seq<LockOutput>) {
    forall i, j :: 0 <= i < j < |os| ==> os[i].output != os[j].output
  }

  predicate DistinctSurfaces(os: seq<LockOutput>) {
    forall i, j :: 0 <= i < j < |os| && os[i].surface.Some? ==> os[i].surface != os[j].surface
  }

  // Every output of the server has its lock output.
  predicate Covers(os: seq<LockOutput>, outputs: seq<nat>) {
    forall o :: o in outputs ==> FindOutput(os, o, 0) < |os|
  }

  // The focus is on a mapped surface of the lock if there is one.
  predicate FocusIsRight(os: seq<LockOutput>, focused: Option<nat>, mapped: set<nat>) {
    match focused
    case None => forall i :: 0 <= i < |os| ==> !IsMapped(os[i], mapped)
    case Some(x) => x in mapped && FindSurface(os, x, 0) < |os|
  }

  predicate Distinct(s: seq<nat>) {
    forall i, j :: 0 <= i < j < |s| ==> s[i] != s[j]
  }

  predicate LockIsRight(l: Lock, outputs: seq<nat>, mapped: set<nat>) {
    && DistinctOutputs(l.outputs)
    && DistinctSurfaces(l.outputs)
    && Covers(l.outputs, outputs)
    && FocusIsRight(l.outputs, l.focused, mapped)
    && l.listeners == (if l.abandoned then UNLINKED else LINKED)
  }

  predicate Inv(s: State) {
    Distinct(s.allOutputs) && (s.lock.Some? ==> LockIsRight(s.lock.value, s.allOutputs, s.mapped))
  }

  lemma FoundOutput(os: seq<LockOutput>, output: nat, i: nat)
    requires i < |os| && os[i].output == output
    ensures FindOutput(os, output, 0) <= i
  {}

  lemma FoundSurface(os: seq<LockOutput>, surface: nat, i: nat)
    requires i < |os| && os[i].surface == Some(surface)
    ensures FindSurface(os, surface, 0) <= i
  {}

  lemma NewLockIsRight(id: nat, outputs: seq<nat>, mapped: set<nat>)
    requires Distinct(outputs)
    ensures LockIsRight(Lock(id, Covering(outputs), None, false, LINKED), outputs, mapped)
  {
    var os := Covering(outputs);
    forall o | o in outputs
      ensures FindOutput(os, o, 0) < |os|
    {
      var k :| 0 <= k < |outputs| && outputs[k] == o;
      FoundOutput(os, o, |outputs| - 1 - k);
    }
  }

  lemma MapKeeps(l: Lock, outputs: seq<nat>, mapped: set<nat>, surface: nat)
    requires LockIsRight(l, outputs, mapped)
    ensures LockIsRight(MappedIn(l, surface), outputs, mapped + {surface})
  {}

  lemma DestroySurfaceKeeps(l: Lock, outputs: seq<nat>, mapped: set<nat>, surface: nat)
    requires LockIsRight(l, outputs, mapped)
    ensures LockIsRight(DestroyedIn(l, surface, mapped - {surface}), outputs, mapped - {surface})
  {
    var os, i := l.outputs, FindSurface(l.outputs, surface, 0);
    if i < |os| {
      var os' := os[i := os[i].(surface := None)];
      SameOutputs(os, os', outputs);
      DestroyedFocus(os, l.focused, mapped, surface, i);
    }
  }

  lemma DestroyedFocus(os: seq<LockOutput>, focused: Option<nat>, mapped: set<nat>, surface: nat, i: nat)
    requires i < |os| && os[i].surface == Some(surface) && DistinctSurfaces(os) && FocusIsRight(os, focused, mapped)
    ensures var left := mapped - {surface};
      FocusIsRight(os[i := os[i].(surface := None)], Refocused(os, focused, left, i), left)
  {
    var os', mapped' := os[i := os[i].(surface := None)], mapped - {surface};
    if focused == Some(surface) {
      var next := NextMapped(os, i, mapped', 0);
      if next < |os| { FoundSurface(os', os[next].surface.value, next); }
    } else if focused.Some? {
      FoundSurface(os', focused.value, FindSurface(os, focused.value, 0));
    }
  }

  // Only the surfaces differ.
  lemma SameOutputs(os: seq<LockOutput>, os': seq<LockOutput>, outputs: seq<nat>)
    requires |os| == |os'| && forall k :: 0 <= k < |os| ==> os[k].output == os'[k].output
    requires DistinctOutputs(os) && Covers(os, outputs)
    ensures DistinctOutputs(os') && Covers(os', outputs)
  {
    forall o | o in outputs
      ensures FindOutput(os', o, 0) < |os'|
    {
      FoundOutput(os', o, FindOutput(os, o, 0));
    }
  }

  lemma NewSurfaceKeeps(l: Lock, outputs: seq<nat>, mapped: set<nat>, output: nat, surface: nat)
    requires LockIsRight(l, outputs, mapped)
    requires output in outputs && surface !in mapped && FindSurface(l.outputs, surface, 0) == |l.outputs|
    requires forall lo :: lo in l.outputs && lo.output == output ==> lo.surface == None
    ensures FindOutput(l.outputs, output, 0) < |l.outputs|
    ensures LockIsRight(SurfaceIn(l, output, surface), outputs, mapped)
  {
    var os, i := l.outputs, FindOutput(l.outputs, output, 0);
    var os' := os[i := os[i].(surface := Some(surface))];
    SameOutputs(os, os', outputs);
    assert os[i] in os;
    if l.focused.Some? {
      FoundSurface(os', l.focused.value, FindSurface(os, l.focused.value, 0));
    }
  }

  lemma NewOutputKeeps(l: Lock, outputs: seq<nat>, mapped: set<nat>, output: nat)
    requires LockIsRight(l, outputs, mapped) && FindOutput(l.outputs, output, 0) == |l.outputs|
    ensures LockIsRight(l.(outputs := [LockOutput(output, None)] + l.outputs), [output] + outputs, mapped)
  {
    var os := [LockOutput(output, None)] + l.outputs;
    forall o | o in [output] + outputs
      ensures FindOutput(os, o, 0) < |os|
    {
      if o == output { FoundOutput(os, o, 0); } else { FoundOutput(os, o, 1 + FindOutput(l.outputs, o, 0)); }
    }
    if l.focused.Some? {
      FoundSurface(os, l.focused.value, 1 + FindSurface(l.outputs, l.focused.value, 0));
    }
  }

  lemma OutputGoneKeeps(l: Lock, outputs: seq<nat>, mapped: set<nat>, output: nat)
    requires LockIsRight(l, outputs, mapped) && output !in outputs
    ensures LockIsRight(OutputGoneIn(l, output, mapped), outputs, mapped)
  {
    var i := FindOutput(l.outputs, output, 0);
    if i < |l.outputs| {
      OthersFound(l.outputs, outputs, output);
      GoneFocus(l.outputs, l.focused, mapped, i);
    }
  }

  lemma OthersFound(os: seq<LockOutput>, outputs: seq<nat>, output: nat)
    requires output !in outputs && FindOutput(os, output, 0) < |os|
    requires forall o :: o in outputs ==> FindOutput(os, o, 0) < |os|
    ensures var rest := Without(os, FindOutput(os, output, 0));
      forall o :: o in outputs ==> FindOutput(rest, o, 0) < |rest|
  {
    var i := FindOutput(os, output, 0);
    var rest := Without(os, i);
    forall o | o in outputs
      ensures FindOutput(rest, o, 0) < |rest|
    {
      var k := FindOutput(os, o, 0);
      FoundOutput(rest, o, if k < i then k else k - 1);
    }
  }

  lemma GoneFocus(os: seq<LockOutput>, focused: Option<nat>, mapped: set<nat>, i: nat)
    requires i < |os| && DistinctSurfaces(os) && FocusIsRight(os, focused, mapped)
    ensures var focus := if os[i].surface.Some? then Refocused(os, focused, mapped, i) else focused;
      FocusIsRight(Without(os, i), focus, mapped)
  {
    var os' := Without(os, i);
    var r := if os[i].surface.Some? then Refocused(os, focused, mapped, i) else focused;
    if r.Some? {
      var k := if r == focused then FindSurface(os, r.value, 0) else NextMapped(os, i, mapped, 0);
      assert os[k].surface == r;
      FoundSurface(os', r.value, if k < i then k else k - 1);
    }
  }

  // Every event keeps the state right.
  lemma StepKeeps(s: State, e: Event)
    requires Inv(s) && Enabled(s, e)
    ensures Inv(Step(s, e))
  {
    match e
    case NewLock(id) => NewLockIsRight(id, s.allOutputs, s.mapped);
    case NewSurface(id, output, surface) =>
      if HasLock(s, id) { NewSurfaceKeeps(s.lock.value, s.allOutputs, s.mapped, output, surface); }
    case MapSurface(surface) =>
      if s.lock.Some? { MapKeeps(s.lock.value, s.allOutputs, s.mapped, surface); }
    case DestroySurface(surface) =>
      if s.lock.Some? { DestroySurfaceKeeps(s.lock.value, s.allOutputs, s.mapped, surface); }
    case NewOutput(output) =>
      if s.lock.Some? { NewOutputKeeps(s.lock.value, s.allOutputs, s.mapped, output); }
    case RemoveOutput(output) =>
    case DestroyOutput(output) =>
      if s.lock.Some? { OutputGoneKeeps(s.lock.value, s.allOutputs, s.mapped, output); }
    case Abandon(id) =>
    case Unlock(id) =>
    case DestroyManager =>
  }

  // ---- Runs ----

  function Run(s: State, events: seq<Event>): (r: State)
    decreases |events|
  {
    if events == [] then s else Run(Step(s, events[0]), events[1..])
  }

  predicate CanRun(s: State, events: seq<Event>)
    decreases |events|
  {
    events == [] || (Enabled(s, events[0]) && CanRun(Step(s, events[0]), events[1..]))
  }

  // The session when sway starts.
  function Start(outputs: seq<nat>): (s: State) {
    State(None, outputs, {}, true)
  }

  lemma {:induction false} RunKeeps(s: State, events: seq<Event>)
    requires Inv(s) && CanRun(s, events)
    ensures Inv(Run(s, events))
    decreases |events|
  {
    if events != [] {
      StepKeeps(s, events[0]);
      RunKeeps(Step(s, events[0]), events[1..]);
    }
  }

  // In every reachable state a lock has exactly one lock output for each output
  // of the server, at most one for any other, and its focus is on a mapped surface
  // of a lock output whenever there is one.
  lemma ReachableLockIsRight(outputs: seq<nat>, events: seq<Event>, output: nat)
    requires Distinct(outputs) && CanRun(Start(outputs), events)
    ensures var s := Run(Start(outputs), events);
      s.lock.Some? ==>
        var os := s.lock.value.outputs;
        && (forall i, j :: 0 <= i < |os| && 0 <= j < |os| && os[i].output == os[j].output ==> i == j)
        && (output in s.allOutputs ==> exists i :: 0 <= i < |os| && os[i].output == output)
        && (s.lock.value.focused == None <==> forall i :: 0 <= i < |os| ==> !IsMapped(os[i], s.mapped))
        && (s.lock.value.focused.Some? ==>
              exists i :: 0 <= i < |os| && IsMapped(os[i], s.mapped) && os[i].surface == s.lock.value.focused)
        && (s.lock.value.listeners == if s.lock.value.abandoned then UNLINKED else LINKED)
  {
    RunKeeps(Start(outputs), events);
    var s := Run(Start(outputs), events);
    if s.lock.Some? {
      var l := s.lock.value;
      if output in s.allOutputs { assert l.outputs[FindOutput(l.outputs, output, 0)].output == output; }
      if l.focused.Some? { assert IsMapped(l.outputs[FindSurface(l.outputs, l.focused.value, 0)], s.mapped); }
    }
  }

  // ---- The protocol: what a session can be ----

  datatype Phase = Unlocked | Locked(id: nat) | Abandoned(id: nat)

  function PhaseOf(s: State): (p: Phase) {
    if s.lock == None then Unlocked
    else if s.lock.value.abandoned then Abandoned(s.lock.value.id)
    else Locked(s.lock.value.id)
  }

  function NextPhase(p: Phase, e: Event, manager: bool): (r: Phase) {
    match e
    case NewLock(id) => if p.Locked? || !manager then p else Locked(id)
    case Abandon(id) => if p == Locked(id) then Abandoned(id) else p
    case Unlock(id) => if p == Locked(id) then Unlocked else p
    case DestroyManager => Unlocked
    case _ => p
  }

  // The handlers follow the protocol, although each looks only at which listeners
  // are linked.
  lemma StepFollowsProtocol(s: State, e: Event)
    requires Inv(s)
    ensures PhaseOf(Step(s, e)) == NextPhase(PhaseOf(s), e, s.manager)
  {
    assert s.lock.Some? ==> LockIsRight(s.lock.value, s.allOutputs, s.mapped);
  }

  // A locked session gets unlocked only by an unlock from the lock that holds it
  // and has not been abandoned, or when the manager is destroyed.
  lemma {:induction false} UnlockedOnlyByItsLock(s: State, events: seq<Event>)
    requires Inv(s) && CanRun(s, events) && PhaseOf(s) != Unlocked && PhaseOf(Run(s, events)) == Unlocked
    ensures exists k :: 0 <= k < |events| && Unlocks(PhaseOf(Run(s, events[..k])), events[k])
    decreases |events|
  {
    if Unlocks(PhaseOf(s), events[0]) {
      assert events[..0] == [];
    } else {
      StepFollowsProtocol(s, events[0]);
      StepKeeps(s, events[0]);
      UnlockedOnlyByItsLock(Step(s, events[0]), events[1..]);
      var k :| 0 <= k < |events| - 1 && Unlocks(PhaseOf(Run(Step(s, events[0]), events[1..][..k])), events[1..][k]);
      assert events[..k + 1][1..] == events[1..][..k];
    }
  }

  predicate Unlocks(p: Phase, e: Event) {
    e == DestroyManager || (p.Locked? && e == Unlock(p.id))
  }

  // A live lock is never replaced: it holds the session until it unlocks it or is
  // abandoned itself.
  lemma {:induction false} LiveLockStays(s: State, events: seq<Event>, id: nat)
    requires Inv(s) && CanRun(s, events) && PhaseOf(s) == Locked(id)
    requires Unlock(id) !in events && Abandon(id) !in events && DestroyManager !in events
    ensures PhaseOf(Run(s, events)) == Locked(id)
    decreases |events|
  {
    if events != [] {
      assert events[0] in events && forall e :: e in events[1..] ==> e in events;
      StepFollowsProtocol(s, events[0]);
      StepKeeps(s, events[0]);
      LiveLockStays(Step(s, events[0]), events[1..], id);
    }
  }

  // An abandoned lock holds the session until a new lock replaces it.
  lemma {:induction false} AbandonedLockStays(s: State, events: seq<Event>, id: nat)
    requires Inv(s) && CanRun(s, events) && PhaseOf(s) == Abandoned(id)
    requires forall e :: e in events ==> !e.NewLock? && e != DestroyManager
    ensures PhaseOf(Run(s, events)) == Abandoned(id)
    decreases |events|
  {
    if events != [] {
      StepFollowsProtocol(s, events[0]);
      StepKeeps(s, events[0]);
      AbandonedLockStays(Step(s, events[0]), events[1..], id);
    }
  }

  // ---- The handlers ----

  class SessionLock {
    const id: nat
    var outputs: seq<LockOutput>
    var focused: Option<nat>
    var abandoned: bool
    var destroyLinked: bool
    var unlockLinked: bool
    var newSurfaceLinked: bool

    constructor (id: nat)
      ensures View() == Lock(id, [], None, false, UNLINKED)
    {
      this.id := id;
      outputs, focused, abandoned := [], None, false;
      destroyLinked, unlockLinked, newSurfaceLinked := false, false, false;
    }

    ghost function View(): (l: Lock)
      reads this
    {
      Lock(id, outputs, focused, abandoned, Listeners(destroyLinked, unlockLinked, newSurfaceLinked))
    }

    method AddOutput(output: nat)
      modifies this
      ensures View() == old(View()).(outputs := [LockOutput(output, None)] + old(outputs))
    {
      outputs := [LockOutput(output, None)] + outputs;
    }

    // Moves the focus off the surface of a lock output that goes away.
    method RefocusOutput(output: nat, mapped: set<nat>)
      requires output < |outputs|
      modifies `focused
      ensures focused == Refocused(outputs, old(focused), mapped, output)
      ensures old(focused) != outputs[output].surface ==> focused == old(focused)
      ensures old(focused) == outputs[output].surface ==>
        || (focused == None && forall k :: 0 <= k < |outputs| && k != output ==> !IsMapped(outputs[k], mapped))
        || exists i ::
             && 0 <= i < |outputs| && i != output && IsMapped(outputs[i], mapped) && focused == outputs[i].surface
             && forall k :: 0 <= k < i && k != output ==> !IsMapped(outputs[k], mapped)
    {
      if focused == outputs[output].surface {
        var nextFocus, i := None, 0;
        while i < |outputs|
          invariant i <= |outputs| && nextFocus == None
          invariant NextMapped(outputs, output, mapped, i) == NextMapped(outputs, output, mapped, 0)
          decreases |outputs| - i
        {
          var candidate := outputs[i];
          if i != output && candidate.surface.Some? && candidate.surface.value in mapped {
            nextFocus := candidate.surface;
            break;
          }
          i := i + 1;
        }
        focused := nextFocus;
      }
    }

    method HandleSurfaceMap(output: nat)
      requires output < |outputs| && outputs[output].surface.Some?
      modifies `focused
      ensures View() == MappedIn(old(View()), outputs[output].surface.value)
      ensures focused == if old(focused) == None then outputs[output].surface else old(focused)
    {
      FoundSurface(outputs, outputs[output].surface.value, output);
      if focused == None {
        focused := outputs[output].surface;
      }
    }

    method HandleSurfaceDestroy(output: nat, mapped: set<nat>)
      requires output < |outputs| && outputs[output].surface.Some?
      requires output == FindSurface(outputs, outputs[output].surface.value, 0)
      modifies `focused, `outputs
      ensures View() == DestroyedIn(old(View()), old(outputs)[output].surface.value, mapped)
      ensures outputs == old(outputs)[output := LockOutput(old(outputs)[output].output, None)]
    {
      RefocusOutput(output, mapped);
      outputs := outputs[output := outputs[output].(surface := None)];
    }

    method HandleNewSurface(output: nat, surface: nat)
      requires FindOutput(outputs, output, 0) < |outputs|
      modifies `outputs
      ensures View() == SurfaceIn(old(View()), output, surface)
      ensures |outputs| == |old(outputs)|
      ensures exists i ::
        && 0 <= i < |outputs| && old(outputs)[i].output == output
        && outputs == old(outputs)[i := LockOutput(output, Some(surface))]
    {
      var i := LookUp(output);
      outputs := outputs[i := outputs[i].(surface := Some(surface))];
    }

    method LookUp(output: nat) returns (i: nat)
      ensures i == FindOutput(outputs, output, 0)
    {
      i := 0;
      while i < |outputs| && outputs[i].output != output
        invariant i <= |outputs|
        invariant FindOutput(outputs, output, i) == FindOutput(outputs, output, 0)
        decreases |outputs| - i
      {
        i := i + 1;
      }
    }

    // Finds the lock output whose listeners hang on a surface.
    method LookUpSurface(surface: nat) returns (i: nat)
      ensures i == FindSurface(outputs, surface, 0)
    {
      i := 0;
      while i < |outputs| && outputs[i].surface != Some(surface)
        invariant i <= |outputs|
        invariant FindSurface(outputs, surface, i) == FindSurface(outputs, surface, 0)
        decreases |outputs| - i
      {
        i := i + 1;
      }
    }

    method DestroyOutput(i: nat, mapped: set<nat>)
      requires i < |outputs|
      modifies `focused, `outputs
      ensures View() == WithoutOutput(old(View()), mapped, i)
      ensures outputs == Without(old(outputs), i)
    {
      if outputs[i].surface.Some? {
        RefocusOutput(i, mapped);
      }
      outputs := Without(outputs, i);
    }

    // No listener is removed that is not linked.
    method Unlink()
      requires destroyLinked && unlockLinked && newSurfaceLinked
      modifies `destroyLinked, `unlockLinked, `newSurfaceLinked
      ensures View() == old(View()).(listeners := UNLINKED)
    {
      destroyLinked, unlockLinked, newSurfaceLinked := false, false, false;
    }

    method HandleAbandon()
      requires destroyLinked && unlockLinked && newSurfaceLinked
      modifies this
      ensures View() == old(View()).(abandoned := true, listeners := UNLINKED)
    {
      abandoned := true;
      Unlink();
    }
  }

  class Server {
    var lock: SessionLock?
    var allOutputs: seq<nat>
    var mapped: set<nat>
    var manager: bool

    constructor (outputs: seq<nat>)
      ensures View() == Start(outputs)
    {
      lock, allOutputs, mapped, manager := null, outputs, {}, true;
    }

    ghost function View(): (s: State)
      reads this, lock
    {
      State(if lock == null then None else Some(lock.View()), allOutputs, mapped, manager)
    }

    // Destroys the lock with all its lock outputs.
    method DestroyLock()
      requires lock != null && (!lock.abandoned ==> lock.destroyLinked && lock.unlockLinked && lock.newSurfaceLinked)
      modifies this`lock, lock
      ensures lock == null && old(lock).outputs == []
      ensures !old(lock).destroyLinked || old(lock.abandoned)
    {
      var l := lock;
      while l.outputs != []
        invariant lock == l
        invariant l.abandoned == old(lock.abandoned)
        invariant !l.abandoned ==> l.destroyLinked && l.unlockLinked && l.newSurfaceLinked
        decreases |l.outputs|
      {
        l.DestroyOutput(0, mapped);
      }
      lock := null;
      if !l.abandoned {
        l.Unlink();
      }
    }

    method HandleSessionLock(id: nat)
      requires Inv(View()) && manager
      modifies this`lock, lock
      ensures View() == Step(old(View()), NewLock(id))
    {
      if lock != null {
        if lock.abandoned {
          DestroyLock();
        } else {
          return;
        }
      }
      var l := new SessionLock(id);
      var i := 0;
      while i < |allOutputs|
        invariant i <= |allOutputs|
        invariant l.View() == Lock(id, Covering(allOutputs[..i]), None, false, UNLINKED)
        decreases |allOutputs| - i
      {
        l.AddOutput(allOutputs[i]);
        i := i + 1;
        CoveringNext(allOutputs, i);
      }
      assert allOutputs[..i] == allOutputs;
      l.newSurfaceLinked := true;
      l.unlockLinked := true;
      l.destroyLinked := true;
      lock := l;
    }

    method HandleManagerDestroy()
      requires Inv(View()) && manager
      modifies this`lock, this`manager, lock
      ensures View() == Step(old(View()), DestroyManager)
    {
      if lock != null {
        DestroyLock();
      }
      manager := false;
    }

    method HandleUnlock()
      requires Inv(View()) && lock != null && lock.unlockLinked
      modifies this`lock, lock
      ensures View() == Step(old(View()), Unlock(old(lock.id)))
    {
      DestroyLock();
    }

    // What the listeners make of an event.
    method Notify(e: Event)
      requires Inv(View()) && Enabled(View(), e)
      modifies this, lock
      ensures View() == Step(old(View()), e) && Inv(View())
    {
      StepKeeps(View(), e);
      match e
      case NewLock(id) => if manager { HandleSessionLock(id); }
      case Abandon(id) => if lock != null && lock.id == id && lock.destroyLinked { lock.HandleAbandon(); }
      case Unlock(id) => if lock != null && lock.id == id && lock.unlockLinked { HandleUnlock(); }
      case NewSurface(id, output, surface) =>
        if lock != null && lock.id == id && lock.newSurfaceLinked {
          NewSurfaceKeeps(lock.View(), allOutputs, mapped, output, surface);
          lock.HandleNewSurface(output, surface);
        }
      case MapSurface(surface) =>
        mapped := mapped + {surface};
        if lock != null {
          var i := lock.LookUpSurface(surface);
          if i < |lock.outputs| { lock.HandleSurfaceMap(i); }
        }
      case DestroySurface(surface) =>
        mapped := mapped - {surface};
        if lock != null {
          var i := lock.LookUpSurface(surface);
          if i < |lock.outputs| { lock.HandleSurfaceDestroy(i, mapped); }
        }
      case NewOutput(output) =>
        allOutputs := [output] + allOutputs;
        if lock != null { lock.AddOutput(output); }
      case RemoveOutput(output) =>
        allOutputs := Without(allOutputs, IndexOf(allOutputs, output));
      case DestroyOutput(output) =>
        if lock != null {
          var i := lock.LookUp(output);
          if i < |lock.outputs| { lock.DestroyOutput(i, mapped); }
        }
      case DestroyManager => HandleManagerDestroy();
    }
  }

  lemma CoveringNext(outputs: seq<nat>, i: nat)
    requires 0 < i <= |outputs|
    ensures Covering(outputs[..i]) == [LockOutput(outputs[i - 1], None)] + Covering(outputs[..i - 1])
  {}
}
