// common/util.c: growing and shrinking the allocation of a wl_array, with
// hysteresis, and removing bytes from it.
module WlArray {
  import opened Memory

  const MINIMUM := 16

  // The doubling loop.
  function Doubled(alloc: nat, size: nat): (r: nat)
    requires alloc > 0
    ensures alloc <= r && size <= r
    ensures r == alloc || r < 2 * size
    decreases size - alloc
  {
    if alloc < size then Doubled(alloc * 2, size) else alloc
  }

  // The allocation for a size, coming from an allocation.
  function NextAlloc(alloc: nat, size: nat): (r: nat)
    ensures r > 0 && size <= r
  {
    Doubled(if alloc > 0 && size > alloc / 4 then alloc else MINIMUM, size)
  }

  class Array {
    var data: array<bv8>
    var size: nat
    // The live bytes that reallocation has copied so far.
    ghost var copied: nat

    // wl_array_init
    constructor ()
      ensures Valid() && fresh(data) && View() == State(0, 0, 0)
    {
      data := new bv8[0];
      size, copied := 0, 0;
    }

    ghost predicate Valid()
      reads this
    {
      size <= data.Length
    }

    ghost function Contents(): (s: seq<bv8>)
      reads this, data
      requires Valid()
    {
      data[..size]
    }

    ghost function View(): (s: State)
      reads this
    {
      State(size, data.Length, copied)
    }

    // array_realloc: makes room for `wanted` bytes, or gives up room that they do
    // not need.  The size is left to the caller.
    method Realloc(wanted: nat)
      requires Valid()
      modifies this`data, this`copied
      ensures wanted <= data.Length == NextAlloc(old(data.Length), wanted)
      ensures data == old(data) || fresh(data)
      ensures var kept := Min(size, data.Length); data[..kept] == old(data[..size])[..kept]
      ensures copied == old(copied) + (if data.Length == old(data.Length) then 0 else Min(size, data.Length))
    {
      var alloc := MINIMUM;
      if data.Length > 0 && wanted > data.Length / 4 {
        alloc := data.Length;
      }
      while alloc < wanted
        invariant alloc > 0 && Doubled(alloc, wanted) == NextAlloc(data.Length, wanted)
        decreases wanted - alloc
      {
        alloc := alloc * 2;
      }
      if alloc == data.Length {
        return;
      }
      var block := new bv8[alloc];
      forall i | 0 <= i < Min(size, alloc) {
        block[i] := data[i];
      }
      data := block;
      copied := copied + Min(size, alloc);
    }

    // Changing the size: growth makes room first, shrinking gives it up afterwards.
    method SetSize(wanted: nat)
      requires Valid()
      modifies this
      ensures Valid() && (data == old(data) || fresh(data))
      ensures View() == Step(old(View()), wanted)
      ensures var kept := if wanted < old(size) then wanted else old(size);
        Contents()[..kept] == old(Contents())[..kept]
    {
      if wanted < size {
        size := wanted;
        Realloc(wanted);
      } else {
        Realloc(wanted);
        size := wanted;
      }
    }

    // wl_array_add: room for one more entry at the end, by doubling.
    method Add(entry: seq<bv8>)
      requires Valid()
      modifies this, data
      ensures Valid() && (data == old(data) || fresh(data))
      ensures Contents() == old(Contents()) + entry
      ensures data.Length == Grown(old(data.Length), size)
    {
      var alloc := if data.Length > 0 then data.Length else MINIMUM;
      while alloc < size + |entry|
        invariant alloc > 0
        invariant Doubled(alloc, size + |entry|) ==
          Doubled(if data.Length > 0 then data.Length else MINIMUM, size + |entry|)
        decreases size + |entry| - alloc
      {
        alloc := alloc * 2;
      }
      if data.Length < alloc {
        var block := new bv8[alloc];
        forall i | 0 <= i < size {
          block[i] := data[i];
        }
        data := block;
        copied := copied + size;
      }
      forall i | 0 <= i < |entry| {
        data[size + i] := entry[i];
      }
      size := size + |entry|;
    }

    // A new frame: the list is emptied and filled again, and then gives up the room
    // that its entries do not need.
    method Refill(entries: seq<seq<bv8>>)
      requires Valid()
      modifies this, data
      ensures Valid() && Contents() == Concat(entries)
      ensures IsAllocated(old(data.Length)) ==> Tight(View())
    {
      ghost var start := data.Length;
      size := 0;
      for i := 0 to |entries|
        invariant Valid() && (data == old(data) || fresh(data))
        invariant Contents() == Concat(entries[..i])
        invariant IsAllocated(start) ==> IsAllocated(data.Length)
      {
        assert entries[..i + 1][..i] == entries[..i];
        if IsAllocated(data.Length) { GrownIsAllocated(data.Length, size + |entries[i]|); }
        Add(entries[i]);
      }
      assert entries[..|entries|] == entries;
      ghost var text := Contents();
      if IsAllocated(data.Length) { NextIsTight(data.Length, size); }
      Realloc(size);
      assert Contents() == text[..size];
    }

    // array_remove_at
    method RemoveAt(offset: nat, count: nat)
      requires Valid() && offset + count <= size
      modifies `size, data
      ensures Valid() && data == old(data) && size == old(size) - count
      ensures Contents() == old(Contents())[..offset] + old(Contents())[offset + count..]
    {
      MemMove(data, offset, offset + count, size - offset - count);
      size := size - count;
    }
  }

  // The allocation after adding up to a size.
  function Grown(alloc: nat, size: nat): (r: nat) {
    Doubled(if alloc > 0 then alloc else MINIMUM, size)
  }

  function Concat(entries: seq<seq<bv8>>): (s: seq<bv8>) {
    if entries == [] then [] else Concat(entries[..|entries| - 1]) + entries[|entries| - 1]
  }

  // ---- What reallocation costs ----

  datatype State = State(size: nat, alloc: nat, copied: nat)

  function Min(a: nat, b: nat): (r: nat) {
    if a < b then a else b
  }

  function Step(s: State, size: nat): (r: State) {
    var alloc := NextAlloc(s.alloc, size);
    State(size, alloc, s.copied + (if alloc == s.alloc then 0 else Min(s.size, size)))
  }

  function Run(s: State, sizes: seq<nat>): (r: State)
    decreases |sizes|
  {
    if sizes == [] then s else Run(Step(s, sizes[0]), sizes[1..])
  }

  function Abs(x: int): (r: nat) {
    if x < 0 then -x else x
  }

  // How much the sizes of a run change in all.
  function Change(size: nat, sizes: seq<nat>): (r: nat)
    decreases |sizes|
  {
    if sizes == [] then 0 else Abs(sizes[0] - size) + Change(sizes[0], sizes[1..])
  }

  function Power(k: nat): (r: nat)
    ensures r > 0
  {
    if k == 0 then 1 else 2 * Power(k - 1)
  }

  predicate IsAllocation(alloc: nat, k: nat) {
    alloc == 16 * Power(k)
  }

  // Nothing is allocated yet, or the allocation is 16 times a power of two, enough
  // for the size, and no more than four times the size unless it is the least.
  ghost predicate Tight(s: State) {
    || (s.alloc == 0 && s.size == 0)
    || (s.size <= s.alloc && (exists k :: IsAllocation(s.alloc, k)) && (s.alloc == 16 || s.size > s.alloc / 4))
  }

  lemma {:induction false} DoubledIsAllocation(alloc: nat, k: nat, size: nat) returns (j: nat)
    requires IsAllocation(alloc, k)
    ensures IsAllocation(Doubled(alloc, size), j)
    decreases size - alloc
  {
    if alloc < size { j := DoubledIsAllocation(alloc * 2, k + 1, size); } else { j := k; }
  }

  ghost predicate IsAllocated(alloc: nat) {
    alloc == 0 || exists k :: IsAllocation(alloc, k)
  }

  lemma GrownIsAllocated(alloc: nat, size: nat)
    requires IsAllocated(alloc)
    ensures IsAllocated(Grown(alloc, size))
  {
    if alloc > 0 {
      var k :| IsAllocation(alloc, k);
      var _ := DoubledIsAllocation(alloc, k, size);
    } else {
      assert IsAllocation(MINIMUM, 0);
      var _ := DoubledIsAllocation(MINIMUM, 0, size);
    }
  }

  // Whatever the allocation was, the new one is tight.
  lemma NextIsTight(alloc: nat, size: nat)
    requires IsAllocated(alloc)
    ensures forall c :: Tight(State(size, NextAlloc(alloc, size), c))
  {
    if alloc > 0 && size > alloc / 4 {
      var k :| IsAllocation(alloc, k);
      var _ := DoubledIsAllocation(alloc, k, size);
    } else {
      assert IsAllocation(MINIMUM, 0);
      var _ := DoubledIsAllocation(MINIMUM, 0, size);
    }
  }

  lemma StepIsTight(s: State, size: nat)
    requires Tight(s)
    ensures Tight(Step(s, size)) && Step(s, size).alloc > 0
  {
    var alloc := NextAlloc(s.alloc, size);
    if s.alloc > 0 && size > s.alloc / 4 {
      var k :| IsAllocation(s.alloc, k);
      var _ := DoubledIsAllocation(s.alloc, k, size);
    } else {
      assert IsAllocation(MINIMUM, 0);
      var _ := DoubledIsAllocation(MINIMUM, 0, size);
    }
  }

  // An allocation is 16 or at least 32.
  lemma AllocationIsEven(alloc: nat, k: nat)
    requires IsAllocation(alloc, k)
    ensures alloc == MINIMUM || alloc >= 2 * MINIMUM
  {
    if k > 0 { assert Power(k) == 2 * Power(k - 1); }
  }

  // How far the size is from half of the allocation, in pairs of bytes: what the
  // changes have paid for in advance.
  function Potential(s: State): (p: nat) {
    Abs(2 * s.size - s.alloc)
  }

  // Growing doubles at least.
  lemma {:induction false} DoubledGrows(alloc: nat, size: nat)
    requires 0 < alloc < size
    ensures Doubled(alloc, size) >= 2 * alloc
  {}

  // Each change pays for the bytes it makes copy with two units per byte of change
  // and the potential.
  lemma StepIsPaid(s: State, size: nat)
    requires Tight(s) && s.alloc > 0
    ensures Step(s, size).copied + Potential(Step(s, size)) <= s.copied + Potential(s) + 2 * Abs(size - s.size)
  {
    var k :| IsAllocation(s.alloc, k);
    AllocationIsEven(s.alloc, k);
    if size > s.alloc { DoubledGrows(s.alloc, size); }
  }

  lemma {:induction false} RunIsPaid(s: State, sizes: seq<nat>)
    requires Tight(s) && s.alloc > 0
    ensures Tight(Run(s, sizes)) && Run(s, sizes).alloc > 0
    ensures Run(s, sizes).copied + Potential(Run(s, sizes)) <= s.copied + Potential(s) + 2 * Change(s.size, sizes)
    decreases |sizes|
  {
    if sizes != [] {
      StepIsTight(s, sizes[0]);
      StepIsPaid(s, sizes[0]);
      RunIsPaid(Step(s, sizes[0]), sizes[1..]);
    }
  }

  // From an empty array on, whatever the sizes: at most two live bytes are copied
  // for each byte by which the size changes, and a constant.
  lemma CopyingIsLinear(sizes: seq<nat>)
    ensures Run(State(0, 0, 0), sizes).copied <= 2 * Change(0, sizes) + MINIMUM
    ensures Tight(Run(State(0, 0, 0), sizes))
  {
    if sizes != [] {
      var s := Step(State(0, 0, 0), sizes[0]);
      StepIsTight(State(0, 0, 0), sizes[0]);
      RunIsPaid(s, sizes[1..]);
    }
  }
}
