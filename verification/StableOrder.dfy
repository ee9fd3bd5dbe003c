// What it means for one sequence to be the stable sorted arrangement of
// another, and the proof that there is only one such arrangement.
module StableOrder {

  // A three-way comparison in the style of the C library: negative, zero or
  // positive.
  type Comparison<!T> = (T, T) -> int

  ghost predicate Opposite<T>(cmp: Comparison<T>, a: T, b: T) {
    && (cmp(a, b) < 0 <==> cmp(b, a) > 0)
    && (cmp(a, b) > 0 <==> cmp(b, a) < 0)
  }

  ghost predicate Transitive<T>(cmp: Comparison<T>, a: T, b: T, c: T) {
    cmp(a, b) <= 0 && cmp(b, c) <= 0 ==> cmp(a, c) <= 0
  }

  ghost predicate TotalPreorder<T(!new)>(cmp: Comparison<T>) {
    && (forall a, b :: Opposite(cmp, a, b))
    && (forall a, b, c :: Transitive(cmp, a, b, c))
  }

  ghost predicate Sorted<T(!new)>(cmp: Comparison<T>, s: seq<T>) {
    forall i, j :: 0 <= i < j < |s| ==> cmp(s[i], s[j]) <= 0
  }

  // The items of s that compare equal to k, in the order s has them.
  function EqualItems<T(!new)>(cmp: Comparison<T>, s: seq<T>, k: T): (r: seq<T>) {
    if s == [] then []
    else (if cmp(s[0], k) == 0 then [s[0]] else []) + EqualItems(cmp, s[1..], k)
  }

  // t rearranges s without ever reordering two equal items.
  ghost predicate StablyRearranges<T(!new)>(cmp: Comparison<T>, s: seq<T>, t: seq<T>) {
    && multiset(s) == multiset(t)
    && forall k :: EqualItems(cmp, s, k) == EqualItems(cmp, t, k)
  }

  lemma {:induction false} EqualItemsAppend<T(!new)>(cmp: Comparison<T>, s: seq<T>, t: seq<T>, k: T)
    ensures EqualItems(cmp, s + t, k) == EqualItems(cmp, s, k) + EqualItems(cmp, t, k)
  {
    if s == [] {
      assert s + t == t;
    } else {
      assert (s + t)[0] == s[0] && (s + t)[1..] == s[1..] + t;
      EqualItemsAppend(cmp, s[1..], t, k);
      var head := if cmp(s[0], k) == 0 then [s[0]] else [];
      var front, back := EqualItems(cmp, s[1..], k), EqualItems(cmp, t, k);
      assert EqualItems(cmp, s + t, k) == head + (front + back);
      assert head + (front + back) == (head + front) + back;
    }
  }

  lemma LastOfClass<T(!new)>(cmp: Comparison<T>, front: seq<T>, last: T)
    requires cmp(last, last) == 0
    ensures EqualItems(cmp, front + [last], last) == EqualItems(cmp, front, last) + [last]
  {
    EqualItemsAppend(cmp, front, [last], last);
    assert [last][1..] == [];
  }

  // An item is in the class of its own key, and every member of a class is
  // an item of the sequence equal to the key.
  lemma {:induction false} EqualItemsMember<T(!new)>(cmp: Comparison<T>, s: seq<T>, k: T)
    ensures forall x :: x in EqualItems(cmp, s, k) <==> x in s && cmp(x, k) == 0
  {
    if s != [] {
      EqualItemsMember(cmp, s[1..], k);
      assert s == [s[0]] + s[1..];
    }
  }

  lemma NonemptyClass<T(!new)>(cmp: Comparison<T>, s: seq<T>)
    requires TotalPreorder(cmp) && s != []
    ensures EqualItems(cmp, s, s[0]) != []
  {
    assert Opposite(cmp, s[0], s[0]);
  }

  // If the heads of two sorted sequences with the same classes could differ
  // in rank, the lower one would be missing from the other sequence.
  lemma HeadIsLowest<T(!new)>(cmp: Comparison<T>, t: seq<T>, u: seq<T>)
    requires TotalPreorder(cmp) && Sorted(cmp, u)
    requires t != [] && u != []
    requires forall k :: EqualItems(cmp, t, k) == EqualItems(cmp, u, k)
    ensures cmp(u[0], t[0]) <= 0
  {
    EqualItemsMember(cmp, t, t[0]);
    EqualItemsMember(cmp, u, t[0]);
    assert Opposite(cmp, t[0], t[0]);
    assert t[0] in EqualItems(cmp, u, t[0]);
    var i :| 0 <= i < |u| && u[i] == t[0];
    assert i == 0 || cmp(u[0], u[i]) <= 0;
  }

  // Sorted order plus unchanged classes leaves no freedom at all.
  lemma {:induction false} StableSortIsUnique<T(!new)>(cmp: Comparison<T>, t: seq<T>, u: seq<T>)
    requires TotalPreorder(cmp) && Sorted(cmp, t) && Sorted(cmp, u)
    requires forall k :: EqualItems(cmp, t, k) == EqualItems(cmp, u, k)
    ensures t == u
    decreases |t|
  {
    if t == [] || u == [] {
      if t != [] { NonemptyClass(cmp, t); }
      if u != [] { NonemptyClass(cmp, u); }
    } else {
      HeadIsLowest(cmp, t, u);
      HeadIsLowest(cmp, u, t);
      var k := t[0];
      assert Opposite(cmp, u[0], k) && Opposite(cmp, k, k);
      assert t[0] == EqualItems(cmp, t, k)[0] && u[0] == EqualItems(cmp, u, k)[0];
      forall j ensures EqualItems(cmp, t[1..], j) == EqualItems(cmp, u[1..], j) {
        assert EqualItems(cmp, t, j) == EqualItems(cmp, u, j);
        var head := if cmp(t[0], j) == 0 then [t[0]] else [];
        assert EqualItems(cmp, t[1..], j) == EqualItems(cmp, t, j)[|head|..];
        assert EqualItems(cmp, u[1..], j) == EqualItems(cmp, u, j)[|head|..];
      }
      StableSortIsUnique(cmp, t[1..], u[1..]);
    }
  }

  lemma RearrangeTransitive<T(!new)>(cmp: Comparison<T>, s: seq<T>, t: seq<T>, u: seq<T>)
    requires StablyRearranges(cmp, s, t) && StablyRearranges(cmp, t, u)
    ensures StablyRearranges(cmp, s, u)
  {
    forall k ensures EqualItems(cmp, s, k) == EqualItems(cmp, u, k) {
      assert EqualItems(cmp, s, k) == EqualItems(cmp, t, k);
    }
  }

  // Rearranging the front of a sequence rearranges the whole, and a common
  // tail can be dropped again.
  lemma RearrangeWithTail<T(!new)>(cmp: Comparison<T>, s: seq<T>, t: seq<T>, tail: seq<T>)
    ensures StablyRearranges(cmp, s, t) <==> StablyRearranges(cmp, s + tail, t + tail)
  {
    forall k
      ensures EqualItems(cmp, s + tail, k) == EqualItems(cmp, s, k) + EqualItems(cmp, tail, k)
      ensures EqualItems(cmp, t + tail, k) == EqualItems(cmp, t, k) + EqualItems(cmp, tail, k)
    {
      EqualItemsAppend(cmp, s, tail, k);
      EqualItemsAppend(cmp, t, tail, k);
    }
    if StablyRearranges(cmp, s + tail, t + tail) {
      assert multiset(s) == multiset(s + tail) - multiset(tail);
      assert multiset(t) == multiset(t + tail) - multiset(tail);
      forall k ensures EqualItems(cmp, s, k) == EqualItems(cmp, t, k) {
        var es, et, el := EqualItems(cmp, s, k), EqualItems(cmp, t, k), EqualItems(cmp, tail, k);
        assert es + el == et + el;
        assert es == (es + el)[..|es|] && et == (et + el)[..|et|];
      }
    }
  }

  // The sequence after moving the item at `to` in front of position `from`.
  function Rotated<T>(s: seq<T>, from: nat, to: nat): (r: seq<T>)
    requires from <= to < |s|
    ensures |r| == |s|
  {
    s[..from] + [s[to]] + s[from..to] + s[to + 1..]
  }

  // Two neighbouring blocks may trade places when no class meets both.
  lemma SwapDistinctBlocks<T(!new)>(cmp: Comparison<T>, m: seq<T>, x: seq<T>)
    requires forall k :: EqualItems(cmp, m, k) == [] || EqualItems(cmp, x, k) == []
    ensures StablyRearranges(cmp, m + x, x + m)
  {
    forall k ensures EqualItems(cmp, m + x, k) == EqualItems(cmp, x + m, k) {
      EqualItemsAppend(cmp, m, x, k);
      EqualItemsAppend(cmp, x, m, k);
    }
  }

  // Strictly greater items share no class with the item they exceed.
  lemma GreaterItemsAreDistinct<T(!new)>(cmp: Comparison<T>, m: seq<T>, x: T, k: T)
    requires TotalPreorder(cmp)
    requires forall y :: y in m ==> cmp(y, x) > 0
    ensures EqualItems(cmp, m, k) == [] || EqualItems(cmp, [x], k) == []
  {
    EqualItemsMember(cmp, m, k);
    if EqualItems(cmp, m, k) != [] {
      var y := EqualItems(cmp, m, k)[0];
      assert Opposite(cmp, x, k) && Transitive(cmp, y, k, x);
    }
  }

  lemma RearrangeWithHead<T(!new)>(cmp: Comparison<T>, head: seq<T>, s: seq<T>, t: seq<T>)
    requires StablyRearranges(cmp, s, t)
    ensures StablyRearranges(cmp, head + s, head + t)
  {
    forall k ensures EqualItems(cmp, head + s, k) == EqualItems(cmp, head + t, k) {
      EqualItemsAppend(cmp, head, s, k);
      EqualItemsAppend(cmp, head, t, k);
    }
  }

  // An item may move in front of strictly greater ones without disturbing
  // any class: nothing it overtakes equals it.
  lemma RotationIsStable<T(!new)>(cmp: Comparison<T>, s: seq<T>, from: nat, to: nat)
    requires TotalPreorder(cmp) && from <= to < |s|
    requires forall i :: from <= i < to ==> cmp(s[i], s[to]) > 0
    ensures StablyRearranges(cmp, s, Rotated(s, from, to))
  {
    var a, m, x, b := s[..from], s[from..to], [s[to]], s[to + 1..];
    forall k ensures EqualItems(cmp, m, k) == [] || EqualItems(cmp, x, k) == [] {
      GreaterItemsAreDistinct(cmp, m, s[to], k);
    }
    SwapDistinctBlocks(cmp, m, x);
    RearrangeWithTail(cmp, m + x, x + m, b);
    RearrangeWithHead(cmp, a, m + x + b, x + m + b);
    assert s == a + (m + x + b);
    assert Rotated(s, from, to) == a + (x + m + b);
  }
}
