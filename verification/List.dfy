// common/list.c: a growable array of items and its in-place stable sort.
module List {
  import opened Memory
  import opened Sequences
  import opened StableOrder

  // The index of the first occurrence of x, or |s|.
  function FirstIndex<T(==)>(s: seq<T>, x: T): (i: nat)
    ensures i <= |s|
    ensures i < |s| ==> s[i] == x
    ensures x !in s[..i]
  {
    if s == [] then 0
    else if s[0] == x then 0
    else
      var i := 1 + FirstIndex(s[1..], x);
      assert s[..i] == [s[0]] + s[1..][..i - 1];
      i
  }

  function With<T>(s: seq<T>, i: nat, x: T): (r: seq<T>)
    requires i <= |s|
    ensures |r| == |s| + 1
  {
    s[..i] + [x] + s[i..]
  }

  lemma {:induction false} FirstIndexIs<T>(s: seq<T>, x: T, i: nat)
    requires i < |s| && s[i] == x && x !in s[..i]
    ensures FirstIndex(s, x) == i
  {
    if i > 0 {
      assert s[0] == s[..i][0];
      assert forall y :: y in s[1..][..i - 1] ==> y in s[..i];
      FirstIndexIs(s[1..], x, i - 1);
    }
  }

  class List<T(!new, ==, 0)> {
    var capacity: nat
    var length: nat
    var items: array<T>

    ghost predicate Valid()
      reads this
    {
      && items.Length == capacity
      && length <= capacity
      && 0 < capacity
    }

    ghost function Contents(): (s: seq<T>)
      requires Valid()
      reads this, items
      ensures |s| == length
    {
      items[..length]
    }

    constructor ()
      ensures Valid() && fresh(items)
      ensures Contents() == [] && capacity == 10
    {
      capacity := 10;
      length := 0;
      items := new T[10];
    }

    // Doubles the array when it is full; the contents stay.
    method Resize()
      requires Valid()
      modifies this
      ensures Valid() && length == old(length) && length < capacity
      ensures items == old(items) || fresh(items)
      ensures Contents() == old(Contents())
      ensures capacity == (if old(length == capacity) then 2 * old(capacity) else old(capacity))
    {
      if length == capacity {
        var grown := new T[2 * capacity];
        forall i | 0 <= i < length {
          grown[i] := items[i];
        }
        capacity := 2 * capacity;
        items := grown;
      }
    }

    method Add(item: T)
      requires Valid()
      modifies this, items
      ensures Valid() && (items == old(items) || fresh(items))
      ensures Contents() == old(Contents()) + [item]
    {
      Resize();
      items[length] := item;
      length := length + 1;
    }

    method Insert(index: nat, item: T)
      requires Valid() && index <= length
      modifies this, items
      ensures Valid() && (items == old(items) || fresh(items))
      ensures Contents() == With(old(Contents()), index, item)
    {
      Resize();
      MemMove(items, index + 1, index, length - index);
      length := length + 1;
      items[index] := item;
    }

    method Del(index: nat)
      requires Valid() && index < length
      modifies this, items
      ensures Valid() && items == old(items)
      ensures Contents() == Without(old(Contents()), index)
    {
      length := length - 1;
      MemMove(items, index, index + 1, length - index);
    }

    method Cat(source: List<T>)
      requires Valid() && source.Valid()
      requires source != this && source.items != items
      modifies this, items
      ensures Valid() && source.Valid() && (items == old(items) || fresh(items))
      ensures Contents() == old(Contents()) + old(source.Contents())
      ensures source.Contents() == old(source.Contents())
    {
      var i := 0;
      while i < source.length
        invariant i <= source.length == old(source.length)
        invariant Valid() && source.Valid() && (items == old(items) || fresh(items))
        invariant source.items == old(source.items) && source.items != items
        invariant source.Contents() == old(source.Contents())
        invariant Contents() == old(Contents()) + source.Contents()[..i]
      {
        Add(source.items[i]);
        i := i + 1;
      }
    }

    // The first item the comparison calls equal to the key, or -1.
    method SeqFind<D>(compare: (T, D) -> int, key: D) returns (index: int)
      requires Valid()
      ensures -1 <= index < length
      ensures 0 <= index ==> compare(Contents()[index], key) == 0
      ensures forall i :: 0 <= i < (if index < 0 then length else index) ==> compare(Contents()[i], key) != 0
    {
      var i := 0;
      while i < length
        invariant i <= length
        invariant forall j :: 0 <= j < i ==> compare(Contents()[j], key) != 0
      {
        if compare(items[i], key) == 0 {
          return i;
        }
        i := i + 1;
      }
      return -1;
    }

    method Find(item: T) returns (index: int)
      requires Valid()
      ensures index == (if item in Contents() then FirstIndex(Contents(), item) else -1)
    {
      var i := 0;
      while i < length
        invariant i <= length
        invariant item !in Contents()[..i]
      {
        if items[i] == item {
          assert Contents()[i] == item;
          FirstIndexIs(Contents(), item, i);
          return i;
        }
        i := i + 1;
      }
      return -1;
    }

    method Swap(src: nat, dest: nat)
      requires Valid() && src < length && dest < length
      modifies items
      ensures Contents() == old(Contents())[src := old(Contents())[dest]][dest := old(Contents())[src]]
      ensures items[..] == old(items[..])[src := old(items[dest])][dest := old(items[src])]
    {
      var tmp := items[src];
      items[src] := items[dest];
      items[dest] := tmp;
    }

    // An item that is not in the list is reported and nothing happens.
    method MoveToEnd(item: T)
      requires Valid()
      modifies this, items
      ensures Valid() && (items == old(items) || fresh(items))
      ensures var before := old(Contents());
        Contents() == if item in before then Without(before, FirstIndex(before, item)) + [item] else before
    {
      var i := Find(item);
      if i < 0 {
        return;
      }
      Del(i);
      Add(item);
    }

    // The item ends up at the given index of the resulting list and all other
    // items keep their relative order.
    method MoveTo(index: nat, item: T)
      requires Valid() && index < length
      modifies items
      ensures Valid()
      ensures var before := old(Contents());
        Contents() == if item in before then With(Without(before, FirstIndex(before, item)), index, item) else before
    {
      var i := Find(item);
      if i < 0 {
        return;
      }
      MoveShift(Contents(), i, index);
      if i == index {
        return;
      }
      if i < index {
        MoveWithin(i, i + 1, index - i);
      } else {
        MoveWithin(index + 1, index, i - index);
      }
      items[index] := item;
    }

    // A block move that stays inside the used part of the array.
    method MoveWithin(dst: nat, src: nat, n: nat)
      requires Valid() && dst + n <= length && src + n <= length
      modifies items
      ensures Contents() == Moved(old(Contents()), dst, src, n)
    {
      MovedPrefix(items[..], length, dst, src, n);
      assert items[..][..length] == Contents();
      MemMove(items, dst, src, n);
    }

    method Rotate(from: nat, to: nat)
      requires Valid() && from <= to < length
      modifies items
      ensures items[..] == Rotated(old(items[..]), from, to)
    {
      var tmp := items[to];
      var t := to;
      while t > from
        invariant from <= t <= to
        invariant forall i :: 0 <= i < items.Length && (i <= t || to < i) ==> items[i] == old(items[i])
        invariant forall i :: t < i <= to ==> items[i] == old(items[i - 1])
      {
        items[t] := items[t - 1];
        t := t - 1;
      }
      items[from] := tmp;
    }

    // Merges the sorted runs [first..middle] and [middle+1..last].
    method InplaceMerge(first: nat, last: nat, middle: nat, cmp: Comparison<T>)
      requires Valid() && TotalPreorder(cmp)
      requires first <= middle < last < length
      requires SortedRange(cmp, items[..], first, middle + 1)
      requires SortedRange(cmp, items[..], middle + 1, last + 1)
      modifies items
      ensures SortState(cmp, old(items[..]), items[..], first, last + 1)
    {
      var left, mid, right := first, middle, middle + 1;
      ghost var start := items[..];
      if cmp(items[mid], items[right]) <= 0 {
        JoinRuns(cmp, start, first, mid, last);
        return;
      }
      while left <= mid && right <= last
        invariant first <= left <= mid + 1 && right == mid + 1 && right <= last + 1
        invariant MergeState(cmp, start, items[..], first, left, right, last)
        decreases last + 1 - left
      {
        if cmp(items[left], items[right]) <= 0 {
          KeepLeft(cmp, items[..], first, left, right, last);
          left := left + 1;
        } else {
          TakeRight(cmp, start, items[..], first, left, right, last);
          Rotate(left, right);
          left := left + 1;
          mid := mid + 1;
          right := right + 1;
        }
      }
      MergeDone(cmp, start, items[..], first, left, right, last);
    }

    method InplaceSort(first: nat, last: nat, cmp: Comparison<T>)
      requires Valid() && TotalPreorder(cmp) && last < length
      modifies items
      ensures SortState(cmp, old(items[..]), items[..], first, last + 1)
      decreases last - first
    {
      ghost var start := items[..];
      if first >= last {
        return;
      } else if last - first == 1 {
        if cmp(items[first], items[last]) > 0 {
          SwapSortsPair(cmp, start, first);
          Swap(first, last);
        } else {
          assert SortedRange(cmp, start, first, last + 1);
        }
      } else {
        var mid := (last + first) / 2;
        InplaceSort(first, mid, cmp);
        ghost var half := items[..];
        InplaceSort(mid + 1, last, cmp);
        ghost var runs := items[..];
        BothRunsSorted(cmp, start, half, runs, first, mid + 1, last + 1);
        InplaceMerge(first, last, mid, cmp);
        SortedInSteps(cmp, start, runs, items[..], first, last + 1);
      }
    }

    // The stable sorted rearrangement of the contents, which is the only one
    // (StableSortIsUnique); unused capacity is not touched.
    method StableSort(cmp: Comparison<T>)
      requires Valid() && TotalPreorder(cmp)
      modifies items
      ensures Valid()
      ensures Sorted(cmp, Contents())
      ensures StablyRearranges(cmp, old(Contents()), Contents())
      ensures items[length..] == old(items[length..])
    {
      ghost var before := items[..];
      if length > 1 {
        InplaceSort(0, length - 1, cmp);
      }
      ghost var after := items[..];
      assert forall i :: 0 <= i < length ==> Contents()[i] == after[i];
      assert after[..length] == Contents();
      assert before == before[..length] + before[length..];
      assert after == after[..length] + before[length..];
      RearrangeWithTail(cmp, before[..length], after[..length], before[length..]);
    }
  }

  ghost predicate SortedRange<T(!new)>(cmp: Comparison<T>, s: seq<T>, lo: nat, hi: nat)
    requires hi <= |s|
  {
    forall i, j :: lo <= i < j < hi ==> cmp(s[i], s[j]) <= 0
  }

  ghost predicate SameOutside<T>(s: seq<T>, t: seq<T>, lo: nat, hi: nat) {
    && |s| == |t|
    && forall i :: 0 <= i < |s| && !(lo <= i < hi) ==> s[i] == t[i]
  }

  // t is s with the range lo..hi stably sorted.
  ghost predicate SortState<T(!new)>(cmp: Comparison<T>, s: seq<T>, t: seq<T>, lo: nat, hi: nat)
    requires hi <= |t|
  {
    && SortedRange(cmp, t, lo, hi)
    && SameOutside(s, t, lo, hi)
    && StablyRearranges(cmp, s, t)
  }

  lemma SwapSortsPair<T(!new)>(cmp: Comparison<T>, s: seq<T>, i: nat)
    requires TotalPreorder(cmp) && i + 1 < |s| && cmp(s[i], s[i + 1]) > 0
    ensures SortState(cmp, s, s[i := s[i + 1]][i + 1 := s[i]], i, i + 2)
  {
    var t := s[i := s[i + 1]][i + 1 := s[i]];
    assert t == Rotated(s, i, i + 1) by {
      assert s[i..i + 1] == [s[i]];
    }
    RotationIsStable(cmp, s, i, i + 1);
    assert Opposite(cmp, s[i], s[i + 1]);
  }

  lemma BothRunsSorted<T(!new)>(cmp: Comparison<T>, s: seq<T>, t: seq<T>, u: seq<T>, lo: nat, mid: nat, hi: nat)
    requires lo <= mid <= hi <= |t| && |t| == |u|
    requires SortState(cmp, s, t, lo, mid) && SortState(cmp, t, u, mid, hi)
    ensures SortedRange(cmp, u, lo, mid) && SortedRange(cmp, u, mid, hi)
    ensures SameOutside(s, u, lo, hi) && StablyRearranges(cmp, s, u)
  {
    RearrangeTransitive(cmp, s, t, u);
  }

  lemma SortedInSteps<T(!new)>(cmp: Comparison<T>, s: seq<T>, t: seq<T>, u: seq<T>, lo: nat, hi: nat)
    requires hi <= |u|
    requires SameOutside(s, t, lo, hi) && StablyRearranges(cmp, s, t)
    requires SortState(cmp, t, u, lo, hi)
    ensures SortState(cmp, s, u, lo, hi)
  {
    RearrangeTransitive(cmp, s, t, u);
  }

  // A merge in progress: everything before left is final, [left..right) and
  // [right..last] are the rests of the two runs.
  ghost predicate Merging<T(!new)>(cmp: Comparison<T>, s: seq<T>, first: nat, left: nat, right: nat, last: nat)
    requires right <= |s| && last < |s|
  {
    && SortedRange(cmp, s, left, right)
    && SortedRange(cmp, s, right, last + 1)
    && forall i, j :: first <= i < left && i < j <= last ==> cmp(s[i], s[j]) <= 0
  }

  ghost predicate MergeState<T(!new)>(cmp: Comparison<T>, start: seq<T>, s: seq<T>, first: nat, left: nat,
          right: nat, last: nat)
    requires right <= |s| && last < |s|
  {
    && Merging(cmp, s, first, left, right, last)
    && SameOutside(start, s, first, last + 1)
    && StablyRearranges(cmp, start, s)
  }

  // The early exit: the runs already follow one another.
  lemma JoinRuns<T(!new)>(cmp: Comparison<T>, s: seq<T>, first: nat, mid: nat, last: nat)
    requires TotalPreorder(cmp) && first <= mid < last < |s|
    requires SortedRange(cmp, s, first, mid + 1) && SortedRange(cmp, s, mid + 1, last + 1)
    requires cmp(s[mid], s[mid + 1]) <= 0
    ensures SortState(cmp, s, s, first, last + 1)
  {
    forall i, j | first <= i <= mid < j <= last ensures cmp(s[i], s[j]) <= 0 {
      assert Opposite(cmp, s[i], s[i]) && Opposite(cmp, s[j], s[j]);
      assert Transitive(cmp, s[i], s[mid], s[mid + 1]);
      assert Transitive(cmp, s[i], s[mid + 1], s[j]);
    }
  }

  lemma KeepLeft<T(!new)>(cmp: Comparison<T>, s: seq<T>, first: nat, left: nat, right: nat, last: nat)
    requires TotalPreorder(cmp) && left < right <= last < |s|
    requires Merging(cmp, s, first, left, right, last)
    requires cmp(s[left], s[right]) <= 0
    ensures Merging(cmp, s, first, left + 1, right, last)
  {
    forall j | right < j <= last ensures cmp(s[left], s[j]) <= 0 {
      assert Transitive(cmp, s[left], s[right], s[j]);
    }
  }

  lemma StrictlyAboveRight<T(!new)>(cmp: Comparison<T>, s: seq<T>, left: nat, i: nat, right: nat)
    requires TotalPreorder(cmp) && left <= i < right < |s|
    requires SortedRange(cmp, s, left, right)
    requires cmp(s[left], s[right]) > 0
    ensures cmp(s[i], s[right]) > 0 && cmp(s[right], s[i]) <= 0
  {
    assert Opposite(cmp, s[i], s[right]);
    assert i == left || Transitive(cmp, s[left], s[i], s[right]);
  }

  lemma TakeRight<T(!new)>(cmp: Comparison<T>, start: seq<T>, s: seq<T>, first: nat, left: nat, right: nat, last: nat)
    requires TotalPreorder(cmp) && first <= left < right <= last < |s|
    requires MergeState(cmp, start, s, first, left, right, last)
    requires cmp(s[left], s[right]) > 0
    ensures MergeState(cmp, start, Rotated(s, left, right), first, left + 1, right + 1, last)
  {
    forall i | left <= i < right ensures cmp(s[i], s[right]) > 0 && cmp(s[right], s[i]) <= 0 {
      StrictlyAboveRight(cmp, s, left, i, right);
    }
    RotationIsStable(cmp, s, left, right);
    var t := Rotated(s, left, right);
    RotatedItems(s, left, right);
    RotationKeepsMerging(cmp, s, t, first, left, right, last);
    RearrangeTransitive(cmp, start, s, t);
  }

  lemma RotatedItems<T>(s: seq<T>, from: nat, to: nat)
    requires from <= to < |s|
    ensures var t := Rotated(s, from, to);
      && t[from] == s[to]
      && (forall i :: from < i <= to ==> t[i] == s[i - 1])
      && (forall i :: 0 <= i < |s| && (i < from || to < i) ==> t[i] == s[i])
  {
  }

  // One run is used up, so the other one is already in place.
  lemma MergeDone<T(!new)>(cmp: Comparison<T>, start: seq<T>, s: seq<T>, first: nat, left: nat, right: nat, last: nat)
    requires first <= left <= right <= last + 1 <= |s|
    requires MergeState(cmp, start, s, first, left, right, last)
    requires left == right || right == last + 1
    ensures SortState(cmp, start, s, first, last + 1)
  {
  }

  lemma RotationKeepsMerging<T(!new)>(cmp: Comparison<T>, s: seq<T>, t: seq<T>, first: nat, left: nat, right: nat,
          last: nat)
    requires first <= left < right <= last < |s| == |t|
    requires Merging(cmp, s, first, left, right, last)
    requires forall i :: left <= i < right ==> cmp(s[right], s[i]) <= 0
    requires t[left] == s[right]
    requires forall i :: left < i <= right ==> t[i] == s[i - 1]
    requires forall i :: 0 <= i < |s| && (i < left || right < i) ==> t[i] == s[i]
    ensures Merging(cmp, t, first, left + 1, right + 1, last)
  {
  }

  lemma MovedPrefix<T>(s: seq<T>, k: nat, dst: nat, src: nat, n: nat)
    requires k <= |s| && dst + n <= k && src + n <= k
    ensures Moved(s, dst, src, n)[..k] == Moved(s[..k], dst, src, n)
  {
    assert s[..k][..dst] == s[..dst] && s[..k][src..src + n] == s[src..src + n];
    assert s[..k][dst + n..] == s[dst + n..k];
  }

  // Shifting the items between the two positions by one and writing the moved
  // item at its new index is removal followed by insertion.
  lemma MoveShift<T>(s: seq<T>, i: nat, index: nat)
    requires i < |s| && index < |s|
    ensures i < index ==> Moved(s, i, i + 1, index - i)[index := s[i]] == With(Without(s, i), index, s[i])
    ensures index < i ==> Moved(s, index + 1, index, i - index)[index := s[i]] == With(Without(s, i), index, s[i])
    ensures i == index ==> s == With(Without(s, i), index, s[i])
  {
    var w := Without(s, i);
    if i < index {
      assert w[..index] == s[..i] + s[i + 1..index + 1] && w[index..] == s[index + 1..];
      assert Moved(s, i, i + 1, index - i)[index := s[i]] == s[..i] + s[i + 1..index + 1] + [s[i]] + s[index + 1..];
    } else if index < i {
      assert w[..index] == s[..index] && w[index..] == s[index..i] + s[i + 1..];
      assert Moved(s, index + 1, index, i - index)[index := s[i]] == s[..index] + [s[i]] + (s[index..i] + s[i + 1..]);
    } else {
      assert w[..index] == s[..i] && w[index..] == s[i + 1..];
    }
  }
}
