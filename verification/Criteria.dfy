// sway/criteria.c: choosing the oldest or latest urgent view.
module Criteria {
  import opened StableOrder
  import opened List
  import opened Wrappers

  // A view and the time it became urgent; the id stands for its address.
  datatype View = View(id: nat, sec: int, nsec: int)

  // A node of the window tree; only leaves carry a view.
  datatype Container = Container(view: Option<View>)
  predicate IsUrgent(view: View) {
    view.sec != 0 || view.nsec != 0
  }

  function CmpUrgent(a: View, b: View): (r: int)
    ensures r <= 0 <==> !Later(a, b)
    ensures r == 0 <==> a.sec == b.sec && a.nsec == b.nsec
  {
    if a.sec < b.sec then -1
    else if a.sec > b.sec then 1
    else if a.nsec < b.nsec then -1
    else if a.nsec > b.nsec then 1
    else 0
  }

  // a became urgent strictly after b.
  predicate Later(a: View, b: View) {
    a.sec > b.sec || (a.sec == b.sec && a.nsec > b.nsec)
  }

  lemma CmpUrgentIsPreorder()
    ensures TotalPreorder(CmpUrgent)
  {
    assert forall a, b :: Opposite(CmpUrgent, a, b);
    assert forall a, b, c :: Transitive(CmpUrgent, a, b, c);
  }

  // The urgent views in the order the tree walk meets them.
  function UrgentViews(tree: seq<Container>): (views: seq<View>)
    ensures forall v :: v in views <==> IsUrgent(v) && Container(Some(v)) in tree
  {
    if tree == [] then []
    else
      var rest := UrgentViews(tree[1..]);
      assert tree == [tree[0]] + tree[1..];
      if tree[0].view.Some? && IsUrgent(tree[0].view.value) then [tree[0].view.value] + rest else rest
  }

  // They are met in the order of the tree, each once.
  lemma {:induction false} UrgentInOrder(front: seq<Container>, tree: seq<Container>)
    ensures UrgentViews(front + tree) == UrgentViews(front) + UrgentViews(tree)
    ensures forall v :: UrgentViews([Container(Some(v))]) == if v.sec == 0 && v.nsec == 0 then [] else [v]
  {
    if front == [] {
      assert front + tree == tree;
    } else {
      assert (front + tree)[0] == front[0] && (front + tree)[1..] == front[1..] + tree;
      UrgentInOrder(front[1..], tree);
    }
    forall v: View
      ensures UrgentViews([Container(Some(v))]) == if v.sec == 0 && v.nsec == 0 then [] else [v]
    {
      assert [Container(Some(v))][1..] == [];
    }
  }

  // s[i] is the view an `urgent=oldest` criterion means: nothing is older, and
  // of the equally old ones it comes first in the tree.
  ghost predicate IsOldest(s: seq<View>, i: nat) {
    && i < |s|
    && (forall j :: 0 <= j < |s| ==> !Later(s[i], s[j]))
    && (forall j :: 0 <= j < i ==> Later(s[j], s[i]))
  }

  // The same for `urgent=latest`, with ties going to the last one in the tree.
  ghost predicate IsLatest(s: seq<View>, i: nat) {
    && i < |s|
    && (forall j :: 0 <= j < |s| ==> !Later(s[j], s[i]))
    && (forall j :: i < j < |s| ==> Later(s[i], s[j]))
  }

  // The view the criterion singles out: `o` is the oldest, anything else the
  // latest.
  ghost predicate Selects(s: seq<View>, urgent: char, i: nat) {
    if urgent == 'o' then IsOldest(s, i) else IsLatest(s, i)
  }

  method FindUrgent(tree: seq<Container>) returns (urgentViews: List<View>)
    ensures fresh(urgentViews) && fresh(urgentViews.items)
    ensures urgentViews.Valid() && urgentViews.Contents() == UrgentViews(tree)
  {
    urgentViews := new List<View>();
    var n := 0;
    while n < |tree|
      invariant n <= |tree|
      invariant urgentViews.Valid() && fresh(urgentViews) && fresh(urgentViews.items)
      invariant urgentViews.Contents() + UrgentViews(tree[n..]) == UrgentViews(tree)
    {
      assert tree[n..][1..] == tree[n + 1..];
      if tree[n].view.Some? && IsUrgent(tree[n].view.value) {
        urgentViews.Add(tree[n].view.value);
      }
      n := n + 1;
    }
  }

  // The part of the matching that handles the urgent criterion.  The view
  // under test belongs to the tree that is being searched.
  method MatchesUrgent(tree: seq<Container>, urgent: char, view: View) returns (matches: bool)
    requires Container(Some(view)) in tree
    ensures matches <==> IsUrgent(view) && IsSelected(UrgentViews(tree), urgent, view)
  {
    if !IsUrgent(view) {
      return false;
    }
    var urgentViews := FindUrgent(tree);
    ghost var before := urgentViews.Contents();
    assert view in before;
    CmpUrgentIsPreorder();
    urgentViews.StableSort(CmpUrgent);
    ghost var after := urgentViews.Contents();
    assert view in multiset(after);
    var target := if urgent == 'o' then urgentViews.items[0] else urgentViews.items[urgentViews.length - 1];
    assert target == if urgent == 'o' then after[0] else after[|after| - 1];
    EndIsSelected(before, after, urgent);
    matches := view == target;
  }

  ghost predicate IsSelected(s: seq<View>, urgent: char, view: View) {
    exists i: nat :: i < |s| && Selects(s, urgent, i) && s[i] == view
  }

  // The end of the sorted list the code looks at holds the selected view, and
  // no other view.
  lemma EndIsSelected(s: seq<View>, t: seq<View>, urgent: char)
    requires Sorted(CmpUrgent, t) && StablyRearranges(CmpUrgent, s, t) && t != []
    ensures forall v :: IsSelected(s, urgent, v) <==> v == if urgent == 'o' then t[0] else t[|t| - 1]
  {
    var i;
    if urgent == 'o' {
      i := FirstIsOldest(s, t);
    } else {
      i := LastIsLatest(s, t);
    }
    assert Selects(s, urgent, i);
    forall j: nat | j < |s| && Selects(s, urgent, j) ensures i == j {
      SelectionIsUnique(s, urgent, i, j);
    }
  }

  // The first of two equal items is the head of their class.
  lemma {:induction false} ClassHead(s: seq<View>, k: View) returns (i: nat)
    requires EqualItems(CmpUrgent, s, k) != []
    ensures i < |s| && s[i] == EqualItems(CmpUrgent, s, k)[0]
    ensures CmpUrgent(s[i], k) == 0
    ensures forall j :: 0 <= j < i ==> CmpUrgent(s[j], k) != 0
  {
    if CmpUrgent(s[0], k) == 0 {
      i := 0;
    } else {
      var j := ClassHead(s[1..], k);
      i := j + 1;
    }
  }

  lemma {:induction false} ClassLast(s: seq<View>, k: View) returns (i: nat)
    requires EqualItems(CmpUrgent, s, k) != []
    ensures i < |s| && s[i] == EqualItems(CmpUrgent, s, k)[|EqualItems(CmpUrgent, s, k)| - 1]
    ensures CmpUrgent(s[i], k) == 0
    ensures forall j :: i < j < |s| ==> CmpUrgent(s[j], k) != 0
  {
    var rest := EqualItems(CmpUrgent, s[1..], k);
    if rest == [] {
      EqualItemsMember(CmpUrgent, s[1..], k);
      assert forall j :: 0 < j < |s| ==> s[j] in s[1..];
      i := 0;
    } else {
      var j := ClassLast(s[1..], k);
      i := j + 1;
    }
  }

  lemma FirstIsOldest(s: seq<View>, t: seq<View>) returns (i: nat)
    requires Sorted(CmpUrgent, t) && StablyRearranges(CmpUrgent, s, t) && t != []
    ensures IsOldest(s, i) && s[i] == t[0]
  {
    assert EqualItems(CmpUrgent, t, t[0])[0] == t[0];
    i := ClassHead(s, t[0]);
    forall j | 0 <= j < |s| ensures !Later(s[i], s[j]) {
      assert s[j] in multiset(t);
      var l :| 0 <= l < |t| && t[l] == s[j];
      assert CmpUrgent(t[0], t[l]) <= 0;
    }
  }

  lemma LastIsLatest(s: seq<View>, t: seq<View>) returns (i: nat)
    requires Sorted(CmpUrgent, t) && StablyRearranges(CmpUrgent, s, t) && t != []
    ensures IsLatest(s, i) && s[i] == t[|t| - 1]
  {
    var last := t[|t| - 1];
    assert t == t[..|t| - 1] + [last];
    LastOfClass(CmpUrgent, t[..|t| - 1], last);
    i := ClassLast(s, last);
    forall j | 0 <= j < |s| ensures !Later(s[j], s[i]) {
      assert s[j] in multiset(t);
      var l :| 0 <= l < |t| && t[l] == s[j];
      assert CmpUrgent(t[l], last) <= 0;
    }
  }

  lemma SelectionIsUnique(s: seq<View>, urgent: char, i: nat, j: nat)
    requires Selects(s, urgent, i) && Selects(s, urgent, j)
    ensures i == j
  {
    assert !Later(s[i], s[j]) && !Later(s[j], s[i]);
  }

  // Whenever anything is urgent, exactly one position qualifies for either
  // criterion.
  lemma ExactlyOneSelected(s: seq<View>, urgent: char)
    requires s != []
    ensures exists i :: Selects(s, urgent, i) && forall j :: Selects(s, urgent, j) ==> i == j
  {
    var oldest, latest := Extremes(s);
    var i := if urgent == 'o' then oldest else latest;
    assert Selects(s, urgent, i);
    forall j | Selects(s, urgent, j) ensures i == j {
      SelectionIsUnique(s, urgent, i, j);
    }
  }

  lemma {:induction false} Extremes(s: seq<View>) returns (oldest: nat, latest: nat)
    requires s != []
    ensures IsOldest(s, oldest) && IsLatest(s, latest)
  {
    if |s| == 1 {
      oldest, latest := 0, 0;
    } else {
      var i, j := Extremes(s[..|s| - 1]);
      var n := |s| - 1;
      oldest := if Later(s[i], s[n]) then n else i;
      latest := if Later(s[j], s[n]) then j else n;
    }
  }
}
