// sway/commands/fit_size.c: which children of a scrolling layout are visible, and
// fitting a group of them to the workspace.  Numbers are real; the two axes are
// told apart by the layout.
module FitSize {
  datatype Layout = Horizontal | Vertical

  datatype Box = Box(x: real, y: real, width: real, height: real, widthFraction: real, heightFraction: real)

  datatype Workspace = Workspace(x: real, y: real, width: real, height: real, gap: real)

  function Position(l: Layout, b: Box): real {
    if l == Horizontal then b.x else b.y
  }

  function Size(l: Layout, b: Box): real {
    if l == Horizontal then b.width else b.height
  }

  function Fraction(l: Layout, b: Box): real {
    if l == Horizontal then b.widthFraction else b.heightFraction
  }

  function MovedTo(l: Layout, b: Box, position: real): (r: Box) {
    if l == Horizontal then b.(x := position) else b.(y := position)
  }

  function Resized(l: Layout, b: Box, size: real, fraction: real): (r: Box) {
    if l == Horizontal then b.(width := size, widthFraction := fraction)
    else b.(height := size, heightFraction := fraction)
  }

  function Origin(l: Layout, w: Workspace): real {
    if l == Horizontal then w.x else w.y
  }

  function Extent(l: Layout, w: Workspace): real {
    if l == Horizontal then w.width else w.height
  }

  // ---- The chain of children ----

  // What the children before i take: their sizes on screen, each with a gap.
  function Before(sizes: seq<real>, gap: real, i: nat): real
    requires i <= |sizes|
  {
    if i == 0 then 0.0 else Before(sizes, gap, i - 1) + sizes[i - 1] + gap
  }

  // A chain of children by their sizes on screen, the gap on screen between them,
  // and the position of the active one.
  datatype Chain = Chain(sizes: seq<real>, gap: real, active: nat, position: real)

  predicate IsChain(c: Chain) {
    c.active < |c.sizes|
  }

  // Where child i starts, walking along the chain from the active child.
  function Start(c: Chain, i: nat): real
    requires IsChain(c) && i <= |c.sizes|
  {
    c.position + Before(c.sizes, c.gap, i) - Before(c.sizes, c.gap, c.active)
  }

  function End(c: Chain, i: nat): real
    requires IsChain(c) && i < |c.sizes|
  {
    Start(c, i) + c.sizes[i]
  }

  function OnScreen(bs: seq<Box>, l: Layout, scale: real): (sizes: seq<real>)
    ensures |sizes| == |bs|
  {
    seq(|bs|, i requires 0 <= i < |bs| => scale * Size(l, bs[i]))
  }

  function ChainOf(bs: seq<Box>, l: Layout, w: Workspace, scale: real, active: nat): (c: Chain)
    requires active < |bs|
    ensures IsChain(c) && |c.sizes| == |bs|
  {
    Chain(OnScreen(bs, l, scale), scale * 2.0 * w.gap, active, Position(l, bs[active]))
  }

  // ---- What is visible ----

  // The test of the code, for a child from x0 to x1.
  predicate Overlaps(l: Layout, w: Workspace, x0: real, x1: real) {
    var x, end := Origin(l, w), Origin(l, w) + Extent(l, w);
    (x0 >= x && x0 < end) || (x1 >= x && x1 < end) || (x0 < x && x1 >= end)
  }

  predicate Visible(c: Chain, l: Layout, w: Workspace, i: nat)
    requires IsChain(c) && i < |c.sizes|
  {
    Overlaps(l, w, Start(c, i), End(c, i))
  }

  // The least and the greatest visible child of those from lo up to hi, or the
  // length and -1.
  predicate RangeOf(c: Chain, l: Layout, w: Workspace, lo: nat, hi: nat, from: int, to: int)
    requires IsChain(c) && lo <= hi <= |c.sizes|
  {
    && 0 <= from <= |c.sizes| && -1 <= to < |c.sizes|
    && (from < |c.sizes| ==> Visible(c, l, w, from))
    && (to >= 0 ==> Visible(c, l, w, to))
    && (forall i :: lo <= i < hi && Visible(c, l, w, i) ==> from <= i <= to)
  }

  predicate VisibleRange(c: Chain, l: Layout, w: Workspace, from: int, to: int)
    requires IsChain(c)
  {
    RangeOf(c, l, w, 0, |c.sizes|, from, to)
  }

  method GetVisible(children: array<Box>, l: Layout, w: Workspace, active: nat, scale: real) returns (from: int,
          to: int)
    requires active < children.Length
    ensures VisibleRange(ChainOf(children[..], l, w, scale, active), l, w, from, to)
  {
    ghost var c := ChainOf(children[..], l, w, scale, active);
    from, to := children.Length, -1;
    from, to := VisibleFromActive(children, l, w, active, scale, from, to, c);
    from, to := VisibleToActive(children, l, w, active, scale, from, to, c);
  }

  method VisibleFromActive(children: array<Box>, l: Layout, w: Workspace, active: nat, scale: real, from0: int,
          to0: int, ghost c: Chain)
    returns (from: int, to: int)
    requires ShowsChain(children, l, w, scale, active, c) && RangeOf(c, l, w, active, active, from0, to0)
    ensures RangeOf(c, l, w, active, children.Length, from, to)
  {
    from, to := from0, to0;
    var offset := Position(l, children[active]);
    for i := active to children.Length
      invariant offset == Start(c, i)
      invariant RangeOf(c, l, w, active, i, from, to)
    {
      offset, from, to := LookForth(children, l, w, active, scale, i, offset, from, to, c);
    }
  }

  // The body of that loop.
  method LookForth(children: array<Box>, l: Layout, w: Workspace, active: nat, scale: real, i: nat,
                   offset: real, from0: int, to0: int, ghost c: Chain)
    returns (next: real, from: int, to: int)
    requires ShowsChain(children, l, w, scale, active, c) && active <= i < children.Length
    requires RangeOf(c, l, w, active, i, from0, to0) && offset == Start(c, i)
    ensures RangeOf(c, l, w, active, i + 1, from, to) && next == Start(c, i + 1)
  {
    var size, gap := SizeAndGap(children, l, w, active, scale, i, c);
    var x0 := offset;
    var x1 := offset + size;
    RangeGrows(c, l, w, active, i, active, i + 1, from0, to0);
    from, to := Extend(l, w, x0, x1, i, from0, to0);
    next := x1 + gap;
  }

  method VisibleToActive(children: array<Box>, l: Layout, w: Workspace, active: nat, scale: real, from0: int,
          to0: int, ghost c: Chain)
    returns (from: int, to: int)
    requires ShowsChain(children, l, w, scale, active, c) && RangeOf(c, l, w, active, children.Length, from0, to0)
    ensures RangeOf(c, l, w, 0, children.Length, from, to)
  {
    from, to := from0, to0;
    var _, gap := SizeAndGap(children, l, w, active, scale, active, c);
    var offset := Position(l, children[active]) - gap;
    for i := active downto 0
      invariant offset == Start(c, i) - c.gap
      invariant RangeOf(c, l, w, i, children.Length, from, to)
    {
      offset, from, to := LookBack(children, l, w, active, scale, i, offset, from, to, c);
    }
  }

  // The body of that loop.
  method LookBack(children: array<Box>, l: Layout, w: Workspace, active: nat, scale: real, i: nat,
                  offset: real, from0: int, to0: int, ghost c: Chain)
    returns (next: real, from: int, to: int)
    requires ShowsChain(children, l, w, scale, active, c) && i < children.Length
    requires RangeOf(c, l, w, i + 1, children.Length, from0, to0) && offset == Start(c, i + 1) - c.gap
    ensures RangeOf(c, l, w, i, children.Length, from, to) && next == Start(c, i) - c.gap
  {
    var size, gap := SizeAndGap(children, l, w, active, scale, i, c);
    var x1 := offset;
    var x0 := offset - size;
    RangeGrows(c, l, w, i + 1, children.Length, i, children.Length, from0, to0);
    from, to := Extend(l, w, x0, x1, i, from0, to0);
    next := x0 - gap;
  }

  // The chain c is that of the children.
  ghost predicate ShowsChain(children: array<Box>, l: Layout, w: Workspace, scale: real, active: nat, c: Chain)
    reads children
  {
    active < children.Length && c == ChainOf(children[..], l, w, scale, active)
  }

  // The size of a child and the gap behind it, both on screen.
  method SizeAndGap(children: array<Box>, l: Layout, w: Workspace, active: nat, scale: real, i: nat, ghost c: Chain)
    returns (size: real, gap: real)
    requires ShowsChain(children, l, w, scale, active, c) && i < children.Length
    ensures size == c.sizes[i] && gap == c.gap
  {
    size, gap := scale * Size(l, children[i]), scale * 2.0 * w.gap;
  }

  function Extended(l: Layout, w: Workspace, x0: real, x1: real, i: nat, from: int, to: int): (r: (int, int)) {
    if Overlaps(l, w, x0, x1) then (if i < from then i else from, if i > to then i else to) else (from, to)
  }

  // Taking child i, next to those from lo up to hi, into their range.
  lemma RangeGrows(c: Chain, l: Layout, w: Workspace, lo: nat, hi: nat, lo': nat, hi': nat, from: int, to: int)
    requires IsChain(c) && lo' <= lo <= hi <= hi' <= |c.sizes| && lo - lo' + hi' - hi == 1
    requires RangeOf(c, l, w, lo, hi, from, to)
    ensures var i := if lo' < lo then lo' else hi;
      var (f, t) := Extended(l, w, Start(c, i), End(c, i), i, from, to);
      RangeOf(c, l, w, lo', hi', f, t)
  {}

  // The body of both loops: takes child i into the range if it is visible.
  method Extend(l: Layout, w: Workspace, x0: real, x1: real, i: nat, from0: int, to0: int) returns (from: int, to: int)
    ensures (from, to) == Extended(l, w, x0, x1, i, from0, to0)
  {
    from, to := from0, to0;
    var x, end := Origin(l, w), Origin(l, w) + Extent(l, w);
    if (x0 >= x && x0 < end) || (x1 >= x && x1 < end) || (x0 < x && x1 >= end) {
      if i < from {
        from := i;
      }
      if i > to {
        to := i;
      }
    }
  }

  // ---- The visible children are one interval ----

  // The test asks whether a child reaches into the workspace from either side.
  lemma OverlapsIff(l: Layout, w: Workspace, x0: real, x1: real)
    requires x0 <= x1 && Extent(l, w) >= 0.0
    ensures Overlaps(l, w, x0, x1) <==> x0 < Origin(l, w) + Extent(l, w) && x1 >= Origin(l, w)
  {}

  predicate NonNegative(c: Chain) {
    c.gap >= 0.0 && forall i :: 0 <= i < |c.sizes| ==> c.sizes[i] >= 0.0
  }

  lemma {:induction false} StartsAscend(c: Chain, i: nat, j: nat)
    requires IsChain(c) && NonNegative(c) && i <= j < |c.sizes|
    ensures Start(c, i) <= Start(c, j) && End(c, i) <= End(c, j)
    decreases j
  {
    if i < j {
      StartsAscend(c, i, j - 1);
    }
  }

  // The children from one visible child to another are visible, too.
  lemma VisibleIsInterval(c: Chain, l: Layout, w: Workspace, from: int, to: int, i: nat)
    requires IsChain(c) && NonNegative(c) && VisibleRange(c, l, w, from, to) && i < |c.sizes| && Extent(l, w) >= 0.0
    ensures Visible(c, l, w, i) <==> from <= i <= to
  {
    if from <= i <= to {
      StartsAscend(c, from, i);
      StartsAscend(c, i, to);
      OverlapsIff(l, w, Start(c, from), End(c, from));
      OverlapsIff(l, w, Start(c, i), End(c, i));
      OverlapsIff(l, w, Start(c, to), End(c, to));
    }
  }

  lemma ChainIsNonNegative(bs: seq<Box>, l: Layout, w: Workspace, scale: real, active: nat)
    requires active < |bs| && scale >= 0.0 && w.gap >= 0.0 && forall i :: 0 <= i < |bs| ==> Size(l, bs[i]) >= 0.0
    ensures NonNegative(ChainOf(bs, l, w, scale, active))
  {
    var c := ChainOf(bs, l, w, scale, active);
    Product(scale * 2.0, w.gap);
    forall i | 0 <= i < |bs|
      ensures c.sizes[i] >= 0.0
    {
      Product(scale, Size(l, bs[i]));
    }
  }

  lemma Product(a: real, b: real)
    requires a >= 0.0 && b >= 0.0
    ensures a * b >= 0.0
  {}

  // With nothing negative, GetVisible returns the ends of the one interval of
  // visible children.
  lemma VisibleChildren(bs: seq<Box>, l: Layout, w: Workspace, scale: real, active: nat, from: int, to: int)
    requires active < |bs| && scale >= 0.0 && w.gap >= 0.0 && Extent(l, w) >= 0.0
    requires forall i :: 0 <= i < |bs| ==> Size(l, bs[i]) >= 0.0
    requires VisibleRange(ChainOf(bs, l, w, scale, active), l, w, from, to)
    ensures forall i :: 0 <= i < |bs| ==> (Visible(ChainOf(bs, l, w, scale, active), l, w, i) <==> from <= i <= to)
    ensures from <= to <==> exists i :: 0 <= i < |bs| && Visible(ChainOf(bs, l, w, scale, active), l, w, i)
    ensures from > to ==> from == |bs| && to == -1
  {
    var c := ChainOf(bs, l, w, scale, active);
    ChainIsNonNegative(bs, l, w, scale, active);
    forall i | 0 <= i < |bs|
      ensures Visible(c, l, w, i) <==> from <= i <= to
    {
      VisibleIsInterval(c, l, w, from, to, i);
    }
  }

  // ---- Placing a child at the edge ----

  // Where SetFromPosition puts child k: `from` goes to `edge`, the others follow.
  function Placed(c: Chain, edge: real, from: nat, k: nat): real
    requires from <= |c.sizes| && k <= |c.sizes|
  {
    edge + Before(c.sizes, c.gap, k) - Before(c.sizes, c.gap, from)
  }

  // Exactly the children from lo up to hi are moved.
  ghost predicate ArePlaced(bs: seq<Box>, bs': seq<Box>, l: Layout, c: Chain, edge: real, from: nat, lo: nat, hi: nat)
    requires |bs| == |bs'| == |c.sizes| && from <= |bs|
  {
    forall k :: 0 <= k < |bs| ==>
      bs'[k] == if lo <= k < hi then MovedTo(l, bs[k], Placed(c, edge, from, k)) else bs[k]
  }

  // The children that lie between `from` and the active one.
  function Between(from: nat, active: nat): (r: (nat, nat)) {
    if from <= active then (from, active + 1) else (active, from)
  }

  ghost predicate HasSizes(c: Chain, bs: seq<Box>, l: Layout, w: Workspace, scale: real) {
    |c.sizes| == |bs| && forall i :: 0 <= i < |bs| ==> HasSize(c, bs, l, w, scale, i)
  }

  predicate HasSize(c: Chain, bs: seq<Box>, l: Layout, w: Workspace, scale: real, i: nat)
    requires i < |bs| == |c.sizes|
  {
    c.sizes[i] == scale * Size(l, bs[i]) && c.gap == scale * 2.0 * w.gap
  }

  lemma ChainHasSizes(bs: seq<Box>, l: Layout, w: Workspace, scale: real, active: nat)
    requires active < |bs|
    ensures HasSizes(ChainOf(bs, l, w, scale, active), bs, l, w, scale)
  {}

  method SetFromPosition(children: array<Box>, l: Layout, w: Workspace, scale: real, from: nat, active: nat,
          ghost c: Chain)
    requires from <= children.Length && active < children.Length && HasSizes(c, children[..], l, w, scale)
    modifies children
    ensures var (lo, hi) := Between(from, active);
      ArePlaced(old(children[..]), children[..], l, c, Edge(l, w, scale), from, lo, hi)
  {
    var offset := Origin(l, w) + scale * w.gap;
    if from <= active {
      PlaceForth(children, l, w, scale, from, active, offset, c);
    } else {
      PlaceBack(children, l, w, scale, from, active, offset, c);
    }
  }

  function Edge(l: Layout, w: Workspace, scale: real): real {
    Origin(l, w) + scale * w.gap
  }

  method PlaceForth(children: array<Box>, l: Layout, w: Workspace, scale: real, from: nat, active: nat, edge: real,
          ghost c: Chain)
    requires from <= active < children.Length && HasSizes(c, children[..], l, w, scale)
    modifies children
    ensures ArePlaced(old(children[..]), children[..], l, c, edge, from, from, active + 1)
  {
    ghost var bs := children[..];
    var offset := edge;
    for i := from to active + 1
      invariant offset == Placed(c, edge, from, i)
      invariant ArePlaced(bs, children[..], l, c, edge, from, from, i)
    {
      assert children[i] == children[..][i] == bs[i];
      var stride := Stride(children[i], l, w, scale, c, bs, i);
      children[i] := MovedTo(l, children[i], offset);
      offset := offset + stride;
    }
  }

  method PlaceBack(children: array<Box>, l: Layout, w: Workspace, scale: real, from: nat, active: nat, edge: real,
          ghost c: Chain)
    requires active < from <= children.Length && HasSizes(c, children[..], l, w, scale)
    modifies children
    ensures ArePlaced(old(children[..]), children[..], l, c, edge, from, active, from)
  {
    ghost var bs := children[..];
    var offset := edge;
    for i := from downto active
      invariant offset == Placed(c, edge, from, i)
      invariant ArePlaced(bs, children[..], l, c, edge, from, i, from)
    {
      assert children[i] == children[..][i] == bs[i];
      var stride := Stride(children[i], l, w, scale, c, bs, i);
      offset := offset - stride;
      children[i] := MovedTo(l, children[i], offset);
    }
  }

  method Stride(b: Box, l: Layout, w: Workspace, scale: real, ghost c: Chain, ghost bs: seq<Box>,
          ghost i: nat) returns (stride: real)
    requires HasSizes(c, bs, l, w, scale) && i < |bs| && b == bs[i]
    ensures stride == c.sizes[i] + c.gap
  {
    assert HasSize(c, bs, l, w, scale, i);
    stride := scale * (Size(l, b) + 2.0 * w.gap);
  }

  ghost predicate SameSizes(bs: seq<Box>, bs': seq<Box>, l: Layout) {
    && |bs| == |bs'|
    && forall k :: 0 <= k < |bs| ==> Size(l, bs'[k]) == Size(l, bs[k]) && Fraction(l, bs'[k]) == Fraction(l, bs[k])
  }

  lemma PlacedKeepsSizes(bs: seq<Box>, bs': seq<Box>, l: Layout, c: Chain, edge: real, from: nat, lo: nat, hi: nat)
    requires |bs| == |bs'| == |c.sizes| && from <= |bs| && ArePlaced(bs, bs', l, c, edge, from, lo, hi)
    ensures SameSizes(bs, bs', l)
  {}

  lemma SameOnScreen(bs: seq<Box>, bs': seq<Box>, l: Layout, scale: real)
    requires SameSizes(bs, bs', l)
    ensures OnScreen(bs', l, scale) == OnScreen(bs, l, scale)
  {
    var s, s' := OnScreen(bs, l, scale), OnScreen(bs', l, scale);
    forall k | 0 <= k < |bs|
      ensures s'[k] == s[k]
    {
      assert Size(l, bs'[k]) == Size(l, bs[k]);
    }
  }

  // Whichever way it went: walking from the new position of the active child, the
  // chain puts `from` at the edge.
  lemma FromIsAtEdge(bs: seq<Box>, bs': seq<Box>, l: Layout, w: Workspace, scale: real, from: nat, active: nat,
          edge: real)
    requires active < |bs| == |bs'| && from <= |bs|
    requires var (lo, hi) := Between(from, active);
      ArePlaced(bs, bs', l, ChainOf(bs, l, w, scale, active), edge, from, lo, hi)
    ensures Start(ChainOf(bs', l, w, scale, active), from) == edge
  {
    var (lo, hi) := Between(from, active);
    PlacedKeepsSizes(bs, bs', l, ChainOf(bs, l, w, scale, active), edge, from, lo, hi);
    SameOnScreen(bs, bs', l, scale);
    var c, c' := ChainOf(bs, l, w, scale, active), ChainOf(bs', l, w, scale, active);
    assert c'.sizes == c.sizes && c'.gap == c.gap;
    assert c'.position == Placed(c, edge, from, active);
  }

  // ---- Fitting a group ----

  datatype Fit = Active | VisibleOnes | All | ToEnd | ToBeginning

  // The sizes of the children from lo up to hi.
  function Total(bs: seq<Box>, l: Layout, lo: nat, hi: nat): real
    requires lo <= hi <= |bs|
  {
    if lo == hi then 0.0 else Total(bs, l, lo, hi - 1) + Size(l, bs[hi - 1])
  }

  function TotalFraction(bs: seq<Box>, l: Layout, lo: nat, hi: nat): real
    requires lo <= hi <= |bs|
  {
    if lo == hi then 0.0 else TotalFraction(bs, l, lo, hi - 1) + Fraction(l, bs[hi - 1])
  }

  // Exactly the children from lo up to hi have been resized, along the layout only.
  ghost predicate AreResized(bs: seq<Box>, bs': seq<Box>, l: Layout, lo: nat, hi: nat)
    requires |bs| == |bs'|
  {
    forall k :: 0 <= k < |bs| ==>
      bs'[k] == if lo <= k < hi then Resized(l, bs[k], Size(l, bs'[k]), Fraction(l, bs'[k])) else bs[k]
  }

  method TotalSize(children: array<Box>, l: Layout, lo: nat, hi: nat) returns (total: real)
    requires lo <= hi <= children.Length
    ensures total == Total(children[..], l, lo, hi)
  {
    total := 0.0;
    for i := lo to hi
      invariant total == Total(children[..], l, lo, i)
    {
      total := total + Size(l, children[i]);
    }
  }

  ghost predicate AllAre(bs: seq<Box>, l: Layout, lo: nat, hi: nat, size: real, fraction: real)
    requires lo <= hi <= |bs|
  {
    forall k :: lo <= k < hi ==> Size(l, bs[k]) == size && Fraction(l, bs[k]) == fraction
  }

  method SplitEqually(children: array<Box>, l: Layout, lo: nat, hi: nat, size: real, fraction: real)
    requires lo <= hi <= children.Length
    modifies children
    ensures AreResized(old(children[..]), children[..], l, lo, hi)
    ensures AllAre(children[..], l, lo, hi, size, fraction)
  {
    for i := lo to hi
      invariant AreResized(old(children[..]), children[..], l, lo, i)
      invariant AllAre(children[..], l, lo, i, size, fraction)
    {
      children[i] := Resized(l, children[i], size, fraction);
    }
  }

  // The size of each child has changed by the same ratio, and its fraction is its
  // part of the extent, gaps included.
  ghost predicate AreScaled(bs: seq<Box>, bs': seq<Box>, l: Layout, lo: nat, hi: nat, ratio: real, gap: real,
          extent: real)
    requires lo <= hi <= |bs| == |bs'|
  {
    forall k :: lo <= k < hi ==> IsScaled(bs[k], bs'[k], l, ratio, gap, extent)
  }

  predicate IsScaled(b: Box, b': Box, l: Layout, ratio: real, gap: real, extent: real) {
    && Size(l, b') == Size(l, b) * ratio
    && Fraction(l, b') * extent == Size(l, b') + 2.0 * gap
  }

  method SplitProportionally(children: array<Box>, l: Layout, lo: nat, hi: nat, ratio: real, gap: real, extent: real)
    requires lo <= hi <= children.Length && extent != 0.0
    modifies children
    ensures AreResized(old(children[..]), children[..], l, lo, hi)
    ensures AreScaled(old(children[..]), children[..], l, lo, hi, ratio, gap, extent)
  {
    ghost var bs := children[..];
    for i := lo to hi
      invariant AreResized(bs, children[..], l, lo, i)
      invariant AreScaled(bs, children[..], l, lo, i, ratio, gap, extent)
    {
      assert children[i] == children[..][i] == bs[i];
      var b := ScaledBox(children[i], l, ratio, gap, extent);
      children[i] := b;
    }
  }

  method ScaledBox(b: Box, l: Layout, ratio: real, gap: real, extent: real) returns (r: Box)
    requires extent != 0.0
    ensures r == Resized(l, b, Size(l, r), Fraction(l, r)) && IsScaled(b, r, l, ratio, gap, extent)
  {
    var size := Size(l, b) * ratio;
    Quotient(size + 2.0 * gap, extent);
    r := Resized(l, b, size, (size + 2.0 * gap) / extent);
  }

  // The sizes of the children from lo up to hi, each with a gap on either side.
  function TotalWithGaps(bs: seq<Box>, l: Layout, gap: real, lo: nat, hi: nat): real
    requires lo <= hi <= |bs|
  {
    if lo == hi then 0.0 else TotalWithGaps(bs, l, gap, lo, hi - 1) + (Size(l, bs[hi - 1]) + 2.0 * gap)
  }

  // What fitting a group is for: with their gaps, its children take the extent of
  // the workspace, and their fractions add up to one.
  predicate Fills(bs: seq<Box>, l: Layout, w: Workspace, lo: nat, hi: nat)
    requires lo <= hi <= |bs|
  {
    TotalWithGaps(bs, l, w.gap, lo, hi) == Extent(l, w) && TotalFraction(bs, l, lo, hi) == 1.0
  }

  lemma Quotient(x: real, y: real)
    requires y != 0.0
    ensures x / y * y == x && y * (x / y) == x
  {}

  lemma QuotientIs(x: real, y: real, q: real)
    requires y != 0.0 && q == x / y
    ensures q * y == x
  {}

  lemma Distributes(a: real, b: real, c: real)
    ensures (a + b) * c == a * c + b * c && c * (a + b) == c * a + c * b
  {}

  lemma OneMore(n: nat, x: real)
    ensures (n + 1) as real * x == n as real * x + x
  {
    Distributes(n as real, 1.0, x);
  }

  lemma {:induction false} EqualTotal(bs: seq<Box>, l: Layout, gap: real, lo: nat, hi: nat, size: real, fraction: real)
    requires lo <= hi <= |bs| && AllAre(bs, l, lo, hi, size, fraction)
    ensures TotalWithGaps(bs, l, gap, lo, hi) == (hi - lo) as real * (size + 2.0 * gap)
    ensures TotalFraction(bs, l, lo, hi) == (hi - lo) as real * fraction
  {
    if lo < hi {
      EqualTotal(bs, l, gap, lo, hi - 1, size, fraction);
      OneMore(hi - 1 - lo, size + 2.0 * gap);
      OneMore(hi - 1 - lo, fraction);
    }
  }

  lemma EqualFills(bs: seq<Box>, l: Layout, w: Workspace, lo: nat, hi: nat, share: real, size: real, fraction: real)
    requires lo < hi <= |bs| && AllAre(bs, l, lo, hi, size, fraction)
    requires share == Extent(l, w) - (hi - lo) as real * (2.0 * w.gap)
    requires size == share / (hi - lo) as real && fraction == 1.0 / (hi - lo) as real
    ensures Fills(bs, l, w, lo, hi)
  {
    EqualTotal(bs, l, w.gap, lo, hi, size, fraction);
    Quotient(share, (hi - lo) as real);
    Quotient(1.0, (hi - lo) as real);
    Distributes(size, 2.0 * w.gap, (hi - lo) as real);
  }

  // n times x, as a sum.
  function Times(n: nat, x: real): real {
    if n == 0 then 0.0 else Times(n - 1, x) + x
  }

  lemma {:induction false} TimesIsProduct(n: nat, x: real)
    ensures Times(n, x) == n as real * x
  {
    if n > 0 {
      TimesIsProduct(n - 1, x);
      OneMore(n - 1, x);
    }
  }

  lemma {:induction false} ScaledSizes(bs: seq<Box>, bs': seq<Box>, l: Layout, lo: nat, hi: nat, ratio: real,
          gap: real, extent: real)
    requires lo <= hi <= |bs| == |bs'| && AreScaled(bs, bs', l, lo, hi, ratio, gap, extent)
    ensures Total(bs', l, lo, hi) == ratio * Total(bs, l, lo, hi)
  {
    if lo < hi {
      ScaledSizes(bs, bs', l, lo, hi - 1, ratio, gap, extent);
      assert IsScaled(bs[hi - 1], bs'[hi - 1], l, ratio, gap, extent);
      Distributes(Total(bs, l, lo, hi - 1), Size(l, bs[hi - 1]), ratio);
    }
  }

  lemma {:induction false} GapsAddUp(bs: seq<Box>, l: Layout, gap: real, lo: nat, hi: nat)
    requires lo <= hi <= |bs|
    ensures TotalWithGaps(bs, l, gap, lo, hi) == Total(bs, l, lo, hi) + Times(hi - lo, 2.0 * gap)
  {
    if lo < hi { GapsAddUp(bs, l, gap, lo, hi - 1); }
  }

  lemma {:induction false} ScaledFractions(bs: seq<Box>, bs': seq<Box>, l: Layout, lo: nat, hi: nat, ratio: real,
          gap: real, extent: real)
    requires lo <= hi <= |bs| == |bs'| && AreScaled(bs, bs', l, lo, hi, ratio, gap, extent)
    ensures TotalFraction(bs', l, lo, hi) * extent == TotalWithGaps(bs', l, gap, lo, hi)
  {
    if lo < hi {
      var b := bs'[hi - 1];
      ScaledFractions(bs, bs', l, lo, hi - 1, ratio, gap, extent);
      assert IsScaled(bs[hi - 1], b, l, ratio, gap, extent);
      Distributes(TotalFraction(bs', l, lo, hi - 1), Fraction(l, b), extent);
    }
  }

  lemma ScaledTotal(bs: seq<Box>, bs': seq<Box>, l: Layout, lo: nat, hi: nat, ratio: real, gap: real, extent: real)
    requires lo <= hi <= |bs| == |bs'| && AreScaled(bs, bs', l, lo, hi, ratio, gap, extent)
    ensures TotalWithGaps(bs', l, gap, lo, hi) == ratio * Total(bs, l, lo, hi) + Times(hi - lo, 2.0 * gap)
  {
    ScaledSizes(bs, bs', l, lo, hi, ratio, gap, extent);
    GapsAddUp(bs', l, gap, lo, hi);
  }

  lemma FractionsAreWhole(bs: seq<Box>, bs': seq<Box>, l: Layout, lo: nat, hi: nat, ratio: real, gap: real,
          extent: real)
    requires lo < hi <= |bs| == |bs'| && extent != 0.0
    requires AreScaled(bs, bs', l, lo, hi, ratio, gap, extent) && TotalWithGaps(bs', l, gap, lo, hi) == extent
    ensures TotalFraction(bs', l, lo, hi) == 1.0
  {
    var f := TotalFraction(bs', l, lo, hi);
    ScaledFractions(bs, bs', l, lo, hi, ratio, gap, extent);
    OneWhole(f, extent);
  }

  // The group on screen, with the gaps behind its children.
  lemma {:induction false} GroupOnScreen(c: Chain, bs: seq<Box>, l: Layout, w: Workspace, scale: real, lo: nat, hi: nat)
    requires lo <= hi <= |bs| && HasSizes(c, bs, l, w, scale)
    ensures Before(c.sizes, c.gap, hi) - Before(c.sizes, c.gap, lo) == scale * TotalWithGaps(bs, l, w.gap, lo, hi)
  {
    if lo < hi {
      var b := bs[hi - 1];
      GroupOnScreen(c, bs, l, w, scale, lo, hi - 1);
      assert HasSize(c, bs, l, w, scale, hi - 1);
      Distributes(Size(l, b), 2.0 * w.gap, scale);
      Distributes(TotalWithGaps(bs, l, w.gap, lo, hi - 1), Size(l, b) + 2.0 * w.gap, scale);
    }
  }

  // A group that fills the workspace and starts at the edge also ends at the edge:
  // behind its last child there is a gap up to the end of the extent, on screen.
  lemma GroupEndsAtEdge(bs: seq<Box>, l: Layout, w: Workspace, scale: real, active: nat, lo: nat, hi: nat)
    requires active < |bs| && lo < hi <= |bs| && Fills(bs, l, w, lo, hi)
    requires Start(ChainOf(bs, l, w, scale, active), lo) == Edge(l, w, scale)
    ensures End(ChainOf(bs, l, w, scale, active), hi - 1) + scale * w.gap == Origin(l, w) + scale * Extent(l, w)
  {
    var c := ChainOf(bs, l, w, scale, active);
    ChainHasSizes(bs, l, w, scale, active);
    GroupOnScreen(c, bs, l, w, scale, lo, hi);
    assert c.gap == scale * w.gap + scale * w.gap;
  }

  lemma ScaledFills(bs: seq<Box>, bs': seq<Box>, l: Layout, w: Workspace, lo: nat, hi: nat, ratio: real, share: real,
          total: real)
    requires lo < hi <= |bs| == |bs'| && AreScaled(bs, bs', l, lo, hi, ratio, w.gap, Extent(l, w))
    requires total == Total(bs, l, lo, hi) && ratio * total == share && Extent(l, w) != 0.0
    requires share == Extent(l, w) - Times(hi - lo, 2.0 * w.gap)
    ensures Fills(bs', l, w, lo, hi)
  {
    ScaledTotal(bs, bs', l, lo, hi, ratio, w.gap, Extent(l, w));
    FractionsAreWhole(bs, bs', l, lo, hi, ratio, w.gap, Extent(l, w));
  }

  // ---- The command ----

  // Whether the new sizes are numbers: scaling divides by the sum of the old sizes
  // and by the extent.
  predicate IsFinite(bs: seq<Box>, l: Layout, w: Workspace, lo: nat, hi: nat, equal: bool)
    requires lo <= hi <= |bs|
  {
    equal || (Total(bs, l, lo, hi) != 0.0 && Extent(l, w) != 0.0)
  }

  // Gives the children from lo up to hi their new sizes and fractions, if these are
  // numbers; infinities and NaN are not modelled.
  method ResizeGroup(children: array<Box>, l: Layout, w: Workspace, lo: nat, hi: nat, equal: bool)
    returns (finite: bool, ghost ratio: real)
    requires lo < hi <= children.Length
    modifies children
    ensures finite == IsFinite(old(children[..]), l, w, lo, hi, equal)
    ensures AreResized(old(children[..]), children[..], l, lo, hi)
    ensures finite ==> Fills(children[..], l, w, lo, hi)
    ensures equal ==> AllAre(children[..], l, lo, hi, Size(l, children[lo]), Fraction(l, children[lo]))
    ensures finite && !equal ==> AreScaled(old(children[..]), children[..], l, lo, hi, ratio, w.gap, Extent(l, w))
  {
    finite, ratio := true, 1.0;
    if equal {
      EqualGroup(children, l, w, lo, hi);
    } else {
      var total := TotalSize(children, l, lo, hi);
      var extent := Extent(l, w);
      if total == 0.0 || extent == 0.0 {
        return false, 0.0;
      }
      ratio := ScaleGroup(children, l, w, lo, hi, total);
    }
  }

  method EqualGroup(children: array<Box>, l: Layout, w: Workspace, lo: nat, hi: nat)
    requires lo < hi <= children.Length
    modifies children
    ensures AreResized(old(children[..]), children[..], l, lo, hi) && Fills(children[..], l, w, lo, hi)
    ensures AllAre(children[..], l, lo, hi, Size(l, children[lo]), Fraction(l, children[lo]))
  {
    var n := hi - lo;
    var share := Extent(l, w) - n as real * (2.0 * w.gap);
    var size, fraction := share / n as real, 1.0 / n as real;
    SplitEqually(children, l, lo, hi, size, fraction);
    EqualFills(children[..], l, w, lo, hi, share, size, fraction);
  }

  method ScaleGroup(children: array<Box>, l: Layout, w: Workspace, lo: nat, hi: nat, total: real)
    returns (ghost ratio: real)
    requires lo < hi <= children.Length && Extent(l, w) != 0.0
    requires total == Total(children[..], l, lo, hi) != 0.0
    modifies children
    ensures AreResized(old(children[..]), children[..], l, lo, hi) && Fills(children[..], l, w, lo, hi)
    ensures AreScaled(old(children[..]), children[..], l, lo, hi, ratio, w.gap, Extent(l, w))
  {
    ghost var bs := children[..];
    var n, extent, gaps := hi - lo, Extent(l, w), 2.0 * w.gap;
    var share := extent - n as real * gaps;
    TimesIsProduct(n, gaps);
    assert share == extent - Times(n, gaps);
    var r := share / total;
    ratio := r;
    QuotientIs(share, total, r);
    assert r * total == share;
    SplitProportionally(children, l, lo, hi, r, w.gap, extent);
    assert AreScaled(bs, children[..], l, lo, hi, r, w.gap, Extent(l, w));
    ScaledFills(bs, children[..], l, w, lo, hi, r, share, total);
  }

  // The group of children that a command names.
  predicate IsGroup(c: Chain, l: Layout, w: Workspace, fit: Fit, from: int, to: int)
    requires IsChain(c)
  {
    match fit
    case Active => from == to == c.active
    case VisibleOnes => VisibleRange(c, l, w, from, to)
    case All => from == 0 && to == |c.sizes| - 1
    case ToEnd => from == c.active && to == |c.sizes| - 1
    case ToBeginning => from == 0 && to == c.active
  }

  method ChooseGroup(children: array<Box>, l: Layout, w: Workspace, scale: real, fit: Fit,
          active: nat) returns (from: int, to: int)
    requires active < children.Length
    ensures IsGroup(ChainOf(children[..], l, w, scale, active), l, w, fit, from, to)
  {
    match fit {
      case Active => from, to := active, active;
      case VisibleOnes => from, to := GetVisible(children, l, w, active, scale);
      case All => from, to := 0, children.Length - 1;
      case ToEnd => from, to := active, children.Length - 1;
      case ToBeginning => from, to := 0, active;
    }
  }

  lemma {:induction false} SameTotals(bs: seq<Box>, bs': seq<Box>, l: Layout, gap: real, lo: nat, hi: nat)
    requires lo <= hi <= |bs| && SameSizes(bs, bs', l)
    ensures TotalWithGaps(bs', l, gap, lo, hi) == TotalWithGaps(bs, l, gap, lo, hi)
    ensures TotalFraction(bs', l, lo, hi) == TotalFraction(bs, l, lo, hi)
  {
    if lo < hi { SameTotals(bs, bs', l, gap, lo, hi - 1); }
  }

  // What a fit leaves behind.
  ghost predicate IsFitted(bs: seq<Box>, l: Layout, w: Workspace, scale: real, active: nat, lo: nat, hi: nat)
    requires active < |bs| && lo < hi <= |bs|
  {
    var c := ChainOf(bs, l, w, scale, active);
    && Fills(bs, l, w, lo, hi)
    && Start(c, lo) == Origin(l, w) + scale * w.gap
    && End(c, hi - 1) + scale * w.gap == Origin(l, w) + scale * Extent(l, w)
  }

  lemma PlacedStillFills(bs: seq<Box>, bs': seq<Box>, l: Layout, w: Workspace, c: Chain, edge: real, from: nat,
          hi: nat, lo': nat, hi': nat)
    requires |bs| == |bs'| == |c.sizes| && from <= hi <= |bs| && Fills(bs, l, w, from, hi)
    requires ArePlaced(bs, bs', l, c, edge, from, lo', hi')
    ensures Fills(bs', l, w, from, hi)
  {
    PlacedKeepsSizes(bs, bs', l, c, edge, from, lo', hi');
    SameTotals(bs, bs', l, w.gap, from, hi);
  }

  lemma FittedAtEdge(bs: seq<Box>, l: Layout, w: Workspace, scale: real, active: nat, lo: nat, hi: nat)
    requires active < |bs| && lo < hi <= |bs| && Fills(bs, l, w, lo, hi)
    requires Start(ChainOf(bs, l, w, scale, active), lo) == Edge(l, w, scale)
    ensures IsFitted(bs, l, w, scale, active, lo, hi)
  {
    GroupEndsAtEdge(bs, l, w, scale, active, lo, hi);
  }

  // Only sizes, fractions and positions along the layout change, and sizes only in
  // the group.
  predicate OnlyResizes(l: Layout, b: Box, b': Box, inGroup: bool) {
    && b' == MovedTo(l, Resized(l, b, Size(l, b'), Fraction(l, b')), Position(l, b'))
    && (inGroup || (Size(l, b') == Size(l, b) && Fraction(l, b') == Fraction(l, b)))
  }

  ghost predicate OnlyGroupResizes(l: Layout, bs: seq<Box>, bs': seq<Box>, from: int, to: int)
    requires |bs| == |bs'|
  {
    forall k :: 0 <= k < |bs| ==> OnlyResizes(l, bs[k], bs'[k], from <= k <= to)
  }

  lemma ResizedAndPlaced(bs: seq<Box>, mid: seq<Box>, bs': seq<Box>, l: Layout, c: Chain, edge: real, from: nat,
          to: int, hi: nat, lo': nat, hi': nat)
    requires |bs| == |mid| == |bs'| == |c.sizes| && from <= |bs| && (hi == to + 1 || hi == from)
    requires AreResized(bs, mid, l, from, hi) && ArePlaced(mid, bs', l, c, edge, from, lo', hi')
    ensures OnlyGroupResizes(l, bs, bs', from, to)
  {
    forall k | 0 <= k < |bs|
      ensures OnlyResizes(l, bs[k], bs'[k], from <= k <= to)
    {
      assert mid[k] == if from <= k < hi then Resized(l, bs[k], Size(l, mid[k]), Fraction(l, mid[k])) else bs[k];
    }
  }

  // How two children of the group share it: alike, or in the proportion they had,
  // and then each fraction is the child's part of the extent, its gaps included.
  predicate SharesWith(l: Layout, w: Workspace, b: Box, b': Box, c: Box, c': Box, equal: bool) {
    if equal then Size(l, b') == Size(l, c') && Fraction(l, b') == Fraction(l, c')
    else
      && Size(l, b') * Size(l, c) == Size(l, c') * Size(l, b)
      && Fraction(l, b') * Extent(l, w) == Size(l, b') + 2.0 * w.gap
  }

  ghost predicate SharesOut(l: Layout, w: Workspace, bs: seq<Box>, bs': seq<Box>, from: nat, to: int, equal: bool)
    requires |bs| == |bs'| && to < |bs|
  {
    forall k, j :: from <= k <= to && from <= j <= to ==> SharesWith(l, w, bs[k], bs'[k], bs[j], bs'[j], equal)
  }

  lemma ScaledAlike(a: real, b: real, ratio: real)
    ensures (a * ratio) * b == (b * ratio) * a
  {}

  lemma ResizedSharesOut(l: Layout, w: Workspace, bs: seq<Box>, bs': seq<Box>, from: nat, to: int, equal: bool,
          ratio: real, size: real, fraction: real)
    requires from <= to < |bs| == |bs'|
    requires if equal then AllAre(bs', l, from, to + 1, size, fraction)
      else AreScaled(bs, bs', l, from, to + 1, ratio, w.gap, Extent(l, w))
    ensures SharesOut(l, w, bs, bs', from, to, equal)
  {
    forall k, j | from <= k <= to && from <= j <= to
      ensures SharesWith(l, w, bs[k], bs'[k], bs[j], bs'[j], equal)
    {
      if !equal {
        assert IsScaled(bs[k], bs'[k], l, ratio, w.gap, Extent(l, w));
        assert IsScaled(bs[j], bs'[j], l, ratio, w.gap, Extent(l, w));
        ScaledAlike(Size(l, bs[k]), Size(l, bs[j]), ratio);
      }
    }
  }

  lemma PlacedSharesOut(l: Layout, w: Workspace, bs: seq<Box>, mid: seq<Box>, bs': seq<Box>, from: nat, to: int,
          equal: bool)
    requires |bs| == |mid| && to < |bs| && SharesOut(l, w, bs, mid, from, to, equal) && SameSizes(mid, bs', l)
    ensures SharesOut(l, w, bs, bs', from, to, equal)
  {
    forall k, j | from <= k <= to && from <= j <= to
      ensures SharesWith(l, w, bs[k], bs'[k], bs[j], bs'[j], equal)
    {
      assert SharesWith(l, w, bs[k], mid[k], bs[j], mid[j], equal);
    }
  }

  // Fits the group, which may be empty, and puts its beginning at the edge.
  method FitGroup(children: array<Box>, l: Layout, w: Workspace, scale: real, active: nat, from: nat, to: int,
          equal: bool) returns (finite: bool)
    requires active < children.Length && from <= children.Length && to < children.Length
    modifies children
    ensures finite == (from > to || IsFinite(old(children[..]), l, w, from, to + 1, equal))
    ensures finite && from <= to ==> Fills(children[..], l, w, from, to + 1)
    ensures finite ==> SharesOut(l, w, old(children[..]), children[..], from, to, equal)
    ensures finite ==> AllStand(old(children[..]), children[..], l, w, scale, active, from)
    ensures finite ==> Start(ChainOf(children[..], l, w, scale, active), from) == Edge(l, w, scale)
    ensures OnlyGroupResizes(l, old(children[..]), children[..], from, to)
  {
    ghost var bs := children[..];
    ghost var hi := from;
    finite := true;
    if from <= to {
      hi := to + 1;
      ghost var ratio;
      finite, ratio := ResizeGroup(children, l, w, from, to + 1, equal);
      if finite {
        ResizedSharesOut(l, w, bs, children[..], from, to, equal, ratio, Size(l, children[from]),
          Fraction(l, children[from]));
      }
    }
    if finite {
      ghost var mid := children[..];
      PutInPlace(children, l, w, scale, active, from, to, bs, hi);
      PlacedSharesOut(l, w, bs, mid, children[..], from, to, equal);
    }
  }

  method PutInPlace(children: array<Box>, l: Layout, w: Workspace, scale: real, active: nat, from: nat, to: int,
          ghost bs: seq<Box>, ghost hi: nat)
    requires active < children.Length == |bs| && from <= hi <= children.Length && to < children.Length
    requires if from <= to then hi == to + 1 && Fills(children[..], l, w, from, hi) else hi == from
    requires AreResized(bs, children[..], l, from, hi)
    modifies children
    ensures from <= to ==> Fills(children[..], l, w, from, to + 1)
    ensures SameSizes(old(children[..]), children[..], l)
    ensures AllStand(bs, children[..], l, w, scale, active, from)
    ensures Start(ChainOf(children[..], l, w, scale, active), from) == Edge(l, w, scale)
    ensures OnlyGroupResizes(l, bs, children[..], from, to)
  {
    ghost var mid := children[..];
    ghost var c := ChainOf(mid, l, w, scale, active);
    ChainHasSizes(mid, l, w, scale, active);
    SetFromPosition(children, l, w, scale, from, active, c);
    AfterPlacing(bs, mid, children[..], l, w, scale, active, from, to, hi, c, Edge(l, w, scale));
  }

  // The children from the beginning of the group to the active one, or from the active
  // one up to there, stand where the chain puts them; no other one is moved.
  predicate StandsInChain(bs: seq<Box>, bs': seq<Box>, l: Layout, w: Workspace, scale: real, active: nat, from: nat,
          k: nat)
    requires active < |bs| == |bs'| && k < |bs|
  {
    Position(l, bs'[k]) ==
      if from <= k <= active || active <= k < from then Start(ChainOf(bs', l, w, scale, active), k)
      else Position(l, bs[k])
  }

  ghost predicate AllStand(bs: seq<Box>, bs': seq<Box>, l: Layout, w: Workspace, scale: real, active: nat, from: nat)
    requires active < |bs| == |bs'|
  {
    forall k :: 0 <= k < |bs| ==> StandsInChain(bs, bs', l, w, scale, active, from, k)
  }

  lemma PlacedStand(bs: seq<Box>, mid: seq<Box>, bs': seq<Box>, l: Layout, w: Workspace, scale: real, active: nat,
          from: nat, hi: nat, edge: real)
    requires active < |bs| == |mid| == |bs'| && from <= hi <= |bs|
    requires AreResized(bs, mid, l, from, hi)
    requires ArePlaced(mid, bs', l, ChainOf(mid, l, w, scale, active), edge, from, Between(from, active).0,
      Between(from, active).1)
    ensures AllStand(bs, bs', l, w, scale, active, from)
  {
    var (lo', hi') := Between(from, active);
    var c, c' := ChainOf(mid, l, w, scale, active), ChainOf(bs', l, w, scale, active);
    PlacedKeepsSizes(mid, bs', l, c, edge, from, lo', hi');
    SameOnScreen(mid, bs', l, scale);
    assert c'.sizes == c.sizes && c'.gap == c.gap && c'.position == Placed(c, edge, from, active);
    forall k | 0 <= k < |bs|
      ensures StandsInChain(bs, bs', l, w, scale, active, from, k)
    {
      assert mid[k] == if from <= k < hi then Resized(l, bs[k], Size(l, mid[k]), Fraction(l, mid[k])) else bs[k];
    }
  }

  lemma AfterPlacing(bs: seq<Box>, mid: seq<Box>, bs': seq<Box>, l: Layout, w: Workspace, scale: real, active: nat,
          from: nat, to: int, hi: nat,
                     c: Chain, edge: real)
    requires active < |bs| == |mid| == |bs'| && from <= hi <= |bs| && to < |bs|
    requires if from <= to then hi == to + 1 && Fills(mid, l, w, from, hi) else hi == from
    requires AreResized(bs, mid, l, from, hi) && c == ChainOf(mid, l, w, scale, active)
    requires ArePlaced(mid, bs', l, c, edge, from, Between(from, active).0, Between(from, active).1)
    ensures from <= to ==> Fills(bs', l, w, from, hi)
    ensures SameSizes(mid, bs', l) && AllStand(bs, bs', l, w, scale, active, from)
    ensures Start(ChainOf(bs', l, w, scale, active), from) == edge
    ensures OnlyGroupResizes(l, bs, bs', from, to)
  {
    var (lo', hi') := Between(from, active);
    PlacedKeepsSizes(mid, bs', l, c, edge, from, lo', hi');
    PlacedStand(bs, mid, bs', l, w, scale, active, from, hi, edge);
    ResizedAndPlaced(bs, mid, bs', l, c, edge, from, to, hi, lo', hi');
    FromIsAtEdge(mid, bs', l, w, scale, from, active, edge);
    if from <= to {
      PlacedStillFills(mid, bs', l, w, c, edge, from, hi, lo', hi');
    }
  }

  // fit_size_workspace and fit_size_container, up to where they arrange.  `focused`
  // is the index of the focused child, or -1.  If no child is visible, no size
  // changes, and the end of the last child is put at the edge.
  method FitSize(children: array<Box>, l: Layout, w: Workspace, scale: real, fit: Fit, equal: bool, focused: int)
    returns (from: int, to: int, finite: bool)
    requires -1 <= focused < children.Length
    modifies children
    ensures children.Length > 0 ==> var active := if focused < 0 then 0 else focused;
      && (fit == Active ==> from == to == active)
      && (fit == All ==> from == 0 && to == children.Length - 1)
      && (fit == ToEnd ==> from == active && to == children.Length - 1)
      && (fit == ToBeginning ==> from == 0 && to == active)
      && (fit == VisibleOnes ==> VisibleRange(ChainOf(old(children[..]), l, w, scale, active), l, w, from, to))
      && 0 <= from <= children.Length && to < children.Length
      && finite == (from > to || IsFinite(old(children[..]), l, w, from, to + 1, equal))
      && (finite && from <= to ==> IsFitted(children[..], l, w, scale, active, from, to + 1))
      && (finite ==> SharesOut(l, w, old(children[..]), children[..], from, to, equal))
      && (finite ==> AllStand(old(children[..]), children[..], l, w, scale, active, from))
      && (finite ==> Start(ChainOf(children[..], l, w, scale, active), from) == Edge(l, w, scale))
    ensures OnlyGroupResizes(l, old(children[..]), children[..], from, to)
  {
    from, to, finite := 0, -1, true;
    if children.Length == 0 {
      return;
    }
    var active := if focused < 0 then 0 else focused;
    from, to := ChooseGroup(children, l, w, scale, fit, active);
    finite := FitGroup(children, l, w, scale, active, from, to, equal);
    if finite && from <= to {
      FittedAtEdge(children[..], l, w, scale, active, from, to + 1);
    }
  }

  lemma Cancels(f: real, x: real)
    requires x != 0.0
    ensures f * x / x == f
  {}

  lemma OneWhole(f: real, x: real)
    requires x != 0.0
    ensures f * x == x ==> f == 1.0
  {
    Cancels(f, x);
    Cancels(1.0, x);
  }
}
