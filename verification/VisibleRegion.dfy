/** The visible part of a window: compute_visible_fraction_and_overlay_center_for_clips
    of src/harpoon/workspace_slots.c.  One call works on the window array as it is
    passed; integers are unbounded, so the model stands for the program while areas
    fit a C int. */
module VisibleRegion {
  import opened Geometry

  const MAX_OCCLUDERS: nat := 32
  const MAX_FRAGMENTS: nat := MAX_OCCLUDERS * 4

  datatype Extents = Extents(left: int, right: int, top: int, bottom: int)

  datatype WindowPosition = WindowPosition(id: int, x: int, y: int, w: int, h: int, frame: Extents) {
    function Outer(): Rect {
      Rect(x, y, x + w, y + h)
    }

    /** The outer rectangle less its decorations, or all of it when nothing is left. */
    function Content(): Rect {
      var left := MinOf(MaxOf(frame.left, 0), w);
      var right := MinOf(MaxOf(frame.right, 0), w - left);
      var top := MinOf(MaxOf(frame.top, 0), h);
      var bottom := MinOf(MaxOf(frame.bottom, 0), h - top);
      var content := Rect(x + left, y + top, x + w - right, y + h - bottom);
      if content.x2 <= content.x1 || content.y2 <= content.y1 then Outer() else content
    }

    /** The denominator of the visible fraction. */
    function TotalArea(): int {
      (Content().x2 - Content().x1) * (Content().y2 - Content().y1)
    }
  }

  /** Stacking order, bottom to top; `known` is false when the server gave none. */
  datatype Stacking = Stacking(known: bool, ids: seq<int>)

  /** Position of `id` in the stack from index `i` on, or -1. */
  function StackPos(ids: seq<int>, id: int, i: nat): (p: int)
    requires i <= |ids|
    ensures -1 <= p < |ids| && (p >= 0 ==> p >= i && ids[p] == id)
    decreases |ids| - i
  {
    if i == |ids| then -1 else if ids[i] == id then i else StackPos(ids, id, i + 1)
  }

  method GetStackPosition(id: int, ids: seq<int>) returns (p: int)
    ensures p == StackPos(ids, id, 0)
  {
    for i := 0 to |ids|
      invariant StackPos(ids, id, 0) == StackPos(ids, id, i)
    {
      if ids[i] == id {
        return i;
      }
    }
    return -1;
  }

  // ---- Occluders ----

  function Overlap(win: WindowPosition, other: WindowPosition): Rect {
    Rect(MaxOf(win.x, other.x), MaxOf(win.y, other.y),
         MinOf(win.x + win.w, other.x + other.w), MinOf(win.y + win.h, other.y + other.h))
  }

  predicate NonEmpty(r: Rect) {
    r.x2 > r.x1 && r.y2 > r.y1
  }

  predicate Occludes(win: WindowPosition, pos: int, other: WindowPosition, stack: Stacking) {
    && stack.known && pos >= 0
    && other.id != win.id && StackPos(stack.ids, other.id, 0) > pos
    && NonEmpty(Overlap(win, other))
  }

  /** The overlaps of every window above `win`, in array order. */
  function AllOccluders(win: WindowPosition, pos: int, all: seq<WindowPosition>, stack: Stacking): seq<Rect> {
    if all == [] then []
    else
      var front, last := all[..|all| - 1], all[|all| - 1];
      AllOccluders(win, pos, front, stack) + if Occludes(win, pos, last, stack) then [Overlap(win, last)] else []
  }

  function Truncate<T>(s: seq<T>, n: nat): (r: seq<T>)
    ensures |r| == if |s| < n then |s| else n
    ensures r <= s
  {
    if |s| <= n then s else s[..n]
  }

  /** The occluders the fixed buffer keeps. */
  function Occluders(win: WindowPosition, pos: int, all: seq<WindowPosition>, stack: Stacking): seq<Rect> {
    Truncate(AllOccluders(win, pos, all, stack), MAX_OCCLUDERS)
  }

  // ---- Fragments ----

  /** Every fragment minus `b`, in order, before the buffer cuts it off. */
  function SubtractFrom(rs: seq<Rect>, b: Rect): seq<Rect> {
    if rs == [] then [] else SubtractFrom(rs[..|rs| - 1], b) + Subtract(rs[|rs| - 1], b)
  }

  /** The fragments left of `outer` after the given occluders. */
  function Fragments(outer: Rect, occluders: seq<Rect>): (r: seq<Rect>)
    ensures |r| <= MAX_FRAGMENTS
  {
    if occluders == [] then [outer]
    else
      var n := |occluders| - 1;
      Truncate(SubtractFrom(Fragments(outer, occluders[..n]), occluders[n]), MAX_FRAGMENTS)
  }

  /** No subtraction overflows the fragment buffer. */
  predicate BufferSuffices(outer: Rect, occluders: seq<Rect>) {
    occluders != [] ==>
      var n := |occluders| - 1;
      && BufferSuffices(outer, occluders[..n])
      && |SubtractFrom(Fragments(outer, occluders[..n]), occluders[n])| <= MAX_FRAGMENTS
  }

  lemma {:induction false} SubtractFromStep(rs: seq<Rect>, r: Rect, b: Rect)
    ensures SubtractFrom(rs + [r], b) == SubtractFrom(rs, b) + Subtract(r, b)
  {
    assert (rs + [r])[..|rs|] == rs;
  }

  lemma {:induction false} SubtractFromExact(rs: seq<Rect>, b: Rect)
    requires PairwiseDisjoint(rs) && Ordered(b)
    ensures PairwiseDisjoint(SubtractFrom(rs, b))
    ensures forall x, y :: CoveredBy(SubtractFrom(rs, b), x, y) <==> CoveredBy(rs, x, y) && !Covers(b, x, y)
  {
    if rs != [] {
      var n := |rs| - 1;
      var front, last := rs[..n], rs[n];
      SubtractFromExact(front, b);
      SubtractIsExact(last, b);
      assert rs == front + [last];
      forall x, y ensures CoveredBy(rs, x, y) <==> CoveredBy(front, x, y) || Covers(last, x, y) {
        CoveredByConcat(front, [last], x, y);
        assert Covers(last, x, y) ==> Covers([last][0], x, y);
      }
      forall x, y ensures !(CoveredBy(front, x, y) && Covers(last, x, y)) {
        if i :| 0 <= i < n && Covers(front[i], x, y) {
          assert Disjoint(rs[i], rs[n]);
        }
      }
      forall x, y ensures CoveredBy(SubtractFrom(rs, b), x, y) <==> CoveredBy(rs, x, y) && !Covers(b, x, y) {
        CoveredByConcat(SubtractFrom(front, b), Subtract(last, b), x, y);
      }
      DisjointConcat(SubtractFrom(front, b), Subtract(last, b));
    }
  }

  lemma {:induction false} TruncateKeeps(rs: seq<Rect>, n: nat)
    requires PairwiseDisjoint(rs)
    ensures PairwiseDisjoint(Truncate(rs, n))
    ensures forall x, y :: CoveredBy(Truncate(rs, n), x, y) ==> CoveredBy(rs, x, y)
  {
    var t := Truncate(rs, n);
    forall i, j | 0 <= i < j < |t| ensures Disjoint(t[i], t[j]) {
      assert Disjoint(rs[i], rs[j]);
    }
    forall x, y | CoveredBy(t, x, y) ensures CoveredBy(rs, x, y) {
      var i :| 0 <= i < |t| && Covers(t[i], x, y);
      assert Covers(rs[i], x, y);
    }
  }

  predicate AllOrdered(rs: seq<Rect>) {
    forall k :: 0 <= k < |rs| ==> Ordered(rs[k])
  }

  /** workspace_slots.c:242-269.  The fragments never overlap and never leave the
      uncovered region; while the buffer suffices they are exactly that region. */
  lemma {:induction false} FragmentsAreRegion(outer: Rect, occluders: seq<Rect>)
    requires AllOrdered(occluders)
    ensures PairwiseDisjoint(Fragments(outer, occluders))
    ensures forall x, y :: CoveredBy(Fragments(outer, occluders), x, y) ==>
              Covers(outer, x, y) && !CoveredBy(occluders, x, y)
    ensures BufferSuffices(outer, occluders) ==>
              forall x, y :: CoveredBy(Fragments(outer, occluders), x, y) <==>
                Covers(outer, x, y) && !CoveredBy(occluders, x, y)
    decreases |occluders|
  {
    if occluders == [] {
      assert forall x, y :: Covers(outer, x, y) ==> Covers([outer][0], x, y);
    } else {
      var n := |occluders| - 1;
      var front, last := occluders[..n], occluders[n];
      FragmentsAreRegion(outer, front);
      SubtractFromExact(Fragments(outer, front), last);
      TruncateKeeps(SubtractFrom(Fragments(outer, front), last), MAX_FRAGMENTS);
      assert occluders == front + [last];
      forall x, y ensures CoveredBy(occluders, x, y) <==> CoveredBy(front, x, y) || Covers(last, x, y) {
        CoveredByConcat(front, [last], x, y);
        assert Covers(last, x, y) ==> Covers([last][0], x, y);
      }
    }
  }

  // ---- Measuring ----

  /** What one fragment adds: its content, clipped to each monitor in turn. */
  function PiecesOf(fragment: Rect, content: Rect, clips: seq<Rect>): seq<Rect> {
    var inner := Intersect(fragment, content);
    if clips == [] then [inner] else seq(|clips|, c requires 0 <= c < |clips| => Intersect(inner, clips[c]))
  }

  function Pieces(fragments: seq<Rect>, content: Rect, clips: seq<Rect>): seq<Rect> {
    if fragments == [] then []
    else Pieces(fragments[..|fragments| - 1], content, clips) + PiecesOf(fragments[|fragments| - 1], content, clips)
  }

  function SumAreas(rs: seq<Rect>): int {
    if rs == [] then 0 else SumAreas(rs[..|rs| - 1]) + Area(rs[|rs| - 1])
  }

  /** `r` is the first rectangle of largest area. */
  predicate IsLargest(rs: seq<Rect>, r: Rect) {
    exists k :: 0 <= k < |rs| && rs[k] == r
      && (forall q :: 0 <= q < |rs| ==> Area(rs[q]) <= Area(r))
      && (forall q :: 0 <= q < k ==> Area(rs[q]) < Area(r))
  }

  /** C division by two, which truncates toward zero. */
  function Half(a: int): int {
    if a >= 0 then a / 2 else -((-a) / 2)
  }

  /** The out-parameters of the call. */
  datatype Measure = Measure(visibleArea: int, largestArea: int, largest: Rect, overlayX: int, overlayY: int)

  const NOTHING_VISIBLE := Measure(0, 0, EMPTY_RECT, 0, 0)

  function Fraction(area: int, win: WindowPosition): real {
    if win.TotalArea() <= 0 then 0.0 else area as real / win.TotalArea() as real
  }

  /** `m` measures the pieces. */
  predicate Measures(m: Measure, pieces: seq<Rect>) {
    && m.visibleArea == SumAreas(pieces)
    && (m.largestArea == 0 ==>
          m.largest == EMPTY_RECT && m.overlayX == m.overlayY == 0
          && forall q :: 0 <= q < |pieces| ==> Area(pieces[q]) == 0)
    && (m.largestArea != 0 ==>
          m.largestArea == Area(m.largest) > 0 && IsLargest(pieces, m.largest)
          && m.overlayX == Half(m.largest.x1 + m.largest.x2)
          && m.overlayY == Half(m.largest.y1 + m.largest.y2))
  }

  /** The pieces one call measures. */
  function WindowPieces(win: WindowPosition, pos: int, all: seq<WindowPosition>, stack: Stacking, clips: seq<Rect>)
    : seq<Rect>
  {
    if win.TotalArea() <= 0 then []
    else Pieces(Fragments(win.Outer(), Occluders(win, pos, all, stack)), win.Content(), clips)
  }

  // ---- The program ----

  method CollectOccluders(win: WindowPosition, pos: int, all: seq<WindowPosition>, stack: Stacking,
                          occluders: array<Rect>) returns (n: nat)
    requires occluders.Length == MAX_OCCLUDERS
    modifies occluders
    ensures n <= MAX_OCCLUDERS && occluders[..n] == Occluders(win, pos, all, stack)
  {
    n := 0;
    var i := 0;
    var useStack := stack.known && pos >= 0;
    if !useStack {
      NoStackNoOccluders(win, pos, all, stack);
      return;
    }
    while i < |all| && n < MAX_OCCLUDERS
      invariant i <= |all| && n <= MAX_OCCLUDERS
      invariant occluders[..n] == AllOccluders(win, pos, all[..i], stack)
    {
      assert all[..i + 1][..i] == all[..i];
      var other := all[i];
      i := i + 1;
      if other.id == win.id { continue; }
      var otherPos := GetStackPosition(other.id, stack.ids);
      if otherPos <= pos { continue; }
      var r := Overlap(win, other);
      if r.x2 > r.x1 && r.y2 > r.y1 {
        occluders[n], n := r, n + 1;
      }
    }
    OccludersPrefix(win, pos, all, stack, i);
    assert all[..|all|] == all;
  }

  lemma {:induction false} NoStackNoOccluders(win: WindowPosition, pos: int, all: seq<WindowPosition>, stack: Stacking)
    requires !(stack.known && pos >= 0)
    ensures AllOccluders(win, pos, all, stack) == []
  {
    if all != [] {
      NoStackNoOccluders(win, pos, all[..|all| - 1], stack);
    }
  }

  lemma {:induction false} OccludersPrefix(win: WindowPosition, pos: int, all: seq<WindowPosition>,
                                           stack: Stacking, i: nat)
    requires i <= |all|
    ensures AllOccluders(win, pos, all[..i], stack) <= AllOccluders(win, pos, all, stack)
  {
    if i < |all| {
      var front := all[..|all| - 1];
      assert front[..i] == all[..i];
      OccludersPrefix(win, pos, front, stack, i);
    } else {
      assert all[..i] == all;
    }
  }

  /** Subtract one occluder from the fragments in `visible[..count]`. */
  method SubtractOccluder(visible: array<Rect>, count: nat, b: Rect) returns (newCount: nat)
    requires visible.Length == MAX_FRAGMENTS && count <= MAX_FRAGMENTS
    modifies visible
    ensures newCount <= MAX_FRAGMENTS
    ensures visible[..newCount] == Truncate(SubtractFrom(old(visible[..count]), b), MAX_FRAGMENTS)
  {
    hide SubtractFrom, Subtract, Truncate;
    NoFragments(b);
    ghost var rs := visible[..count];
    var added, split := new Rect[MAX_FRAGMENTS](_ => EMPTY_RECT), new Rect[4](_ => EMPTY_RECT);
    newCount := 0;
    for v := 0 to count
      invariant newCount <= MAX_FRAGMENTS && visible[..count] == rs
      invariant added[..newCount] == Truncate(SubtractFrom(rs[..v], b), MAX_FRAGMENTS)
    {
      var n := RectSubtract(visible[v], b, split);
      ghost var done := SubtractFrom(rs[..v], b);
      assert rs[..v + 1] == rs[..v] + [rs[v]];
      SubtractFromStep(rs[..v], rs[v], b);
      var s := 0;
      while s < n && newCount < MAX_FRAGMENTS
        invariant s <= n && newCount <= MAX_FRAGMENTS && visible[..count] == rs
        invariant split[..n] == Subtract(rs[v], b)
        invariant added[..newCount] == Truncate(done + split[..s], MAX_FRAGMENTS)
      {
        assert done + split[..s + 1] == done + split[..s] + [split[s]];
        added[newCount], s, newCount := split[s], s + 1, newCount + 1;
      }
      TruncateConcat(done, split[..n], s);
    }
    assert rs[..count] == rs;
    for v := 0 to newCount
      invariant forall q :: 0 <= q < v ==> visible[q] == added[q]
      invariant added[..newCount] == Truncate(SubtractFrom(rs, b), MAX_FRAGMENTS)
    {
      visible[v] := added[v];
    }
    assert visible[..newCount] == added[..newCount];
  }

  lemma {:induction false} NoFragments(b: Rect)
    ensures SubtractFrom([], b) == []
  {
  }

  lemma {:induction false} TruncateConcat(a: seq<Rect>, b: seq<Rect>, s: nat)
    requires s <= |b| && (s == |b| || |Truncate(a + b[..s], MAX_FRAGMENTS)| == MAX_FRAGMENTS)
    ensures Truncate(a + b[..s], MAX_FRAGMENTS) == Truncate(a + b, MAX_FRAGMENTS)
  {
    if s < |b| {
      assert a + b == a + b[..s] + b[s..];
    } else {
      assert b[..s] == b;
    }
  }

  lemma {:induction false} SumAreasStep(pieces: seq<Rect>, r: Rect)
    ensures SumAreas(pieces + [r]) == SumAreas(pieces) + Area(r) && Area(r) >= 0
  {
    assert (pieces + [r])[..|pieces|] == pieces;
  }

  /** Fold one piece into the running sum and the running largest.  A piece of
      area 0, which the source skips, leaves both as they are. */
  method Accumulate(m: Measure, ghost pieces: seq<Rect>, r: Rect) returns (m': Measure)
    requires m.overlayX == m.overlayY == 0 && Tracks(m, pieces)
    ensures m'.overlayX == m'.overlayY == 0 && Tracks(m', pieces + [r])
  {
    hide Area, SumAreas;
    SumAreasStep(pieces, r);
    var area := Area(r);
    m' := m.(visibleArea := m.visibleArea + area);
    if area > m.largestArea {
      m' := m'.(largestArea := area, largest := r);
      assert (pieces + [r])[|pieces|] == r;
    } else if m.largestArea > 0 {
      ghost var k :| 0 <= k < |pieces| && pieces[k] == m.largest
        && (forall q :: 0 <= q < |pieces| ==> Area(pieces[q]) <= Area(m.largest))
        && (forall q :: 0 <= q < k ==> Area(pieces[q]) < Area(m.largest));
      assert (pieces + [r])[k] == m.largest;
    }
  }

  /** `Measures` before the overlay centre is set. */
  predicate Tracks(m: Measure, pieces: seq<Rect>) {
    && m.visibleArea == SumAreas(pieces)
    && (m.largestArea == 0 ==> m.largest == EMPTY_RECT && forall q :: 0 <= q < |pieces| ==> Area(pieces[q]) == 0)
    && (m.largestArea != 0 ==> m.largestArea == Area(m.largest) > 0 && IsLargest(pieces, m.largest))
  }

  method VisibleFraction(win: WindowPosition, pos: int, all: seq<WindowPosition>, stack: Stacking, clips: seq<Rect>)
    returns (fraction: real, m: Measure)
    ensures Measures(m, WindowPieces(win, pos, all, stack, clips))
    ensures fraction == Fraction(m.visibleArea, win)
  {
    hide SubtractFrom, Truncate, Intersect, Pieces, AllOccluders, IsLargest, SumAreas, Fragments, Measures;
    hide Occluders, WindowPosition.Outer, WindowPosition.Content, WindowPosition.TotalArea, Subtract, Area;
    NothingMeasures();
    NoPieces(win.Content(), clips);
    var content, total := win.Content(), win.TotalArea();
    if total <= 0 {
      return 0.0, NOTHING_VISIBLE;
    }
    var occluders := new Rect[MAX_OCCLUDERS](_ => EMPTY_RECT);
    var occCount := CollectOccluders(win, pos, all, stack, occluders);
    ghost var occs := occluders[..occCount];
    var visible := new Rect[MAX_FRAGMENTS](_ => EMPTY_RECT);
    visible[0] := win.Outer();
    var count := SubtractAll(win.Outer(), occluders, occCount, visible);
    if count == 0 {
      return 0.0, NOTHING_VISIBLE;
    }
    m := MeasureFragments(visible, count, content, clips);
    fraction := m.visibleArea as real / total as real;
  }

  /** The loop over the occluders, which stops once nothing is left. */
  method SubtractAll(outer: Rect, occluders: array<Rect>, occCount: nat, visible: array<Rect>) returns (count: nat)
    requires occCount <= occluders.Length && occluders != visible
    requires visible.Length == MAX_FRAGMENTS && visible[0] == outer
    modifies visible
    ensures count <= MAX_FRAGMENTS && visible[..count] == Fragments(outer, occluders[..occCount])
  {
    hide SubtractFrom, Truncate, Fragments;
    ghost var occs := occluders[..occCount];
    FragmentsStart(outer);
    count := 1;
    for o := 0 to occCount
      invariant occluders[..occCount] == occs
      invariant 0 <= count <= MAX_FRAGMENTS && visible[..count] == Fragments(outer, occs[..o])
    {
      FragmentsStep(outer, occs, o);
      count := SubtractOccluder(visible, count, occluders[o]);
      if count == 0 {
        NothingLeft(outer, occs, o + 1);
        return;
      }
    }
    assert occs[..occCount] == occs;
  }

  /** Sum the pieces and place the overlay. */
  method MeasureFragments(visible: array<Rect>, count: nat, content: Rect, clips: seq<Rect>) returns (m: Measure)
    requires count <= visible.Length
    ensures Measures(m, Pieces(visible[..count], content, clips))
  {
    hide Pieces, PiecesOf, Intersect, IsLargest, SumAreas;
    NothingMeasures();
    ghost var rs := visible[..count];
    NoPieces(content, clips);
    m := NOTHING_VISIBLE;
    for v := 0 to count
      invariant m.overlayX == m.overlayY == 0
      invariant Tracks(m, Pieces(rs[..v], content, clips))
    {
      ghost var done := Pieces(rs[..v], content, clips);
      PiecesStep(rs, content, clips, v);
      m := MeasureFragment(m, done, visible[v], content, clips);
    }
    assert rs[..count] == rs;
    if m.largestArea > 0 {
      m := m.(overlayX := Half(m.largest.x1 + m.largest.x2), overlayY := Half(m.largest.y1 + m.largest.y2));
    }
  }

  method MeasureFragment(m: Measure, ghost done: seq<Rect>, fragment: Rect, content: Rect, clips: seq<Rect>)
    returns (m': Measure)
    requires m.overlayX == m.overlayY == 0 && Tracks(m, done)
    ensures m'.overlayX == m'.overlayY == 0 && Tracks(m', done + PiecesOf(fragment, content, clips))
  {
    hide Tracks, PiecesOf, Intersect;
    PiecesOfFragment(fragment, content, clips);
    var inner := Intersect(fragment, content);
    m' := m;
    if |clips| == 0 {
      m' := Accumulate(m', done, inner);
    } else {
      ghost var more := PiecesOf(fragment, content, clips);
      assert done + more[..0] == done;
      for c := 0 to |clips|
        invariant m'.overlayX == m'.overlayY == 0 && Tracks(m', done + more[..c])
      {
        assert done + more[..c + 1] == done + more[..c] + [more[c]];
        m' := Accumulate(m', done + more[..c], Intersect(inner, clips[c]));
      }
      assert more[..|clips|] == more;
    }
  }

  lemma {:induction false} PiecesOfFragment(fragment: Rect, content: Rect, clips: seq<Rect>)
    ensures var inner, more := Intersect(fragment, content), PiecesOf(fragment, content, clips);
            if clips == [] then more == [inner]
            else |more| == |clips| && forall c :: 0 <= c < |clips| ==> more[c] == Intersect(inner, clips[c])
  {
    hide Intersect;
  }

  lemma {:induction false} NothingMeasures()
    ensures Measures(NOTHING_VISIBLE, []) && Tracks(NOTHING_VISIBLE, [])
  {
  }

  lemma {:induction false} NoPieces(content: Rect, clips: seq<Rect>)
    ensures Pieces([], content, clips) == []
  {
  }

  lemma {:induction false} FragmentsStart(outer: Rect)
    ensures Fragments(outer, []) == [outer]
  {
  }

  lemma {:induction false} FragmentsStep(outer: Rect, occluders: seq<Rect>, o: nat)
    requires o < |occluders|
    ensures Fragments(outer, occluders[..o + 1])
         == Truncate(SubtractFrom(Fragments(outer, occluders[..o]), occluders[o]), MAX_FRAGMENTS)
  {
    hide SubtractFrom, Truncate;
    assert occluders[..o + 1][..o] == occluders[..o];
  }

  lemma {:induction false} NothingLeft(outer: Rect, occluders: seq<Rect>, o: nat)
    requires o <= |occluders| && Fragments(outer, occluders[..o]) == []
    ensures Fragments(outer, occluders) == []
    decreases |occluders| - o
  {
    hide Fragments, Subtract;
    if o < |occluders| {
      FragmentsStep(outer, occluders, o);
      NothingLeft(outer, occluders, o + 1);
    } else {
      assert occluders[..o] == occluders;
    }
  }

  lemma {:induction false} PiecesStep(rs: seq<Rect>, content: Rect, clips: seq<Rect>, v: nat)
    requires v < |rs|
    ensures Pieces(rs[..v + 1], content, clips) == Pieces(rs[..v], content, clips) + PiecesOf(rs[v], content, clips)
  {
    assert rs[..v + 1][..v] == rs[..v];
  }
}
