/** What one visibility measurement means, in pixels. */
module VisibleArea {
  import opened Geometry
  import opened VisibleRegion

  type Pixel = (int, int)

  // ---- The reference: pixels of the window that can be seen ----

  /** `other` is stacked above the measured window. */
  predicate Above(win: WindowPosition, pos: int, other: WindowPosition, stack: Stacking) {
    stack.known && pos >= 0 && other.id != win.id && StackPos(stack.ids, other.id, 0) > pos
  }

  ghost predicate Hidden(win: WindowPosition, pos: int, all: seq<WindowPosition>, stack: Stacking, x: int, y: int) {
    exists k :: 0 <= k < |all| && Above(win, pos, all[k], stack) && Covers(all[k].Outer(), x, y)
  }

  /** Content pixels under no higher window and on some monitor, if any is known. */
  ghost function VisiblePixels(win: WindowPosition, pos: int, all: seq<WindowPosition>, stack: Stacking,
      clips: seq<Rect>)
    : set<Pixel>
  {
    set p | p in Pixels(win.Content())
      && Covers(win.Outer(), p.0, p.1) && !Hidden(win, pos, all, stack, p.0, p.1)
      && (clips == [] || CoveredBy(clips, p.0, p.1))
  }

  /** Neither fixed buffer cuts anything off. */
  predicate Untruncated(win: WindowPosition, pos: int, all: seq<WindowPosition>, stack: Stacking) {
    && |AllOccluders(win, pos, all, stack)| <= MAX_OCCLUDERS
    && BufferSuffices(win.Outer(), AllOccluders(win, pos, all, stack))
  }

  ghost predicate InTwo(clips: seq<Rect>, x: int, y: int) {
    exists i, j :: 0 <= i < j < |clips| && Covers(clips[i], x, y) && Covers(clips[j], x, y)
  }

  /** Some pixel of `v` lies in two of the clip rectangles. */
  ghost predicate DoubleClipped(v: set<Pixel>, clips: seq<Rect>) {
    exists p :: p in v && InTwo(clips, p.0, p.1)
  }

  // ---- Occluders against the reference ----

  lemma {:induction false} OccludersHide(win: WindowPosition, pos: int, all: seq<WindowPosition>, stack: Stacking,
                                         x: int, y: int)
    requires Covers(win.Outer(), x, y)
    ensures CoveredBy(AllOccluders(win, pos, all, stack), x, y) <==> Hidden(win, pos, all, stack, x, y)
  {
    if all != [] {
      var n := |all| - 1;
      var front, last := all[..n], all[n];
      OccludersHide(win, pos, front, stack, x, y);
      var tail := if Occludes(win, pos, last, stack) then [Overlap(win, last)] else [];
      CoveredByConcat(AllOccluders(win, pos, front, stack), tail, x, y);
      var hides := Above(win, pos, last, stack) && Covers(last.Outer(), x, y);
      assert CoveredBy(tail, x, y) <==> hides by {
        if hides {
          assert Covers(tail[0], x, y);
        }
      }
      assert Hidden(win, pos, all, stack, x, y) <==> Hidden(win, pos, front, stack, x, y) || hides by {
        if k :| 0 <= k < |front| && Above(win, pos, front[k], stack) && Covers(front[k].Outer(), x, y) {
          assert all[k] == front[k];
        }
        if hides {
          assert Above(win, pos, all[n], stack);
        }
      }
    }
  }

  lemma {:induction false} OccludersOrdered(win: WindowPosition, pos: int, all: seq<WindowPosition>, stack: Stacking)
    ensures AllOrdered(AllOccluders(win, pos, all, stack))
  {
    if all != [] {
      OccludersOrdered(win, pos, all[..|all| - 1], stack);
    }
  }

  /** The fragments of a window, as the call computes them. */
  function WindowFragments(win: WindowPosition, pos: int, all: seq<WindowPosition>, stack: Stacking): seq<Rect> {
    Fragments(win.Outer(), Occluders(win, pos, all, stack))
  }

  /** workspace_slots.c:221-269.  Fragments never overlap.  With at most 32
      occluders they hold no hidden pixel, and if moreover the fragment buffer
      suffices they hold every pixel of the window that is not hidden. */
  lemma {:induction false} FragmentsAreUnhidden(win: WindowPosition, pos: int, all: seq<WindowPosition>,
                                                stack: Stacking)
    ensures PairwiseDisjoint(WindowFragments(win, pos, all, stack))
    ensures |AllOccluders(win, pos, all, stack)| <= 32 ==>
              forall x, y :: CoveredBy(WindowFragments(win, pos, all, stack), x, y) ==>
                Covers(win.Outer(), x, y) && !Hidden(win, pos, all, stack, x, y)
    ensures Untruncated(win, pos, all, stack) ==>
              forall x, y :: CoveredBy(WindowFragments(win, pos, all, stack), x, y) <==>
                Covers(win.Outer(), x, y) && !Hidden(win, pos, all, stack, x, y)
  {
    OccludersOrdered(win, pos, all, stack);
    FragmentsAreRegion(win.Outer(), Occluders(win, pos, all, stack));
    forall x, y | Covers(win.Outer(), x, y)
      ensures CoveredBy(AllOccluders(win, pos, all, stack), x, y) <==> Hidden(win, pos, all, stack, x, y)
    {
      OccludersHide(win, pos, all, stack, x, y);
    }
  }

  // ---- Areas as pixel counts ----

  ghost function ContentPixels(fragments: seq<Rect>, content: Rect): set<Pixel> {
    set p | p in Pixels(content) && CoveredBy(fragments, p.0, p.1)
  }

  /** The pixels of `v` counted once for every clip rectangle they lie in. */
  ghost function CountByClip(v: set<Pixel>, clips: seq<Rect>): int {
    if clips == [] then 0 else CountByClip(v, clips[..|clips| - 1]) + |v * Pixels(clips[|clips| - 1])|
  }

  ghost function Counted(v: set<Pixel>, clips: seq<Rect>): int {
    if clips == [] then |v| else CountByClip(v, clips)
  }

  lemma {:induction false} SumAreasConcat(a: seq<Rect>, b: seq<Rect>)
    ensures SumAreas(a + b) == SumAreas(a) + SumAreas(b)
  {
    if b == [] {
      assert a + b == a;
    } else {
      var n := |b| - 1;
      assert (a + b)[..|a| + n] == a + b[..n];
      SumAreasConcat(a, b[..n]);
    }
  }

  lemma {:induction false} CountAdds(v: set<Pixel>, w: set<Pixel>, clips: seq<Rect>)
    requires v !! w
    ensures CountByClip(v + w, clips) == CountByClip(v, clips) + CountByClip(w, clips)
  {
    if clips != [] {
      var c := Pixels(clips[|clips| - 1]);
      CountAdds(v, w, clips[..|clips| - 1]);
      assert (v + w) * c == v * c + w * c;
    }
  }

  lemma {:induction false} ClippedPieces(inner: Rect, clips: seq<Rect>, pieces: seq<Rect>)
    requires |pieces| == |clips| && forall c :: 0 <= c < |clips| ==> pieces[c] == Intersect(inner, clips[c])
    ensures SumAreas(pieces) == CountByClip(Pixels(inner), clips)
  {
    if clips != [] {
      var n := |clips| - 1;
      ClippedPieces(inner, clips[..n], pieces[..n]);
      IntersectPixels(inner, clips[n]);
      AreaCountsPixels(Intersect(inner, clips[n]));
    }
  }

  lemma {:induction false} PiecesOfCount(fragment: Rect, content: Rect, clips: seq<Rect>)
    ensures SumAreas(PiecesOf(fragment, content, clips)) == Counted(Pixels(Intersect(fragment, content)), clips)
  {
    var inner := Intersect(fragment, content);
    if clips == [] {
      AreaCountsPixels(inner);
      assert PiecesOf(fragment, content, clips)[..0] == [];
    } else {
      ClippedPieces(inner, clips, PiecesOf(fragment, content, clips));
    }
  }

  /** The summed area is a pixel count, with multiplicity over the clips. */
  lemma {:induction false} AreaIsCount(fragments: seq<Rect>, content: Rect, clips: seq<Rect>)
    requires PairwiseDisjoint(fragments)
    ensures SumAreas(Pieces(fragments, content, clips)) == Counted(ContentPixels(fragments, content), clips)
  {
    if fragments == [] {
      assert ContentPixels(fragments, content) == {};
      CountNone(clips);
    } else {
      var n := |fragments| - 1;
      var front, last := fragments[..n], fragments[n];
      AreaIsCount(front, content, clips);
      PiecesOfCount(last, content, clips);
      SumAreasConcat(Pieces(front, content, clips), PiecesOf(last, content, clips));
      var v, w := ContentPixels(front, content), Pixels(Intersect(last, content));
      SplitContent(fragments, content);
      CountAdds(v, w, clips);
    }
  }

  lemma {:induction false} CountNone(clips: seq<Rect>)
    ensures CountByClip({}, clips) == 0
  {
    if clips != [] {
      CountNone(clips[..|clips| - 1]);
      assert {} * Pixels(clips[|clips| - 1]) == {};
    }
  }

  lemma {:induction false} SplitContent(fragments: seq<Rect>, content: Rect)
    requires fragments != [] && PairwiseDisjoint(fragments)
    ensures var n := |fragments| - 1;
            var v, w := ContentPixels(fragments[..n], content), Pixels(Intersect(fragments[n], content));
            v !! w && ContentPixels(fragments, content) == v + w
  {
    var n := |fragments| - 1;
    var front, last := fragments[..n], fragments[n];
    IntersectPixels(last, content);
    assert fragments == front + [last];
    forall p: Pixel ensures CoveredBy(fragments, p.0, p.1) <==> CoveredBy(front, p.0, p.1) || p in Pixels(last) {
      CoveredByConcat(front, [last], p.0, p.1);
      assert Covers(last, p.0, p.1) ==> Covers([last][0], p.0, p.1);
    }
    forall p: Pixel | p in Pixels(last) ensures !CoveredBy(front, p.0, p.1) {
      assert Covers(last, p.0, p.1);
      forall i | 0 <= i < n ensures !Covers(front[i], p.0, p.1) {
        assert Disjoint(fragments[i], fragments[n]);
      }
    }
  }

  // ---- Counting with multiplicity against counting once ----

  ghost function Clipped(v: set<Pixel>, clips: seq<Rect>): set<Pixel> {
    set p | p in v && CoveredBy(clips, p.0, p.1)
  }

  lemma {:induction false} CountIsExactIff(v: set<Pixel>, clips: seq<Rect>)
    ensures CountByClip(v, clips) >= |Clipped(v, clips)|
    ensures CountByClip(v, clips) == |Clipped(v, clips)| <==> !DoubleClipped(v, clips)
  {
    if clips == [] {
      assert Clipped(v, clips) == {};
    } else {
      var n := |clips| - 1;
      var front, c := clips[..n], Pixels(clips[n]);
      CountIsExactIff(v, front);
      ClippedStep(v, clips);
      UnionSize(Clipped(v, front), v * c);
      DoubleClippedStep(v, clips);
    }
  }

  lemma {:induction false} UnionSize(a: set<Pixel>, b: set<Pixel>)
    ensures |a + b| == |a| + |b| - |a * b|
  {
    assert a + b == a + (b - a) && b == (b - a) + a * b;
  }

  lemma {:induction false} ClippedStep(v: set<Pixel>, clips: seq<Rect>)
    requires clips != []
    ensures Clipped(v, clips) == Clipped(v, clips[..|clips| - 1]) + v * Pixels(clips[|clips| - 1])
  {
    var n := |clips| - 1;
    assert clips == clips[..n] + [clips[n]];
    forall p: Pixel ensures CoveredBy(clips, p.0, p.1) <==> CoveredBy(clips[..n], p.0, p.1) || p in Pixels(clips[n]) {
      CoveredByConcat(clips[..n], [clips[n]], p.0, p.1);
      assert Covers(clips[n], p.0, p.1) ==> Covers([clips[n]][0], p.0, p.1);
    }
  }

  lemma {:induction false} InTwoStep(clips: seq<Rect>, x: int, y: int)
    requires clips != []
    ensures var n := |clips| - 1;
            InTwo(clips, x, y) <==> InTwo(clips[..n], x, y) || (CoveredBy(clips[..n], x, y) && Covers(clips[n], x, y))
  {
    var n := |clips| - 1;
    var front := clips[..n];
    if i, j :| 0 <= i < j < |clips| && Covers(clips[i], x, y) && Covers(clips[j], x, y) {
      assert Covers(front[i], x, y);
      if j < n {
        assert Covers(front[j], x, y);
      }
    }
    if i, j :| 0 <= i < j < |front| && Covers(front[i], x, y) && Covers(front[j], x, y) {
      assert Covers(clips[i], x, y) && Covers(clips[j], x, y);
    }
    if i :| 0 <= i < |front| && Covers(front[i], x, y) {
      assert Covers(clips[i], x, y);
    }
  }

  lemma {:induction false} DoubleClippedStep(v: set<Pixel>, clips: seq<Rect>)
    requires clips != []
    ensures var n := |clips| - 1;
            DoubleClipped(v, clips) <==>
              DoubleClipped(v, clips[..n]) || |Clipped(v, clips[..n]) * (v * Pixels(clips[n]))| > 0
  {
    hide InTwo, CoveredBy;
    var n := |clips| - 1;
    var front := clips[..n];
    var twice := Clipped(v, front) * (v * Pixels(clips[n]));
    forall p: Pixel | p in v
      ensures InTwo(clips, p.0, p.1) <==> InTwo(front, p.0, p.1) || p in twice
    {
      InTwoStep(clips, p.0, p.1);
    }
    if p :| p in v && InTwo(clips, p.0, p.1) {
      assert InTwo(front, p.0, p.1) || p in twice;
    }
    if |twice| > 0 {
      var p :| p in twice;
      assert InTwo(clips, p.0, p.1);
    }
  }

  // ---- Main results ----

  /** The content pixels the fragments of one call contain. */
  ghost function SeenPixels(win: WindowPosition, pos: int, all: seq<WindowPosition>, stack: Stacking): set<Pixel> {
    ContentPixels(WindowFragments(win, pos, all, stack), win.Content())
  }

  lemma {:induction false} SeenAreVisible(win: WindowPosition, pos: int, all: seq<WindowPosition>, stack: Stacking,
                                          clips: seq<Rect>)
    requires Untruncated(win, pos, all, stack)
    ensures VisiblePixels(win, pos, all, stack, clips)
         == (if clips == [] then SeenPixels(win, pos, all, stack) else Clipped(SeenPixels(win, pos, all, stack), clips))
  {
    FragmentsAreUnhidden(win, pos, all, stack);
  }

  /** workspace_slots.c:271-312.  Without truncation the summed area is at least
      the number of visible pixels, and equals it exactly when no visible pixel
      of the window lies on two monitors. */
  lemma {:induction false} AreaCountsVisiblePixels(win: WindowPosition, pos: int, all: seq<WindowPosition>,
                                                   stack: Stacking, clips: seq<Rect>)
    requires win.TotalArea() > 0 && Untruncated(win, pos, all, stack)
    ensures var area := SumAreas(WindowPieces(win, pos, all, stack, clips));
            && area >= |VisiblePixels(win, pos, all, stack, clips)|
            && (area == |VisiblePixels(win, pos, all, stack, clips)| <==>
                !DoubleClipped(VisiblePixels(win, pos, all, stack, clips), clips))
  {
    FragmentsAreUnhidden(win, pos, all, stack);
    AreaIsCount(WindowFragments(win, pos, all, stack), win.Content(), clips);
    SeenAreVisible(win, pos, all, stack, clips);
    var seen := SeenPixels(win, pos, all, stack);
    if clips != [] {
      CountIsExactIff(seen, clips);
      DoubleClippedSeen(seen, clips);
    }
  }

  lemma {:induction false} DoubleClippedSeen(v: set<Pixel>, clips: seq<Rect>)
    ensures DoubleClipped(v, clips) <==> DoubleClipped(Clipped(v, clips), clips)
  {
    if p :| p in v && InTwo(clips, p.0, p.1) {
      assert p in Clipped(v, clips);
    }
  }

  /** Two mirrored monitors count every pixel twice: a fully visible window is
      reported as visible to 200 percent. */
  lemma {:induction false} MirroredMonitorsCountTwice()
    ensures var win := WindowPosition(1, 0, 0, 10, 10, Extents(0, 0, 0, 0));
            var screen := Rect(0, 0, 100, 100);
            var pieces := WindowPieces(win, -1, [win], Stacking(false, []), [screen, screen]);
            SumAreas(pieces) == 200 && Fraction(SumAreas(pieces), win) == 2.0
  {
    var win := WindowPosition(1, 0, 0, 10, 10, Extents(0, 0, 0, 0));
    var screen := Rect(0, 0, 100, 100);
    var stack := Stacking(false, []);
    hide WindowPieces, Pieces, SumAreas, Intersect, Fraction;
    var outer := Rect(0, 0, 10, 10);
    assert win.Outer() == win.Content() == outer && win.TotalArea() == 100;
    UnstackedPieces(win, [screen, screen]);
    MirroredPieces(outer, screen);
    AreaTwice(outer);
    TwofoldFraction(win);
  }

  lemma {:induction false} UnstackedPieces(win: WindowPosition, clips: seq<Rect>)
    requires win.TotalArea() > 0
    ensures WindowPieces(win, -1, [win], Stacking(false, []), clips) == Pieces([win.Outer()], win.Content(), clips)
  {
    hide Pieces, Fragments, AllOccluders, WindowPosition.Outer, WindowPosition.Content, WindowPosition.TotalArea;
    NoStackNoOccluders(win, -1, [win], Stacking(false, []));
    FragmentsStart(win.Outer());
  }

  lemma {:induction false} TwofoldFraction(win: WindowPosition)
    requires win.TotalArea() == 100
    ensures Fraction(200, win) == 2.0
  {
    hide WindowPosition.TotalArea;
  }

  lemma {:induction false} MirroredPieces(outer: Rect, screen: Rect)
    requires 0 == screen.x1 == outer.x1 && 0 == screen.y1 == outer.y1
    requires 0 < outer.x2 <= screen.x2 && 0 < outer.y2 <= screen.y2
    ensures Pieces([outer], outer, [screen, screen]) == [outer, outer]
  {
    hide Pieces, PiecesOf;
    var screens := [screen, screen];
    PiecesStep([outer], outer, screens, 0);
    NoPieces(outer, screens);
    PiecesOfFragment(outer, outer, screens);
    assert [outer][..1] == [outer] && [outer][..0] == [];
    assert PiecesOf(outer, outer, screens) == [outer, outer];
  }

  lemma {:induction false} AreaTwice(r: Rect)
    ensures SumAreas([r, r]) == 2 * Area(r)
  {
    hide Area;
    assert [r, r][..1] == [r] && [r][..0] == [];
    assert SumAreas([r]) == SumAreas([]) + Area(r);
  }

  /** Truncated or not, a window on non-overlapping monitors is visible to
      between 0 and 100 percent. */
  lemma {:induction false} FractionInRange(win: WindowPosition, pos: int, all: seq<WindowPosition>,
                                           stack: Stacking, clips: seq<Rect>)
    requires !DoubleClipped(Pixels(win.Content()), clips)
    ensures 0.0 <= Fraction(SumAreas(WindowPieces(win, pos, all, stack, clips)), win) <= 1.0
  {
    hide Fragments, Occluders, CountByClip, Pieces, SumAreas, Intersect, CoveredBy, BufferSuffices;
    if win.TotalArea() > 0 {
      var seen, content := SeenPixels(win, pos, all, stack), win.Content();
      FragmentsAreUnhidden(win, pos, all, stack);
      AreaIsCount(WindowFragments(win, pos, all, stack), content, clips);
      CountIsExactIff(seen, clips);
      var area := SumAreas(WindowPieces(win, pos, all, stack, clips));
      SubsetSize(seen, Pixels(content));
      SubsetSize(Clipped(seen, clips), Pixels(content));
      AreaCountsPixels(content);
      assert 0 <= area <= Area(content) <= win.TotalArea();
      FractionBounds(area, win.TotalArea());
    }
  }

  lemma {:induction false} SubsetSize(a: set<Pixel>, b: set<Pixel>)
    requires a <= b
    ensures |a| <= |b|
  {
    assert b == a + (b - a);
  }

  lemma {:induction false} FractionBounds(a: int, b: int)
    requires 0 <= a <= b && b > 0
    ensures 0.0 <= a as real / b as real <= 1.0
  {
  }

  /** Two arrays holding the same windows measure the same area, whatever their
      order, as long as nothing is truncated. */
  lemma {:induction false} AreaIgnoresOrder(win: WindowPosition, pos: int, a: seq<WindowPosition>,
                                            b: seq<WindowPosition>,
                         stack: Stacking, clips: seq<Rect>)
    requires forall w :: w in a <==> w in b
    requires win.TotalArea() > 0 && Untruncated(win, pos, a, stack) && Untruncated(win, pos, b, stack)
    ensures SumAreas(WindowPieces(win, pos, a, stack, clips)) == SumAreas(WindowPieces(win, pos, b, stack, clips))
  {
    FragmentsAreUnhidden(win, pos, a, stack);
    FragmentsAreUnhidden(win, pos, b, stack);
    AreaIsCount(WindowFragments(win, pos, a, stack), win.Content(), clips);
    AreaIsCount(WindowFragments(win, pos, b, stack), win.Content(), clips);
    forall x, y ensures Hidden(win, pos, a, stack, x, y) <==> Hidden(win, pos, b, stack, x, y) {
      HiddenMonotone(win, pos, a, b, stack, x, y);
      HiddenMonotone(win, pos, b, a, stack, x, y);
    }
    assert SeenPixels(win, pos, a, stack) == SeenPixels(win, pos, b, stack);
  }

  lemma {:induction false} HiddenMonotone(win: WindowPosition, pos: int, a: seq<WindowPosition>,
                                          b: seq<WindowPosition>, stack: Stacking,
                       x: int, y: int)
    requires forall w :: w in a ==> w in b
    ensures Hidden(win, pos, a, stack, x, y) ==> Hidden(win, pos, b, stack, x, y)
  {
    if k :| 0 <= k < |a| && Above(win, pos, a[k], stack) && Covers(a[k].Outer(), x, y) {
      assert a[k] in b;
      var q :| 0 <= q < |b| && b[q] == a[k];
    }
  }

  // ---- The overlay centre ----

  /** The centre computed for a non-empty rectangle lies inside it, except that
      truncation toward zero leaves a one-pixel side at a negative coordinate. */
  lemma {:induction false} CentreInsideIff(r: Rect)
    requires NonEmpty(r)
    ensures Covers(r, Half(r.x1 + r.x2), Half(r.y1 + r.y2)) <==>
            !(r.x2 == r.x1 + 1 && r.x1 < 0) && !(r.y2 == r.y1 + 1 && r.y1 < 0)
  {
    HalfWay(r.x1, r.x2);
    HalfWay(r.y1, r.y2);
  }

  lemma {:induction false} HalfWay(lo: int, hi: int)
    requires lo < hi
    ensures lo <= Half(lo + hi) < hi <==> !(hi == lo + 1 && lo < 0)
  {
  }

  lemma {:induction false} PieceSource(fragments: seq<Rect>, content: Rect, clips: seq<Rect>, k: nat) returns (v: nat)
    requires k < |Pieces(fragments, content, clips)|
    ensures v < |fragments|
    ensures var piece := Pieces(fragments, content, clips)[k];
            && (clips == [] ==> piece == Intersect(fragments[v], content))
            && (clips != [] ==> exists c ::
                  0 <= c < |clips| && piece == Intersect(Intersect(fragments[v], content), clips[c]))
  {
    var n := |fragments| - 1;
    var done := Pieces(fragments[..n], content, clips);
    if k < |done| {
      v := PieceSource(fragments[..n], content, clips, k);
    } else {
      v := n;
      assert Pieces(fragments, content, clips)[k] == PiecesOf(fragments[n], content, clips)[k - |done|];
    }
  }

  /** workspace_slots.c:302-312 and 559-563.  A window that passes the minimum
      size test gets its overlay on a pixel of its own that can be seen. */
  lemma {:induction false} OverlayIsVisible(win: WindowPosition, pos: int, all: seq<WindowPosition>,
                                            stack: Stacking, clips: seq<Rect>,
                         m: Measure)
    requires Measures(m, WindowPieces(win, pos, all, stack, clips)) && m.largestArea > 0
    requires m.largest.x2 - m.largest.x1 >= 8 && m.largest.y2 - m.largest.y1 >= 8
    requires |AllOccluders(win, pos, all, stack)| <= 32
    ensures (m.overlayX, m.overlayY) in VisiblePixels(win, pos, all, stack, clips)
  {
    hide Fragments, AllOccluders, Pieces, SumAreas, Intersect, BufferSuffices, Hidden;
    var pieces, fragments := WindowPieces(win, pos, all, stack, clips), WindowFragments(win, pos, all, stack);
    var x, y := m.overlayX, m.overlayY;
    CentreInsideIff(m.largest);
    var k :| 0 <= k < |pieces| && pieces[k] == m.largest;
    var v := PieceSource(fragments, win.Content(), clips, k);
    assert Covers(fragments[v], x, y) && Covers(win.Content(), x, y);
    assert CoveredBy(fragments, x, y);
    if clips != [] {
      var c :| 0 <= c < |clips| && m.largest == Intersect(Intersect(fragments[v], win.Content()), clips[c]);
      assert Covers(clips[c], x, y);
    }
    FragmentsAreUnhidden(win, pos, all, stack);
    assert (x, y) in Pixels(win.Content());
  }
}
