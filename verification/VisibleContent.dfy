/** Which pixels of a window count as visible, read off the frame extents, the
    stacking order and the monitors alone (src/harpoon/workspace_slots.c:174-313). */
module VisibleContent {
  import opened Geometry
  import opened VisibleRegion
  import opened VisibleArea

  predicate InWindow(win: WindowPosition, x: int, y: int) {
    win.x <= x < win.x + win.w && win.y <= y < win.y + win.h
  }

  /** Not under the decorations; a negative extent decorates nothing. */
  predicate InsideFrame(win: WindowPosition, x: int, y: int) {
    && InWindow(win, x, y)
    && win.x + win.frame.left <= x && x < win.x + win.w - win.frame.right
    && win.y + win.frame.top <= y && y < win.y + win.h - win.frame.bottom
  }

  /** A window all of frame counts as a whole. */
  ghost predicate IsContent(win: WindowPosition, x: int, y: int) {
    InsideFrame(win, x, y) || (InWindow(win, x, y) && forall u, v :: !InsideFrame(win, u, v))
  }

  lemma {:induction false} ContentPixelIff(win: WindowPosition, x: int, y: int)
    ensures (x, y) in Pixels(win.Content()) <==> IsContent(win, x, y)
    ensures Covers(win.Content(), x, y) <==> IsContent(win, x, y)
  {
    if (forall u, v :: !InsideFrame(win, u, v)) && win.w > 0 && win.h > 0 {
      var u := win.x + if win.frame.left > 0 then win.frame.left else 0;
      var v := win.y + if win.frame.top > 0 then win.frame.top else 0;
      assert !InsideFrame(win, u, v);
    }
  }

  /** The other window comes later in the stack. */
  predicate StackedOver(other: WindowPosition, win: WindowPosition, stack: Stacking) {
    stack.known && exists i, j :: 0 <= i < j < |stack.ids| && stack.ids[i] == win.id && stack.ids[j] == other.id
  }

  ghost predicate Covered(win: WindowPosition, all: seq<WindowPosition>, stack: Stacking, x: int, y: int) {
    exists k :: 0 <= k < |all| && StackedOver(all[k], win, stack) && InWindow(all[k], x, y)
  }

  ghost predicate OnMonitor(clips: seq<Rect>, x: int, y: int) {
    clips == [] || exists c :: 0 <= c < |clips| && clips[c].x1 <= x < clips[c].x2 && clips[c].y1 <= y < clips[c].y2
  }

  /** The window's place in the stack, or -1, as its caller looks it up; no window
      is stacked twice. */
  predicate StackedAt(win: WindowPosition, pos: int, stack: Stacking) {
    && (forall i, j :: 0 <= i < j < |stack.ids| ==> stack.ids[i] != stack.ids[j])
    && (if pos >= 0 then pos < |stack.ids| && stack.ids[pos] == win.id else win.id !in stack.ids)
  }

  lemma {:induction false} StackPosIs(ids: seq<int>, id: int, i: nat, p: nat)
    requires i <= p < |ids| && ids[p] == id && forall q :: i <= q < p ==> ids[q] != id
    ensures StackPos(ids, id, i) == p
    decreases p - i
  {
    if i < p {
      StackPosIs(ids, id, i + 1, p);
    }
  }

  lemma {:induction false} AboveIff(win: WindowPosition, pos: int, other: WindowPosition, stack: Stacking)
    requires StackedAt(win, pos, stack)
    ensures Above(win, pos, other, stack) <==> StackedOver(other, win, stack)
  {
    if i, j :| 0 <= i < j < |stack.ids| && stack.ids[i] == win.id && stack.ids[j] == other.id {
      assert i == pos;
      StackPosIs(stack.ids, other.id, 0, j);
    }
    var p := StackPos(stack.ids, other.id, 0);
    if Above(win, pos, other, stack) {
      assert stack.ids[pos] == win.id && stack.ids[p] == other.id && pos < p;
    }
  }

  lemma {:induction false} HiddenIff(win: WindowPosition, pos: int, all: seq<WindowPosition>, stack: Stacking,
                                     x: int, y: int)
    requires StackedAt(win, pos, stack)
    ensures Hidden(win, pos, all, stack, x, y) <==> Covered(win, all, stack, x, y)
  {
    hide Above, StackedAt, StackedOver;
    forall k | 0 <= k < |all| ensures Above(win, pos, all[k], stack) <==> StackedOver(all[k], win, stack) {
      AboveIff(win, pos, all[k], stack);
    }
    forall k | 0 <= k < |all| ensures Covers(all[k].Outer(), x, y) <==> InWindow(all[k], x, y) {
    }
  }

  /** A pixel is visible if it is content, no window above covers it, and some
      monitor shows it. */
  lemma {:induction false} VisiblePixelIff(win: WindowPosition, pos: int, all: seq<WindowPosition>, stack: Stacking,
                                           clips: seq<Rect>, x: int, y: int)
    requires StackedAt(win, pos, stack)
    ensures (x, y) in VisiblePixels(win, pos, all, stack, clips) <==>
            IsContent(win, x, y) && !Covered(win, all, stack, x, y) && OnMonitor(clips, x, y)
  {
    hide Covered, IsContent, StackedAt, Hidden, WindowPosition.Content;
    ContentPixelIff(win, x, y);
    ContentIsInside(win, x, y);
    HiddenIff(win, pos, all, stack, x, y);
  }

  lemma {:induction false} ContentIsInside(win: WindowPosition, x: int, y: int)
    ensures IsContent(win, x, y) ==> Covers(win.Outer(), x, y)
  {
  }

  /** A window shows no content, whatever of its frame still shows, exactly when its
      area is zero. */
  lemma {:induction false} AreaIsZeroIff(win: WindowPosition, pos: int, all: seq<WindowPosition>, stack: Stacking,
                                         clips: seq<Rect>)
    requires StackedAt(win, pos, stack) && win.TotalArea() > 0 && Untruncated(win, pos, all, stack)
    ensures SumAreas(WindowPieces(win, pos, all, stack, clips)) == 0 <==>
            forall x, y :: IsContent(win, x, y) && OnMonitor(clips, x, y) ==> Covered(win, all, stack, x, y)
  {
    hide IsContent, Covered, OnMonitor, StackedAt, SumAreas, WindowPieces, Untruncated, VisiblePixels, DoubleClipped;
    hide WindowPosition.TotalArea;
    var seen := VisiblePixels(win, pos, all, stack, clips);
    AreaCountsVisiblePixels(win, pos, all, stack, clips);
    forall x, y
      ensures (x, y) in seen <==> (IsContent(win, x, y) && !Covered(win, all, stack, x, y) && OnMonitor(clips, x, y))
    {
      VisiblePixelIff(win, pos, all, stack, clips, x, y);
    }
    if seen == {} {
      NothingTwice(clips);
    } else {
      var p: Pixel :| p in seen;
      assert (p.0, p.1) in seen && |seen| > 0;
      assert IsContent(win, p.0, p.1) && OnMonitor(clips, p.0, p.1) && !Covered(win, all, stack, p.0, p.1);
    }
  }

  lemma {:induction false} NothingTwice(clips: seq<Rect>)
    ensures !DoubleClipped({}, clips)
  {
  }

  /** workspace_slots.c:300-302.  Decoration that peeks out from behind other windows
      does not count. */
  lemma {:induction false} FrameAloneIsNothing(win: WindowPosition, pos: int, all: seq<WindowPosition>,
                                               stack: Stacking, clips: seq<Rect>)
    requires StackedAt(win, pos, stack) && Untruncated(win, pos, all, stack)
    requires exists x, y :: InsideFrame(win, x, y)
    requires forall x, y :: InWindow(win, x, y) && !Covered(win, all, stack, x, y) ==> !InsideFrame(win, x, y)
    ensures SumAreas(WindowPieces(win, pos, all, stack, clips)) == 0
  {
    hide Covered, OnMonitor, StackedAt, SumAreas, Untruncated, Pieces, Fragments, Occluders;
    if win.TotalArea() > 0 {
      AreaIsZeroIff(win, pos, all, stack, clips);
    } else {
      NothingSummed();
    }
  }

  lemma {:induction false} NothingSummed()
    ensures SumAreas([]) == 0
  {
  }

  ghost function ContentOf(win: WindowPosition): set<Pixel> {
    set p | p in Pixels(win.Outer()) && IsContent(win, p.0, p.1)
  }

  ghost function VisibleOf(win: WindowPosition, all: seq<WindowPosition>, stack: Stacking, clips: seq<Rect>)
    : set<Pixel>
  {
    set p | p in ContentOf(win) && !Covered(win, all, stack, p.0, p.1) && OnMonitor(clips, p.0, p.1)
  }

  /** The reported fraction is the number of visible pixels over the number of
      content pixels. */
  lemma {:induction false} FractionIsShare(win: WindowPosition, pos: int, all: seq<WindowPosition>, stack: Stacking,
                                           clips: seq<Rect>)
    requires StackedAt(win, pos, stack) && Untruncated(win, pos, all, stack) && ContentOf(win) != {}
    requires !DoubleClipped(VisibleOf(win, all, stack, clips), clips)
    ensures |ContentOf(win)| > 0
    ensures Fraction(SumAreas(WindowPieces(win, pos, all, stack, clips)), win)
         == |VisibleOf(win, all, stack, clips)| as real / |ContentOf(win)| as real
  {
    hide IsContent, Covered, OnMonitor, StackedAt, SumAreas, WindowPieces, Untruncated, VisiblePixels, DoubleClipped;
    hide WindowPosition.Content;
    ContentCount(win);
    var seen := VisiblePixels(win, pos, all, stack, clips);
    forall p: Pixel ensures p in seen <==> p in VisibleOf(win, all, stack, clips) {
      VisiblePixelIff(win, pos, all, stack, clips, p.0, p.1);
      ContentIsInside(win, p.0, p.1);
    }
    assert seen == VisibleOf(win, all, stack, clips);
    AreaCountsVisiblePixels(win, pos, all, stack, clips);
  }

  lemma {:induction false} ContentCount(win: WindowPosition)
    requires ContentOf(win) != {}
    ensures win.TotalArea() == |ContentOf(win)| > 0
  {
    hide IsContent;
    forall p: Pixel ensures p in ContentOf(win) <==> p in Pixels(win.Content()) {
      ContentPixelIff(win, p.0, p.1);
      ContentIsInside(win, p.0, p.1);
    }
    assert ContentOf(win) == Pixels(win.Content());
    AreaCountsPixels(win.Content());
    var p :| p in ContentOf(win);
    assert p in Pixels(win.Content());
    assert |ContentOf(win)| > 0;
  }

  /** The overlay goes to the middle of the piece with the most pixels, the first of
      them. */
  lemma {:induction false} OverlayInLargestPiece(m: Measure, pieces: seq<Rect>) returns (k: nat)
    requires Measures(m, pieces) && m.largestArea > 0
    ensures k < |pieces|
    ensures forall q :: 0 <= q < |pieces| ==>
              |Pixels(pieces[q])| <= |Pixels(pieces[k])| && (q < k ==> |Pixels(pieces[q])| < |Pixels(pieces[k])|)
    ensures -1 <= 2 * m.overlayX - (pieces[k].x1 + pieces[k].x2) <= 1
    ensures -1 <= 2 * m.overlayY - (pieces[k].y1 + pieces[k].y2) <= 1
  {
    hide SumAreas, Area;
    k :| 0 <= k < |pieces| && pieces[k] == m.largest
      && (forall q :: 0 <= q < |pieces| ==> Area(pieces[q]) <= Area(m.largest))
      && (forall q :: 0 <= q < k ==> Area(pieces[q]) < Area(m.largest));
    forall q | 0 <= q < |pieces| ensures Area(pieces[q]) == |Pixels(pieces[q])| {
      AreaCountsPixels(pieces[q]);
    }
  }

  /** workspace_slots.c:224.  Once 32 windows of the array overlap from above, those
      behind them in the array change nothing. */
  lemma {:induction false} LaterOccludersIgnored(win: WindowPosition, pos: int, all: seq<WindowPosition>,
                                                 stack: Stacking, clips: seq<Rect>, i: nat)
    requires i <= |all| && |AllOccluders(win, pos, all[..i], stack)| >= 32
    ensures WindowPieces(win, pos, all, stack, clips) == WindowPieces(win, pos, all[..i], stack, clips)
    ensures |Occluders(win, pos, all, stack)| == 32
  {
    hide AllOccluders, Pieces, Fragments, WindowPosition.Content, WindowPosition.TotalArea;
    OccludersPrefix(win, pos, all, stack, i);
    var few, many := AllOccluders(win, pos, all[..i], stack), AllOccluders(win, pos, all, stack);
    assert Occluders(win, pos, all, stack) == many[..32] == few[..32] == Occluders(win, pos, all[..i], stack);
  }
}
