/** Axis-aligned rectangles and the pixels they cover (src/harpoon/workspace_slots.c). */
module Geometry {

  /** Top-left corner inclusive, bottom-right corner exclusive. */
  datatype Rect = Rect(x1: int, y1: int, x2: int, y2: int)

  const EMPTY_RECT := Rect(0, 0, 0, 0)

  function MaxOf(a: int, b: int): int { if a > b then a else b }

  function MinOf(a: int, b: int): int { if a < b then a else b }

  predicate Covers(r: Rect, x: int, y: int) {
    r.x1 <= x < r.x2 && r.y1 <= y < r.y2
  }

  ghost function Pixels(r: Rect): set<(int, int)> {
    set x, y | r.x1 <= x < r.x2 && r.y1 <= y < r.y2 :: (x, y)
  }

  predicate Ordered(r: Rect) {
    r.x1 <= r.x2 && r.y1 <= r.y2
  }

  /** rect_intersect */
  function Intersect(a: Rect, b: Rect): (r: Rect)
    ensures forall x, y :: Covers(r, x, y) <==> Covers(a, x, y) && Covers(b, x, y)
  {
    var out := Rect(MaxOf(a.x1, b.x1), MaxOf(a.y1, b.y1), MinOf(a.x2, b.x2), MinOf(a.y2, b.y2));
    if out.x2 <= out.x1 || out.y2 <= out.y1 then EMPTY_RECT else out
  }

  lemma {:induction false} IntersectPixels(a: Rect, b: Rect)
    ensures Pixels(Intersect(a, b)) == Pixels(a) * Pixels(b)
  {
    forall p: (int, int) ensures p in Pixels(Intersect(a, b)) <==> p in Pixels(a) && p in Pixels(b) {
      assert Covers(Intersect(a, b), p.0, p.1) <==> Covers(a, p.0, p.1) && Covers(b, p.0, p.1);
    }
  }

  /** rect_area */
  function Area(r: Rect): int {
    var w, h := r.x2 - r.x1, r.y2 - r.y1;
    if w > 0 && h > 0 then w * h else 0
  }

  ghost function Column(x: int, y1: int, y2: int): set<(int, int)> {
    set y | y1 <= y < y2 :: (x, y)
  }

  lemma {:induction false} ColumnSize(x: int, y1: int, y2: int)
    requires y1 <= y2
    ensures |Column(x, y1, y2)| == y2 - y1
    decreases y2 - y1
  {
    if y1 < y2 {
      ColumnSize(x, y1, y2 - 1);
      assert Column(x, y1, y2) == Column(x, y1, y2 - 1) + {(x, y2 - 1)};
    } else {
      assert Column(x, y1, y2) == {};
    }
  }

  /** The area is the number of pixels, for every rectangle, inverted ones
      included. */
  lemma {:induction false} AreaCountsPixels(r: Rect)
    ensures Area(r) == |Pixels(r)|
    decreases r.x2 - r.x1
  {
    if r.x1 < r.x2 && r.y1 < r.y2 {
      var rest := r.(x2 := r.x2 - 1);
      AreaCountsPixels(rest);
      ColumnSize(r.x2 - 1, r.y1, r.y2);
      assert Pixels(r) == Pixels(rest) + Column(r.x2 - 1, r.y1, r.y2);
      assert Pixels(rest) !! Column(r.x2 - 1, r.y1, r.y2);
      AreaByColumns(r.x2 - r.x1, r.y2 - r.y1);
    } else {
      assert Pixels(r) == {};
    }
  }

  lemma {:induction false} AreaByColumns(w: int, h: int)
    ensures w * h == (w - 1) * h + h
  {
  }

  // ---- Subtraction ----

  predicate Apart(b: Rect, a: Rect) {
    b.x2 <= a.x1 || b.x1 >= a.x2 || b.y2 <= a.y1 || b.y1 >= a.y2
  }

  function Strip(present: bool, r: Rect): seq<Rect> {
    if present then [r] else []
  }

  /** What rect_subtract writes: left, right, top and bottom strip. */
  function Subtract(a: Rect, b: Rect): (out: seq<Rect>)
    ensures |out| <= 4
  {
    if Apart(b, a) then [a]
    else
      var lo, hi := MaxOf(b.x1, a.x1), MinOf(b.x2, a.x2);
      Strip(b.x1 > a.x1, Rect(a.x1, a.y1, b.x1, a.y2))
      + Strip(b.x2 < a.x2, Rect(b.x2, a.y1, a.x2, a.y2))
      + Strip(b.y1 > a.y1, Rect(lo, a.y1, hi, b.y1))
      + Strip(b.y2 < a.y2, Rect(lo, b.y2, hi, a.y2))
  }

  method RectSubtract(a: Rect, b: Rect, out: array<Rect>) returns (n: nat)
    requires out.Length >= 4
    modifies out
    ensures n <= 4 && out[..n] == Subtract(a, b)
  {
    if b.x2 <= a.x1 || b.x1 >= a.x2 || b.y2 <= a.y1 || b.y1 >= a.y2 {
      out[0] := a;
      return 1;
    }
    n := 0;
    if b.x1 > a.x1 {
      out[n], n := Rect(a.x1, a.y1, b.x1, a.y2), n + 1;
    }
    if b.x2 < a.x2 {
      out[n], n := Rect(b.x2, a.y1, a.x2, a.y2), n + 1;
    }
    var lo, hi := if b.x1 > a.x1 then b.x1 else a.x1, if b.x2 < a.x2 then b.x2 else a.x2;
    if b.y1 > a.y1 {
      out[n], n := Rect(lo, a.y1, hi, b.y1), n + 1;
    }
    if b.y2 < a.y2 {
      out[n], n := Rect(lo, b.y2, hi, a.y2), n + 1;
    }
  }

  // ---- Families of rectangles ----

  predicate CoveredBy(rs: seq<Rect>, x: int, y: int) {
    exists i :: 0 <= i < |rs| && Covers(rs[i], x, y)
  }

  ghost predicate PairwiseDisjoint(rs: seq<Rect>) {
    forall i, j :: 0 <= i < j < |rs| ==> Disjoint(rs[i], rs[j])
  }

  ghost predicate Disjoint(a: Rect, b: Rect) {
    forall x, y :: !(Covers(a, x, y) && Covers(b, x, y))
  }

  lemma {:induction false} CoveredByConcat(a: seq<Rect>, b: seq<Rect>, x: int, y: int)
    ensures CoveredBy(a + b, x, y) <==> CoveredBy(a, x, y) || CoveredBy(b, x, y)
  {
    if i :| 0 <= i < |a| && Covers(a[i], x, y) {
      assert Covers((a + b)[i], x, y);
    }
    if i :| 0 <= i < |b| && Covers(b[i], x, y) {
      assert Covers((a + b)[|a| + i], x, y);
    }
  }

  /** Two disjoint families over disjoint ground make one disjoint family. */
  lemma {:induction false} DisjointConcat(a: seq<Rect>, b: seq<Rect>)
    requires PairwiseDisjoint(a) && PairwiseDisjoint(b)
    requires forall x, y :: !(CoveredBy(a, x, y) && CoveredBy(b, x, y))
    ensures PairwiseDisjoint(a + b)
  {
    var c := a + b;
    forall i, j | 0 <= i < j < |c| ensures Disjoint(c[i], c[j]) {
      if i < |a| <= j {
        forall x, y ensures !(Covers(c[i], x, y) && Covers(c[j], x, y)) {
          if Covers(c[i], x, y) && Covers(c[j], x, y) {
            assert CoveredBy(a, x, y) by { assert Covers(a[i], x, y); }
            assert CoveredBy(b, x, y) by { assert Covers(b[j - |a|], x, y); }
          }
        }
      }
    }
  }

  /** rect_subtract partitions the pixels of `a` outside `b`. */
  lemma {:induction false} SubtractIsExact(a: Rect, b: Rect)
    requires Ordered(b)
    ensures PairwiseDisjoint(Subtract(a, b))
    ensures forall x, y :: CoveredBy(Subtract(a, b), x, y) <==> Covers(a, x, y) && !Covers(b, x, y)
  {
    var out := Subtract(a, b);
    if !Apart(b, a) {
      var lo, hi := MaxOf(b.x1, a.x1), MinOf(b.x2, a.x2);
      var l := Strip(b.x1 > a.x1, Rect(a.x1, a.y1, b.x1, a.y2));
      var r := Strip(b.x2 < a.x2, Rect(b.x2, a.y1, a.x2, a.y2));
      var t := Strip(b.y1 > a.y1, Rect(lo, a.y1, hi, b.y1));
      var d := Strip(b.y2 < a.y2, Rect(lo, b.y2, hi, a.y2));
      forall x, y ensures CoveredBy(out, x, y) <==> Covers(a, x, y) && !Covers(b, x, y) {
        CoveredByConcat(l, r, x, y);
        CoveredByConcat(l + r, t, x, y);
        CoveredByConcat(l + r + t, d, x, y);
        StripCovers(b.x1 > a.x1, Rect(a.x1, a.y1, b.x1, a.y2), x, y);
        StripCovers(b.x2 < a.x2, Rect(b.x2, a.y1, a.x2, a.y2), x, y);
        StripCovers(b.y1 > a.y1, Rect(lo, a.y1, hi, b.y1), x, y);
        StripCovers(b.y2 < a.y2, Rect(lo, b.y2, hi, a.y2), x, y);
      }
    } else {
      forall x, y ensures CoveredBy(out, x, y) <==> Covers(a, x, y) {
        if Covers(a, x, y) {
          assert Covers(out[0], x, y);
        }
      }
    }
  }

  lemma {:induction false} StripCovers(present: bool, r: Rect, x: int, y: int)
    ensures CoveredBy(Strip(present, r), x, y) <==> present && Covers(r, x, y)
  {
    if present {
      assert Strip(present, r)[0] == r;
    }
  }
}
