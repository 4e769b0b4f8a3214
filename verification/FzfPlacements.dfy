/** What an fzf-style score is the score of: a placement of the needle, walked from
    left to right under the gap, bonus and run rules (src/matching/fzf_algo.c). */
module FzfPlacements {
  import opened CStrings
  import opened Fzf
  import opened FzfProperties
  import opened Scores

  /** Take the match at a column, coming from the column before; `first` is the bonus
      where the run would begin. */
  function Take(before: Cell, bonus: int, first: int): Cell {
    var run := before.run + 1;
    var restart := run > 1 && bonus >= BONUS_BOUNDARY && bonus > first;
    var b := if run == 1 || restart then bonus else MaxInt(bonus, MaxInt(BONUS_CONSECUTIVE, first));
    Cell(before.score + SCORE_MATCH + b, if restart then 1 else run, false)
  }

  /** The score carried to `col` by the matches at `e`: a gap costs three points and
      one a byte more, and never more than there is. */
  ghost function Walk(p: Problem, e: seq<nat>, col: nat): (c: Cell)
    requires p.Valid() && Places(p.needle, p.text, e) && e[|e| - 1] <= col < |p.text|
    ensures 0 <= c.score && c.run <= |e| <= col + 1
    decreases |e|, col
  {
    var n := |e| - 1;
    if e[n] < col then Cell(MaxInt(GapStep(Walk(p, e, col - 1)), 0), 0, true)
    else if n == 0 then Cell(SCORE_MATCH + 2 * p.bonus[col], 1, false)
    else
      PlacesPrefix(p.needle, p.text, e);
      assert e[n - 1] < e[n];
      var before := Walk(p, e[..n], col - 1);
      Take(before, p.bonus[col], p.bonus[col - before.run])
  }

  lemma {:induction false} WalkOn(p: Problem, e: seq<nat>, col: nat)
    requires p.Valid() && Places(p.needle, p.text, e) && e[|e| - 1] < col < |p.text|
    ensures Walk(p, e, col) == Cell(MaxInt(GapStep(Walk(p, e, col - 1)), 0), 0, true)
  {
    hide GapStep;
  }

  lemma {:induction false} WalkTakes(p: Problem, e: seq<nat>, col: nat)
    requires p.Valid() && Places(p.needle, p.text, e) && e[|e| - 1] < col < |p.text|
    requires |e| < |p.needle| && p.text[col] == p.needle[|e|]
    ensures Places(p.needle, p.text, e + [col])
    ensures var before := Walk(p, e, col - 1);
            Walk(p, e + [col], col) == Take(before, p.bonus[col], p.bonus[col - before.run])
  {
    hide Take, GapStep;
    PlacesExtend(p.needle, p.text, e, col);
    assert (e + [col])[..|e|] == e;
  }

  /** Up to what a lost score still remembers of its gap. */
  predicate Alike(w: Cell, c: Cell) {
    w.score == c.score && w.run == c.run && (w.gap == c.gap || c.score == 0)
  }

  lemma {:induction false} FirstRowIsRealised(p: Problem, col: nat) returns (e: seq<nat>)
    requires p.Valid() && p.firsts[0] <= col < |p.text|
    ensures Places(p.needle, p.text, e) && |e| == 1 && p.firsts[0] <= e[0] <= col
    ensures Alike(Walk(p, e, col), CellAt(p, 0, col))
  {
    hide CellAt, FirstRow;
    CellRowZero(p, col);
    FirstRowStep(p.needle[0], p.text, p.bonus, col);
    if p.text[col] == p.needle[0] {
      e := [col];
    } else {
      e := FirstRowIsRealised(p, col - 1);
      CellRowZero(p, col - 1);
      WalkOn(p, e, col);
    }
  }

  /** The rule for one cell is either a step of the walk from the left or a match
      taken from the diagonal. */
  lemma {:induction false} FillIsStep(matches: bool, left: Cell, diagonal: Cell, bonus: int, first: int)
    requires left.score >= 0 && diagonal.score >= 0 && bonus >= 0
    ensures var c := Fill(matches, left, diagonal, bonus, first);
            var s2 := GapStep(left);
            var taken := matches && Take(diagonal, bonus, first).score >= s2;
            if taken then c == Take(diagonal, bonus, first)
            else c.score == MaxInt(s2, 0) && c.run == 0 && (c.gap || c.score == 0)
  {
  }

  lemma {:induction false} CellIsRealised(p: Problem, i: nat, col: nat) returns (e: seq<nat>)
    requires p.Valid() && i < |p.needle| && p.firsts[i] <= col < |p.text|
    ensures p.firsts[0] <= col && Places(p.needle, p.text, e) && |e| == i + 1 && p.firsts[i] <= e[i] <= col
    ensures Alike(Walk(p, e, col), CellAt(p, i, col))
    decreases i, col
  {
    hide CellAt, Fill, Walk, Take, GapStep;
    if i == 0 {
      e := FirstRowIsRealised(p, col);
    } else {
      CellStep(p, i, col);
      var left, diagonal := CellAt(p, i, col - 1), CellAt(p, i - 1, col - 1);
      var first := p.bonus[col - diagonal.run];
      FillIsStep(p.text[col] == p.needle[i], left, diagonal, p.bonus[col], first);
      if p.text[col] == p.needle[i] && Take(diagonal, p.bonus[col], first).score >= GapStep(left) {
        var front := CellIsRealised(p, i - 1, col - 1);
        WalkTakes(p, front, col);
        TakeAlike(Walk(p, front, col - 1), diagonal, p.bonus[col], first);
        e := front + [col];
      } else {
        LeftIsThere(p, i, col);
        e := CellIsRealised(p, i, col - 1);
        WalkOn(p, e, col);
        StepAlike(Walk(p, e, col - 1), left);
      }
    }
  }

  lemma {:induction false} TakeAlike(w: Cell, c: Cell, bonus: int, first: int)
    requires Alike(w, c)
    ensures Take(w, bonus, first) == Take(c, bonus, first)
  {
  }

  lemma {:induction false} StepAlike(w: Cell, c: Cell)
    requires Alike(w, c)
    ensures MaxInt(GapStep(w), 0) == MaxInt(GapStep(c), 0)
  {
  }

  /** At its leftmost occurrence a row takes the match. */
  lemma {:induction false} LeftIsThere(p: Problem, i: nat, col: nat)
    requires p.Valid() && 0 < i < |p.needle| && p.firsts[i] <= col < |p.text| && p.firsts[0] < col
    requires var diagonal := CellAt(p, i - 1, col - 1);
             p.text[col] != p.needle[i] ||
             Take(diagonal, p.bonus[col], p.bonus[col - diagonal.run]).score < GapStep(CellAt(p, i, col - 1))
    ensures p.firsts[i] < col
  {
    hide CellAt;
    if col == p.firsts[i] {
      CellZero(p, i, col - 1);
    }
  }

  lemma {:induction false} SingleIsRealised(needle0: byte, text: seq<byte>, bonus: seq<int>, i: nat, best: int)
    returns (k: nat)
    requires i <= |text| == |bonus|
    ensures var score := SingleFrom(needle0, text, bonus, i, best);
            score == best || (k < |text| && text[k] == needle0 && score == SCORE_MATCH + 2 * bonus[k])
    decreases |text| - i
  {
    hide SingleFrom;
    SingleStep(needle0, text, bonus, i, best);
    k := 0;
    if i < |text| {
      var score := SCORE_MATCH + 2 * bonus[i];
      if text[i] == needle0 && score > best {
        k := SingleIsRealised(needle0, text, bonus, i + 1, score);
        if SingleFrom(needle0, text, bonus, i, best) == score {
          k := i;
        }
      } else {
        k := SingleIsRealised(needle0, text, bonus, i + 1, best);
      }
    }
  }

  /** fzf_algo.c:177-378.  Every score is that of an embedding of the needle, which
      for needles of two bytes and more ends where the leftmost one does. */
  lemma {:induction false} ScoreIsRealised(needle: seq<byte>, hay: seq<byte>) returns (e: seq<nat>)
    requires needle != [] && FuzzyScore(needle, hay) != MinusInf
    ensures var p := Prepare(needle, hay);
            && p.Valid() && Places(p.needle, p.text, e) && Embeds(Same, p.needle, p.text, e)
            && FuzzyScore(needle, hay) == Fin(Walk(p, e, e[|e| - 1]).score)
            && (|needle| >= 2 ==> e[|e| - 1] == p.firsts[|e| - 1])
  {
    hide FuzzyScore, CellAt, Walk, Prepare, Places;
    var p := Prepare(needle, hay);
    if |needle| == 1 {
      e := OneByteIsRealised(needle, hay);
    } else {
      ScoreIsCell(needle, hay);
      e := CellIsRealised(p, |needle| - 1, p.firsts[|needle| - 1]);
    }
    WholeEmbeds(p.needle, p.text, e);
  }

  lemma {:induction false} WholeEmbeds(needle: seq<byte>, text: seq<byte>, e: seq<nat>)
    requires Places(needle, text, e) && |e| == |needle|
    ensures Embeds(Same, needle, text, e)
  {
    assert needle[..|e|] == needle;
  }

  lemma {:induction false} ScoreIsCell(needle: seq<byte>, hay: seq<byte>)
    requires |needle| >= 2 && FuzzyScore(needle, hay) != MinusInf
    ensures var p := Prepare(needle, hay);
            && p.Valid() && |p.needle| == |needle| && p.firsts[0] <= p.firsts[|needle| - 1] < |p.text|
            && FuzzyScore(needle, hay) == Fin(CellAt(p, |needle| - 1, p.firsts[|needle| - 1]).score)
  {
    hide CellAt, Firsts;
  }

  lemma {:induction false} OneByteIsRealised(needle: seq<byte>, hay: seq<byte>) returns (e: seq<nat>)
    requires |needle| == 1 && FuzzyScore(needle, hay) != MinusInf
    ensures var p := Prepare(needle, hay);
            && p.Valid() && |p.needle| == 1 && Places(p.needle, p.text, e) && |e| == 1
            && FuzzyScore(needle, hay) == Fin(Walk(p, e, e[0]).score)
  {
    hide CellAt, Firsts, SingleFrom;
    var p := Prepare(needle, hay);
    ScoreRange(needle, hay);
    var k := SingleIsRealised(p.needle[0], p.text, p.bonus, 0, 0);
    e := [k];
  }
}
