/** For which needles the positions of `match_positions` always reach the score
    (the comment at src/matching/match.c:203). */
module PositionsOptimality {
  import opened CStrings
  import opened Scores
  import opened Match
  import opened MatchAlignment
  import opened MatchPositions

  predicate Alnum(b: byte) {
    IsLower(b) || IsUpper(b) || IsDigit(b)
  }

  /** The recorded positions score what `match_positions` returns. */
  ghost predicate PositionsReach(needle: seq<byte>, hay: seq<byte>)
    requires 0 < |needle| < |hay| <= MATCH_MAX_LEN && MatchScore(needle, hay) != MinusInf
  {
    var p := Prepare(needle, hay);
    PositionsOptimalIff(p);
    Fin(AlignmentScore(p, Positions(p))) == MatchScore(needle, hay)
  }

  ghost predicate PositionsReachEverywhere(needle: seq<byte>)
    requires needle != []
  {
    forall hay ::
      IsCString(hay) && |needle| < |hay| <= MATCH_MAX_LEN && MatchScore(needle, hay) != MinusInf ==>
        PositionsReach(needle, hay)
  }

  // ---- Three bytes that do not begin with a letter or digit ----

  lemma {:induction false} NoBonusRow(p: Problem, j: nat)
    requires p.Valid() && |p.needle| > 1 && j < |p.hay| && EndAt(p, 0, j) != MinusInf
    requires forall k :: 0 <= k < |p.hay| && p.hay[k] == p.needle[0] ==> p.bonus[k] == 0
    ensures Best(p, 0, j) == EndAt(p, 0, j)
  {
    var k := BestAttained(p, 0, j);
  }

  lemma {:induction false} LastStepKeeps(p: Problem)
    requires p.Valid() && LastCell(p) != MinusInf
    ensures !LosesReward(p, |p.needle| - 1, Positions(p)[|p.needle| - 1])
  {
    var i := |p.needle| - 1;
    var k := Positions(p)[i];
    assert EndAt(p, i, k) == Best(p, i, k);
    EndIsFinite(p, i, k);
    if i > 0 && k > 0 {
      EndIsFinite(p, i - 1, k - 1);
      BestCovers(p, i - 1, k - 1, k - 1);
    }
  }

  lemma {:induction false} PlainTripleReaches(needle: seq<byte>, hay: seq<byte>)
    requires |needle| == 3 < |hay| <= MATCH_MAX_LEN && MatchScore(needle, hay) != MinusInf && !Alnum(needle[0])
    ensures PositionsReach(needle, hay)
  {
    hide EndAt, Best, BestBefore, Trace, LosesReward;
    var p := Prepare(needle, hay);
    PositionsOptimalIff(p);
    var e := Positions(p);
    LastStepKeeps(p);
    FirstStepsKeep(needle, hay, e[1]);
    forall i | 0 <= i < |e| ensures !LosesReward(p, i, e[i]) {
      NoRewardAtStart(p, e[0]);
    }
  }

  lemma {:induction false} NoRewardAtStart(p: Problem, k: nat)
    requires p.Valid() && k < |p.hay|
    ensures !LosesReward(p, 0, k)
  {
  }

  lemma {:induction false} FirstStepsKeep(needle: seq<byte>, hay: seq<byte>, k: nat)
    requires |needle| == 3 && hay != [] && !Alnum(needle[0]) && k < |hay|
    ensures !LosesReward(Prepare(needle, hay), 1, k)
  {
    hide Best, BestBefore;
    var p := Prepare(needle, hay);
    forall q | 0 <= q < |p.hay| && p.hay[q] == p.needle[0] ensures p.bonus[q] == 0 {
      assert !Alnum(hay[q]);
    }
    if k > 0 && EndAt(p, 0, k - 1) != MinusInf {
      NoBonusRow(p, k - 1);
    }
  }

  // ---- The walk down a diagonal ----

  /** The cell of row `q` on the diagonal is the best of its row so far. */
  ghost predicate OnDiagonal(p: Problem, q: nat, d: nat) {
    p.Valid() && q < |p.needle| && q + d < |p.hay| && EndAt(p, q, q + d) == Best(p, q, q + d) != MinusInf
  }

  /** From (i, i + d) the walk stays on the diagonal down to row `stop`. */
  lemma {:induction false} TraceDiagonal(p: Problem, i: nat, d: nat, stop: nat, forced: bool)
    requires stop <= i && Stands(p, i, i + d, forced) && (i == stop ==> forced)
    requires forall q :: stop < q <= i ==> OnDiagonal(p, q, d)
    requires i > stop ==> Forces(p, stop + 1, stop + 1 + d)
    ensures Trace(p, i, i + d, forced)[stop] == stop + d
    decreases i
  {
    hide EndAt, Best, BestBefore, Trace, Forces;
    TraceUnfold(p, i, i + d, forced);
    assert i > stop ==> OnDiagonal(p, i, d);
    PickHere(p, i, i + d, forced);
    if i > stop {
      var next := Forces(p, i, i + d);
      TraceDiagonal(p, i - 1, d, stop, next);
      assert Trace(p, i, i + d, forced)[stop] == Trace(p, i - 1, i - 1 + d, next)[stop];
    }
  }

  lemma {:induction false} PickHere(p: Problem, i: nat, j: nat, forced: bool)
    requires Stands(p, i, j, forced) && (!forced ==> EndAt(p, i, j) == Best(p, i, j))
    ensures Pick(p, i, j, forced) == j
  {
  }

  /** No cell of row `i` left of the diagonal beats it, even at ten a byte. */
  ghost predicate Leads(p: Problem, i: nat, d: nat) {
    && p.Valid() && i < |p.needle| && i + d < |p.hay| && EndAt(p, i, i + d).Fin?
    && forall j: nat :: j < i + d ==> Trails(p, i, d, j)
  }

  predicate Trails(p: Problem, i: nat, d: nat, j: nat)
    requires p.Valid() && i < |p.needle| && j < i + d < |p.hay|
  {
    EndAt(p, i, j).Plus(-10 * (i + d - j)).AtMost(EndAt(p, i, i + d))
  }

  lemma {:induction false} LeadingIsBest(p: Problem, i: nat, d: nat)
    requires Leads(p, i, d)
    ensures EndAt(p, i, i + d) == Best(p, i, i + d) != MinusInf
  {
    hide EndAt, Best;
    BestCovers(p, i, i + d, i + d);
    var k := BestAttained(p, i, i + d);
    EndIsFinite(p, i, k);
    assert k < i + d ==> Trails(p, i, d, k);
  }

  lemma {:induction false} EndGains(p: Problem, i: nat, j: nat)
    requires p.Valid() && 0 < i < |p.needle| && 0 < j < |p.hay| && p.bonus[j] <= 9
    ensures EndAt(p, i, j).AtMost(Best(p, i - 1, j - 1).Plus(CONSECUTIVE))
    ensures p.needle[i] == p.hay[j] ==> EndAt(p, i - 1, j - 1).Plus(CONSECUTIVE).AtMost(EndAt(p, i, j))
  {
    BestCovers(p, i - 1, j - 1, j - 1);
  }

  lemma {:induction false} LeadsNext(p: Problem, i: nat, d: nat)
    requires Leads(p, i, d) && i + 1 < |p.needle| && i + 1 + d < |p.hay| && p.needle[i + 1] == p.hay[i + 1 + d]
    requires forall k :: 0 <= k < |p.bonus| ==> p.bonus[k] <= 9
    ensures Leads(p, i + 1, d)
  {
    hide EndAt, Best;
    var row := i + 1;
    EndIsFinite(p, row, row + d);
    EndGains(p, row, row + d);
    forall j: nat | j < row + d ensures Trails(p, row, d, j) {
      if j == 0 {
        NothingInFirstColumn(p, row);
      } else {
        EndGains(p, row, j);
        LeadsOverBest(p, i, d, j - 1);
      }
    }
  }

  lemma {:induction false} NothingInFirstColumn(p: Problem, i: nat)
    requires p.Valid() && 0 < i < |p.needle|
    ensures EndAt(p, i, 0) == MinusInf
  {
  }

  lemma {:induction false} LeadsOverBest(p: Problem, i: nat, d: nat, j: nat)
    requires Leads(p, i, d) && i + 1 < |p.needle| && j < i + d
    ensures Best(p, i, j).Plus(-10 * (i + d - j)).AtMost(EndAt(p, i, i + d))
  {
    hide EndAt, Best;
    if Best(p, i, j) != MinusInf {
      var k := BestAttained(p, i, j);
      EndIsFinite(p, i, k);
      assert Trails(p, i, d, k);
    }
  }

  lemma {:induction false} LeadsOn(p: Problem, from: nat, d: nat, i: nat)
    requires Leads(p, from, d) && from <= i < |p.needle| && |p.hay| == |p.needle| + d
    requires forall q :: from <= q < |p.needle| ==> p.needle[q] == p.hay[q + d]
    requires forall k :: 0 <= k < |p.bonus| ==> p.bonus[k] <= 9
    ensures Leads(p, i, d)
  {
    hide Leads;
    if from < i {
      LeadsOn(p, from, d, i - 1);
      LeadsNext(p, i - 1, d);
    }
  }

  /** A diagonal that leads below row `stop` and loses its reward at row `stop`
      makes the positions fall short. */
  lemma {:induction false} DiagonalFallsShort(p: Problem, d: nat, stop: nat)
    requires Leads(p, stop + 1, d) && |p.hay| == |p.needle| + d && stop > 0
    requires forall q :: stop < q < |p.needle| ==> p.needle[q] == p.hay[q + d]
    requires forall k :: 0 <= k < |p.bonus| ==> p.bonus[k] <= 9
    requires EndAt(p, stop + 1, stop + 1 + d) == EndAt(p, stop, stop + d).Plus(CONSECUTIVE)
    requires LosesReward(p, stop, stop + d)
    ensures LastCell(p) != MinusInf && Places(p.needle, p.hay, Positions(p))
    ensures Fin(AlignmentScore(p, Positions(p))) != LastCell(p)
  {
    hide EndAt, Best, Trace, Leads, LosesReward;
    var n := |p.needle|;
    LeadsIsInside(p, stop + 1, d);
    LeadingIsBest(p, stop + 1, d);
    forall q | stop < q < n ensures OnDiagonal(p, q, d) {
      LeadsOn(p, stop + 1, d, q);
      LeadingIsBest(p, q, d);
    }
    assert OnDiagonal(p, n - 1, d);
    TraceDiagonal(p, n - 1, d, stop, false);
    PositionsOptimalIff(p);
    assert Positions(p)[stop] == stop + d;
  }

  lemma {:induction false} LeadsIsInside(p: Problem, i: nat, d: nat)
    requires Leads(p, i, d)
    ensures p.Valid() && i < |p.needle| && i + d < |p.hay|
  {
  }

  // ---- Cells, one at a time ----

  predicate Between(s: Score, low: int, high: int) {
    s.Fin? && low <= s.value <= high
  }

  predicate UpTo(s: Score, high: int) {
    s == MinusInf || (s.Fin? && s.value <= high)
  }

  lemma {:induction false} EndZero(p: Problem, j: nat)
    requires p.Valid() && j < |p.hay|
    ensures EndAt(p, 0, j) == if p.needle[0] == p.hay[j] then Fin(GAP_LEADING * j + p.bonus[j]) else MinusInf
  {
  }

  lemma {:induction false} EndStep(p: Problem, i: nat, j: nat)
    requires p.Valid() && 0 < i < |p.needle| && 0 < j < |p.hay|
    ensures EndAt(p, i, j) ==
            if p.needle[i] != p.hay[j] then MinusInf
            else Max(Best(p, i - 1, j - 1).Plus(p.bonus[j]), EndAt(p, i - 1, j - 1).Plus(CONSECUTIVE))
  {
    hide Best;
  }

  /** Row `i` cannot end before column `i`. */
  lemma {:induction false} TooEarly(p: Problem, i: nat, j: nat)
    requires p.Valid() && j < i < |p.needle| && j < |p.hay|
    ensures EndAt(p, i, j) == Best(p, i, j) == MinusInf
    decreases i, j
  {
    hide EndAt, Best;
    BestSplit(p, i, j);
    if j == 0 {
      NothingInFirstColumn(p, i);
    } else {
      EndStep(p, i, j);
      TooEarly(p, i - 1, j - 1);
      TooEarly(p, i, j - 1);
    }
  }

  /** Best over a stretch that does not hold the row's byte. */
  lemma {:induction false} BestOver(p: Problem, i: nat, start: nat, upto: nat)
    requires p.Valid() && i + 1 < |p.needle| && start <= upto < |p.hay|
    requires forall j :: start < j <= upto ==> p.hay[j] != p.needle[i]
    ensures Best(p, i, upto) == Best(p, i, start).Plus(GAP_INNER * (upto - start))
    decreases upto
  {
    hide EndAt, Best;
    if start < upto {
      BestOver(p, i, start, upto - 1);
      BestSplit(p, i, upto);
      if i == 0 {
        EndZero(p, upto);
      } else {
        EndStep(p, i, upto);
      }
      EndIsFinite(p, i, start);
    }
  }

  // ---- Four bytes and more ----

  /** The first three bytes, a second first byte, and the rest of the needle. */
  function Decoy(n: seq<byte>, f: byte): (hay: seq<byte>)
    requires |n| >= 4
    ensures |hay| == |n| + 8
  {
    [f] + n[..3] + [f, f, f, n[0], f] + n[1..]
  }

  predicate Decoyed(p: Problem, f: byte) {
    && p.Valid() && |p.needle| >= 4 && |p.hay| == |p.needle| + 8
    && f != p.needle[0] && f != p.needle[1] && f != p.needle[2] && f != p.needle[3]
    && p.hay[0] == p.hay[4] == p.hay[5] == p.hay[6] == p.hay[8] == f
    && p.hay[1] == p.hay[7] == p.needle[0] && p.hay[2] == p.needle[1] && p.hay[3] == p.needle[2]
    && (forall q :: 1 <= q < |p.needle| ==> p.needle[q] == p.hay[q + 8])
    && (forall k :: 0 <= k < |p.bonus| ==> 0 <= p.bonus[k] <= 9)
    && p.bonus[1] == p.bonus[7] == p.bonus[9] == 0
    && (p.needle[1] == p.needle[0] ==> p.bonus[2] == 0)
    && (p.needle[2] == p.needle[1] ==> p.bonus[3] == p.bonus[10] == 0)
  }

  lemma {:induction false} DecoyRow0(p: Problem, f: byte)
    requires Decoyed(p, f)
    ensures EndAt(p, 0, 1) == Best(p, 0, 1) == Fin(-9)
    ensures UpTo(EndAt(p, 0, 2), -18) && Between(Best(p, 0, 2), -20, -18)
    ensures EndAt(p, 0, 6) == MinusInf && UpTo(Best(p, 0, 6), -51)
    ensures EndAt(p, 0, 8) == MinusInf && Between(Best(p, 0, 8), -74, -73)
  {
    hide EndAt, Best;
    EndZero(p, 0);
    EndZero(p, 1);
    EndZero(p, 2);
    EndZero(p, 3);
    EndZero(p, 6);
    EndZero(p, 7);
    EndZero(p, 8);
    BestSplit(p, 0, 0);
    BestSplit(p, 0, 1);
    BestSplit(p, 0, 2);
    BestSplit(p, 0, 3);
    BestOver(p, 0, 3, 6);
    BestSplit(p, 0, 7);
    BestSplit(p, 0, 8);
  }

  lemma {:induction false} DecoyRow1(p: Problem, f: byte)
    requires Decoyed(p, f)
    ensures EndAt(p, 1, 2) == Best(p, 1, 2) == Fin(7)
    ensures EndAt(p, 1, 6) == MinusInf && UpTo(Best(p, 1, 6), -35)
    ensures EndAt(p, 1, 8) == MinusInf && UpTo(Best(p, 1, 8), -57)
    ensures Between(EndAt(p, 1, 9), -74, -73) && Between(Best(p, 1, 9), -70, -68)
    ensures Best(p, 1, 9) == Fin(-70) || p.bonus[10] == 0
  {
    hide EndAt, Best;
    DecoyRow0(p, f);
    TooEarly(p, 1, 0);
    EndStep(p, 1, 1);
    EndZero(p, 0);
    BestSplit(p, 0, 0);
    BestSplit(p, 1, 1);
    EndStep(p, 1, 2);
    BestSplit(p, 1, 2);
    EndStep(p, 1, 3);
    BestSplit(p, 1, 3);
    EndStep(p, 1, 6);
    BestOver(p, 1, 3, 6);
    EndStep(p, 1, 7);
    BestSplit(p, 1, 7);
    EndStep(p, 1, 8);
    BestSplit(p, 1, 8);
    EndStep(p, 1, 9);
    BestSplit(p, 1, 9);
  }

  lemma {:induction false} DecoyRow2(p: Problem, f: byte)
    requires Decoyed(p, f)
    ensures UpTo(Best(p, 2, 6), -10) && UpTo(Best(p, 2, 8), -32) && UpTo(Best(p, 2, 9), -43)
    ensures EndAt(p, 2, 6) == EndAt(p, 2, 8) == MinusInf && UpTo(EndAt(p, 2, 9), -57)
    ensures EndAt(p, 2, 10) == EndAt(p, 1, 9).Plus(CONSECUTIVE) && Best(p, 2, 10) == Fin(-54)
    ensures LosesReward(p, 2, 10)
  {
    hide EndAt, Best;
    DecoyRow0(p, f);
    DecoyRow1(p, f);
    TooEarly(p, 2, 1);
    EndStep(p, 1, 1);
    EndZero(p, 0);
    BestSplit(p, 0, 0);
    TooEarly(p, 1, 0);
    BestSplit(p, 1, 1);
    EndStep(p, 2, 2);
    BestSplit(p, 2, 2);
    EndStep(p, 2, 3);
    BestSplit(p, 2, 3);
    EndStep(p, 2, 6);
    BestOver(p, 2, 3, 6);
    EndStep(p, 2, 7);
    BestSplit(p, 2, 7);
    EndStep(p, 2, 8);
    BestSplit(p, 2, 8);
    EndStep(p, 2, 9);
    BestSplit(p, 2, 9);
    EndStep(p, 2, 10);
    BestSplit(p, 2, 10);
  }

  lemma {:induction false} DecoyRow3(p: Problem, f: byte)
    requires Decoyed(p, f)
    ensures Leads(p, 3, 8) && EndAt(p, 3, 11) == EndAt(p, 2, 10).Plus(CONSECUTIVE)
  {
    hide EndAt, Best, LosesReward;
    DecoyRow1(p, f);
    DecoyRow2(p, f);
    EndStep(p, 3, 11);
    forall j: nat | j < 11 ensures UpTo(EndAt(p, 3, j), 10 * (11 - j) - 42) {
      if j < 3 {
        TooEarly(p, 3, j);
      } else {
        EndStep(p, 3, j);
        if j == 3 {
          DecoyEarly(p, f);
        }
      }
    }
  }

  lemma {:induction false} DecoyEarly(p: Problem, f: byte)
    requires Decoyed(p, f)
    ensures EndAt(p, 2, 2) == Best(p, 2, 2) == MinusInf
  {
    hide EndAt, Best;
    EndZero(p, 0);
    BestSplit(p, 0, 0);
    TooEarly(p, 1, 0);
    EndStep(p, 1, 1);
    BestSplit(p, 1, 1);
    TooEarly(p, 2, 1);
    EndStep(p, 2, 2);
    BestSplit(p, 2, 2);
  }

  lemma {:induction false} DecoyMisses(p: Problem, f: byte)
    requires Decoyed(p, f)
    ensures LastCell(p) != MinusInf && Places(p.needle, p.hay, Positions(p))
    ensures Fin(AlignmentScore(p, Positions(p))) != LastCell(p)
  {
    hide EndAt, Best, Leads, LosesReward, Positions;
    DecoyRow2(p, f);
    DecoyRow3(p, f);
    DiagonalFallsShort(p, 8, 2);
  }

  // ---- Three bytes that begin with a letter or digit ----

  function Triple(n: seq<byte>, f: byte): (hay: seq<byte>)
    requires |n| == 3
    ensures |hay| == 6
  {
    [n[0], n[1], f, n[0], n[1], n[2]]
  }

  predicate Tripled(p: Problem, f: byte) {
    && p.Valid() && |p.needle| == 3 && p.hay == Triple(p.needle, f) && f !in p.needle
    && (forall k :: 0 <= k < |p.bonus| ==> 0 <= p.bonus[k] <= 9)
    && p.bonus[0] == 9 && p.bonus[3] == 0 && (p.needle[1] == p.needle[0] ==> p.bonus[1] == 0)
  }

  lemma {:induction false} TripleRow0(p: Problem, f: byte)
    requires Tripled(p, f)
    ensures Best(p, 0, 0) == EndAt(p, 0, 0) == Fin(9) && Best(p, 0, 2) == Fin(-13) && EndAt(p, 0, 2) == MinusInf
    ensures EndAt(p, 0, 3) == Fin(-27) && Best(p, 0, 3) == Fin(-24)
  {
    hide EndAt, Best;
    EndZero(p, 0);
    EndZero(p, 1);
    EndZero(p, 2);
    EndZero(p, 3);
    BestSplit(p, 0, 0);
    BestSplit(p, 0, 1);
    BestSplit(p, 0, 2);
    BestSplit(p, 0, 3);
  }

  lemma {:induction false} TripleRow1(p: Problem, f: byte)
    requires Tripled(p, f)
    ensures Best(p, 1, 2) == Fin(14) && EndAt(p, 1, 2) == MinusInf
    ensures Best(p, 1, 3) == Fin(3) && UpTo(EndAt(p, 1, 3), -13)
    ensures EndAt(p, 1, 4) == Fin(-11) && Best(p, 1, 4) == Fin(-8)
  {
    hide EndAt, Best;
    TripleRow0(p, f);
    TooEarly(p, 1, 0);
    EndStep(p, 1, 1);
    EndStep(p, 1, 2);
    EndStep(p, 1, 3);
    EndStep(p, 1, 4);
    BestSplit(p, 1, 1);
    BestSplit(p, 1, 2);
    BestSplit(p, 1, 3);
    BestSplit(p, 1, 4);
  }

  lemma {:induction false} TripleMisses(p: Problem, f: byte)
    requires Tripled(p, f)
    ensures LastCell(p) != MinusInf && Places(p.needle, p.hay, Positions(p))
    ensures Fin(AlignmentScore(p, Positions(p))) != LastCell(p)
  {
    hide EndAt, Best, Positions, LastCell;
    TripleRow0(p, f);
    TripleRow1(p, f);
    TooEarly(p, 2, 0);
    TooEarly(p, 2, 1);
    EndStep(p, 2, 2);
    EndStep(p, 2, 3);
    EndStep(p, 2, 4);
    EndStep(p, 2, 5);
    assert Leads(p, 2, 3);
    DiagonalFallsShort(p, 3, 1);
  }

  // ---- The promise, needle by needle ----

  function Filler(n: seq<byte>): (f: byte)
    requires |n| >= 3
    ensures IsLower(f) && f != n[0] && f != n[1] && f != n[2] && (|n| >= 4 ==> f != n[3])
  {
    var taken := n[..if |n| < 4 then |n| else 4];
    if 'a' as int !in taken then 'a' as int
    else if 'b' as int !in taken then 'b' as int
    else if 'c' as int !in taken then 'c' as int
    else if 'd' as int !in taken then 'd' as int
    else 'e' as int
  }

  lemma {:induction false} BonusFacts(hay: seq<byte>, j: nat)
    requires 0 < j < |hay| && !IsUpper(hay[j])
    ensures IsLower(hay[j - 1]) || hay[j - 1] == hay[j] ==> BonusAt(hay, j) == 0
  {
  }

  lemma {:induction false} DecoyIsPrepared(needle: seq<byte>)
    requires |needle| >= 4
    ensures var n := Lowered(needle); Decoyed(Prepare(needle, Decoy(n, Filler(n))), Filler(n))
  {
    hide Filler, BonusAt;
    var n := Lowered(needle);
    var f := Filler(n);
    var hay := Decoy(n, f);
    var front := [f] + n[..3] + [f, f, f, n[0], f];
    assert hay == front + n[1..] && |front| == 9;
    DecoyIsLower(n, f);
    forall q | 1 <= q < |n| ensures n[q] == hay[q + 8] {
      assert hay[q + 8] == n[1..][q - 1];
    }
    BonusFacts(hay, 1);
    BonusFacts(hay, 2);
    BonusFacts(hay, 3);
    BonusFacts(hay, 7);
    BonusFacts(hay, 9);
    BonusFacts(hay, 10);
    BonusIsSmall(hay);
  }

  lemma {:induction false} BonusIsSmall(hay: seq<byte>)
    ensures forall k :: 0 <= k < |hay| ==> 0 <= BonusAt(hay, k) <= 9
  {
  }

  lemma {:induction false} DecoyIsLower(n: seq<byte>, f: byte)
    requires |n| >= 4 && IsLower(f) && forall k :: 0 <= k < |n| ==> !IsUpper(n[k])
    ensures Lowered(Decoy(n, f)) == Decoy(n, f) && forall k :: 0 <= k < |Decoy(n, f)| ==> !IsUpper(Decoy(n, f)[k])
  {
    assert forall b :: b in Decoy(n, f) ==> b in n || b == f;
    assert forall b :: b in n ==> !IsUpper(b);
    assert forall k :: 0 <= k < |Decoy(n, f)| ==> Decoy(n, f)[k] in Decoy(n, f);
  }

  lemma {:induction false} TripleIsPrepared(needle: seq<byte>)
    requires |needle| == 3 && Alnum(needle[0])
    ensures var n := Lowered(needle); Tripled(Prepare(needle, Triple(n, Filler(n))), Filler(n))
  {
    hide Filler;
    var n := Lowered(needle);
    var hay := Triple(n, Filler(n));
    BonusFacts(hay, 1);
    BonusFacts(hay, 3);
    assert Lowered(hay) == hay;
  }

  /** Some haystack defeats the needle. */
  lemma {:induction false} SomeHaystackMisses(needle: seq<byte>) returns (hay: seq<byte>)
    requires IsCString(needle) && |needle| + 8 <= MATCH_MAX_LEN
    requires |needle| >= 4 || (|needle| == 3 && Alnum(needle[0]))
    ensures IsCString(hay) && |needle| < |hay| <= MATCH_MAX_LEN && MatchScore(needle, hay) != MinusInf
    ensures !PositionsReach(needle, hay)
  {
    hide Prepare, Positions, LastCell, Decoyed, Tripled, Filler, AlignmentScore;
    var n := Lowered(needle);
    var f := Filler(n);
    if |needle| == 3 {
      hay := Triple(n, f);
      TripleIsPrepared(needle);
      TripleMisses(Prepare(needle, hay), f);
    } else {
      hay := Decoy(n, f);
      DecoyIsPrepared(needle);
      DecoyMisses(Prepare(needle, hay), f);
      assert forall b :: b in hay ==> b in n || b == f;
    }
  }

  lemma {:induction false} ShortReaches(needle: seq<byte>, hay: seq<byte>)
    requires 0 < |needle| <= 2 && |needle| < |hay| <= MATCH_MAX_LEN && MatchScore(needle, hay) != MinusInf
    ensures PositionsReach(needle, hay)
  {
    ShortNeedlesOptimal(Prepare(needle, hay));
  }

  /** match.c:203-230.  The positions reach the score on every longer haystack
      exactly for needles of one or two bytes and for three bytes that do not
      begin with a letter or digit.  Needles of more than 1016 bytes leave too
      little room for the haystack built here. */
  lemma {:induction false} PositionsReachEverywhereIff(needle: seq<byte>)
    requires needle != [] && IsCString(needle) && |needle| + 8 <= MATCH_MAX_LEN
    ensures PositionsReachEverywhere(needle) <==> |needle| <= 2 || (|needle| == 3 && !Alnum(needle[0]))
  {
    hide PositionsReach, MatchScore;
    if |needle| <= 2 || (|needle| == 3 && !Alnum(needle[0])) {
      forall hay | IsCString(hay) && |needle| < |hay| <= MATCH_MAX_LEN && MatchScore(needle, hay) != MinusInf
        ensures PositionsReach(needle, hay)
      {
        if |needle| <= 2 {
          ShortReaches(needle, hay);
        } else {
          PlainTripleReaches(needle, hay);
        }
      }
    } else {
      var hay := SomeHaystackMisses(needle);
    }
  }
}
