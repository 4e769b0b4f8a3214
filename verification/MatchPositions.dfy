/** match_positions: the full tables, and the walk back through them that picks
    the highlighted positions. */
module MatchPositions {
  import opened CStrings
  import opened Scores
  import opened Match
  import opened MatchAlignment

  /** The walk may stand at (i, j): a forced step needs a match right there. */
  predicate Stands(p: Problem, i: nat, j: nat, forced: bool) {
    p.Valid() && i < |p.needle| && j < |p.hay|
    && (if forced then EndAt(p, i, j) else Best(p, i, j)) != MinusInf
  }

  /** The test that decides whether byte i-1 must sit right before `k`. */
  predicate Forces(p: Problem, i: nat, k: nat)
    requires p.Valid() && i < |p.needle| && k < |p.hay|
  {
    i > 0 && k > 0 && Best(p, i, k) == EndAt(p, i - 1, k - 1).Plus(CONSECUTIVE)
  }

  /** The position picked for byte `i`, scanning left from `j`. */
  function Pick(p: Problem, i: nat, j: nat, forced: bool): (k: nat)
    requires Stands(p, i, j, forced)
    ensures k <= j && EndAt(p, i, k) != MinusInf
    ensures forced ==> k == j
    ensures !forced ==> EndAt(p, i, k) == Best(p, i, k)
    ensures !forced ==> Best(p, i, j) == EndAt(p, i, k).Plus(GapCost(p, i, j - k))
  {
    if EndAt(p, i, j) != MinusInf && (forced || EndAt(p, i, j) == Best(p, i, j)) then j
    else
      BestSplit(p, i, j);
      Pick(p, i, j - 1, forced)
  }

  lemma {:induction false} StandsNext(p: Problem, i: nat, k: nat)
    requires p.Valid() && 0 < i < |p.needle| && k < |p.hay| && EndAt(p, i, k) != MinusInf
    ensures k > 0 && Stands(p, i - 1, k - 1, Forces(p, i, k))
  {
    BestCovers(p, i, k, k);
    BestCovers(p, i - 1, k - 1, k - 1);
    EndIsFinite(p, i - 1, k - 1);
  }

  /** The positions the walk records for bytes 0..i. */
  function Trace(p: Problem, i: nat, j: nat, forced: bool): (e: seq<nat>)
    requires Stands(p, i, j, forced)
    ensures |e| == i + 1 && e[i] == Pick(p, i, j, forced)
    decreases i
  {
    var k := Pick(p, i, j, forced);
    if i == 0 then [k]
    else
      StandsNext(p, i, k);
      Trace(p, i - 1, k - 1, Forces(p, i, k)) + [k]
  }

  lemma {:induction false} TraceUnfold(p: Problem, i: nat, j: nat, forced: bool)
    requires Stands(p, i, j, forced)
    ensures i == 0 ==> Trace(p, i, j, forced) == [Pick(p, i, j, forced)]
    ensures i > 0 ==>
              var k := Pick(p, i, j, forced);
              && k > 0 && Stands(p, i - 1, k - 1, Forces(p, i, k))
              && Trace(p, i, j, forced) == Trace(p, i - 1, k - 1, Forces(p, i, k)) + [k]
  {
    hide EndAt, Best, BestBefore;
    if i > 0 {
      StandsNext(p, i, Pick(p, i, j, forced));
    }
  }

  lemma {:induction false} EndSpells(p: Problem, i: nat, k: nat)
    requires p.Valid() && i < |p.needle| && k < |p.hay| && EndAt(p, i, k) != MinusInf
    ensures p.needle[i] == p.hay[k]
  {
  }

  // ---- The recorded positions spell the needle ----

  lemma {:induction false} TracePlaces(p: Problem, i: nat, j: nat, forced: bool)
    requires Stands(p, i, j, forced)
    ensures Places(p.needle, p.hay, Trace(p, i, j, forced))
    decreases i
  {
    hide EndAt, Best, BestBefore;
    var k := Pick(p, i, j, forced);
    TraceUnfold(p, i, j, forced);
    EndSpells(p, i, k);
    if i > 0 {
      TracePlaces(p, i - 1, k - 1, Forces(p, i, k));
      PlacesExtend(p.needle, p.hay, Trace(p, i - 1, k - 1, Forces(p, i, k)), k);
    } else {
      assert Places(p.needle, p.hay, [k]);
    }
  }

  // ---- When they are also optimal ----

  /** At (i, k) the cell owes its value to the consecutive reward, but the test
      compares the wrong table and does not say so, and the walk is free to
      leave the diagonal. */
  predicate LosesReward(p: Problem, i: nat, k: nat)
    requires p.Valid() && i < |p.needle| && k < |p.hay|
  {
    && i > 0 && k > 0 && p.needle[i] == p.hay[k]
    && !Forces(p, i, k)
    && EndAt(p, i - 1, k - 1).Lt(Best(p, i - 1, k - 1))
    && Best(p, i - 1, k - 1).Plus(p.bonus[k]).Lt(EndAt(p, i - 1, k - 1).Plus(CONSECUTIVE))
  }

  predicate KeepsRewards(p: Problem, e: seq<nat>)
    requires p.Valid() && Places(p.needle, p.hay, e)
  {
    forall i :: 0 <= i < |e| ==> !LosesReward(p, i, e[i])
  }

  /** What one step of the walk loses. */
  lemma {:induction false} StepLoss(p: Problem, i: nat, k: nat)
    requires p.Valid() && 0 < i < |p.needle| && k < |p.hay| && EndAt(p, i, k) != MinusInf
    ensures k > 0 && Stands(p, i - 1, k - 1, Forces(p, i, k))
    ensures var a := Pick(p, i - 1, k - 1, Forces(p, i, k));
            var value := EndAt(p, i - 1, a).Plus(StepScore(p, a, k));
            if LosesReward(p, i, k) then value.Lt(EndAt(p, i, k)) else value == EndAt(p, i, k)
  {
    StandsNext(p, i, k);
    EndIsFinite(p, i - 1, k - 1);
    EndIsFinite(p, i, k);
    BestCovers(p, i, k, k);
    BestCovers(p, i - 1, k - 1, k - 1);
  }

  /** The walk's positions for bytes 0..i score what D says of the last one,
      unless a reward was lost on the way. */
  predicate Faithful(p: Problem, e: seq<nat>) {
    && p.Valid() && Places(p.needle, p.hay, e)
    && (EndAt(p, |e| - 1, e[|e| - 1]) == Fin(PathScore(p, e)) <==> KeepsRewards(p, e))
  }

  lemma {:induction false} FaithfulExtend(p: Problem, e: seq<nat>, k: nat)
    requires Faithful(p, e) && |e| < |p.needle| && k < |p.hay| && Places(p.needle, p.hay, e + [k])
    requires var value := EndAt(p, |e| - 1, e[|e| - 1]).Plus(StepScore(p, e[|e| - 1], k));
             if LosesReward(p, |e|, k) then value.Lt(EndAt(p, |e|, k)) else value == EndAt(p, |e|, k)
    ensures Faithful(p, e + [k])
  {
    hide EndAt, Best, BestBefore;
    PathAtMostEnd(p, e);
    PathScoreExtend(p, e, k);
    KeepsRewardsExtend(p, e, k);
    EndIsFinite(p, |e| - 1, e[|e| - 1]);
  }

  lemma {:induction false} FaithfulStart(p: Problem, k: nat)
    requires p.Valid() && k < |p.hay| && Places(p.needle, p.hay, [k])
    ensures Faithful(p, [k])
  {
    assert Same(p.needle[..1][0], p.hay[[k][0]]);
  }

  lemma {:induction false} TraceFaithful(p: Problem, i: nat, j: nat, forced: bool)
    requires Stands(p, i, j, forced)
    ensures Faithful(p, Trace(p, i, j, forced))
    decreases i
  {
    hide EndAt, Best, BestBefore, PathScore, StepScore, LosesReward, KeepsRewards, Embeds, Forces;
    var k := Pick(p, i, j, forced);
    TracePlaces(p, i, j, forced);
    TraceUnfold(p, i, j, forced);
    if i > 0 {
      var front := Trace(p, i - 1, k - 1, Forces(p, i, k));
      TraceFaithful(p, i - 1, k - 1, Forces(p, i, k));
      assert front[|front| - 1] == Pick(p, i - 1, k - 1, Forces(p, i, k)) && |front| == i;
      StepLoss(p, i, k);
      FaithfulExtend(p, front, k);
    } else {
      FaithfulStart(p, k);
    }
  }

  lemma {:induction false} KeepsRewardsExtend(p: Problem, e: seq<nat>, k: nat)
    requires p.Valid() && Places(p.needle, p.hay, e) && Places(p.needle, p.hay, e + [k]) && k < |p.hay|
        && |e| < |p.needle|
    ensures KeepsRewards(p, e + [k]) <==> KeepsRewards(p, e) && !LosesReward(p, |e|, k)
  {
    var f := e + [k];
    if KeepsRewards(p, f) {
      forall i | 0 <= i < |e| ensures !LosesReward(p, i, e[i]) {
        assert !LosesReward(p, i, f[i]);
      }
      assert !LosesReward(p, |e|, f[|e|]);
    }
  }

  /** The walk from the last cell, with no step forced. */
  function Positions(p: Problem): (e: seq<nat>)
    requires p.Valid() && LastCell(p) != MinusInf
    ensures |e| == |p.needle|
  {
    Trace(p, |p.needle| - 1, |p.hay| - 1, false)
  }

  /** match.c:203-230.  The positions always spell the needle; they reach the
      returned score exactly when no step lost a consecutive reward. */
  lemma {:induction false} PositionsOptimalIff(p: Problem)
    requires p.Valid() && LastCell(p) != MinusInf
    ensures var e := Positions(p);
            && Places(p.needle, p.hay, e)
            && Fin(AlignmentScore(p, e)).AtMost(LastCell(p))
            && (Fin(AlignmentScore(p, e)) == LastCell(p) <==> KeepsRewards(p, e))
  {
    hide EndAt, Best, BestBefore;
    TraceFaithful(p, |p.needle| - 1, |p.hay| - 1, false);
    AlignmentAtMostBest(p, Positions(p));
    PathAtMostEnd(p, Positions(p));
  }

  /** For needles of one or two bytes the walk is always optimal. */
  lemma {:induction false} ShortNeedlesOptimal(p: Problem)
    requires p.Valid() && LastCell(p) != MinusInf && |p.needle| <= 2
    ensures Places(p.needle, p.hay, Positions(p)) && Fin(AlignmentScore(p, Positions(p))) == LastCell(p)
  {
    PositionsOptimalIff(p);
    var e, n := Positions(p), |p.needle|;
    EndIsFinite(p, n - 1, e[n - 1]);
    if n == 2 && e[1] > 0 {
      EndIsFinite(p, 0, e[1] - 1);
    }
    assert !LosesReward(p, n - 1, e[n - 1]);
  }

  // ---- The program ----

  ghost predicate TablesHold(p: Problem, D: array2<Score>, M: array2<Score>)
    reads D, M
  {
    && p.Valid()
    && |p.needle| <= D.Length0 && |p.hay| <= D.Length1
    && |p.needle| <= M.Length0 && |p.hay| <= M.Length1
    && forall i, j :: 0 <= i < |p.needle| && 0 <= j < |p.hay| ==> D[i, j] == EndAt(p, i, j) && M[i, j] == Best(p, i, j)
  }

  /** The inner loop of the backtrace: the first usable cell of row `i` at or
      left of `start`, or -1. */
  method ScanLeft(p: Problem, D: array2<Score>, M: array2<Score>, i: nat, start: int, required: bool) returns (k: int)
    requires TablesHold(p, D, M) && i < |p.needle| && -1 <= start < |p.hay|
    ensures start >= 0 && Stands(p, i, start, required) ==> k == Pick(p, i, start, required)
    ensures RowEmpty(p, i, start) ==> k == -1
    ensures -1 <= k <= start
  {
    ghost var live := start >= 0 && Stands(p, i, start, required);
    k := start;
    while k >= 0
      invariant -1 <= k <= start
      invariant live ==> k >= 0 && Stands(p, i, k, required) && Pick(p, i, k, required) == Pick(p, i, start, required)
    {
      if D[i, k] != MinusInf && (required || D[i, k] == M[i, k]) {
        return;
      }
      if live {
        BestSplit(p, i, k);
      }
      k := k - 1;
    }
  }

  /** The backtrace loop.  Without an embedding it records nothing. */
  method Backtrace(p: Problem, D: array2<Score>, M: array2<Score>, positions: array<nat>)
    requires TablesHold(p, D, M) && |p.needle| <= positions.Length
    modifies positions
    ensures LastCell(p) != MinusInf ==> positions[..|p.needle|] == Positions(p)
    ensures LastCell(p) == MinusInf ==> positions[..] == old(positions[..])
    ensures positions[|p.needle|..] == old(positions[|p.needle|..])
  {
    hide EndAt, Best, BestBefore, Pick, Trace;
    var n := |p.needle|;
    var required, j := false, |p.hay| - 1;
    ghost var live := LastCell(p) != MinusInf;
    ghost var all, rest: seq<nat> := [], [];
    if live {
      all := Positions(p);
      rest := all;
    } else {
      NoCell(p);
    }
    var i := n - 1;
    while i >= 0
      invariant -1 <= i < n && -1 <= j < |p.hay|
      invariant live && i >= 0 ==> j >= 0 && Stands(p, i, j, required) && rest == Trace(p, i, j, required)
      invariant live ==> |all| == n && |rest| == i + 1
      invariant live ==> forall q :: 0 <= q <= i ==> rest[q] == all[q]
      invariant live ==> forall q :: i < q < n ==> positions[q] == all[q]
      invariant !live ==> !required && (if i == n - 1 then j == |p.hay| - 1 else j == -1)
      invariant !live ==> forall q :: 0 <= q < n ==> positions[q] == old(positions[q])
      invariant forall q :: n <= q < positions.Length ==> positions[q] == old(positions[q])
    {
      var k := ScanLeft(p, D, M, i, j, required);
      if live {
        rest := NextTrace(p, i, j, required);
      }
      if k >= 0 {
        required := i > 0 && k > 0 && M[i, k] == D[i - 1, k - 1].Plus(CONSECUTIVE);
        positions[i] := k;
        j := k - 1;
      } else {
        j := -1;
      }
      i := i - 1;
    }
    if live {
      assert positions[..n] == all;
    }
  }

  lemma {:induction false} NextTrace(p: Problem, i: nat, j: nat, forced: bool) returns (rest: seq<nat>)
    requires Stands(p, i, j, forced)
    ensures Trace(p, i, j, forced) == rest + [Pick(p, i, j, forced)]
    ensures |rest| == i
    ensures i > 0 ==> var k := Pick(p, i, j, forced);
                      && k > 0 && Stands(p, i - 1, k - 1, Forces(p, i, k))
                      && rest == Trace(p, i - 1, k - 1, Forces(p, i, k))
  {
    TraceUnfold(p, i, j, forced);
    var t := Trace(p, i, j, forced);
    rest := t[..i];
    assert t == rest + [t[i]];
  }

  predicate RowEmpty(p: Problem, i: nat, last: int)
    requires p.Valid() && i < |p.needle| && last < |p.hay|
  {
    forall j :: 0 <= j <= last ==> EndAt(p, i, j) == MinusInf
  }

  lemma {:induction false} NoCell(p: Problem)
    requires p.Valid() && LastCell(p) == MinusInf
    ensures RowEmpty(p, |p.needle| - 1, |p.hay| - 1)
  {
    var i := |p.needle| - 1;
    forall j | 0 <= j < |p.hay| ensures EndAt(p, i, j) == MinusInf {
      BestCovers(p, i, j, |p.hay| - 1);
    }
  }

  /** match_positions; a null `positions` asks for the score alone. */
  method FindPositions(needle: seq<byte>, hay: seq<byte>, positions: array?<nat>) returns (score: Score)
    requires positions != null ==> |needle| <= positions.Length
    modifies if positions == null then {} else {positions}
    ensures score == MatchScore(needle, hay)
    ensures positions != null && score.PlusInf? ==>
              forall k :: 0 <= k < |needle| ==> positions[k] == k
    ensures positions != null && score.Fin? ==>
              LastCell(Prepare(needle, hay)) != MinusInf && positions[..|needle|] == Positions(Prepare(needle, hay))
    ensures positions != null && score.MinusInf? ==> positions[..] == old(positions[..])
  {
    hide EndAt, Best, BestBefore, Trace, Pick;
    if needle == [] || |hay| > MATCH_MAX_LEN || |needle| > |hay| {
      return MinusInf;
    } else if |needle| == |hay| {
      if positions != null {
        for i := 0 to |needle|
          invariant forall k :: 0 <= k < i ==> positions[k] == k
        {
          positions[i] := i;
        }
      }
      return PlusInf;
    }
    var p := SetUp(needle, hay);
    var D, M := new Score[|needle|, MATCH_MAX_LEN], new Score[|needle|, MATCH_MAX_LEN];
    for i := 0 to |needle|
      invariant forall r :: 0 <= r < i ==> RowHolds(p, r, D, M, r)
      invariant positions != null ==> positions[..] == old(positions[..])
    {
      label before:
      MatchRow(p, i, D, M, i, if i == 0 then 0 else i - 1);
      forall r | 0 <= r < i ensures RowHolds(p, r, D, M, r) {
        assert old@before(RowHolds(p, r, D, M, r));
      }
    }
    assert TablesHold(p, D, M) by {
      forall i, j | 0 <= i < |p.needle| && 0 <= j < |p.hay|
        ensures D[i, j] == EndAt(p, i, j) && M[i, j] == Best(p, i, j)
      {
        assert RowHolds(p, i, D, M, i);
      }
    }
    if positions != null {
      Backtrace(p, D, M, positions);
    }
    score := M[|needle| - 1, |hay| - 1];
    EndIsFinite(p, |needle| - 1, |hay| - 1);
  }

  /** match.c:154-238.  Whenever has_match accepts the pair, the highlighted
      positions are increasing and spell the needle, case folded. */
  lemma {:induction false} AcceptedNeedleIsSpelled(needle: seq<byte>, hay: seq<byte>)
    requires 0 < |needle| < |hay| <= MATCH_MAX_LEN && Embeddable(Accepts, needle, hay)
    ensures LastCell(Prepare(needle, hay)) != MinusInf
    ensures Embeds(Same, Lowered(needle), Lowered(hay), Positions(Prepare(needle, hay)))
  {
    var p := Prepare(needle, hay);
    HasMatchIsScored(needle, hay);
    PositionsSpell(p);
  }

  lemma {:induction false} PositionsSpell(p: Problem)
    requires p.Valid() && LastCell(p) != MinusInf
    ensures Embeds(Same, p.needle, p.hay, Positions(p))
  {
    TracePlaces(p, |p.needle| - 1, |p.hay| - 1, false);
    FullPlacementIffEmbedding(p, Positions(p));
  }
}
