/** What the tables of `Match` mean: they hold maxima of an alignment score over
    all embeddings of the needle. */
module MatchAlignment {
  import opened CStrings
  import opened Scores
  import opened Match

  /** Reward for a byte placed at `b` when the byte before it sits at `a`. */
  function StepScore(p: Problem, a: nat, b: nat): int
    requires p.Valid() && b < |p.hay|
  {
    if b == a + 1 then MaxInt(p.bonus[b], CONSECUTIVE) else GAP_INNER * (b - a - 1) + p.bonus[b]
  }

  /** Score of the placed bytes, up to and including the last one. */
  function PathScore(p: Problem, e: seq<nat>): int
    requires p.Valid() && Places(p.needle, p.hay, e)
  {
    if |e| == 1 then e[0] * GAP_LEADING + p.bonus[e[0]]
    else
      PlacesPrefix(p.needle, p.hay, e);
      PathScore(p, e[..|e| - 1]) + StepScore(p, e[|e| - 2], e[|e| - 1])
  }

  /** Score of a full placement: the rest of the haystack is a trailing gap. */
  function AlignmentScore(p: Problem, e: seq<nat>): int
    requires p.Valid() && Places(p.needle, p.hay, e) && |e| == |p.needle|
  {
    PathScore(p, e) + GAP_TRAILING * (|p.hay| - 1 - e[|e| - 1])
  }

  lemma {:induction false} PathScoreExtend(p: Problem, e: seq<nat>, j: nat)
    requires p.Valid() && Places(p.needle, p.hay, e) && Places(p.needle, p.hay, e + [j]) && j < |p.hay|
    ensures PathScore(p, e + [j]) == PathScore(p, e) + StepScore(p, e[|e| - 1], j)
  {
    assert (e + [j])[..|e|] == e;
  }

  // ---- The tables bound every placement ----

  /** M[i][j] is at least D[i][k] less the gap from k to j. */
  lemma {:induction false} BestCovers(p: Problem, i: nat, k: nat, j: nat)
    requires p.Valid() && i < |p.needle| && k <= j < |p.hay|
    ensures EndAt(p, i, k).Plus(GapCost(p, i, j - k)).AtMost(Best(p, i, j))
  {
    if k < j {
      BestCovers(p, i, k, j - 1);
      assert Best(p, i, j) == Max(EndAt(p, i, j), Best(p, i, j - 1).Plus(GapCost(p, i, 1)));
    }
  }

  lemma {:induction false} PathAtMostEnd(p: Problem, e: seq<nat>)
    requires p.Valid() && Places(p.needle, p.hay, e)
    ensures Fin(PathScore(p, e)).AtMost(EndAt(p, |e| - 1, e[|e| - 1]))
    decreases |e|
  {
    var i, j := |e| - 1, e[|e| - 1];
    assert Same(p.needle[..|e|][i], p.hay[j]);
    if i > 0 {
      PlacesPrefix(p.needle, p.hay, e);
      var a := e[i - 1];
      assert a < j;
      PathAtMostEnd(p, e[..i]);
      BestCovers(p, i - 1, a, j - 1);
    }
  }

  lemma {:induction false} AlignmentAtMostBest(p: Problem, e: seq<nat>)
    requires p.Valid() && Places(p.needle, p.hay, e) && |e| == |p.needle|
    ensures Fin(AlignmentScore(p, e)).AtMost(LastCell(p))
  {
    PathAtMostEnd(p, e);
    BestCovers(p, |e| - 1, e[|e| - 1], |p.hay| - 1);
  }

  // ---- The tables are attained ----

  lemma {:induction false} BestAttained(p: Problem, i: nat, j: nat) returns (k: nat)
    requires p.Valid() && i < |p.needle| && j < |p.hay| && Best(p, i, j) != MinusInf
    ensures k <= j && EndAt(p, i, k) != MinusInf
    ensures EndAt(p, i, k).Plus(GapCost(p, i, j - k)) == Best(p, i, j)
  {
    if Best(p, i, j) == EndAt(p, i, j) {
      k := j;
    } else {
      k := BestAttained(p, i, j - 1);
    }
  }

  lemma {:induction false} EndIsFinite(p: Problem, i: nat, j: nat)
    requires p.Valid() && i < |p.needle| && j < |p.hay|
    ensures !EndAt(p, i, j).PlusInf? && !Best(p, i, j).PlusInf?
    decreases i, j
  {
    if i > 0 && j > 0 {
      EndIsFinite(p, i - 1, j - 1);
    }
    if j > 0 {
      EndIsFinite(p, i, j - 1);
    }
  }

  /** The placement a cell of D extends: the diagonal neighbour's own, or the
      best one left of it. */
  lemma {:induction false} EndPredecessor(p: Problem, i: nat, j: nat) returns (a: nat)
    requires p.Valid() && 0 < i < |p.needle| && 0 < j < |p.hay| && EndAt(p, i, j) != MinusInf
    ensures a < j && EndAt(p, i - 1, a).Fin?
    ensures EndAt(p, i, j).AtMost(EndAt(p, i - 1, a).Plus(StepScore(p, a, j)))
  {
    EndIsFinite(p, i - 1, j - 1);
    if EndAt(p, i, j) == EndAt(p, i - 1, j - 1).Plus(CONSECUTIVE) {
      a := j - 1;
    } else {
      a := BestAttained(p, i - 1, j - 1);
      EndIsFinite(p, i - 1, a);
    }
  }

  lemma {:induction false} EndAttained(p: Problem, i: nat, j: nat) returns (e: seq<nat>)
    requires p.Valid() && i < |p.needle| && j < |p.hay| && EndAt(p, i, j) != MinusInf
    ensures Places(p.needle, p.hay, e) && |e| == i + 1 && e[i] == j
    ensures EndAt(p, i, j) == Fin(PathScore(p, e))
    decreases i
  {
    if i == 0 {
      e := [j];
    } else {
      var a := EndPredecessor(p, i, j);
      var front := EndAttained(p, i - 1, a);
      PlacesExtend(p.needle, p.hay, front, j);
      PathScoreExtend(p, front, j);
      e := front + [j];
      PathAtMostEnd(p, e);
    }
  }

  /** `score` is the maximum alignment score of `p`, minus infinity if there is
      nothing to align. */
  ghost predicate IsMaximum(p: Problem, score: Score)
    requires p.Valid()
  {
    match score
    case MinusInf => forall e :: Places(p.needle, p.hay, e) ==> |e| < |p.needle|
    case PlusInf => false
    case Fin(v) =>
      && (exists e :: Places(p.needle, p.hay, e) && |e| == |p.needle| && AlignmentScore(p, e) == v)
      && forall e :: Places(p.needle, p.hay, e) && |e| == |p.needle| ==> AlignmentScore(p, e) <= v
  }

  lemma {:induction false} BestIsMaximum(p: Problem)
    requires p.Valid()
    ensures IsMaximum(p, LastCell(p))
  {
    hide EndAt, Best, BestBefore, PathScore, Embeds;
    var i, j := |p.needle| - 1, |p.hay| - 1;
    EndIsFinite(p, i, j);
    forall e | Places(p.needle, p.hay, e) && |e| == |p.needle|
      ensures Fin(AlignmentScore(p, e)).AtMost(LastCell(p))
    {
      AlignmentAtMostBest(p, e);
    }
    if Best(p, i, j) != MinusInf {
      var k := BestAttained(p, i, j);
      var e := EndAttained(p, i, k);
      assert Fin(AlignmentScore(p, e)) == LastCell(p);
    }
  }

  /** match.c:105-152.  For a needle shorter than a haystack of at most 1024
      bytes, the score is the best alignment score of any embedding. */
  lemma {:induction false} MatchIsOptimal(needle: seq<byte>, hay: seq<byte>)
    requires 0 < |needle| < |hay| <= 1024
    ensures IsMaximum(Prepare(needle, hay), MatchScore(needle, hay))
  {
    BestIsMaximum(Prepare(needle, hay));
  }

  // ---- Consequences ----

  lemma {:induction false} FullPlacementIffEmbedding(p: Problem, e: seq<nat>)
    requires p.Valid()
    ensures Places(p.needle, p.hay, e) && |e| == |p.needle| <==> Embeds(Same, p.needle, p.hay, e)
  {
    assert p.needle[..|p.needle|] == p.needle;
  }

  /** The score separates exactly the haystacks that embed the needle, case
      folded, from those that do not. */
  lemma {:induction false} FiniteIffEmbeddable(needle: seq<byte>, hay: seq<byte>)
    requires 0 < |needle| < |hay|
    ensures MatchScore(needle, hay) != MinusInf <==>
            |hay| <= 1024 && Embeddable(Same, Lowered(needle), Lowered(hay))
  {
    if |hay| > MATCH_MAX_LEN {
      return;
    }
    var p := Prepare(needle, hay);
    MatchIsOptimal(needle, hay);
    forall e ensures Places(p.needle, p.hay, e) && |e| == |p.needle| <==> Embeds(Same, p.needle, p.hay, e) {
      FullPlacementIffEmbedding(p, e);
    }
    if MatchScore(needle, hay) == MinusInf {
      forall e ensures !Embeds(Same, p.needle, p.hay, e) {
        assert !(Places(p.needle, p.hay, e) && |e| == |p.needle|);
      }
    } else {
      var e :| Places(p.needle, p.hay, e) && |e| == |p.needle| && AlignmentScore(p, e) == MatchScore(needle, hay).value;
      assert Embeds(Same, p.needle, p.hay, e);
    }
  }

  /** An embedding found by has_match is a case-folded embedding. */
  lemma {:induction false} AcceptedIsSame(needle: seq<byte>, hay: seq<byte>, e: seq<nat>)
    requires Embeds(Accepts, needle, hay, e)
    ensures Embeds(Same, Lowered(needle), Lowered(hay), e)
  {
    forall k | 0 <= k < |e| ensures Same(Lowered(needle)[k], Lowered(hay)[e[k]]) {
      assert Accepts(needle[k], hay[e[k]]);
    }
  }

  /** Every string has_match accepts gets a score above minus infinity. */
  lemma {:induction false} HasMatchIsScored(needle: seq<byte>, hay: seq<byte>)
    requires 0 < |needle| && |hay| <= MATCH_MAX_LEN
    requires Embeddable(Accepts, needle, hay)
    ensures MatchScore(needle, hay) != MinusInf
    ensures |needle| == |hay| ==> Lowered(needle) == Lowered(hay)
  {
    var e :| Embeds(Accepts, needle, hay, e);
    EmbeddingFits(Accepts, needle, hay, e);
    AcceptedIsSame(needle, hay, e);
    if |needle| < |hay| {
      FiniteIffEmbeddable(needle, hay);
    } else {
      IdentityEmbedding(e, |hay|);
      forall k | 0 <= k < |needle| ensures Lowered(needle)[k] == Lowered(hay)[k] {
        assert Same(Lowered(needle)[k], Lowered(hay)[e[k]]);
      }
    }
  }

  lemma {:induction false} IdentityEmbedding(e: seq<nat>, n: nat)
    requires Increasing(e) && |e| == n && forall k :: 0 <= k < n ==> e[k] < n
    ensures forall k :: 0 <= k < n ==> e[k] == k
  {
    forall k | 0 <= k < n ensures e[k] == k {
      IncreasingSpreads(e, k);
      RoomOnTheRight(e, k, n);
    }
  }

  lemma {:induction false} RoomOnTheRight(e: seq<nat>, k: nat, n: nat)
    requires Increasing(e) && |e| == n && k < n && forall q :: 0 <= q < n ==> e[q] < n
    ensures e[k] <= k
    decreases n - k
  {
    if k + 1 < n {
      RoomOnTheRight(e, k + 1, n);
    }
  }

  /** match.c:14-29 against match.c:63-67.  has_match does not fold the needle's
      case, the scorer does: they agree on every haystack exactly when the
      needle holds no upper-case letter. */
  lemma {:induction false} HasMatchAgreesIffNoUpper(needle: seq<byte>)
    ensures (forall k :: 0 <= k < |needle| ==> !IsUpper(needle[k])) <==>
            (forall hay :: Embeddable(Accepts, needle, hay) <==> Embeddable(Same, Lowered(needle), Lowered(hay)))
  {
    if forall k :: 0 <= k < |needle| ==> !IsUpper(needle[k]) {
      forall hay ensures Embeddable(Accepts, needle, hay) <==> Embeddable(Same, Lowered(needle), Lowered(hay)) {
        if e :| Embeds(Accepts, needle, hay, e) {
          AcceptedIsSame(needle, hay, e);
        }
        if e :| Embeds(Same, Lowered(needle), Lowered(hay), e) {
          forall k | 0 <= k < |e| ensures Accepts(needle[k], hay[e[k]]) {
            assert Same(Lowered(needle)[k], Lowered(hay)[e[k]]);
          }
          assert Embeds(Accepts, needle, hay, e);
        }
      }
    } else {
      var k :| 0 <= k < |needle| && IsUpper(needle[k]);
      var hay := Lowered(needle);
      var id := seq(|needle|, q requires 0 <= q < |needle| => q);
      assert Embeds(Same, Lowered(needle), Lowered(hay), id);
      if e :| Embeds(Accepts, needle, hay, e) {
        LoweredSelfMatch(needle, e);
      }
    }
  }

  /** Only a needle without upper-case letters accepts its own lower-case form. */
  lemma {:induction false} LoweredSelfMatch(needle: seq<byte>, e: seq<nat>)
    requires Embeds(Accepts, needle, Lowered(needle), e)
    ensures forall k :: 0 <= k < |needle| ==> !IsUpper(needle[k])
  {
    IdentityEmbedding(e, |needle|);
    forall k | 0 <= k < |needle| ensures !IsUpper(needle[k]) {
      assert Accepts(needle[k], Lowered(needle)[e[k]]);
    }
  }

  // ---- Score range ----

  lemma {:induction false} PathRange(p: Problem, e: seq<nat>)
    requires p.Valid() && Places(p.needle, p.hay, e) && forall k :: 0 <= k < |p.bonus| ==> 0 <= p.bonus[k] <= 9
    ensures GAP_INNER * e[|e| - 1] <= PathScore(p, e) <= CONSECUTIVE * |e|
    decreases |e|
  {
    if |e| > 1 {
      PlacesPrefix(p.needle, p.hay, e);
      PathRange(p, e[..|e| - 1]);
      assert e[|e| - 2] < e[|e| - 1];
    }
  }

  /** match.c:105-152 and config.h:145-153: the range of a finite score. */
  lemma {:induction false} MatchRange(needle: seq<byte>, hay: seq<byte>)
    requires 0 < |needle| < |hay| <= MATCH_MAX_LEN && MatchScore(needle, hay) != MinusInf
    ensures MatchScore(needle, hay).Fin?
    ensures GAP_INNER * |hay| <= MatchScore(needle, hay).value <= CONSECUTIVE * |needle|
  {
    var p := Prepare(needle, hay);
    MatchIsOptimal(needle, hay);
    var e :| Places(p.needle, p.hay, e) && |e| == |p.needle| && AlignmentScore(p, e) == MatchScore(needle, hay).value;
    PathRange(p, e);
  }
}
