/** The visible rows of the file search, in plain terms (src/files/files_search.c:
    225-293): by score, then length, then bytes. */
module FilesRows {
  import opened CStrings
  import opened Scores
  import opened FilesFilter
  import Fzf

  ghost function ScoreOf(query: seq<byte>, path: seq<byte>): Score {
    Fzf.FuzzyScore(query, path)
  }

  /** Minus infinity is below every number, and there is nothing else. */
  predicate NotAbove(a: Score, b: Score) {
    a.MinusInf? || (a.Fin? && b.Fin? && a.value <= b.value)
  }

  lemma {:induction false} NotBetter(a: Hit, b: Hit)
    requires !Better(b, a) && !a.score.PlusInf? && !b.score.PlusInf?
    ensures NotAbove(b.score, a.score) && (b.score == a.score ==> a.pathLength <= b.pathLength)
  {
  }

  lemma {:induction false} NeverInfinite(query: seq<byte>, path: seq<byte>)
    ensures !ScoreOf(query, path).PlusInf?
  {
    hide Fzf.CellAt, Fzf.SingleFrom, Fzf.Prepare;
  }

  /** strcmp: equal bytes, then a smaller one, or the end of the shorter string. */
  lemma {:induction false} FirstDifference(a: seq<byte>, b: seq<byte>, d: nat)
    requires |a| == |b| && d < |a| && a[..d] == b[..d] && b[d] < a[d]
    ensures StrLess(b, a)
  {
    if d > 0 {
      assert a[0] == a[..d][0] == b[..d][0] == b[0];
      assert a[1..][..d - 1] == a[..d][1..] && b[1..][..d - 1] == b[..d][1..];
      FirstDifference(a[1..], b[1..], d - 1);
    }
  }

  lemma {:induction false} RowIsMatch(query: seq<byte>, paths: seq<seq<byte>>, out: seq<nat>, a: nat)
    requires IsFilterOutcome(true, query, paths, out) && a < |out|
    ensures query != [] && out[a] < |paths|
  {
    hide Fzf.FuzzyScore, Embeddable, Better, Before;
  }

  /** Of two rows the upper one scores no less; with equal scores its path is no
      longer; with equal lengths too, the lower one is not smaller where the two
      first differ. */
  lemma {:induction false} RowsInOrder(query: seq<byte>, paths: seq<seq<byte>>, out: seq<nat>, a: nat, b: nat)
    requires IsFilterOutcome(true, query, paths, out) && a < b < |out|
    ensures out[a] < |paths| && out[b] < |paths|
    ensures var upper, lower := paths[out[a]], paths[out[b]];
            && NotAbove(ScoreOf(query, lower), ScoreOf(query, upper))
            && (ScoreOf(query, lower) == ScoreOf(query, upper) ==> |upper| <= |lower|)
            && (ScoreOf(query, lower) == ScoreOf(query, upper) && |upper| == |lower| ==>
                  forall d :: 0 <= d < |upper| && upper[..d] == lower[..d] ==> upper[d] <= lower[d])
  {
    hide Fzf.FuzzyScore, Embeddable, StrLess, Better;
    RowIsMatch(query, paths, out, a);
    RowIsMatch(query, paths, out, b);
    var upper, lower := paths[out[a]], paths[out[b]];
    NeverInfinite(query, upper);
    NeverInfinite(query, lower);
    var h, l := HitOf(query, paths, out[a]), HitOf(query, paths, out[b]);
    assert !Before(paths, l, h);
    NotBetter(h, l);
    if h.score == l.score && |upper| == |lower| {
      forall d | 0 <= d < |upper| && upper[..d] == lower[..d] ensures upper[d] <= lower[d] {
        if lower[d] < upper[d] {
          FirstDifference(upper, lower, d);
        }
      }
    }
  }

  /** A match that is not shown scores no more than any row, and with the same score
      its path is no shorter. */
  lemma {:induction false} NothingBetterLeftOut(query: seq<byte>, paths: seq<seq<byte>>, out: seq<nat>, i: nat, a: nat)
    requires IsFilterOutcome(true, query, paths, out) && a < |out| && i < |paths| && i !in out
    requires Matches(query, paths[i])
    ensures out[a] < |paths| && NotAbove(ScoreOf(query, paths[i]), ScoreOf(query, paths[out[a]]))
    ensures ScoreOf(query, paths[i]) == ScoreOf(query, paths[out[a]]) ==> |paths[out[a]]| <= |paths[i]|
  {
    hide Fzf.FuzzyScore, Embeddable, Before, Better;
    RowIsMatch(query, paths, out, a);
    NeverInfinite(query, paths[i]);
    NeverInfinite(query, paths[out[a]]);
    NotBetter(HitOf(query, paths, out[a]), HitOf(query, paths, i));
  }

  ghost function MatchesAmong(query: seq<byte>, paths: seq<seq<byte>>, n: nat): set<nat>
    requires n <= |paths|
  {
    set i: nat | i < n && Matches(query, paths[i])
  }

  lemma {:induction false} MatchesCounted(query: seq<byte>, paths: seq<seq<byte>>, n: nat)
    requires n <= |paths|
    ensures MatchCount(query, paths, n) == |MatchesAmong(query, paths, n)|
  {
    hide Matches;
    if n == 0 {
      assert MatchesAmong(query, paths, 0) == {};
    } else {
      MatchesCounted(query, paths, n - 1);
      var before := MatchesAmong(query, paths, n - 1);
      assert MatchesAmong(query, paths, n) == if Matches(query, paths[n - 1]) then before + {n - 1} else before;
    }
  }

  /** The rows are matches, different ones, fifty of them or as many as there are;
      without a cache or a query there are none. */
  lemma {:induction false} RowsAreMatches(cacheValid: bool, query: seq<byte>, paths: seq<seq<byte>>, out: seq<nat>)
    requires IsFilterOutcome(cacheValid, query, paths, out)
    ensures forall k :: 0 <= k < |out| ==> out[k] < |paths| && Matches(query, paths[out[k]])
    ensures forall a, b :: 0 <= a < b < |out| ==> out[a] != out[b]
    ensures !cacheValid || query == [] ==> out == []
    ensures cacheValid && query != [] ==>
              var n := |MatchesAmong(query, paths, |paths|)|; |out| == if n < 50 then n else 50
  {
    hide Matches, Better, Before, Fzf.FuzzyScore;
    MatchesCounted(query, paths, |paths|);
  }
}
