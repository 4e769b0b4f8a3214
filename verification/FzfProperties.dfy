/** What the fzf-style score means: when there is one, its range, and what it
    depends on. */
module FzfProperties {
  import opened CStrings
  import opened Scores
  import opened Fzf

  // ---- A score exists exactly for an embedded needle ----

  /** An embedding that ends before the last byte lies in the text without it. */
  lemma {:induction false} EmbedsInFront(needle: seq<byte>, text: seq<byte>, e: seq<nat>)
    requires text != [] && Embeds(Same, needle, text, e) && (e == [] || e[|e| - 1] < |text| - 1)
    ensures Embeds(Same, needle, text[..|text| - 1], e)
  {
    forall q | 0 <= q < |e| ensures e[q] < |text| - 1 && Same(needle[q], text[..|text| - 1][e[q]]) {
      assert Same(needle[q], text[e[q]]) && e[q] <= e[|e| - 1];
    }
  }

  /** Without its last byte an embedding lies before that byte. */
  lemma {:induction false} EmbedsInit(needle: seq<byte>, text: seq<byte>, e: seq<nat>)
    requires needle != [] && text != [] && Embeds(Same, needle, text, e)
    ensures Embeds(Same, needle[..|needle| - 1], text[..|text| - 1], e[..|e| - 1])
  {
    var f := e[..|e| - 1];
    assert Same(needle[|e| - 1], text[e[|e| - 1]]);
    forall q | 0 <= q < |f| ensures f[q] < |text| - 1 && Same(needle[..|needle| - 1][q], text[..|text| - 1][f[q]]) {
      assert Same(needle[q], text[e[q]]) && e[q] < e[|e| - 1];
    }
  }

  /** Greedy scanning keeps up with every embedding. */
  lemma {:induction false} FirstsKeepUp(needle: seq<byte>, text: seq<byte>, e: seq<nat>, k: nat)
    requires k <= |needle| && Embeds(Same, needle[..k], text, e)
    ensures |Firsts(needle, text)| >= k
    decreases |text|
  {
    hide Firsts;
    if k > 0 {
      assert Same(needle[..k][k - 1], text[e[k - 1]]);
      var n := |text| - 1;
      assert text[..n + 1] == text;
      FirstsStep(needle, text, n);
      if e[k - 1] < n {
        EmbedsInFront(needle[..k], text, e);
        FirstsKeepUp(needle, text[..n], e, k);
      } else {
        EmbedsInit(needle[..k], text, e);
        assert needle[..k][..k - 1] == needle[..k - 1];
        FirstsKeepUp(needle, text[..n], e[..k - 1], k - 1);
      }
    }
  }

  lemma {:induction false} FirstsCompleteIff(needle: seq<byte>, text: seq<byte>)
    ensures |Firsts(needle, text)| == |needle| <==> Embeddable(Same, needle, text)
  {
    var f := Firsts(needle, text);
    if |f| == |needle| {
      assert Embeds(Same, needle, text, f);
    }
    if e :| Embeds(Same, needle, text, e) {
      assert needle[..|needle|] == needle;
      FirstsKeepUp(needle, text, e, |needle|);
    }
  }

  /** fzf_algo.c:184-283.  A non-empty needle gets a score exactly when it is a
      case-folded subsequence of a haystack of at most 1024 bytes. */
  lemma {:induction false} ScoredIffEmbedded(needle: seq<byte>, hay: seq<byte>)
    requires needle != []
    ensures FuzzyScore(needle, hay) != MinusInf <==>
            |hay| <= 1024 && Embeddable(Same, Lowered(needle), Lowered(hay))
  {
    FirstsCompleteIff(Lowered(needle), Lowered(hay));
    if e :| Embeds(Same, Lowered(needle), Lowered(hay), e) {
      EmbeddingFits(Same, Lowered(needle), Lowered(hay), e);
    }
  }

  /** The two ASCII comparisons agree byte by byte. */
  lemma {:induction false} AsciiEmbeddings(needle: seq<byte>, hay: seq<byte>, e: seq<nat>)
    requires IsAscii(needle)
    ensures Embeds(SameSigned, needle, hay, e) <==> Embeds(Same, Lowered(needle), Lowered(hay), e)
  {
    if |e| == |needle| {
      forall k | 0 <= k < |e| && e[k] < |hay|
        ensures SameSigned(needle[k], hay[e[k]]) <==> Same(Lowered(needle)[k], Lowered(hay)[e[k]])
      {
      }
    }
  }

  ghost predicate Agree(needle: seq<byte>, hay: seq<byte>) {
    Embeddable(SameSigned, needle, hay) <==> FuzzyScore(needle, hay) != MinusInf
  }

  lemma {:induction false} AsciiAgrees(needle: seq<byte>, hay: seq<byte>)
    requires IsAscii(needle) && |hay| <= FZF_MAX_LEN
    ensures Agree(needle, hay)
  {
    if needle == [] {
      assert Embeds(SameSigned, needle, hay, []);
    } else {
      ScoredIffEmbedded(needle, hay);
      if e :| Embeds(SameSigned, needle, hay, e) {
        AsciiEmbeddings(needle, hay, e);
      }
      if e :| Embeds(Same, Lowered(needle), Lowered(hay), e) {
        AsciiEmbeddings(needle, hay, e);
      }
    }
  }

  /** A needle with a byte above 127 scores against itself, but the quick check
      never accepts it: a signed char is never equal to a byte above 127. */
  lemma {:induction false} NonAsciiDisagrees(needle: seq<byte>)
    requires !IsAscii(needle) && |needle| <= FZF_MAX_LEN
    ensures !Agree(needle, needle)
  {
    hide FuzzyScore;
    var id := seq(|needle|, q requires 0 <= q < |needle| => q);
    assert Embeds(Same, Lowered(needle), Lowered(needle), id);
    ScoredIffEmbedded(needle, needle);
    if e :| Embeds(SameSigned, needle, needle, e) {
      AcceptedIsAscii(needle, needle, e);
    }
  }

  lemma {:induction false} AcceptedIsAscii(needle: seq<byte>, hay: seq<byte>, e: seq<nat>)
    requires Embeds(SameSigned, needle, hay, e)
    ensures IsAscii(needle)
  {
    forall k | 0 <= k < |needle| ensures needle[k] < 128 {
      assert SameSigned(needle[k], hay[e[k]]);
    }
  }

  /** fzf_algo.c:156-175 against 184-283.  The quick check and the scorer agree
      on every haystack of at most 1024 bytes exactly for ASCII needles. */
  lemma {:induction false} AgreeIffAscii(needle: seq<byte>)
    requires |needle| <= FZF_MAX_LEN && IsCString(needle)
    ensures IsAscii(needle) <==> forall hay :: IsCString(hay) && |hay| <= FZF_MAX_LEN ==> Agree(needle, hay)
  {
    if IsAscii(needle) {
      forall hay | IsCString(hay) && |hay| <= FZF_MAX_LEN ensures Agree(needle, hay) {
        AsciiAgrees(needle, hay);
      }
    } else {
      NonAsciiDisagrees(needle);
    }
  }

  // ---- Range ----

  lemma {:induction false} SingleRange(needle0: byte, text: seq<byte>, bonus: seq<int>, i: nat, best: int)
    requires i <= |text| == |bonus| && forall k :: 0 <= k < |bonus| ==> 0 <= bonus[k] <= BONUS_BOUNDARY_WHITE
    requires 0 <= best <= 36
    ensures best <= SingleFrom(needle0, text, bonus, i, best) <= 36
    ensures (exists k :: i <= k < |text| && text[k] == needle0) ==>
        SingleFrom(needle0, text, bonus, i, best) >= SCORE_MATCH
    decreases |text| - i
  {
    if i < |text| {
      var score := SCORE_MATCH + 2 * bonus[i];
      SingleRange(needle0, text, bonus, i + 1, best);
      SingleRange(needle0, text, bonus, i + 1, score);
    }
  }

  /** At the leftmost occurrence of its byte, a row scores at least one match. */
  lemma {:induction false} CellAtFirst(p: Problem, i: nat)
    requires p.Valid() && i < |p.needle|
    ensures p.firsts[0] <= p.firsts[i] && CellAt(p, i, p.firsts[i]).score >= SCORE_MATCH
  {
    if i > 0 {
      CellStep(p, i, p.firsts[i]);
    }
  }

  /** fzf_algo.c:365-377.  A match of M bytes scores between 16 and 26M + 10, so
      every value fits a signed 16-bit integer. */
  lemma {:induction false} ScoreRange(needle: seq<byte>, hay: seq<byte>)
    requires needle != [] && FuzzyScore(needle, hay) != MinusInf
    ensures FuzzyScore(needle, hay).Fin?
    ensures SCORE_MATCH <= FuzzyScore(needle, hay).value <= 26 * |needle| + 10 < 0x8000
  {
    var p := Prepare(needle, hay);
    if |needle| == 1 {
      assert p.text[p.firsts[0]] == p.needle[0];
      SingleRange(p.needle[0], p.text, p.bonus, 0, 0);
    } else {
      CellAtFirst(p, |needle| - 1);
    }
  }

  /** The consecutive count of a cell is the length of a run of needle bytes
      that really lie side by side in the text. */
  lemma {:induction false} RunsAreRuns(p: Problem, i: nat, col: nat, t: nat)
    requires p.Valid() && i < |p.needle| && p.firsts[0] <= col < |p.text| && t < CellAt(p, i, col).run
    ensures t <= i && p.firsts[0] <= col - t && p.text[col - t] == p.needle[i - t]
    decreases i
  {
    hide CellAt, FirstRow;
    if i > 0 {
      if col < p.firsts[i] {
        CellZero(p, i, col);
      } else {
        CellStep(p, i, col);
        if t > 0 {
          RunsAreRuns(p, i - 1, col - 1, t - 1);
        }
      }
    } else {
      CellRowZero(p, col);
      FirstRowStep(p.needle[0], p.text, p.bonus, col);
    }
  }

  // ---- Appending to the haystack ----

  /** `q` is `p` over a longer text. */
  ghost predicate Extends(p: Problem, q: Problem) {
    && p.Valid() && q.Valid() && p.needle == q.needle && p.firsts == q.firsts
    && p.text <= q.text && p.bonus <= q.bonus
  }

  lemma {:induction false} FirstRowStable(needle0: byte, text: seq<byte>, bonus: seq<int>, text': seq<byte>,
                                          bonus': seq<int>,
                                          col: nat)
    requires col < |text| == |bonus| && |text'| == |bonus'| && text <= text' && bonus <= bonus'
    ensures FirstRow(needle0, text', bonus', col) == FirstRow(needle0, text, bonus, col)
  {
    if col > 0 {
      FirstRowStable(needle0, text, bonus, text', bonus', col - 1);
    }
  }

  lemma {:induction false} CellsStable(p: Problem, q: Problem, i: nat, col: nat)
    requires Extends(p, q) && i < |p.needle| && p.firsts[0] <= col < |p.text|
    ensures CellAt(q, i, col) == CellAt(p, i, col)
    decreases i, col
  {
    hide Fill, CellAt, FirstRow;
    if i == 0 {
      CellRowZero(p, col);
      CellRowZero(q, col);
      FirstRowStable(p.needle[0], p.text, p.bonus, q.text, q.bonus, col);
    } else if col >= p.firsts[i] {
      CellStep(p, i, col);
      CellStep(q, i, col);
      CellsStable(p, q, i, col - 1);
      CellsStable(p, q, i - 1, col - 1);
    } else {
      CellZero(p, i, col);
      CellZero(q, i, col);
    }
  }

  lemma {:induction false} LoweredConcat(hay: seq<byte>, tail: seq<byte>)
    ensures Lowered(hay + tail)[..|hay|] == Lowered(hay)
  {
  }

  lemma {:induction false} PrepareExtends(needle: seq<byte>, hay: seq<byte>, tail: seq<byte>)
    requires needle != [] && |Prepare(needle, hay).firsts| == |needle|
    ensures Extends(Prepare(needle, hay), Prepare(needle, hay + tail))
  {
    LoweredConcat(hay, tail);
    FirstsGrow(Lowered(needle), Lowered(hay + tail), |hay|);
  }

  lemma {:induction false} SingleNeverLower(needle0: byte, text: seq<byte>, bonus: seq<int>, text': seq<byte>,
                                            bonus': seq<int>,
                                            i: nat, best: int)
    requires i <= |text| == |bonus| && |text'| == |bonus'| && text <= text' && bonus <= bonus'
    requires forall k :: 0 <= k < |bonus'| ==> 0 <= bonus'[k] <= BONUS_BOUNDARY_WHITE
    requires 0 <= best <= 36
    ensures SingleFrom(needle0, text, bonus, i, best) <= SingleFrom(needle0, text', bonus', i, best)
    decreases |text| - i
  {
    if i == |text| {
      SingleRange(needle0, text', bonus', i, best);
    } else {
      var score := SCORE_MATCH + 2 * bonus[i];
      assert bonus'[i] == bonus[i] && text'[i] == text[i];
      SingleNeverLower(needle0, text, bonus, text', bonus', i + 1, best);
      SingleNeverLower(needle0, text, bonus, text', bonus', i + 1, score);
    }
  }

  /** fzf_algo.c:236-283 and 365-377.  Text appended after a match leaves the
      score of needles of two bytes and more as it is, and never lowers that of
      a single byte. */
  lemma {:induction false} AppendingKeepsScore(needle: seq<byte>, hay: seq<byte>, tail: seq<byte>)
    requires needle != [] && FuzzyScore(needle, hay) != MinusInf && |hay + tail| <= FZF_MAX_LEN
    ensures |needle| > 1 ==> FuzzyScore(needle, hay + tail) == FuzzyScore(needle, hay)
    ensures FuzzyScore(needle, hay).AtMost(FuzzyScore(needle, hay + tail))
  {
    hide CellAt, SingleFrom, Firsts;
    var p, q := Prepare(needle, hay), Prepare(needle, hay + tail);
    PrepareExtends(needle, hay, tail);
    if |needle| == 1 {
      SingleNeverLower(p.needle[0], p.text, p.bonus, q.text, q.bonus, 0, 0);
    } else {
      CellAtFirst(p, |needle| - 1);
      CellsStable(p, q, |needle| - 1, p.firsts[|needle| - 1]);
    }
  }

  /** Hence the score of a longer needle depends only on the haystack up to the
      end of its leftmost embedding: no later, better placement is seen. */
  lemma {:induction false} OnlyLeftmostCounts(needle: seq<byte>, hay: seq<byte>, cut: nat)
    requires |needle| > 1 && FuzzyScore(needle, hay) != MinusInf
    requires cut == Prepare(needle, hay).firsts[|needle| - 1] + 1
    ensures cut <= |hay| && FuzzyScore(needle, hay) == FuzzyScore(needle, hay[..cut])
  {
    hide FuzzyScore;
    ScoredHasFirsts(needle, hay);
    var front, tail := hay[..cut], hay[cut..];
    assert hay == front + tail;
    FirstsReach(needle, hay, cut);
    ScoredIffEmbedded(needle, front);
    AppendingKeepsScore(needle, front, tail);
  }

  lemma {:induction false} ScoredHasFirsts(needle: seq<byte>, hay: seq<byte>)
    requires needle != [] && FuzzyScore(needle, hay) != MinusInf
    ensures |Prepare(needle, hay).firsts| == |needle| && |hay| <= FZF_MAX_LEN && Prepare(needle, hay).Valid()
  {
    hide CellAt, SingleFrom, Firsts;
  }

  /** The leftmost embedding lies within the text up to its last byte. */
  lemma {:induction false} FirstsReach(needle: seq<byte>, hay: seq<byte>, cut: nat)
    requires needle != [] && |Prepare(needle, hay).firsts| == |needle| && Prepare(needle, hay).Valid()
    requires cut == Prepare(needle, hay).firsts[|needle| - 1] + 1
    ensures cut <= |hay| && Embeddable(Same, Lowered(needle), Lowered(hay[..cut]))
  {
    hide Firsts;
    var p := Prepare(needle, hay);
    forall k | 0 <= k < |needle|
      ensures p.firsts[k] < cut && Same(Lowered(needle)[k], Lowered(hay[..cut])[p.firsts[k]])
    {
      assert p.firsts[k] <= p.firsts[|needle| - 1];
      assert p.text[p.firsts[k]] == p.needle[k];
    }
    assert Embeds(Same, Lowered(needle), Lowered(hay[..cut]), p.firsts);
  }

  lemma {:induction false} FirstsTake(needle: seq<byte>, text: seq<byte>, i: nat, f: seq<nat>)
    requires i < |text| && Firsts(needle, text[..i]) == f && |f| < |needle| && text[i] == needle[|f|]
    ensures Firsts(needle, text[..i + 1]) == f + [i]
  {
    hide Firsts;
    FirstsStep(needle, text, i);
  }

  lemma {:induction false} FirstsPass(needle: seq<byte>, text: seq<byte>, i: nat, f: seq<nat>)
    requires i < |text| && Firsts(needle, text[..i]) == f && |f| < |needle| && text[i] != needle[|f|]
    ensures Firsts(needle, text[..i + 1]) == f
  {
    hide Firsts;
    FirstsStep(needle, text, i);
  }

  lemma {:induction false} FirstRowStep(needle0: byte, text: seq<byte>, bonus: seq<int>, col: nat)
    requires col < |text| == |bonus|
    ensures text[col] == needle0 ==> FirstRow(needle0, text, bonus, col) == Cell(SCORE_MATCH + 2 * bonus[col], 1, false)
    ensures text[col] != needle0 && col > 0 ==>
              FirstRow(needle0, text, bonus, col)
              == Cell(MaxInt(GapStep(FirstRow(needle0, text, bonus, col - 1)), 0), 0, true)
  {
  }
}
