/** The emoji ranking of src/emoji/emoji_provider.c: what a query token is worth
    to an entry, and how its tiers are kept apart. */
module EmojiRank {
  import opened CStrings
  import opened EmojiPairs
  import opened Fzf
  import opened FzfProperties
  import opened Scores
  import opened Words

  const TIER_BASES: seq<int> := [0, 5000, 15000, 30000, 100000, 200000, 300000]
  const NAME_WEIGHT := 8
  const ALIASES_WEIGHT := 7
  const KEYWORDS_WEIGHT := 2
  const MAX_TOKEN_LEN: nat := 63
  const INT_MAX := 0x7fff_ffff
  const PAIR_BONUS := 200
  const COVERAGE_BONUS := 800

  datatype Entry = Entry(name: seq<byte>, aliases: seq<byte>, keywords: seq<byte>)

  predicate IsEntry(e: Entry) {
    IsCString(e.name) && IsCString(e.aliases) && IsCString(e.keywords)
  }

  /** weighted_positive_score */
  function Weighted(score: Score, weight: nat): (w: int)
    ensures w >= 0
    ensures score == MinusInf ==> w == 0
    ensures score.Fin? && 0 <= score.value * weight <= INT_MAX ==> w == score.value * weight
  {
    match score
    case MinusInf => 0
    case PlusInf => INT_MAX
    case Fin(v) => if v <= 0 then 0 else if v * weight > INT_MAX then INT_MAX else v * weight
  }

  /** The best weighted score of the three fields. */
  ghost function Contribution(token: seq<byte>, e: Entry): int {
    MaxInt(Weighted(FuzzyScore(token, e.keywords), KEYWORDS_WEIGHT),
           MaxInt(Weighted(FuzzyScore(token, e.aliases), ALIASES_WEIGHT),
                  Weighted(FuzzyScore(token, e.name), NAME_WEIGHT)))
  }

  ghost function TierOf(token: seq<byte>, e: Entry): (t: nat)
    ensures t <= 6
  {
    if HasWord(NotSpace, e.aliases, token) then 6
    else if e.name == token then 5
    else if HasWord(IsAlnum, e.name, token) then 4
    else if token <= e.name then 3
    else if HasWordPrefix(IsAlnum, e.name, token) then 2
    else if PairScore(token, e.name) > 0 then 1
    else 0
  }

  /** What one token adds to the total. */
  ghost function TokenTotal(token: seq<byte>, e: Entry): int {
    var t, pairs := TierOf(token, e), PairScore(token, e.name);
    TIER_BASES[t] + Contribution(token, e)
    + if t != 1 then 0
      else pairs * PAIR_BONUS + if pairs + 1 == |Runs(IsAlnum, e.name, 0)| then COVERAGE_BONUS else 0
  }

  // ---- A whole query ----

  datatype Rank = Rank(total: int, tier: nat)

  const NO_MATCH := Rank(0, 0)

  function TokensOf(query: seq<byte>, runs: seq<Run>): (ts: seq<seq<byte>>)
    requires forall k :: 0 <= k < |runs| ==> runs[k].start < runs[k].end <= |query|
    ensures |ts| == |runs|
  {
    seq(|runs|, k requires 0 <= k < |runs| => Capped(query[runs[k].start..runs[k].end], MAX_TOKEN_LEN))
  }

  /** The tokens of a normalised query: its alphanumeric runs, cut to 63 bytes. */
  function Tokens(query: seq<byte>): seq<seq<byte>> {
    TokensOf(query, Runs(IsAlnum, query, 0))
  }

  ghost predicate AllContribute(tokens: seq<seq<byte>>, e: Entry) {
    forall k :: 0 <= k < |tokens| ==> Contribution(tokens[k], e) > 0
  }

  ghost function Summed(tokens: seq<seq<byte>>, e: Entry): Rank {
    if tokens == [] then NO_MATCH
    else
      var n := |tokens| - 1;
      var front := Summed(tokens[..n], e);
      Rank(front.total + TokenTotal(tokens[n], e),
           if TierOf(tokens[n], e) > front.tier then TierOf(tokens[n], e) else front.tier)
  }

  /** emoji_rank_score_full */
  ghost function RankOf(query: seq<byte>, e: Entry): Rank {
    if AllContribute(Tokens(query), e) then Summed(Tokens(query), e) else NO_MATCH
  }

  // ---- Ranges ----

  /** A token found in some field contributes between 32 and 8 times the matcher's
      bound. */
  lemma {:induction false} ContributionRange(token: seq<byte>, e: Entry)
    requires 0 < |token| <= MAX_TOKEN_LEN
    ensures Contribution(token, e) == 0 || 32 <= Contribution(token, e) <= 8 * (26 * |token| + 10)
  {
    hide FuzzyScore;
    FieldRange(token, e.name, NAME_WEIGHT);
    FieldRange(token, e.aliases, ALIASES_WEIGHT);
    FieldRange(token, e.keywords, KEYWORDS_WEIGHT);
  }

  lemma {:induction false} WeightScales(v: int, weight: nat, most: int)
    requires SCORE_MATCH <= v <= most && 2 <= weight <= 8
    ensures 32 <= v * weight <= 8 * most
  {
    assert 16 * weight <= v * weight <= most * weight <= most * 8;
  }

  lemma {:induction false} FieldRange(token: seq<byte>, field: seq<byte>, weight: nat)
    requires 0 < |token| <= MAX_TOKEN_LEN && 2 <= weight <= 8
    ensures var w := Weighted(FuzzyScore(token, field), weight);
            && (w == 0 <==> FuzzyScore(token, field) == MinusInf)
            && (w == 0 || 32 <= w <= 8 * (26 * |token| + 10))
  {
    hide FuzzyScore;
    if FuzzyScore(token, field) != MinusInf {
      ScoreRange(token, field);
      var v := FuzzyScore(token, field).value;
      WeightScales(v, weight, 26 * |token| + 10);
    }
  }

  /** The token is a case-folded subsequence of a field the matcher can hold. */
  ghost predicate FoundIn(token: seq<byte>, field: seq<byte>) {
    |field| <= FZF_MAX_LEN && Embeddable(Same, Lowered(token), Lowered(field))
  }

  lemma {:induction false} ContributesIff(token: seq<byte>, e: Entry)
    requires 0 < |token| <= MAX_TOKEN_LEN
    ensures Contribution(token, e) > 0 <==>
            FoundIn(token, e.name) || FoundIn(token, e.aliases) || FoundIn(token, e.keywords)
  {
    hide FuzzyScore;
    FieldRange(token, e.name, NAME_WEIGHT);
    FieldRange(token, e.aliases, ALIASES_WEIGHT);
    FieldRange(token, e.keywords, KEYWORDS_WEIGHT);
    ScoredIffEmbedded(token, e.name);
    ScoredIffEmbedded(token, e.aliases);
    ScoredIffEmbedded(token, e.keywords);
  }

  // ---- Tiers ----

  /** The band a token's total falls in, tier by tier. */
  lemma {:induction false} TierBand(token: seq<byte>, e: Entry)
    requires 0 < |token| <= MAX_TOKEN_LEN && Contribution(token, e) > 0
    ensures var t, total := TierOf(token, e), TokenTotal(token, e);
            && TIER_BASES[t] + 32 <= total
            && (t == 1 ==> 5232 <= total <= 5680 + 408 * |token|)
            && (t != 1 ==> total <= TIER_BASES[t] + 208 * |token| + 80)
  {
    hide Contribution, PairScore;
    ContributionRange(token, e);
    PairScoreBound(token, e.name);
    var pairs := PairScore(token, e.name);
    if TierOf(token, e) == 1 {
      assert 0 < pairs by { TierOneHasPairs(token, e); }
    }
  }

  lemma {:induction false} TierOneHasPairs(token: seq<byte>, e: Entry)
    requires TierOf(token, e) == 1
    ensures PairScore(token, e.name) > 0
  {
  }

  /** emoji_provider.c:21-36 and 438-493.  For a token of up to 63 bytes, which is
      every token, tiers 2 to 6 never cross and tier 0 never reaches them; up to
      22 bytes all seven tiers are strictly apart. */
  lemma {:induction false} TiersStayApart(token: seq<byte>, lower: Entry, higher: Entry)
    requires 0 < |token| <= MAX_TOKEN_LEN && Contribution(token, lower) > 0 && Contribution(token, higher) > 0
    requires TierOf(token, lower) < TierOf(token, higher)
    requires |token| <= 22 || (TierOf(token, lower) != 1 && TierOf(token, higher) != 1)
    ensures TokenTotal(token, lower) < TokenTotal(token, higher)
  {
    hide Contribution, TierOf, TokenTotal;
    TierBand(token, lower);
    TierBand(token, higher);
  }

  lemma {:induction false} SummedPositive(tokens: seq<seq<byte>>, e: Entry)
    requires tokens != [] && AllContribute(tokens, e)
    requires forall k :: 0 <= k < |tokens| ==> 0 < |tokens[k]| <= MAX_TOKEN_LEN
    ensures Summed(tokens, e).total > 0
    decreases |tokens|
  {
    hide Contribution, TierOf, TokenTotal;
    var n := |tokens| - 1;
    TierBand(tokens[n], e);
    BasesAscend();
    if n > 0 {
      SummedPositive(tokens[..n], e);
    }
  }

  lemma {:induction false} BasesAscend()
    ensures forall t :: 0 <= t <= 6 ==> TIER_BASES[t] >= 0
  {
  }

  lemma {:induction false} TokensAreShort(query: seq<byte>)
    ensures forall k :: 0 <= k < |Tokens(query)| ==> 0 < |Tokens(query)[k]| <= MAX_TOKEN_LEN
  {
  }

  /** Criterion 7 of src/emoji/CONTEXT.md.  An entry is listed exactly when the
      query has a token and each one is found in some field. */
  lemma {:induction false} ListedIff(query: seq<byte>, e: Entry)
    ensures RankOf(query, e).total > 0 <==>
            Tokens(query) != [] && forall k :: 0 <= k < |Tokens(query)| ==>
              var t := Tokens(query)[k]; FoundIn(t, e.name) || FoundIn(t, e.aliases) || FoundIn(t, e.keywords)
  {
    hide Contribution, TierOf, TokenTotal, FoundIn, Tokens;
    TokensAreShort(query);
    var ts := Tokens(query);
    forall k | 0 <= k < |ts|
      ensures Contribution(ts[k], e) > 0 <==>
              FoundIn(ts[k], e.name) || FoundIn(ts[k], e.aliases) || FoundIn(ts[k], e.keywords)
    {
      ContributesIff(ts[k], e);
    }
    if ts != [] && AllContribute(ts, e) {
      SummedPositive(ts, e);
    }
  }

  /** A one-token query ranks by that token alone. */
  lemma {:induction false} SingleToken(query: seq<byte>, e: Entry)
    requires |Tokens(query)| == 1 && RankOf(query, e).total > 0
    ensures var t := Tokens(query)[0];
            Contribution(t, e) > 0 && 0 < |t| <= MAX_TOKEN_LEN
                && RankOf(query, e) == Rank(TokenTotal(t, e), TierOf(t, e))
  {
    hide Contribution, TierOf, TokenTotal, Tokens;
    TokensAreShort(query);
    var ts := Tokens(query);
    assert ts == [] + [ts[0]];
    SummedStep([], ts[0], e);
  }

  // ---- The program ----

  method WeightedScore(token: seq<byte>, field: seq<byte>, weight: nat) returns (w: int)
    requires IsCString(token) && IsCString(field)
    ensures w == Weighted(FuzzyScore(token, field), weight)
  {
    var score := FuzzyMatch(token, field);
    w := Weighted(score, weight);
  }

  method Contribute(token: seq<byte>, e: Entry) returns (c: int)
    requires IsCString(token) && IsEntry(e)
    ensures c == Contribution(token, e)
  {
    hide FuzzyScore, Weighted;
    c := WeightedScore(token, e.name, NAME_WEIGHT);
    var a := WeightedScore(token, e.aliases, ALIASES_WEIGHT);
    if a > c {
      c := a;
    }
    var k := WeightedScore(token, e.keywords, KEYWORDS_WEIGHT);
    if k > c {
      c := k;
    }
  }

  /** The tier of a token and what is added beside its base. */
  method Classify(token: seq<byte>, e: Entry, contribution: int) returns (tier: nat, total: int)
    requires token != [] && contribution == Contribution(token, e)
    ensures tier == TierOf(token, e) && total == TokenTotal(token, e)
  {
    hide Contribution, PairScore, HasWord, HasWordPrefix, Runs;
    var intra := contribution;
    var alias := FindWord(NotSpace, e.aliases, token);
    var word := FindWord(IsAlnum, e.name, token);
    var start := FindWordPrefix(IsAlnum, e.name, token);
    if alias {
      tier := 6;
    } else if e.name == token {
      tier := 5;
    } else if word {
      tier := 4;
    } else if token <= e.name {
      tier := 3;
    } else if start {
      tier := 2;
    } else {
      var pairs := WordStartPairs(token, e.name);
      if pairs > 0 {
        tier := 1;
        var words := CountWords(e.name);
        var coverage := if pairs + 1 == words then COVERAGE_BONUS else 0;
        intra := pairs * PAIR_BONUS + coverage + contribution;
      } else {
        tier := 0;
      }
    }
    total := TIER_BASES[tier] + intra;
  }

  lemma {:induction false} TokensStep(query: seq<byte>, seen: seq<Run>, a: nat, b: nat)
    requires a < b <= |query| && forall k :: 0 <= k < |seen| ==> seen[k].start < seen[k].end <= |query|
    ensures TokensOf(query, seen + [Run(a, b)]) == TokensOf(query, seen) + [Capped(query[a..b], MAX_TOKEN_LEN)]
  {
  }

  lemma {:induction false} SummedStep(ts: seq<seq<byte>>, t: seq<byte>, e: Entry)
    ensures Summed(ts + [t], e) ==
            var front := Summed(ts, e);
            Rank(front.total + TokenTotal(t, e), if TierOf(t, e) > front.tier then TierOf(t, e) else front.tier)
  {
    hide TokenTotal, TierOf;
    assert (ts + [t])[..|ts|] == ts;
  }

  method RankEntry(query: seq<byte>, e: Entry) returns (rank: Rank)
    requires IsEntry(e)
    ensures rank == RankOf(query, e)
  {
    hide Contribution, TierOf, TokenTotal, Summed, Runs, TokensOf;
    var total, maxTier := 0, 0;
    ghost var seen: seq<Run> := [];
    ghost var ts: seq<seq<byte>> := [];
    NoTokens(query, e);
    var p := 0;
    while p < |query|
      invariant AtEdge(IsAlnum, query, p)
      invariant Runs(IsAlnum, query, 0) == seen + Runs(IsAlnum, query, p)
      invariant forall k :: 0 <= k < |seen| ==> seen[k].start < seen[k].end <= |query|
      invariant ts == TokensOf(query, seen) && AllContribute(ts, e)
      invariant Rank(total, maxTier) == Summed(ts, e)
      decreases |query| - p
    {
      var a, b := NextRun(IsAlnum, query, p);
      if a == |query| {
        assert seen + [] == seen;
        return Rank(total, maxTier);
      }
      NextRunIs(IsAlnum, query, p, a, b);
      var token := Capped(query[a..b], MAX_TOKEN_LEN);
      TokensStep(query, seen, a, b);
      TokenIsCString(query, a, b);
      SummedStep(ts, token, e);
      var contribution := Contribute(token, e);
      if contribution <= 0 {
        LaterTokens(query, seen, Run(a, b), Runs(IsAlnum, query, b), token);
        assert Tokens(query)[|seen|] == token;
        return NO_MATCH;
      }
      var tier, tokenTotal := Classify(token, e, contribution);
      if tier > maxTier {
        maxTier := tier;
      }
      total := total + tokenTotal;
      assert seen + ([Run(a, b)] + Runs(IsAlnum, query, b)) == (seen + [Run(a, b)]) + Runs(IsAlnum, query, b);
      seen, ts, p := seen + [Run(a, b)], ts + [token], b;
    }
    NoMoreRuns(query);
    assert seen + [] == seen;
    return Rank(total, maxTier);
  }

  lemma {:induction false} NoTokens(query: seq<byte>, e: Entry)
    ensures TokensOf(query, []) == [] && Summed([], e) == NO_MATCH
  {
  }

  lemma {:induction false} NoMoreRuns(query: seq<byte>)
    ensures Runs(IsAlnum, query, |query|) == []
  {
  }

  lemma {:induction false} TokenIsCString(query: seq<byte>, a: nat, b: nat)
    requires IsRun(IsAlnum, query, a, b)
    ensures var token := Capped(query[a..b], MAX_TOKEN_LEN); token != [] && IsCString(token)
  {
    var token := Capped(query[a..b], MAX_TOKEN_LEN);
    forall k | 0 <= k < |token| ensures token[k] != 0 {
      assert token[k] == query[a + k];
    }
  }

  lemma {:induction false} LaterTokens(query: seq<byte>, seen: seq<Run>, r: Run, rest: seq<Run>, token: seq<byte>)
    requires Runs(IsAlnum, query, 0) == seen + ([r] + rest)
    requires r.start < r.end <= |query| && token == Capped(query[r.start..r.end], MAX_TOKEN_LEN)
    ensures |seen| < |Tokens(query)| && Tokens(query)[|seen|] == token
  {
    assert (seen + ([r] + rest))[|seen|] == r;
  }
}
