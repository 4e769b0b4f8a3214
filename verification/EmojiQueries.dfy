/** For which queries the emoji tiers decide the ranking
    (src/emoji/emoji_provider.c:416-504, criterion 8 of src/emoji/CONTEXT.md). */
module EmojiQueries {
  import opened CStrings
  import opened EmojiPairs
  import opened EmojiRank
  import opened EmojiScores
  import opened EmojiTiers
  import Fzf
  import opened FzfProperties
  import opened Scores
  import opened Words

  type Token = seq<byte>

  function Count(ts: seq<Token>, s: Token): (c: nat)
    ensures c <= |ts| && (s in ts <==> c > 0)
  {
    if ts == [] then 0
    else
      var n := |ts| - 1;
      assert ts == ts[..n] + [ts[n]];
      Count(ts[..n], s) + if ts[n] == s then 1 else 0
  }

  /** The entry is listed for a query with these tokens. */
  ghost predicate Listed(ts: seq<Token>, e: Entry) {
    IsEntry(e) && AllContribute(ts, e)
  }

  /** For any two listed entries, a higher tier means a higher total. */
  ghost predicate TiersDecide(ts: seq<Token>) {
    forall lower, higher ::
      Listed(ts, lower) && Listed(ts, higher) && Summed(ts, lower).tier < Summed(ts, higher).tier ==>
        Summed(ts, lower).total < Summed(ts, higher).total
  }

  predicate ShortTokens(ts: seq<Token>) {
    ts != [] && forall k :: 0 <= k < |ts| ==> 0 < |ts[k]| <= 22 && AllAlnum(ts[k])
  }

  predicate AllEqual(ts: seq<Token>) {
    forall k :: 0 <= k < |ts| ==> ts[k] == ts[0]
  }

  predicate OnlyTwo(ts: seq<Token>, s: Token, t: Token) {
    forall k :: 0 <= k < |ts| ==> ts[k] == s || ts[k] == t
  }

  /** `t` is a proper beginning of `s`. */
  predicate Begins(t: Token, s: Token) {
    t <= s && t != s
  }

  /** Two tokens, the one beginning the other, in a ratio between 10:7 and 1:1. */
  predicate LopsidedBy(ts: seq<Token>, s: Token, t: Token) {
    && s in ts && t in ts && Begins(t, s) && OnlyTwo(ts, s, t)
    && 7 * Count(ts, t) < 10 * Count(ts, s) < 10 * Count(ts, t)
  }

  predicate Lopsided(ts: seq<Token>) {
    exists k, l :: 0 <= k < |ts| && 0 <= l < |ts| && LopsidedBy(ts, ts[k], ts[l])
  }

  // ---- Sums ----

  lemma {:induction false} SummedLast(ts: seq<Token>, e: Entry)
    requires ts != []
    ensures var n := |ts| - 1;
            var front := Summed(ts[..n], e);
            Summed(ts, e) == Rank(front.total + TokenTotal(ts[n], e),
                                  if TierOf(ts[n], e) > front.tier then TierOf(ts[n], e) else front.tier)
  {
    hide TokenTotal, TierOf;
  }

  lemma {:induction false} SummedEqual(ts: seq<Token>, t: Token, e: Entry)
    requires ts != [] && forall k :: 0 <= k < |ts| ==> ts[k] == t
    ensures Summed(ts, e) == Rank(|ts| * TokenTotal(t, e), TierOf(t, e))
    decreases |ts|
  {
    hide TokenTotal, TierOf, Summed;
    SummedLast(ts, e);
    if |ts| > 1 {
      SummedEqual(ts[..|ts| - 1], t, e);
    } else {
      NoTokens([], e);
      assert ts[..0] == [];
    }
  }

  /** What `low` gains over `high` token by token adds up. */
  lemma {:induction false} SummedGap(ts: seq<Token>, s: Token, low: Entry, high: Entry, x: int, y: int)
    requires forall k :: 0 <= k < |ts| ==>
               TokenTotal(ts[k], low) - TokenTotal(ts[k], high) >= if ts[k] == s then x else y
    ensures Summed(ts, low).total - Summed(ts, high).total >= x * Count(ts, s) + y * (|ts| - Count(ts, s))
    decreases |ts|
  {
    hide TokenTotal, TierOf, Summed;
    if ts == [] {
      NoTokens([], low);
      NoTokens([], high);
    } else {
      SummedLast(ts, low);
      SummedLast(ts, high);
      SummedGap(ts[..|ts| - 1], s, low, high, x, y);
      OneMore(x, y, Count(ts[..|ts| - 1], s), |ts| - 1);
    }
  }

  lemma {:induction false} OneMore(x: int, y: int, c: int, n: int)
    ensures x * (c + 1) + y * (n + 1 - (c + 1)) == x * c + y * (n - c) + x
    ensures x * c + y * (n + 1 - c) == x * c + y * (n - c) + y
  {
  }

  lemma {:induction false} SummedTier(ts: seq<Token>, e: Entry, tier: nat)
    requires forall k :: 0 <= k < |ts| ==> TierOf(ts[k], e) <= tier
    ensures Summed(ts, e).tier <= tier
    ensures (exists k :: 0 <= k < |ts| && TierOf(ts[k], e) == tier) ==> Summed(ts, e).tier == tier
    decreases |ts|
  {
    hide TokenTotal, TierOf, Summed;
    if ts == [] {
      NoTokens([], e);
    } else {
      SummedLast(ts, e);
      SummedTier(ts[..|ts| - 1], e, tier);
      if k :| 0 <= k < |ts| && TierOf(ts[k], e) == tier && k < |ts| - 1 {
        assert ts[..|ts| - 1][k] == ts[k];
      }
    }
  }

  // ---- Equal tokens ----

  lemma {:induction false} EqualTokensDecide(ts: seq<Token>)
    requires ShortTokens(ts) && AllEqual(ts)
    ensures TiersDecide(ts)
  {
    hide Contribution, TierOf, TokenTotal, Summed;
    forall lower, higher | Listed(ts, lower) && Listed(ts, higher) && Summed(ts, lower).tier < Summed(ts, higher).tier
      ensures Summed(ts, lower).total < Summed(ts, higher).total
    {
      SummedEqual(ts, ts[0], lower);
      SummedEqual(ts, ts[0], higher);
      TiersStayApart(ts[0], lower, higher);
      Scaled(|ts|, TokenTotal(ts[0], lower), TokenTotal(ts[0], higher));
    }
  }

  /** Equal tokens are decided like one of them. */
  lemma {:induction false} EqualTokensDecideIff(ts: seq<Token>)
    requires ts != [] && AllEqual(ts) && IsToken(ts[0])
    ensures TiersDecide(ts) <==> |ts[0]| <= 22
  {
    hide Contribution, TierOf, TokenTotal, Summed, Acronym, Deep;
    var t := ts[0];
    if |t| <= 22 {
      EqualTokensDecide(ts);
    } else {
      AcronymTotal(t);
      DeepTotal(t);
      SummedEqual(ts, t, Acronym(t));
      SummedEqual(ts, t, Deep(t));
      Scaled(|ts|, 15032, 5656 + 408 * |t|);
    }
  }

  lemma {:induction false} Scaled(n: int, a: int, b: int)
    requires n > 0 && a < b
    ensures n * a < n * b
  {
  }

  // ---- Keywords that hold every short token ----

  function Symbol(k: nat): (b: byte)
    requires k < 36
    ensures IsAlnum(b)
  {
    if k < 26 then 'a' as int + k else '0' as int + (k - 26)
  }

  function SymbolIndex(b: byte): (k: nat)
    requires IsAlnum(b)
    ensures k < 36 && Symbol(k) == b
  {
    if IsLower(b) then b - 'a' as int else b - '0' as int + 26
  }

  function Universal(): (s: seq<byte>)
    ensures |s| == 792 && forall k :: 0 <= k < 792 ==> s[k] == Symbol(k % 36)
  {
    seq(792, k requires 0 <= k < 792 => Symbol(k % 36))
  }

  lemma {:induction false} UniversalFinds(t: Token)
    requires 0 < |t| <= 22 && AllAlnum(t)
    ensures FoundIn(t, Universal())
  {
    hide Universal;
    var u := Universal();
    var e := seq(|t|, i requires 0 <= i < |t| => 36 * i + SymbolIndex(t[i]));
    forall a, b | 0 <= a < b < |e| ensures e[a] < e[b] {
    }
    forall i | 0 <= i < |e| ensures e[i] < |u| && Same(Lowered(t)[i], Lowered(u)[e[i]]) {
      assert e[i] % 36 == SymbolIndex(t[i]);
    }
    assert Embeds(Same, Lowered(t), Lowered(u), e);
  }

  lemma {:induction false} UniversalIsCString()
    ensures IsCString(Universal())
  {
    hide Symbol;
    forall k | 0 <= k < 792 ensures Universal()[k] != 0 {
      assert IsAlnum(Universal()[k]);
    }
  }

  /** Entries with these keywords list every short query. */
  lemma {:induction false} UniversalLists(ts: seq<Token>, e: Entry)
    requires ShortTokens(ts) && e.keywords == Universal() && IsEntry(e)
    ensures Listed(ts, e)
  {
    hide Contribution, FoundIn, Universal;
    forall k | 0 <= k < |ts| ensures Contribution(ts[k], e) > 0 {
      UniversalFinds(ts[k]);
      ContributesIff(ts[k], e);
    }
  }

  // ---- Three tokens and more: one exact alias against all words ----

  function Padding(): (s: seq<byte>)
    ensures |s| == 1025 && forall k :: 0 <= k < 1025 ==> s[k] == SPACE
  {
    Times(SPACE, 1025)
  }

  /** The token as an alias, in a field too long to be scored. */
  function Aliased(s: Token): Entry {
    Entry([], s + Padding(), Universal())
  }

  function Joined(ts: seq<Token>): (j: seq<byte>)
  {
    if ts == [] then [] else Joined(ts[..|ts| - 1]) + [SPACE] + ts[|ts| - 1]
  }

  /** Every token as a word, in a name too long to be scored. */
  function Wordy(ts: seq<Token>): Entry {
    Entry(Joined(ts) + Padding(), [], Universal())
  }

  lemma {:induction false} AloneRun(s: Token, tail: seq<byte>, inWord: CharSet, a: nat, b: nat)
    requires (forall k :: 0 <= k < |s| ==> inWord(s[k])) && forall k :: 0 <= k < |tail| ==> !inWord(tail[k])
    requires IsRun(inWord, s + tail, a, b)
    ensures a == 0 && b == |s|
  {
    var all := s + tail;
    assert forall k :: 0 <= k < |s| ==> inWord(all[k]);
    assert forall k :: |s| <= k < |all| ==> !inWord(all[k]);
    assert inWord(all[a]) && inWord(all[b - 1]);
  }

  lemma {:induction false} AliasedTier(s: Token, t: Token)
    requires s != [] && t != [] && AllAlnum(s) && AllAlnum(t)
    ensures TierOf(t, Aliased(s)) == if t == s then 6 else 0
  {
    hide Universal, Padding;
    var all := s + Padding();
    if t == s {
      assert IsRun(NotSpace, all, 0, |s|) && all[0..|s|] == t;
    } else {
      forall a: nat, b: nat | IsRun(NotSpace, all, a, b) ensures all[a..b] != t {
        AloneRun(s, Padding(), NotSpace, a, b);
        assert all[0..|s|] == s;
      }
    }
  }

  lemma {:induction false} WordInside(front: seq<byte>, t: Token, tail: seq<byte>)
    requires t != [] && AllAlnum(t)
    requires front == [] || !IsAlnum(front[|front| - 1])
    requires tail == [] || !IsAlnum(tail[0])
    ensures HasWord(IsAlnum, front + t + tail, t)
  {
    var all, a, b := front + t + tail, |front|, |front| + |t|;
    assert a > 0 ==> all[a - 1] == front[a - 1];
    assert b < |all| ==> all[b] == tail[0];
    forall k | a <= k < b ensures IsAlnum(all[k]) {
      assert all[k] == t[k - a];
    }
    assert IsRun(IsAlnum, all, a, b) && all[a..b] == t;
  }

  lemma {:induction false} JoinedHas(ts: seq<Token>, k: nat, tail: seq<byte>)
    requires k < |ts| && ts[k] != [] && AllAlnum(ts[k]) && tail != [] && tail[0] == SPACE
    ensures HasWord(IsAlnum, Joined(ts) + tail, ts[k])
    decreases |ts|
  {
    hide HasWord;
    var n := |ts| - 1;
    var front := Joined(ts[..n]) + [SPACE];
    if k == n {
      WordInside(front, ts[n], tail);
      assert Joined(ts) + tail == front + ts[n] + tail;
    } else {
      JoinedHas(ts[..n], k, [SPACE] + ts[n] + tail);
      assert Joined(ts) + tail == Joined(ts[..n]) + ([SPACE] + ts[n] + tail);
    }
  }

  lemma {:induction false} JoinedStart(ts: seq<Token>)
    ensures ts != [] ==> Joined(ts) != [] && Joined(ts)[0] == SPACE
    decreases |ts|
  {
    if ts != [] {
      JoinedStart(ts[..|ts| - 1]);
      assert ts[..|ts| - 1] == [] ==> Joined(ts[..|ts| - 1]) == [];
    }
  }

  lemma {:induction false} WordyTier(ts: seq<Token>, k: nat)
    requires ShortTokens(ts) && k < |ts|
    ensures TierOf(ts[k], Wordy(ts)) == 4
  {
    hide Joined, Universal, Padding;
    JoinedHas(ts, k, Padding());
    JoinedStart(ts);
    assert ts[k][0] != Wordy(ts).name[0];
  }

  /** Both entries are found by their keywords alone, so tiers make the difference. */
  lemma {:induction false} SameContribution(t: Token, a: Entry, b: Entry)
    requires t != [] && a.keywords == b.keywords
    requires (a.name == [] || |a.name| > 1024) && (b.name == [] || |b.name| > 1024)
    requires (a.aliases == [] || |a.aliases| > 1024) && (b.aliases == [] || |b.aliases| > 1024)
    ensures Contribution(t, a) == Contribution(t, b)
  {
    hide Fzf.FuzzyScore;
    TooLong(t, a.name);
    TooLong(t, b.name);
    TooLong(t, a.aliases);
    TooLong(t, b.aliases);
  }

  lemma {:induction false} RareTokenCrosses(ts: seq<Token>, s: Token)
    requires ShortTokens(ts) && s in ts && 3 * Count(ts, s) <= |ts|
    ensures !TiersDecide(ts)
  {
    hide Contribution, TierOf, Summed, Joined, Universal, Padding, PairScore;
    var low, high := Wordy(ts), Aliased(s);
    PlainEntries(ts, s);
    UniversalLists(ts, low);
    UniversalLists(ts, high);
    var q :| 0 <= q < |ts| && ts[q] == s;
    forall k | 0 <= k < |ts|
      ensures TierOf(ts[k], low) == 4 && TierOf(ts[k], high) == if ts[k] == s then 6 else 0
      ensures TokenTotal(ts[k], low) - TokenTotal(ts[k], high) >= if ts[k] == s then -200000 else 100000
    {
      WordyTier(ts, k);
      AliasedTier(ts[q], ts[k]);
      SameContribution(ts[k], low, high);
    }
    SummedGap(ts, s, low, high, -200000, 100000);
    SummedTier(ts, low, 4);
    SummedTier(ts, high, 6);
    assert TierOf(ts[q], high) == 6;
  }

  lemma {:induction false} PlainEntries(ts: seq<Token>, s: Token)
    requires ShortTokens(ts) && s in ts
    ensures IsEntry(Wordy(ts)) && IsEntry(Aliased(s))
  {
    hide Universal;
    UniversalIsCString();
    JoinedIsCString(ts);
    var q :| 0 <= q < |ts| && ts[q] == s;
    forall k | 0 <= k < |s| ensures s[k] != 0 {
      assert IsAlnum(ts[q][k]);
    }
  }

  lemma {:induction false} JoinedIsCString(ts: seq<Token>)
    requires forall k :: 0 <= k < |ts| ==> AllAlnum(ts[k])
    ensures IsCString(Joined(ts))
    decreases |ts|
  {
    if ts != [] {
      var n := |ts| - 1;
      JoinedIsCString(ts[..n]);
      forall k | 0 <= k < |ts[n]| ensures ts[n][k] != 0 {
        assert IsAlnum(ts[n][k]);
      }
    }
  }

  // ---- Two tokens: an exact name against two words ----

  function Named(s: Token): Entry {
    Entry(s, [], Universal())
  }

  function Pair(s: Token, t: Token): Entry {
    Entry(s + [SPACE] + t, [], Universal())
  }

  lemma {:induction false} PairTier(s: Token, t: Token)
    requires s != [] && t != [] && AllAlnum(s) && AllAlnum(t)
    ensures TierOf(s, Pair(s, t)) == TierOf(t, Pair(s, t)) == 4
  {
    hide Universal, HasWord, AllAlnum, PairScore;
    WordInside([], s, [SPACE] + t);
    assert [] + s + ([SPACE] + t) == s + [SPACE] + t;
    WordInside(s + [SPACE], t, []);
    assert s + [SPACE] + t == s + [SPACE] + t + [];
    WordNameTier(s, Pair(s, t));
    WordNameTier(t, Pair(s, t));
  }

  lemma {:induction false} WordNameTier(t: Token, e: Entry)
    requires e.aliases == [] && |e.name| > |t| && HasWord(IsAlnum, e.name, t)
    ensures TierOf(t, e) == 4
  {
    hide PairScore;
  }

  lemma {:induction false} OneStart(s: Token, n: nat)
    requires 0 < n <= |s| && AllAlnum(s)
    ensures WordStarts(s, n) == [0]
  {
    if n > 1 {
      OneStart(s, n - 1);
      assert IsAlnum(s[n - 2]);
    } else {
      assert WordStarts(s, 0) == [];
    }
  }

  lemma {:induction false} OneWordHasNoPairs(t: Token, s: Token)
    requires AllAlnum(s)
    ensures PairScore(t, s) == 0
  {
    hide WordStarts, PairScore;
    if |t| >= 2 && s != [] {
      OneStart(s, |s|);
      var g := EmojiPairs.Prepare(t, s);
      PairScoreIsMaximum(t, s);
      if e :| Embeds(Same, g.filter, g.starts, e) {
        EmbeddingFits(Same, g.filter, g.starts, e);
      }
    } else {
      NoPairs(t, s);
    }
  }

  lemma {:induction false} NoPairs(t: Token, s: Token)
    requires |t| < 2 || s == []
    ensures PairScore(t, s) == 0
  {
  }

  lemma {:induction false} NamedTier(s: Token, t: Token)
    requires s != [] && t != [] && AllAlnum(s)
    ensures TierOf(t, Named(s)) == if t == s then 5 else if Begins(t, s) then 3 else 0
  {
    hide Universal, PairScore;
    OneWordHasNoPairs(t, s);
    forall a: nat, b: nat | IsRun(IsAlnum, s, a, b) ensures s[a..b] == s && s[a..] == s {
      AloneRun(s, [], IsAlnum, a, b);
      assert s + [] == s;
    }
  }

  /** Text after the first word costs no token anything. */
  lemma {:induction false} PairContributes(x: Token, s: Token, t: Token)
    requires x != [] && |s| <= 22 && |t| <= 22
    ensures Contribution(x, Pair(s, t)) >= Contribution(x, Named(s))
  {
    hide Fzf.FuzzyScore, Universal;
    var more := [SPACE] + t;
    assert s + [SPACE] + t == s + more;
    if Fzf.FuzzyScore(x, s) != MinusInf {
      AppendingKeepsScore(x, s, more);
      ScoreRange(x, s);
      ScoreRange(x, s + more);
    }
  }

  lemma {:induction false} OnlyTwoCounts(ts: seq<Token>, s: Token, t: Token)
    requires s != t && OnlyTwo(ts, s, t)
    ensures Count(ts, s) + Count(ts, t) == |ts|
    decreases |ts|
  {
    if ts != [] {
      OnlyTwoCounts(ts[..|ts| - 1], s, t);
    }
  }

  lemma {:induction false} CommonTokenCrosses(ts: seq<Token>, s: Token, t: Token)
    requires ShortTokens(ts) && s in ts && t in ts && s != t && OnlyTwo(ts, s, t)
    requires if Begins(t, s) then 10 * Count(ts, s) <= 7 * Count(ts, t) else Count(ts, s) <= Count(ts, t)
    ensures !TiersDecide(ts)
  {
    hide Contribution, TierOf, Summed, Universal, PairScore;
    var low, high := Pair(s, t), Named(s);
    PairEntries(ts, s, t);
    UniversalLists(ts, low);
    UniversalLists(ts, high);
    OnlyTwoCounts(ts, s, t);
    PairTier(s, t);
    var y := if Begins(t, s) then 70000 else 100000;
    forall k | 0 <= k < |ts|
      ensures TierOf(ts[k], low) == 4 && TierOf(ts[k], high) <= 5
      ensures TokenTotal(ts[k], low) - TokenTotal(ts[k], high) >= if ts[k] == s then -100000 else y
    {
      NamedTier(s, ts[k]);
      PairContributes(ts[k], s, t);
    }
    SummedGap(ts, s, low, high, -100000, y);
    SummedTier(ts, low, 4);
    SummedTier(ts, high, 5);
    var q :| 0 <= q < |ts| && ts[q] == s;
    NamedTier(s, s);
    assert TierOf(ts[q], high) == 5;
  }

  lemma {:induction false} PairEntries(ts: seq<Token>, s: Token, t: Token)
    requires ShortTokens(ts) && s in ts && t in ts
    ensures s != [] && t != [] && |s| <= 22 && |t| <= 22 && AllAlnum(s) && AllAlnum(t)
    ensures IsEntry(Pair(s, t)) && IsEntry(Named(s))
  {
    hide Universal;
    UniversalIsCString();
    var p :| 0 <= p < |ts| && ts[p] == s;
    var q :| 0 <= q < |ts| && ts[q] == t;
    forall k | 0 <= k < |s| ensures s[k] != 0 {
      assert IsAlnum(ts[p][k]);
    }
    forall k | 0 <= k < |t| ensures t[k] != 0 {
      assert IsAlnum(ts[q][k]);
    }
  }

  // ---- Queries ----

  lemma {:induction false} CountThree(ts: seq<Token>, x: Token, y: Token, z: Token)
    requires x != y && y != z && x != z
    ensures Count(ts, x) + Count(ts, y) + Count(ts, z) <= |ts|
    decreases |ts|
  {
    if ts != [] {
      CountThree(ts[..|ts| - 1], x, y, z);
    }
  }

  lemma {:induction false} UnequalTokensCross(ts: seq<Token>)
    requires ShortTokens(ts) && !AllEqual(ts) && !Lopsided(ts)
    ensures !TiersDecide(ts)
  {
    hide ShortTokens, TiersDecide, Count;
    var s := ts[0];
    var l :| 0 <= l < |ts| && ts[l] != s;
    var t := ts[l];
    if OnlyTwo(ts, s, t) {
      assert !LopsidedBy(ts, ts[0], ts[l]) && !LopsidedBy(ts, ts[l], ts[0]);
      if Count(ts, s) < Count(ts, t) || (Count(ts, s) == Count(ts, t) && !Begins(t, s)) {
        CommonTokenCrosses(ts, s, t);
      } else {
        CommonTokenCrosses(ts, t, s);
      }
    } else {
      var k :| 0 <= k < |ts| && ts[k] != s && ts[k] != t;
      CountThree(ts, s, t, ts[k]);
      RareTokenCrosses(ts, if 3 * Count(ts, s) <= |ts| then s else if 3 * Count(ts, t) <= |ts| then t else ts[k]);
    }
  }

  lemma {:induction false} TokensAreAlnum(query: seq<byte>)
    ensures forall k :: 0 <= k < |Tokens(query)| ==> 0 < |Tokens(query)[k]| && AllAlnum(Tokens(query)[k])
  {
    hide Runs;
    var runs := Runs(IsAlnum, query, 0);
    forall k | 0 <= k < |Tokens(query)| ensures 0 < |Tokens(query)[k]| && AllAlnum(Tokens(query)[k]) {
      var r := runs[k];
      RunsAreMaximal(IsAlnum, query, 0, r.start, r.end);
      assert r in runs && r == Run(r.start, r.end);
      forall q | 0 <= q < |Tokens(query)[k]| ensures IsAlnum(Tokens(query)[k][q]) {
        assert Tokens(query)[k][q] == query[r.start + q];
      }
    }
  }

  /** For any two entries on the list of the query, a higher tier means a higher total. */
  ghost predicate TiersDecideQuery(query: seq<byte>) {
    forall lower, higher ::
      IsEntry(lower) && IsEntry(higher) && RankOf(query, lower).total > 0 && RankOf(query, higher).total > 0
      && RankOf(query, lower).tier < RankOf(query, higher).tier
      ==> RankOf(query, lower).total < RankOf(query, higher).total
  }

  lemma {:induction false} QueryIsItsTokens(query: seq<byte>)
    requires Tokens(query) != []
    ensures TiersDecideQuery(query) <==> TiersDecide(Tokens(query))
  {
    hide Contribution, TierOf, TokenTotal, Summed, Tokens;
    TokensAreShort(query);
    var ts := Tokens(query);
    forall e ensures IsEntry(e) && RankOf(query, e).total > 0 <==> Listed(ts, e) {
      if AllContribute(ts, e) {
        SummedPositive(ts, e);
      }
    }
    if TiersDecideQuery(query) {
      forall lower, higher | Listed(ts, lower) && Listed(ts, higher) && Summed(ts, lower).tier < Summed(ts, higher).tier
        ensures Summed(ts, lower).total < Summed(ts, higher).total
      {
        assert RankOf(query, lower) == Summed(ts, lower) && RankOf(query, higher) == Summed(ts, higher);
      }
    }
  }
}
