/** Which tokens the emoji tiers decide the ranking for
    (src/emoji/emoji_provider.c:21-36). */
module EmojiTiers {
  import opened CStrings
  import opened EmojiNames
  import opened EmojiPairs
  import opened EmojiRank
  import opened EmojiScores
  import Fzf
  import opened Scores
  import opened Words

  ghost predicate Ranked(t: seq<byte>, e: Entry) {
    IsEntry(e) && Contribution(t, e) > 0
  }

  /** For any two entries the token finds, a higher tier means a higher total. */
  ghost predicate TiersDecideToken(t: seq<byte>) {
    forall lower, higher ::
      Ranked(t, lower) && Ranked(t, higher) && TierOf(t, lower) < TierOf(t, higher) ==>
        TokenTotal(t, lower) < TokenTotal(t, higher)
  }

  predicate IsToken(t: seq<byte>) {
    0 < |t| <= MAX_TOKEN_LEN && AllAlnum(t)
  }

  // ---- An acronym entry with a high score ----

  function Singles(s: seq<byte>): (ws: seq<Word>)
    ensures |ws| == |s| && forall k :: 0 <= k < |s| ==> ws[k] == [s[k]]
  {
    seq(|s|, k requires 0 <= k < |s| => [s[k]])
  }

  /** The token split behind its first byte, and its other bytes once more, one by
      one: no word begins with the token, but the words spell it. */
  function AcronymWords(t: seq<byte>): (ws: seq<Word>)
    requires |t| >= 2
    ensures |ws| == |t|
  {
    [t[..1], t[1..]] + Singles(t[2..])
  }

  function Acronym(t: seq<byte>): Entry
    requires |t| >= 2
  {
    Entry(Spoken(AcronymWords(t)), [], [])
  }

  lemma {:induction false} AcronymSpoken(t: seq<byte>, k: nat)
    requires IsToken(t) && k < |t| && |t| >= 2
    ensures var w := AcronymWords(t)[k];
            w != [] && AllAlnum(w) && IsSpoken(w) && w[0] == t[k] && |w| < |t| && (k >= 2 ==> |w| == 1)
  {
    var w := AcronymWords(t)[k];
    assert AllAlnum(w) by {
      assert forall q :: 0 <= q < |t| ==> IsAlnum(t[q]);
    }
    forall q | 0 <= q < |w| ensures w[q] != 0 && !Separates(w[q]) {
      assert IsAlnum(w[q]);
    }
  }

  lemma {:induction false} AcronymIsSpoken(t: seq<byte>)
    requires IsToken(t) && |t| >= 2
    ensures AllSpoken(AcronymWords(t)) && FirstBytes(AcronymWords(t)) == t && CountSeen(AcronymWords(t)) == |t|
    ensures forall k :: 0 <= k < |t| ==> !(t <= AcronymWords(t)[k])
  {
    hide AcronymWords, IsSpoken;
    var ws := AcronymWords(t);
    forall k | 0 <= k < |ws|
      ensures IsSpoken(ws[k]) && AllAlnum(ws[k]) && !(t <= ws[k]) && ws[k] != [] && ToLower(ws[k][0]) == t[k]
    {
      AcronymSpoken(t, k);
      assert IsAlnum(t[k]);
    }
    SeenGrows(ws, 0);
    assert CountSeen(ws[..0]) == 0;
  }

  function Upto(m: nat): (f: seq<nat>)
    ensures |f| == m && forall k :: 0 <= k < m ==> f[k] == k
  {
    seq(m, k requires 0 <= k < m => k)
  }

  lemma {:induction false} UptoPairs(m: nat)
    requires m > 0
    ensures Pairs(Upto(m)) == m - 1
  {
    if m > 1 {
      UptoPairs(m - 1);
      assert Upto(m)[..m - 1] == Upto(m - 1);
    }
  }

  lemma {:induction false} AcronymPairs(t: seq<byte>)
    requires IsToken(t) && |t| >= 2
    ensures PairScore(t, Acronym(t).name) == |t| - 1
  {
    hide Spoken, PairScore, Pairs, AllSpoken, AcronymWords;
    var ws := AcronymWords(t);
    AcronymIsSpoken(t);
    SpokenGrid(t, ws);
    var g := EmojiPairs.Prepare(t, Spoken(ws));
    assert Embeds(Same, g.filter, g.starts, Upto(|t|));
    PairScoreIsMaximum(t, Spoken(ws));
    PairScoreBound(t, Spoken(ws));
    UptoPairs(|t|);
  }

  lemma {:induction false} AcronymFront(t: seq<byte>)
    requires IsToken(t) && |t| >= 2
    ensures t[..1] + [SPACE] + t[1..] <= Acronym(t).name && |Acronym(t).name| == 3 * |t| - 3
  {
    hide Spoken, AllSpoken, IsSpoken, CountSeen, FirstBytes;
    var ws := AcronymWords(t);
    AcronymIsSpoken(t);
    AcronymSpoken(t, 0);
    AcronymSpoken(t, 1);
    assert ws[..2] == [t[..1], t[1..]];
    TwoSpoken(t[..1], t[1..]);
    SpokenFront(ws, 2);
    SpokenLength(ws, 2);
  }

  lemma {:induction false} AcronymName(t: seq<byte>)
    requires IsToken(t) && |t| >= 2
    ensures AtSplit(t, Acronym(t).name) && |Acronym(t).name| <= 3 * |t| && IsEntry(Acronym(t))
  {
    hide Spoken, AllSpoken, IsSpoken, AcronymWords, CountSeen, FirstBytes;
    var name := Acronym(t).name;
    AcronymIsSpoken(t);
    AcronymFront(t);
    SpokenEnds(AcronymWords(t));
    AlnumIsLower(t);
    var front := t[..1] + [SPACE] + t[1..];
    forall k | 0 <= k < |t| ensures ToLower(t[k]) == t[k] && name[if k == 0 then 0 else k + 1] == t[k] {
      assert Lowered(t)[k] == t[k] == front[if k == 0 then 0 else k + 1];
    }
    assert name[1] == front[1] == SPACE;
  }

  /** Its total is close to the most that tier 1 can have. */
  lemma {:induction false} AcronymTotal(t: seq<byte>)
    requires IsToken(t) && |t| >= 2
    ensures Ranked(t, Acronym(t)) && TierOf(t, Acronym(t)) == 1
    ensures TokenTotal(t, Acronym(t)) == 5656 + 408 * |t|
  {
    hide Fzf.FuzzyScore, TierOf, PairScore, Spoken, AllSpoken, AcronymWords, CountSeen;
    var e, ws := Acronym(t), AcronymWords(t);
    AcronymIsSpoken(t);
    SpokenTier(t, ws, e);
    AcronymPairs(t);
    SpokenRuns(ws);
    AcronymName(t);
    SplitScore(t, e.name);
    TooLong(t, []);
    ContributionRange(t, e);
  }

  // ---- A word-prefix entry that scores as little as it can ----

  const PLUS: byte := '+' as int

  /** A name too long to be scored. */
  function DeepWords(t: seq<byte>): (ws: seq<Word>)
    requires t != []
  {
    [[PLUS], t + Times(t[0], 1024)]
  }

  function Deep(t: seq<byte>): Entry
    requires t != [] && AllAlnum(t)
  {
    Entry(Spoken(DeepWords(t)), [], Sparse(t))
  }

  lemma {:induction false} DeepIsSpoken(t: seq<byte>)
    requires IsToken(t)
    ensures AllSpoken(DeepWords(t)) && Spoken(DeepWords(t)) == [PLUS, SPACE] + (t + Times(t[0], 1024))
    ensures AllAlnum(t + Times(t[0], 1024))
  {
    var w := t + Times(t[0], 1024);
    forall k | 0 <= k < |w| ensures IsAlnum(w[k]) && w[k] != 0 && !Separates(w[k]) {
      assert IsAlnum(t[if k < |t| then k else 0]);
    }
    TwoSpoken([PLUS], w);
    assert [PLUS] + [SPACE] + w == [PLUS, SPACE] + w;
  }

  lemma {:induction false} DeepTier(t: seq<byte>)
    requires IsToken(t)
    ensures TierOf(t, Deep(t)) == 2
  {
    hide Spoken, AllSpoken, IsSpoken, Sparse, Times;
    var ws, name := DeepWords(t), Deep(t).name;
    DeepIsSpoken(t);
    assert IsAlnum(t[0]) && !IsAlnum(PLUS) && name[0] == PLUS && name[1] == SPACE;
    forall a: nat, b: nat | IsRun(IsAlnum, name, a, b) ensures name[a..b] != t {
      var k := RunIsWord(ws, a, b);
      assert ws[0][0] == PLUS;
    }
    assert name[2..] == t + Times(t[0], 1024);
    forall k | 2 <= k < |name| ensures IsAlnum(name[k]) {
      assert name[k] == name[2..][k - 2];
    }
    assert IsRun(IsAlnum, name, 2, |name|);
    assert t <= name[2..];
  }

  lemma {:induction false} TooLong(t: seq<byte>, field: seq<byte>)
    requires t != [] && (field == [] || |field| > Fzf.FZF_MAX_LEN)
    ensures Fzf.FuzzyScore(t, field) == MinusInf
  {
  }

  lemma {:induction false} DeepTotal(t: seq<byte>)
    requires IsToken(t)
    ensures Ranked(t, Deep(t)) && TierOf(t, Deep(t)) == 2 && TokenTotal(t, Deep(t)) == 15032
  {
    hide Fzf.FuzzyScore, TierOf, Spoken, Sparse, AllSpoken;
    DeepTier(t);
    DeepIsSpoken(t);
    SpokenEnds(DeepWords(t));
    SparseScore(t, t);
    SparseIsCString(t);
    TooLong(t, Deep(t).name);
    TooLong(t, []);
  }

  /** emoji_provider.c:21-36.  Tiers decide for a token exactly if it has at most 22
      bytes; beyond, an acronym can outrank a word prefix. */
  lemma {:induction false} TiersDecideTokenIff(t: seq<byte>)
    requires IsToken(t)
    ensures TiersDecideToken(t) <==> |t| <= 22
  {
    hide Contribution, TierOf, TokenTotal, Acronym, Deep;
    if |t| <= 22 {
      forall lower, higher | Ranked(t, lower) && Ranked(t, higher) && TierOf(t, lower) < TierOf(t, higher)
        ensures TokenTotal(t, lower) < TokenTotal(t, higher)
      {
        TiersStayApart(t, lower, higher);
      }
    } else {
      AcronymTotal(t);
      DeepTotal(t);
    }
  }
}
