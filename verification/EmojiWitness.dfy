/** For which one-token queries recency can lift a junk match above a structural
    one (criterion 9 of src/emoji/CONTEXT.md). */
module EmojiWitness {
  import opened CStrings
  import opened EmojiNames
  import opened EmojiOrder
  import opened EmojiPairs
  import opened EmojiQueries
  import opened EmojiRank
  import opened EmojiScores
  import opened EmojiTiers
  import Fzf
  import opened Words

  predicate IsLong(t: seq<byte>) {
    IsToken(t) && |t| >= 25
  }

  // ---- Two junk entries ----

  /** The token in two words: junk, but with a high score. */
  function LoudWords(t: seq<byte>): seq<Word>
    requires t != []
  {
    [t[..1], t[1..]]
  }

  function LoudJunk(t: seq<byte>): Entry
    requires t != []
  {
    Entry(Spoken(LoudWords(t)), [], [])
  }

  /** The token in the keywords alone, hardly scored: junk that was picked before. */
  function QuietJunk(t: seq<byte>): Entry
    requires AllAlnum(t)
  {
    Entry([], [], Sparse(t))
  }

  lemma {:induction false} RankIs(query: seq<byte>, t: seq<byte>, e: Entry)
    requires Tokens(query) == [t] && Contribution(t, e) > 0
    ensures RankOf(query, e) == Rank(TokenTotal(t, e), TierOf(t, e))
  {
    hide Contribution, TierOf, TokenTotal, Tokens, Summed;
    NoTokens([], e);
    SummedStep([], t, e);
    assert [] + [t] == [t];
    assert [t][0] == t;
  }

  lemma {:induction false} LoudIsSpoken(t: seq<byte>)
    requires IsLong(t)
    ensures AllSpoken(LoudWords(t)) && forall k :: 0 <= k < 2 ==> !(t <= LoudWords(t)[k])
    ensures AtSplit(t, LoudJunk(t).name) && |LoudJunk(t).name| == |t| + 1
  {
    hide Spoken;
    forall k | 0 <= k < 2 ensures IsSpoken(LoudWords(t)[k]) && !(t <= LoudWords(t)[k]) {
      AcronymSpoken(t, k);
    }
    TwoSpoken(t[..1], t[1..]);
    AlnumIsLower(t);
    forall k | 0 <= k < |t| ensures ToLower(t[k]) == t[k] {
      assert Lowered(t)[k] == t[k];
    }
  }

  lemma {:induction false} LoudRank(query: seq<byte>, t: seq<byte>)
    requires Tokens(query) == [t] && IsLong(t)
    ensures IsEntry(LoudJunk(t)) && RankOf(query, LoudJunk(t)) == Rank(208 * |t| + 56, 0)
  {
    hide Fzf.FuzzyScore, PairScore, Summed, Tokens, Spoken, AllSpoken, TierOf, RankOf;
    var ws, e := LoudWords(t), LoudJunk(t);
    LoudIsSpoken(t);
    SpokenEnds(ws);
    SpokenGrid(t, ws);
    TooFewStarts(t, e.name);
    SpokenTier(t, ws, e);
    SplitScore(t, e.name);
    TooLong(t, []);
    RankIs(query, t, e);
  }

  lemma {:induction false} EmptyName(t: seq<byte>, e: Entry)
    requires t != [] && e.name == [] && e.aliases == []
    ensures TierOf(t, e) == 0
  {
  }

  lemma {:induction false} QuietRank(query: seq<byte>, t: seq<byte>)
    requires Tokens(query) == [t] && IsToken(t)
    ensures IsEntry(QuietJunk(t)) && RankOf(query, QuietJunk(t)) == Rank(32, 0)
  {
    hide Fzf.FuzzyScore, PairScore, Summed, Tokens, Sparse, TierOf, RankOf;
    var e := QuietJunk(t);
    SparseScore(t, t);
    SparseIsCString(t);
    TooLong(t, []);
    EmptyName(t, e);
    RankIs(query, t, e);
  }

  // ---- An acronym with a single pair of neighbours: structural, with a low score ----

  /** Word starts "+ a b + c + d ...", the first word too long to be scored. */
  function LowWord(t: seq<byte>, j: nat): Word
    requires |t| >= 2 && j < 2 * |t| - 1
  {
    if j == 0 then Times(PLUS, 1025)
    else if j == 1 then [t[0]]
    else if j % 2 == 1 then [PLUS]
    else [t[j / 2]]
  }

  function LowWords(t: seq<byte>): (ws: seq<Word>)
    requires |t| >= 2
    ensures |ws| == 2 * |t| - 1 && forall j :: 0 <= j < |ws| ==> ws[j] == LowWord(t, j)
  {
    seq(2 * |t| - 1, j requires 0 <= j < 2 * |t| - 1 => LowWord(t, j))
  }

  function LowAcronym(t: seq<byte>): Entry
    requires |t| >= 2 && AllAlnum(t)
  {
    Entry(Spoken(LowWords(t)), [], Sparse(t))
  }

  lemma {:induction false} LowWordIs(t: seq<byte>, j: nat)
    requires IsLong(t) && j < 2 * |t| - 1
    ensures IsSpoken(LowWord(t, j)) && !(t <= LowWord(t, j))
    ensures AllAlnum(LowWord(t, j)) <==> j == 1 || (j > 0 && j % 2 == 0)
    ensures ToLower(LowWord(t, j)[0]) == if j == 1 then t[0] else if j > 0 && j % 2 == 0 then t[j / 2] else PLUS
  {
    var w := LowWord(t, j);
    assert IsAlnum(t[j / 2]) && IsAlnum(t[0]) && !IsAlnum(PLUS);
    assert t[0] != PLUS;
    if j == 0 || (j != 1 && j % 2 == 1) {
      assert !IsAlnum(w[0]);
    }
    if j == 0 {
      assert w[0] == PLUS != t[0];
    }
  }

  lemma {:induction false} LowIsSpoken(t: seq<byte>)
    requires IsLong(t)
    ensures var ws := LowWords(t);
            AllSpoken(ws) && (forall j :: 0 <= j < |ws| ==> !(t <= ws[j])) && CountSeen(ws) >= 3
  {
    hide IsSpoken, AllAlnum;
    var ws := LowWords(t);
    forall j | 0 <= j < |ws| ensures IsSpoken(ws[j]) && !(t <= ws[j]) {
      LowWordIs(t, j);
    }
    LowWordIs(t, 1);
    LowWordIs(t, 2);
    LowWordIs(t, 4);
    ThreeSeen(ws);
  }

  lemma {:induction false} ThreeSeen(ws: seq<Word>)
    requires |ws| >= 5 && AllAlnum(ws[1]) && AllAlnum(ws[2]) && AllAlnum(ws[4])
    ensures CountSeen(ws) >= 3
  {
    hide AllAlnum, CountSeen;
    SeenGrows(ws, 5);
    SeenGrows(ws[..5], 4);
    SeenGrows(ws[..4], 3);
    SeenGrows(ws[..3], 1);
    assert ws[..5][..4] == ws[..4] && ws[..4][..3] == ws[..3];
  }

  /** At most the first two of the token's bytes are neighbours. */
  lemma {:induction false} ScatteredPairs(e: seq<nat>)
    requires Increasing(e) && forall k :: 0 <= k < |e| ==> e[k] == 1 || (e[k] > 0 && e[k] % 2 == 0)
    ensures Pairs(e) <= 1 && (|e| < 2 || e[0] != 1 ==> Pairs(e) == 0)
    decreases |e|
  {
    if |e| >= 2 {
      var n := |e| - 1;
      ScatteredPairs(e[..n]);
      assert e[n - 1] < e[n];
      assert e[0] <= e[n - 1];
      if n >= 2 {
        assert e[0] < e[n - 1];
      }
    }
  }

  /** Where the token's bytes stand among the word starts. */
  function Sites(m: nat): (e: seq<nat>)
    ensures |e| == m && forall k :: 0 <= k < m ==> e[k] == if k == 0 then 1 else 2 * k
  {
    seq(m, k requires 0 <= k < m => if k == 0 then 1 else 2 * k)
  }

  lemma {:induction false} SitesPair(m: nat)
    requires 2 <= m
    ensures Pairs(Sites(m)) >= 1
  {
    var e := Sites(m);
    if m == 2 {
      assert Pairs(e[..1]) == 0;
      assert e[1] == e[0] + 1;
    } else {
      SitesPair(m - 1);
      assert e[..m - 1] == Sites(m - 1);
    }
  }

  ghost predicate ScatteredGrid(g: EmojiPairs.Grid, t: seq<byte>) {
    && IsLong(t) && g.filter == t && |g.starts| == 2 * |t| - 1
    && forall j :: 0 <= j < |g.starts| ==>
         g.starts[j] == if j == 1 then t[0] else if j > 0 && j % 2 == 0 then t[j / 2] else PLUS
  }

  lemma {:induction false} LowGrid(t: seq<byte>)
    requires IsLong(t)
    ensures LowAcronym(t).name != [] && ScatteredGrid(EmojiPairs.Prepare(t, LowAcronym(t).name), t)
  {
    hide Spoken, Sparse, AllSpoken, LowWord;
    var ws := LowWords(t);
    LowIsSpoken(t);
    NoEmptyWord(ws);
    SpokenGrid(t, ws);
    forall j | 0 <= j < |ws|
      ensures FirstBytes(ws)[j] == if j == 1 then t[0] else if j > 0 && j % 2 == 0 then t[j / 2] else PLUS
    {
      LowWordIs(t, j);
    }
  }

  lemma {:induction false} NoEmptyWord(ws: seq<Word>)
    requires AllSpoken(ws)
    ensures forall k :: 0 <= k < |ws| ==> ws[k] != []
  {
  }

  lemma {:induction false} SitesEmbed(g: EmojiPairs.Grid, t: seq<byte>)
    requires ScatteredGrid(g, t)
    ensures Embeds(Same, g.filter, g.starts, Sites(|t|))
  {
    forall k | 0 <= k < |t| ensures Sites(|t|)[k] < |g.starts| && Same(g.filter[k], g.starts[Sites(|t|)[k]]) {
      assert k > 0 ==> (2 * k) % 2 == 0 && (2 * k) / 2 == k;
    }
  }

  lemma {:induction false} AtMostOnePair(g: EmojiPairs.Grid, t: seq<byte>, e: seq<nat>)
    requires ScatteredGrid(g, t) && Embeds(Same, g.filter, g.starts, e)
    ensures Pairs(e) <= 1
  {
    hide Pairs;
    forall k | 0 <= k < |e| ensures e[k] == 1 || (e[k] > 0 && e[k] % 2 == 0) {
      assert Same(g.filter[k], g.starts[e[k]]);
      assert IsAlnum(t[k]);
    }
    ScatteredPairs(e);
  }

  lemma {:induction false} LowPairs(t: seq<byte>)
    requires IsLong(t)
    ensures PairScore(t, LowAcronym(t).name) == 1
  {
    hide Spoken, PairScore, Pairs, Sparse, EmojiPairs.Prepare, Embeds, LowAcronym;
    var name := LowAcronym(t).name;
    var g := EmojiPairs.Prepare(t, name);
    LowGrid(t);
    PairScoreIsMaximum(t, name);
    SitesEmbed(g, t);
    SitesPair(|t|);
    var e :| Embeds(Same, g.filter, g.starts, e) && Pairs(e) == PairScore(t, name);
    AtMostOnePair(g, t, e);
  }

  lemma {:induction false} LowRank(query: seq<byte>, t: seq<byte>)
    requires Tokens(query) == [t] && IsLong(t)
    ensures IsEntry(LowAcronym(t)) && RankOf(query, LowAcronym(t)) == Rank(5232, 1)
  {
    hide Fzf.FuzzyScore, PairScore, Summed, Tokens, Sparse, Spoken, TierOf, RankOf, AllSpoken, CountSeen, LowWord;
    var ws, e := LowWords(t), LowAcronym(t);
    LowIsSpoken(t);
    LowPairs(t);
    SpokenTier(t, ws, e);
    SpokenRuns(ws);
    SpokenEnds(ws);
    SparseScore(t, t);
    SparseIsCString(t);
    assert |e.name| > Fzf.FZF_MAX_LEN by {
      assert ws[0] == LowWord(t, 0);
      FirstIsLong(t);
    }
    TooLong(t, e.name);
    TooLong(t, []);
    RankIs(query, t, e);
  }

  lemma {:induction false} FirstIsLong(t: seq<byte>)
    requires |t| >= 2
    ensures |LowWord(t, 0)| == 1025
  {
  }

  // ---- The list ----

  const HISTORY: seq<int> := [-1, -1, 0]

  function Table(t: seq<byte>): (table: seq<Entry>)
    requires |t| >= 2 && AllAlnum(t)
    ensures |table| == 3
  {
    [LoudJunk(t), LowAcronym(t), QuietJunk(t)]
  }

  function TableRows(m: nat): seq<Row> {
    [Row(0, 208 * m + 56, -1, 0, false), Row(1, 5232, -1, 1, false), Row(2, 32, 0, 0, false)]
  }

  lemma {:induction false} TableMatches(query: seq<byte>, t: seq<byte>)
    requires Tokens(query) == [t] && IsLong(t)
    ensures Matched(query, Table(t), HISTORY, 3) == TableRows(|t|)
  {
    hide RankOf, LoudJunk, LowAcronym, QuietJunk, Tokens, AllAlnum;
    LoudRank(query, t);
    LowRank(query, t);
    QuietRank(query, t);
    var table, rows := Table(t), TableRows(|t|);
    assert Matched(query, table, HISTORY, 0) == [];
    assert Matched(query, table, HISTORY, 1) == [rows[0]];
    assert Matched(query, table, HISTORY, 2) == [rows[0], rows[1]];
  }

  lemma {:induction false} TableTop(m: nat)
    requires m >= 25
    ensures TopOf(TableRows(m)) == Top(0, 208 * m + 56) && Lifts(TableRows(m), 2, 1)
  {
    hide TopOf;
    var rows := TableRows(m);
    NoTop();
    TopStep([], rows[0]);
    TopStep([rows[0]], rows[1]);
    TopStep([rows[0], rows[1]], rows[2]);
    assert [] + [rows[0]] == [rows[0]] && [rows[0]] + [rows[1]] == [rows[0], rows[1]];
    assert [rows[0], rows[1]] + [rows[2]] == rows;
  }

  lemma {:induction false} NoTop()
    ensures TopOf([]) == Top(-1, -1)
  {
  }

  /** Every list shown for a token of 25 bytes and more puts the hardly matching
      recent pick above the acronym that outscores it. */
  lemma {:induction false} RecencyLiftsJunk(query: seq<byte>, t: seq<byte>, out: seq<Row>)
    requires Tokens(query) == [t] && IsLong(t) && IsListing(Matched(query, Table(t), HISTORY, 3), out)
    ensures LiftsJunk(out)
  {
    hide Matched, IsListing, LiftsJunk, Table, Tokens;
    TableMatches(query, t);
    TableTop(|t|);
    LiftsJunkIff(TableRows(|t|), out);
  }

  /** Whatever the table and the history, no junk match is lifted. */
  ghost predicate NeverLifts(query: seq<byte>) {
    forall table: seq<Entry>, mru: seq<int>, out |
      && |table| == |mru| && (forall k :: 0 <= k < |table| ==> IsEntry(table[k]))
      && IsListing(Matched(query, table, mru, |table|), out) :: !LiftsJunk(out)
  }

  lemma {:induction false} SomeListing(m: nat) returns (out: seq<Row>)
    requires m >= 25
    ensures IsListing(TableRows(m), out)
  {
    hide TopOf;
    TableTop(m);
    var rows := TableRows(m);
    out := [rows[2].(promoted := true), rows[0], rows[1]];
    var ps := Promoted(rows, 0);
    assert ps == [rows[0], rows[1], rows[2].(promoted := true)];
  }

  /** Criterion 9 of src/emoji/CONTEXT.md for one token: recency keeps junk below
      structural matches exactly up to 24 bytes. */
  lemma {:induction false} NeverLiftsIff(query: seq<byte>)
    requires |Tokens(query)| == 1
    ensures NeverLifts(query) <==> |Tokens(query)[0]| <= 24
  {
    hide Matched, IsListing, LiftsJunk, Table, Tokens;
    var t := Tokens(query)[0];
    if |t| <= 24 {
      forall table: seq<Entry>, mru: seq<int>, out
        | |table| == |mru| && IsListing(Matched(query, table, mru, |table|), out)
        ensures !LiftsJunk(out)
      {
        ShortQueriesKeepZones(query, table, mru, out);
        KeptIsNotLifted(out);
      }
    } else {
      TokenIsLong(query);
      TableMatches(query, t);
      var out := SomeListing(|t|);
      RecencyLiftsJunk(query, t, out);
      LoudRank(query, t);
      LowRank(query, t);
      QuietRank(query, t);
      TableEntries(t);
      assert IsListing(Matched(query, Table(t), HISTORY, |Table(t)|), out);
    }
  }

  lemma {:induction false} TableEntries(t: seq<byte>)
    requires IsLong(t) && IsEntry(LoudJunk(t)) && IsEntry(LowAcronym(t)) && IsEntry(QuietJunk(t))
    ensures forall k :: 0 <= k < |Table(t)| ==> IsEntry(Table(t)[k])
  {
    hide IsEntry, LoudJunk, LowAcronym, QuietJunk;
  }

  lemma {:induction false} KeptIsNotLifted(out: seq<Row>)
    requires forall i, j :: 0 <= i < j < |out| ==> !Structural(out[j].tier) || Structural(out[i].tier)
    ensures !LiftsJunk(out)
  {
  }

  lemma {:induction false} TokenIsLong(query: seq<byte>)
    requires |Tokens(query)| == 1 && |Tokens(query)[0]| >= 25
    ensures IsLong(Tokens(query)[0])
  {
    hide Tokens;
    TokensAreAlnum(query);
    TokensAreShort(query);
  }
}
