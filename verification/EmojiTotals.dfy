/** The emoji ranking in plain terms (src/emoji/emoji_provider.c:21-36 and 238-493):
    what a token adds to an entry that holds it as an alias, as a name, as a word, and
    so on, and how a query falls into tokens. */
module EmojiTotals {
  import opened CStrings
  import opened EmojiPairs
  import opened EmojiRank
  import opened Fzf
  import opened FzfProperties
  import opened Scores
  import opened Words

  /** What words and tokens are made of. */
  predicate InWord(b: byte) {
    'a' as int <= b <= 'z' as int || '0' as int <= b <= '9' as int
  }

  predicate IsToken(t: seq<byte>) {
    0 < |t| <= 63 && forall k :: 0 <= k < |t| ==> InWord(t[k])
  }

  /** The text sits at `a`, between blanks or the ends. */
  predicate AliasAt(s: seq<byte>, t: seq<byte>, a: nat) {
    && a + |t| <= |s| && s[a..a + |t|] == t
    && (a == 0 || s[a - 1] == ' ' as int) && (a + |t| == |s| || s[a + |t|] == ' ' as int)
  }

  predicate BeginsWordAt(s: seq<byte>, t: seq<byte>, a: nat) {
    a + |t| <= |s| && s[a..a + |t|] == t && (a == 0 || !InWord(s[a - 1]))
  }

  predicate WordAt(s: seq<byte>, t: seq<byte>, a: nat) {
    BeginsWordAt(s, t, a) && (a + |t| == |s| || !InWord(s[a + |t|]))
  }

  ghost predicate HasAlias(e: Entry, t: seq<byte>) {
    exists a: nat :: AliasAt(e.aliases, t, a)
  }

  ghost predicate NameHasWord(e: Entry, t: seq<byte>) {
    exists a: nat :: WordAt(e.name, t, a)
  }

  ghost predicate NameHasBeginning(e: Entry, t: seq<byte>) {
    exists a: nat :: BeginsWordAt(e.name, t, a)
  }

  lemma {:induction false} AliasIff(e: Entry, t: seq<byte>)
    requires IsToken(t)
    ensures HasWord(NotSpace, e.aliases, t) <==> HasAlias(e, t)
  {
    var s := e.aliases;
    if HasWord(NotSpace, s, t) {
      var a: nat, b: nat :| IsRun(NotSpace, s, a, b) && s[a..b] == t;
      assert AliasAt(s, t, a);
    }
    if a: nat :| AliasAt(s, t, a) {
      forall k | a <= k < a + |t| ensures NotSpace(s[k]) {
        assert s[k] == t[k - a];
      }
      assert IsRun(NotSpace, s, a, a + |t|);
    }
  }

  lemma {:induction false} WordIff(e: Entry, t: seq<byte>)
    requires IsToken(t)
    ensures HasWord(IsAlnum, e.name, t) <==> NameHasWord(e, t)
  {
    var s := e.name;
    if HasWord(IsAlnum, s, t) {
      var a: nat, b: nat :| IsRun(IsAlnum, s, a, b) && s[a..b] == t;
      assert WordAt(s, t, a);
    }
    if a: nat :| WordAt(s, t, a) {
      forall k | a <= k < a + |t| ensures IsAlnum(s[k]) {
        assert s[k] == t[k - a];
      }
      assert IsRun(IsAlnum, s, a, a + |t|);
    }
  }

  lemma {:induction false} BeginningIff(e: Entry, t: seq<byte>)
    requires IsToken(t)
    ensures HasWordPrefix(IsAlnum, e.name, t) <==> NameHasBeginning(e, t)
  {
    var s := e.name;
    if HasWordPrefix(IsAlnum, s, t) {
      var a: nat, b: nat :| IsRun(IsAlnum, s, a, b) && t <= s[a..];
      assert s[a..a + |t|] == s[a..][..|t|];
      assert BeginsWordAt(s, t, a);
    }
    if a: nat :| BeginsWordAt(s, t, a) {
      assert s[a] == t[0] && s[a..a + |t|] == s[a..][..|t|];
      assert IsRun(IsAlnum, s, a, RunEnd(IsAlnum, s, a));
    }
  }

  /** The score the matcher gives the token in the field, 0 for none. */
  ghost function FieldScore(t: seq<byte>, field: seq<byte>): int {
    match FuzzyScore(t, field)
    case Fin(v) => v
    case _ => 0
  }

  lemma {:induction false} FieldWeight(t: seq<byte>, field: seq<byte>, weight: nat)
    requires IsToken(t) && 2 <= weight <= 8
    ensures Weighted(FuzzyScore(t, field), weight) == weight * FieldScore(t, field) >= 0
  {
    hide FuzzyScore;
    if FuzzyScore(t, field) != MinusInf {
      ScoreRange(t, field);
      WeightScales(FuzzyScore(t, field).value, weight, 26 * |t| + 10);
    }
  }

  /** The best of eight times the name's score, seven times the aliases' and twice the
      keywords'. */
  ghost function BestOfFields(t: seq<byte>, e: Entry): int {
    MaxInt(8 * FieldScore(t, e.name), MaxInt(7 * FieldScore(t, e.aliases), 2 * FieldScore(t, e.keywords)))
  }

  /** What a token adds to the total of an entry, and the tier it gives it. */
  lemma {:induction false} TotalByKind(t: seq<byte>, e: Entry)
    requires IsToken(t)
    ensures Contribution(t, e) == BestOfFields(t, e)
    ensures var added, tier := TokenTotal(t, e) - BestOfFields(t, e), TierOf(t, e);
            if HasAlias(e, t) then tier == 6 && added == 300000
            else if e.name == t then tier == 5 && added == 200000
            else if NameHasWord(e, t) then tier == 4 && added == 100000
            else if t <= e.name then tier == 3 && added == 30000
            else if NameHasBeginning(e, t) then tier == 2 && added == 15000
            else
              var pairs := PairScore(t, e.name);
              if pairs > 0 then
                tier == 1
                && added == 5000 + 200 * pairs + if |Runs(IsAlnum, e.name, 0)| == pairs + 1 then 800 else 0
              else tier == 0 && added == 0
  {
    hide HasWord, HasWordPrefix, HasAlias, NameHasWord, NameHasBeginning, PairScore, FuzzyScore, Weighted, FieldScore;
    hide Runs, IsToken;
    AliasIff(e, t);
    WordIff(e, t);
    BeginningIff(e, t);
    FieldWeight(t, e.name, 8);
    FieldWeight(t, e.aliases, 7);
    FieldWeight(t, e.keywords, 2);
  }

  // ---- Tokens ----

  lemma {:induction false} WholeIsToken(query: seq<byte>)
    requires query != [] && forall k :: 0 <= k < |query| ==> InWord(query[k])
    ensures Tokens(query) == [if |query| <= 63 then query else query[..63]]
  {
    RunEndsAt(IsAlnum, query, 0, |query|);
    assert Runs(IsAlnum, query, |query|) == [];
    assert Runs(IsAlnum, query, 0) == [Run(0, |query|)];
    assert query[0..|query|] == query;
  }

  /** The run through `p` lies in the part before the break. */
  lemma {:induction false} EndBefore(u: seq<byte>, c: byte, v: seq<byte>, p: nat)
    requires p <= |u| && !IsAlnum(c)
    ensures RunEnd(IsAlnum, u + [c] + v, p) == RunEnd(IsAlnum, u, p)
    decreases |u| - p
  {
    if p < |u| && IsAlnum(u[p]) {
      EndBefore(u, c, v, p + 1);
    }
  }

  lemma {:induction false} EndBehind(u: seq<byte>, c: byte, v: seq<byte>, p: nat)
    requires p <= |v|
    ensures RunEnd(IsAlnum, u + [c] + v, |u| + 1 + p) == |u| + 1 + RunEnd(IsAlnum, v, p)
    decreases |v| - p
  {
    if p < |v| && IsAlnum(v[p]) {
      EndBehind(u, c, v, p + 1);
    }
  }

  ghost function TokensFrom(query: seq<byte>, p: nat): seq<seq<byte>>
    requires p <= |query|
  {
    TokensOf(query, Runs(IsAlnum, query, p))
  }

  lemma {:induction false} TokensFromStep(query: seq<byte>, p: nat)
    requires p <= |query|
    ensures TokensFrom(query, p) ==
            if p == |query| then []
            else if !IsAlnum(query[p]) then TokensFrom(query, p + 1)
            else [Capped(query[p..RunEnd(IsAlnum, query, p)], 63)] + TokensFrom(query, RunEnd(IsAlnum, query, p))
  {
    hide RunEnd, Capped;
    RunsStep(IsAlnum, query, p);
  }

  lemma {:induction false} TokensBehind(u: seq<byte>, c: byte, v: seq<byte>, p: nat)
    requires p <= |v|
    ensures TokensFrom(u + [c] + v, |u| + 1 + p) == TokensFrom(v, p)
    decreases |v| - p
  {
    hide RunEnd, TokensFrom, Capped;
    var s, q := u + [c] + v, |u| + 1 + p;
    TokensFromStep(s, q);
    TokensFromStep(v, p);
    if p < |v| {
      if IsAlnum(v[p]) {
        EndBehind(u, c, v, p);
        var b := RunEnd(IsAlnum, v, p);
        RunMoves(v, p);
        assert s[q..|u| + 1 + b] == v[p..b];
        TokensBehind(u, c, v, b);
      } else {
        TokensBehind(u, c, v, p + 1);
      }
    }
  }

  lemma {:induction false} RunMoves(s: seq<byte>, p: nat)
    requires p < |s| && IsAlnum(s[p])
    ensures p < RunEnd(IsAlnum, s, p) <= |s|
  {
  }

  lemma {:induction false} TokensAcross(u: seq<byte>, c: byte, v: seq<byte>, p: nat)
    requires p <= |u| && !IsAlnum(c)
    ensures TokensFrom(u + [c] + v, p) == TokensFrom(u, p) + TokensFrom(v, 0)
    decreases |u| - p
  {
    hide RunEnd, TokensFrom, Capped;
    var s := u + [c] + v;
    TokensFromStep(s, p);
    TokensFromStep(u, p);
    if p == |u| {
      TokensBehind(u, c, v, 0);
    } else if IsAlnum(u[p]) {
      EndBefore(u, c, v, p);
      var b := RunEnd(IsAlnum, u, p);
      RunMoves(u, p);
      assert s[p..b] == u[p..b];
      TokensAcross(u, c, v, b);
    } else {
      TokensAcross(u, c, v, p + 1);
    }
  }

  /** emoji_provider.c:424-436.  Every other byte separates tokens, and nothing else
      does. */
  lemma {:induction false} OtherBytesSeparate(u: seq<byte>, c: byte, v: seq<byte>)
    requires !InWord(c)
    ensures Tokens(u + [c] + v) == Tokens(u) + Tokens(v)
    ensures Tokens([]) == []
  {
    hide TokensOf, Runs;
    TokensAcross(u, c, v, 0);
    NoTokensAtAll();
  }

  lemma {:induction false} NoTokensAtAll()
    ensures Tokens([]) == []
  {
  }

  // ---- Several tokens ----

  lemma {:induction false} SummedConcat(a: seq<seq<byte>>, b: seq<seq<byte>>, e: Entry)
    ensures var x, y := Summed(a, e), Summed(b, e);
            Summed(a + b, e) == Rank(x.total + y.total, if x.tier > y.tier then x.tier else y.tier)
  {
    hide TokenTotal, TierOf;
    if b == [] {
      assert a + b == a;
    } else {
      var n := |b| - 1;
      assert (a + b)[..|a| + n] == a + b[..n];
      SummedConcat(a, b[..n], e);
    }
  }

  lemma {:induction false} ContributeConcat(a: seq<seq<byte>>, b: seq<seq<byte>>, e: Entry)
    ensures AllContribute(a + b, e) <==> AllContribute(a, e) && AllContribute(b, e)
  {
    hide Contribution;
    if AllContribute(a + b, e) {
      forall k | 0 <= k < |a| ensures Contribution(a[k], e) > 0 {
        assert (a + b)[k] == a[k];
      }
      forall k | 0 <= k < |b| ensures Contribution(b[k], e) > 0 {
        assert (a + b)[|a| + k] == b[k];
      }
    }
  }

  /** emoji_provider.c:495-504.  Two queries joined: an entry is listed if each of them
      lists it, with the sum of the totals and the higher of the tiers. */
  lemma {:induction false} JoinedQueriesAdd(u: seq<byte>, c: byte, v: seq<byte>, e: Entry)
    requires !InWord(c) && Tokens(u) != [] && Tokens(v) != []
    ensures var x, y := RankOf(u, e), RankOf(v, e);
            RankOf(u + [c] + v, e) ==
              if x.total > 0 && y.total > 0 then Rank(x.total + y.total, if x.tier > y.tier then x.tier else y.tier)
              else NO_MATCH
  {
    hide Tokens, Summed, AllContribute;
    OtherBytesSeparate(u, c, v);
    SummedConcat(Tokens(u), Tokens(v), e);
    ContributeConcat(Tokens(u), Tokens(v), e);
    TokensAreShort(u);
    TokensAreShort(v);
    if AllContribute(Tokens(u), e) {
      SummedPositive(Tokens(u), e);
    }
    if AllContribute(Tokens(v), e) {
      SummedPositive(Tokens(v), e);
    }
  }

  /** One token is ranked by its own total. */
  lemma {:induction false} OneTokenRank(t: seq<byte>, e: Entry)
    requires IsToken(t)
    ensures RankOf(t, e) ==
            if BestOfFields(t, e) > 0 then Rank(TokenTotal(t, e), TierOf(t, e)) else NO_MATCH
  {
    hide TokenTotal, TierOf, Contribution, Tokens, BestOfFields;
    WholeIsToken(t);
    TotalByKind(t, e);
    assert [t] == [] + [t];
    SummedStep([], t, e);
    if RankOf(t, e).total > 0 {
      SingleToken(t, e);
    }
  }

  // ---- Word starts ----

  lemma {:induction false} GridOfThree(x: byte, c: byte, y: byte)
    requires InWord(x) && InWord(y)
    ensures var g := EmojiPairs.Prepare([x, y], [x, c, y]);
            g.filter == [x, y] && g.starts == if IsWordStart([x, c, y], 2) then [x, y] else [x]
  {
    hide WordStarts, IsWordStart;
    StartsOfThree([x, c, y]);
    assert Letters([x, c, y], [0, 2]) == [x, y] && Letters([x, c, y], [0]) == [x] && Lowered([x, y]) == [x, y];
  }

  lemma {:induction false} NoRoomForTwo(g: Grid)
    requires |g.filter| == 2 && |g.starts| == 1
    ensures !Embeddable(Same, g.filter, g.starts)
  {
    forall e ensures !Embeds(Same, g.filter, g.starts, e) {
      if Embeds(Same, g.filter, g.starts, e) {
        EmbeddingFits(Same, g.filter, g.starts, e);
      }
    }
  }

  /** Two letters make an acronym of a name that puts one byte between them exactly if
      that byte is one of: blank - _ . ( | / */
  lemma {:induction false} AcronymSeparators(x: byte, y: byte, c: byte)
    requires InWord(x) && InWord(y)
    ensures PairScore([x, y], [x, c, y]) ==
            if c in [' ' as int, '-' as int, '_' as int, '.' as int, '(' as int, '|' as int, '/' as int] then 1 else 0
  {
    hide PairScore, Pairs, EmojiPairs.Prepare, Embeddable;
    var g := EmojiPairs.Prepare([x, y], [x, c, y]);
    GridOfThree(x, c, y);
    PairScoreBound([x, y], [x, c, y]);
    PairScoreIsMaximum([x, y], [x, c, y]);
    if IsWordStart([x, c, y], 2) {
      assert Embeds(Same, g.filter, g.starts, [0, 1]);
      NeighboursAt(0);
    } else {
      NoRoomForTwo(g);
    }
  }

  lemma {:induction false} StartsOfThree(s: seq<byte>)
    requires |s| == 3 && InWord(s[0])
    ensures WordStarts(s, 3) == if IsWordStart(s, 2) then [0, 2] else [0]
  {
    assert WordStarts(s, 1) == [0];
    assert WordStarts(s, 2) == [0];
  }

  /** `n` one-letter words. */
  function Initials(x: byte, n: nat): (s: seq<byte>)
    ensures |s| == 2 * n && forall k :: 0 <= k < n ==> s[2 * k] == x && s[2 * k + 1] == ' ' as int
  {
    if n == 0 then [] else Initials(x, n - 1) + [x, ' ' as int]
  }

  function Evens(n: nat): (f: seq<nat>)
    ensures |f| == n && forall k :: 0 <= k < n ==> f[k] == 2 * k
  {
    seq(n, k requires 0 <= k < n => 2 * k)
  }

  lemma {:induction false} EvenStarts(s: seq<byte>, n: nat)
    requires 2 * n <= |s| && forall k :: 0 <= k < n ==> InWord(s[2 * k]) && s[2 * k + 1] == ' ' as int
    ensures WordStarts(s, 2 * n) == Evens(n)
  {
    if n > 0 {
      EvenStarts(s, n - 1);
      assert InWord(s[2 * (n - 1)]) && s[2 * (n - 1) + 1] == ' ' as int;
      assert n > 1 ==> s[2 * (n - 2) + 1] == ' ' as int;
      assert IsWordStart(s, 2 * (n - 1)) && !IsWordStart(s, 2 * (n - 1) + 1);
      assert WordStarts(s, 2 * n - 1) == Evens(n - 1) + [2 * (n - 1)];
      assert Evens(n) == Evens(n - 1) + [2 * (n - 1)];
    }
  }

  /** An acronym is looked for in the first 128 words alone. */
  lemma {:induction false} FirstWordsCount(x: byte, y: byte, z: byte, n: nat)
    requires InWord(x) && InWord(y) && InWord(z) && x != y && x != z
    ensures PairScore([y, z], Initials(x, n) + [y, ' ' as int, z]) == if n + 2 <= 128 then 1 else 0
  {
    hide PairScore, Pairs, WordStarts;
    var filter, display := [y, z], Initials(x, n) + [y, ' ' as int, z];
    var g := EmojiPairs.Prepare(filter, display);
    LastStart(x, y, z, n);
    PairScoreBound(filter, display);
    PairScoreIsMaximum(filter, display);
    forall k | 0 <= k < n && k < 128 ensures k < |g.starts| && g.starts[k] == x {
      assert display[2 * k] == x;
    }
    if n + 2 <= 128 {
      assert g.starts[n] == y && g.starts[n + 1] == z;
      assert Embeds(Same, g.filter, g.starts, [n, n + 1]);
      NeighboursAt(n);
    } else {
      forall e ensures !Embeds(Same, g.filter, g.starts, e) {
        NeedsTwo(g, x, e);
      }
    }
  }

  /** The first filter byte would have to stand before the last word. */
  lemma {:induction false} NeedsTwo(g: Grid, x: byte, e: seq<nat>)
    requires |g.filter| == 2 && g.filter[0] != x && forall k :: 0 <= k < |g.starts| - 1 ==> g.starts[k] == x
    ensures !Embeds(Same, g.filter, g.starts, e)
  {
    assert |e| == 2 && e[0] < e[1] < |g.starts| ==> g.starts[e[0]] == x;
  }

  lemma {:induction false} LastStart(x: byte, y: byte, z: byte, n: nat)
    requires InWord(x) && InWord(y) && InWord(z)
    ensures var display := Initials(x, n) + [y, ' ' as int, z];
            WordStarts(display, |display|) == Evens(n + 2)
  {
    var display := Initials(x, n) + [y, ' ' as int, z];
    forall k | 0 <= k < n + 1 ensures InWord(display[2 * k]) && display[2 * k + 1] == ' ' as int {
      if k < n {
        assert display[2 * k] == Initials(x, n)[2 * k] && display[2 * k + 1] == Initials(x, n)[2 * k + 1];
      }
    }
    EvenStarts(display, n + 1);
    assert IsWordStart(display, 2 * n + 2);
    assert WordStarts(display, 2 * n + 3) == Evens(n + 1) + [2 * n + 2];
    assert Evens(n + 2) == Evens(n + 1) + [2 * n + 2];
  }

  lemma {:induction false} NeighboursAt(n: nat)
    ensures Pairs([n, n + 1]) == 1
  {
    assert [n, n + 1][..1] == [n];
    assert Pairs([n]) == 0;
  }
}
