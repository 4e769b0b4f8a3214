/** Queries of two tokens of which the rarer begins with the commoner: when the
    emoji tiers decide (src/emoji/emoji_provider.c:416-504). */
module EmojiLopsided {
  import opened CStrings
  import opened EmojiNames
  import opened EmojiPairs
  import opened EmojiQueries
  import opened EmojiRank
  import opened EmojiScores
  import opened EmojiTiers
  import Fzf
  import opened Words

  /** The commoner token alone as a prefix of the name outscores both as prefixes
      of a later word, whatever the matcher adds. */
  predicate Slack(ts: seq<Token>, s: Token, t: Token) {
    var p, q := Count(ts, s), Count(ts, t);
    15000 * (q - p) > 208 * (p * |s|) + 48 * p + 208 * (q * |t|) + 48 * q
  }

  /** The commoner token as a word prefix outscores both as acronyms. */
  predicate SmallAcronyms(ts: seq<Token>, s: Token, t: Token) {
    var p, q := Count(ts, s), Count(ts, t);
    |t| == 1 || 9352 * q > 5648 * p + 408 * (p * |s|) + 408 * (q * |t|)
  }

  // ---- Totals of the two tokens ----

  lemma {:induction false} SummedTwo(ts: seq<Token>, s: Token, t: Token, e: Entry)
    requires s != t && OnlyTwo(ts, s, t)
    ensures Summed(ts, e).total == Count(ts, s) * TokenTotal(s, e) + Count(ts, t) * TokenTotal(t, e)
    decreases |ts|
  {
    hide TokenTotal, TierOf, Summed, Count;
    CountLast(ts, s);
    CountLast(ts, t);
    if ts == [] {
      NoTokens([], e);
    } else {
      var n := |ts| - 1;
      SummedLast(ts, e);
      SummedTwo(ts[..n], s, t, e);
      Distribute(Count(ts[..n], s), TokenTotal(s, e));
      Distribute(Count(ts[..n], t), TokenTotal(t, e));
    }
  }

  lemma {:induction false} CountLast(ts: seq<Token>, s: Token)
    ensures Count(ts, s) == if ts == [] then 0 else Count(ts[..|ts| - 1], s) + if ts[|ts| - 1] == s then 1 else 0
  {
  }

  lemma {:induction false} Distribute(n: nat, x: int)
    ensures (n + 1) * x == n * x + x
  {
  }

  lemma {:induction false} HigherTier(ts: seq<Token>, s: Token, t: Token, e: Entry)
    requires OnlyTwo(ts, s, t) && s in ts && t in ts
    ensures Summed(ts, e).tier == if TierOf(t, e) > TierOf(s, e) then TierOf(t, e) else TierOf(s, e)
  {
    hide TierOf, Summed;
    var tier := if TierOf(t, e) > TierOf(s, e) then TierOf(t, e) else TierOf(s, e);
    var k :| 0 <= k < |ts| && ts[k] == if TierOf(t, e) > TierOf(s, e) then t else s;
    assert TierOf(ts[k], e) == tier;
    SummedTier(ts, e, tier);
  }

  lemma {:induction false} Scale(n: nat, a: int, b: int)
    requires a <= b
    ensures n * a <= n * b
  {
  }

  function Bases(tier: nat, n: int): int {
    match tier
    case 0 => 0
    case 1 => 5000 * n
    case 2 => 15000 * n
    case 3 => 30000 * n
    case 4 => 100000 * n
    case 5 => 200000 * n
    case _ => 300000 * n
  }

  /** What `n` copies of a token may add; `bytes` is their length in all. */
  predicate Within(tier: nat, n: int, bytes: int, share: int) {
    if tier == 1 then 5232 * n <= share <= 5680 * n + 408 * bytes
    else Bases(tier, n) + 32 * n <= share <= Bases(tier, n) + 208 * bytes + 80 * n
  }

  lemma {:induction false} Share(n: nat, x: Token, e: Entry)
    requires 0 < |x| <= 22 && Contribution(x, e) > 0
    ensures Within(TierOf(x, e), n, n * |x|, n * TokenTotal(x, e))
  {
    hide TokenTotal, TierOf, Contribution;
    TierBand(x, e);
    var tier, total := TierOf(x, e), TokenTotal(x, e);
    assert TIER_BASES[tier] * n == Bases(tier, n);
    Scale(n, TIER_BASES[tier] + 32, total);
    if tier == 1 {
      Scale(n, 5232, total);
      Scale(n, total, 5680 + 408 * |x|);
    } else {
      Scale(n, total, TIER_BASES[tier] + 208 * |x| + 80);
    }
  }

  // ---- What one token's tier says about the other's ----

  lemma {:induction false} WordsBegin(name: seq<byte>, s: Token, t: Token)
    requires t != [] && t <= s
    ensures HasWord(IsAlnum, name, s) || HasWordPrefix(IsAlnum, name, s) ==> HasWordPrefix(IsAlnum, name, t)
  {
    if HasWord(IsAlnum, name, s) {
      var a: nat, b: nat :| IsRun(IsAlnum, name, a, b) && name[a..b] == s;
      assert name[a..b] <= name[a..];
      assert t <= name[a..];
    }
    if HasWordPrefix(IsAlnum, name, s) {
      var a: nat, b: nat :| IsRun(IsAlnum, name, a, b) && s <= name[a..];
      assert t <= name[a..];
    }
  }

  lemma {:induction false} NamedLonger(s: Token, t: Token, e: Entry)
    requires t != [] && Begins(t, s) && AllAlnum(s) && e.name == s
    ensures TierOf(t, e) == 3 || TierOf(t, e) == 6
  {
    hide PairScore;
    forall a: nat, b: nat | IsRun(IsAlnum, s, a, b) ensures s[a..b] == s {
      AloneRun(s, [], IsAlnum, a, b);
      assert s + [] == s;
    }
  }

  lemma {:induction false} NamedShorter(s: Token, t: Token, e: Entry)
    requires t != [] && Begins(t, s) && AllAlnum(t) && e.name == t
    ensures TierOf(s, e) == 0 || TierOf(s, e) == 6
  {
    hide PairScore;
    OneWordHasNoPairs(s, t);
    forall a: nat, b: nat | IsRun(IsAlnum, t, a, b) ensures t[a..b] != s && !(s <= t[a..]) {
      assert |t[a..b]| <= |t| && |t[a..]| <= |t|;
    }
  }

  /** The tiers `x` and `y` that a longer token and its beginning can have. */
  predicate Together(x: nat, y: nat, single: bool) {
    && x <= 6 && y <= 6
    && (2 <= x <= 4 ==> y >= 2) && (x == 3 ==> y >= 3)
    && (x == 5 ==> y == 3 || y == 6) && (y == 5 ==> x == 0 || x == 6) && (single ==> y != 1)
  }

  lemma {:induction false} TiersOfBoth(s: Token, t: Token, e: Entry)
    requires t != [] && Begins(t, s) && AllAlnum(s) && AllAlnum(t)
    ensures var x, y := TierOf(s, e), TierOf(t, e);
            Together(x, y, |t| == 1) && (x == 5 ==> e.name == s) && (y == 5 ==> e.name == t)
  {
    hide PairScore, HasWord, HasWordPrefix;
    WordsBegin(e.name, s, t);
    if |t| == 1 {
      NoPairs(t, e.name);
    }
    if e.name == s {
      NamedLonger(s, t, e);
    }
    if e.name == t {
      NamedShorter(s, t, e);
    }
  }

  /** A token that begins the name contributes the most there is. */
  lemma {:induction false} NameContribution(x: Token, e: Entry, u: nat)
    requires 0 < |x| <= 22 && AllAlnum(x) && AtFront(x, e.name, u) && |e.name| <= Fzf.FZF_MAX_LEN
    ensures Contribution(x, e) == 208 * |x| + 80
  {
    hide Fzf.FuzzyScore;
    FrontScore(x, e.name, u);
    ContributionRange(x, e);
  }

  // ---- Slack is enough ----

  /** The two tokens, their counts, and how many bytes the copies have. */
  datatype Shape = Shape(p: nat, q: nat, sBytes: nat, tBytes: nat, single: bool) {
    predicate Fits() {
      && 7 * q < 10 * p && p < q
      && sBytes <= 22 * p && tBytes <= 21 * q && (single ==> tBytes == q)
    }

    predicate Slack() {
      15000 * (q - p) > 208 * sBytes + 48 * p + 208 * tBytes + 48 * q
    }

    predicate SmallAcronyms() {
      single || 9352 * q > 5648 * p + 408 * sBytes + 408 * tBytes
    }

    function Most(): int {
      208 * sBytes + 80 * p + 208 * tBytes + 80 * q
    }

    function LowEnd(tier: nat): int {
      match tier
      case 6 => 300000 * p
      case 5 =>
        var both, one := 200000 * p + 30000 * q + Most(), 200000 * q + 208 * tBytes + 80 * q + 32 * p;
        if both < one then both else one
      case 4 => 85000 * q
      case 3 => 30032 * q + 32 * p
      case 2 => 15032 * q + 32 * p
      case 1 => 5232 * p + 32 * q
      case _ => 0
    }

    function HighEnd(tier: nat): int {
      match tier
      case 5 => Most() + if 200000 * p + 30000 * q > 200000 * q then 200000 * p + 30000 * q else 200000 * q
      case 4 => Most() + 100000 * (p + q)
      case 3 => Most() + 30000 * (p + q)
      case 2 => Most() + 15000 * (p + q)
      case 1 => 5680 * p + 408 * sBytes + if single then 208 * tBytes + 80 * q else 5680 * q + 408 * tBytes
      case _ => Most()
    }
  }

  /** Shares of two tiers that can go together add up to the band of the higher. */
  lemma {:induction false} AboveLow(h: Shape, x: nat, y: nat, a: int, b: int)
    requires h.Fits() && Together(x, y, h.single) && Within(x, h.p, h.sBytes, a) && Within(y, h.q, h.tBytes, b)
    requires x == 5 && y == 3 ==> a + b == 200000 * h.p + 30000 * h.q + h.Most()
    requires y == 5 ==> b == 200000 * h.q + 208 * h.tBytes + 80 * h.q
    ensures h.LowEnd(if y > x then y else x) <= a + b
  {
    hide Shape.HighEnd;
    if y > x {
      assert b >= Bases(y, h.q);
    }
  }

  lemma {:induction false} BelowHigh(h: Shape, x: nat, y: nat, a: int, b: int)
    requires h.Fits() && Together(x, y, h.single) && Within(x, h.p, h.sBytes, a) && Within(y, h.q, h.tBytes, b)
    requires x != 6 && y != 6
    ensures a + b <= h.HighEnd(if y > x then y else x)
  {
    hide Shape.LowEnd;
  }

  lemma {:induction false} NextBand(h: Shape, tier: nat)
    requires h.Fits() && h.Slack() && h.SmallAcronyms() && tier < 6
    ensures h.HighEnd(tier) < h.LowEnd(tier + 1)
  {
  }

  lemma {:induction false} BandsRise(h: Shape, tier: nat)
    requires h.Fits() && tier < 5
    ensures h.HighEnd(tier) <= h.HighEnd(tier + 1)
  {
  }

  lemma {:induction false} BandsApart(h: Shape, lower: nat, higher: nat)
    requires h.Fits() && h.Slack() && h.SmallAcronyms() && lower < higher <= 6
    ensures h.HighEnd(lower) < h.LowEnd(higher)
    decreases higher - lower
  {
    hide Shape.HighEnd, Shape.LowEnd, Shape.Fits, Shape.Slack, Shape.SmallAcronyms;
    if lower + 1 == higher {
      NextBand(h, lower);
    } else {
      BandsRise(h, lower);
      BandsApart(h, lower + 1, higher);
    }
  }

  function ShapeOf(ts: seq<Token>, s: Token, t: Token): Shape {
    var p, q := Count(ts, s), Count(ts, t);
    Shape(p, q, p * |s|, q * |t|, |t| == 1)
  }

  lemma {:induction false} ShapeFits(ts: seq<Token>, s: Token, t: Token)
    requires ShortTokens(ts) && LopsidedBy(ts, s, t)
    ensures ShapeOf(ts, s, t).Fits() && 0 < |t| < |s| <= 22 && AllAlnum(s) && AllAlnum(t)
  {
    hide Count;
    var j :| 0 <= j < |ts| && ts[j] == s;
    var k :| 0 <= k < |ts| && ts[k] == t;
    Scale(Count(ts, s), |s|, 22);
    Scale(Count(ts, t), |t|, 21);
  }

  lemma {:induction false} TwoTokenBand(ts: seq<Token>, s: Token, t: Token, e: Entry)
    requires ShortTokens(ts) && LopsidedBy(ts, s, t) && Listed(ts, e)
    ensures var r, shape := Summed(ts, e), ShapeOf(ts, s, t);
            r.tier <= 6 && shape.LowEnd(r.tier) <= r.total && (r.tier < 6 ==> r.total <= shape.HighEnd(r.tier))
  {
    hide TokenTotal, TierOf, Contribution, Summed, Count, Within, Together, Shape.LowEnd, Shape.HighEnd;
    ShapeFits(ts, s, t);
    var j :| 0 <= j < |ts| && ts[j] == s;
    var k :| 0 <= k < |ts| && ts[k] == t;
    assert Contribution(ts[j], e) > 0 && Contribution(ts[k], e) > 0;
    SummedTwo(ts, s, t, e);
    HigherTier(ts, s, t, e);
    TiersOfBoth(s, t, e);
    Share(Count(ts, s), s, e);
    Share(Count(ts, t), t, e);
    NamedShares(Count(ts, s), Count(ts, t), s, t, e);
    var a, b := Count(ts, s) * TokenTotal(s, e), Count(ts, t) * TokenTotal(t, e);
    AboveLow(ShapeOf(ts, s, t), TierOf(s, e), TierOf(t, e), a, b);
    if TierOf(s, e) != 6 && TierOf(t, e) != 6 {
      BelowHigh(ShapeOf(ts, s, t), TierOf(s, e), TierOf(t, e), a, b);
    }
  }

  /** An exact name adds all it can to what it begins with. */
  lemma {:induction false} NamedShares(p: nat, q: nat, s: Token, t: Token, e: Entry)
    requires 0 < |t| < |s| <= 22 && AllAlnum(s) && AllAlnum(t) && Begins(t, s)
    ensures TierOf(s, e) == 5 && TierOf(t, e) == 3 ==>
              p * TokenTotal(s, e) + q * TokenTotal(t, e)
              == 200000 * p + 30000 * q + 208 * (p * |s|) + 80 * p + 208 * (q * |t|) + 80 * q
    ensures TierOf(t, e) == 5 ==> q * TokenTotal(t, e) == 200000 * q + 208 * (q * |t|) + 80 * q
  {
    hide TierOf, Contribution, PairScore;
    TiersOfBoth(s, t, e);
    AlnumIsLower(s);
    if TierOf(s, e) == 5 && TierOf(t, e) == 3 {
      NameContribution(s, e, 0);
      NameContribution(t, e, 0);
      assert TokenTotal(s, e) == 200000 + 208 * |s| + 80 && TokenTotal(t, e) == 30000 + 208 * |t| + 80;
    }
    if TierOf(t, e) == 5 {
      NameContribution(t, e, 0);
      assert TokenTotal(t, e) == 200000 + 208 * |t| + 80;
    }
  }

  lemma {:induction false} LopsidedDecides(ts: seq<Token>, s: Token, t: Token)
    requires ShortTokens(ts) && LopsidedBy(ts, s, t) && Slack(ts, s, t) && SmallAcronyms(ts, s, t)
    ensures TiersDecide(ts)
  {
    hide Summed, Count, Listed;
    var shape := ShapeOf(ts, s, t);
    ShapeFits(ts, s, t);
    forall lower, higher | Listed(ts, lower) && Listed(ts, higher) && Summed(ts, lower).tier < Summed(ts, higher).tier
      ensures Summed(ts, lower).total < Summed(ts, higher).total
    {
      TwoTokenBand(ts, s, t, lower);
      TwoTokenBand(ts, s, t, higher);
      BandsApart(shape, Summed(ts, lower).tier, Summed(ts, higher).tier);
    }
  }

  // ---- Without it two entries cross ----

  /** The commoner token begins the name, which is too long to be scored. */
  function Prefixed(s: Token, t: Token): Entry
    requires Begins(t, s) && AllAlnum(s)
  {
    Entry(t + Times(Guard(s[|t|], s[|t|], s[|t|]), 1024), [], Sparse(s))
  }

  /** Both tokens begin the one word of the name. */
  function Inner(s: Token): Entry {
    Entry([SPACE] + s + [A], [], [])
  }

  lemma {:induction false} AllOneWord(w: seq<byte>, a: nat, b: nat)
    requires AllAlnum(w) && IsRun(IsAlnum, w, a, b)
    ensures a == 0 && b == |w|
  {
    AloneRun(w, [], IsAlnum, a, b);
    assert w + [] == w;
  }

  lemma {:induction false} PrefixedTiers(s: Token, t: Token)
    requires t != [] && Begins(t, s) && |s| <= 22 && AllAlnum(s)
    ensures TierOf(t, Prefixed(s, t)) == 3 && TierOf(s, Prefixed(s, t)) == 0
  {
    hide Sparse, PairScore, Times;
    var f := Guard(s[|t|], s[|t|], s[|t|]);
    var name := t + Times(f, 1024);
    assert AllAlnum(name) by {
      forall k | 0 <= k < |name| ensures IsAlnum(name[k]) {
        assert k < |t| ==> IsAlnum(s[k]);
      }
    }
    OneWordHasNoPairs(s, name);
    assert name[|t|] == f && f != s[|t|];
    forall a: nat, b: nat | IsRun(IsAlnum, name, a, b) ensures name[a..b] == name && name[a..] == name {
      AllOneWord(name, a, b);
    }
  }

  lemma {:induction false} InnerRun(s: Token, a: nat, b: nat)
    requires AllAlnum(s) && IsRun(IsAlnum, [SPACE] + s + [A], a, b)
    ensures a == 1 && b == |s| + 2
  {
    var name := [SPACE] + s + [A];
    assert name == [SPACE] + (s + [A]);
    assert forall k :: 1 <= k < |name| ==> IsAlnum(name[k]);
    assert IsAlnum(name[a]) && IsAlnum(name[b - 1]);
  }

  lemma {:induction false} InnerTier(x: Token, s: Token)
    requires x != [] && x <= s && AllAlnum(s)
    ensures TierOf(x, Inner(s)) == 2
  {
    hide PairScore;
    var name := [SPACE] + s + [A];
    assert name[0] == SPACE && IsAlnum(x[0]) by {
      assert x[0] == s[0];
    }
    forall a: nat, b: nat | IsRun(IsAlnum, name, a, b) ensures |name[a..b]| == |s| + 1 {
      InnerRun(s, a, b);
    }
    assert forall k :: 1 <= k < |name| ==> IsAlnum(name[k]);
    assert IsRun(IsAlnum, name, 1, |name|);
    assert name[1..] == s + [A];
    assert x <= name[1..];
  }

  lemma {:induction false} PrefixedTotals(s: Token, t: Token)
    requires t != [] && Begins(t, s) && |s| <= 22 && AllAlnum(s)
    ensures var e := Prefixed(s, t);
            IsEntry(e) && Contribution(s, e) == 32 && Contribution(t, e) == 32
            && TokenTotal(s, e) == 32 && TokenTotal(t, e) == 30032
  {
    hide Fzf.FuzzyScore, Sparse, TierOf, PairScore, Times;
    var e := Prefixed(s, t);
    PrefixedTiers(s, t);
    SparseIsCString(s);
    SparseScore(s, s);
    SparseScore(t, s);
    TooLong(s, e.name);
    TooLong(t, e.name);
    TooLong(s, []);
    TooLong(t, []);
    forall k | 0 <= k < |t| ensures t[k] != 0 {
      assert IsAlnum(s[k]);
    }
  }

  lemma {:induction false} InnerTotals(x: Token, s: Token)
    requires x != [] && x <= s && |s| <= 22 && AllAlnum(s)
    ensures IsEntry(Inner(s)) && Contribution(x, Inner(s)) == 208 * |x| + 80
    ensures TokenTotal(x, Inner(s)) == 15080 + 208 * |x|
  {
    hide TierOf, PairScore, Contribution;
    var e := Inner(s);
    InnerTier(x, s);
    AlnumIsLower(s);
    assert AllAlnum(x) by {
      forall k | 0 <= k < |x| ensures IsAlnum(x[k]) { assert x[k] == s[k]; }
    }
    forall k | 0 <= k < |x| ensures ToLower(e.name[1 + k]) == x[k] {
      assert e.name[1 + k] == s[k] == Lowered(s)[k];
    }
    NameContribution(x, e, 1);
    forall k | 0 <= k < |e.name| ensures e.name[k] != 0 {
      assert 1 <= k <= |s| ==> IsAlnum(s[k - 1]);
    }
  }

  lemma {:induction false} LopsidedCrosses(ts: seq<Token>, s: Token, t: Token)
    requires ShortTokens(ts) && LopsidedBy(ts, s, t) && !Slack(ts, s, t)
    ensures !TiersDecide(ts)
  {
    hide TokenTotal, TierOf, Contribution, Summed, Count, Sparse;
    ShapeFits(ts, s, t);
    var low, high := Inner(s), Prefixed(s, t);
    PrefixedTiers(s, t);
    PrefixedTotals(s, t);
    InnerTier(s, s);
    InnerTier(t, s);
    InnerTotals(s, s);
    InnerTotals(t, s);
    SummedTwo(ts, s, t, low);
    SummedTwo(ts, s, t, high);
    HigherTier(ts, s, t, low);
    HigherTier(ts, s, t, high);
    forall k | 0 <= k < |ts| ensures Contribution(ts[k], low) > 0 && Contribution(ts[k], high) > 0 {
      assert ts[k] == s || ts[k] == t;
    }
    CrossingTotals(Count(ts, s), Count(ts, t), |s|, |t|);
  }

  lemma {:induction false} CrossingTotals(p: nat, q: nat, m: nat, n: nat)
    ensures p * (15080 + 208 * m) + q * (15080 + 208 * n)
         == 15080 * (p + q) + 208 * (p * m) + 208 * (q * n)
  {
  }

  // ---- Long tokens cross as acronyms ----

  /** Both tokens as acronyms of one name outscore the commoner as a word prefix. */
  predicate LongAcronyms(ts: seq<Token>, s: Token, t: Token) {
    var p, q := Count(ts, s), Count(ts, t);
    |t| >= 2 && |s| > 0 && !(t <= s[1..]) && 5624 * p + 408 * (p * |s|) + 408 * (q * |t|) >= 10176 * q
  }

  /** The commoner token begins a later word, which the rarer does not. */
  function AsideWords(s: Token, t: Token): seq<Word>
    requires Begins(t, s) && AllAlnum(s)
  {
    [[PLUS], t + Times(Guard(s[|t|], s[|t|], s[|t|]), 1024)]
  }

  function Aside(s: Token, t: Token): Entry
    requires Begins(t, s) && AllAlnum(s)
  {
    Entry(Spoken(AsideWords(s, t)), [], Sparse(s))
  }

  lemma {:induction false} AsideIsSpoken(s: Token, t: Token)
    requires t != [] && Begins(t, s) && AllAlnum(s)
    ensures var w := AsideWords(s, t)[1];
            AllAlnum(w) && AllSpoken(AsideWords(s, t)) && Spoken(AsideWords(s, t)) == [PLUS, SPACE] + w
    ensures !(s <= AsideWords(s, t)[1]) && !(s <= [PLUS])
  {
    var w := AsideWords(s, t)[1];
    forall k | 0 <= k < |w| ensures IsAlnum(w[k]) && w[k] != 0 && !Separates(w[k]) {
      assert k < |t| ==> IsAlnum(s[k]);
    }
    TwoSpoken([PLUS], w);
    assert [PLUS] + [SPACE] + w == [PLUS, SPACE] + w;
    assert IsAlnum(s[0]) && w[|t|] != s[|t|];
  }

  lemma {:induction false} AsideTiers(s: Token, t: Token)
    requires |t| >= 2 && Begins(t, s) && AllAlnum(s) && |s| <= 22
    ensures TierOf(t, Aside(s, t)) == 2 && TierOf(s, Aside(s, t)) == 0
  {
    hide Spoken, AllSpoken, IsSpoken, Sparse, Times, PairScore;
    var ws, e := AsideWords(s, t), Aside(s, t);
    var name := e.name;
    AsideIsSpoken(s, t);
    SpokenTier(s, ws, e);
    SpokenGrid(s, ws);
    TooFewStarts(s, name);
    PrefixIsAlnum(t, s);
    assert IsAlnum(t[0]) && name[0] == PLUS && name[1] == SPACE && !IsAlnum(PLUS);
    forall a: nat, b: nat | IsRun(IsAlnum, name, a, b) ensures name[a..b] != t {
      var k := RunIsWord(ws, a, b);
      assert ws[0][0] == PLUS;
    }
    assert name[2..] == ws[1];
    forall k | 2 <= k < |name| ensures IsAlnum(name[k]) {
      assert name[k] == name[2..][k - 2];
    }
    assert IsRun(IsAlnum, name, 2, |name|);
    assert t <= name[2..];
  }

  lemma {:induction false} AsideTotals(s: Token, t: Token)
    requires |t| >= 2 && Begins(t, s) && AllAlnum(s) && |s| <= 22
    ensures var e := Aside(s, t);
            IsEntry(e) && Contribution(s, e) == 32 && Contribution(t, e) == 32
            && TokenTotal(s, e) == 32 && TokenTotal(t, e) == 15032
  {
    hide Fzf.FuzzyScore, Sparse, TierOf, PairScore, Spoken, AllSpoken;
    var e := Aside(s, t);
    AsideTiers(s, t);
    AsideIsSpoken(s, t);
    SpokenEnds(AsideWords(s, t));
    SparseIsCString(s);
    SparseScore(s, s);
    SparseScore(t, s);
    TooLong(s, e.name);
    TooLong(t, e.name);
    TooLong(s, []);
    TooLong(t, []);
  }

  /** The name that spells the rarer token spells the commoner, too. */
  lemma {:induction false} SpelledBoth(s: Token, t: Token)
    requires |t| >= 2 && Begins(t, s) && AllAlnum(s) && |s| <= 22 && !(t <= s[1..])
    ensures var e := Acronym(s);
            Ranked(t, e) && TierOf(t, e) == 1 && TokenTotal(t, e) == 4856 + 408 * |t|
  {
    hide Fzf.FuzzyScore, TierOf, PairScore, Spoken, AllSpoken, AcronymWords, CountSeen;
    var e, ws := Acronym(s), AcronymWords(s);
    PrefixIsAlnum(t, s);
    AcronymIsSpoken(s);
    forall k | 0 <= k < |ws| ensures !(t <= ws[k]) {
      NoWordBegins(s, t, k);
    }
    SpelledPairs(s, t);
    SpokenTier(t, ws, e);
    SpokenRuns(ws);
    AcronymName(s);
    SplitOfPrefix(s, t, e.name);
    SplitScore(t, e.name);
    TooLong(t, []);
    ContributionRange(t, e);
  }

  lemma {:induction false} NoWordBegins(s: Token, t: Token, k: nat)
    requires 2 <= |t| < |s| && k < |s| && !(t <= s[1..])
    ensures !(t <= AcronymWords(s)[k])
  {
  }

  lemma {:induction false} SplitOfPrefix(s: Token, t: Token, name: seq<byte>)
    requires |t| >= 2 && t <= s && AtSplit(s, name)
    ensures AtSplit(t, name)
  {
  }

  lemma {:induction false} SpelledPairs(s: Token, t: Token)
    requires |t| >= 2 && Begins(t, s) && AllAlnum(s) && |s| <= 22
    ensures PairScore(t, Acronym(s).name) == |t| - 1
  {
    hide Spoken, PairScore, Pairs, AllSpoken, AcronymWords;
    var ws := AcronymWords(s);
    PrefixIsAlnum(t, s);
    AcronymIsSpoken(s);
    SpokenGrid(t, ws);
    var g := EmojiPairs.Prepare(t, Spoken(ws));
    assert Embeds(Same, g.filter, g.starts, Upto(|t|));
    PairScoreIsMaximum(t, Spoken(ws));
    PairScoreBound(t, Spoken(ws));
    UptoPairs(|t|);
  }

  lemma {:induction false} AcronymsCross(ts: seq<Token>, s: Token, t: Token)
    requires ShortTokens(ts) && LopsidedBy(ts, s, t) && LongAcronyms(ts, s, t)
    ensures !TiersDecide(ts)
  {
    hide TokenTotal, TierOf, Contribution, Summed, Count, Acronym, Aside;
    ShapeFits(ts, s, t);
    var low, high := Acronym(s), Aside(s, t);
    AcronymTotal(s);
    SpelledBoth(s, t);
    AsideTiers(s, t);
    AsideTotals(s, t);
    SummedTwo(ts, s, t, low);
    SummedTwo(ts, s, t, high);
    HigherTier(ts, s, t, low);
    HigherTier(ts, s, t, high);
    forall k | 0 <= k < |ts| ensures Contribution(ts[k], low) > 0 && Contribution(ts[k], high) > 0 {
      assert ts[k] == s || ts[k] == t;
    }
    AcronymTotals(Count(ts, s), Count(ts, t), |s|, |t|);
  }

  lemma {:induction false} AcronymTotals(p: nat, q: nat, m: nat, n: nat)
    ensures p * (5656 + 408 * m) + q * (4856 + 408 * n)
         == 5656 * p + 4856 * q + 408 * (p * m) + 408 * (q * n)
  {
  }

  // ---- Which queries tiers decide ----

  /** Two tokens with slack between them, as word prefixes and as acronyms. */
  predicate SlackBy(ts: seq<Token>, s: Token, t: Token) {
    LopsidedBy(ts, s, t) && Slack(ts, s, t) && SmallAcronyms(ts, s, t)
  }

  predicate SlackTokens(ts: seq<Token>) {
    exists k, l :: 0 <= k < |ts| && 0 <= l < |ts| && SlackBy(ts, ts[k], ts[l])
  }

  /** Two tokens with slack, neither too short nor long enough for acronyms. */
  predicate Close(ts: seq<Token>, s: Token, t: Token) {
    LopsidedBy(ts, s, t) && Slack(ts, s, t) && !SmallAcronyms(ts, s, t) && !LongAcronyms(ts, s, t)
  }

  predicate CloseTokens(ts: seq<Token>) {
    exists k, l :: 0 <= k < |ts| && 0 <= l < |ts| && Close(ts, ts[k], ts[l])
  }

  lemma {:induction false} TokensDecideIff(ts: seq<Token>)
    requires ShortTokens(ts) && !CloseTokens(ts)
    ensures TiersDecide(ts) <==> AllEqual(ts) || SlackTokens(ts)
  {
    hide TiersDecide, LopsidedBy, Slack, SmallAcronyms, LongAcronyms;
    if AllEqual(ts) {
      EqualTokensDecide(ts);
    } else if SlackTokens(ts) {
      var k, l :| 0 <= k < |ts| && 0 <= l < |ts| && SlackBy(ts, ts[k], ts[l]);
      LopsidedDecides(ts, ts[k], ts[l]);
    } else if Lopsided(ts) {
      var k, l :| 0 <= k < |ts| && 0 <= l < |ts| && LopsidedBy(ts, ts[k], ts[l]);
      assert !Close(ts, ts[k], ts[l]) && !SlackBy(ts, ts[k], ts[l]);
      if Slack(ts, ts[k], ts[l]) {
        AcronymsCross(ts, ts[k], ts[l]);
      } else {
        LopsidedCrosses(ts, ts[k], ts[l]);
      }
    } else {
      UnequalTokensCross(ts);
    }
  }

  /** Criterion 8 of src/emoji/CONTEXT.md, for tokens of at most 22 bytes: tiers
      decide exactly if all tokens are equal, or there are two, the rarer beginning
      with the commoner, with slack between them.  A few pairs of long tokens,
      where the best acronym names would settle it, are set apart. */
  lemma {:induction false} QueryTiersDecideIff(query: seq<byte>)
    requires Tokens(query) != [] && forall k :: 0 <= k < |Tokens(query)| ==> |Tokens(query)[k]| <= 22
    requires !CloseTokens(Tokens(query))
    ensures TiersDecideQuery(query) <==> AllEqual(Tokens(query)) || SlackTokens(Tokens(query))
  {
    hide Tokens, TiersDecide, TiersDecideQuery, AllEqual, SlackTokens, CloseTokens;
    TokensAreAlnum(query);
    QueryIsItsTokens(query);
    TokensDecideIff(Tokens(query));
  }

  lemma {:induction false} FewAcronyms(ts: seq<Token>, s: Token, t: Token)
    requires LopsidedBy(ts, s, t) && 0 < |t| < |s| <= 6 && Slack(ts, s, t)
    ensures SmallAcronyms(ts, s, t)
  {
    hide Count;
    var p, q := Count(ts, s), Count(ts, t);
    Scale(p, |s|, 6);
    Scale(q, |t|, 5);
  }

  lemma {:induction false} SmallAreNotClose(ts: seq<Token>)
    requires ShortTokens(ts) && forall k :: 0 <= k < |ts| ==> |ts[k]| <= 6
    ensures !CloseTokens(ts)
  {
    hide LopsidedBy, Slack, SmallAcronyms;
    forall k, l | 0 <= k < |ts| && 0 <= l < |ts| && LopsidedBy(ts, ts[k], ts[l]) ensures !Close(ts, ts[k], ts[l]) {
      ShapeFits(ts, ts[k], ts[l]);
      if Slack(ts, ts[k], ts[l]) {
        FewAcronyms(ts, ts[k], ts[l]);
      }
    }
  }

  /** No pair of tokens of at most six bytes is among them. */
  lemma {:induction false} SmallQueryTiersDecideIff(query: seq<byte>)
    requires Tokens(query) != [] && forall k :: 0 <= k < |Tokens(query)| ==> |Tokens(query)[k]| <= 6
    ensures TiersDecideQuery(query) <==> AllEqual(Tokens(query)) || SlackTokens(Tokens(query))
  {
    hide Tokens, TiersDecideQuery, AllEqual, SlackTokens, CloseTokens;
    TokensAreAlnum(query);
    SmallAreNotClose(Tokens(query));
    QueryTiersDecideIff(query);
  }

  // ---- Slack at work ----

  const AB: Token := [A, B]
  const LOPSIDED: seq<Token> := [AB, AB, AB, [A], [A], [A], [A]]

  /** Equal tokens are not the only ones: no two entries cross for the query
      "ab ab ab a a a a". */
  lemma {:induction false} LopsidedMayDecide()
    ensures ShortTokens(LOPSIDED) && !AllEqual(LOPSIDED) && SlackTokens(LOPSIDED) && TiersDecide(LOPSIDED)
  {
    hide TiersDecide, Count;
    assert LOPSIDED[0] == AB && LOPSIDED[3] == [A] && AB[0] == A && |AB| == 2;
    LopsidedCounts();
    assert SlackBy(LOPSIDED, LOPSIDED[0], LOPSIDED[3]);
    LopsidedDecides(LOPSIDED, AB, [A]);
  }

  lemma {:induction false} CountStep(ts: seq<Token>, t: Token, s: Token)
    ensures Count(ts + [t], s) == Count(ts, s) + if t == s then 1 else 0
  {
    assert (ts + [t])[..|ts|] == ts;
  }

  lemma {:induction false} CountJoin(a: seq<Token>, b: seq<Token>, s: Token)
    ensures Count(a + b, s) == Count(a, s) + Count(b, s)
    decreases |b|
  {
    if b == [] {
      assert a + b == a;
    } else {
      var n := |b| - 1;
      CountJoin(a, b[..n], s);
      CountStep(a + b[..n], b[n], s);
      assert a + b == (a + b[..n]) + [b[n]];
    }
  }

  lemma {:induction false} CountAll(ts: seq<Token>, t: Token, s: Token)
    requires forall k :: 0 <= k < |ts| ==> ts[k] == t
    ensures Count(ts, s) == if s == t then |ts| else 0
    decreases |ts|
  {
    if ts != [] {
      CountAll(ts[..|ts| - 1], t, s);
    }
  }

  lemma {:induction false} LopsidedCounts()
    ensures Count(LOPSIDED, AB) == 3 && Count(LOPSIDED, [A]) == 4
  {
    hide Count;
    assert LOPSIDED == [AB, AB, AB] + [[A], [A], [A], [A]];
    assert AB[0] == A && AB != [A];
    CountJoin([AB, AB, AB], [[A], [A], [A], [A]], AB);
    CountJoin([AB, AB, AB], [[A], [A], [A], [A]], [A]);
    CountAll([AB, AB, AB], AB, AB);
    CountAll([AB, AB, AB], AB, [A]);
    CountAll([[A], [A], [A], [A]], [A], AB);
    CountAll([[A], [A], [A], [A]], [A], [A]);
  }
}
