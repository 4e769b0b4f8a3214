/** The application launcher's ranking (src/apps/apps.c). */
module Apps {
  import opened CStrings
  import opened Scores
  import opened Match
  import opened MatchAlignment
  import opened Words

  const MAX_APPS: nat := 512
  const TOKEN_BUFFER: nat := 512
  const PREFIX_SCORE := 2000
  const NAME_BASE := 300000
  const NAME_TOKEN_BASE := 320000
  const GENERIC_BASE := 200000
  const KEYWORD_BASE := 100000

  datatype App = App(name: seq<byte>, genericName: seq<byte>, keywords: seq<byte>)

  /** What fits the character arrays of AppEntry. */
  predicate Fits(app: App) {
    |app.name| < 256 && |app.genericName| < 256 && |app.keywords| < 512
  }

  /** is_token_separator, in the C locale. */
  predicate IsSeparator(b: byte) {
    || 9 <= b <= 13 || b == ' ' as int
    || b == ';' as int || b == ',' as int || b == '/' as int || b == '-' as int || b == '_' as int
    || b == '.' as int || b == '(' as int || b == ')' as int || b == ':' as int
  }

  predicate InToken(b: byte) {
    !IsSeparator(b)
  }

  predicate NoSeparator(s: seq<byte>) {
    forall k :: 0 <= k < |s| ==> !IsSeparator(s[k])
  }

  predicate IsPrefix(query: seq<byte>, text: seq<byte>) {
    |query| <= |text| && forall k :: 0 <= k < |query| ==> ToLower(query[k]) == ToLower(text[k])
  }

  // ---- What the scores are ----

  /** score_token_match */
  ghost function TokenScore(query: seq<byte>, token: seq<byte>, base: int): Score {
    if query == [] || token == [] || |token| >= TOKEN_BUFFER || !Embeddable(Accepts, query, token) then MinusInf
    else if IsPrefix(query, token) then Fin(base + PREFIX_SCORE)
    else MatchScore(query, token).Plus(base)
  }

  /** The best score of a token starting at `p` or later. */
  ghost function FieldFrom(query: seq<byte>, field: seq<byte>, base: int, p: nat): Score
    requires p <= |field|
    decreases |field| - p
  {
    if p == |field| then MinusInf
    else if IsSeparator(field[p]) then FieldFrom(query, field, base, p + 1)
    else
      var e := RunEnd(InToken, field, p);
      Max(TokenScore(query, field[p..e], base), FieldFrom(query, field, base, e))
  }

  /** score_tokenized_field */
  ghost function FieldScore(query: seq<byte>, field: seq<byte>, base: int): Score {
    FieldFrom(query, field, base, 0)
  }

  /** score_name_match */
  ghost function NameScore(query: seq<byte>, name: seq<byte>): Score {
    if query == [] || name == [] then MinusInf
    else
      Max(if Embeddable(Accepts, query, name) then MatchScore(query, name).Plus(NAME_BASE) else MinusInf,
          FieldScore(query, name, NAME_TOKEN_BASE))
  }

  /** score_app_entry */
  ghost function AppScore(query: seq<byte>, app: App): Score {
    Max(Max(NameScore(query, app.name), FieldScore(query, app.genericName, GENERIC_BASE)),
        FieldScore(query, app.keywords, KEYWORD_BASE))
  }

  // ---- The program ----

  /** ascii_prefix_len_ci */
  method PrefixLength(query: seq<byte>, text: seq<byte>) returns (n: nat)
    ensures n <= |query| && n <= |text|
    ensures n == |query| <==> IsPrefix(query, text)
    ensures forall k :: 0 <= k < n ==> ToLower(query[k]) == ToLower(text[k])
    ensures n < |query| && n < |text| ==> ToLower(query[n]) != ToLower(text[n])
  {
    n := 0;
    while n < |query| && n < |text|
      invariant n <= |query| && n <= |text|
      invariant forall k :: 0 <= k < n ==> ToLower(query[k]) == ToLower(text[k])
    {
      if ToLower(query[n]) != ToLower(text[n]) {
        break;
      }
      n := n + 1;
    }
  }

  method ScoreToken(query: seq<byte>, token: seq<byte>, base: int) returns (score: Score)
    ensures score == TokenScore(query, token, base)
  {
    if query == [] || |token| == 0 || |token| >= TOKEN_BUFFER {
      return MinusInf;
    }
    var found := HasMatch(query, token);
    if !found {
      return MinusInf;
    }
    var n := PrefixLength(query, token);
    if n == |query| {
      return Fin(base + PREFIX_SCORE);
    }
    score := MatchRolling(query, token);
    score := score.Plus(base);
  }

  method ScoreField(query: seq<byte>, field: seq<byte>, base: int) returns (best: Score)
    ensures best == FieldScore(query, field, base)
  {
    hide TokenScore;
    best := MinusInf;
    if query == [] || field == [] {
      EmptyQueryScoresNothing(query, field, base, 0);
      return;
    }
    var p := 0;
    while p < |field|
      invariant p <= |field|
      invariant Max(best, FieldFrom(query, field, base, p)) == FieldScore(query, field, base)
    {
      var was := p;
      while p < |field| && IsSeparator(field[p])
        invariant was <= p <= |field|
        invariant FieldFrom(query, field, base, p) == FieldFrom(query, field, base, was)
      {
        p := p + 1;
      }
      var start := p;
      while p < |field| && !IsSeparator(field[p])
        invariant start <= p <= |field| && RunEnd(InToken, field, start) == RunEnd(InToken, field, p)
        invariant start < p || start == |field| || !IsSeparator(field[start])
      {
        p := p + 1;
      }
      var score := ScoreToken(query, field[start..p], base);
      if start == |field| {
        EmptyToken(query, base);
        assert field[start..p] == [];
      }
      if best.Lt(score) {
        best := score;
      }
    }
  }

  lemma {:induction false} EmptyToken(query: seq<byte>, base: int)
    ensures TokenScore(query, [], base) == MinusInf
  {
  }

  lemma {:induction false} EmptyQueryScoresNothing(query: seq<byte>, field: seq<byte>, base: int, p: nat)
    requires (query == [] || field == []) && p <= |field|
    ensures FieldFrom(query, field, base, p) == MinusInf
    decreases |field| - p
  {
    if p < |field| {
      EmptyQueryScoresNothing(query, field, base, if IsSeparator(field[p]) then p + 1 else RunEnd(InToken, field, p));
    }
  }

  method ScoreName(query: seq<byte>, name: seq<byte>) returns (best: Score)
    ensures best == NameScore(query, name)
  {
    hide FieldFrom, MatchScore;
    best := MinusInf;
    if query == [] || name == [] {
      return;
    }
    var found := HasMatch(query, name);
    if found {
      best := MatchRolling(query, name);
      best := best.Plus(NAME_BASE);
    }
    var tokens := ScoreField(query, name, NAME_TOKEN_BASE);
    if best.Lt(tokens) {
      best := tokens;
    }
  }

  method ScoreApp(query: seq<byte>, app: App) returns (best: Score)
    ensures best == AppScore(query, app)
  {
    hide NameScore, FieldFrom;
    best := MinusInf;
    if query == [] {
      EmptyQueryScoresNothing(query, app.genericName, GENERIC_BASE, 0);
      EmptyQueryScoresNothing(query, app.keywords, KEYWORD_BASE, 0);
      EmptyQueryName(app.name);
      return;
    }
    var name := ScoreName(query, app.name);
    if best.Lt(name) {
      best := name;
    }
    var generic := ScoreField(query, app.genericName, GENERIC_BASE);
    if best.Lt(generic) {
      best := generic;
    }
    var keywords := ScoreField(query, app.keywords, KEYWORD_BASE);
    if best.Lt(keywords) {
      best := keywords;
    }
  }

  lemma {:induction false} EmptyQueryName(name: seq<byte>)
    ensures NameScore([], name) == MinusInf
  {
  }

  // ---- A field's score is the best of its tokens ----

  lemma {:induction false} FieldFromBounds(query: seq<byte>, field: seq<byte>, base: int, p: nat, a: nat, b: nat)
    requires AtEdge(InToken, field, p) && p <= a && IsRun(InToken, field, a, b)
    ensures TokenScore(query, field[a..b], base).AtMost(FieldFrom(query, field, base, p))
    decreases |field| - p
  {
    hide TokenScore;
    if IsSeparator(field[p]) {
      FieldFromBounds(query, field, base, p + 1, a, b);
    } else {
      var e := RunEnd(InToken, field, p);
      if p == a {
        RunEndsAt(InToken, field, p, b);
      } else {
        RunEndBefore(InToken, field, p, a - 1);
        FieldFromBounds(query, field, base, e, a, b);
      }
    }
  }

  lemma {:induction false} FieldFromAttained(query: seq<byte>, field: seq<byte>, base: int,
                                             p: nat) returns (a: nat, b: nat)
    requires AtEdge(InToken, field, p) && FieldFrom(query, field, base, p) != MinusInf
    ensures IsRun(InToken, field, a, b) && TokenScore(query, field[a..b], base) == FieldFrom(query, field, base, p)
    decreases |field| - p
  {
    hide TokenScore;
    if IsSeparator(field[p]) {
      a, b := FieldFromAttained(query, field, base, p + 1);
    } else {
      var e := RunEnd(InToken, field, p);
      if FieldFrom(query, field, base, p) == TokenScore(query, field[p..e], base)
         && (p == 0 || IsSeparator(field[p - 1])) {
        a, b := p, e;
      } else {
        a, b := FieldFromAttained(query, field, base, e);
      }
    }
  }

  /** Some token of the field contains the query. */
  ghost predicate MatchesToken(query: seq<byte>, field: seq<byte>) {
    exists a: nat, b: nat :: IsRun(InToken, field, a, b) && Embeddable(Accepts, query, field[a..b])
  }

  /** A scored token lies within 8160 above and 5621 below its base: the range of
      `match`, and an equally long token always takes the prefix branch. */
  lemma {:induction false} TokenRange(query: seq<byte>, token: seq<byte>, base: int)
    requires query != [] && 0 < |token| < TOKEN_BUFFER
    ensures TokenScore(query, token, base) == MinusInf <==> !Embeddable(Accepts, query, token)
    ensures TokenScore(query, token, base) != MinusInf ==>
              TokenScore(query, token, base).Fin? && base - 5621 <= TokenScore(query, token, base).value <= base + 8160
  {
    hide MatchScore;
    if Embeddable(Accepts, query, token) {
      var e :| Embeds(Accepts, query, token, e);
      EmbeddingFits(Accepts, query, token, e);
      HasMatchIsScored(query, token);
      if |query| < |token| {
        MatchRange(query, token);
      } else {
        EqualLowered(query, token);
      }
    }
  }

  lemma {:induction false} EqualLowered(query: seq<byte>, text: seq<byte>)
    requires |query| == |text| && Lowered(query) == Lowered(text)
    ensures IsPrefix(query, text)
  {
    forall k | 0 <= k < |query| ensures ToLower(query[k]) == ToLower(text[k]) {
      assert Lowered(query)[k] == Lowered(text)[k];
    }
  }

  lemma {:induction false} FieldRange(query: seq<byte>, field: seq<byte>, base: int)
    requires query != [] && |field| < TOKEN_BUFFER
    ensures var s := FieldScore(query, field, base);
            && (s == MinusInf <==> !MatchesToken(query, field))
            && (s != MinusInf ==> s.Fin? && base - 5621 <= s.value <= base + 8160)
  {
    hide TokenScore, FieldFrom, Embeddable;
    var s := FieldScore(query, field, base);
    if s != MinusInf {
      var a, b := FieldFromAttained(query, field, base, 0);
      TokenRange(query, field[a..b], base);
    }
    if MatchesToken(query, field) {
      var a: nat, b: nat :| IsRun(InToken, field, a, b) && Embeddable(Accepts, query, field[a..b]);
      FieldFromBounds(query, field, base, 0, a, b);
      TokenRange(query, field[a..b], base);
    }
  }

  /** A query inside one token is inside the whole string. */
  lemma {:induction false} TokenInField(query: seq<byte>, field: seq<byte>)
    requires MatchesToken(query, field)
    ensures Embeddable(Accepts, query, field)
  {
    var a: nat, b: nat :| IsRun(InToken, field, a, b) && Embeddable(Accepts, query, field[a..b]);
    var e :| Embeds(Accepts, query, field[a..b], e);
    var f := Shifted(e, a);
    forall k | 0 <= k < |f| ensures f[k] < |field| && Accepts(query[k], field[f[k]]) {
      assert Accepts(query[k], field[a..b][e[k]]);
    }
    assert Embeds(Accepts, query, field, f);
  }

  lemma {:induction false} NameRange(query: seq<byte>, name: seq<byte>)
    requires query != [] && |name| < 256
    ensures var s := NameScore(query, name);
            && (s == MinusInf <==> !Embeddable(Accepts, query, name))
            && (s != MinusInf ==> Fin(297195).AtMost(s))
  {
    hide TokenScore, FieldFrom, MatchScore;
    FieldRange(query, name, NAME_TOKEN_BASE);
    if Embeddable(Accepts, query, name) {
      var e :| Embeds(Accepts, query, name, e);
      EmbeddingFits(Accepts, query, name, e);
      HasMatchIsScored(query, name);
      if |query| < |name| {
        MatchRange(query, name);
      } else {
        EqualLengthScore(query, name);
      }
    } else if MatchesToken(query, name) {
      TokenInField(query, name);
    }
  }

  lemma {:induction false} EqualLengthScore(query: seq<byte>, text: seq<byte>)
    requires 0 < |query| == |text| <= MATCH_MAX_LEN
    ensures MatchScore(query, text) == PlusInf
  {
  }

  // ---- Fields never cross ----

  /** The best field the query is found in: 3 name, 2 generic name, 1 keywords. */
  ghost function FieldRank(query: seq<byte>, app: App): nat {
    if Embeddable(Accepts, query, app.name) then 3
    else if MatchesToken(query, app.genericName) then 2
    else if MatchesToken(query, app.keywords) then 1
    else 0
  }

  /** The score bands of the three fields. */
  lemma {:induction false} ScoreBand(query: seq<byte>, app: App)
    requires query != [] && Fits(app)
    ensures var s := AppScore(query, app);
            match FieldRank(query, app)
            case 3 => Fin(297195).AtMost(s)
            case 2 => Fin(194379).AtMost(s) && s.AtMost(Fin(208160))
            case 1 => Fin(94379).AtMost(s) && s.AtMost(Fin(108160))
            case _ => s == MinusInf
  {
    hide NameScore, FieldFrom, Embeddable, MatchesToken;
    NameRange(query, app.name);
    FieldRange(query, app.genericName, GENERIC_BASE);
    FieldRange(query, app.keywords, KEYWORD_BASE);
  }

  /** Criterion 10 of src/apps/CONTEXT.md, for every query: an app found in a
      better field scores strictly higher, and only unmatched apps score nothing. */
  lemma {:induction false} BetterFieldWins(query: seq<byte>, x: App, y: App)
    requires query != [] && Fits(x) && Fits(y) && FieldRank(query, x) > FieldRank(query, y)
    ensures AppScore(query, y).Lt(AppScore(query, x))
  {
    hide AppScore, FieldRank;
    ScoreBand(query, x);
    ScoreBand(query, y);
    RankCases(query, x);
    RankCases(query, y);
  }

  lemma {:induction false} RankCases(query: seq<byte>, app: App)
    ensures FieldRank(query, app) <= 3
  {
  }

  // ---- Prefix matches against fuzzy matches of the same field ----

  lemma {:induction false} PathTight(p: Problem, e: seq<nat>)
    requires p.Valid() && Places(p.needle, p.hay, e)
    requires p.bonus[0] <= 9 && forall j :: 0 < j < |p.bonus| ==> 0 <= p.bonus[j] <= 7
    ensures PathScore(p, e) <= 16 * (|e| - 1) + if forall k :: 0 <= k < |e| ==> e[k] == k then 9 else -2
    decreases |e|
  {
    if |e| > 1 {
      var f := e[..|e| - 1];
      PlacesPrefix(p.needle, p.hay, e);
      PathTight(p, f);
      var a, b := e[|e| - 2], e[|e| - 1];
      assert a < b && f[|e| - 2] == a;
      if (forall k :: 0 <= k < |f| ==> f[k] == k) && b == a + 1 {
        forall k | 0 <= k < |e| ensures e[k] == k {
          if k < |f| { assert f[k] == k; }
        }
      }
    }
  }

  lemma {:induction false} TokenBonus(token: seq<byte>, j: nat)
    requires NoSeparator(token) && j < |token|
    ensures 0 <= BonusAt(token, j) <= if j == 0 then 9 else 7
  {
    if j > 0 {
      assert !IsSeparator(token[j - 1]);
    }
  }

  /** A token that does not start with the query scores at most 16(n-1) - 2. */
  lemma {:induction false} FuzzyTokenBound(query: seq<byte>, token: seq<byte>)
    requires 0 < |query| < |token| <= MATCH_MAX_LEN && NoSeparator(token) && !IsPrefix(query, token)
    requires MatchScore(query, token) != MinusInf
    ensures MatchScore(query, token).Fin? && MatchScore(query, token).value <= 16 * (|query| - 1) - 2
  {
    hide PathScore, EndAt, Best;
    var p := Prepare(query, token);
    MatchIsOptimal(query, token);
    var e :| Places(p.needle, p.hay, e) && |e| == |p.needle| && AlignmentScore(p, e) == MatchScore(query, token).value;
    forall j | 0 <= j < |token| ensures 0 <= p.bonus[j] <= if j == 0 then 9 else 7 {
      TokenBonus(token, j);
    }
    PathTight(p, e);
    StraightIsPrefix(query, token, e);
  }

  lemma {:induction false} StraightIsPrefix(query: seq<byte>, token: seq<byte>, e: seq<nat>)
    requires |query| < |token| && |e| == |query| && Places(Lowered(query), Lowered(token), e)
    ensures (forall k :: 0 <= k < |e| ==> e[k] == k) ==> IsPrefix(query, token)
  {
    if forall k :: 0 <= k < |e| ==> e[k] == k {
      forall k | 0 <= k < |query| ensures ToLower(query[k]) == ToLower(token[k]) {
        assert Same(Lowered(query)[..|e|][k], Lowered(token)[e[k]]);
      }
    }
  }

  function From1(n: nat): (e: seq<nat>)
    ensures |e| == n && forall k :: 0 <= k < n ==> e[k] == k + 1
  {
    seq(n, k requires 0 <= k < n => k + 1)
  }

  lemma {:induction false} ShiftedPath(p: Problem, n: nat)
    requires p.Valid() && 0 < n <= |p.needle| && Places(p.needle, p.hay, From1(n))
        && forall j :: 0 <= j < |p.bonus| ==> p.bonus[j] >= 0
    ensures PathScore(p, From1(n)) >= -9 + 16 * (n - 1)
  {
    if n > 1 {
      assert From1(n)[..n - 1] == From1(n - 1);
      PlacesPrefix(p.needle, p.hay, From1(n));
      ShiftedPath(p, n - 1);
    }
  }

  /** A byte the query does not start with, and no separator. */
  function Other(b: byte): (x: byte)
    ensures ToLower(x) != ToLower(b) && !IsSeparator(x)
  {
    if ToLower(b) == 'a' as int then 'b' as int else 'a' as int
  }

  lemma {:induction false} LaterEmbedding(query: seq<byte>, x: byte)
    ensures Embeds(Accepts, query, [x] + query, From1(|query|))
  {
  }

  lemma {:induction false} LaterPlacement(query: seq<byte>, x: byte)
    requires query != []
    ensures Places(Lowered(query), Lowered([x] + query), From1(|query|))
  {
    LaterEmbedding(query, x);
    AcceptedIsSame(query, [x] + query, From1(|query|));
    assert Lowered(query)[..|query|] == Lowered(query);
  }

  /** One byte later, a query still scores at least 16(n-1) - 9. */
  lemma {:induction false} LaterScore(query: seq<byte>, x: byte)
    requires 0 < |query| < MATCH_MAX_LEN
    ensures MatchScore(query, [x] + query).Fin?
    ensures MatchScore(query, [x] + query).value >= 16 * (|query| - 1) - 9
  {
    hide PathScore, EndAt, Best, Embeds, Places;
    var token, e := [x] + query, From1(|query|);
    var p := Prepare(query, token);
    LaterPlacement(query, x);
    MatchIsOptimal(query, token);
    ShiftedPath(p, |query|);
    assert e[|e| - 1] == |p.hay| - 1;
    assert AlignmentScore(p, e) == PathScore(p, e);
  }

  /** From 127 bytes on, a query outscores its own prefix match one byte later. */
  lemma {:induction false} LongFuzzyWins(query: seq<byte>, base: int)
    requires 127 <= |query| < TOKEN_BUFFER - 1 && NoSeparator(query)
    ensures var token := [Other(query[0])] + query;
            && NoSeparator(token) && !IsPrefix(query, token) && TokenScore(query, token, base) != MinusInf
            && Fin(base + PREFIX_SCORE).Lt(TokenScore(query, token, base))
  {
    hide MatchScore, Embeds, IsSeparator;
    var token := [Other(query[0])] + query;
    assert token[1..] == query;
    assert !IsPrefix(query, token) by {
      assert ToLower(query[0]) != ToLower(token[0]);
    }
    LaterEmbedding(query, token[0]);
    LaterScore(query, token[0]);
  }

  lemma {:induction false} ShortPrefixOutranks(query: seq<byte>, base: int, token: seq<byte>)
    requires query != [] && NoSeparator(token) && !IsPrefix(query, token)
    requires |query| <= 126 || |query| >= TOKEN_BUFFER - 1 || !NoSeparator(query)
    ensures TokenScore(query, token, base).Lt(Fin(base + PREFIX_SCORE))
  {
    hide MatchScore;
    if TokenScore(query, token, base) != MinusInf {
      TokenRange(query, token, base);
      var e :| Embeds(Accepts, query, token, e);
      EmbeddingFits(Accepts, query, token, e);
      HasMatchIsScored(query, token);
      if |query| == |token| {
        EqualLowered(query, token);
      }
      forall k | 0 <= k < |query| ensures !IsSeparator(query[k]) {
        assert Accepts(query[k], token[e[k]]);
      }
      FuzzyTokenBound(query, token);
    }
  }

  // ---- The filtered list ----

  datatype Scored = Scored(app: App, score: Score)

  /** The matching apps with their scores, in source order. */
  ghost function Kept(query: seq<byte>, src: seq<App>): (r: seq<Scored>)
    ensures |r| <= |src|
  {
    if src == [] then []
    else
      var n := |src| - 1;
      var s := AppScore(query, src[n]);
      Kept(query, src[..n]) + if s == MinusInf then [] else [Scored(src[n], s)]
  }

  ghost function Taken(query: seq<byte>, src: seq<App>): (r: seq<Scored>) {
    var all := Kept(query, src);
    if |all| <= MAX_APPS then all else all[..MAX_APPS]
  }

  /** The collecting loop of apps_filter_entries, for a non-empty query. */
  method Collect(query: seq<byte>, src: seq<App>) returns (scored: seq<Scored>)
    ensures scored == Taken(query, src)
  {
    hide AppScore;
    scored := [];
    assert src[..0] == [];
    for i := 0 to |src|
      invariant scored == Taken(query, src[..i])
    {
      assert src[..i + 1][..i] == src[..i];
      var score := ScoreApp(query, src[i]);
      if MinusInf.Lt(score) && |scored| < MAX_APPS {
        scored := scored + [Scored(src[i], score)];
      }
    }
    assert src[..|src|] == src;
  }

  /** A strict comparison of names: g_utf8_collate below zero. */
  type Collation = (seq<byte>, seq<byte>) -> bool

  /** scored_app_entry_cmp never puts `b` strictly before `a`. */
  predicate InOrder(collate: Collation, a: Scored, b: Scored) {
    b.score.Lt(a.score) || (a.score == b.score && !collate(b.app.name, a.app.name))
  }

  /** Any list the (unstable) sort may leave. */
  ghost predicate IsFilterOutcome(collate: Collation, query: seq<byte>, src: seq<App>, out: seq<Scored>) {
    && multiset(out) == multiset(Taken(query, src))
    && forall a, b :: 0 <= a < b < |out| ==> InOrder(collate, out[a], out[b])
  }

  lemma {:induction false} KeptMembers(query: seq<byte>, src: seq<App>)
    ensures forall s :: s in Kept(query, src) ==>
              s.app in src && s.score == AppScore(query, s.app) && s.score != MinusInf
  {
    hide AppScore;
    if src != [] {
      KeptMembers(query, src[..|src| - 1]);
    }
  }

  lemma {:induction false} KeptMisses(query: seq<byte>, src: seq<App>, app: App)
    requires app in src && AppScore(query, app) != MinusInf
    ensures Scored(app, AppScore(query, app)) in Kept(query, src)
  {
    hide AppScore;
    var n := |src| - 1;
    if src[n] != app {
      assert src == src[..n] + [src[n]];
      KeptMisses(query, src[..n], app);
    }
  }

  lemma {:induction false} OutcomeMembers(collate: Collation, query: seq<byte>, src: seq<App>, out: seq<Scored>,
                                          s: Scored)
    requires IsFilterOutcome(collate, query, src, out) && s in out
    ensures s in Kept(query, src)
  {
    assert s in multiset(out);
    assert s in Taken(query, src);
  }

  /** The visible list runs through the fields in order, name matches first, and
      within it scores never rise. */
  lemma {:induction false} ListRunsThroughFields(collate: Collation, query: seq<byte>, src: seq<App>, out: seq<Scored>)
    requires query != [] && IsFilterOutcome(collate, query, src, out) && forall app :: app in src ==> Fits(app)
    ensures forall a, b :: 0 <= a < b < |out| ==>
              FieldRank(query, out[a].app) >= FieldRank(query, out[b].app) > 0 && !out[a].score.Lt(out[b].score)
  {
    hide AppScore, FieldRank, Kept;
    KeptMembers(query, src);
    forall a, b | 0 <= a < b < |out|
      ensures FieldRank(query, out[a].app) >= FieldRank(query, out[b].app) > 0 && !out[a].score.Lt(out[b].score)
    {
      OutcomeMembers(collate, query, src, out, out[a]);
      OutcomeMembers(collate, query, src, out, out[b]);
      assert InOrder(collate, out[a], out[b]);
      if FieldRank(query, out[b].app) > FieldRank(query, out[a].app) {
        BetterFieldWins(query, out[b].app, out[a].app);
      }
      ScoreBand(query, out[b].app);
      RankCases(query, out[b].app);
    }
  }

  /** With at most 512 candidates, exactly the apps found in some field are listed. */
  lemma {:induction false} ListedIffFound(collate: Collation, query: seq<byte>, src: seq<App>, out: seq<Scored>,
                                          app: App)
    requires query != [] && IsFilterOutcome(collate, query, src, out) && |src| <= 512
    requires app in src && Fits(app)
    ensures FieldRank(query, app) > 0 <==> Scored(app, AppScore(query, app)) in out
  {
    hide AppScore, FieldRank, Kept;
    ScoreBand(query, app);
    RankCases(query, app);
    var s := Scored(app, AppScore(query, app));
    assert s in multiset(out) <==> s in Kept(query, src);
    if FieldRank(query, app) > 0 {
      KeptMisses(query, src, app);
    } else {
      KeptMembers(query, src);
    }
  }
}
