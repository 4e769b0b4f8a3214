/** Prefix matches against fuzzy ones in each field of an app, with the sizes the
    fields have (src/apps/apps.c, src/apps/apps.h). */
module AppFields {
  import opened Apps
  import opened CStrings
  import opened Match
  import opened MatchAlignment
  import opened Scores
  import opened Words

  const NAME_CAP: nat := 255
  const KEYWORD_CAP: nat := 511

  /** A token of the field that the query is found in and starts. */
  ghost predicate StartsToken(query: seq<byte>, field: seq<byte>) {
    exists a: nat, b: nat :: StartsRun(query, field, a, b)
  }

  ghost predicate StartsRun(query: seq<byte>, field: seq<byte>, a: nat, b: nat) {
    IsRun(InToken, field, a, b) && Embeddable(Accepts, query, field[a..b]) && IsPrefix(query, field[a..b])
  }

  ghost predicate FieldPrefixOutranks(query: seq<byte>, base: int, cap: nat) {
    forall x, y :: |x| <= cap && |y| <= cap && StartsToken(query, x) && !StartsToken(query, y) ==>
      FieldScore(query, y, base).Lt(FieldScore(query, x, base))
  }

  ghost predicate NamePrefixOutranks(query: seq<byte>) {
    forall x, y :: |x| <= NAME_CAP && |y| <= NAME_CAP && StartsToken(query, x) && !StartsToken(query, y) ==>
      NameScore(query, y).Lt(NameScore(query, x))
  }

  predicate PrefixWins(query: seq<byte>, cap: nat) {
    |query| <= 126 || |query| >= cap || !NoSeparator(query)
  }

  lemma {:induction false} RunHasNoSeparator(field: seq<byte>, a: nat, b: nat)
    requires IsRun(InToken, field, a, b)
    ensures NoSeparator(field[a..b])
  {
  }

  lemma {:induction false} StartScores(query: seq<byte>, field: seq<byte>, base: int)
    requires query != [] && |field| < TOKEN_BUFFER && StartsToken(query, field)
    ensures Fin(base + PREFIX_SCORE).AtMost(FieldScore(query, field, base))
  {
    hide Embeddable, IsPrefix, FieldFrom, MatchScore;
    var a: nat, b: nat :| StartsRun(query, field, a, b);
    FieldFromBounds(query, field, base, 0, a, b);
  }

  /** No room for a longer token, or too short a query for the gap to be made up. */
  lemma {:induction false} FuzzyTokenBelow(query: seq<byte>, token: seq<byte>, base: int, cap: nat)
    requires query != [] && cap < TOKEN_BUFFER && PrefixWins(query, cap) && |token| <= cap && NoSeparator(token)
    requires !(Embeddable(Accepts, query, token) && IsPrefix(query, token))
    ensures TokenScore(query, token, base).Lt(Fin(base + PREFIX_SCORE))
  {
    hide MatchScore, NoSeparator, IsPrefix, Embeddable, TokenScore;
    if !Embeddable(Accepts, query, token) {
      NotFound(query, token, base);
    } else {
      if |query| >= cap {
        FoundInRoom(query, token);
      }
      ShortPrefixOutranks(query, base, token);
    }
  }

  lemma {:induction false} NotFound(query: seq<byte>, token: seq<byte>, base: int)
    requires !Embeddable(Accepts, query, token)
    ensures TokenScore(query, token, base) == MinusInf
  {
    hide MatchScore;
  }

  lemma {:induction false} FoundInRoom(query: seq<byte>, token: seq<byte>)
    requires query != [] && Embeddable(Accepts, query, token) && |token| <= |query| && |token| <= MATCH_MAX_LEN
    ensures IsPrefix(query, token)
  {
    hide MatchScore, IsPrefix;
    var e :| Embeds(Accepts, query, token, e);
    EmbeddingFits(Accepts, query, token, e);
    HasMatchIsScored(query, token);
    EqualLowered(query, token);
  }

  lemma {:induction false} FuzzyFieldBelow(query: seq<byte>, field: seq<byte>, base: int, cap: nat)
    requires query != [] && cap < TOKEN_BUFFER && PrefixWins(query, cap)
    requires |field| <= cap && !StartsToken(query, field)
    ensures FieldScore(query, field, base).Lt(Fin(base + PREFIX_SCORE))
  {
    hide Embeddable, IsPrefix, FieldFrom, TokenScore, PrefixWins;
    if FieldScore(query, field, base) != MinusInf {
      var a, b := FieldFromAttained(query, field, base, 0);
      RunHasNoSeparator(field, a, b);
      assert !StartsRun(query, field, a, b);
      FuzzyTokenBelow(query, field[a..b], base, cap);
    }
  }

  /** The whole name adds less than a prefix token, unless it is the query. */
  lemma {:induction false} WholeNameBelow(query: seq<byte>, name: seq<byte>)
    requires query != [] && |query| != |name| && |name| <= NAME_CAP && Embeddable(Accepts, query, name)
    ensures MatchScore(query, name).Plus(NAME_BASE).Lt(Fin(NAME_TOKEN_BASE + PREFIX_SCORE))
  {
    hide MatchScore;
    var e :| Embeds(Accepts, query, name, e);
    EmbeddingFits(Accepts, query, name, e);
    HasMatchIsScored(query, name);
    MatchRange(query, name);
  }

  lemma {:induction false} EqualNameStarts(query: seq<byte>, name: seq<byte>)
    requires query != [] && |query| == |name| <= NAME_CAP && Embeddable(Accepts, query, name) && NoSeparator(query)
    ensures StartsToken(query, name)
  {
    HasMatchIsScored(query, name);
    EqualLowered(query, name);
    forall k | 0 <= k < |name| ensures !IsSeparator(name[k]) {
      SameSeparator(query[k], name[k]);
    }
    assert name[0..|name|] == name;
    assert StartsRun(query, name, 0, |name|);
  }

  lemma {:induction false} SameSeparator(a: byte, b: byte)
    requires ToLower(a) == ToLower(b)
    ensures IsSeparator(a) == IsSeparator(b)
  {
  }

  /** A query with separators starts no token. */
  lemma {:induction false} StartedHasNoSeparator(query: seq<byte>, field: seq<byte>)
    requires StartsToken(query, field)
    ensures NoSeparator(query)
  {
    hide Embeddable;
    var a: nat, b: nat :| StartsRun(query, field, a, b);
    forall k | 0 <= k < |query| ensures !IsSeparator(query[k]) {
      assert ToLower(query[k]) == ToLower(field[a..b][k]);
      SameSeparator(query[k], field[a + k]);
    }
  }

  // ---- The failing pair ----

  function Before(query: seq<byte>): seq<byte>
    requires query != []
  {
    [Other(query[0])] + query
  }

  function Followed(query: seq<byte>): seq<byte> {
    query + [' ' as int]
  }

  lemma {:induction false} BeforeStartsNothing(query: seq<byte>)
    requires query != [] && NoSeparator(query)
    ensures !StartsToken(query, Before(query)) && IsRun(InToken, Before(query), 0, |query| + 1)
  {
    hide Embeddable;
    var y := Before(query);
    forall k | 0 <= k < |y| ensures InToken(y[k]) {
      assert k > 0 ==> y[k] == query[k - 1];
    }
    forall a: nat, b: nat ensures !StartsRun(query, y, a, b) {
      if IsRun(InToken, y, a, b) {
        assert y[a..b][0] == Other(query[0]);
      }
    }
  }

  lemma {:induction false} FollowedStarts(query: seq<byte>)
    requires query != [] && NoSeparator(query)
    ensures StartsToken(query, Followed(query))
    ensures forall a: nat, b: nat :: IsRun(InToken, Followed(query), a, b) ==> Followed(query)[a..b] == query
  {
    var x := Followed(query);
    Itself(query);
    assert x[0..|query|] == query;
    forall k | 0 <= k < |query| ensures InToken(x[k]) {
      assert x[k] == query[k];
    }
    assert StartsRun(query, x, 0, |query|);
  }

  lemma {:induction false} Itself(query: seq<byte>)
    ensures Embeddable(Accepts, query, query) && IsPrefix(query, query)
  {
    var e := seq(|query|, k => k);
    assert Embeds(Accepts, query, query, e);
  }

  lemma {:induction false} FollowedScore(query: seq<byte>, base: int)
    requires 0 < |query| < TOKEN_BUFFER - 1 && NoSeparator(query)
    ensures FieldScore(query, Followed(query), base) == Fin(base + PREFIX_SCORE)
  {
    hide FieldFrom, IsRun, Embeddable, IsPrefix, NoSeparator, Followed;
    FollowedStarts(query);
    FollowedLength(query);
    StartScores(query, Followed(query), base);
    var a, b := FieldFromAttained(query, Followed(query), base, 0);
    Itself(query);
  }

  lemma {:induction false} FollowedLength(query: seq<byte>)
    ensures |Followed(query)| == |query| + 1
  {
  }

  lemma {:induction false} BeforeScore(query: seq<byte>, base: int)
    requires 127 <= |query| < TOKEN_BUFFER - 1 && NoSeparator(query)
    ensures Fin(base + PREFIX_SCORE).Lt(FieldScore(query, Before(query), base))
  {
    hide FieldFrom, IsRun, TokenScore, StartsToken;
    var y := Before(query);
    LongFuzzyWins(query, base);
    BeforeStartsNothing(query);
    assert y[0..|query| + 1] == y;
    FieldFromBounds(query, y, base, 0, 0, |query| + 1);
  }

  // ---- When the criterion holds ----

  /** Criterion 11 of src/apps/CONTEXT.md for a field of at most `cap` bytes: a
      prefix token outranks every fuzzy match exactly for these queries. */
  lemma {:induction false} FieldPrefixOutranksIff(query: seq<byte>, base: int, cap: nat)
    requires query != [] && 127 <= cap < TOKEN_BUFFER
    ensures FieldPrefixOutranks(query, base, cap) <==> PrefixWins(query, cap)
  {
    hide FieldFrom, FieldScore, StartsToken, NoSeparator;
    if PrefixWins(query, cap) {
      forall x, y | |x| <= cap && |y| <= cap && StartsToken(query, x) && !StartsToken(query, y)
        ensures FieldScore(query, y, base).Lt(FieldScore(query, x, base))
      {
        StartScores(query, x, base);
        FuzzyFieldBelow(query, y, base, cap);
      }
    } else {
      FollowedStarts(query);
      FollowedScore(query, base);
      BeforeStartsNothing(query);
      BeforeScore(query, base);
      assert |Followed(query)| <= cap && |Before(query)| <= cap;
    }
  }

  /** The generic name has 255 bytes, the keywords 511. */
  lemma {:induction false} GenericAndKeywordsIff(query: seq<byte>)
    requires query != []
    ensures FieldPrefixOutranks(query, GENERIC_BASE, NAME_CAP) <==> PrefixWins(query, NAME_CAP)
    ensures FieldPrefixOutranks(query, KEYWORD_BASE, KEYWORD_CAP) <==> PrefixWins(query, KEYWORD_CAP)
  {
    hide FieldPrefixOutranks, PrefixWins;
    FieldPrefixOutranksIff(query, GENERIC_BASE, NAME_CAP);
    FieldPrefixOutranksIff(query, KEYWORD_BASE, KEYWORD_CAP);
  }

  lemma {:induction false} NameScoreIs(query: seq<byte>, name: seq<byte>)
    requires query != [] && name != []
    ensures NameScore(query, name) ==
            Max(if Embeddable(Accepts, query, name) then MatchScore(query, name).Plus(NAME_BASE) else MinusInf,
                FieldScore(query, name, NAME_TOKEN_BASE))
  {
    hide FieldFrom, MatchScore, Embeddable;
  }

  lemma {:induction false} FuzzyNameBelow(query: seq<byte>, name: seq<byte>)
    requires query != [] && PrefixWins(query, NAME_CAP) && NoSeparator(query)
    requires |name| <= NAME_CAP && !StartsToken(query, name)
    ensures NameScore(query, name).Lt(Fin(NAME_TOKEN_BASE + PREFIX_SCORE))
  {
    hide FieldFrom, FieldScore, NameScore, StartsToken, NoSeparator, MatchScore, Embeddable, PrefixWins;
    if name == [] {
      EmptyNameScore(query);
    } else {
      NameScoreIs(query, name);
      FuzzyFieldBelow(query, name, NAME_TOKEN_BASE, NAME_CAP);
      if Embeddable(Accepts, query, name) {
        if |query| == |name| {
          EqualNameStarts(query, name);
        } else {
          WholeNameBelow(query, name);
        }
      }
    }
  }

  lemma {:induction false} EmptyNameScore(query: seq<byte>)
    ensures NameScore(query, []) == MinusInf
  {
  }

  /** The same for the name, whose whole text is scored as well. */
  lemma {:induction false} NamePrefixOutranksIff(query: seq<byte>)
    requires query != []
    ensures NamePrefixOutranks(query) <==> PrefixWins(query, NAME_CAP)
  {
    hide FieldFrom, FieldScore, NameScore, StartsToken, NoSeparator, MatchScore, Embeddable;
    if PrefixWins(query, NAME_CAP) {
      forall x, y | |x| <= NAME_CAP && |y| <= NAME_CAP && StartsToken(query, x) && !StartsToken(query, y)
        ensures NameScore(query, y).Lt(NameScore(query, x))
      {
        StartedHasNoSeparator(query, x);
        StartedIsThere(query, x);
        StartScores(query, x, NAME_TOKEN_BASE);
        NameScoreIs(query, x);
        FuzzyNameBelow(query, y);
      }
    } else {
      var x, y := Followed(query), Before(query);
      FollowedStarts(query);
      FollowedScore(query, NAME_TOKEN_BASE);
      BeforeStartsNothing(query);
      BeforeScore(query, NAME_TOKEN_BASE);
      NameScoreIs(query, x);
      NameScoreIs(query, y);
      if Embeddable(Accepts, query, x) {
        WholeNameBelow(query, x);
      }
      assert NameScore(query, x) == Fin(NAME_TOKEN_BASE + PREFIX_SCORE);
      assert |x| <= NAME_CAP && |y| <= NAME_CAP;
    }
  }

  lemma {:induction false} StartedIsThere(query: seq<byte>, field: seq<byte>)
    requires StartsToken(query, field)
    ensures field != []
  {
  }
}
