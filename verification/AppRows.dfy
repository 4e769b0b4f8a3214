/** The launcher's list in plain terms (src/apps/apps.c): what a whole word or a whole
    name scores, what ends a word, and who stands first among equals. */
module AppRows {
  import opened CStrings
  import opened Scores
  import opened Match
  import opened MatchAlignment
  import opened Words
  import opened Apps

  /** Equally scored apps are listed in the order of their names. */
  lemma {:induction false} EqualsByName(collate: Collation, query: seq<byte>, src: seq<App>, out: seq<Scored>,
                                        a: nat, b: nat)
    requires IsFilterOutcome(collate, query, src, out) && a < b < |out| && out[a].score == out[b].score
    ensures !collate(out[b].app.name, out[a].app.name)
    ensures out[a].score == AppScore(query, out[a].app) != MinusInf
  {
    hide AppScore, Kept;
    KeptMembers(query, src);
    OutcomeMembers(collate, query, src, out, out[a]);
    assert InOrder(collate, out[a], out[b]);
    NotBelowItself(out[a].score);
  }

  lemma {:induction false} NotBelowItself(s: Score)
    ensures !s.Lt(s)
  {
  }

  /** At most 512 apps are listed, and all that match if there are no more of them. */
  lemma {:induction false} ListIsCapped(collate: Collation, query: seq<byte>, src: seq<App>, out: seq<Scored>)
    requires IsFilterOutcome(collate, query, src, out)
    ensures |out| == if |Kept(query, src)| <= 512 then |Kept(query, src)| else 512
  {
    hide AppScore, Kept, InOrder;
    assert |multiset(out)| == |out| && |multiset(Taken(query, src))| == |Taken(query, src)|;
  }

  // ---- What ends a word ----

  predicate LetterOrDigit(b: byte) {
    'a' as int <= b <= 'z' as int || 'A' as int <= b <= 'Z' as int || '0' as int <= b <= '9' as int
  }

  lemma {:induction false} TooShort(x: byte, y: byte, s: seq<byte>)
    requires |s| < 2
    ensures !Embeddable(Accepts, [x, y], s)
  {
    forall e ensures !Embeds(Accepts, [x, y], s, e) {
      if Embeds(Accepts, [x, y], s, e) {
        EmbeddingFits(Accepts, [x, y], s, e);
      }
    }
  }

  /** Two letters are found in a field that puts one byte between them unless that
      byte ends a word: white space or one of ; , / - _ . ( ) : */
  lemma {:induction false} SeparatorsEndWords(x: byte, y: byte, c: byte)
    requires LetterOrDigit(x) && LetterOrDigit(y)
    ensures MatchesToken([x, y], [x, c, y]) <==>
            c !in [9, 10, 11, 12, 13, ' ' as int, ';' as int, ',' as int, '/' as int, '-' as int, '_' as int,
                   '.' as int, '(' as int, ')' as int, ':' as int]
  {
    hide Embeddable;
    var field := [x, c, y];
    if IsSeparator(c) {
      forall a: nat, b: nat | IsRun(InToken, field, a, b) ensures !Embeddable(Accepts, [x, y], field[a..b]) {
        assert !InToken(field[1]) && b - a < 2;
        TooShort(x, y, field[a..b]);
      }
    } else {
      assert IsRun(InToken, field, 0, 3) && field[0..3] == field;
      Around(x, c, y);
    }
  }

  lemma {:induction false} Around(x: byte, c: byte, y: byte)
    ensures Embeddable(Accepts, [x, y], [x, c, y])
  {
    assert Embeds(Accepts, [x, y], [x, c, y], [0, 2]);
  }

  // ---- Whole words and whole names ----

  /** The text begins with the query, each byte itself or its upper-case form. */
  predicate BeginsWith(text: seq<byte>, query: seq<byte>) {
    |query| <= |text| && forall k :: 0 <= k < |query| ==> text[k] == query[k] || text[k] == ToUpper(query[k])
  }

  lemma {:induction false} BeginningEmbeds(query: seq<byte>, text: seq<byte>)
    requires BeginsWith(text, query)
    ensures Embeddable(Accepts, query, text) && IsPrefix(query, text)
  {
    var e: seq<nat> := seq(|query|, k requires 0 <= k < |query| => k);
    assert Embeds(Accepts, query, text, e);
  }

  /** A field that is one word and begins with the query. */
  lemma {:induction false} OneWordScore(query: seq<byte>, field: seq<byte>, base: int)
    requires query != [] && NoSeparator(field) && BeginsWith(field, query) && |field| < 512
    ensures FieldScore(query, field, base) == Fin(base + 2000) && MatchesToken(query, field)
  {
    hide MatchScore, Embeddable;
    BeginningEmbeds(query, field);
    assert IsRun(InToken, field, 0, |field|) && field[0..|field|] == field;
    RunEndsAt(InToken, field, 0, |field|);
    assert TokenScore(query, field, base) == Fin(base + 2000);
    assert !IsSeparator(field[0]) && FieldFrom(query, field, base, |field|) == MinusInf;
  }

  /** A one-word name that begins with the query and is longer scores 322000. */
  lemma {:induction false} NamePrefixScore(query: seq<byte>, app: App)
    requires query != [] && Fits(app) && NoSeparator(app.name) && BeginsWith(app.name, query) && |query| < |app.name|
    ensures AppScore(query, app) == Fin(322000)
  {
    hide MatchScore, Embeddable, FieldFrom;
    BeginningEmbeds(query, app.name);
    OneWordScore(query, app.name, 320000);
    HasMatchIsScored(query, app.name);
    MatchRange(query, app.name);
    FieldRange(query, app.genericName, GENERIC_BASE);
    FieldRange(query, app.keywords, KEYWORD_BASE);
  }

  /** A one-word generic name scores 202000, and one keyword 102000, when no better
      field has the query. */
  lemma {:induction false} OtherPrefixScores(query: seq<byte>, app: App)
    requires query != [] && Fits(app) && !Embeddable(Accepts, query, app.name)
    ensures NoSeparator(app.genericName) && BeginsWith(app.genericName, query) ==> AppScore(query, app) == Fin(202000)
    ensures NoSeparator(app.keywords) && BeginsWith(app.keywords, query) && !MatchesToken(query, app.genericName) ==>
              AppScore(query, app) == Fin(102000)
  {
    hide MatchScore, Embeddable, FieldFrom, MatchesToken, BeginsWith;
    NameRange(query, app.name);
    FieldRange(query, app.genericName, GENERIC_BASE);
    FieldRange(query, app.keywords, KEYWORD_BASE);
    if NoSeparator(app.genericName) && BeginsWith(app.genericName, query) {
      OneWordScore(query, app.genericName, 200000);
    }
    if NoSeparator(app.keywords) && BeginsWith(app.keywords, query) {
      OneWordScore(query, app.keywords, 100000);
    }
  }

  /** The highest score of all is for the whole name. */
  lemma {:induction false} TopScoreIffWholeName(query: seq<byte>, app: App)
    requires query != [] && Fits(app)
    ensures AppScore(query, app) == PlusInf <==> |query| == |app.name| && BeginsWith(app.name, query)
  {
    hide MatchScore, Embeddable, FieldFrom;
    FieldRange(query, app.name, NAME_TOKEN_BASE);
    FieldRange(query, app.genericName, GENERIC_BASE);
    FieldRange(query, app.keywords, KEYWORD_BASE);
    WholeMatch(query, app.name);
  }

  lemma {:induction false} WholeMatch(query: seq<byte>, text: seq<byte>)
    requires query != [] && |text| < 256
    ensures Embeddable(Accepts, query, text) && MatchScore(query, text) == PlusInf <==>
            |query| == |text| && BeginsWith(text, query)
  {
    hide LastCell, Prepare;
    if Embeddable(Accepts, query, text) {
      var e :| Embeds(Accepts, query, text, e);
      EmbeddingFits(Accepts, query, text, e);
      if |query| == |text| {
        IdentityEmbedding(e, |text|);
        forall k | 0 <= k < |query| ensures text[k] == query[k] || text[k] == ToUpper(query[k]) {
          assert Accepts(query[k], text[e[k]]);
        }
      } else {
        HasMatchIsScored(query, text);
        MatchRange(query, text);
      }
    }
    if |query| == |text| && BeginsWith(text, query) {
      BeginningEmbeds(query, text);
    }
  }
}
