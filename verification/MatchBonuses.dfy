/** What `match` is worth to a byte, by where it stands (src/matching/match.c:33-43
    with the tables of src/core/utils/bonus.h and src/config.h). */
module MatchBonuses {
  import opened CStrings
  import opened Scores
  import opened Match
  import opened MatchAlignment

  /** The byte occurs in the haystack at `j`, case folded, and nowhere else. */
  predicate OnlyAt(c: byte, hay: seq<byte>, j: nat) {
    && j < |hay| && ToLower(hay[j]) == ToLower(c)
    && forall k :: 0 <= k < |hay| && ToLower(hay[k]) == ToLower(c) ==> k == j
  }

  predicate Alphanumeric(b: byte) {
    'a' as int <= b <= 'z' as int || 'A' as int <= b <= 'Z' as int || '0' as int <= b <= '9' as int
  }

  lemma {:induction false} PlacedThere(c: byte, hay: seq<byte>, j: nat, e: seq<nat>, k: nat, needle: seq<byte>)
    requires OnlyAt(c, hay, j) && Places(needle, Lowered(hay), e) && k < |e| && needle[k] == ToLower(c)
    ensures e[k] == j
  {
    assert Same(needle[..|e|][k], Lowered(hay)[e[k]]);
  }

  /** The bonus `b` of a byte of the haystack: 9, 8, 6 for a letter or digit after a
      separator, 7 for a capital after a small letter, and nothing else. */
  predicate Earns(hay: seq<byte>, j: nat, b: int)
    requires j < |hay|
  {
    if !Alphanumeric(hay[j]) then b == 0
    else if j == 0 then b == 9
    else
      var last := hay[j - 1];
      && (last == '/' as int ==> b == 9)
      && (last in ['-' as int, '_' as int, ' ' as int] ==> b == 8)
      && (last == '.' as int ==> b == 6)
      && ('a' as int <= last <= 'z' as int ==> b == if 'A' as int <= hay[j] <= 'Z' as int then 7 else 0)
      && (last in ['/' as int, '-' as int, '_' as int, ' ' as int, '.' as int] || 'a' as int <= last <= 'z' as int
          || b == 0)
  }

  /** The score of the one placement there is. */
  lemma {:induction false} OnlyPlacement(needle: seq<byte>, hay: seq<byte>, e: seq<nat>)
    requires 0 < |needle| < |hay| <= MATCH_MAX_LEN
    requires var p := Prepare(needle, hay);
             && Places(p.needle, p.hay, e) && |e| == |p.needle|
             && forall f :: Places(p.needle, p.hay, f) && |f| == |p.needle| ==> f == e
    ensures MatchScore(needle, hay) == Fin(AlignmentScore(Prepare(needle, hay), e))
  {
    hide AlignmentScore, MatchScore, Places;
    MatchIsOptimal(needle, hay);
  }

  lemma {:induction false} BonusEarned(hay: seq<byte>, j: nat)
    requires j < |hay|
    ensures Earns(hay, j, BonusAt(hay, j))
  {
  }

  lemma {:induction false} OnePlaced(p: Problem, j: nat)
    requires p.Valid() && |p.needle| == 1 && j < |p.hay| && p.needle[0] == p.hay[j]
    ensures Places(p.needle, p.hay, [j])
    ensures AlignmentScore(p, [j]) == -9 * j - 10 * (|p.hay| - 1 - j) + p.bonus[j]
  {
  }

  lemma {:induction false} TwoPlaced(p: Problem, i: nat, j: nat)
    requires p.Valid() && |p.needle| == 2 && i < j < |p.hay| && p.needle[0] == p.hay[i] && p.needle[1] == p.hay[j]
    ensures Places(p.needle, p.hay, [i, j])
    ensures AlignmentScore(p, [i, j]) == -9 * i + p.bonus[i] - 10 * (|p.hay| - 1 - j)
              + if j > i + 1 then p.bonus[j] - 11 * (j - i - 1) else if p.bonus[j] > 16 then p.bonus[j] else 16
  {
    assert Places(p.needle, p.hay, [i]);
    PlacesExtend(p.needle, p.hay, [i], j);
    PathScoreExtend(p, [i], j);
    assert [i, j] == [i] + [j];
  }

  /** A byte that occurs once scores what its place costs and what it earns. */
  lemma {:induction false} SingleScore(c: byte, hay: seq<byte>, j: nat) returns (b: int)
    requires 1 < |hay| <= 1024 && OnlyAt(c, hay, j)
    ensures MatchScore([c], hay) == Fin(-9 * j - 10 * (|hay| - 1 - j) + b) && Earns(hay, j, b)
    ensures b == BonusAt(hay, j)
  {
    hide AlignmentScore, MatchScore, Places, BonusAt, Earns;
    var p := Prepare([c], hay);
    b := BonusAt(hay, j);
    BonusEarned(hay, j);
    OnePlaced(p, j);
    forall e | Places(p.needle, p.hay, e) && |e| == 1 ensures e == [j] {
      PlacedThere(c, hay, j, e, 0, p.needle);
    }
    OnlyPlacement([c], hay, [j]);
  }

  /** Two bytes that occur once each: next to each other the second is worth at
      least 16, apart every byte between them costs 11. */
  lemma {:induction false} PairScore(c: byte, d: byte, hay: seq<byte>, i: nat, j: nat) returns (b: int, b2: int)
    requires 2 < |hay| <= 1024 && OnlyAt(c, hay, i) && OnlyAt(d, hay, j) && i < j
    ensures MatchScore([c], hay) == Fin(-9 * i - 10 * (|hay| - 1 - i) + b)
    ensures MatchScore([d], hay) == Fin(-9 * j - 10 * (|hay| - 1 - j) + b2)
    ensures MatchScore([c, d], hay)
         == Fin(-9 * i + b - 10 * (|hay| - 1 - j)
                + if j > i + 1 then b2 - 11 * (j - i - 1) else if b2 > 16 then b2 else 16)
  {
    hide AlignmentScore, MatchScore, Places, BonusAt, Earns;
    b := SingleScore(c, hay, i);
    b2 := SingleScore(d, hay, j);
    var p := Prepare([c, d], hay);
    TwoPlaced(p, i, j);
    forall e | Places(p.needle, p.hay, e) && |e| == 2 ensures e == [i, j] {
      PlacedThere(c, hay, i, e, 0, p.needle);
      PlacedThere(d, hay, j, e, 1, p.needle);
    }
    OnlyPlacement([c, d], hay, [i, j]);
  }
}
