/** What the fzf score is worth to a byte, by where it stands
    (src/matching/fzf_algo.c:14-100 and 227-370). */
module FzfBonuses {
  import opened CStrings
  import opened Scores
  import opened Fzf
  import opened FzfProperties
  import opened MatchBonuses

  predicate Blank(b: byte) {
    b in [' ' as int, 9, 10, 11, 12, 13]
  }

  predicate Divides(b: byte) {
    b in ['/' as int, ',' as int, ':' as int, ';' as int, '|' as int]
  }

  predicate Capital(b: byte) {
    'A' as int <= b <= 'Z' as int
  }

  predicate Figure(b: byte) {
    '0' as int <= b <= '9' as int
  }

  /** Bytes above 127 count as small letters. */
  predicate Small(b: byte) {
    'a' as int <= b <= 'z' as int || b >= 128
  }

  predicate Wordy(b: byte) {
    Small(b) || Capital(b) || Figure(b)
  }

  /** The bonus `b` of a byte of the text, by the kinds of the byte and of the one
      before it; the text begins as if after a blank. */
  predicate Earns(hay: seq<byte>, j: nat, b: int)
    requires j < |hay|
  {
    var c := hay[j];
    if Blank(c) then b == 10
    else if !Wordy(c) && !Divides(c) then b == 8
    else if j == 0 || Blank(hay[j - 1]) then b == 10
    else
      var last := hay[j - 1];
      && (Divides(last) ==> b == 9)
      && (!Divides(last) && !Wordy(last) ==> b == 8)
      && (Wordy(last) && Divides(c) ==> b == 8)
      && (Small(last) && Capital(c) ==> b == 7)
      && (Wordy(last) && !Figure(last) && Figure(c) ==> b == 7)
      && (Wordy(last) && Small(c) ==> b == 0)
      && ((Capital(last) || Figure(last)) && Capital(c) ==> b == 0)
      && (Figure(last) && Figure(c) ==> b == 0)
  }

  lemma {:induction false} BonusEarned(hay: seq<byte>, j: nat)
    requires j < |hay|
    ensures Earns(hay, j, Fzf.BonusAt(hay, j))
  {
  }

  /** The scan finds the only occurrence. */
  lemma {:induction false} ScanOnly(c: byte, text: seq<byte>, bonus: seq<int>, i: nat, j: nat, best: int)
    requires i <= |text| == |bonus| && j < |text| && bonus[j] >= 0
    requires text[j] == c && forall k :: 0 <= k < |text| && text[k] == c ==> k == j
    requires best == if i <= j then 0 else 16 + 2 * bonus[j]
    ensures SingleFrom(c, text, bonus, i, best) == 16 + 2 * bonus[j]
    decreases |text| - i
  {
    if i < |text| {
      ScanOnly(c, text, bonus, i + 1, j, if i < j then 0 else 16 + 2 * bonus[j]);
    }
  }

  /** A byte that occurs once scores 16 and twice its bonus. */
  lemma {:induction false} SingleScore(c: byte, hay: seq<byte>, j: nat) returns (b: int)
    requires |hay| <= 1024 && OnlyAt(c, hay, j)
    ensures FuzzyScore([c], hay) == Fin(16 + 2 * b)
    ensures Earns(hay, j, b) && b == Fzf.BonusAt(hay, j)
  {
    hide BonusFor, ClassOf, SingleFrom, Firsts, CellAt, Earns;
    var p := Prepare([c], hay);
    assert Embeds(Same, Lowered([c]), Lowered(hay), [j]);
    ScoredIffEmbedded([c], hay);
    b := Fzf.BonusAt(hay, j);
    BonusEarned(hay, j);
    ScanOnly(p.needle[0], p.text, p.bonus, 0, j, 0);
  }

  /** Row 0 behind the only occurrence of its byte: three points for opening the
      gap, one for each further byte, never below zero. */
  lemma {:induction false} RowBehind(c: byte, text: seq<byte>, bonus: seq<int>, i: nat, col: nat)
    requires i <= col < |text| == |bonus| && bonus[i] >= 0
    requires text[i] == c && forall k :: 0 <= k < |text| && text[k] == c ==> k == i
    ensures FirstRow(c, text, bonus, col) ==
            if col == i then Cell(16 + 2 * bonus[i], 1, false)
            else Cell(MaxInt(14 + 2 * bonus[i] - (col - i), 0), 0, true)
  {
    if i < col {
      RowBehind(c, text, bonus, i, col - 1);
    }
  }

  /** Two bytes that occur once each.  Next to each other the second takes the
      larger of 4 and the two bonuses, unless it begins a word that is worth more
      than the first; apart, the gap costs three points and one a byte. */
  lemma {:induction false} PairScore(c: byte, d: byte, hay: seq<byte>, i: nat, j: nat) returns (b: int, b2: int)
    requires |hay| <= 1024 && OnlyAt(c, hay, i) && OnlyAt(d, hay, j) && i < j
    ensures FuzzyScore([c], hay) == Fin(16 + 2 * b) && FuzzyScore([d], hay) == Fin(16 + 2 * b2)
    ensures FuzzyScore([c, d], hay)
         == Fin(if j > i + 1 then 16 + b2 + MaxInt(15 + 2 * b - (j - i), 0)
                else 32 + 2 * b + if b2 >= 8 && b2 > b then b2 else MaxInt(b2, MaxInt(4, b)))
  {
    hide BonusFor, ClassOf, SingleFrom, FirstRow, Firsts, Fzf.BonusAt, Earns, CellAt;
    b := SingleScore(c, hay, i);
    b2 := SingleScore(d, hay, j);
    var needle := [c, d];
    assert Embeds(Same, Lowered(needle), Lowered(hay), [i, j]);
    ScoredIffEmbedded(needle, hay);
    var p := Prepare(needle, hay);
    assert p.text[p.firsts[0]] == ToLower(c) && p.text[p.firsts[1]] == ToLower(d);
    assert p.firsts[0] == i && p.firsts[1] == j;
    RowBehind(p.needle[0], p.text, p.bonus, i, j - 1);
    PairCell(p, i, j);
  }

  lemma {:induction false} PairCell(p: Problem, i: nat, j: nat)
    requires p.Valid() && |p.needle| == 2 && p.firsts[0] == i && p.firsts[1] == j
    ensures CellAt(p, 1, j)
         == Fill(true, ZERO_CELL, FirstRow(p.needle[0], p.text, p.bonus, j - 1), p.bonus[j],
                 p.bonus[j - CellAt(p, 0, j - 1).run])
    ensures CellAt(p, 0, j - 1) == FirstRow(p.needle[0], p.text, p.bonus, j - 1)
  {
    hide FirstRow, Fill;
  }
}
