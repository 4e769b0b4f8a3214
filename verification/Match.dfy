/** The fzy-style matcher of src/matching/match.c: the cell recurrences of its
    two dynamic-programming tables, and its loops over them. */
module Match {
  import opened CStrings
  import opened Scores

  const MATCH_MAX_LEN: nat := 1024
  const CONSECUTIVE := 16
  const GAP_LEADING := -9
  const GAP_TRAILING := -10
  const GAP_INNER := -11

  /** Position bonus of `ch` when the byte before it is `last`. */
  function ComputeBonus(last: byte, ch: byte): (b: int)
    ensures 0 <= b <= 9
  {
    var state := if IsUpper(ch) then 2 else if IsLower(ch) || IsDigit(ch) then 1 else 0;
    if state == 0 then 0
    else if last == '/' as int then 9
    else if last == '-' as int || last == '_' as int || last == ' ' as int then 8
    else if last == '.' as int then 6
    else if state == 2 && IsLower(last) then 7
    else 0
  }

  function BonusAt(hay: seq<byte>, j: nat): int
    requires j < |hay|
  {
    ComputeBonus(if j == 0 then '/' as int else hay[j - 1], hay[j])
  }

  /** What the matcher prepares from its two strings. */
  datatype Problem = Problem(needle: seq<byte>, hay: seq<byte>, bonus: seq<int>) {
    predicate Valid() {
      |needle| > 0 && |hay| > 0 && |bonus| == |hay|
    }
  }

  function Prepare(needle: seq<byte>, hay: seq<byte>): (p: Problem) {
    Problem(Lowered(needle), Lowered(hay), seq(|hay|, j requires 0 <= j < |hay| => BonusAt(hay, j)))
  }

  // ---- The two tables ----

  /** Cost of leaving `d` haystack bytes unused to the right of needle byte `i`. */
  function GapCost(p: Problem, i: nat, d: nat): int {
    if i + 1 == |p.needle| then GAP_TRAILING * d else GAP_INNER * d
  }

  /** D[i][j]: best score of needle[..i+1] when its last byte sits at `j`. */
  function EndAt(p: Problem, i: nat, j: nat): Score
    requires p.Valid() && i < |p.needle| && j < |p.hay|
    decreases i, j, 0
  {
    if p.needle[i] != p.hay[j] then MinusInf
    else if i == 0 then Fin(j * GAP_LEADING + p.bonus[j])
    else if j == 0 then MinusInf
    else Max(Best(p, i - 1, j - 1).Plus(p.bonus[j]), EndAt(p, i - 1, j - 1).Plus(CONSECUTIVE))
  }

  /** M[i][j]: best score of needle[..i+1] within hay[..j+1]. */
  function Best(p: Problem, i: nat, j: nat): Score
    requires p.Valid() && i < |p.needle| && j < |p.hay|
    decreases i, j, 1
  {
    Max(EndAt(p, i, j), BestBefore(p, i, j).Plus(GapCost(p, i, 1)))
  }

  /** M[i][j-1], and minus infinity to the left of the table. */
  function BestBefore(p: Problem, i: nat, j: nat): Score
    requires p.Valid() && i < |p.needle| && j <= |p.hay|
    decreases i, j, 0
  {
    if j == 0 then MinusInf else Best(p, i, j - 1)
  }

  lemma {:induction false} BestSplit(p: Problem, i: nat, j: nat)
    requires p.Valid() && i < |p.needle| && j < |p.hay|
    ensures j == 0 ==> Best(p, i, j) == EndAt(p, i, j)
    ensures j > 0 ==> Best(p, i, j) == Max(EndAt(p, i, j), Best(p, i, j - 1).Plus(GapCost(p, i, 1)))
  {
  }

  /** The last cell of M. */
  function LastCell(p: Problem): Score
    requires p.Valid()
  {
    Best(p, |p.needle| - 1, |p.hay| - 1)
  }

  /** The result of `match`, and of `match_positions`. */
  function MatchScore(needle: seq<byte>, hay: seq<byte>): Score {
    if needle == [] || |hay| > MATCH_MAX_LEN || |needle| > |hay| then MinusInf
    else if |needle| == |hay| then PlusInf
    else LastCell(Prepare(needle, hay))
  }

  /** Row `i` of both tables is stored in row `r` of the two arrays. */
  ghost predicate RowHolds(p: Problem, i: nat, D: array2<Score>, M: array2<Score>, r: nat)
    requires p.Valid() && i < |p.needle|
    requires r < D.Length0 && r < M.Length0 && |p.hay| <= D.Length1 && |p.hay| <= M.Length1
    reads D, M
  {
    forall j :: 0 <= j < |p.hay| ==> D[r, j] == EndAt(p, i, j) && M[r, j] == Best(p, i, j)
  }

  // ---- The program ----

  /** has_match: a needle byte accepts itself or its upper-case form. */
  predicate Accepts(c: byte, h: byte) {
    h == c || h == ToUpper(c)
  }

  method HasMatch(needle: seq<byte>, hay: seq<byte>) returns (found: bool)
    ensures found <==> Embeddable(Accepts, needle, hay)
  {
    ScanIffEmbeddable(Accepts, needle, hay);
    var n, h := 0, 0;
    while n < |needle|
      invariant n <= |needle| && h <= |hay|
      invariant Scan(Accepts, needle[n..], hay[h..]) == Scan(Accepts, needle, hay)
    {
      while h < |hay| && !Accepts(needle[n], hay[h])
        invariant h <= |hay|
        invariant Scan(Accepts, needle[n..], hay[h..]) == Scan(Accepts, needle, hay)
      {
        assert hay[h..][1..] == hay[h + 1..];
        h := h + 1;
      }
      if h == |hay| {
        return false;
      }
      assert needle[n..][1..] == needle[n + 1..] && hay[h..][1..] == hay[h + 1..];
      n, h := n + 1, h + 1;
    }
    return true;
  }

  /** setup_match_struct for strings the table can hold. */
  method SetUp(needle: seq<byte>, hay: seq<byte>) returns (p: Problem)
    requires |needle| <= |hay| <= MATCH_MAX_LEN
    ensures p == Prepare(needle, hay)
  {
    var lowerNeedle, lowerHay := new byte[MATCH_MAX_LEN](_ => 0), new byte[MATCH_MAX_LEN](_ => 0);
    var bonus := new int[MATCH_MAX_LEN](_ => 0);
    for i := 0 to |needle|
      invariant forall k :: 0 <= k < i ==> lowerNeedle[k] == ToLower(needle[k])
    {
      lowerNeedle[i] := ToLower(needle[i]);
    }
    for i := 0 to |hay|
      invariant forall k :: 0 <= k < i ==> lowerHay[k] == ToLower(hay[k])
      invariant forall k :: 0 <= k < |needle| ==> lowerNeedle[k] == ToLower(needle[k])
    {
      lowerHay[i] := ToLower(hay[i]);
    }
    var last := '/' as int;
    for i := 0 to |hay|
      invariant last == if i == 0 then '/' as int else hay[i - 1]
      invariant forall k :: 0 <= k < i ==> bonus[k] == BonusAt(hay, k)
      invariant forall k :: 0 <= k < |hay| ==> lowerHay[k] == ToLower(hay[k])
      invariant forall k :: 0 <= k < |needle| ==> lowerNeedle[k] == ToLower(needle[k])
    {
      bonus[i] := ComputeBonus(last, hay[i]);
      last := hay[i];
    }
    p := Problem(lowerNeedle[..|needle|], lowerHay[..|hay|], bonus[..|hay|]);
    assert p.needle == Lowered(needle) && p.hay == Lowered(hay);
    assert p.bonus == Prepare(needle, hay).bonus;
  }

  /** match_row: fills row `curr` from row `last`, which row 0 does not read. */
  method MatchRow(p: Problem, i: nat, D: array2<Score>, M: array2<Score>, curr: nat, last: nat)
    requires p.Valid() && i < |p.needle|
    requires D != M && D.Length0 == M.Length0 && D.Length1 == M.Length1 && |p.hay| <= D.Length1
    requires curr < D.Length0
    requires i > 0 ==> last < D.Length0 && last != curr && RowHolds(p, i - 1, D, M, last)
    modifies D, M
    ensures RowHolds(p, i, D, M, curr)
    ensures forall r, j :: 0 <= r < D.Length0 && 0 <= j < D.Length1 && r != curr ==>
              D[r, j] == old(D[r, j]) && M[r, j] == old(M[r, j])
  {
    var prev := MinusInf;
    var gap := if i + 1 == |p.needle| then GAP_TRAILING else GAP_INNER;
    for j := 0 to |p.hay|
      invariant prev == BestBefore(p, i, j)
      invariant forall k :: 0 <= k < j ==> D[curr, k] == EndAt(p, i, k) && M[curr, k] == Best(p, i, k)
      invariant forall r, k :: 0 <= r < D.Length0 && 0 <= k < D.Length1 && r != curr ==>
                  D[r, k] == old(D[r, k]) && M[r, k] == old(M[r, k])
    {
      if p.needle[i] == p.hay[j] {
        var score := MinusInf;
        if i == 0 {
          score := Fin(j * GAP_LEADING + p.bonus[j]);
        } else if j > 0 {
          score := Max(M[last, j - 1].Plus(p.bonus[j]), D[last, j - 1].Plus(CONSECUTIVE));
        }
        D[curr, j] := score;
        prev := Max(score, prev.Plus(gap));
        M[curr, j] := prev;
      } else {
        D[curr, j] := MinusInf;
        prev := prev.Plus(gap);
        M[curr, j] := prev;
      }
      assert prev == Best(p, i, j) == BestBefore(p, i, j + 1);
    }
  }

  /** match: two row buffers, swapped after every needle byte. */
  method MatchRolling(needle: seq<byte>, hay: seq<byte>) returns (score: Score)
    ensures score == MatchScore(needle, hay)
  {
    if needle == [] || |hay| > MATCH_MAX_LEN || |needle| > |hay| {
      return MinusInf;
    } else if |needle| == |hay| {
      return PlusInf;
    }
    var p := SetUp(needle, hay);
    var D, M := new Score[2, MATCH_MAX_LEN], new Score[2, MATCH_MAX_LEN];
    var last, curr := 0, 1;
    for i := 0 to |needle|
      invariant 0 <= last < 2 && curr == 1 - last
      invariant i > 0 ==> RowHolds(p, i - 1, D, M, last)
    {
      MatchRow(p, i, D, M, curr, last);
      curr, last := last, curr;
    }
    return M[last, |hay| - 1];
  }
}
