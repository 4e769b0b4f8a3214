/** When the score of `fzf_fuzzy_match` is the best one its own table holds
    (the promise of src/matching/fzf_algo.c:177-183). */
module FzfOptimality {
  import opened CStrings
  import opened Scores
  import opened Fzf
  import opened FzfProperties

  /** The score the last needle byte reaches at `col`. */
  ghost function LastRow(p: Problem, col: nat): int
    requires p.Valid() && p.firsts[|p.needle| - 1] <= col < |p.text|
  {
    assert p.firsts[0] <= p.firsts[|p.needle| - 1];
    CellAt(p, |p.needle| - 1, col).score
  }

  /** No cell of the last row beats the score; for one byte, no occurrence does. */
  ghost predicate OptimalOn(needle: seq<byte>, hay: seq<byte>)
    requires needle != [] && FuzzyScore(needle, hay) != MinusInf
  {
    ScoredHasFirsts(needle, hay);
    ScoreRange(needle, hay);
    var p, s, m := Prepare(needle, hay), FuzzyScore(needle, hay).value, |needle|;
    if m == 1 then
      && (exists k :: 0 <= k < |p.text| && p.text[k] == p.needle[0] && SCORE_MATCH + 2 * p.bonus[k] == s)
      && (forall k :: 0 <= k < |p.text| && p.text[k] == p.needle[0] ==> SCORE_MATCH + 2 * p.bonus[k] <= s)
    else
      forall col: nat :: p.firsts[m - 1] <= col < |p.text| ==> LastRow(p, col) <= s
  }

  /** The promise, for one needle: it holds on every haystack. */
  ghost predicate OptimalEverywhere(needle: seq<byte>)
    requires needle != []
  {
    forall hay :: IsCString(hay) && FuzzyScore(needle, hay) != MinusInf ==> OptimalOn(needle, hay)
  }

  // ---- A guard for longer needles ----

  lemma {:induction false} UnmatchedNeverRises(p: Problem, i: nat, from: nat, col: nat)
    requires p.Valid() && 0 < i < |p.needle| && p.firsts[i] <= from <= col < |p.text|
    requires forall c :: from < c <= col ==> p.text[c] != p.needle[i]
    ensures p.firsts[0] <= from && CellAt(p, i, col).score <= CellAt(p, i, from).score
    decreases col
  {
    hide CellAt, Firsts;
    assert p.firsts[0] < p.firsts[i];
    if from < col {
      UnmatchedNeverRises(p, i, from, col - 1);
      CellStep(p, i, col);
    }
  }

  /** If the last needle byte does not come again after the leftmost embedding,
      the score is the best there is. */
  lemma {:induction false} LastByteGuard(needle: seq<byte>, hay: seq<byte>)
    requires |needle| > 1 && FuzzyScore(needle, hay) != MinusInf
    requires var f := Prepare(needle, hay).firsts;
             forall c :: 0 <= c < |hay| && |f| == |needle| && f[|needle| - 1] < c ==>
               ToLower(hay[c]) != ToLower(needle[|needle| - 1])
    ensures OptimalOn(needle, hay)
  {
    hide CellAt, Firsts;
    ScoredHasFirsts(needle, hay);
    var p, m := Prepare(needle, hay), |needle|;
    forall col: nat | p.firsts[m - 1] <= col < |p.text|
      ensures LastRow(p, col) <= FuzzyScore(needle, hay).value
    {
      UnmatchedNeverRises(p, m - 1, p.firsts[m - 1], col);
    }
  }

  // ---- One byte ----

  /** Bytes whose bonus does not depend on what stands before them. */
  predicate Steady(b: byte) {
    ClassOf(b).White? || ClassOf(b).NonWord?
  }

  function SteadyBonus(b: byte): int {
    if ClassOf(b).White? then BONUS_BOUNDARY_WHITE else BONUS_NON_WORD
  }

  lemma {:induction false} SteadyAt(hay: seq<byte>, k: nat, b: byte)
    requires k < |hay| && ToLower(hay[k]) == b && Steady(b)
    ensures BonusAt(hay, k) == SteadyBonus(b)
  {
    assert hay[k] == b;
  }

  /** With one bonus for all occurrences the scan cannot miss the best. */
  lemma {:induction false} SingleSteady(c: byte, text: seq<byte>, bonus: seq<int>, i: nat, best: int, b: int)
    requires i <= |text| == |bonus| && 0 <= b && (best == 0 || best == SCORE_MATCH + 2 * b)
    requires forall k :: 0 <= k < |text| && text[k] == c ==> bonus[k] == b
    ensures SingleFrom(c, text, bonus, i, best) ==
            if exists k :: i <= k < |text| && text[k] == c then SCORE_MATCH + 2 * b else best
    decreases |text| - i
  {
    if i < |text| {
      SingleSteady(c, text, bonus, i + 1, best, b);
      SingleSteady(c, text, bonus, i + 1, SCORE_MATCH + 2 * b, b);
    }
  }

  lemma {:induction false} SteadyIsOptimal(c: byte, hay: seq<byte>)
    requires Steady(ToLower(c)) && FuzzyScore([c], hay) != MinusInf
    ensures OptimalOn([c], hay)
  {
    hide Firsts, SingleFrom, BonusAt;
    ScoredHasFirsts([c], hay);
    var p := Prepare([c], hay);
    var b := SteadyBonus(ToLower(c));
    forall k | 0 <= k < |p.text| && p.text[k] == p.needle[0] ensures p.bonus[k] == b {
      SteadyAt(hay, k, p.needle[0]);
    }
    SingleSteady(p.needle[0], p.text, p.bonus, 0, 0, b);
    assert p.text[p.firsts[0]] == p.needle[0];
  }

  const DASH: byte := '-' as int
  const SPACE: byte := ' ' as int

  /** A byte after a dash is a boundary worth 8, after a space one worth 10. */
  lemma {:induction false} UnsteadyMisses(c: byte)
    requires c != 0 && !Steady(ToLower(c))
    ensures var hay := [DASH, ToLower(c), SPACE, ToLower(c)];
            IsCString(hay) && FuzzyScore([c], hay) == Fin(32) && !OptimalOn([c], hay)
  {
    var x := ToLower(c);
    var hay := [DASH, x, SPACE, x];
    assert Embeds(Same, Lowered([c]), Lowered(hay), [1]);
    ScoredIffEmbedded([c], hay);
    var p := Prepare([c], hay);
    assert p.bonus[1] == 8 && p.bonus[3] == 10 && p.text[1] == p.text[3] == p.needle[0];
    SingleStep(p.needle[0], p.text, p.bonus, 0, 0);
    SingleStep(p.needle[0], p.text, p.bonus, 1, 0);
    ScoredHasFirsts([c], hay);
  }

  // ---- Longer needles: the most a row can hold ----

  /** The first bytes of the needle, up to `i`, are all punctuation. */
  predicate Plain(n: seq<byte>, i: nat)
    requires i < |n|
  {
    forall k :: 0 <= k <= i ==> ClassOf(n[k]).NonWord?
  }

  function Gain(n: seq<byte>, i: nat): int
    requires i < |n|
  {
    SCORE_MATCH + if Plain(n, i) then BONUS_NON_WORD else BONUS_BOUNDARY_WHITE
  }

  /** The most a cell of row `i` can hold. */
  function Cap(n: seq<byte>, i: nat): int
    requires i < |n|
  {
    if i == 0 then 2 * Gain(n, 0) - SCORE_MATCH else Cap(n, i - 1) + Gain(n, i)
  }

  lemma {:induction false} CapIsLarge(n: seq<byte>, i: nat)
    requires i < |n|
    ensures Cap(n, i) >= 32
  {
    if i > 0 {
      CapIsLarge(n, i - 1);
    }
  }

  ghost predicate Prepared(p: Problem, hay: seq<byte>) {
    && p.Valid() && p.text == Lowered(hay) && forall k :: 0 <= k < |hay| ==> p.bonus[k] == BonusAt(hay, k)
  }

  lemma {:induction false} PlainBonus(p: Problem, hay: seq<byte>, i: nat, q: nat, col: nat)
    requires Prepared(p, hay) && q <= i < |p.needle| && Plain(p.needle, i)
    requires col < |p.text| && p.text[col] == p.needle[q]
    ensures p.bonus[col] == BONUS_NON_WORD
  {
    SteadyAt(hay, col, p.needle[q]);
  }

  /** A match gains at most `Gain` over the diagonal. */
  lemma {:induction false} StepAtMost(p: Problem, hay: seq<byte>, i: nat, col: nat)
    requires Prepared(p, hay) && 0 < i < |p.needle| && p.firsts[i] <= col < |p.text|
    ensures p.firsts[0] < col
    ensures var c, s2 := CellAt(p, i, col), GapStep(CellAt(p, i, col - 1));
            && (c.score <= CellAt(p, i - 1, col - 1).score + Gain(p.needle, i) || c.score <= s2 || c.score == 0)
            && (c.gap ==> c.score <= s2 || c.score == 0)
  {
    hide CellAt, BonusAt;
    CellStep(p, i, col);
    var diagonal := CellAt(p, i - 1, col - 1);
    if p.text[col] == p.needle[i] && Plain(p.needle, i) {
      PlainBonus(p, hay, i, i, col);
      if diagonal.run > 0 {
        RunsAreRuns(p, i - 1, col - 1, diagonal.run - 1);
        PlainBonus(p, hay, i, i - diagonal.run, col - diagonal.run);
      }
    }
  }

  lemma {:induction false} FirstRowCap(p: Problem, hay: seq<byte>, col: nat)
    requires Prepared(p, hay) && col < |p.text|
    ensures var c := FirstRow(p.needle[0], p.text, p.bonus, col);
            c.score <= Cap(p.needle, 0) && (c.gap ==> c.score <= Cap(p.needle, 0) - 3)
  {
    hide BonusAt;
    if p.text[col] == p.needle[0] {
      if Plain(p.needle, 0) {
        PlainBonus(p, hay, 0, 0, col);
      }
    } else if col > 0 {
      FirstRowCap(p, hay, col - 1);
    }
  }

  lemma {:induction false} CellCap(p: Problem, hay: seq<byte>, i: nat, col: nat)
    requires Prepared(p, hay) && i < |p.needle| && p.firsts[0] <= col < |p.text|
    ensures var c := CellAt(p, i, col);
            c.score <= Cap(p.needle, i) && (c.gap ==> c.score <= Cap(p.needle, i) - 3)
    decreases i, col
  {
    hide CellAt, FirstRow, BonusAt, Plain;
    CapIsLarge(p.needle, i);
    if i == 0 {
      CellRowZero(p, col);
      FirstRowCap(p, hay, col);
    } else if col < p.firsts[i] {
      CellZero(p, i, col);
    } else {
      StepAtMost(p, hay, i, col);
      CellCap(p, hay, i - 1, col - 1);
      CellCap(p, hay, i, col - 1);
    }
  }

  // ---- Longer needles: a haystack that hides the better placement ----

  /** How many bytes of punctuation the needle starts with. */
  function Lead(n: seq<byte>): (k: nat)
    ensures k <= |n| && (forall q :: 0 <= q < k ==> ClassOf(n[q]).NonWord?)
    ensures k < |n| ==> !ClassOf(n[k]).NonWord?
  {
    if n == [] || !ClassOf(n[0]).NonWord? then 0 else 1 + Lead(n[1..])
  }

  /** The needle with a space before its first byte that is not punctuation. */
  function Spaced(n: seq<byte>): seq<byte> {
    var k := Lead(n);
    if 0 < k < |n| then n[..k] + [SPACE] + n[k..] else n
  }

  /** The leftmost embedding has a gap of two; a good placement follows. */
  function Trap(n: seq<byte>, x: byte): (hay: seq<byte>)
    requires n != []
    ensures |hay| <= 2 * |n| + 4
  {
    n[..1] + [x, x] + n[1..] + [SPACE] + Spaced(n)
  }

  /** Where byte `i` stands in the good placement. */
  function Good(n: seq<byte>, i: nat): nat {
    |n| + 3 + i + if 0 < Lead(n) <= i then 1 else 0
  }

  lemma {:induction false} TrapBytes(n: seq<byte>, x: byte)
    requires |n| >= 2
    ensures var hay := Trap(n, x);
            && |hay| > |n| + 2 && hay[0] == n[0] && hay[1] == hay[2] == x
            && (forall i :: 1 <= i < |n| ==> hay[i + 2] == n[i])
            && hay[|n| + 2] == SPACE
            && (forall i :: 0 <= i < |n| ==> Good(n, i) < |hay| && hay[Good(n, i)] == n[i])
            && (0 < Lead(n) < |n| ==> hay[|n| + 3 + Lead(n)] == SPACE)
  {
    hide Spaced, Lead;
    var k, hay := Lead(n), Trap(n, x);
    var front := n[..1] + [x, x] + n[1..] + [SPACE];
    assert hay == front + Spaced(n) && |front| == |n| + 3;
    SpacedBytes(n);
    forall i | 0 <= i < |n| ensures Good(n, i) < |hay| && hay[Good(n, i)] == n[i] {
      assert hay[Good(n, i)] == Spaced(n)[Good(n, i) - |front|];
    }
    if 0 < k < |n| {
      assert hay[|front| + k] == Spaced(n)[k];
    }
  }

  lemma {:induction false} SpacedBytes(n: seq<byte>)
    ensures var k, s := Lead(n), Spaced(n);
            && |s| == |n| + (if 0 < k < |n| then 1 else 0)
            && (forall i :: 0 <= i < |n| ==> s[i + if 0 < k <= i then 1 else 0] == n[i])
            && (0 < k < |n| ==> s[k] == SPACE)
  {
    hide Lead;
  }

  /** The filler is no needle byte that matters. */
  predicate Fills(n: seq<byte>, x: byte) {
    |n| >= 2 && IsLower(x) && x != n[0] && x != n[1]
  }

  ghost predicate Trapped(p: Problem, x: byte) {
    && Fills(p.needle, x) && p.text == Trap(p.needle, x) && Prepared(p, p.text)
    && |p.firsts| == |p.needle| && p.firsts[0] == 0 && forall i :: 1 <= i < |p.needle| ==> p.firsts[i] == i + 2
  }

  function WeakFirsts(i: nat): (f: seq<nat>)
    ensures |f| == i && (i > 0 ==> f[0] == 0) && forall q :: 1 <= q < i ==> f[q] == q + 2
  {
    seq(i, q requires 0 <= q < i => if q == 0 then 0 else q + 2)
  }

  lemma {:induction false} TrapFirsts(n: seq<byte>, x: byte, i: nat)
    requires Fills(n, x) && 1 <= i <= |n|
    ensures i + 2 <= |Trap(n, x)| && Firsts(n, Trap(n, x)[..i + 2]) == WeakFirsts(i)
  {
    hide Firsts, Trap, Spaced, Lead;
    TrapBytes(n, x);
    var hay := Trap(n, x);
    if i == 1 {
      assert hay[..0] == [];
      FirstsNone(n);
      FirstsTake(n, hay, 0, []);
      FirstsPass(n, hay, 1, [0]);
      FirstsPass(n, hay, 2, [0]);
    } else {
      TrapFirsts(n, x, i - 1);
      FirstsTake(n, hay, i + 1, WeakFirsts(i - 1));
      assert WeakFirsts(i - 1) + [i + 1] == WeakFirsts(i);
    }
  }

  /** Preparing the trap gives the problem the bounds below speak of. */
  lemma {:induction false} TrapIsPrepared(needle: seq<byte>, x: byte)
    requires Fills(Lowered(needle), x)
    ensures Trapped(Prepare(needle, Trap(Lowered(needle), x)), x)
    ensures |Prepare(needle, Trap(Lowered(needle), x)).firsts| == |needle|
  {
    hide Firsts, Trap, BonusAt, Spaced;
    var n := Lowered(needle);
    var hay := Trap(n, x);
    TrapIsLower(n, x);
    TrapFirsts(n, x, |n|);
    FirstsGrow(n, hay, |n| + 2);
    assert Firsts(n, hay) == WeakFirsts(|n|);
  }

  lemma {:induction false} TrapIsLower(n: seq<byte>, x: byte)
    requires n != [] && IsLower(x) && forall k :: 0 <= k < |n| ==> ToLower(n[k]) == n[k]
    ensures Lowered(Trap(n, x)) == Trap(n, x)
  {
    hide Lead;
    assert forall b :: b in Trap(n, x) ==> b in n || b == x || b == SPACE;
    assert forall b :: b in n ==> ToLower(b) == b;
  }

  /** The leftmost embedding stays four below the row's most. */
  lemma {:induction false} WeakCells(p: Problem, x: byte, i: nat)
    requires Trapped(p, x) && 1 <= i < |p.needle|
    ensures i + 2 < |p.text| && CellAt(p, i, i + 2).score <= Cap(p.needle, i) - 4
  {
    hide CellAt, FirstRow, Trap, Plain, BonusAt;
    TrapBytes(p.needle, x);
    CapIsLarge(p.needle, i);
    CapIsLarge(p.needle, i - 1);
    StepAtMost(p, p.text, i, i + 2);
    CellBeforeFirst(p, i);
    if i == 1 {
      FirstRowCap(p, p.text, 0);
      FirstRowStep(p.needle[0], p.text, p.bonus, 0);
      FirstRowStep(p.needle[0], p.text, p.bonus, 1);
      FirstRowStep(p.needle[0], p.text, p.bonus, 2);
      CellRowZero(p, 2);
    } else {
      WeakCells(p, x, i - 1);
    }
  }

  lemma {:induction false} CellBeforeFirst(p: Problem, i: nat)
    requires p.Valid() && 0 < i < |p.needle| && p.firsts[0] < p.firsts[i]
    ensures CellAt(p, i, p.firsts[i] - 1) == ZERO_CELL
  {
  }

  /** A match gains at least its own bonus, and a run keeps the bonus it began with. */
  lemma {:induction false} StepAtLeast(p: Problem, i: nat, col: nat)
    requires p.Valid() && 0 < i < |p.needle| && p.firsts[i] <= col < |p.text|
    ensures p.firsts[0] < col
    ensures var c, left, diagonal := CellAt(p, i, col), CellAt(p, i, col - 1), CellAt(p, i - 1, col - 1);
            && (p.text[col] != p.needle[i] ==> c.score >= GapStep(left) && c.run == 0)
            && (p.text[col] == p.needle[i] ==> c.score >= diagonal.score + SCORE_MATCH + p.bonus[col])
            && (p.text[col] == p.needle[i] && p.bonus[col - diagonal.run] == BONUS_BOUNDARY_WHITE
                && GapStep(left) <= diagonal.score + SCORE_MATCH + BONUS_BOUNDARY_WHITE ==>
                  c.score >= diagonal.score + SCORE_MATCH + BONUS_BOUNDARY_WHITE && c.run == diagonal.run + 1)
  {
    hide CellAt;
    CellStep(p, i, col);
  }

  /** Along the good placement the punctuation reaches the row's most; from the
      first other byte on the row's most less three, in one run of boundary worth. */
  ghost predicate GoodCell(p: Problem, x: byte, i: nat)
    requires Trapped(p, x) && i < |p.needle|
  {
    var k, c := Lead(p.needle), Good(p.needle, i);
    && 0 < c < |p.text|
    && if i < k then CellAt(p, i, c).score >= Cap(p.needle, i)
       else CellAt(p, i, c).score >= Cap(p.needle, i) - 3 && CellAt(p, i, c).run == i - k + 1
            && p.bonus[c - (i - k)] == BONUS_BOUNDARY_WHITE
  }

  lemma {:induction false} GoodStart(p: Problem, x: byte)
    requires Trapped(p, x)
    ensures GoodCell(p, x, 0)
  {
    hide CellAt, FirstRow, Trap;
    var s := Good(p.needle, 0);
    TrapBytes(p.needle, x);
    assert p.text[s - 1] == SPACE;
    CellRowZero(p, s);
    FirstRowStep(p.needle[0], p.text, p.bonus, s);
  }

  lemma {:induction false} GoodPlain(p: Problem, x: byte, i: nat)
    requires Trapped(p, x) && 0 < i < |p.needle| && i < Lead(p.needle) && GoodCell(p, x, i - 1)
    ensures GoodCell(p, x, i)
  {
    hide CellAt, Trap, BonusAt;
    TrapBytes(p.needle, x);
    StepAtLeast(p, i, Good(p.needle, i));
    PlainBonus(p, p.text, i, i, Good(p.needle, i));
  }

  /** Over the space and onto the first byte that is not punctuation. */
  lemma {:induction false} GoodTurn(p: Problem, x: byte, i: nat)
    requires Trapped(p, x) && 0 < i < |p.needle| && i == Lead(p.needle) && GoodCell(p, x, i - 1)
    ensures GoodCell(p, x, i)
  {
    hide CellAt, Trap, Lead, BonusAt;
    var c := Good(p.needle, i);
    OverTheSpace(p, x, i);
    CellCap(p, p.text, i, c - 1);
    StepAtLeast(p, i, c);
  }

  lemma {:induction false} OverTheSpace(p: Problem, x: byte, i: nat)
    requires Trapped(p, x) && 0 < i < |p.needle| && i == Lead(p.needle) && GoodCell(p, x, i - 1)
    ensures var c := Good(p.needle, i);
            && 0 < c < |p.text| && p.text[c] == p.needle[i] && p.bonus[c] == BONUS_BOUNDARY_WHITE
            && p.firsts[i] <= c && p.firsts[0] < c
            && CellAt(p, i - 1, c - 1).score >= Cap(p.needle, i - 1) - 3 && CellAt(p, i - 1, c - 1).run == 0
  {
    hide CellAt, FirstRow, Trap, Cap;
    TrapBytes(p.needle, x);
    var c := Good(p.needle, i);
    assert p.text[c - 1] == SPACE && c - 1 == Good(p.needle, i - 1) + 1;
    if i == 1 {
      FirstRowStep(p.needle[0], p.text, p.bonus, c - 1);
      CellRowZero(p, c - 1);
      CellRowZero(p, c - 2);
    } else {
      StepAtLeast(p, i - 1, c - 1);
    }
  }

  lemma {:induction false} GoodOn(p: Problem, x: byte, i: nat)
    requires Trapped(p, x) && 0 < i < |p.needle| && i > Lead(p.needle) && GoodCell(p, x, i - 1)
    ensures GoodCell(p, x, i)
  {
    hide CellAt, Trap, BonusAt;
    TrapBytes(p.needle, x);
    CellCap(p, p.text, i, Good(p.needle, i) - 1);
    StepAtLeast(p, i, Good(p.needle, i));
  }

  lemma {:induction false} GoodCells(p: Problem, x: byte, i: nat)
    requires Trapped(p, x) && i < |p.needle|
    ensures GoodCell(p, x, i)
  {
    hide GoodCell, Trapped, Lead, Good, Plain, Cap, CellAt;
    if i == 0 {
      GoodStart(p, x);
    } else {
      GoodCells(p, x, i - 1);
      if i < Lead(p.needle) {
        GoodPlain(p, x, i);
      } else if i == Lead(p.needle) {
        GoodTurn(p, x, i);
      } else {
        GoodOn(p, x, i);
      }
    }
  }

  /** Every needle of two bytes and more has a haystack with a better cell. */
  lemma {:induction false} LongerMisses(needle: seq<byte>) returns (hay: seq<byte>)
    requires |needle| >= 2 && IsCString(needle) && 2 * |needle| + 4 <= FZF_MAX_LEN
    ensures IsCString(hay) && FuzzyScore(needle, hay) != MinusInf && !OptimalOn(needle, hay)
  {
    hide CellAt, Firsts, Prepare, Trap, Trapped, LastRow, FuzzyScore, Filler;
    var n := Lowered(needle);
    var x := Filler(n[0], n[1]);
    hay := Trap(n, x);
    TrapIsPrepared(needle, x);
    TrapIsCString(n, x);
    TrapBeats(Prepare(needle, hay), x);
    PreparedNeedle(needle, hay);
    TrapBytes(n, x);
    ScoreIsWeak(needle, hay);
  }

  lemma {:induction false} TrapBeats(p: Problem, x: byte)
    requires Trapped(p, x)
    ensures var m, c := |p.needle|, Good(p.needle, |p.needle| - 1);
            p.firsts[m - 1] <= c < |p.text| && LastRow(p, c) > LastRow(p, p.firsts[m - 1])
  {
    hide CellAt, Trap, Cap, Lead, BonusAt;
    var m := |p.needle|;
    WeakCells(p, x, m - 1);
    GoodCells(p, x, m - 1);
  }

  function Filler(a: byte, b: byte): (x: byte)
    ensures IsLower(x) && x != a && x != b
  {
    if 'a' as int !in {a, b} then 'a' as int else if 'b' as int !in {a, b} then 'b' as int else 'c' as int
  }

  lemma {:induction false} TrapIsCString(n: seq<byte>, x: byte)
    requires n != [] && IsCString(n) && x != 0
    ensures IsCString(Trap(n, x))
  {
    hide Lead;
    assert forall b :: b in Trap(n, x) ==> b in n || b == x || b == SPACE;
  }

  lemma {:induction false} PreparedNeedle(needle: seq<byte>, hay: seq<byte>)
    ensures Prepare(needle, hay).needle == Lowered(needle) && Prepare(needle, hay).text == Lowered(hay)
  {
  }

  lemma {:induction false} ScoreIsWeak(needle: seq<byte>, hay: seq<byte>)
    requires 2 <= |needle| <= |hay| <= FZF_MAX_LEN && |Prepare(needle, hay).firsts| == |needle|
    ensures var p := Prepare(needle, hay);
            p.Valid() && p.firsts[0] <= p.firsts[|needle| - 1]
            && FuzzyScore(needle, hay) == Fin(LastRow(p, p.firsts[|needle| - 1]))
  {
    hide CellAt, Firsts;
  }

  // ---- Long needles that end in a letter or digit ----

  predicate IsWordByte(b: byte) {
    ClassOf(b) == Lower || ClassOf(b) == Number
  }

  /** The needle but for its last byte; a byte beside that one; the last byte; and
      after a space the last byte again. */
  function Late(n: seq<byte>): (hay: seq<byte>)
    requires |n| >= 2
    ensures |hay| == |n| + 3
  {
    var b := n[|n| - 1];
    n[..|n| - 1] + [Beside(b, n[|n| - 2]), b, SPACE, b]
  }

  /** A byte of the same class, but neither of the two. */
  function Beside(b: byte, a: byte): (x: byte)
    ensures x != b && x != a && (ClassOf(b) == Number ==> IsDigit(x)) && (ClassOf(b) != Number ==> IsLower(x))
  {
    var low := if ClassOf(b) == Number then '0' as int else 'a' as int;
    if low != b && low != a then low else if low + 1 != b && low + 1 != a then low + 1 else low + 2
  }

  lemma {:induction false} LateBytes(n: seq<byte>, k: nat)
    requires |n| >= 2 && k < |n| + 3 && IsWordByte(n[|n| - 1])
    ensures var b, m := n[|n| - 1], |n|;
            && (k < m - 1 ==> Late(n)[k] == n[k]) && (k == m || k == m + 2 ==> Late(n)[k] == b)
            && (k == m - 1 ==> Late(n)[k] != b && Late(n)[k] != n[m - 2])
    ensures BonusAt(Late(n), |n|) == 0 && BonusAt(Late(n), |n| + 2) == 10
  {
  }

  function Ahead(m: nat): (f: seq<nat>)
    ensures |f| == m && forall k :: 0 <= k < m ==> f[k] == k
  {
    seq(m, k requires 0 <= k < m => k)
  }

  lemma {:induction false} LateFirsts(n: seq<byte>, i: nat)
    requires |n| >= 2 && IsWordByte(n[|n| - 1]) && i < |n|
    ensures Firsts(n, Late(n)[..i]) == Ahead(i)
  {
    hide Firsts, Late, BonusAt, IsWordByte;
    if i == 0 {
      assert Late(n)[..0] == [];
      FirstsNone(n);
    } else {
      LateFirsts(n, i - 1);
      LateBytes(n, i - 1);
      FirstsTake(n, Late(n), i - 1, Ahead(i - 1));
      assert Ahead(i - 1) + [i - 1] == Ahead(i);
    }
  }

  lemma {:induction false} AllLateFirsts(n: seq<byte>)
    requires |n| >= 2 && IsWordByte(n[|n| - 1])
    ensures Firsts(n, Late(n)) == Ahead(|n| - 1) + [|n|]
  {
    hide Firsts, Late, BonusAt, IsWordByte;
    var m := |n|;
    LateFirsts(n, m - 1);
    LateBytes(n, m - 1);
    LateBytes(n, m);
    FirstsPass(n, Late(n), m - 1, Ahead(m - 1));
    FirstsTake(n, Late(n), m, Ahead(m - 1));
    FirstsGrow(n, Late(n), m + 1);
  }

  ghost predicate EndsLate(p: Problem) {
    && p.Valid() && |p.needle| >= 3 && |p.text| == |p.needle| + 3
    && (forall k :: 0 <= k < |p.needle| - 1 ==> p.firsts[k] == k) && p.firsts[|p.needle| - 1] == |p.needle|
    && p.text[|p.needle| - 1] != p.needle[|p.needle| - 2]
    && p.text[|p.needle| + 2] == p.needle[|p.needle| - 1]
    && p.bonus[|p.needle|] == 0 && p.bonus[|p.needle| + 2] == 10
  }

  lemma {:induction false} LateIsLower(n: seq<byte>)
    requires |n| >= 2 && Lowered(n) == n && IsCString(n) && IsWordByte(n[|n| - 1])
    ensures Lowered(Late(n)) == Late(n) && IsCString(Late(n))
  {
    forall k | 0 <= k < |Late(n)| ensures ToLower(Late(n)[k]) == Late(n)[k] != 0 {
      assert k < |n| - 1 ==> Lowered(n)[k] == n[k] && Late(n)[k] == n[k];
      assert Lowered(n)[|n| - 1] == n[|n| - 1];
    }
  }

  lemma {:induction false} LateIsPrepared(needle: seq<byte>)
    requires |needle| >= 3 && IsCString(needle) && IsWordByte(Lowered(needle)[|needle| - 1])
    ensures var n := Lowered(needle);
            IsCString(Late(n)) && EndsLate(Prepare(needle, Late(n))) && |Late(n)| == |needle| + 3
  {
    hide Firsts, Late, BonusAt, IsWordByte;
    var n, m := Lowered(needle), |needle|;
    LoweredTwice(needle);
    LateIsLower(n);
    AllLateFirsts(n);
    LateBytes(n, m - 1);
    LateBytes(n, m);
    LateBytes(n, m + 2);
  }

  lemma {:induction false} LoweredTwice(s: seq<byte>)
    ensures Lowered(Lowered(s)) == Lowered(s) && (IsCString(s) ==> IsCString(Lowered(s)))
  {
  }

  /** A row does not fall by more than its gap from one column to the next. */
  lemma {:induction false} AtLeastGap(p: Problem, i: nat, col: nat)
    requires p.Valid() && 0 < i < |p.needle| && p.firsts[i] < col < |p.text|
    ensures p.firsts[0] < col - 1
    ensures CellAt(p, i, col).score >= GapStep(CellAt(p, i, col - 1))
    ensures p.text[col] != p.needle[i] && GapStep(CellAt(p, i, col - 1)) > 0 ==>
              CellAt(p, i, col) == Cell(GapStep(CellAt(p, i, col - 1)), 0, true)
  {
    hide CellAt;
    assert p.firsts[0] < p.firsts[i];
    CellStep(p, i, col);
  }

  lemma {:induction false} TakesAtLeast(matches: bool, left: Cell, diagonal: Cell, bonus: int, first: int)
    requires matches && bonus == 10
    ensures Fill(matches, left, diagonal, bonus, first).score >= diagonal.score + 26
  {
  }

  lemma {:induction false} LateBeats(p: Problem)
    requires EndsLate(p)
    ensures p.firsts[|p.needle| - 1] <= |p.needle| + 2 < |p.text|
    ensures LastRow(p, |p.needle| + 2) > LastRow(p, p.firsts[|p.needle| - 1])
  {
    hide CellAt, Fill;
    var m := |p.needle|;
    CellAtFirst(p, m - 2);
    FirstIsNoGap(p, m - 2);
    var d := CellAt(p, m - 2, m - 2);
    AtLeastGap(p, m - 2, m - 1);
    AtLeastGap(p, m - 2, m);
    AtLeastGap(p, m - 2, m + 1);
    CellStep(p, m - 1, m);
    CellZero(p, m - 1, m - 1);
    BareTake(CellAt(p, m - 2, m - 1), p.bonus[m]);
    CellStep(p, m - 1, m + 2);
    var diagonal := CellAt(p, m - 2, m + 1);
    TakesAtLeast(true, CellAt(p, m - 1, m + 1), diagonal, 10, p.bonus[m + 2 - diagonal.run]);
  }

  lemma {:induction false} BareTake(diagonal: Cell, bonus: int)
    requires diagonal.run == 0 && bonus == 0 && diagonal.score >= 0
    ensures Fill(true, ZERO_CELL, diagonal, bonus, bonus).score == diagonal.score + 16
  {
  }

  lemma {:induction false} FirstIsNoGap(p: Problem, i: nat)
    requires p.Valid() && 0 < i < |p.needle|
    ensures p.firsts[0] < p.firsts[i] && !CellAt(p, i, p.firsts[i]).gap
  {
    hide CellAt;
    assert p.firsts[0] < p.firsts[i];
    CellStep(p, i, p.firsts[i]);
    CellZero(p, i, p.firsts[i] - 1);
  }

  /** Up to 1021 bytes, too, a needle misses on some haystack if it ends in a letter
      or digit. */
  lemma {:induction false} WordEndMisses(needle: seq<byte>) returns (hay: seq<byte>)
    requires |needle| >= 3 && IsCString(needle) && IsWordByte(ToLower(needle[|needle| - 1]))
    requires |needle| + 3 <= FZF_MAX_LEN
    ensures IsCString(hay) && FuzzyScore(needle, hay) != MinusInf && !OptimalOn(needle, hay)
  {
    hide CellAt, Firsts, Prepare, Late, LastRow, FuzzyScore;
    var n := Lowered(needle);
    hay := Late(n);
    LateIsPrepared(needle);
    LateBeats(Prepare(needle, hay));
    PreparedNeedle(needle, hay);
    ScoreIsWeak(needle, hay);
  }

  /** Increasing places in a text no longer than their number end at its end. */
  lemma {:induction false} PlacesFill(f: seq<nat>, k: nat)
    requires k < |f| && forall a, b :: 0 <= a < b < |f| ==> f[a] < f[b]
    ensures f[k] >= k
  {
    if k > 0 {
      PlacesFill(f, k - 1);
    }
  }

  /** A needle that leaves no room has one placement at most. */
  lemma {:induction false} NoRoomIsOptimal(needle: seq<byte>, hay: seq<byte>)
    requires |needle| >= FZF_MAX_LEN && FuzzyScore(needle, hay) != MinusInf
    ensures OptimalOn(needle, hay)
  {
    hide CellAt, Firsts;
    ScoredHasFirsts(needle, hay);
    ScoreRange(needle, hay);
    var p := Prepare(needle, hay);
    PlacesFill(p.firsts, |needle| - 1);
    ScoreIsWeak(needle, hay);
  }

  // ---- The promise, needle by needle ----

  /** fzf_algo.c:177-183.  The score is optimal on every haystack exactly for
      one-byte needles that are white space or punctuation, and for needles that
      leave no room.  Needles between 510 and 1024 bytes that end in neither a letter
      nor a digit are left open, and so are those of 1022 and 1023 bytes. */
  lemma {:induction false} OptimalEverywhereIff(needle: seq<byte>)
    requires needle != [] && IsCString(needle)
    requires
      || |needle| == 1 || 2 * |needle| + 4 <= FZF_MAX_LEN
      || (IsWordByte(ToLower(needle[|needle| - 1])) && |needle| + 3 <= FZF_MAX_LEN)
      || |needle| >= FZF_MAX_LEN
    ensures OptimalEverywhere(needle) <==>
            (|needle| == 1 && Steady(ToLower(needle[0]))) || |needle| >= FZF_MAX_LEN
  {
    hide OptimalOn, FuzzyScore;
    if |needle| == 1 {
      assert needle == [needle[0]];
      if Steady(ToLower(needle[0])) {
        forall hay | IsCString(hay) && FuzzyScore(needle, hay) != MinusInf ensures OptimalOn(needle, hay) {
          SteadyIsOptimal(needle[0], hay);
        }
      } else {
        UnsteadyMisses(needle[0]);
      }
    } else if |needle| >= FZF_MAX_LEN {
      forall hay | IsCString(hay) && FuzzyScore(needle, hay) != MinusInf ensures OptimalOn(needle, hay) {
        NoRoomIsOptimal(needle, hay);
      }
    } else if 2 * |needle| + 4 <= FZF_MAX_LEN {
      var hay := LongerMisses(needle);
    } else {
      var hay := WordEndMisses(needle);
    }
  }
}
