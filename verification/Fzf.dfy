/** The fzf-style matcher of src/matching/fzf_algo.c: recurrences and loops. */
module Fzf {
  import opened CStrings
  import opened Scores

  const FZF_MAX_LEN: nat := 1024
  const SCORE_MATCH := 16
  const GAP_START := -3
  const GAP_EXTENSION := -1
  const BONUS_BOUNDARY := 8
  const BONUS_NON_WORD := 8
  const BONUS_CAMEL := 7
  const BONUS_CONSECUTIVE := 4
  const BONUS_BOUNDARY_WHITE := 10
  const BONUS_BOUNDARY_DELIMITER := 9

  newtype int16 = x: int | -0x8000 <= x < 0x8000

  datatype CharClass = White | NonWord | Delimiter | Lower | Upper | Letter | Number

  function ClassOf(b: byte): CharClass {
    if b >= 128 || IsLower(b) then Lower
    else if IsUpper(b) then Upper
    else if IsDigit(b) then Number
    else if b == ' ' as int || 9 <= b <= 13 then White
    else if b == '/' as int || b == ',' as int || b == ':' as int || b == ';' as int || b == '|' as int then Delimiter
    else NonWord
  }

  function BonusFor(prev: CharClass, c: CharClass): (b: int)
    ensures 0 <= b <= BONUS_BOUNDARY_WHITE
  {
    if !c.White? && !c.NonWord? && prev.White? then BONUS_BOUNDARY_WHITE
    else if !c.White? && !c.NonWord? && prev.Delimiter? then BONUS_BOUNDARY_DELIMITER
    else if !c.White? && !c.NonWord? && prev.NonWord? then BONUS_BOUNDARY
    else if prev.Lower? && c.Upper? then BONUS_CAMEL
    else if !prev.Number? && c.Number? then BONUS_CAMEL
    else if c.NonWord? || c.Delimiter? then BONUS_NON_WORD
    else if c.White? then BONUS_BOUNDARY_WHITE
    else 0
  }

  function BonusAt(hay: seq<byte>, i: nat): (b: int)
    requires i < |hay|
    ensures 0 <= b <= BONUS_BOUNDARY_WHITE
  {
    BonusFor(if i == 0 then White else ClassOf(hay[i - 1]), ClassOf(hay[i]))
  }

  // ---- Leftmost occurrences ----

  /** Greedy positions of the needle bytes found in `text`, leftmost first. */
  function Firsts(needle: seq<byte>, text: seq<byte>): (f: seq<nat>)
    ensures |f| <= |needle|
    ensures forall k :: 0 <= k < |f| ==> f[k] < |text| && text[f[k]] == needle[k]
    ensures forall a, b :: 0 <= a < b < |f| ==> f[a] < f[b]
  {
    if text == [] then []
    else
      var n := |text| - 1;
      var f := Firsts(needle, text[..n]);
      if |f| < |needle| && text[n] == needle[|f|] then f + [n] else f
  }

  /** The lowered strings, position bonuses and leftmost occurrences. */
  datatype Problem = Problem(needle: seq<byte>, text: seq<byte>, bonus: seq<int>, firsts: seq<nat>) {
    /** Every needle byte was found. */
    ghost predicate Valid() {
      && needle != [] && |bonus| == |text| && |firsts| == |needle|
      && (forall k :: 0 <= k < |bonus| ==> 0 <= bonus[k] <= BONUS_BOUNDARY_WHITE)
      && (forall k :: 0 <= k < |firsts| ==> firsts[k] < |text| && text[firsts[k]] == needle[k])
      && (forall a, b :: 0 <= a < b < |firsts| ==> firsts[a] < firsts[b])
    }
  }

  function Prepare(needle: seq<byte>, hay: seq<byte>): (p: Problem)
    ensures needle != [] && |p.firsts| == |needle| ==> p.Valid()
  {
    Problem(Lowered(needle), Lowered(hay), seq(|hay|, i requires 0 <= i < |hay| => BonusAt(hay, i)),
            Firsts(Lowered(needle), Lowered(hay)))
  }

  // ---- The score matrix ----

  /** Score, length of the run of matches that ends here, and whether the best
      score here came from the left. */
  datatype Cell = Cell(score: int, run: nat, gap: bool)

  const ZERO_CELL := Cell(0, 0, false)

  function GapStep(left: Cell): int {
    left.score + if left.gap then GAP_EXTENSION else GAP_START
  }

  /** Row 0, at any column of the haystack. */
  function FirstRow(needle0: byte, text: seq<byte>, bonus: seq<int>, col: nat): Cell
    requires col < |text| == |bonus|
  {
    if text[col] == needle0 then Cell(SCORE_MATCH + 2 * bonus[col], 1, false)
    else
      var left := if col == 0 then ZERO_CELL else FirstRow(needle0, text, bonus, col - 1);
      Cell(MaxInt(GapStep(left), 0), 0, true)
  }

  /** A cell of a later row from its left and its diagonal neighbour; `first` is
      the bonus where the run through the diagonal would begin. */
  function Fill(matches: bool, left: Cell, diagonal: Cell, bonus: int, first: int): Cell {
    var s2 := GapStep(left);
    if !matches then Cell(MaxInt(s2, 0), 0, 0 < s2)
    else
      var run := diagonal.run + 1;
      var restart := run > 1 && bonus >= BONUS_BOUNDARY && bonus > first;
      var b := if run == 1 || restart then bonus else MaxInt(bonus, MaxInt(BONUS_CONSECUTIVE, first));
      var dropped := diagonal.score + SCORE_MATCH + b < s2;
      var s1 := diagonal.score + SCORE_MATCH + if dropped then bonus else b;
      Cell(MaxInt(s1, MaxInt(s2, 0)), if dropped then 0 else if restart then 1 else run, s1 < s2)
  }

  /** Cell of row `i` at haystack column `col`. */
  ghost function CellAt(p: Problem, i: nat, col: nat): (c: Cell)
    requires p.Valid() && i < |p.needle| && p.firsts[0] <= col < |p.text|
    ensures 0 <= c.score <= 36 + 26 * i
    ensures c.run <= i + 1 && c.run <= col - p.firsts[0] + 1
    decreases i, col
  {
    if i == 0 then
      FirstRowRange(p.needle[0], p.text, p.bonus, col);
      FirstRow(p.needle[0], p.text, p.bonus, col)
    else if col < p.firsts[i] then ZERO_CELL
    else
      var diagonal := CellAt(p, i - 1, col - 1);
      Fill(p.text[col] == p.needle[i], CellAt(p, i, col - 1), diagonal, p.bonus[col], p.bonus[col - diagonal.run])
  }

  lemma {:induction false} FirstRowRange(needle0: byte, text: seq<byte>, bonus: seq<int>, col: nat)
    requires col < |text| == |bonus| && forall k :: 0 <= k < |bonus| ==> 0 <= bonus[k] <= BONUS_BOUNDARY_WHITE
    ensures 0 <= FirstRow(needle0, text, bonus, col).score <= 36
    ensures FirstRow(needle0, text, bonus, col).run <= 1
  {
    if col > 0 {
      FirstRowRange(needle0, text, bonus, col - 1);
    }
  }

  // ---- Single-byte needles ----

  /** The scan for a one-byte needle, which stops at the first improvement that
      sits on a boundary. */
  function SingleFrom(needle0: byte, text: seq<byte>, bonus: seq<int>, i: nat, best: int): int
    requires i <= |text| == |bonus|
    decreases |text| - i
  {
    if i == |text| then best
    else
      var score := SCORE_MATCH + 2 * bonus[i];
      if text[i] == needle0 && score > best then
        if bonus[i] >= BONUS_BOUNDARY then score else SingleFrom(needle0, text, bonus, i + 1, score)
      else SingleFrom(needle0, text, bonus, i + 1, best)
  }

  lemma {:induction false} SingleStep(needle0: byte, text: seq<byte>, bonus: seq<int>, i: nat, best: int)
    requires i <= |text| == |bonus|
    ensures SingleFrom(needle0, text, bonus, i, best) ==
            if i == |text| then best
            else
              var score := SCORE_MATCH + 2 * bonus[i];
              if text[i] == needle0 && score > best then
                if bonus[i] >= BONUS_BOUNDARY then score else SingleFrom(needle0, text, bonus, i + 1, score)
              else SingleFrom(needle0, text, bonus, i + 1, best)
  {
  }

  // ---- The result ----

  ghost function FuzzyScore(needle: seq<byte>, hay: seq<byte>): Score {
    if needle == [] then Fin(0)
    else if |needle| > |hay| || |hay| > FZF_MAX_LEN then MinusInf
    else
      var p := Prepare(needle, hay);
      if |p.firsts| != |needle| then MinusInf
      else if |needle| == 1 then Fin(SingleFrom(p.needle[0], p.text, p.bonus, 0, 0))
      else Fin(CellAt(p, |needle| - 1, p.firsts[|needle| - 1]).score)
  }

  // ---- The program ----

  /** The comparison of fzf_has_match: an int against a signed char. */
  predicate SameSigned(c: byte, h: byte) {
    ToLower(h) == Signed(ToLower(c))
  }

  method HasMatch(needle: seq<byte>, hay: seq<byte>) returns (found: bool)
    ensures found <==> Embeddable(SameSigned, needle, hay)
  {
    ScanIffEmbeddable(SameSigned, needle, hay);
    var h := 0;
    for n := 0 to |needle|
      invariant 0 <= h <= |hay|
      invariant Scan(SameSigned, needle[n..], hay[h..]) == Scan(SameSigned, needle, hay)
    {
      var c := Signed(ToLower(needle[n]));
      while h < |hay| && ToLower(hay[h]) != c
        invariant h <= |hay|
        invariant Scan(SameSigned, needle[n..], hay[h..]) == Scan(SameSigned, needle, hay)
      {
        assert hay[h..][1..] == hay[h + 1..];
        h := h + 1;
      }
      if h == |hay| {
        return false;
      }
      assert needle[n..][1..] == needle[n + 1..] && hay[h..][1..] == hay[h + 1..];
      h := h + 1;
    }
    return true;
  }

  function Max16(a: int16, b: int16): int16 {
    if a > b then a else b
  }

  lemma {:induction false} FirstsStep(needle: seq<byte>, text: seq<byte>, i: nat)
    requires i < |text|
    ensures var f := Firsts(needle, text[..i]);
            Firsts(needle, text[..i + 1]) == if |f| < |needle| && text[i] == needle[|f|] then f + [i] else f
  {
    assert text[..i + 1][..i] == text[..i];
  }

  lemma {:induction false} FirstsNone(needle: seq<byte>)
    ensures Firsts(needle, []) == []
  {
  }

  /** The arrays of phase 2 hold the first `n` columns. */
  ghost predicate ColumnsHold(p: Problem, n: nat, T: array<byte>, B: array<int16>, H0: array<int16>, C0: array<int16>)
    requires p.needle != [] && n <= |p.text| == |p.bonus|
    requires n <= T.Length && n <= B.Length && n <= H0.Length && n <= C0.Length
    reads T, B, H0, C0
  {
    && (forall k :: 0 <= k < n ==> T[k] == p.text[k])
    && (forall k :: 0 <= k < n ==> B[k] as int == p.bonus[k])
    && (forall k :: 0 <= k < n ==> H0[k] as int == FirstRow(p.needle[0], p.text, p.bonus, k).score)
    && (forall k :: 0 <= k < n ==> C0[k] as int == FirstRow(p.needle[0], p.text, p.bonus, k).run)
  }

  /** The running state of row 0 before column `i`. */
  ghost predicate RowZeroState(p: Problem, i: nat, prev: int16, inGap: bool)
    requires p.needle != [] && i <= |p.text| == |p.bonus|
  {
    var left := if i == 0 then ZERO_CELL else FirstRow(p.needle[0], p.text, p.bonus, i - 1);
    prev as int == left.score && inGap == left.gap && 0 <= prev <= 36
  }

  /** One cell of row 0 in 16-bit arithmetic. */
  method RowZeroCell(ghost p: Problem, ghost i: nat, matches: bool, bonus: int16, prev: int16, inGap: bool)
    returns (score: int16, run: int16, gap: bool)
    requires p.needle != [] && i < |p.text| == |p.bonus|
    requires matches == (p.text[i] == p.needle[0]) && 0 <= bonus <= 10 && bonus as int == p.bonus[i]
    requires RowZeroState(p, i, prev, inGap)
    ensures score as int == FirstRow(p.needle[0], p.text, p.bonus, i).score
    ensures run as int == FirstRow(p.needle[0], p.text, p.bonus, i).run
    ensures RowZeroState(p, i + 1, score, gap)
  {
    if matches {
      return SCORE_MATCH as int16 + bonus * 2, 1, false;
    }
    return Max16(prev + (if inGap then GAP_EXTENSION else GAP_START) as int16, 0), 0, true;
  }

  /** F holds the leftmost occurrences within text[..i]. */
  ghost predicate FirstsHold(needle: seq<byte>, text: seq<byte>, i: nat, F: array<nat>, found: nat)
    requires i <= |text|
    reads F
  {
    found <= F.Length && F[..found] == Firsts(needle, text[..i])
  }

  /** Record column `i` if it holds the needle byte that is looked for. */
  method Record(lower: seq<byte>, ghost text: seq<byte>, i: nat, ch: byte, pchar: byte, F: array<nat>, found: nat,
                lastIdx: nat)
    returns (pchar': byte, found': nat, lastIdx': nat)
    requires i < |text| && ch == text[i] && ch != 0 && found <= |lower| <= F.Length
    requires FirstsHold(lower, text, i, F, found) && (found > 0 ==> lastIdx == F[found - 1])
    requires pchar == if found < |lower| then lower[found] else 0
    modifies F
    ensures found' <= |lower| && FirstsHold(lower, text, i + 1, F, found') && (found' > 0 ==> lastIdx' == F[found' - 1])
    ensures pchar' == if found' < |lower| then lower[found'] else 0
  {
    hide Firsts;
    FirstsStep(lower, text, i);
    pchar', found', lastIdx' := pchar, found, lastIdx;
    if ch == pchar {
      if found < |lower| {
        F[found] := i;
        found' := found + 1;
        pchar' := if found' < |lower| then lower[found'] else 0;
      }
      lastIdx' := i;
    }
  }

  method StoreColumn(ghost p: Problem, i: nat, T: array<byte>, B: array<int16>, H0: array<int16>, C0: array<int16>,
                     ch: byte, bonus: int16, score: int16, run: int16)
    requires p.needle != [] && i < |p.text| == |p.bonus| && B != H0 && B != C0 && H0 != C0
    requires i < T.Length && i < B.Length && i < H0.Length && i < C0.Length
    requires ColumnsHold(p, i, T, B, H0, C0) && ch == p.text[i] && bonus as int == p.bonus[i]
    requires score as int == FirstRow(p.needle[0], p.text, p.bonus, i).score
    requires run as int == FirstRow(p.needle[0], p.text, p.bonus, i).run
    modifies T, B, H0, C0
    ensures ColumnsHold(p, i + 1, T, B, H0, C0)
  {
    hide FirstRow;
    T[i], B[i], H0[i], C0[i] := ch, bonus, score, run;
  }

  /** Phase 2 for needles of two bytes and more: bonuses, leftmost occurrences
      and row 0. */
  method Scan2(needle: seq<byte>, hay: seq<byte>, T: array<byte>, B: array<int16>, H0: array<int16>, C0: array<int16>,
               F: array<nat>) returns (lower: seq<byte>, found: nat, lastIdx: nat)
    requires 1 < |needle| <= |hay| <= FZF_MAX_LEN && IsCString(needle) && IsCString(hay)
    requires T.Length == B.Length == H0.Length == C0.Length == F.Length == FZF_MAX_LEN
    requires B != H0 && B != C0 && H0 != C0
    modifies T, B, H0, C0, F
    ensures var p := Prepare(needle, hay);
            && lower == p.needle && found == |p.firsts| && F[..found] == p.firsts
            && (found > 0 ==> lastIdx == p.firsts[found - 1])
            && ColumnsHold(p, |hay|, T, B, H0, C0)
  {
    hide Firsts, FirstRow, BonusFor, ClassOf, RowZeroState, ToLower, BonusAt, Problem.Valid, FirstsHold, ColumnsHold;
    NoColumns(Prepare(needle, hay), T, B, H0, C0);
    ghost var p := Prepare(needle, hay);
    lower := Lowered(needle);
    var pchar0, pchar := lower[0], lower[0];
    var prevH0: int16, inGap, prevClass := 0, false, White;
    found, lastIdx := 0, 0;
    FirstsStart(p, F);
    RowZeroStart(p);
    for i := 0 to |hay|
      invariant prevClass == if i == 0 then White else ClassOf(hay[i - 1])
      invariant found <= |needle| && FirstsHold(p.needle, p.text, i, F, found)
      invariant pchar == if found < |needle| then lower[found] else 0
      invariant found > 0 ==> lastIdx == F[found - 1]
      invariant ColumnsHold(p, i, T, B, H0, C0)
      invariant RowZeroState(p, i, prevH0, inGap)
    {
      NoNul(hay, i);
      BonusStep(hay, i, prevClass);
      var c := ClassOf(hay[i]);
      var ch, bonus := ToLower(hay[i]), BonusFor(prevClass, c) as int16;
      prevClass := c;
      var score, run, gap := RowZeroCell(p, i, ch == pchar0, bonus, prevH0, inGap);
      StoreColumn(p, i, T, B, H0, C0, ch, bonus, score, run);
      pchar, found, lastIdx := Record(lower, p.text, i, ch, pchar, F, found, lastIdx);
      inGap, prevH0 := gap, score;
    }
    FirstsEnd(p, F, found);
  }

  lemma {:induction false} NoColumns(p: Problem, T: array<byte>, B: array<int16>, H0: array<int16>, C0: array<int16>)
    requires p.needle != [] && |p.text| == |p.bonus|
    ensures ColumnsHold(p, 0, T, B, H0, C0)
  {
  }

  lemma {:induction false} FirstsStart(p: Problem, F: array<nat>)
    ensures FirstsHold(p.needle, p.text, 0, F, 0)
  {
    assert p.text[..0] == [];
  }

  lemma {:induction false} FirstsEnd(p: Problem, F: array<nat>, found: nat)
    requires FirstsHold(p.needle, p.text, |p.text|, F, found) && p.firsts == Firsts(p.needle, p.text)
    ensures found == |p.firsts| <= F.Length && F[..found] == p.firsts
  {
    assert p.text[..|p.text|] == p.text;
  }

  lemma {:induction false} BonusStep(hay: seq<byte>, i: nat, prevClass: CharClass)
    requires i < |hay| && prevClass == if i == 0 then White else ClassOf(hay[i - 1])
    ensures BonusAt(hay, i) == BonusFor(prevClass, ClassOf(hay[i]))
  {
  }

  lemma {:induction false} NoNul(hay: seq<byte>, i: nat)
    requires IsCString(hay) && i < |hay|
    ensures ToLower(hay[i]) != 0
  {
  }

  lemma {:induction false} RowZeroStart(p: Problem)
    requires p.needle != [] && |p.text| == |p.bonus|
    ensures RowZeroState(p, 0, 0, false)
  {
  }

  /** Phase 2 for a one-byte needle, which returns without phase 3. */
  method ScanSingle(needle0: byte, hay: seq<byte>) returns (found: bool, best: int16)
    requires |hay| <= FZF_MAX_LEN
    ensures var p := Prepare([needle0], hay);
            && (found <==> |p.firsts| == 1)
            && best as int == SingleFrom(p.needle[0], p.text, p.bonus, 0, 0)
  {
    hide Firsts, BonusFor, ClassOf, SingleFrom, ToLower, BonusAt;
    ghost var p := Prepare([needle0], hay);
    var pchar0, prevClass := ToLower(needle0), White;
    found, best := false, 0;
    FirstsNone(p.needle);
    assert p.text[..0] == [] && p.text[..|hay|] == p.text;
    for i := 0 to |hay|
      invariant prevClass == if i == 0 then White else ClassOf(hay[i - 1])
      invariant 0 <= best <= 36
      invariant found <==> |Firsts(p.needle, p.text[..i])| == 1
      invariant SingleFrom(p.needle[0], p.text, p.bonus, 0, 0) == SingleFrom(p.needle[0], p.text, p.bonus, i,
          best as int)
    {
      FirstsStep(p.needle, p.text, i);
      SingleStep(p.needle[0], p.text, p.bonus, i, best as int);
      BonusStep(hay, i, prevClass);
      var c := ClassOf(hay[i]);
      var bonus := BonusFor(prevClass, c) as int16;
      assert p.bonus[i] == BonusAt(hay, i) == bonus as int;
      prevClass := c;
      if ToLower(hay[i]) == pchar0 {
        found := true;
        var score := SCORE_MATCH as int16 + bonus * 2;
        if score > best {
          best := score;
          if bonus as int >= BONUS_BOUNDARY {
            FirstsGrow(p.needle, p.text, i + 1);
            return;
          }
        }
      }
    }
    SingleStep(p.needle[0], p.text, p.bonus, |hay|, best as int);
  }

  /** Reading more text never loses an occurrence. */
  lemma {:induction false} FirstsGrow(needle: seq<byte>, text: seq<byte>, i: nat)
    requires i <= |text|
    ensures Firsts(needle, text[..i]) <= Firsts(needle, text)
  {
    if i < |text| {
      var n := |text| - 1;
      assert text[..n][..i] == text[..i];
      FirstsGrow(needle, text[..n], i);
    } else {
      assert text[..i] == text;
    }
  }

  /** One cell of phase 3, in 16-bit arithmetic. */
  method ComputeCell(matches: bool, left: int16, inGap: bool, diagonal: int16, diagonalRun: int16,
                     B: array<int16>, col: nat) returns (score: int16, run: int16, gap: bool)
    requires 0 <= left < 0x7000 && 0 <= diagonal < 0x7000 && 0 <= diagonalRun as int <= col < B.Length
    requires 0 <= B[col] <= 10 && 0 <= B[col - diagonalRun as int] <= 10 && diagonalRun < 0x7000
    ensures run >= 0
    ensures Cell(score as int, run as nat, gap)
         == Fill(matches, Cell(left as int, 0, inGap), Cell(diagonal as int, diagonalRun as nat, false),
                 B[col] as int, B[col - diagonalRun as int] as int)
  {
    var s1: int16, s2: int16 := 0, left + (if inGap then GAP_EXTENSION else GAP_START) as int16;
    run := 0;
    if matches {
      s1 := diagonal + SCORE_MATCH as int16;
      var b := B[col];
      run := diagonalRun + 1;
      if run > 1 {
        var fb := B[col - run as int + 1];
        if b as int >= BONUS_BOUNDARY && b > fb {
          run := 1;
        } else {
          b := Max16(b, Max16(BONUS_CONSECUTIVE as int16, fb));
        }
      }
      if s1 + b < s2 {
        s1 := s1 + B[col];
        run := 0;
      } else {
        s1 := s1 + b;
      }
    }
    gap := s1 < s2;
    score := Max16(s1, Max16(s2, 0));
  }

  /** `CellAt` past the first occurrence, in terms of its neighbours. */
  lemma {:induction false} CellStep(p: Problem, i: nat, col: nat)
    requires p.Valid() && 0 < i < |p.needle| && p.firsts[i] <= col < |p.text|
    ensures p.firsts[0] < col
    ensures var diagonal := CellAt(p, i - 1, col - 1);
            CellAt(p, i, col) == Fill(p.text[col] == p.needle[i], CellAt(p, i, col - 1), diagonal, p.bonus[col],
                                      p.bonus[col - diagonal.run])
  {
    hide Fill;
    assert p.firsts[0] < p.firsts[i];
  }

  lemma {:induction false} CellZero(p: Problem, i: nat, col: nat)
    requires p.Valid() && 0 < i < |p.needle| && p.firsts[0] <= col < p.firsts[i]
    ensures CellAt(p, i, col) == ZERO_CELL
  {
  }

  lemma {:induction false} CellRowZero(p: Problem, col: nat)
    requires p.Valid() && p.firsts[0] <= col < |p.text|
    ensures CellAt(p, 0, col) == FirstRow(p.needle[0], p.text, p.bonus, col)
  {
  }

  /** The gap flag of the left neighbour does not depend on its run. */
  lemma {:induction false} FillIgnores(matches: bool, left: Cell, diagonal: Cell, bonus: int, first: int)
    ensures Fill(matches, left, diagonal, bonus, first)
         == Fill(matches, left.(run := 0), diagonal.(gap := false), bonus, first)
  {
  }

  /** Columns firsts[0] .. firsts[0] + n of row `i` are filled in. */
  ghost predicate RowHoldsTo(p: Problem, i: nat, n: nat, H: array2<int16>, C: array2<int16>)
    requires p.Valid() && i < |p.needle| && i < H.Length0 && i < C.Length0 && n <= H.Length1 == C.Length1
    requires p.firsts[0] + H.Length1 <= |p.text|
    reads H, C
  {
    forall off :: 0 <= off < n ==>
      H[i, off] as int == CellAt(p, i, p.firsts[0] + off).score
          && C[i, off] as int == CellAt(p, i, p.firsts[0] + off).run
  }

  ghost predicate Shaped(p: Problem, H: array2<int16>, C: array2<int16>) {
    && p.Valid() && |p.needle| <= FZF_MAX_LEN && H != C && H.Length0 == C.Length0 == |p.needle|
        && H.Length1 == C.Length1
    && p.firsts[0] + H.Length1 == p.firsts[|p.needle| - 1] + 1 <= |p.text|
  }

  /** Before its leftmost occurrence a row is zero. */
  method ZeroFront(ghost p: Problem, i: nat, count: nat, H: array2<int16>, C: array2<int16>)
    requires Shaped(p, H, C) && 0 < i < |p.needle| && p.firsts[0] + count == p.firsts[i] && count <= H.Length1
    requires RowHoldsTo(p, i - 1, H.Length1, H, C)
    modifies H, C
    ensures RowHoldsTo(p, i - 1, H.Length1, H, C) && RowHoldsTo(p, i, count, H, C)
  {
    hide CellAt;
    for off := 0 to count
      invariant RowHoldsTo(p, i - 1, H.Length1, H, C) && RowHoldsTo(p, i, off, H, C)
    {
      CellZero(p, i, p.firsts[0] + off);
      H[i, off], C[i, off] := 0, 0;
    }
  }

  /** Phase 3: fill row `i` from row i - 1 and track the best final score. */
  method FillRow(ghost p: Problem, i: nat, lower: seq<byte>, T: array<byte>, B: array<int16>, F: array<nat>,
                 H: array2<int16>, C: array2<int16>, best: int16) returns (best': int16)
    requires Shaped(p, H, C) && 0 < i < |p.needle| && best == 0
    requires lower == p.needle && F.Length >= |lower| && F[..|lower|] == p.firsts
    requires B.Length >= |p.text| && T.Length >= |p.text|
    requires forall k :: 0 <= k < |p.text| ==> B[k] as int == p.bonus[k] && T[k] == p.text[k]
    requires RowHoldsTo(p, i - 1, H.Length1, H, C)
    modifies H, C
    ensures RowHoldsTo(p, i, H.Length1, H, C)
    ensures if i == |p.needle| - 1 then best' as int == CellAt(p, i, p.firsts[i]).score else best' == 0
  {
    hide CellAt, Fill;
    best' := best;
    var f, f0, width := F[i], F[0], H.Length1;
    assert f == p.firsts[i] && f0 == p.firsts[0] < p.firsts[i] <= p.firsts[|p.needle| - 1];
    ZeroFront(p, i, f - f0, H, C);
    var inGap := false;
    CellZero(p, i, f - 1);
    for off := f - f0 to width
      invariant RowHoldsTo(p, i - 1, width, H, C) && RowHoldsTo(p, i, off, H, C)
      invariant inGap == CellAt(p, i, f0 + off - 1).gap
      invariant best' as int == if i == |p.needle| - 1 && off > f - f0 then CellAt(p, i, f).score else 0
    {
      var score, run, gap := NextCell(p, i, off, f0 + off, lower, T, B, H, C, inGap);
      C[i, off] := run;
      inGap := gap;
      if i == |lower| - 1 && score > best' {
        best' := score;
      }
      H[i, off] := score;
    }
  }

  /** The cell at `off` from the cells beside and before it. */
  method NextCell(ghost p: Problem, i: nat, off: nat, col: nat, lower: seq<byte>, T: array<byte>, B: array<int16>,
                  H: array2<int16>, C: array2<int16>, inGap: bool) returns (score: int16, run: int16, gap: bool)
    requires Shaped(p, H, C) && 0 < i < |p.needle| && lower == p.needle && off < H.Length1
    requires p.firsts[i] <= col == p.firsts[0] + off && B.Length >= |p.text| && T.Length >= |p.text|
    requires forall k :: 0 <= k < |p.text| ==> B[k] as int == p.bonus[k] && T[k] == p.text[k]
    requires RowHoldsTo(p, i - 1, H.Length1, H, C) && RowHoldsTo(p, i, off, H, C)
    requires p.firsts[0] < col && inGap == CellAt(p, i, col - 1).gap
    ensures run >= 0 && Cell(score as int, run as nat, gap) == CellAt(p, i, col)
  {
    hide CellAt, Fill;
    CellStep(p, i, col);
    ghost var left, diagonal := CellAt(p, i, col - 1), CellAt(p, i - 1, col - 1);
    assert p.firsts[0] + (off - 1) == col - 1;
    assert H[i - 1, off - 1] as int == diagonal.score && C[i - 1, off - 1] as int == diagonal.run;
    assert H[i, off - 1] as int == left.score;
    FillIgnores(p.text[col] == p.needle[i], left, diagonal, p.bonus[col], p.bonus[col - diagonal.run]);
    assert left.(run := 0) == Cell(left.score, 0, inGap);
    assert diagonal.(gap := false) == Cell(diagonal.score, diagonal.run, false);
    score, run, gap := ComputeCell(T[col] == lower[i], H[i, off - 1], inGap, H[i - 1, off - 1], C[i - 1, off - 1], B,
                                   col);
  }

  method FuzzyMatch(needle: seq<byte>, hay: seq<byte>) returns (score: Score)
    requires IsCString(needle) && IsCString(hay)
    ensures score == FuzzyScore(needle, hay)
  {
    hide CellAt, Firsts, SingleFrom, FirstRow, BonusAt, ToLower, ColumnsHold;
    if |needle| == 0 {
      return Fin(0);
    }
    if |needle| > |hay| || |hay| > FZF_MAX_LEN {
      return MinusInf;
    }
    ghost var p := Prepare(needle, hay);
    if |needle| == 1 {
      var found, single := ScanSingle(needle[0], hay);
      assert needle == [needle[0]];
      return if found then Fin(single as int) else MinusInf;
    }
    var T, F := new byte[FZF_MAX_LEN], new nat[FZF_MAX_LEN];
    var B, H0, C0 := new int16[FZF_MAX_LEN], new int16[FZF_MAX_LEN], new int16[FZF_MAX_LEN];
    var lower, found, lastIdx := Scan2(needle, hay, T, B, H0, C0, F);
    if found != |needle| {
      return MinusInf;
    }
    var best := Phase3(p, lower, T, B, F, H0, C0, lastIdx);
    return Fin(best as int);
  }

  /** Phase 3 over all rows: the matrices span the columns from the first
      occurrence of the first byte to `lastIdx`. */
  method Phase3(ghost p: Problem, lower: seq<byte>, T: array<byte>, B: array<int16>, F: array<nat>,
                H0: array<int16>, C0: array<int16>, lastIdx: nat) returns (best: int16)
    requires p.Valid() && 1 < |p.needle| <= FZF_MAX_LEN && lower == p.needle && lastIdx == p.firsts[|p.needle| - 1]
    requires F.Length >= |lower| && F[..|lower|] == p.firsts
    requires |p.text| <= T.Length && |p.text| <= B.Length && |p.text| <= H0.Length && |p.text| <= C0.Length
    requires ColumnsHold(p, |p.text|, T, B, H0, C0)
    ensures best as int == CellAt(p, |p.needle| - 1, lastIdx).score
  {
    hide CellAt, FirstRow;
    var f0 := F[0];
    assert f0 == p.firsts[0] <= lastIdx;
    var width := lastIdx - f0 + 1;
    var H, C := new int16[|lower|, width], new int16[|lower|, width];
    for j := 0 to width
      invariant RowHoldsTo(p, 0, j, H, C)
    {
      CellRowZero(p, f0 + j);
      H[0, j], C[0, j] := H0[f0 + j], C0[f0 + j];
    }
    best := 0;
    for i := 1 to |lower|
      invariant RowHoldsTo(p, i - 1, width, H, C)
      invariant if i == |lower| then best as int == CellAt(p, i - 1, p.firsts[i - 1]).score else best == 0
    {
      best := FillRow(p, i, lower, T, B, F, H, C, best);
    }
  }
}
