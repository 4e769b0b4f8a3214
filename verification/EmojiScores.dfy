/** The most and the least that a token can score in one field. */
module EmojiScores {
  import opened CStrings
  import Fzf
  import opened FzfProperties
  import opened Scores
  import opened Words

  const A: byte := 'a' as int
  const B: byte := 'b' as int
  const SPACE: byte := ' ' as int

  predicate AllAlnum(t: seq<byte>) {
    forall k :: 0 <= k < |t| ==> IsAlnum(t[k])
  }

  function Times(b: byte, m: nat): (s: seq<byte>)
    ensures |s| == m && forall k :: 0 <= k < m ==> s[k] == b
  {
    seq(m, k => b)
  }

  lemma {:induction false} AlnumIsLower(t: seq<byte>)
    requires AllAlnum(t)
    ensures Lowered(t) == t
  {
  }

  // ---- The most: at the start of a field, or after its leading space ----

  /** `x` stands in `hay` at `u`, in either case, with nothing or a space before. */
  predicate AtFront(x: seq<byte>, hay: seq<byte>, u: nat) {
    && u <= 1 && u + |x| <= |hay| && (u == 1 ==> hay[0] == SPACE)
    && forall k :: 0 <= k < |x| ==> ToLower(hay[u + k]) == x[k]
  }

  function From(u: nat, m: nat): (f: seq<nat>)
    ensures |f| == m && forall k :: 0 <= k < m ==> f[k] == u + k
  {
    seq(m, k requires 0 <= k < m => u + k)
  }

  lemma {:induction false} FrontFirsts(x: seq<byte>, hay: seq<byte>, u: nat, i: nat)
    requires x != [] && AllAlnum(x) && AtFront(x, hay, u) && i <= |x|
    ensures Fzf.Firsts(x, Lowered(hay)[..u + i]) == From(u, i)
  {
    hide Fzf.Firsts, AllAlnum;
    var text := Lowered(hay);
    if i > 0 {
      FrontFirsts(x, hay, u, i - 1);
      FirstsTake(x, text, u + i - 1, From(u, i - 1));
      assert From(u, i - 1) + [u + i - 1] == From(u, i);
    } else {
      assert text[..0] == [];
      Fzf.FirstsNone(x);
      assert From(u, 0) == [];
      if u == 1 {
        assert x[0] != SPACE by {
          FrontBonus(x, hay, u);
        }
        FirstsPass(x, text, 0, []);
      }
    }
  }

  ghost predicate Fronted(p: Fzf.Problem, u: nat) {
    && p.Valid() && u + |p.needle| <= |p.text| && p.bonus[u] == 10
    && forall k :: 0 <= k < |p.needle| ==> p.firsts[k] == u + k
  }

  lemma {:induction false} FrontCell(p: Fzf.Problem, u: nat, i: nat)
    requires Fronted(p, u) && i < |p.needle|
    ensures Fzf.CellAt(p, i, u + i) == Fzf.Cell(36 + 26 * i, i + 1, false)
  {
    hide Fzf.CellAt, Fzf.FirstRow;
    if i == 0 {
      Fzf.CellRowZero(p, u);
      FirstRowStep(p.needle[0], p.text, p.bonus, u);
    } else {
      FrontCell(p, u, i - 1);
      Fzf.CellStep(p, i, u + i);
      Fzf.CellZero(p, i, u + i - 1);
    }
  }

  /** There the token scores 26 a byte and 10 for the boundary. */
  lemma {:induction false} FrontScore(x: seq<byte>, hay: seq<byte>, u: nat)
    requires x != [] && AllAlnum(x) && AtFront(x, hay, u) && |hay| <= Fzf.FZF_MAX_LEN
    ensures Fzf.FuzzyScore(x, hay) == Fin(26 * |x| + 10)
  {
    hide Fzf.CellAt, Fzf.Firsts, Fzf.SingleFrom;
    var p, m := Fzf.Prepare(x, hay), |x|;
    AlnumIsLower(x);
    FrontFirsts(x, hay, u, m);
    Fzf.FirstsGrow(x, Lowered(hay), u + m);
    assert Fronted(p, u) by {
      FrontBonus(x, hay, u);
    }
    if m == 1 {
      Fzf.SingleStep(p.needle[0], p.text, p.bonus, 0, 0);
      if u == 1 {
        Fzf.SingleStep(p.needle[0], p.text, p.bonus, 1, 0);
        assert p.text[0] == SPACE && IsAlnum(x[0]);
      }
    } else {
      FrontCell(p, u, m - 1);
    }
  }

  lemma {:induction false} FrontBonus(x: seq<byte>, hay: seq<byte>, u: nat)
    requires x != [] && AllAlnum(x) && AtFront(x, hay, u)
    ensures Fzf.BonusAt(hay, u) == 10 && x[0] != SPACE
  {
    assert ToLower(hay[u + 0]) == x[0] && IsAlnum(x[0]);
  }

  /** One position later than a lone first byte the rest follows, after a space:
      a gap of one costs three points. */
  predicate AtSplit(x: seq<byte>, hay: seq<byte>) {
    && |x| >= 2 && |x| + 1 <= |hay| && ToLower(hay[0]) == x[0] && hay[1] == SPACE
    && forall k :: 1 <= k < |x| ==> ToLower(hay[k + 1]) == x[k]
  }

  function Split(m: nat): (f: seq<nat>)
    ensures |f| == m && forall k :: 0 <= k < m ==> f[k] == if k == 0 then 0 else k + 1
  {
    seq(m, k requires 0 <= k < m => if k == 0 then 0 else k + 1)
  }

  lemma {:induction false} SplitFirsts(x: seq<byte>, hay: seq<byte>, i: nat)
    requires AllAlnum(x) && AtSplit(x, hay) && 1 <= i <= |x|
    ensures Fzf.Firsts(x, Lowered(hay)[..i + 1]) == Split(i)
  {
    hide Fzf.Firsts, AllAlnum;
    var text := Lowered(hay);
    if i == 1 {
      assert text[..0] == [];
      Fzf.FirstsNone(x);
      FirstsTake(x, text, 0, []);
      assert text[1] == SPACE != x[1] by {
        SplitBonus(x, hay);
      }
      FirstsPass(x, text, 1, [0]);
      assert [0] == Split(1);
    } else {
      SplitFirsts(x, hay, i - 1);
      FirstsTake(x, text, i, Split(i - 1));
      assert Split(i - 1) + [i] == Split(i);
    }
  }

  ghost predicate SplitUp(p: Fzf.Problem) {
    && p.Valid() && 2 <= |p.needle| && |p.needle| + 1 <= |p.text|
    && p.bonus[0] == 10 && p.bonus[2] == 10 && p.text[1] != p.needle[0]
    && forall k :: 0 <= k < |p.needle| ==> p.firsts[k] == if k == 0 then 0 else k + 1
  }

  lemma {:induction false} SplitCell(p: Fzf.Problem, i: nat)
    requires SplitUp(p) && 1 <= i < |p.needle|
    ensures Fzf.CellAt(p, i, i + 1) == Fzf.Cell(33 + 26 * i, i, false)
  {
    hide Fzf.CellAt, Fzf.FirstRow;
    Fzf.CellStep(p, i, i + 1);
    Fzf.CellZero(p, i, i);
    if i == 1 {
      Fzf.CellRowZero(p, 0);
      Fzf.CellRowZero(p, 1);
      FirstRowStep(p.needle[0], p.text, p.bonus, 0);
      FirstRowStep(p.needle[0], p.text, p.bonus, 1);
    } else {
      SplitCell(p, i - 1);
    }
  }

  lemma {:induction false} SplitScore(x: seq<byte>, hay: seq<byte>)
    requires AllAlnum(x) && AtSplit(x, hay) && |hay| <= Fzf.FZF_MAX_LEN
    ensures Fzf.FuzzyScore(x, hay) == Fin(26 * |x| + 7)
  {
    hide Fzf.CellAt, Fzf.Firsts;
    var p, m := Fzf.Prepare(x, hay), |x|;
    AlnumIsLower(x);
    SplitFirsts(x, hay, m);
    Fzf.FirstsGrow(x, Lowered(hay), m + 1);
    assert SplitUp(p) by {
      SplitBonus(x, hay);
    }
    SplitCell(p, m - 1);
  }

  lemma {:induction false} SplitBonus(x: seq<byte>, hay: seq<byte>)
    requires AllAlnum(x) && AtSplit(x, hay)
    ensures Fzf.BonusAt(hay, 0) == 10 && Fzf.BonusAt(hay, 2) == 10 && x[0] != SPACE && x[1] != SPACE
  {
    assert ToLower(hay[1 + 1]) == x[1] && IsAlnum(x[0]) && IsAlnum(x[1]);
  }

  // ---- The least: spread so far apart that nothing adds up ----

  /** A byte of the same class as `c`, but none of the three. */
  function Guard(c: byte, x: byte, y: byte): (g: byte)
    requires IsAlnum(c)
    ensures g != c && g != x && g != y && IsAlnum(g) && IsDigit(g) == IsDigit(c)
  {
    var low := if IsDigit(c) then '0' as int else 'a' as int;
    if low != c && low != x && low != y then low
    else if low + 1 != c && low + 1 != x && low + 1 != y then low + 1
    else if low + 2 != c && low + 2 != x && low + 2 != y then low + 2
    else low + 3
  }

  /** Fourteen guards before every byte, which keep it apart from the one before. */
  function Sparse(s: seq<byte>): (r: seq<byte>)
    requires AllAlnum(s)
    ensures |r| == 15 * |s|
  {
    seq(15 * |s|, k requires 0 <= k < 15 * |s| => SparseByte(s, k / 15, k % 15))
  }

  function SparseByte(s: seq<byte>, i: nat, r: nat): byte
    requires AllAlnum(s) && i < |s|
  {
    if r == 14 then s[i] else Guard(s[i], if i > 0 then s[i - 1] else s[0], s[0])
  }

  lemma {:induction false} SparseAt(s: seq<byte>, i: nat, r: nat)
    requires AllAlnum(s) && i < |s| && r < 15
    ensures var b := Sparse(s)[15 * i + r];
            if r == 14 then b == s[i]
            else b != s[i] && b != s[0] && (i > 0 ==> b != s[i - 1]) && IsAlnum(b) && IsDigit(b) == IsDigit(s[i])
  {
    assert (15 * i + r) % 15 == r && (15 * i + r) / 15 == i;
  }

  function Every15(m: nat): (e: seq<nat>)
    ensures |e| == m && forall k :: 0 <= k < m ==> e[k] == 15 * k + 14
  {
    seq(m, k requires 0 <= k < m => 15 * k + 14)
  }

  lemma {:induction false} SparseFirsts(x: seq<byte>, s: seq<byte>, i: nat, r: nat)
    requires AllAlnum(s) && x <= s && i < |x| && r < 15
    ensures 15 * i + r <= |Sparse(s)| && Fzf.Firsts(x, Sparse(s)[..15 * i + r]) == Every15(i)
    decreases i, r
  {
    hide Fzf.Firsts, Sparse;
    if r > 0 {
      SparseFirsts(x, s, i, r - 1);
      SparseAt(s, i, r - 1);
      FirstsPass(x, Sparse(s), 15 * i + r - 1, Every15(i));
    } else if i > 0 {
      SparseWhole(x, s, i - 1);
    } else {
      assert Sparse(s)[..0] == [];
      Fzf.FirstsNone(x);
    }
  }

  lemma {:induction false} SparseWhole(x: seq<byte>, s: seq<byte>, i: nat)
    requires AllAlnum(s) && x <= s && i < |x|
    ensures 15 * i + 15 <= |Sparse(s)| && Fzf.Firsts(x, Sparse(s)[..15 * i + 15]) == Every15(i + 1)
    decreases i, 15
  {
    hide Fzf.Firsts, Sparse;
    SparseFirsts(x, s, i, 14);
    SparseAt(s, i, 14);
    FirstsTake(x, Sparse(s), 15 * i + 14, Every15(i));
    assert Every15(i) + [15 * i + 14] == Every15(i + 1);
  }

  ghost predicate Spread(p: Fzf.Problem) {
    && p.Valid() && 15 * |p.needle| <= |p.text|
    && (forall k :: 0 <= k < |p.needle| ==> p.firsts[k] == 15 * k + 14 && p.bonus[15 * k + 14] == 0)
    && forall i, r :: 0 < i < |p.needle| && 0 <= r < 14 ==> Apart(p, i, r)
  }

  /** No byte between places `i - 1` and `i` is the earlier of the two. */
  predicate Apart(p: Fzf.Problem, i: nat, r: nat)
    requires 0 < i < |p.needle| && 15 * |p.needle| <= |p.text| && r < 14
  {
    p.text[15 * i + r] != p.needle[i - 1]
  }

  /** Past the letter a row loses a point a byte until nothing is left. */
  lemma {:induction false} SpreadDecays(p: Fzf.Problem, i: nat, t: nat)
    requires Spread(p) && i < |p.needle| && t < 15 && 15 * i + 14 + t < 15 * |p.needle|
    ensures var c := Fzf.CellAt(p, i, 15 * i + 14 + t);
            && (t == 0 ==> c.score <= 16 && !c.gap)
            && (t > 0 ==> c.score <= (if t <= 14 then 14 - t else 0) && c.run == 0 && (c.gap || c.score == 0))
    decreases i, t
  {
    hide Fzf.CellAt, Fzf.FirstRow;
    var col := 15 * i + 14 + t;
    if t > 0 {
      SpreadDecays(p, i, t - 1);
      assert Apart(p, i + 1, t - 1);
      if i == 0 {
        Fzf.CellRowZero(p, col);
        Fzf.CellRowZero(p, col - 1);
        FirstRowStep(p.needle[0], p.text, p.bonus, col);
      } else {
        Fzf.CellStep(p, i, col);
      }
    } else if i == 0 {
      Fzf.CellRowZero(p, col);
      FirstRowStep(p.needle[0], p.text, p.bonus, col);
    } else {
      SpreadDecays(p, i - 1, 14);
      Fzf.CellStep(p, i, col);
      Fzf.CellZero(p, i, col - 1);
    }
  }

  lemma {:induction false} SparseBonus(s: seq<byte>, i: nat)
    requires AllAlnum(s) && i < |s|
    ensures Fzf.BonusAt(Sparse(s), 15 * i + 14) == 0
  {
    hide Sparse;
    SparseAt(s, i, 13);
    SparseAt(s, i, 14);
    assert IsAlnum(s[i]);
  }

  lemma {:induction false} SparseIsCString(s: seq<byte>)
    requires AllAlnum(s)
    ensures Lowered(Sparse(s)) == Sparse(s) && IsCString(Sparse(s))
  {
    hide Sparse;
    forall k | 0 <= k < 15 * |s| ensures IsAlnum(Sparse(s)[k]) {
      SparseAt(s, k / 15, k % 15);
      assert IsAlnum(s[k / 15]);
    }
  }

  lemma {:induction false} PrefixIsAlnum(x: seq<byte>, s: seq<byte>)
    requires AllAlnum(s) && x <= s
    ensures AllAlnum(x) && Lowered(x) == x
  {
    forall k | 0 <= k < |x| ensures IsAlnum(x[k]) {
      assert x[k] == s[k];
    }
  }

  lemma {:induction false} SparseIsSpread(x: seq<byte>, s: seq<byte>)
    requires AllAlnum(s) && x != [] && x <= s
    ensures Spread(Fzf.Prepare(x, Sparse(s)))
  {
    hide Fzf.Firsts, Sparse;
    var hay := Sparse(s);
    SparseIsCString(s);
    PrefixIsAlnum(x, s);
    SparseWhole(x, s, |x| - 1);
    Fzf.FirstsGrow(x, hay, 15 * |x|);
    var p := Fzf.Prepare(x, hay);
    forall k | 0 <= k < |x| ensures p.bonus[15 * k + 14] == 0 {
      SparseBonus(s, k);
    }
    forall i, r | 0 < i < |x| && 0 <= r < 14 ensures Apart(p, i, r) {
      SparseAt(s, i, r);
    }
  }

  lemma {:induction false} SingleSpread(c: byte, text: seq<byte>, bonus: seq<int>, i: nat, best: int)
    requires i <= |text| == |bonus| && 0 <= best <= 16
    requires forall k :: i <= k < |text| && text[k] == c ==> bonus[k] == 0
    ensures 0 <= Fzf.SingleFrom(c, text, bonus, i, best) <= 16
    decreases |text| - i
  {
    hide Fzf.SingleFrom;
    Fzf.SingleStep(c, text, bonus, i, best);
    if i < |text| {
      if text[i] == c && 16 > best {
        SingleSpread(c, text, bonus, i + 1, 16);
      } else {
        SingleSpread(c, text, bonus, i + 1, best);
      }
    }
  }

  /** Spread out, the token and whatever begins it score one bare match. */
  lemma {:induction false} SparseScore(x: seq<byte>, s: seq<byte>)
    requires AllAlnum(s) && x != [] && x <= s && 15 * |s| <= Fzf.FZF_MAX_LEN
    ensures Fzf.FuzzyScore(x, Sparse(s)) == Fin(16)
  {
    hide Fzf.CellAt, Fzf.Firsts, Fzf.SingleFrom, Sparse, Spread;
    var hay := Sparse(s);
    var p := Fzf.Prepare(x, hay);
    SparseIsSpread(x, s);
    SpreadHasFirsts(p);
    if |x| == 1 {
      SparseSingle(x[0], s);
    } else {
      SpreadDecays(p, |x| - 1, 0);
    }
    ScoreRange(x, hay);
  }

  lemma {:induction false} SpreadHasFirsts(p: Fzf.Problem)
    requires Spread(p)
    ensures p.Valid() && p.firsts[|p.needle| - 1] == 15 * |p.needle| - 1 < |p.text|
  {
  }

  lemma {:induction false} SparseSingle(c: byte, s: seq<byte>)
    requires AllAlnum(s) && [c] <= s
    ensures var p := Fzf.Prepare([c], Sparse(s));
            Fzf.SingleFrom(p.needle[0], p.text, p.bonus, 0, 0) <= 16
  {
    hide Sparse, Fzf.Firsts;
    var hay := Sparse(s);
    var p := Fzf.Prepare([c], hay);
    SparseIsCString(s);
    assert IsAlnum(s[0]) && s[0] == c;
    forall k | 0 <= k < |hay| && hay[k] == c ensures p.bonus[k] == 0 {
      SparseAt(s, k / 15, k % 15);
      SparseBonus(s, k / 15);
    }
    SingleSpread(c, p.text, p.bonus, 0, 0);
  }
}
