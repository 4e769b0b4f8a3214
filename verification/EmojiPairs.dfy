/** The acronym measure of the emoji ranking: consecutive_word_start_pairs of
    src/emoji/emoji_provider.c, a dynamic program over word starts. */
module EmojiPairs {
  import opened CStrings
  import opened Scores

  const FLEN_CAP: nat := 64
  const WS_CAP: nat := 128
  const WS_BUFFER: nat := 256

  /** is_word_start */
  predicate IsWordStart(s: seq<byte>, pos: nat)
    requires pos < |s|
  {
    pos == 0 ||
    var p := s[pos - 1];
    || p == ' ' as int || p == '-' as int || p == '_' as int || p == '.' as int
    || p == '(' as int || p == '|' as int || p == '/' as int
  }

  /** The word starts among the first `n` bytes, in order. */
  function WordStarts(s: seq<byte>, n: nat): (ws: seq<nat>)
    requires n <= |s|
    ensures |ws| <= n && (n > 0 ==> |ws| > 0)
    ensures forall k :: 0 <= k < |ws| ==> ws[k] < n
  {
    if n == 0 then []
    else WordStarts(s, n - 1) + if IsWordStart(s, n - 1) then [n - 1] else []
  }

  /** The bytes of `s` at the given places, lowered. */
  function Letters(s: seq<byte>, places: seq<nat>): (r: seq<byte>)
    requires forall k :: 0 <= k < |places| ==> places[k] < |s|
    ensures |r| == |places| && forall k :: 0 <= k < |r| ==> r[k] == ToLower(s[places[k]])
  {
    seq(|places|, k requires 0 <= k < |places| => ToLower(s[places[k]]))
  }

  function Capped<T>(s: seq<T>, cap: nat): (r: seq<T>)
    ensures |r| <= cap && r <= s
    ensures |s| <= cap ==> r == s
  {
    if |s| <= cap then s else s[..cap]
  }

  /** What the program aligns: filter bytes against word-start bytes. */
  datatype Grid = Grid(filter: seq<byte>, starts: seq<byte>)

  function Prepare(filter: seq<byte>, display: seq<byte>): (g: Grid)
    ensures |g.filter| <= FLEN_CAP && |g.starts| <= WS_CAP
  {
    Grid(Lowered(Capped(filter, FLEN_CAP)), Letters(display, Capped(WordStarts(display, |display|), WS_CAP)))
  }

  // ---- The table ----

  /** dp[i][j], -1 for unreachable. */
  function Cell(g: Grid, i: nat, j: nat): (v: int)
    requires i < |g.filter| && j < |g.starts|
    ensures v >= -1
    decreases i, 1, 0
  {
    if g.starts[j] != g.filter[i] then -1
    else if i == 0 then 0
    else CellTo(g, i, j, j)
  }

  /** dp[i][j] once the predecessors before `k` have been tried. */
  function CellTo(g: Grid, i: nat, j: nat, k: nat): (v: int)
    requires 0 < i < |g.filter| && k <= j < |g.starts|
    ensures v >= -1
    decreases i, 0, k
  {
    if k == 0 then -1
    else
      var before, prev := CellTo(g, i, j, k - 1), Cell(g, i - 1, k - 1);
      if prev < 0 then before
      else MaxInt(prev + if k == j then 1 else 0, before)
  }

  /** A cell of the last row. */
  function LastRow(g: Grid, j: nat): (v: int)
    requires |g.filter| > 0 && j < |g.starts|
    ensures v >= -1
  {
    Cell(g, |g.filter| - 1, j)
  }

  function BestTo(g: Grid, n: nat): (v: int)
    requires |g.filter| > 0 && n <= |g.starts|
    ensures v >= 0
  {
    if n == 0 then 0 else MaxInt(LastRow(g, n - 1), BestTo(g, n - 1))
  }

  function PairScore(filter: seq<byte>, display: seq<byte>): (v: int)
    ensures v >= 0
  {
    if |filter| < 2 || display == [] then 0
    else
      var g := Prepare(filter, display);
      BestTo(g, |g.starts|)
  }

  // ---- What it means ----

  /** Neighbouring filter bytes placed on neighbouring word starts. */
  function Pairs(e: seq<nat>): (n: nat)
    ensures n == 0 || n < |e|
  {
    if |e| < 2 then 0
    else Pairs(e[..|e| - 1]) + if e[|e| - 1] == e[|e| - 2] + 1 then 1 else 0
  }

  /** A reachable predecessor bounds the cell from below. */
  lemma {:induction false} CellToCovers(g: Grid, i: nat, j: nat, k: nat, a: nat)
    requires 0 < i < |g.filter| && a < k <= j < |g.starts| && Cell(g, i - 1, a) >= 0
    ensures CellTo(g, i, j, k) >= Cell(g, i - 1, a) + if a + 1 == j then 1 else 0
    decreases k
  {
    if a < k - 1 {
      CellToCovers(g, i, j, k - 1, a);
    }
  }

  lemma {:induction false} CellAtLeast(g: Grid, e: seq<nat>)
    requires Places(g.filter, g.starts, e)
    ensures e[|e| - 1] < |g.starts| && Cell(g, |e| - 1, e[|e| - 1]) >= Pairs(e)
    decreases |e|
  {
    var i, j := |e| - 1, e[|e| - 1];
    assert Same(g.filter[..|e|][i], g.starts[j]);
    if i > 0 {
      PlacesPrefix(g.filter, g.starts, e);
      CellAtLeast(g, e[..i]);
      CellToCovers(g, i, j, j, e[i - 1]);
    }
  }

  lemma {:induction false} CellToAttained(g: Grid, i: nat, j: nat, k: nat) returns (a: nat)
    requires 0 < i < |g.filter| && k <= j < |g.starts| && CellTo(g, i, j, k) >= 0
    ensures a < k && Cell(g, i - 1, a) >= 0
    ensures CellTo(g, i, j, k) == Cell(g, i - 1, a) + if a + 1 == j then 1 else 0
  {
    var before, prev := CellTo(g, i, j, k - 1), Cell(g, i - 1, k - 1);
    if prev < 0 || CellTo(g, i, j, k) == before {
      a := CellToAttained(g, i, j, k - 1);
    } else {
      a := k - 1;
    }
  }

  lemma {:induction false} CellAttained(g: Grid, i: nat, j: nat) returns (e: seq<nat>)
    requires i < |g.filter| && j < |g.starts| && Cell(g, i, j) >= 0
    ensures Places(g.filter, g.starts, e) && |e| == i + 1 && e[i] == j && Pairs(e) == Cell(g, i, j)
    decreases i
  {
    if i == 0 {
      e := [j];
    } else {
      var a := CellToAttained(g, i, j, j);
      var front := CellAttained(g, i - 1, a);
      PlacesExtend(g.filter, g.starts, front, j);
      e := front + [j];
      assert e[..i] == front;
    }
  }

  lemma {:induction false} BestToCovers(g: Grid, n: nat, j: nat)
    requires |g.filter| > 0 && j < n <= |g.starts|
    ensures BestTo(g, n) >= LastRow(g, j)
  {
    if j < n - 1 {
      BestToCovers(g, n - 1, j);
    }
  }

  lemma {:induction false} BestToAttained(g: Grid, n: nat) returns (j: nat)
    requires |g.filter| > 0 && n <= |g.starts| && exists k: nat :: k < n && LastRow(g, k) >= 0
    ensures j < n && BestTo(g, n) == LastRow(g, j)
  {
    var k: nat :| k < n && LastRow(g, k) >= 0;
    if LastRow(g, n - 1) >= BestTo(g, n - 1) {
      j := n - 1;
    } else {
      if forall q: nat :: q < n - 1 ==> LastRow(g, q) < 0 {
        NothingReachable(g, n - 1);
        assert false;
      }
      j := BestToAttained(g, n - 1);
    }
  }

  lemma {:induction false} NothingReachable(g: Grid, n: nat)
    requires |g.filter| > 0 && n <= |g.starts| && forall k: nat :: k < n ==> LastRow(g, k) < 0
    ensures BestTo(g, n) == 0
  {
    if n > 0 {
      NothingReachable(g, n - 1);
    }
  }

  lemma {:induction false} ReachableEmbeds(g: Grid, k: nat)
    requires |g.filter| > 0 && k < |g.starts| && LastRow(g, k) >= 0
    ensures Embeddable(Same, g.filter, g.starts)
  {
    var e := CellAttained(g, |g.filter| - 1, k);
    assert g.filter[..|g.filter|] == g.filter;
    assert Embeds(Same, g.filter, g.starts, e);
  }

  /** emoji_provider.c:325-367.  The program's result is the greatest number of
      neighbouring pairs over all order-preserving placements of the filter on
      the word starts, and 0 if there is none. */
  lemma {:induction false} PairScoreIsMaximum(filter: seq<byte>, display: seq<byte>)
    requires |filter| >= 2 && display != []
    ensures var g := Prepare(filter, display);
            && (Embeddable(Same, g.filter, g.starts) ==>
                 exists e :: Embeds(Same, g.filter, g.starts, e) && Pairs(e) == PairScore(filter, display))
            && (!Embeddable(Same, g.filter, g.starts) ==> PairScore(filter, display) == 0)
            && forall e :: Embeds(Same, g.filter, g.starts, e) ==> Pairs(e) <= PairScore(filter, display)
  {
    hide Cell, Pairs;
    var g := Prepare(filter, display);
    var n, m := |g.filter|, |g.starts|;
    assert g.filter[..n] == g.filter;
    forall e | Embeds(Same, g.filter, g.starts, e) ensures Pairs(e) <= BestTo(g, m) {
      CellAtLeast(g, e);
      BestToCovers(g, m, e[n - 1]);
    }
    if e :| Embeds(Same, g.filter, g.starts, e) {
      CellAtLeast(g, e);
      assert LastRow(g, e[n - 1]) >= 0;
      var j := BestToAttained(g, m);
      BestToCovers(g, m, e[n - 1]);
      var best := CellAttained(g, n - 1, j);
      assert Embeds(Same, g.filter, g.starts, best);
    } else {
      forall k: nat | k < m ensures LastRow(g, k) < 0 {
        if LastRow(g, k) >= 0 {
          ReachableEmbeds(g, k);
        }
      }
      NothingReachable(g, m);
    }
  }

  /** A filter of M bytes forms at most M - 1 pairs. */
  lemma {:induction false} PairScoreBound(filter: seq<byte>, display: seq<byte>)
    ensures PairScore(filter, display) == 0 || PairScore(filter, display) < |filter|
  {
    if |filter| >= 2 && display != [] {
      PairScoreIsMaximum(filter, display);
    }
  }

  // ---- The program ----

  method CollectStarts(display: seq<byte>, ws: array<nat>) returns (count: nat)
    requires ws.Length == WS_BUFFER
    modifies ws
    ensures count <= WS_BUFFER && ws[..count] == Capped(WordStarts(display, |display|), WS_BUFFER)
  {
    count := 0;
    var i := 0;
    while i < |display| && count < WS_BUFFER
      invariant i <= |display| && count <= WS_BUFFER && ws[..count] == WordStarts(display, i)
    {
      if IsWordStart(display, i) {
        ws[count] := i;
        count := count + 1;
      }
      i := i + 1;
    }
    StartsGrow(display, i, |display|);
  }

  lemma {:induction false} StartsGrow(display: seq<byte>, i: nat, n: nat)
    requires i <= n <= |display|
    ensures WordStarts(display, i) <= WordStarts(display, n)
  {
    if i < n {
      StartsGrow(display, i, n - 1);
    }
  }

  /** Row `i` of the table holds its cells. */
  ghost predicate RowHolds(g: Grid, i: nat, dp: array2<int>)
    requires i < |g.filter| && |g.filter| <= dp.Length0 && |g.starts| <= dp.Length1
    reads dp
  {
    forall j :: 0 <= j < |g.starts| ==> dp[i, j] == Cell(g, i, j)
  }

  /** One turn of the loop over filter bytes, on a row still full of -1. */
  method FillRow(g: Grid, i: nat, dp: array2<int>)
    requires 0 < i < |g.filter| && |g.filter| <= dp.Length0 && |g.starts| <= dp.Length1
    requires RowHolds(g, i - 1, dp) && forall j :: 0 <= j < |g.starts| ==> dp[i, j] == -1
    modifies dp
    ensures RowHolds(g, i, dp)
    ensures forall r, c :: 0 <= r < dp.Length0 && 0 <= c < dp.Length1 && r != i ==> dp[r, c] == old(dp[r, c])
  {
    for j := 0 to |g.starts|
      invariant forall c :: 0 <= c < j ==> dp[i, c] == Cell(g, i, c)
      invariant forall c :: j <= c < |g.starts| ==> dp[i, c] == -1
      invariant forall r, c :: 0 <= r < dp.Length0 && 0 <= c < dp.Length1 && r != i ==> dp[r, c] == old(dp[r, c])
    {
      if g.starts[j] != g.filter[i] {
        continue;
      }
      for k := 0 to j
        invariant dp[i, j] == CellTo(g, i, j, k)
        invariant forall c :: 0 <= c < |g.starts| && c != j ==> dp[i, c] == if c < j then Cell(g, i, c) else -1
        invariant forall r, c :: 0 <= r < dp.Length0 && 0 <= c < dp.Length1 && r != i ==> dp[r, c] == old(dp[r, c])
      {
        if dp[i - 1, k] < 0 {
          continue;
        }
        var candidate := dp[i - 1, k] + if k + 1 == j then 1 else 0;
        if candidate > dp[i, j] {
          dp[i, j] := candidate;
        }
      }
    }
  }

  method FillTable(g: Grid) returns (best: int)
    requires 0 < |g.filter| <= FLEN_CAP && |g.starts| <= WS_CAP
    ensures best == BestTo(g, |g.starts|)
  {
    hide Cell;
    var dp := new int[FLEN_CAP, WS_CAP]((_, _) => -1);
    for j := 0 to |g.starts|
      invariant forall c :: 0 <= c < j ==> dp[0, c] == Cell(g, 0, c)
      invariant forall r, c :: 0 <= r < FLEN_CAP && 0 <= c < WS_CAP && (r > 0 || c >= j) ==> dp[r, c] == -1
    {
      FirstRow(g, j);
      if g.starts[j] == g.filter[0] {
        dp[0, j] := 0;
      }
    }
    for i := 1 to |g.filter|
      invariant RowHolds(g, i - 1, dp)
      invariant forall r, c :: i <= r < FLEN_CAP && 0 <= c < WS_CAP ==> dp[r, c] == -1
    {
      FillRow(g, i, dp);
    }
    best := 0;
    for j := 0 to |g.starts|
      invariant best == BestTo(g, j)
    {
      if dp[|g.filter| - 1, j] > best {
        best := dp[|g.filter| - 1, j];
      }
    }
  }

  lemma {:induction false} FirstRow(g: Grid, j: nat)
    requires |g.filter| > 0 && j < |g.starts|
    ensures Cell(g, 0, j) == if g.starts[j] == g.filter[0] then 0 else -1
  {
  }

  /** consecutive_word_start_pairs */
  method WordStartPairs(filter: seq<byte>, display: seq<byte>) returns (pairs: int)
    ensures pairs == PairScore(filter, display)
  {
    hide BestTo, WordStarts;
    if |filter| < 2 {
      return 0;
    }
    var ws := new nat[WS_BUFFER];
    var count := CollectStarts(display, ws);
    if count == 0 {
      return 0;
    }
    var n, m := if |filter| < FLEN_CAP then |filter| else FLEN_CAP, if count < WS_CAP then count else WS_CAP;
    var g := Grid(Lowered(filter[..n]), Letters(display, ws[..m]));
    assert ws[..m] == Capped(WordStarts(display, |display|), WS_CAP) by {
      assert ws[..m] == ws[..count][..m];
    }
    assert filter[..n] == Capped(filter, FLEN_CAP);
    pairs := FillTable(g);
  }
}
