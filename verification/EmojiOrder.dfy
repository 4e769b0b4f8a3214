/** The emoji list of a query: promotion of recent picks and the exchange sort
    (emoji_on_query_changed in src/emoji/emoji_provider.c). */
module EmojiOrder {
  import opened CStrings
  import opened EmojiRank
  import opened SeqFacts

  /** One element of the five parallel arrays. */
  datatype Row = Row(index: nat, score: int, mru: int, tier: nat, promoted: bool)

  /** An entry without a pick counts as oldest. */
  function Age(r: Row): int {
    if r.mru < 0 then INT_MAX else r.mru
  }

  /** `b` belongs strictly before `a`. */
  predicate Before(b: Row, a: Row) {
    if b.promoted != a.promoted then b.promoted
    else if a.promoted then Age(b) < Age(a) || (Age(b) == Age(a) && b.index < a.index)
    else b.score > a.score
         || (b.score == a.score && (Age(b) < Age(a) || (Age(b) == Age(a) && b.index < a.index)))
  }

  lemma {:induction false} BeforeIsOrder(a: Row, b: Row, c: Row)
    ensures Before(b, a) ==> !Before(a, b)
    ensures !Before(b, a) && !Before(c, b) ==> !Before(c, a)
  {
  }

  predicate Sorted(rows: seq<Row>) {
    forall i, j :: 0 <= i < j < |rows| ==> !Before(rows[j], rows[i])
  }

  // ---- What is sorted ----

  /** The rows of the first `n` table entries that match. */
  ghost function Matched(query: seq<byte>, table: seq<Entry>, mru: seq<int>, n: nat): (rows: seq<Row>)
    requires n <= |table| == |mru|
    ensures |rows| <= n
  {
    if n == 0 then []
    else
      var rank := RankOf(query, table[n - 1]);
      Matched(query, table, mru, n - 1)
      + if rank.total > 0 then [Row(n - 1, rank.total, mru[n - 1], rank.tier, false)] else []
  }

  datatype Top = Top(tier: int, score: int)

  /** The first row with the highest score. */
  function TopOf(rows: seq<Row>): Top {
    if rows == [] then Top(-1, -1)
    else
      var r, top := rows[|rows| - 1], TopOf(rows[..|rows| - 1]);
      if r.score > top.score then Top(r.tier, r.score) else top
  }

  predicate Structural(tier: int) {
    tier >= 1
  }

  function Promoted(rows: seq<Row>, topTier: int): (r: seq<Row>)
    ensures |r| == |rows|
    ensures forall k :: 0 <= k < |rows| ==>
              r[k] == rows[k].(promoted := Structural(rows[k].tier) == Structural(topTier) && rows[k].mru >= 0)
  {
    seq(|rows|, k requires 0 <= k < |rows| =>
      rows[k].(promoted := Structural(rows[k].tier) == Structural(topTier) && rows[k].mru >= 0))
  }

  /** What the list holds after a non-empty query. */
  ghost predicate IsListing(rows: seq<Row>, out: seq<Row>) {
    Sorted(out) && multiset(out) == multiset(Promoted(rows, TopOf(rows).tier))
  }

  // ---- Zones ----

  /** `b` would stand before `a` if nothing had ever been picked. */
  predicate PlainBefore(b: Row, a: Row) {
    b.score > a.score || (b.score == a.score && b.index < a.index)
  }

  /** A junk row stands above a structural row only because of past picks. */
  predicate LiftsJunk(out: seq<Row>) {
    exists i, j :: 0 <= i < j < |out| && !Structural(out[i].tier) && Structural(out[j].tier)
                   && PlainBefore(out[j], out[i])
  }

  /** Recency can lift the junk row `k` over the structural row `l`: as a promoted
      row when the best score is junk, as a tie-break otherwise. */
  predicate Lifts(rows: seq<Row>, k: nat, l: nat)
    requires k < |rows| && l < |rows|
  {
    && !Structural(rows[k].tier) && rows[k].mru >= 0 && Structural(rows[l].tier) && PlainBefore(rows[l], rows[k])
    && (!Structural(TopOf(rows).tier) || (rows[l].mru < 0 && rows[l].score == rows[k].score))
  }

  predicate HasRecentJunk(rows: seq<Row>) {
    exists k, l :: 0 <= k < |rows| && 0 <= l < |rows| && Lifts(rows, k, l)
  }

  lemma {:induction false} LiftedWasRecent(rows: seq<Row>, out: seq<Row>)
    requires IsListing(rows, out) && LiftsJunk(out)
    requires forall k :: 0 <= k < |rows| ==> rows[k].mru < INT_MAX
    ensures HasRecentJunk(rows)
  {
    hide TopOf;
    var ps := Promoted(rows, TopOf(rows).tier);
    SameMembers(ps, out);
    var i, j :| 0 <= i < j < |out| && !Structural(out[i].tier) && Structural(out[j].tier)
                && PlainBefore(out[j], out[i]);
    SortedPair(out, i, j);
    assert out[i] in ps && out[j] in ps;
    var k :| 0 <= k < |ps| && ps[k] == out[i];
    var l :| 0 <= l < |ps| && ps[l] == out[j];
    assert Lifts(rows, k, l);
  }

  lemma {:induction false} RecentIsLifted(rows: seq<Row>, out: seq<Row>)
    requires IsListing(rows, out) && HasRecentJunk(rows)
    requires forall k :: 0 <= k < |rows| ==> rows[k].mru < INT_MAX
    ensures LiftsJunk(out)
  {
    hide TopOf, Sorted;
    var ps := Promoted(rows, TopOf(rows).tier);
    SameMembers(ps, out);
    var k, l :| 0 <= k < |rows| && 0 <= l < |rows| && Lifts(rows, k, l);
    assert ps[k] in out && ps[l] in out;
    var i :| 0 <= i < |out| && out[i] == ps[k];
    var j :| 0 <= j < |out| && out[j] == ps[l];
    assert Before(out[i], out[j]);
    if j < i {
      SortedPair(out, j, i);
    }
  }

  lemma {:induction false} SortedPair(rows: seq<Row>, i: nat, j: nat)
    requires Sorted(rows) && i < j < |rows|
    ensures !Before(rows[j], rows[i])
  {
  }

  /** Criterion 9 of src/emoji/CONTEXT.md says recency never lifts a junk match
      above a structural one.  It does exactly when a recent junk pick belongs
      behind a structural match and either the best score is itself junk or the
      two tie and the structural match was never picked. */
  lemma {:induction false} LiftsJunkIff(rows: seq<Row>, out: seq<Row>)
    requires IsListing(rows, out) && forall k :: 0 <= k < |rows| ==> rows[k].mru < INT_MAX
    ensures LiftsJunk(out) <==> HasRecentJunk(rows)
  {
    hide TopOf, LiftsJunk, HasRecentJunk, IsListing;
    if LiftsJunk(out) {
      LiftedWasRecent(rows, out);
    }
    if HasRecentJunk(rows) {
      RecentIsLifted(rows, out);
    }
  }

  lemma {:induction false} TopStep(rows: seq<Row>, r: Row)
    ensures TopOf(rows + [r]) == if r.score > TopOf(rows).score then Top(r.tier, r.score) else TopOf(rows)
  {
    assert (rows + [r])[..|rows|] == rows;
  }

  lemma {:induction false} MatchedRow(query: seq<byte>, table: seq<Entry>, mru: seq<int>, n: nat)
    requires n <= |table| == |mru|
    ensures forall k :: 0 <= k < |Matched(query, table, mru, n)| ==>
              var r := Matched(query, table, mru, n)[k];
              && r.index < n && r.mru == mru[r.index] && r.score > 0
              && RankOf(query, table[r.index]) == Rank(r.score, r.tier)
  {
    hide RankOf;
    if n > 0 {
      MatchedRow(query, table, mru, n - 1);
    }
  }

  lemma {:induction false} TopIsHighest(rows: seq<Row>)
    requires rows != [] && forall k :: 0 <= k < |rows| ==> rows[k].score > 0
    ensures exists k :: 0 <= k < |rows| && rows[k].score == TopOf(rows).score && rows[k].tier == TopOf(rows).tier
    ensures forall k :: 0 <= k < |rows| ==> rows[k].score <= TopOf(rows).score
    decreases |rows|
  {
    var n := |rows| - 1;
    if n > 0 {
      TopIsHighest(rows[..n]);
      var k :| 0 <= k < n && rows[..n][k].score == TopOf(rows[..n]).score && rows[..n][k].tier == TopOf(rows[..n]).tier;
      forall q | 0 <= q < n ensures rows[q].score <= TopOf(rows[..n]).score {
        assert rows[..n][q] == rows[q];
      }
      assert rows[k].score == TopOf(rows[..n]).score && rows[k].tier == TopOf(rows[..n]).tier;
    }
    if n == 0 || rows[n].score > TopOf(rows[..n]).score {
      assert rows[n].score == TopOf(rows).score && rows[n].tier == TopOf(rows).tier;
    }
  }

  /** For a one-token query of at most 24 bytes the zones are kept apart whatever
      was picked before: every structural match stands above every junk match. */
  lemma {:induction false} ShortQueriesKeepZones(query: seq<byte>, table: seq<Entry>, mru: seq<int>, out: seq<Row>)
    requires |table| == |mru| && |Tokens(query)| == 1 && |Tokens(query)[0]| <= 24
    requires IsListing(Matched(query, table, mru, |table|), out)
    ensures forall i, j :: 0 <= i < j < |out| ==> !Structural(out[j].tier) || Structural(out[i].tier)
  {
    hide RankOf, Tokens, TopOf, Matched;
    var rows := Matched(query, table, mru, |table|);
    var ps := Promoted(rows, TopOf(rows).tier);
    MatchedRow(query, table, mru, |table|);
    SameMembers(ps, out);
    forall i, j | 0 <= i < j < |out| && Structural(out[j].tier) ensures Structural(out[i].tier) {
      assert !Before(out[j], out[i]);
      assert out[i] in ps && out[j] in ps;
      var k :| 0 <= k < |ps| && ps[k] == out[i];
      var l :| 0 <= l < |ps| && ps[l] == out[j];
      if !Structural(out[i].tier) {
        ZonesApart(query, table, rows[k], rows[l]);
        TopIsHighest(rows);
        var t :| 0 <= t < |rows| && rows[t].score == TopOf(rows).score && rows[t].tier == TopOf(rows).tier;
        if !Structural(rows[t].tier) {
          ZonesApart(query, table, rows[t], rows[l]);
        }
      }
    }
  }

  lemma {:induction false} ZonesApart(query: seq<byte>, table: seq<Entry>, junk: Row, structural: Row)
    requires |Tokens(query)| == 1 && |Tokens(query)[0]| <= 24 && junk.index < |table| && structural.index < |table|
    requires RankOf(query, table[junk.index]) == Rank(junk.score, junk.tier) && junk.score > 0
    requires RankOf(query, table[structural.index]) == Rank(structural.score, structural.tier) && structural.score > 0
    requires !Structural(junk.tier) && Structural(structural.tier)
    ensures junk.score < structural.score
  {
    hide RankOf, Contribution, TierOf, TokenTotal, Tokens;
    SingleToken(query, table[junk.index]);
    SingleToken(query, table[structural.index]);
    TierBand(Tokens(query)[0], table[junk.index]);
    TierBand(Tokens(query)[0], table[structural.index]);
  }

  // ---- The program ----

  /** The exchange sort over the parallel arrays. */
  method SortRows(rows: array<Row>, count: nat)
    requires count <= rows.Length
    modifies rows
    ensures multiset(rows[..count]) == multiset(old(rows[..count])) && Sorted(rows[..count])
  {
    if count == 0 {
      return;
    }
    for i := 0 to count - 1
      invariant multiset(rows[..count]) == multiset(old(rows[..count]))
      invariant forall a, b :: 0 <= a < i && a < b < count ==> !Before(rows[b], rows[a])
    {
      for j := i + 1 to count
        invariant multiset(rows[..count]) == multiset(old(rows[..count]))
        invariant forall a, b :: 0 <= a < i && a < b < count ==> !Before(rows[b], rows[a])
        invariant forall b :: i < b < j ==> !Before(rows[b], rows[i])
      {
        if ShouldSwap(rows[i], rows[j]) {
          ghost var a, b := rows[i], rows[j];
          forall k | i < k < j ensures !Before(rows[k], b) {
            BeforeIsOrder(b, a, rows[k]);
            BeforeIsOrder(a, b, a);
          }
          BeforeIsOrder(a, b, a);
          Exchange(rows, count, i, j);
        }
      }
    }
  }

  /** The nested swap test. */
  predicate ShouldSwap(ri: Row, rj: Row)
    ensures ShouldSwap(ri, rj) == Before(rj, ri)
  {
    if rj.promoted && !ri.promoted then true
    else if rj.promoted == ri.promoted then
      if ri.promoted then
        Age(rj) < Age(ri) || (Age(rj) == Age(ri) && rj.index < ri.index)
      else if rj.score > ri.score then true
      else rj.score == ri.score && (Age(rj) < Age(ri) || (Age(rj) == Age(ri) && rj.index < ri.index))
    else false
  }

  /** emoji_on_query_changed, given the normalised query and each entry's place in
      the history (-1 for none). */
  method OnQueryChanged(query: seq<byte>, normalised: seq<byte>, table: seq<Entry>, mru: seq<int>)
    returns (filtered: seq<nat>, ghost out: seq<Row>)
    requires |table| == |mru| && forall k :: 0 <= k < |table| ==> IsEntry(table[k])
    ensures query == [] ==> filtered == seq(|table|, k => k)
    ensures query != [] ==> IsListing(Matched(normalised, table, mru, |table|), out)
                            && filtered == Map((r: Row) => r.index, out)
  {
    hide RankOf, Before, TopOf;
    if query == [] {
      return seq(|table|, k => k), [];
    }
    var rows := new Row[|table|](_ => Row(0, 0, 0, 0, false));
    var count, top := CollectRows(normalised, table, mru, rows);
    Promote(rows, count, top);
    SortRows(rows, count);
    out := rows[..count];
    filtered := Map((r: Row) => r.index, rows[..count]);
  }

  method CollectRows(query: seq<byte>, table: seq<Entry>, mru: seq<int>, rows: array<Row>)
    returns (count: nat, topTier: int)
    requires |table| == |mru| == rows.Length && forall k :: 0 <= k < |table| ==> IsEntry(table[k])
    modifies rows
    ensures count <= rows.Length && rows[..count] == Matched(query, table, mru, |table|)
    ensures topTier == TopOf(rows[..count]).tier
  {
    hide RankOf;
    count, topTier := 0, -1;
    var topScore := -1;
    for i := 0 to |table|
      invariant count <= i && rows[..count] == Matched(query, table, mru, i)
      invariant Top(topTier, topScore) == TopOf(rows[..count])
    {
      var rank := RankEntry(query, table[i]);
      if rank.total > 0 {
        ghost var before := rows[..count];
        rows[count] := Row(i, rank.total, mru[i], rank.tier, false);
        if rank.total > topScore {
          topScore, topTier := rank.total, rank.tier;
        }
        count := count + 1;
        assert rows[..count][..count - 1] == before;
      }
    }
  }

  method Promote(rows: array<Row>, count: nat, topTier: int)
    requires count <= rows.Length
    modifies rows
    ensures rows[..count] == Promoted(old(rows[..count]), topTier)
  {
    for i := 0 to count
      invariant rows[..i] == Promoted(old(rows[..count]), topTier)[..i]
      invariant forall k :: i <= k < count ==> rows[k] == old(rows[k])
    {
      var same := (rows[i].tier >= 1) == (topTier >= 1);
      rows[i] := rows[i].(promoted := same && rows[i].mru >= 0);
    }
  }
}
