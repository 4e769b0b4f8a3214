/** The emoji list of a query in plain terms: which entries it holds, and which of
    two stands first (emoji_on_query_changed in src/emoji/emoji_provider.c). */
module EmojiListing {
  import opened CStrings
  import opened EmojiOrder
  import opened EmojiRank
  import opened SeqFacts

  ghost function Total(query: seq<byte>, e: Entry): int {
    RankOf(query, e).total
  }

  /** Tier 1 and above. */
  ghost predicate IsStructural(query: seq<byte>, e: Entry) {
    RankOf(query, e).tier >= 1
  }

  /** The first of the entries with the highest total. */
  ghost predicate IsBest(query: seq<byte>, table: seq<Entry>, t: nat) {
    && t < |table| && Total(query, table[t]) > 0
    && (forall i :: 0 <= i < |table| ==> Total(query, table[i]) <= Total(query, table[t]))
    && (forall i :: 0 <= i < t ==> Total(query, table[i]) < Total(query, table[t]))
  }

  /** Picked, and in the zone of the best entry. */
  ghost predicate Recent(query: seq<byte>, table: seq<Entry>, mru: seq<int>, best: nat, i: nat)
    requires i < |table| == |mru| && best < |table|
  {
    mru[i] >= 0 && (IsStructural(query, table[i]) <==> IsStructural(query, table[best]))
  }

  /** Picked later: nearer to the front of the history, in which -1 means never. */
  predicate PickedLater(a: int, b: int) {
    a >= 0 && (b < 0 || a < b)
  }

  // ---- The best entry ----

  lemma {:induction false} MatchedStep(query: seq<byte>, table: seq<Entry>, mru: seq<int>, n: nat)
    requires 0 < n <= |table| == |mru|
    ensures var rank := RankOf(query, table[n - 1]);
            Matched(query, table, mru, n) == Matched(query, table, mru, n - 1)
              + if rank.total > 0 then [Row(n - 1, rank.total, mru[n - 1], rank.tier, false)] else []
  {
    hide RankOf;
  }

  lemma {:induction false} TopBelow(query: seq<byte>, table: seq<Entry>, mru: seq<int>, n: nat, bound: int)
    requires n <= |table| == |mru| && bound > 0 && forall i :: 0 <= i < n ==> Total(query, table[i]) < bound
    ensures TopOf(Matched(query, table, mru, n)).score < bound
  {
    hide RankOf, Matched, TopOf;
    if n == 0 {
      NothingMatched(query, table, mru);
    } else {
      TopBelow(query, table, mru, n - 1, bound);
      MatchedStep(query, table, mru, n);
      var rank := RankOf(query, table[n - 1]);
      assert Total(query, table[n - 1]) < bound;
      TopStep(Matched(query, table, mru, n - 1), Row(n - 1, rank.total, mru[n - 1], rank.tier, false));
      assert Matched(query, table, mru, n - 1) + [] == Matched(query, table, mru, n - 1);
    }
  }

  lemma {:induction false} NothingMatched(query: seq<byte>, table: seq<Entry>, mru: seq<int>)
    requires |table| == |mru|
    ensures Matched(query, table, mru, 0) == [] && TopOf([]) == Top(-1, -1)
  {
  }

  lemma {:induction false} TopIsBest(query: seq<byte>, table: seq<Entry>, mru: seq<int>, t: nat, n: nat)
    requires |table| == |mru| && IsBest(query, table, t) && t < n <= |table|
    ensures TopOf(Matched(query, table, mru, n)) == Top(RankOf(query, table[t]).tier, Total(query, table[t]))
    decreases n
  {
    hide RankOf, Matched, TopOf;
    MatchedStep(query, table, mru, n);
    var rank, front := RankOf(query, table[n - 1]), Matched(query, table, mru, n - 1);
    TopStep(front, Row(n - 1, rank.total, mru[n - 1], rank.tier, false));
    if t == n - 1 {
      TopBelow(query, table, mru, n - 1, Total(query, table[t]));
    } else {
      TopIsBest(query, table, mru, t, n - 1);
      assert Total(query, table[n - 1]) <= Total(query, table[t]);
      assert front + [] == front;
    }
  }

  // ---- The rows ----

  /** The row stands for its entry. */
  ghost predicate StandsFor(query: seq<byte>, table: seq<Entry>, mru: seq<int>, r: Row)
    requires |table| == |mru|
  {
    && r.index < |table| && r.mru == mru[r.index] && r.score > 0
    && RankOf(query, table[r.index]) == Rank(r.score, r.tier)
  }

  lemma {:induction false} IndicesAscend(query: seq<byte>, table: seq<Entry>, mru: seq<int>, n: nat)
    requires n <= |table| == |mru|
    ensures var rows := Matched(query, table, mru, n); forall k :: 0 <= k < |rows| ==> rows[k].index < n
    ensures var rows := Matched(query, table, mru, n);
            forall a, b | 0 <= a < b < |rows| :: rows[a].index < rows[b].index
  {
    hide RankOf, Matched;
    if n == 0 {
      NothingMatched(query, table, mru);
    } else {
      IndicesAscend(query, table, mru, n - 1);
      MatchedStep(query, table, mru, n);
    }
  }

  lemma {:induction false} MatchedHas(query: seq<byte>, table: seq<Entry>, mru: seq<int>, n: nat, i: nat)
    requires i < n <= |table| == |mru| && Total(query, table[i]) > 0
    ensures exists k :: 0 <= k < |Matched(query, table, mru, n)| && Matched(query, table, mru, n)[k].index == i
    decreases n
  {
    hide RankOf;
    MatchedStep(query, table, mru, n);
    var rows, front := Matched(query, table, mru, n), Matched(query, table, mru, n - 1);
    if i < n - 1 {
      MatchedHas(query, table, mru, n - 1, i);
      var k :| 0 <= k < |front| && front[k].index == i;
      assert rows[k].index == i;
    } else {
      assert rows[|rows| - 1].index == i;
    }
  }

  ghost function Listing(query: seq<byte>, table: seq<Entry>, mru: seq<int>): seq<Row>
    requires |table| == |mru|
  {
    Matched(query, table, mru, |table|)
  }

  /** A listed row stands for its entry, and is promoted if the entry is recent. */
  lemma {:induction false} ListedRow(query: seq<byte>, table: seq<Entry>, mru: seq<int>, out: seq<Row>, best: nat,
                                     a: nat)
    requires |table| == |mru| && IsListing(Listing(query, table, mru), out) && IsBest(query, table, best) && a < |out|
    ensures StandsFor(query, table, mru, out[a])
    ensures out[a].promoted <==> Recent(query, table, mru, best, out[a].index)
  {
    hide RankOf, TopOf, Matched, Sorted;
    var rows := Listing(query, table, mru);
    var ps := Promoted(rows, TopOf(rows).tier);
    SameMembers(ps, out);
    assert out[a] in ps;
    var k :| 0 <= k < |ps| && ps[k] == out[a];
    MatchedRow(query, table, mru, |table|);
    TopIsBest(query, table, mru, best, |table|);
  }

  lemma {:induction false} ListedApart(query: seq<byte>, table: seq<Entry>, mru: seq<int>, out: seq<Row>)
    requires |table| == |mru| && IsListing(Listing(query, table, mru), out)
    ensures forall a, b :: 0 <= a < b < |out| ==> out[a].index != out[b].index
  {
    hide RankOf, TopOf, Matched, Sorted;
    var rows := Listing(query, table, mru);
    var ps, index := Promoted(rows, TopOf(rows).tier), (r: Row) => r.index;
    IndicesAscend(query, table, mru, |table|);
    forall a, b | 0 <= a < b < |ps| ensures Map(index, ps)[a] != Map(index, ps)[b] {
      assert Matched(query, table, mru, |table|)[a].index < Matched(query, table, mru, |table|)[b].index;
    }
    MapMultiset(index, ps, out);
    DistinctPermutation(Map(index, ps), Map(index, out));
    forall a, b | 0 <= a < b < |out| ensures out[a].index != out[b].index {
      assert Map(index, out)[a] != Map(index, out)[b];
    }
  }

  // ---- Main results ----

  /** Every entry that matches is listed once, and no other. */
  lemma {:induction false} ListedIffMatches(query: seq<byte>, table: seq<Entry>, mru: seq<int>, out: seq<Row>, i: nat)
    requires |table| == |mru| && IsListing(Listing(query, table, mru), out) && i < |table|
    ensures Total(query, table[i]) > 0 <==> exists a :: 0 <= a < |out| && out[a].index == i
    ensures forall a, b :: 0 <= a < b < |out| ==> out[a].index != out[b].index
  {
    hide RankOf, TopOf, Matched, Sorted;
    ListedApart(query, table, mru, out);
    var rows := Listing(query, table, mru);
    var ps := Promoted(rows, TopOf(rows).tier);
    SameMembers(ps, out);
    MatchedRow(query, table, mru, |table|);
    if Total(query, table[i]) > 0 {
      MatchedHas(query, table, mru, |table|, i);
      var k :| 0 <= k < |rows| && rows[k].index == i;
      assert ps[k] in out;
      var a :| 0 <= a < |out| && out[a] == ps[k];
    }
    if a :| 0 <= a < |out| && out[a].index == i {
      assert out[a] in ps;
      var k :| 0 <= k < |ps| && ps[k] == out[a];
      assert rows[k].index == i;
    }
  }

  /** Recent entries of the best one's zone come first, the last pick foremost.  The
      others follow by total, then the later pick, then the table. */
  lemma {:induction false} ListInOrder(query: seq<byte>, table: seq<Entry>, mru: seq<int>, out: seq<Row>, best: nat,
                                       a: nat, b: nat)
    requires |table| == |mru| && forall k :: 0 <= k < |mru| ==> mru[k] < 0x7fff_ffff
    requires IsListing(Listing(query, table, mru), out) && IsBest(query, table, best) && a < b < |out|
    ensures out[a].index < |table| && out[b].index < |table|
    ensures var i, j := out[a].index, out[b].index;
            var upper, lower := Total(query, table[i]), Total(query, table[j]);
            if Recent(query, table, mru, best, j) then
              && Recent(query, table, mru, best, i)
              && (mru[i] < mru[j] || (mru[i] == mru[j] && i < j))
            else if Recent(query, table, mru, best, i) then true
            else
              && upper >= lower
              && (upper == lower ==> !PickedLater(mru[j], mru[i]))
              && (upper == lower && !PickedLater(mru[i], mru[j]) ==> i < j)
  {
    hide RankOf, TopOf, Matched, IsListing, IsStructural, IsBest;
    ListedRow(query, table, mru, out, best, a);
    ListedRow(query, table, mru, out, best, b);
    ListedApart(query, table, mru, out);
    ListingSorted(query, table, mru, out);
    SortedPair(out, a, b);
  }

  lemma {:induction false} ListingSorted(query: seq<byte>, table: seq<Entry>, mru: seq<int>, out: seq<Row>)
    requires |table| == |mru| && IsListing(Listing(query, table, mru), out)
    ensures Sorted(out)
  {
    hide Matched, TopOf, Sorted;
  }
}
