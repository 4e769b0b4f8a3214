/** files_filter of src/files/files_search.c: the fifty best hits, kept in a
    fixed array by replacing the worst, then sorted by exchanges. */
module FilesFilter {
  import opened CStrings
  import opened Scores
  import opened SeqFacts
  import Fzf

  const FILES_MAX_VISIBLE: nat := 50

  datatype Hit = Hit(index: nat, score: Score, pathLength: nat)

  // ---- The two orders ----

  /** Higher score first, then the shorter path. */
  predicate Better(a: Hit, b: Hit) {
    b.score.Lt(a.score) || (a.score == b.score && a.pathLength < b.pathLength)
  }

  /** strcmp(a, b) < 0 */
  predicate StrLess(a: seq<byte>, b: seq<byte>) {
    if b == [] then false
    else if a == [] then true
    else a[0] < b[0] || (a[0] == b[0] && StrLess(a[1..], b[1..]))
  }

  /** The order of the visible list: `Better`, then the path itself. */
  predicate Before(paths: seq<seq<byte>>, a: Hit, b: Hit)
    requires a.index < |paths| && b.index < |paths|
  {
    Better(a, b) || (a.score == b.score && a.pathLength == b.pathLength && StrLess(paths[a.index], paths[b.index]))
  }

  lemma {:induction false} StrLessAsymmetric(a: seq<byte>, b: seq<byte>)
    ensures !(StrLess(a, b) && StrLess(b, a))
  {
    if a != [] && b != [] {
      StrLessAsymmetric(a[1..], b[1..]);
    }
  }

  lemma {:induction false} StrLessTransitive(a: seq<byte>, b: seq<byte>, c: seq<byte>)
    requires StrLess(a, b) && StrLess(b, c)
    ensures StrLess(a, c)
  {
    if a != [] && b != [] && c != [] && a[0] == b[0] == c[0] {
      StrLessTransitive(a[1..], b[1..], c[1..]);
    }
  }

  lemma {:induction false} BeforeIsOrder(paths: seq<seq<byte>>, a: Hit, b: Hit, c: Hit)
    requires a.index < |paths| && b.index < |paths| && c.index < |paths|
    ensures Before(paths, a, b) ==> !Before(paths, b, a)
    ensures Before(paths, a, b) && Before(paths, b, c) ==> Before(paths, a, c)
  {
    StrLessAsymmetric(paths[a.index], paths[b.index]);
    if StrLess(paths[a.index], paths[b.index]) && StrLess(paths[b.index], paths[c.index]) {
      StrLessTransitive(paths[a.index], paths[b.index], paths[c.index]);
    }
  }

  // ---- What the filter must produce ----

  ghost predicate Matches(query: seq<byte>, path: seq<byte>) {
    Embeddable(Fzf.SameSigned, query, path)
  }

  ghost function HitOf(query: seq<byte>, paths: seq<seq<byte>>, i: nat): Hit
    requires i < |paths|
  {
    Hit(i, Fzf.FuzzyScore(query, paths[i]), |paths[i]|)
  }

  /** Number of matching paths among the first `n`. */
  ghost function MatchCount(query: seq<byte>, paths: seq<seq<byte>>, n: nat): nat
    requires n <= |paths|
  {
    if n == 0 then 0 else MatchCount(query, paths, n - 1) + if Matches(query, paths[n - 1]) then 1 else 0
  }

  function VisibleCount(matches: nat): nat {
    if matches < FILES_MAX_VISIBLE then matches else FILES_MAX_VISIBLE
  }

  /** `out` lists distinct matching paths, as many as fit; no matching path left
      out is better than a listed one; and the list is in display order. */
  ghost predicate IsTopHits(query: seq<byte>, paths: seq<seq<byte>>, out: seq<nat>) {
    && |out| == VisibleCount(MatchCount(query, paths, |paths|))
    && (forall a, b :: 0 <= a < b < |out| ==> out[a] != out[b])
    && (forall k :: 0 <= k < |out| ==> out[k] < |paths| && Matches(query, paths[out[k]]))
    && (forall i, k :: 0 <= i < |paths| && Matches(query, paths[i]) && i !in out && 0 <= k < |out| ==>
          !Better(HitOf(query, paths, i), HitOf(query, paths, out[k])))
    && (forall a, b :: 0 <= a < b < |out| ==>
          !Before(paths, HitOf(query, paths, out[b]), HitOf(query, paths, out[a])))
  }

  /** The visible rows for a cache and a query. */
  ghost predicate IsFilterOutcome(cacheValid: bool, query: seq<byte>, paths: seq<seq<byte>>, out: seq<nat>) {
    if !cacheValid || query == [] then out == [] else IsTopHits(query, paths, out)
  }

  // ---- Keeping the best ----

  /** `kept` are the best hits among the first `n` paths. */
  ghost predicate KeepsBest(query: seq<byte>, paths: seq<seq<byte>>, n: nat, kept: seq<Hit>)
    requires n <= |paths|
  {
    && |kept| == VisibleCount(MatchCount(query, paths, n))
    && (forall a, b :: 0 <= a < b < |kept| ==> kept[a].index != kept[b].index)
    && (forall k :: 0 <= k < |kept| ==> IsHit(query, paths, n, kept[k]))
    && (forall i :: 0 <= i < n && Matches(query, paths[i]) && !HasIndex(kept, i) ==>
          |kept| == FILES_MAX_VISIBLE && BeatsNone(HitOf(query, paths, i), kept))
  }

  ghost predicate IsHit(query: seq<byte>, paths: seq<seq<byte>>, n: nat, h: Hit)
    requires n <= |paths|
  {
    h.index < n && h == HitOf(query, paths, h.index) && Matches(query, paths[h.index])
  }

  predicate HasIndex(hits: seq<Hit>, i: nat) {
    exists k :: 0 <= k < |hits| && hits[k].index == i
  }

  predicate BeatsNone(h: Hit, hits: seq<Hit>) {
    forall k :: 0 <= k < |hits| ==> !Better(h, hits[k])
  }

  lemma {:induction false} SkipPath(query: seq<byte>, paths: seq<seq<byte>>, n: nat, kept: seq<Hit>)
    requires n < |paths| && KeepsBest(query, paths, n, kept) && !Matches(query, paths[n])
    ensures KeepsBest(query, paths, n + 1, kept)
  {
    forall k | 0 <= k < |kept| ensures IsHit(query, paths, n + 1, kept[k]) {
      assert IsHit(query, paths, n, kept[k]);
    }
  }

  lemma {:induction false} AddHit(query: seq<byte>, paths: seq<seq<byte>>, n: nat, kept: seq<Hit>, h: Hit)
    requires n < |paths| && KeepsBest(query, paths, n, kept) && Matches(query, paths[n]) && h == HitOf(query, paths, n)
    requires |kept| < FILES_MAX_VISIBLE
    ensures KeepsBest(query, paths, n + 1, kept + [h])
  {
    var more := kept + [h];
    forall k | 0 <= k < |more| ensures IsHit(query, paths, n + 1, more[k]) {
      assert k < |kept| ==> IsHit(query, paths, n, kept[k]);
    }
    forall a, b | 0 <= a < b < |more| ensures more[a].index != more[b].index {
      assert IsHit(query, paths, n, kept[a]);
    }
    forall i | 0 <= i < n + 1 && Matches(query, paths[i]) ensures HasIndex(more, i) {
      if i == n {
        assert more[|kept|].index == i;
      } else {
        var k :| 0 <= k < |kept| && kept[k].index == i;
        assert more[k].index == i;
      }
    }
  }

  lemma {:induction false} DropHit(query: seq<byte>, paths: seq<seq<byte>>, n: nat, kept: seq<Hit>, h: Hit, worst: nat)
    requires n < |paths| && KeepsBest(query, paths, n, kept) && Matches(query, paths[n]) && h == HitOf(query, paths, n)
    requires |kept| == FILES_MAX_VISIBLE && worst < |kept| && BeatsNone(kept[worst], kept) && !Better(h, kept[worst])
    ensures KeepsBest(query, paths, n + 1, kept)
  {
    forall k | 0 <= k < |kept| ensures IsHit(query, paths, n + 1, kept[k]) && !Better(h, kept[k]) {
      assert IsHit(query, paths, n, kept[k]);
      assert !Better(kept[worst], kept[k]);
    }
    assert BeatsNone(h, kept);
  }

  lemma {:induction false} BetterIsOrder(d: Hit, h: Hit, worst: Hit)
    requires Better(h, worst) && !Better(d, worst)
    ensures !Better(d, h)
  {
  }

  /** Replacing a hit loses no other index. */
  lemma {:induction false} StillIndexed(kept: seq<Hit>, worst: nat, h: Hit, i: nat)
    requires worst < |kept| && HasIndex(kept, i)
    ensures HasIndex(kept[worst := h], i) || kept[worst].index == i
  {
    var k :| 0 <= k < |kept| && kept[k].index == i;
    if k != worst {
      assert kept[worst := h][k].index == i;
    }
  }

  lemma {:induction false} ReplaceHit(query: seq<byte>, paths: seq<seq<byte>>, n: nat, kept: seq<Hit>, h: Hit,
                                      worst: nat)
    requires n < |paths| && KeepsBest(query, paths, n, kept) && Matches(query, paths[n]) && h == HitOf(query, paths, n)
    requires |kept| == FILES_MAX_VISIBLE && worst < |kept| && BeatsNone(kept[worst], kept) && Better(h, kept[worst])
    ensures KeepsBest(query, paths, n + 1, kept[worst := h])
  {
    hide Better;
    var now := kept[worst := h];
    forall k | 0 <= k < |now| ensures IsHit(query, paths, n + 1, now[k]) && (k != worst ==> now[k].index < n) {
      assert IsHit(query, paths, n, kept[k]);
    }
    forall i | 0 <= i < n + 1 && Matches(query, paths[i]) && !HasIndex(now, i)
      ensures BeatsNone(HitOf(query, paths, i), now)
    {
      assert now[worst].index == n;
      assert i < n;
      var d := HitOf(query, paths, i);
      if HasIndex(kept, i) {
        StillIndexed(kept, worst, h, i);
        assert IsHit(query, paths, n, kept[worst]);
        assert d == kept[worst];
      }
      assert BeatsNone(d, kept);
      forall k | 0 <= k < |now| ensures !Better(d, now[k]) {
        assert !Better(d, kept[k]) && !Better(d, kept[worst]);
        BetterIsOrder(d, h, kept[worst]);
      }
    }
  }

  // ---- The program ----

  /** Index of a hit that beats no other one. */
  method FindWorst(hits: array<Hit>) returns (worst: nat)
    requires hits.Length == FILES_MAX_VISIBLE
    ensures worst < FILES_MAX_VISIBLE && BeatsNone(hits[worst], hits[..])
  {
    worst := 0;
    for j := 1 to FILES_MAX_VISIBLE
      invariant worst < j
      invariant forall k :: 0 <= k < j ==> !Better(hits[worst], hits[k])
    {
      if hits[j].score.Lt(hits[worst].score)
         || (hits[j].score == hits[worst].score && hits[j].pathLength > hits[worst].pathLength) {
        worst := j;
      }
    }
  }

  method CollectHits(query: seq<byte>, paths: seq<seq<byte>>, hits: array<Hit>) returns (count: nat)
    requires IsCString(query) && (forall k :: 0 <= k < |paths| ==> IsCString(paths[k]))
        && hits.Length == FILES_MAX_VISIBLE
    modifies hits
    ensures count <= FILES_MAX_VISIBLE && KeepsBest(query, paths, |paths|, hits[..count])
  {
    hide Better, KeepsBest, BeatsNone;
    count := 0;
    KeepsNone(query, paths);
    assert hits[..0] == [];
    for i := 0 to |paths|
      invariant count <= FILES_MAX_VISIBLE && KeepsBest(query, paths, i, hits[..count])
    {
      ghost var kept := hits[..count];
      var found := Fzf.HasMatch(query, paths[i]);
      if !found {
        SkipPath(query, paths, i, kept);
        continue;
      }
      var score := Fzf.FuzzyMatch(query, paths[i]);
      var hit := Hit(i, score, |paths[i]|);
      var insertAt := count;
      if count < FILES_MAX_VISIBLE {
        AddHit(query, paths, i, kept, hit);
        count := count + 1;
      } else {
        var worst := FindWorst(hits);
        assert kept == hits[..];
        if !IsBetter(hit, hits[worst]) {
          DropHit(query, paths, i, kept, hit, worst);
          continue;
        }
        ReplaceHit(query, paths, i, kept, hit, worst);
        insertAt := worst;
      }
      hits[insertAt] := hit;
      assert hits[..count] == if |kept| < FILES_MAX_VISIBLE then kept + [hit] else kept[insertAt := hit];
    }
  }

  /** The negated guard of the replacement branch. */
  predicate IsBetter(a: Hit, b: Hit)
    ensures IsBetter(a, b) == Better(a, b)
  {
    !(a.score.Lt(b.score) || (a.score == b.score && a.pathLength >= b.pathLength))
  }

  lemma {:induction false} KeepsNone(query: seq<byte>, paths: seq<seq<byte>>)
    ensures KeepsBest(query, paths, 0, [])
  {
  }

  /** Hits that index into the paths. */
  predicate Indexed(paths: seq<seq<byte>>, hits: seq<Hit>) {
    forall k :: 0 <= k < |hits| ==> hits[k].index < |paths|
  }

  /** The exchange sort over hits[..count]. */
  method SortHits(paths: seq<seq<byte>>, hits: array<Hit>, count: nat)
    requires count <= hits.Length && Indexed(paths, hits[..count])
    modifies hits
    ensures Indexed(paths, hits[..count]) && multiset(hits[..count]) == multiset(old(hits[..count]))
    ensures forall a, b :: 0 <= a < b < count ==> !Before(paths, hits[b], hits[a])
  {
    hide Before;
    if count <= 1 {
      return;
    }
    for i := 0 to count - 1
      invariant Indexed(paths, hits[..count]) && multiset(hits[..count]) == multiset(old(hits[..count]))
      invariant forall a, b :: 0 <= a < i && a < b < count ==> !Before(paths, hits[b], hits[a])
    {
      for j := i + 1 to count
        invariant Indexed(paths, hits[..count]) && multiset(hits[..count]) == multiset(old(hits[..count]))
        invariant forall a, b :: 0 <= a < i && a < b < count ==> !Before(paths, hits[b], hits[a])
        invariant forall b :: i < b < j ==> !Before(paths, hits[b], hits[i])
      {
        assert hits[..count][i] == hits[i] && hits[..count][j] == hits[j];
        if ShouldSwap(paths, hits[i], hits[j]) {
          ghost var a, b := hits[i], hits[j];
          forall k | i < k < j ensures !Before(paths, hits[k], b) {
            assert hits[..count][k] == hits[k];
            BeforeIsOrder(paths, hits[k], b, a);
          }
          BeforeIsOrder(paths, b, a, a);
          Exchange(hits, count, i, j);
        }
      }
    }
  }

  /** The three-way swap test. */
  predicate ShouldSwap(paths: seq<seq<byte>>, hi: Hit, hj: Hit)
    requires hi.index < |paths| && hj.index < |paths|
    ensures ShouldSwap(paths, hi, hj) == Before(paths, hj, hi)
  {
    || hi.score.Lt(hj.score)
    || (hj.score == hi.score && hj.pathLength < hi.pathLength)
    || (hj.score == hi.score && hj.pathLength == hi.pathLength && StrLess(paths[hj.index], paths[hi.index]))
  }

  /** files_search.c:234-292 */
  method Filter(cacheValid: bool, query: seq<byte>, paths: seq<seq<byte>>) returns (filtered: seq<nat>)
    requires IsCString(query) && forall k :: 0 <= k < |paths| ==> IsCString(paths[k])
    ensures IsFilterOutcome(cacheValid, query, paths, filtered)
  {
    hide KeepsBest, IsTopHits, Before;
    if !cacheValid || |query| == 0 {
      return [];
    }
    var hits := new Hit[FILES_MAX_VISIBLE](_ => Hit(0, MinusInf, 0));
    var count := CollectHits(query, paths, hits);
    ghost var kept := hits[..count];
    KeptAreIndexed(query, paths, kept);
    SortHits(paths, hits, count);
    filtered := Map((h: Hit) => h.index, hits[..count]);
    SortedKeepIsTop(query, paths, kept, hits[..count]);
  }

  lemma {:induction false} KeptAreIndexed(query: seq<byte>, paths: seq<seq<byte>>, kept: seq<Hit>)
    requires KeepsBest(query, paths, |paths|, kept)
    ensures Indexed(paths, kept)
  {
    forall k | 0 <= k < |kept| ensures kept[k].index < |paths| {
      assert IsHit(query, paths, |paths|, kept[k]);
    }
  }

  lemma {:induction false} KeepsBestPermuted(query: seq<byte>, paths: seq<seq<byte>>, kept: seq<Hit>, hits: seq<Hit>)
    requires KeepsBest(query, paths, |paths|, kept) && multiset(hits) == multiset(kept)
    ensures KeepsBest(query, paths, |paths|, hits)
  {
    SameMembers(kept, hits);
    var index := (h: Hit) => h.index;
    MapMultiset(index, kept, hits);
    DistinctPermutation(Map(index, kept), Map(index, hits));
    forall a, b | 0 <= a < b < |hits| ensures hits[a].index != hits[b].index {
      assert Map(index, hits)[a] != Map(index, hits)[b];
    }
    forall k | 0 <= k < |hits| ensures IsHit(query, paths, |paths|, hits[k]) {
      assert hits[k] in kept;
    }
    forall i | 0 <= i < |paths| && Matches(query, paths[i]) && !HasIndex(hits, i)
      ensures |hits| == FILES_MAX_VISIBLE && BeatsNone(HitOf(query, paths, i), hits)
    {
      forall k | 0 <= k < |kept| ensures kept[k].index != i {
        assert kept[k] in hits;
        var q :| 0 <= q < |hits| && hits[q] == kept[k];
      }
      forall k | 0 <= k < |hits| ensures !Better(HitOf(query, paths, i), hits[k]) {
        assert hits[k] in kept;
      }
    }
  }

  lemma {:induction false} SortedKeepIsTop(query: seq<byte>, paths: seq<seq<byte>>, kept: seq<Hit>, hits: seq<Hit>)
    requires KeepsBest(query, paths, |paths|, kept) && multiset(hits) == multiset(kept) && Indexed(paths, hits)
    requires forall a, b :: 0 <= a < b < |hits| ==> !Before(paths, hits[b], hits[a])
    ensures IsTopHits(query, paths, Map((h: Hit) => h.index, hits))
  {
    KeepsBestPermuted(query, paths, kept, hits);
    var out := Map((h: Hit) => h.index, hits);
    forall k | 0 <= k < |out| ensures out[k] < |paths| && hits[k] == HitOf(query, paths, out[k])
        && Matches(query, paths[out[k]]) {
      assert IsHit(query, paths, |paths|, hits[k]);
    }
    forall i, k | 0 <= i < |paths| && Matches(query, paths[i]) && i !in out && 0 <= k < |out|
      ensures !Better(HitOf(query, paths, i), HitOf(query, paths, out[k]))
    {
      forall q | 0 <= q < |hits| ensures hits[q].index != i {
        assert out[q] in out;
      }
      assert BeatsNone(HitOf(query, paths, i), hits);
    }
  }
}
