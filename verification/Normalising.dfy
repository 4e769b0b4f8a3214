/** match_entry_config.c:44-73.  What loading does to the ids, told from the
    stored ids alone, and how far the next id can grow. */
module Normalising {
  import opened MatchRegistry

  function StoredIds(es: seq<MatchEntry>): (ids: seq<int>)
    ensures |ids| == |es| && forall k :: 0 <= k < |es| ==> ids[k] == es[k].matchId
  {
    seq(|es|, k requires 0 <= k < |es| => es[k].matchId)
  }

  /** The next id when the first `n` entries have been seen. */
  ghost function Counter(ids: seq<int>, next: int, n: nat): int
    requires n <= |ids|
    decreases n, 0
  {
    if n == 0 then FreshId(next)
    else
      var c := Counter(ids, next, n - 1);
      if Repaired(ids, next, n - 1) then c + 1 else if ids[n - 1] >= c then ids[n - 1] + 1 else c
  }

  /** Stored without an id, or with one already taken. */
  ghost predicate Repaired(ids: seq<int>, next: int, k: nat)
    requires k < |ids|
    decreases k, 2
  {
    ids[k] <= 0 || Taken(ids, next, k, ids[k])
  }

  /** One of the first `n` entries is stored with `id`, or was repaired by it. */
  ghost predicate Taken(ids: seq<int>, next: int, n: nat, id: int)
    requires n <= |ids|
    decreases n, 1
  {
    n > 0 && (ids[n - 1] == id || Taken(ids, next, n - 1, id)
              || (Repaired(ids, next, n - 1) && Counter(ids, next, n - 1) == id))
  }

  ghost predicate LoadedAs(r: Registry, ids: seq<int>, next: int) {
    && |r.entries| <= |ids| && r.nextId == Counter(ids, next, |r.entries|)
    && forall id :: id > 0 ==> (HasId(r.entries, id) <==> Taken(ids, next, |r.entries|, id))
  }

  lemma {:induction false} HasIdSnoc(es: seq<MatchEntry>, e: MatchEntry, id: int)
    ensures HasId(es + [e], id) <==> HasId(es, id) || e.matchId == id
  {
    assert (es + [e])[|es|] == e;
    if HasId(es, id) {
      var k :| 0 <= k < |es| && es[k].matchId == id;
      assert (es + [e])[k].matchId == id;
    }
  }

  lemma {:induction false} TakenStep(ids: seq<int>, next: int, n: nat, id: int)
    requires n < |ids|
    ensures Taken(ids, next, n + 1, id) <==>
              ids[n] == id || Taken(ids, next, n, id) || (Repaired(ids, next, n) && Counter(ids, next, n) == id)
  {
  }

  lemma {:induction false} LoadedStep(done: Registry, ids: seq<int>, next: int, e: MatchEntry)
    requires LoadedAs(done, ids, next) && |done.entries| < |ids| && e.matchId == ids[|done.entries|]
    ensures LoadedAs(if e.matchId <= 0 || HasId(done.entries, e.matchId) then
                       Registry(done.entries + [e.(matchId := done.nextId)], done.nextId + 1)
                     else
                       Registry(done.entries + [e], if e.matchId >= done.nextId then e.matchId + 1 else done.nextId),
                     ids, next)
  {
    hide HasId;
    var n := |done.entries|;
    assert Repaired(ids, next, n) <==> e.matchId <= 0 || HasId(done.entries, e.matchId);
    var loaded := if Repaired(ids, next, n) then e.(matchId := done.nextId) else e;
    forall id | id > 0 ensures HasId(done.entries + [loaded], id) <==> Taken(ids, next, n + 1, id) {
      HasIdSnoc(done.entries, loaded, id);
      TakenStep(ids, next, n, id);
    }
  }

  lemma {:induction false} NormalisedIsLoaded(r: Registry, n: nat)
    requires n <= |r.entries|
    ensures LoadedAs(Normalised(Registry(r.entries[..n], r.nextId)), StoredIds(r.entries), r.nextId)
    decreases n
  {
    hide Normalised;
    if n == 0 {
      assert r.entries[..0] == [];
      NormaliseNothing(r.nextId);
    } else {
      hide LoadedAs, HasId;
      NormalisedIsLoaded(r, n - 1);
      NormaliseStep(r, n - 1);
      var done := Normalised(Registry(r.entries[..n - 1], r.nextId));
      LoadedStep(done, StoredIds(r.entries), r.nextId, r.entries[n - 1]);
    }
  }

  lemma {:induction false} NormalisedFront(r: Registry, n: nat)
    requires n <= |r.entries|
    ensures Normalised(r).entries[..n] == Normalised(Registry(r.entries[..n], r.nextId)).entries
    decreases |r.entries|
  {
    hide HasId;
    if n < |r.entries| {
      var front := Registry(r.entries[..|r.entries| - 1], r.nextId);
      NormalisedFront(front, n);
      assert front.entries[..n] == r.entries[..n];
      assert Normalised(r).entries[..n] == Normalised(front).entries[..n];
    } else {
      assert r.entries[..n] == r.entries;
    }
  }

  lemma {:induction false} SeenIsBelow(r: Registry, id: int)
    ensures HasId(Normalised(r).entries, id) ==> id < Normalised(r).nextId
  {
    hide Normalised;
    NormalisedIdsBelow(r);
  }

  /** Everything but ids survives loading.  A stored id is kept exactly when it is
      positive and neither stored by an entry before nor handed to one; every
      other entry is handed the next id. */
  lemma {:induction false} NormalisedKeepsIdIff(r: Registry, k: nat)
    requires k < |r.entries|
    ensures var n, ids := Normalised(r), StoredIds(r.entries);
            && n.entries[k].(matchId := 0) == r.entries[k].(matchId := 0)
            && (n.entries[k].matchId == ids[k] <==> !Repaired(ids, r.nextId, k))
            && (Repaired(ids, r.nextId, k) ==> n.entries[k].matchId == Counter(ids, r.nextId, k))
  {
    hide Normalised, HasId, Taken, Counter;
    var done := Normalised(Registry(r.entries[..k], r.nextId));
    NormalisedFront(r, k);
    NormalisedFront(r, k + 1);
    NormaliseStep(r, k);
    NormalisedIsLoaded(r, k);
    NormalisedIdsBelow(Registry(r.entries[..k], r.nextId));
    assert Normalised(r).entries[k] == Normalised(r).entries[..k + 1][k];
    SeenIsBelow(Registry(r.entries[..k], r.nextId), r.entries[k].matchId);
  }

  // ---- The width of int ----

  /** With stored ids below `bound` and a stored next id of at most `bound`, the next
      id grows by at most one an entry: up to INT_MAX - 256 nothing overflows. */
  lemma {:induction false} NextIdIsBounded(r: Registry, bound: int)
    requires bound > 0 && r.nextId <= bound && forall k :: 0 <= k < |r.entries| ==> r.entries[k].matchId < bound
    ensures r.nextId <= Normalised(r).nextId <= bound + |r.entries|
    decreases |r.entries|
  {
    NextGrows(r);
    if r.entries != [] {
      NextIdIsBounded(Registry(r.entries[..|r.entries| - 1], r.nextId), bound);
    }
  }

  /** The next id is above every stored id: one at INT_MAX always overflows. */
  lemma {:induction false} NextIdIsAbove(r: Registry, k: nat)
    requires k < |r.entries|
    ensures r.entries[k].matchId < Normalised(r).nextId
    decreases |r.entries|
  {
    hide HasId;
    var last := |r.entries| - 1;
    var front := Registry(r.entries[..last], r.nextId);
    if k < last {
      NextIdIsAbove(front, k);
    } else {
      NormalisedIdsBelow(front);
      SeenIsBelow(front, r.entries[last].matchId);
    }
  }
}
