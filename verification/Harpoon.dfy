/** Window slots over the match registry (src/harpoon/harpoon.c and
    key_handler_harpoon.c). */
module Harpoon {
  import opened Wildcard
  import opened MatchRegistry

  const MAX_HARPOON_SLOTS: nat := 36

  datatype HarpoonSlot = HarpoonSlot(matchId: int, isAssigned: bool)

  const EMPTY_SLOT := HarpoonSlot(0, false)

  /** Registry, slots, and the slot store's payloads for the "windows" tab, as a
      map from slot index to the serialised match id. */
  datatype State = State(registry: Registry, slots: seq<HarpoonSlot>, store: map<nat, int>)

  /** Slot `i` is bound to a registry entry. */
  predicate Resolves(s: State, i: nat) {
    && i < |s.slots| && s.slots[i].isAssigned && s.slots[i].matchId > 0
    && IndexOf(s.registry.entries, s.slots[i].matchId) >= 0
  }

  /** The entry of slot `i`. */
  function EntryOf(s: State, i: nat): MatchEntry
    requires Resolves(s, i)
  {
    s.registry.entries[IndexOf(s.registry.entries, s.slots[i].matchId)]
  }

  /** Slot `i` holds an entry that matches the window. */
  ghost predicate Holds(s: State, i: nat, w: WindowInfo) {
    Resolves(s, i) && Matches(EntryOf(s, i), w)
  }

  /** Assigned slots carry distinct ids that resolve, cleared slots carry none,
      and the slot store mirrors the slots. */
  ghost predicate SlotsOk(s: State) {
    && |s.slots| == MAX_HARPOON_SLOTS
    && (forall i :: 0 <= i < |s.slots| ==> if s.slots[i].isAssigned then Resolves(s, i) else s.slots[i] == EMPTY_SLOT)
    && (forall i, j :: 0 <= i < j < |s.slots| && s.slots[i].isAssigned && s.slots[j].isAssigned ==>
          s.slots[i].matchId != s.slots[j].matchId)
    && (forall i: nat :: i in s.store <==> i < |s.slots| && s.slots[i].isAssigned)
    && (forall i: nat :: i in s.store ==> s.store[i] == s.slots[i].matchId)
  }

  ghost predicate Inv(s: State) {
    WellFormed(s.registry) && SlotsOk(s)
  }

  /** Some slot carries the id. */
  predicate Owned(slots: seq<HarpoonSlot>, id: int) {
    exists i :: 0 <= i < |slots| && slots[i].isAssigned && slots[i].matchId == id
  }

  /** Every entry belongs to a slot. */
  predicate OwnsAll(s: State) {
    forall k :: 0 <= k < |s.registry.entries| ==> Owned(s.slots, s.registry.entries[k].matchId)
  }

  // ---- What the toggle does ----

  /** Slots other than `slot` that hold the window: they lose it. */
  ghost function Displaced(s: State, slot: nat, w: WindowInfo): set<nat> {
    set i: nat | i < |s.slots| && i != slot && Holds(s, i, w)
  }

  /** The ids whose entries go: those of the displaced slots, and the slot's own. */
  ghost function Retired(s: State, slot: nat, w: WindowInfo): set<int>
    requires slot < |s.slots|
  {
    (set i | i in Displaced(s, slot, w) :: s.slots[i].matchId)
    + if s.slots[slot].isAssigned then {s.slots[slot].matchId} else {}
  }

  ghost function Cleared(slots: seq<HarpoonSlot>, gone: set<nat>): (r: seq<HarpoonSlot>)
    ensures |r| == |slots|
    ensures forall i :: 0 <= i < |slots| ==> r[i] == if i in gone then EMPTY_SLOT else slots[i]
  {
    seq(|slots|, i requires 0 <= i < |slots| => if i in gone then EMPTY_SLOT else slots[i])
  }

  /** The whole outcome of harpoon_assign_or_toggle_window, in one step. */
  ghost function Toggled(s: State, slot: nat, w: WindowInfo): State
    requires slot < |s.slots|
  {
    if Holds(s, slot, w) then
      State(s.registry.(entries := Except(s.registry.entries, {s.slots[slot].matchId})),
            s.slots[slot := EMPTY_SLOT], s.store - {slot})
    else
      var rest := s.registry.(entries := Except(s.registry.entries, Retired(s, slot, w)));
      var slots, store := Cleared(s.slots, Displaced(s, slot, w)), s.store - Displaced(s, slot, w);
      if |rest.entries| >= MAX_WINDOWS then State(rest, slots, store)
      else
        var id := FreshId(rest.nextId);
        State(Append(rest, Captured(w, id)), slots[slot := HarpoonSlot(id, true)], store[slot := id])
  }

  // ---- Facts about it ----

  lemma {:induction false} IndexOfUnique(es: seq<MatchEntry>, k: nat)
    requires k < |es| && forall a, b :: 0 <= a < b < |es| ==> es[a].matchId != es[b].matchId
    ensures IndexOf(es, es[k].matchId) == k
  {
    var i := IndexOf(es, es[k].matchId);
    assert HasId(es, es[k].matchId);
    assert forall j :: 0 <= j < k ==> es[j].matchId != es[k].matchId;
  }

  /** Looking an id up in a registry with other ids removed finds the same entry. */
  lemma {:induction false} LookupExcept(r: Registry, ids: set<int>, id: int)
    requires WellFormed(r)
    ensures var out := Except(r.entries, ids);
            if id in ids then IndexOf(out, id) < 0
            else
              && (IndexOf(out, id) >= 0 <==> IndexOf(r.entries, id) >= 0)
              && (IndexOf(out, id) >= 0 ==> out[IndexOf(out, id)] == r.entries[IndexOf(r.entries, id)])
  {
    hide Except;
    var out := Except(r.entries, ids);
    ExceptMembers(r.entries, ids);
    ExceptKeepsDistinct(r.entries, ids);
    var i, j := IndexOf(out, id), IndexOf(r.entries, id);
    if i >= 0 {
      assert out[i] in out;
      var k :| 0 <= k < |r.entries| && r.entries[k] == out[i];
      IndexOfUnique(r.entries, k);
    }
    if j >= 0 && id !in ids {
      assert r.entries[j] in out;
      var k :| 0 <= k < |out| && out[k] == r.entries[j];
      IndexOfUnique(out, k);
    }
  }

  lemma {:induction false} LookupAppend(es: seq<MatchEntry>, e: MatchEntry, id: int)
    requires !HasId(es, e.matchId)
    ensures IndexOf(es + [e], id) == if id == e.matchId then |es| else IndexOf(es, id)
  {
    assert (es + [e])[..|es|] == es;
    if id == e.matchId {
      assert IndexOf(es, id) < 0;
    }
  }

  lemma {:induction false} FreshIdIsFresh(r: Registry, ids: set<int>)
    requires WellFormed(r)
    ensures !HasId(Except(r.entries, ids), FreshId(r.nextId))
  {
    ExceptMembers(r.entries, ids);
    var out := Except(r.entries, ids);
    forall k | 0 <= k < |out| ensures out[k].matchId != FreshId(r.nextId) {
      assert out[k] in r.entries;
    }
  }

  /** A slot that is neither cleared nor rebound keeps its entry. */
  lemma {:induction false} OthersUntouched(s: State, slot: nat, w: WindowInfo, i: nat)
    requires Inv(s) && slot < |s.slots| && i < |s.slots| && i != slot && s.slots[i].isAssigned
    requires Holds(s, slot, w) || i !in Displaced(s, slot, w)
    ensures var t := Toggled(s, slot, w);
            t.slots[i] == s.slots[i] && Resolves(t, i) && EntryOf(t, i) == EntryOf(s, i)
  {
    hide WellFormed, Except, Glob;
    var id := s.slots[i].matchId;
    if Holds(s, slot, w) {
      LookupExcept(s.registry, {s.slots[slot].matchId}, id);
    } else {
      var ids := Retired(s, slot, w);
      NotRetired(s, slot, w, i);
      LookupExcept(s.registry, ids, id);
      FreshIdIsFresh(s.registry, ids);
      IdBelowNext(s.registry, id);
      LookupAppend(Except(s.registry.entries, ids), Captured(w, FreshId(s.registry.nextId)), id);
    }
  }

  lemma {:induction false} NotRetired(s: State, slot: nat, w: WindowInfo, i: nat)
    requires SlotsOk(s) && slot < |s.slots| && i < |s.slots| && i != slot && s.slots[i].isAssigned
    requires i !in Displaced(s, slot, w)
    ensures s.slots[i].matchId !in Retired(s, slot, w)
  {
    hide Holds;
  }

  lemma {:induction false} IdBelowNext(r: Registry, id: int)
    requires WellFormed(r) && IndexOf(r.entries, id) >= 0
    ensures 0 < id < FreshId(r.nextId)
  {
  }

  /** Retiring ids frees room unless nothing was retired. */
  lemma {:induction false} RoomOrNothingRetired(s: State, slot: nat, w: WindowInfo)
    requires Inv(s) && slot < |s.slots|
    ensures |Except(s.registry.entries, Retired(s, slot, w))| >= MAX_WINDOWS ==> Retired(s, slot, w) == {}
  {
    hide Holds, Except;
    var ids := Retired(s, slot, w);
    if ids != {} {
      var id :| id in ids;
      assert Owned(s.slots, id) by {
        if id == s.slots[slot].matchId && s.slots[slot].isAssigned {
        } else {
          var i :| i in Displaced(s, slot, w) && s.slots[i].matchId == id;
          HoldsIsAssigned(s, i, w);
        }
      }
      var i :| 0 <= i < |s.slots| && s.slots[i].isAssigned && s.slots[i].matchId == id;
      ExceptShrinks(s.registry.entries, ids, IndexOf(s.registry.entries, id));
    }
  }

  lemma {:induction false} HoldsIsAssigned(s: State, i: nat, w: WindowInfo)
    requires Holds(s, i, w)
    ensures i < |s.slots| && s.slots[i].isAssigned
  {
  }

  lemma {:induction false} ExceptShrinks(es: seq<MatchEntry>, ids: set<int>, k: int)
    requires 0 <= k < |es| && es[k].matchId in ids
    ensures |Except(es, ids)| < |es|
  {
    hide Except;
    ExceptAround(es, k, ids);
    ExceptMembers(es[..k], ids);
    ExceptMembers(es[k + 1..], ids);
  }

  lemma {:induction false} ToggledRegistry(s: State, slot: nat, w: WindowInfo)
    requires Inv(s) && slot < |s.slots|
    ensures WellFormed(Toggled(s, slot, w).registry)
  {
    hide WellFormed, Except;
    if Holds(s, slot, w) {
      ExceptWellFormed(s.registry, {s.slots[slot].matchId});
    } else {
      var rest := s.registry.(entries := Except(s.registry.entries, Retired(s, slot, w)));
      ExceptWellFormed(s.registry, Retired(s, slot, w));
      if |rest.entries| < MAX_WINDOWS {
        AppendWellFormed(rest, Captured(w, FreshId(rest.nextId)));
      }
    }
  }

  /** The newly bound slot. */
  lemma {:induction false} AssignedSlot(s: State, slot: nat, w: WindowInfo)
    requires Inv(s) && slot < |s.slots| && !Holds(s, slot, w)
    requires |Except(s.registry.entries, Retired(s, slot, w))| < MAX_WINDOWS
    ensures var t := Toggled(s, slot, w);
            && Resolves(t, slot) && EntryOf(t, slot) == Captured(w, FreshId(s.registry.nextId))
            && t.slots[slot].matchId == FreshId(s.registry.nextId)
            && Holds(t, slot, w) && EntryOf(t, slot).boundId == w.id
  {
    hide WellFormed, Except, Glob;
    var id := FreshId(s.registry.nextId);
    assert id > 0;
    FreshIdIsFresh(s.registry, Retired(s, slot, w));
    LookupAppend(Except(s.registry.entries, Retired(s, slot, w)), Captured(w, id), id);
    CapturedMatchesSource(w, id);
  }

  /** key_handler_harpoon.c:49-93.  The toggle keeps the invariant. */
  lemma {:induction false} ToggledInv(s: State, slot: nat, w: WindowInfo)
    requires Inv(s) && slot < |s.slots|
    ensures Inv(Toggled(s, slot, w))
  {
    hide WellFormed, Except, Holds;
    ToggledRegistry(s, slot, w);
    RoomOrNothingRetired(s, slot, w);
    var t := Toggled(s, slot, w);
    forall i | 0 <= i < |t.slots| && i != slot && t.slots[i].isAssigned
      ensures t.slots[i] == s.slots[i] && Resolves(t, i)
    {
      OthersUntouched(s, slot, w, i);
    }
    OldIdsBelow(s);
    if !Holds(s, slot, w) {
      if |Except(s.registry.entries, Retired(s, slot, w))| < MAX_WINDOWS {
        AssignedSlot(s, slot, w);
      } else {
        NothingDisplaced(s, slot, w);
        ExceptNothing(s.registry.entries);
      }
    }
    ToggledSlots(s, slot, w);
  }

  lemma {:induction false} OldIdsBelow(s: State)
    requires Inv(s)
    ensures forall i :: 0 <= i < |s.slots| && s.slots[i].isAssigned ==> s.slots[i].matchId < FreshId(s.registry.nextId)
  {
    hide WellFormed;
    forall i | 0 <= i < |s.slots| && s.slots[i].isAssigned ensures s.slots[i].matchId < FreshId(s.registry.nextId) {
      IdBelowNext(s.registry, s.slots[i].matchId);
    }
  }

  lemma {:induction false} DisplacedIsRetired(s: State, slot: nat, w: WindowInfo, i: nat)
    requires slot < |s.slots| && i in Displaced(s, slot, w)
    ensures i < |s.slots| && s.slots[i].matchId in Retired(s, slot, w)
  {
  }

  lemma {:induction false} OwnIsRetired(s: State, slot: nat, w: WindowInfo)
    requires slot < |s.slots| && s.slots[slot].isAssigned
    ensures s.slots[slot].matchId in Retired(s, slot, w)
  {
  }

  lemma {:induction false} NothingDisplaced(s: State, slot: nat, w: WindowInfo)
    requires slot < |s.slots| && Retired(s, slot, w) == {}
    ensures Displaced(s, slot, w) == {} && !s.slots[slot].isAssigned
  {
    hide Displaced, Retired;
    assert |Displaced(s, slot, w)| == 0 by {
      if |Displaced(s, slot, w)| != 0 {
        var i :| i in Displaced(s, slot, w);
        DisplacedIsRetired(s, slot, w, i);
      }
    }
    if s.slots[slot].isAssigned {
      OwnIsRetired(s, slot, w);
    }
  }

  lemma {:induction false} ExceptNothing(es: seq<MatchEntry>)
    ensures Except(es, {}) == es
  {
    ExceptAbsent(es, {});
  }

  /** Slots and store of the outcome, given its lookups. */
  lemma {:induction false} ToggledSlots(s: State, slot: nat, w: WindowInfo)
    requires Inv(s) && slot < |s.slots|
    requires var t := Toggled(s, slot, w);
             forall i :: 0 <= i < |t.slots| && t.slots[i].isAssigned ==> Resolves(t, i)
    requires var t := Toggled(s, slot, w);
             forall i :: 0 <= i < |t.slots| && i != slot && t.slots[i].isAssigned ==> t.slots[i] == s.slots[i]
    requires forall i :: 0 <= i < |s.slots| && s.slots[i].isAssigned ==> s.slots[i].matchId < FreshId(s.registry.nextId)
    ensures SlotsOk(Toggled(s, slot, w))
  {
    hide WellFormed, Except, Holds, Resolves, Append;
  }

  ghost predicate HasRoom(s: State, slot: nat, w: WindowInfo)
    requires slot < |s.slots|
  {
    |Except(s.registry.entries, Retired(s, slot, w))| < MAX_WINDOWS
  }

  /** key_handler_harpoon.c:83-87 writes the binding a second time, to no effect. */
  lemma {:induction false} BoundAlready(s: State, slot: nat, w: WindowInfo)
    requires Inv(s) && slot < |s.slots| && !Holds(s, slot, w)
    ensures var t := Toggled(s, slot, w);
            var i := if t.slots[slot].matchId <= 0 then -1 else IndexOf(t.registry.entries, t.slots[slot].matchId);
            i >= 0 ==> t.registry.entries[i].boundId == w.id && t.registry.entries[i].isAssigned
  {
    hide WellFormed, Except, Glob;
    if HasRoom(s, slot, w) {
      AssignedSlot(s, slot, w);
    } else {
      RoomOrNothingRetired(s, slot, w);
      NothingDisplaced(s, slot, w);
    }
  }

  // ---- Main results ----

  /** An assignment with room binds the slot to the window, leaves no other slot
      holding it, deletes exactly the retired entries, and touches nothing else. */
  lemma {:induction false} AssignOutcome(s: State, slot: nat, w: WindowInfo)
    requires Inv(s) && slot < |s.slots| && !Holds(s, slot, w) && HasRoom(s, slot, w)
    ensures var t := Toggled(s, slot, w);
            && Holds(t, slot, w) && EntryOf(t, slot).boundId == w.id
            && (forall i :: 0 <= i < |t.slots| && i != slot ==> !Holds(t, i, w))
            && (forall i :: i in Displaced(s, slot, w) ==> t.slots[i] == EMPTY_SLOT)
            && (forall i :: 0 <= i < |t.slots| && i != slot && i !in Displaced(s, slot, w) ==> t.slots[i] == s.slots[i])
            && t.registry.entries
               == Except(s.registry.entries, Retired(s, slot, w)) + [Captured(w, FreshId(s.registry.nextId))]
  {
    hide WellFormed, Except, Glob;
    var t := Toggled(s, slot, w);
    AssignedSlot(s, slot, w);
    forall i | 0 <= i < |t.slots| && i != slot ensures !Holds(t, i, w) {
      if i !in Displaced(s, slot, w) && s.slots[i].isAssigned {
        OthersUntouched(s, slot, w, i);
      }
    }
  }

  /** Without room nothing at all happens: a full registry has no entry of a
      displaced slot to give up. */
  lemma {:induction false} NoRoomNoChange(s: State, slot: nat, w: WindowInfo)
    requires Inv(s) && slot < |s.slots| && !Holds(s, slot, w) && !HasRoom(s, slot, w)
    ensures Toggled(s, slot, w) == s
  {
    hide WellFormed, Except, Holds;
    RoomOrNothingRetired(s, slot, w);
    NothingDisplaced(s, slot, w);
    ExceptNothing(s.registry.entries);
    assert Cleared(s.slots, {}) == s.slots;
    assert s.store - {} == s.store;
  }

  /** Pressing the same shortcut again empties the slot and deletes the entry it
      got, leaving the other slots as the assignment left them. */
  lemma {:induction false} ToggleTwiceEmpties(s: State, slot: nat, w: WindowInfo)
    requires Inv(s) && slot < |s.slots| && !Holds(s, slot, w) && HasRoom(s, slot, w)
    ensures var t := Toggled(s, slot, w);
            var u := Toggled(t, slot, w);
            && u.slots == t.slots[slot := EMPTY_SLOT]
            && u.registry.entries == Except(s.registry.entries, Retired(s, slot, w))
            && u.registry.nextId == FreshId(s.registry.nextId) + 1
            && slot !in u.store
  {
    hide WellFormed, Except, Glob;
    AssignOutcome(s, slot, w);
    var id := FreshId(s.registry.nextId);
    var rest := Except(s.registry.entries, Retired(s, slot, w));
    FreshIdIsFresh(s.registry, Retired(s, slot, w));
    ExceptConcat(rest, [Captured(w, id)], {id});
    ExceptOne(Captured(w, id), {id});
    forall k | 0 <= k < |rest| ensures rest[k].matchId !in {id} {
    }
    ExceptAbsent(rest, {id});
    AssignedSlot(s, slot, w);
  }

  /** While harpoon owns every entry it keeps owning them all, and there is
      always room. */
  lemma {:induction false} OwnershipKept(s: State, slot: nat, w: WindowInfo)
    requires Inv(s) && OwnsAll(s) && slot < |s.slots|
    ensures OwnsAll(Toggled(s, slot, w)) && HasRoom(s, slot, w)
  {
    hide WellFormed, Except, Glob, Displaced;
    OwnedFits(s);
    var t := Toggled(s, slot, w);
    var es := s.registry.entries;
    ExceptMembers(es, Retired(s, slot, w));
    ExceptMembers(es, {s.slots[slot].matchId});
    forall k | 0 <= k < |t.registry.entries|
      ensures Owned(t.slots, t.registry.entries[k].matchId)
    {
      var e := t.registry.entries[k];
      if !Holds(s, slot, w) && k == |Except(es, Retired(s, slot, w))| {
        assert t.slots[slot].isAssigned && t.slots[slot].matchId == e.matchId;
      } else {
        assert e in Except(es, if Holds(s, slot, w) then {s.slots[slot].matchId} else Retired(s, slot, w));
        var q :| 0 <= q < |es| && es[q] == e;
        var i :| 0 <= i < |s.slots| && s.slots[i].isAssigned && s.slots[i].matchId == es[q].matchId;
        assert i == slot || i in Displaced(s, slot, w) ==> s.slots[i].matchId in Retired(s, slot, w);
        assert t.slots[i].isAssigned && t.slots[i].matchId == e.matchId;
      }
    }
  }

  function SlotIds(slots: seq<HarpoonSlot>): (ids: set<int>)
    ensures |ids| <= |slots|
    ensures forall i :: 0 <= i < |slots| ==> slots[i].matchId in ids
  {
    if slots == [] then {}
    else SlotIds(slots[..|slots| - 1]) + {slots[|slots| - 1].matchId}
  }

  lemma {:induction false} DistinctFit(es: seq<MatchEntry>, ids: set<int>)
    requires forall a, b :: 0 <= a < b < |es| ==> es[a].matchId != es[b].matchId
    requires forall k :: 0 <= k < |es| ==> es[k].matchId in ids
    ensures |es| <= |ids|
    decreases |es|
  {
    if es != [] {
      var n := |es| - 1;
      forall k | 0 <= k < n ensures es[..n][k].matchId in ids - {es[n].matchId} {
        assert es[..n][k] == es[k];
      }
      DistinctFit(es[..n], ids - {es[n].matchId});
    }
  }

  lemma {:induction false} OwnedFits(s: State)
    requires Inv(s) && OwnsAll(s)
    ensures |s.registry.entries| <= MAX_HARPOON_SLOTS
  {
    DistinctFit(s.registry.entries, SlotIds(s.slots));
  }

  // ---- Recall ----

  predicate Bound(e: MatchEntry) {
    e.isAssigned && e.boundId != 0
  }

  /** get_slot_window: what the recall shortcut activates, 0 for nothing. */
  ghost function Recalled(s: State, slot: int, ws: seq<WindowInfo>): int {
    if slot < 0 || !Resolves(s, slot) then 0
    else
      var e := EntryOf(s, slot);
      if Bound(e) then e.boundId
      else if Rebound(e, ws).isAssigned then Rebound(e, ws).boundId else 0
  }

  /** The slot's entry is bound to a window that is gone. */
  ghost predicate Stale(s: State, slot: int, ws: seq<WindowInfo>) {
    slot >= 0 && Resolves(s, slot)
    && Bound(EntryOf(s, slot)) && !Live(ws, EntryOf(s, slot).boundId)
  }

  /** harpoon.c:82-100.  A stale binding is not rebound here, whatever the
      documentation says (src/harpoon/CONTEXT.md, criterion 5): recall yields a
      live window or none exactly when the slot is not stale. */
  lemma {:induction false} RecallIsLiveIff(s: State, slot: int, ws: seq<WindowInfo>)
    requires forall j :: 0 <= j < |ws| ==> ws[j].id != 0
    ensures Recalled(s, slot, ws) == 0 || Live(ws, Recalled(s, slot, ws)) <==> !Stale(s, slot, ws)
  {
    hide Glob, Resolves, Matches, EntryOf;
    if slot >= 0 && Resolves(s, slot) {
      var e := EntryOf(s, slot);
      var m := FirstMatch(e, ws, 0);
      assert m < |ws| ==> Live(ws, ws[m].id);
    }
  }

  lemma {:induction false} LookupRebound(es: seq<MatchEntry>, ws: seq<WindowInfo>, id: int)
    ensures IndexOf(ReboundAll(es, ws), id) == IndexOf(es, id)
  {
    hide ReboundAll, Rebound;
    var now := ReboundAll(es, ws);
    var i, j := IndexOf(es, id), IndexOf(now, id);
    if i >= 0 {
      assert now[i].matchId == id;
      assert HasId(now, id);
    }
    if j >= 0 {
      assert es[j].matchId == id;
      assert HasId(es, id);
    }
  }

  lemma {:induction false} StepRebind(r: Registry, ws: seq<WindowInfo>)
    ensures Step(r, Rebind(ws)) == r.(entries := ReboundAll(r.entries, ws))
  {
    hide ReboundAll;
  }

  lemma {:induction false} ReboundSlot(s: State, slot: nat, ws: seq<WindowInfo>)
    ensures var t := s.(registry := Step(s.registry, Rebind(ws)));
            && (Resolves(t, slot) <==> Resolves(s, slot))
            && (Resolves(s, slot) ==> EntryOf(t, slot) == Rebound(EntryOf(s, slot), ws))
  {
    hide Step, Rebound;
    StepRebind(s.registry, ws);
    if slot < |s.slots| {
      LookupRebound(s.registry.entries, ws, s.slots[slot].matchId);
    }
  }

  /** The rebinding done on every change of the window list removes staleness, so
      recall is live from there until the list changes again. */
  lemma {:induction false} RebindingCuresStaleness(s: State, slot: int, ws: seq<WindowInfo>)
    requires forall j :: 0 <= j < |ws| ==> ws[j].id != 0
    ensures var t := s.(registry := Step(s.registry, Rebind(ws)));
            !Stale(t, slot, ws) && (Recalled(t, slot, ws) == 0 || Live(ws, Recalled(t, slot, ws)))
  {
    hide Step, Resolves, EntryOf, Matches;
    var t := s.(registry := Step(s.registry, Rebind(ws)));
    RecallIsLiveIff(t, slot, ws);
    if slot >= 0 && Resolves(s, slot) {
      ReboundSlot(s, slot, ws);
      var m := FirstMatch(EntryOf(s, slot), ws, 0);
      assert m < |ws| ==> Live(ws, ws[m].id);
    } else if slot >= 0 {
      ReboundSlot(s, slot, ws);
    }
  }

  // ---- The program ----

  lemma {:induction false} StepDeleteId(r: Registry, id: int)
    ensures Step(r, DeleteId(id)) ==
      if id > 0 && IndexOf(r.entries, id) >= 0 then r.(entries := RemoveAt(r.entries, IndexOf(r.entries, id))) else r
  {
    hide RemoveAt, Only, ReboundAll, Loaded, Saved, Append, Captured, Pattern;
  }

  /** With distinct positive ids, deleting by id is removing that id. */
  lemma {:induction false} DeleteIdIsExcept(r: Registry, id: int)
    requires WellFormed(r)
    ensures Step(r, DeleteId(id)) == r.(entries := Except(r.entries, {id}))
  {
    hide Except, Step, RemoveAt;
    StepDeleteId(r, id);
    var i := IndexOf(r.entries, id);
    if i >= 0 {
      RemoveAtIsExcept(r.entries, i);
    } else {
      NoSuchId(r.entries, id);
      ExceptAbsent(r.entries, {id});
    }
  }

  lemma {:induction false} NoSuchId(es: seq<MatchEntry>, id: int)
    requires IndexOf(es, id) < 0
    ensures forall k :: 0 <= k < |es| ==> es[k].matchId !in {id}
  {
    forall k | 0 <= k < |es| ensures es[k].matchId != id {
      assert es[k].matchId == id ==> HasId(es, id);
    }
  }

  class HarpoonManager {
    const matching: MatchEntryManager
    const slots: array<HarpoonSlot>
    var store: map<nat, int>

    ghost predicate Shaped()
      reads this, matching
    {
      matching.Valid() && slots.Length == MAX_HARPOON_SLOTS
    }

    ghost function Abs(): State
      reads this, slots, matching, matching.entries
      requires Shaped()
    {
      State(matching.Contents(), slots[..], store)
    }

    ghost predicate Valid()
      reads this, slots, matching, matching.entries
    {
      Shaped() && Inv(Abs())
    }

    /** init_harpoon_manager, wired to an empty registry. */
    constructor (matching: MatchEntryManager)
      requires matching.Valid() && matching.Contents() == Registry([], 1)
      ensures this.matching == matching && Valid() && OwnsAll(Abs()) && fresh(slots)
    {
      this.matching := matching;
      slots := new HarpoonSlot[MAX_HARPOON_SLOTS](_ => EMPTY_SLOT);
      store := map[];
    }

    /** unassign_slot */
    method UnassignSlot(i: nat)
      requires Shaped() && i < MAX_HARPOON_SLOTS
      modifies slots, this`store
      ensures slots[..] == old(slots[..])[i := EMPTY_SLOT] && store == old(store) - {i}
    {
      slots[i] := EMPTY_SLOT;
      store := store - {i};
    }

    /** assign_window_to_slot */
    method AssignWindowToSlot(slot: nat, w: WindowInfo)
      requires Shaped() && slot < MAX_HARPOON_SLOTS && WellFormed(matching.Contents())
      modifies matching, matching.entries, slots, this`store
      ensures Shaped()
      ensures matching.Contents() == Step(old(matching.Contents()), Create(w))
      ensures var id := FreshId(old(matching.nextMatchId));
              if old(matching.count) >= MAX_WINDOWS then slots[..] == old(slots[..]) && store == old(store)
              else slots[..] == old(slots[..])[slot := HarpoonSlot(id, true)] && store == old(store)[slot := id]
    {
      var id := matching.CreateEntry(w);
      if id <= 0 {
        return;
      }
      slots[slot] := HarpoonSlot(id, true);
      store := store[slot := id];
    }

    /** harpoon_assign_or_toggle_window; a slot out of range is refused. */
    method AssignOrToggle(w: WindowInfo, slot: int) returns (done: bool)
      requires Valid()
      modifies this, slots, matching, matching.entries
      ensures done <==> 0 <= slot < 36
      ensures Valid() && Abs() == if done then Toggled(old(Abs()), slot, w) else old(Abs())
    {
      hide WellFormed, SlotsOk, Except, Glob;
      ghost var s := Abs();
      if slot < 0 || slot >= MAX_HARPOON_SLOTS {
        return false;
      }
      ToggledInv(s, slot, w);
      done := true;
      var held := SlotHolds(slot, w);
      if held {
        var id := slots[slot].matchId;
        UnassignSlot(slot);
        DeleteIdIsExcept(s.registry, id);
        matching.DeleteById(id);
        return;
      }
      var replaced := if slots[slot].isAssigned then slots[slot].matchId else 0;
      Displace(s, slot, w);
      ghost var gone := Displaced(s, slot, w);
      ghost var ids := set i | i in gone :: s.slots[i].matchId;
      ExceptWellFormed(s.registry, ids);
      DeleteIdIsExcept(matching.Contents(), replaced);
      matching.DeleteById(replaced);
      ExceptTwice(s.registry.entries, ids, {replaced});
      RetiredIs(s, slot, w, ids, replaced);
      assert slots[slot] == s.slots[slot];
      ExceptWellFormed(s.registry, Retired(s, slot, w));
      AssignWindowToSlot(slot, w);
      BindSelected(s, slot, w);
    }

    /** The last lines of the toggle: write the binding once more. */
    method BindSelected(ghost s: State, slot: nat, w: WindowInfo)
      requires Shaped() && slot < MAX_HARPOON_SLOTS && slot < |s.slots| && Inv(s) && !Holds(s, slot, w)
      requires Abs() == Toggled(s, slot, w)
      modifies matching.entries
      ensures Shaped() && Abs() == old(Abs())
    {
      hide Inv, Toggled, Holds;
      BoundAlready(s, slot, w);
      var index := matching.FindIndex(slots[slot].matchId);
      if index >= 0 {
        ghost var before := matching.entries[..matching.count];
        matching.entries[index] := matching.entries[index].(boundId := w.id, isAssigned := true);
        assert matching.entries[..matching.count] == before;
      }
    }

    /** resolve_slot_entry: the index of the slot's entry, or -1. */
    method Resolve(slot: int) returns (index: int)
      requires Shaped()
      ensures index >= 0 <==> slot >= 0 && Resolves(Abs(), slot)
      ensures index >= 0 ==> index < matching.count && matching.entries[index] == EntryOf(Abs(), slot)
    {
      if slot < 0 || slot >= MAX_HARPOON_SLOTS {
        return -1;
      }
      if !slots[slot].isAssigned || slots[slot].matchId <= 0 {
        return -1;
      }
      index := matching.FindIndex(slots[slot].matchId);
    }

    /** get_slot_window; `ws` is the current window list. */
    method GetSlotWindow(slot: int, ws: seq<WindowInfo>) returns (id: int)
      requires Shaped() && forall j :: 0 <= j < |ws| ==> ws[j].id != 0
      modifies matching.entries
      ensures Shaped() && id == Recalled(old(Abs()), slot, ws)
      ensures Abs() == if slot >= 0 && Resolves(old(Abs()), slot) && !Bound(EntryOf(old(Abs()), slot))
                       then old(Abs()).(registry := Step(old(Abs()).registry, Rebind(ws))) else old(Abs())
    {
      hide Step, Rebound, Resolves, EntryOf;
      ghost var s := Abs();
      var index := Resolve(slot);
      if index < 0 {
        return 0;
      }
      if matching.entries[index].isAssigned && matching.entries[index].boundId != 0 {
        return matching.entries[index].boundId;
      }
      var changed := matching.Reassign(ws);
      ReboundSlot(s, slot, ws);
      assert Abs() == s.(registry := Step(s.registry, Rebind(ws)));
      var again := Resolve(slot);
      id := if again >= 0 && matching.entries[again].isAssigned then matching.entries[again].boundId else 0;
    }

    /** Does the slot's entry match the window? */
    method SlotHolds(i: nat, w: WindowInfo) returns (held: bool)
      requires Shaped() && i < MAX_HARPOON_SLOTS
      ensures held <==> Holds(Abs(), i, w)
    {
      if !slots[i].isAssigned || slots[i].matchId <= 0 {
        return false;
      }
      var index := matching.FindIndex(slots[i].matchId);
      if index < 0 {
        return false;
      }
      held := MatchesWindow(matching.entries[index], w);
    }

    /** The loop over the other slots: clear those that hold the window and
        delete their entries, one shift at a time. */
    method Displace(ghost s: State, slot: nat, w: WindowInfo)
      requires Valid() && s == Abs() && slot < MAX_HARPOON_SLOTS
      modifies slots, this`store, matching, matching.entries
      ensures Shaped()
      ensures var gone := Displaced(s, slot, w);
              var ids := set i | i in gone :: s.slots[i].matchId;
              Abs() == State(s.registry.(entries := Except(s.registry.entries, ids)), Cleared(s.slots, gone),
                  s.store - gone)
    {
      hide WellFormed, SlotsOk, Except, Glob, Holds, Step;
      ghost var gone: set<nat> := {};
      ghost var ids: set<int> := {};
      ExceptNothing(s.registry.entries);
      assert Cleared(s.slots, gone) == s.slots && s.store - gone == s.store;
      for i := 0 to MAX_HARPOON_SLOTS
        invariant Shaped()
        invariant gone == (set k: nat | k < i && k in Displaced(s, slot, w))
        invariant forall k :: k in gone ==> k < |s.slots| && s.slots[k].isAssigned
        invariant ids == (set k | k in gone :: s.slots[k].matchId)
        invariant Abs() == State(s.registry.(entries := Except(s.registry.entries, ids)), Cleared(s.slots, gone),
            s.store - gone)
      {
        if i != slot {
          var held := SlotHolds(i, w);
          StillHolds(s, gone, ids, i, w);
          assert held <==> i in Displaced(s, slot, w);
          if held {
            HoldsIsAssigned(s, i, w);
            var id := slots[i].matchId;
            ExceptWellFormed(s.registry, ids);
            DeleteIdIsExcept(matching.Contents(), id);
            ExceptTwice(s.registry.entries, ids, {id});
            UnassignSlot(i);
            matching.DeleteById(id);
            ClearOneMore(s, gone, i);
            gone := gone + {i};
            ids := ids + {id};
          }
        }
      }
      assert gone == Displaced(s, slot, w);
    }
  }

  lemma {:induction false} ClearOneMore(s: State, gone: set<nat>, i: nat)
    requires i < |s.slots|
    ensures Cleared(s.slots, gone)[i := EMPTY_SLOT] == Cleared(s.slots, gone + {i})
    ensures s.store - gone - {i} == s.store - (gone + {i})
  {
  }

  /** Entries of other slots are found again after the earlier deletions. */
  lemma {:induction false} StillHolds(s: State, gone: set<nat>, ids: set<int>, i: nat, w: WindowInfo)
    requires Inv(s) && i < |s.slots| && i !in gone
    requires forall k :: k in gone ==> k < |s.slots| && s.slots[k].isAssigned
    requires ids == (set k | k in gone :: s.slots[k].matchId)
    ensures var t := State(s.registry.(entries := Except(s.registry.entries, ids)), Cleared(s.slots, gone),
        s.store - gone);
            Holds(t, i, w) <==> Holds(s, i, w)
    ensures s.slots[i].isAssigned ==> s.slots[i].matchId !in ids
  {
    hide WellFormed, Except, Glob;
    if s.slots[i].isAssigned {
      assert s.slots[i].matchId !in ids;
      LookupExcept(s.registry, ids, s.slots[i].matchId);
    }
  }

  lemma {:induction false} RetiredIs(s: State, slot: nat, w: WindowInfo, ids: set<int>, replaced: int)
    requires Inv(s) && slot < |s.slots| && ids == (set i | i in Displaced(s, slot, w) :: s.slots[i].matchId)
    requires replaced == if s.slots[slot].isAssigned then s.slots[slot].matchId else 0
    ensures Except(s.registry.entries, ids + {replaced}) == Except(s.registry.entries, Retired(s, slot, w))
  {
    if s.slots[slot].isAssigned {
      assert ids + {replaced} == Retired(s, slot, w);
    } else {
      assert ids + {0} == Retired(s, slot, w) + {0};
      ExceptTwice(s.registry.entries, Retired(s, slot, w), {0});
      ExceptMembers(s.registry.entries, Retired(s, slot, w));
      var rest := Except(s.registry.entries, Retired(s, slot, w));
      forall k | 0 <= k < |rest| ensures rest[k].matchId !in {0} {
        assert rest[k] in s.registry.entries;
      }
      ExceptAbsent(rest, {0});
    }
  }
}
