/** Runs of the harpoon shortcuts while the window list changes: what stays true,
    and when a recall activates a window that is gone. */
module HarpoonRuns {
  import opened Harpoon
  import opened MatchRegistry
  import opened Wildcard

  /** `lost` are the ids that were listed at some time since the last list change
      that rebound the entries, and are listed no more. */
  datatype World = World(s: State, windows: seq<WindowInfo>, lost: set<int>)

  /** A list change seen by the event loop or when the switcher is shown rebinds
      all entries; a bare call of get_window_list does not (projects.c:259,
      projects_tmux_windows.c:107, command_handlers_workspace.c:101). */
  datatype Action =
    | Press(slot: nat, w: WindowInfo)
    | Recall(slot: nat)
    | ListChanged(ws: seq<WindowInfo>)
    | ListRefreshed(ws: seq<WindowInfo>)

  function Ids(ws: seq<WindowInfo>): (ids: set<int>)
    ensures forall id :: id in ids <==> exists j :: 0 <= j < |ws| && ws[j].id == id
  {
    set j | 0 <= j < |ws| :: ws[j].id
  }

  predicate Listable(ws: seq<WindowInfo>) {
    forall j :: 0 <= j < |ws| ==> ws[j].id != 0
  }

  /** get_window_list drops null ids, and the selected row was filtered from a
      list that was current since the last rebinding change. */
  predicate Enabled(world: World, a: Action) {
    match a
    case Press(slot, w) => slot < MAX_HARPOON_SLOTS && (w.id in Ids(world.windows) || w.id in world.lost)
    case Recall(slot) => true
    case ListChanged(ws) => Listable(ws)
    case ListRefreshed(ws) => Listable(ws)
  }

  ghost function WithRebound(s: State, ws: seq<WindowInfo>): State {
    s.(registry := Step(s.registry, Rebind(ws)))
  }

  /** get_slot_window rebinds only for a slot that resolves and is not bound. */
  ghost predicate RecallRebinds(s: State, slot: nat) {
    Resolves(s, slot) && !Bound(EntryOf(s, slot))
  }

  ghost function After(world: World, a: Action): World
    requires |world.s.slots| == MAX_HARPOON_SLOTS && Enabled(world, a)
  {
    match a
    case Press(slot, w) => world.(s := Toggled(world.s, slot, w))
    case Recall(slot) =>
      if RecallRebinds(world.s, slot) then world.(s := WithRebound(world.s, world.windows)) else world
    case ListChanged(ws) => World(WithRebound(world.s, ws), ws, {})
    case ListRefreshed(ws) => World(world.s, ws, world.lost + Ids(world.windows) - Ids(ws))
  }

  ghost predicate Run(from: World, run: seq<Action>, last: World)
    requires |from.s.slots| == MAX_HARPOON_SLOTS
    decreases |run|
  {
    if run == [] then last == from
    else Enabled(from, run[0]) && Run(After(from, run[0]), run[1..], last)
  }

  /** A fresh program: no entries, no slots, some windows. */
  function Start(ws: seq<WindowInfo>): World {
    World(State(Registry([], 1), seq(MAX_HARPOON_SLOTS, i => EMPTY_SLOT), map[]), ws, {})
  }

  // ---- What every run keeps ----

  /** Every binding is in force, and to a listed window or to a lost one. */
  predicate BoundSomewhere(es: seq<MatchEntry>, ids: set<int>) {
    forall k :: 0 <= k < |es| && es[k].boundId != 0 ==> es[k].isAssigned && es[k].boundId in ids
  }

  ghost predicate WorldInv(world: World) {
    && Inv(world.s) && OwnsAll(world.s)
    && Listable(world.windows) && 0 !in world.lost && world.lost !! Ids(world.windows)
    && BoundSomewhere(world.s.registry.entries, Ids(world.windows) + world.lost)
  }

  lemma {:induction false} RebindingKeeps(s: State, ws: seq<WindowInfo>)
    requires Inv(s) && OwnsAll(s)
    ensures Inv(WithRebound(s, ws)) && OwnsAll(WithRebound(s, ws))
  {
    hide Step, Rebound, Resolves, Matches, EntryOf;
    var t := WithRebound(s, ws);
    StepRebind(s.registry, ws);
    forall i | 0 <= i < |s.slots| ensures Resolves(t, i) == Resolves(s, i) {
      ReboundSlot(s, i, ws);
    }
    forall k | 0 <= k < |t.registry.entries| ensures Owned(t.slots, t.registry.entries[k].matchId) {
      assert Owned(s.slots, s.registry.entries[k].matchId);
    }
    RebindWellFormed(s.registry, ws);
  }

  lemma {:induction false} RebindWellFormed(r: Registry, ws: seq<WindowInfo>)
    requires WellFormed(r)
    ensures WellFormed(Step(r, Rebind(ws)))
  {
    hide Step, WellFormed;
    StepWellFormed(r, Rebind(ws));
  }

  lemma {:induction false} ReboundAreListed(r: Registry, ws: seq<WindowInfo>)
    requires Listable(ws)
    ensures BoundSomewhere(Step(r, Rebind(ws)).entries, Ids(ws))
  {
    hide Step, Matches;
    StepRebind(r, ws);
    forall k | 0 <= k < |r.entries| && ReboundAll(r.entries, ws)[k].boundId != 0
      ensures ReboundAll(r.entries, ws)[k].isAssigned && ReboundAll(r.entries, ws)[k].boundId in Ids(ws)
    {
      var m := FirstMatch(r.entries[k], ws, 0);
    }
  }

  lemma {:induction false} ToggledEntries(s: State, slot: nat, w: WindowInfo, ids: set<int>)
    requires Inv(s) && slot < |s.slots| && BoundSomewhere(s.registry.entries, ids) && w.id in ids
    ensures BoundSomewhere(Toggled(s, slot, w).registry.entries, ids)
  {
    hide WellFormed, Except, Glob, Holds, Displaced, SlotsOk;
    var es, t := s.registry.entries, Toggled(s, slot, w);
    var gone := if Holds(s, slot, w) then {s.slots[slot].matchId} else Retired(s, slot, w);
    ExceptMembers(es, gone);
    forall k | 0 <= k < |t.registry.entries| && t.registry.entries[k].boundId != 0
      ensures t.registry.entries[k].isAssigned && t.registry.entries[k].boundId in ids
    {
      if k < |Except(es, gone)| {
        assert t.registry.entries[k] == Except(es, gone)[k];
        assert Except(es, gone)[k] in es;
      }
    }
  }

  lemma {:induction false} AfterKeeps(world: World, a: Action)
    requires WorldInv(world) && Enabled(world, a)
    ensures |world.s.slots| == MAX_HARPOON_SLOTS && WorldInv(After(world, a))
  {
    hide Inv, OwnsAll, Toggled, Step, Resolves, EntryOf;
    AllSlotsThere(world.s);
    match a
    case Press(slot, w) =>
      ToggledInv(world.s, slot, w);
      OwnershipKept(world.s, slot, w);
      ToggledEntries(world.s, slot, w, Ids(world.windows) + world.lost);
    case Recall(slot) =>
      RebindingKeeps(world.s, world.windows);
      ReboundAreListed(world.s.registry, world.windows);
    case ListChanged(ws) =>
      RebindingKeeps(world.s, ws);
      ReboundAreListed(world.s.registry, ws);
    case ListRefreshed(ws) =>
  }

  lemma {:induction false} AllSlotsThere(s: State)
    requires Inv(s)
    ensures |s.slots| == MAX_HARPOON_SLOTS
  {
  }

  /** Over any run of shortcuts and list changes, starting with harpoon owning every
      entry, slots and entries stay in correspondence and bindings accounted for. */
  lemma {:induction false} RunKeeps(from: World, run: seq<Action>, last: World)
    requires WorldInv(from) && |from.s.slots| == MAX_HARPOON_SLOTS && Run(from, run, last)
    ensures WorldInv(last)
    decreases |run|
  {
    hide WorldInv, After;
    if run != [] {
      AfterKeeps(from, run[0]);
      WorldHasSlots(After(from, run[0]));
      RunKeeps(After(from, run[0]), run[1..], last);
    }
  }

  lemma {:induction false} WorldHasSlots(world: World)
    requires WorldInv(world)
    ensures |world.s.slots| == MAX_HARPOON_SLOTS
  {
  }

  lemma {:induction false} StartInv(ws: seq<WindowInfo>)
    requires Listable(ws)
    ensures WorldInv(Start(ws))
  {
  }

  // ---- Recall over runs ----

  predicate LiveOrNone(ws: seq<WindowInfo>, id: int) {
    id == 0 || Live(ws, id)
  }

  /** The slot is bound to a window that the list lost without rebinding. */
  ghost predicate BoundToLost(world: World, slot: nat) {
    Resolves(world.s, slot) && Bound(EntryOf(world.s, slot)) && EntryOf(world.s, slot).boundId in world.lost
  }

  lemma {:induction false} RecallInWorld(world: World, slot: nat)
    requires WorldInv(world)
    ensures LiveOrNone(world.windows, Recalled(world.s, slot, world.windows)) <==> !BoundToLost(world, slot)
  {
    hide Inv, OwnsAll, Matches, Glob;
    RecallIsLiveIff(world.s, slot, world.windows);
    if Resolves(world.s, slot) {
      var k := IndexOf(world.s.registry.entries, world.s.slots[slot].matchId);
      assert EntryOf(world.s, slot) == world.s.registry.entries[k];
    }
  }

  /** harpoon.c:82-100.  After any run a recall yields a listed window or none
      exactly when the slot's window was not lost by a refresh without rebinding. */
  lemma {:induction false} RecallIsLiveUnlessLost(ws: seq<WindowInfo>, run: seq<Action>, last: World, slot: nat)
    requires Listable(ws) && Run(Start(ws), run, last)
    ensures LiveOrNone(last.windows, Recalled(last.s, slot, last.windows)) <==> !BoundToLost(last, slot)
  {
    hide WorldInv, Run;
    StartInv(ws);
    RunKeeps(Start(ws), run, last);
    RecallInWorld(last, slot);
  }

  /** Without such a refresh nothing is ever lost: recall is always live. */
  lemma {:induction false} NothingLost(from: World, run: seq<Action>, last: World)
    requires |from.s.slots| == MAX_HARPOON_SLOTS && WorldInv(from) && Run(from, run, last) && from.lost == {}
    requires forall k :: 0 <= k < |run| ==> !run[k].ListRefreshed?
    ensures last.lost == {}
    decreases |run|
  {
    hide WorldInv;
    if run != [] {
      AfterKeeps(from, run[0]);
      WorldHasSlots(After(from, run[0]));
      NothingLost(After(from, run[0]), run[1..], last);
    }
  }

  lemma {:induction false} RecallIsLiveWithoutRefresh(ws: seq<WindowInfo>, run: seq<Action>, last: World, slot: nat)
    requires Listable(ws) && Run(Start(ws), run, last) && forall k :: 0 <= k < |run| ==> !run[k].ListRefreshed?
    ensures LiveOrNone(last.windows, Recalled(last.s, slot, last.windows))
  {
    hide WorldInv, Run, Recalled;
    StartInv(ws);
    NothingLost(Start(ws), run, last);
    RecallIsLiveUnlessLost(ws, run, last, slot);
  }

  /** Assign the only window, then let a bare refresh find the list empty: recall
      activates a window that is gone. */
  lemma {:induction false} ShortestStaleRun(w: WindowInfo) returns (last: World)
    requires w.id != 0
    ensures Run(Start([w]), [Press(0, w), ListRefreshed([])], last)
    ensures Recalled(last.s, 0, last.windows) == w.id && !LiveOrNone(last.windows, w.id)
  {
    hide Inv, OwnsAll, Toggled, Glob, Matches, Holds, Resolves, EntryOf;
    var start := Start([w]);
    StartInv([w]);
    StartHoldsNothing([w], 0, w);
    OwnershipKept(start.s, 0, w);
    AssignOutcome(start.s, 0, w);
    AssignedIsBound(start.s, 0, w);
    assert Start([w]).windows[0] == w;
    var mid := After(start, Press(0, w));
    AfterKeeps(start, Press(0, w));
    WorldHasSlots(mid);
    last := After(mid, ListRefreshed([]));
    assert [Press(0, w), ListRefreshed([])][1..] == [ListRefreshed([])];
    assert [ListRefreshed([])][1..] == [];
    assert Run(last, [], last);
    assert Run(mid, [ListRefreshed([])], last);
  }

  lemma {:induction false} StartHoldsNothing(ws: seq<WindowInfo>, slot: nat, w: WindowInfo)
    ensures !Holds(Start(ws).s, slot, w)
  {
  }

  lemma {:induction false} AssignedIsBound(s: State, slot: nat, w: WindowInfo)
    requires Inv(s) && slot < |s.slots| && !Holds(s, slot, w) && HasRoom(s, slot, w) && w.id != 0
    ensures var t := Toggled(s, slot, w); Recalled(t, slot, []) == w.id
  {
    hide WellFormed, Except, Glob, Toggled;
    AssignedSlot(s, slot, w);
  }

  /** One action is never enough. */
  lemma {:induction false} OneActionIsLive(ws: seq<WindowInfo>, run: seq<Action>, last: World, slot: nat)
    requires Listable(ws) && |run| <= 1 && Run(Start(ws), run, last)
    ensures LiveOrNone(last.windows, Recalled(last.s, slot, last.windows))
  {
    hide WorldInv, Recalled, Toggled, Inv;
    if run != [] && run[0].ListRefreshed? {
      StartInv(ws);
      assert run[1..] == [];
      assert last == After(Start(ws), run[0]);
      RecallIsLiveUnlessLost(ws, run, last, slot);
    } else {
      RecallIsLiveWithoutRefresh(ws, run, last, slot);
    }
  }
}
