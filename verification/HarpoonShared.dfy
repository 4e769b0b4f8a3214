/** When two harpoon slots recall one window (src/harpoon/CONTEXT.md, criterion 3,
    promises at most one slot per window). */
module HarpoonShared {
  import opened Harpoon
  import opened HarpoonRuns
  import opened MatchRegistry

  ghost function RecalledIn(world: World, i: nat): int {
    Recalled(world.s, i, world.windows)
  }

  ghost predicate Shared(world: World, i: nat, j: nat) {
    i != j && RecalledIn(world, i) == RecalledIn(world, j) != 0
  }

  /** What a slot recalls once all entries have been rebound to the list. */
  ghost function RecalledRebound(s: State, i: nat, ws: seq<WindowInfo>): int {
    if Resolves(s, i) && Rebound(EntryOf(s, i), ws).isAssigned then Rebound(EntryOf(s, i), ws).boundId else 0
  }

  /** Slot `i` recalls the window, but its pattern does not match it any more: the
      window was retitled since. */
  ghost predicate KeepsRetitled(world: World, i: nat, w: WindowInfo) {
    RecalledIn(world, i) == w.id && !Holds(world.s, i, w)
  }

  /** What slot `i` recalls after the action, told from the world before it. */
  ghost function RecalledNext(world: World, a: Action, i: nat): int
    requires |world.s.slots| == MAX_HARPOON_SLOTS && Enabled(world, a)
  {
    match a
    case Press(slot, w) =>
      if i == slot then if Holds(world.s, slot, w) then 0 else w.id
      else if !Holds(world.s, slot, w) && Holds(world.s, i, w) then 0
      else RecalledIn(world, i)
    case Recall(slot) =>
      if RecallRebinds(world.s, slot) then RecalledRebound(world.s, i, world.windows) else RecalledIn(world, i)
    case ListChanged(ws) => RecalledRebound(world.s, i, ws)
    case ListRefreshed(ws) => Recalled(world.s, i, ws)
  }

  lemma {:induction false} RecallAfterRebinding(s: State, i: nat, ws: seq<WindowInfo>)
    requires Listable(ws)
    ensures Recalled(WithRebound(s, ws), i, ws) == RecalledRebound(s, i, ws)
  {
    hide Step, Resolves, EntryOf, Matches;
    ReboundSlot(s, i, ws);
    if Resolves(s, i) {
      var m := FirstMatch(EntryOf(s, i), ws, 0);
      assert m < |ws| ==> ws[m].id != 0;
      ReboundTwice(EntryOf(s, i), ws);
    }
  }

  /** Rebinding again changes nothing. */
  lemma {:induction false} ReboundTwice(e: MatchEntry, ws: seq<WindowInfo>)
    requires Listable(ws)
    ensures Rebound(Rebound(e, ws), ws) == Rebound(e, ws)
  {
    hide Matches;
    var m := FirstMatch(e, ws, 0);
    if !Live(ws, e.boundId) {
      if m < |ws| {
        assert Live(ws, ws[m].id);
      } else {
        SamePattern(e, e.(boundId := 0, isAssigned := false), ws, 0);
      }
    }
  }

  lemma {:induction false} SamePattern(e: MatchEntry, f: MatchEntry, ws: seq<WindowInfo>, j: nat)
    requires j <= |ws| && f == e.(boundId := f.boundId, isAssigned := f.isAssigned)
    ensures FirstMatch(f, ws, j) == FirstMatch(e, ws, j)
    decreases |ws| - j
  {
    if j < |ws| {
      SamePattern(e, f, ws, j + 1);
    }
  }

  lemma {:induction false} GoneAfterPress(s: State, slot: nat, w: WindowInfo, i: nat, ws: seq<WindowInfo>)
    requires Inv(s) && slot < |s.slots| && i < |s.slots|
    requires if Holds(s, slot, w) then i == slot else i != slot && Holds(s, i, w) && HasRoom(s, slot, w)
    ensures Recalled(Toggled(s, slot, w), i, ws) == 0
  {
    hide WellFormed, Except, Matches;
  }

  lemma {:induction false} RecallAfterPress(s: State, slot: nat, w: WindowInfo, i: nat, ws: seq<WindowInfo>)
    requires Inv(s) && OwnsAll(s) && slot < |s.slots| && w.id != 0
    ensures Recalled(Toggled(s, slot, w), i, ws) ==
              if i == slot then if Holds(s, slot, w) then 0 else w.id
              else if !Holds(s, slot, w) && Holds(s, i, w) then 0
              else Recalled(s, i, ws)
  {
    hide WellFormed, Except, Holds, Toggled, OwnsAll, Matches;
    OwnershipKept(s, slot, w);
    SlotCount(s, slot, w);
    if i >= |s.slots| {
    } else if i == slot && !Holds(s, slot, w) {
      AssignedSlot(s, slot, w);
      AssignedRecalls(Toggled(s, slot, w), slot, w, ws);
    } else if i == slot || (!Holds(s, slot, w) && Holds(s, i, w)) {
      GoneAfterPress(s, slot, w, i, ws);
    } else if s.slots[i].isAssigned {
      OthersUntouched(s, slot, w, i);
    } else {
      StillEmpty(s, slot, w, i);
    }
  }

  lemma {:induction false} SlotCount(s: State, slot: nat, w: WindowInfo)
    requires slot < |s.slots|
    ensures |Toggled(s, slot, w).slots| == |s.slots|
  {
    hide Except, Holds;
  }

  lemma {:induction false} AssignedRecalls(t: State, slot: nat, w: WindowInfo, ws: seq<WindowInfo>)
    requires Resolves(t, slot) && EntryOf(t, slot).boundId == w.id != 0 && EntryOf(t, slot).isAssigned
    ensures Recalled(t, slot, ws) == w.id
  {
  }

  lemma {:induction false} StillEmpty(s: State, slot: nat, w: WindowInfo, i: nat)
    requires slot < |s.slots| && i < |s.slots| && i != slot && !s.slots[i].isAssigned
    ensures !Toggled(s, slot, w).slots[i].isAssigned
  {
    hide Except, Holds;
  }

  lemma {:induction false} ListedIsReal(world: World, a: Action)
    requires WorldInv(world) && Enabled(world, a) && a.Press?
    ensures a.w.id != 0 && a.slot < |world.s.slots|
  {
  }

  /** What each action does to what every slot recalls. */
  lemma {:induction false} RecalledAfter(world: World, a: Action, i: nat)
    requires WorldInv(world) && |world.s.slots| == MAX_HARPOON_SLOTS && Enabled(world, a)
    ensures RecalledIn(After(world, a), i) == RecalledNext(world, a, i)
  {
    hide Inv, OwnsAll, Toggled, Step, Resolves, Holds, Recalled, RecalledRebound;
    match a
    case Press(slot, w) =>
      ListedIsReal(world, a);
      RecallAfterPress(world.s, slot, w, i, world.windows);
    case Recall(slot) => RecallAfterRebinding(world.s, i, world.windows);
    case ListChanged(ws) => RecallAfterRebinding(world.s, i, ws);
    case ListRefreshed(ws) =>
  }

  /** Two slots that recalled different windows come to recall one exactly when a
      window is assigned that the other slot recalls although it was retitled, or
      when a new list gives both the same first match. */
  lemma {:induction false} BecomeSharedIff(world: World, a: Action, i: nat, j: nat)
    requires WorldInv(world) && |world.s.slots| == MAX_HARPOON_SLOTS && Enabled(world, a)
    requires i != j && !Shared(world, i, j)
    ensures Shared(After(world, a), i, j) <==>
              match a
              case Press(slot, w) =>
                !Holds(world.s, slot, w)
                && ((i == slot && KeepsRetitled(world, j, w)) || (j == slot && KeepsRetitled(world, i, w)))
              case Recall(slot) =>
                RecallRebinds(world.s, slot)
                && RecalledRebound(world.s, i, world.windows) == RecalledRebound(world.s, j, world.windows) != 0
              case ListChanged(ws) => RecalledRebound(world.s, i, ws) == RecalledRebound(world.s, j, ws) != 0
              case ListRefreshed(ws) => Recalled(world.s, i, ws) == Recalled(world.s, j, ws) != 0
  {
    hide WorldInv, After, RecalledIn, Holds, RecalledRebound, Recalled;
    RecalledAfter(world, a, i);
    RecalledAfter(world, a, j);
    if a.Press? {
      ListedIsReal(world, a);
    }
  }

  // ---- The smallest example ----

  lemma {:induction false} ListedHere(ws: seq<WindowInfo>, k: nat)
    requires k < |ws|
    ensures ws[k].id in Ids(ws)
  {
  }

  lemma {:induction false} ThreeActions(world: World, a: Action, b: Action, c: Action)
    requires |world.s.slots| == MAX_HARPOON_SLOTS && Enabled(world, a)
    requires |After(world, a).s.slots| == MAX_HARPOON_SLOTS && Enabled(After(world, a), b)
    requires var second := After(After(world, a), b);
             && |second.s.slots| == MAX_HARPOON_SLOTS && Enabled(second, c)
             && |After(second, c).s.slots| == MAX_HARPOON_SLOTS
    ensures Run(world, [a, b, c], After(After(After(world, a), b), c))
  {
    hide After, Enabled;
    var run := [a, b, c];
    assert run[1..] == [b, c] && [b, c][1..] == [c] && [c][1..] == [];
    var third := After(After(After(world, a), b), c);
    assert Run(third, [], third);
    assert Run(After(After(world, a), b), [c], third);
    assert Run(After(world, a), [b, c], third);
  }

  lemma {:induction false} AssignedFirst(w: WindowInfo)
    requires w.id != 0
    ensures var t := Toggled(Start([w]).s, 0, w);
            Resolves(t, 0) && EntryOf(t, 0) == Captured(w, 1) && !Resolves(t, 1)
  {
    hide Matches, WellFormed, Except;
    StartInv([w]);
    StartHoldsNothing([w], 0, w);
    OwnershipKept(Start([w]).s, 0, w);
    AssignedSlot(Start([w]).s, 0, w);
    StillEmpty(Start([w]).s, 0, w, 1);
  }

  lemma {:induction false} RetitledStays(t: State, w: WindowInfo, v: WindowInfo)
    requires Resolves(t, 0) && EntryOf(t, 0) == Captured(w, 1) && !Resolves(t, 1)
    requires w.id == v.id != 0 && !Matches(Captured(w, 1), v)
    ensures var r := WithRebound(t, [v]);
            !Holds(r, 0, v) && !Holds(r, 1, v) && Recalled(r, 0, [v]) == v.id && Recalled(r, 1, [v]) == 0
  {
    hide Step, Matches;
    ReboundSlot(t, 0, [v]);
    ReboundSlot(t, 1, [v]);
    assert [v][0].id == v.id;
    assert Live([v], w.id);
    var e := Captured(w, 1);
    SameMatches(e, Rebound(e, [v]), v);
  }

  lemma {:induction false} SameMatches(e: MatchEntry, f: MatchEntry, v: WindowInfo)
    requires f == e.(boundId := f.boundId, isAssigned := f.isAssigned)
    ensures Matches(f, v) == Matches(e, v)
  {
  }

  /** Assign the only window, give it another title, assign it to a second slot:
      both slots recall it. */
  lemma {:induction false} RetitledIsShared(w: WindowInfo, v: WindowInfo) returns (last: World)
    requires w.id == v.id != 0 && !Matches(Captured(w, 1), v)
    ensures Run(Start([w]), [Press(0, w), ListChanged([v]), Press(1, v)], last)
    ensures Shared(last, 0, 1) && RecalledIn(last, 0) == v.id
  {
    hide Inv, OwnsAll, Toggled, Matches, Holds, Run, Step, Resolves, EntryOf, Recalled, WithRebound;
    var start := Start([w]);
    StartInv([w]);
    ListedHere([w], 0);
    AssignedFirst(w);
    AfterKeeps(start, Press(0, w));
    var bound := After(start, Press(0, w));
    WorldHasSlots(bound);
    RetitledStays(bound.s, w, v);
    AfterKeeps(bound, ListChanged([v]));
    var retitled := After(bound, ListChanged([v]));
    WorldHasSlots(retitled);
    ListedHere([v], 0);
    RecalledAfter(retitled, Press(1, v), 0);
    RecalledAfter(retitled, Press(1, v), 1);
    last := After(retitled, Press(1, v));
    AfterKeeps(retitled, Press(1, v));
    WorldHasSlots(last);
    ThreeActions(start, Press(0, w), ListChanged([v]), Press(1, v));
  }
}
