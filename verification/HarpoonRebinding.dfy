/** What a slot recalls once the window list has changed (match_entry.c:104-146 and
    src/harpoon/harpoon.c:82-100). */
module HarpoonRebinding {
  import opened Harpoon
  import opened HarpoonRuns
  import opened HarpoonShared
  import opened MatchRegistry

  /** The id is that of the first window in the list that the entry matches. */
  ghost predicate FirstMatchIs(e: MatchEntry, ws: seq<WindowInfo>, id: int) {
    exists j :: IsFirstMatch(e, ws, j) && ws[j].id == id
  }

  ghost predicate MatchesNone(e: MatchEntry, ws: seq<WindowInfo>) {
    forall j :: 0 <= j < |ws| ==> !Matches(e, ws[j])
  }

  ghost function RecalledWith(world: World, i: nat, ws: seq<WindowInfo>): int
    requires |world.s.slots| == MAX_HARPOON_SLOTS && Listable(ws)
  {
    RecalledIn(After(world, ListChanged(ws)), i)
  }

  lemma {:induction false} FirstIsUnique(e: MatchEntry, ws: seq<WindowInfo>, j: int, k: int)
    requires IsFirstMatch(e, ws, j) && IsFirstMatch(e, ws, k)
    ensures j == k
  {
    hide Matches;
  }

  lemma {:induction false} EntryIsBound(world: World, i: nat)
    requires WorldInv(world) && Resolves(world.s, i)
    ensures |world.s.slots| == MAX_HARPOON_SLOTS
    ensures var e := EntryOf(world.s, i); e.boundId != 0 ==> e.isAssigned && Bound(e)
  {
    var k := IndexOf(world.s.registry.entries, world.s.slots[i].matchId);
    assert EntryOf(world.s, i) == world.s.registry.entries[k];
  }

  lemma {:induction false} RecalledWithIs(world: World, i: nat, ws: seq<WindowInfo>)
    requires WorldInv(world) && |world.s.slots| == MAX_HARPOON_SLOTS && Listable(ws)
    ensures RecalledWith(world, i, ws) == RecalledRebound(world.s, i, ws)
  {
    hide WorldInv, After, RecalledIn, RecalledRebound;
    RecalledAfter(world, ListChanged(ws), i);
  }

  /** After a change of the list a slot recalls its window if that is still listed,
      whatever else its pattern matches; else the first window it matches, or none. */
  lemma {:induction false} RecallAfterChange(start: seq<WindowInfo>, run: seq<Action>, world: World, i: nat,
                                             ws: seq<WindowInfo>)
    requires Listable(start) && Run(Start(start), run, world) && Listable(ws)
    ensures |world.s.slots| == MAX_HARPOON_SLOTS
    ensures var id := RecalledWith(world, i, ws);
            if !Resolves(world.s, i) then id == 0
            else
              var e := EntryOf(world.s, i);
              if e.boundId in Ids(ws) then id == e.boundId
              else FirstMatchIs(e, ws, id) || (id == 0 && MatchesNone(e, ws))
  {
    hide WorldInv, Matches, Run, Rebound, Resolves, EntryOf, After, RecalledIn;
    StartInv(start);
    RunKeeps(Start(start), run, world);
    WorldHasSlots(world);
    RecalledWithIs(world, i, ws);
    if Resolves(world.s, i) {
      var e := EntryOf(world.s, i);
      ReboundIs(e, ws);
    }
  }

  /** A listed window that a slot recalls stays the one it recalls exactly if the
      slot is bound to it or it is the first match in the new list. */
  lemma {:induction false} RecallIsKeptIff(start: seq<WindowInfo>, run: seq<Action>, world: World, i: nat,
                                           ws: seq<WindowInfo>)
    requires Listable(start) && Run(Start(start), run, world) && Listable(ws) && RecalledIn(world, i) in Ids(ws)
    ensures |world.s.slots| == MAX_HARPOON_SLOTS && Resolves(world.s, i)
    ensures RecalledWith(world, i, ws) == RecalledIn(world, i) <==>
            Bound(EntryOf(world.s, i)) || FirstMatchIs(EntryOf(world.s, i), ws, RecalledIn(world, i))
  {
    hide WorldInv, Matches, Run, Resolves, EntryOf, After, RecalledWith, Rebound;
    RecallAfterChange(start, run, world, i, ws);
    StartInv(start);
    RunKeeps(Start(start), run, world);
    var e, id := EntryOf(world.s, i), RecalledIn(world, i);
    EntryIsBound(world, i);
    if !Bound(e) {
      var now := RecalledWith(world, i, ws);
      assert e.boundId == 0;
      if FirstMatchIs(e, ws, id) {
        var j :| IsFirstMatch(e, ws, j) && ws[j].id == id;
        MatchesFirst(e, ws, j);
        var k :| IsFirstMatch(e, ws, k) && ws[k].id == now;
        FirstIsUnique(e, ws, j, k);
      }
    }
  }

  lemma {:induction false} MatchesFirst(e: MatchEntry, ws: seq<WindowInfo>, j: int)
    requires IsFirstMatch(e, ws, j)
    ensures !MatchesNone(e, ws)
  {
    hide Matches;
  }

  // ---- A slot that is not bound ----

  lemma {:induction false} Unbinds(s: State, w: WindowInfo)
    requires Resolves(s, 0) && EntryOf(s, 0) == Captured(w, 1)
    ensures var t := WithRebound(s, []);
            Resolves(t, 0) && EntryOf(t, 0) == Captured(w, 1).(boundId := 0, isAssigned := false)
  {
    hide Step;
    ReboundSlot(s, 0, []);
  }

  lemma {:induction false} UnboundRecalls(s: State, w: WindowInfo)
    requires w.id != 0
    requires Resolves(s, 0) && EntryOf(s, 0) == Captured(w, 1).(boundId := 0, isAssigned := false)
    ensures Recalled(s, 0, [w]) == w.id
  {
    hide Matches;
    CapturedMatchesSource(w, 1);
    var e := EntryOf(s, 0);
    SameMatches(Captured(w, 1), e, w);
    assert [w][0] == w;
    assert FirstMatch(e, [w], 0) == 0;
  }

  /** A slot that was unbound would recall a listed window it matches, but is not bound to
      it: when the list puts another match first, it recalls that one. */
  lemma {:induction false} UnboundMoves(w: WindowInfo, v: WindowInfo) returns (last: World)
    requires w.id != 0 && v.id != 0 && w.id != v.id && Matches(Captured(w, 1), v)
    ensures Run(Start([w]), [Press(0, w), ListChanged([]), ListRefreshed([w])], last)
    ensures |last.s.slots| == MAX_HARPOON_SLOTS
    ensures RecalledIn(last, 0) == w.id && RecalledWith(last, 0, [v, w]) == v.id
  {
    hide Inv, OwnsAll, Toggled, Matches, Holds, Run, Step, Resolves, EntryOf, Recalled, WithRebound;
    var start := Start([w]);
    StartInv([w]);
    ListedHere([w], 0);
    AssignedFirst(w);
    AfterKeeps(start, Press(0, w));
    var bound := After(start, Press(0, w));
    WorldHasSlots(bound);
    Unbinds(bound.s, w);
    AfterKeeps(bound, ListChanged([]));
    var unbound := After(bound, ListChanged([]));
    WorldHasSlots(unbound);
    AfterKeeps(unbound, ListRefreshed([w]));
    last := After(unbound, ListRefreshed([w]));
    WorldHasSlots(last);
    UnboundRecalls(last.s, w);
    ThreeActions(start, Press(0, w), ListChanged([]), ListRefreshed([w]));
    var e := Captured(w, 1).(boundId := 0, isAssigned := false);
    SameMatches(Captured(w, 1), e, v);
    assert [v, w][0] == v && [v, w][1] == w;
    RecallAfterChange([w], [Press(0, w), ListChanged([]), ListRefreshed([w])], last, 0, [v, w]);
    assert IsFirstMatch(e, [v, w], 0);
    NotListed(v, w);
    MatchesFirst(e, [v, w], 0);
    var k :| IsFirstMatch(e, [v, w], k) && [v, w][k].id == RecalledWith(last, 0, [v, w]);
    FirstIsUnique(e, [v, w], 0, k);
  }

  lemma {:induction false} NotListed(v: WindowInfo, w: WindowInfo)
    requires v.id != 0 && w.id != 0
    ensures 0 !in Ids([v, w]) && Listable([v, w])
  {
  }
}
