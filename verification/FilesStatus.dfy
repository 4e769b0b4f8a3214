/** The status text of the file search: when a timeout is noted, and when the note
    can be read (src/files/files_search.c:460-473 and 599-612). */
module FilesStatus {
  import opened CStrings
  import opened FilesProtocol
  import opened FilesFilter
  import opened PathReader

  /** While the timeout is noted nothing loads and fd is there; while fd is missing no
      search of the current generation has a timer. */
  ghost predicate NoteOk(s: State) {
    && (s.note.status == TimedOut ==> !s.loading && !s.note.unavailable)
    && (s.note.unavailable ==> forall c :: c in s.timers && c in s.heap ==> s.heap[c].born != s.refreshes)
  }

  lemma {:induction false} NoteStep(s: State, e: Event, excluded: Exclusion)
    requires Inv(s, excluded) && Enabled(s, e, excluded) && NoteOk(s) && s.refreshes < GENERATIONS
    ensures Alive(s, e) && NoteOk(Step(s, e, excluded))
  {
    hide Inv, IsFilterOutcome, Receive, NoteOk;
    StepInv(s, e, excluded);
    match e
    case TimeoutFires(c) => NoteAfterTimeout(s, c, excluded);
    case ProcessExits(c, hits) => NoteAfterExit(s, c, hits, excluded);
    case ReadCompletes(c, input, hits) => NoteAfterRead(s, c, input, hits, excluded);
    case LeaveTab => NoteAfterEnding(s, excluded);
    case Refresh(launch) => NoteAfterRefresh(s, launch, excluded);
    case CleanUp => NoteAfterEnding(s, excluded);
    case QueryChanges(text, hits) => NoteAfterQuery(s, text, hits);
  }

  lemma {:induction false} NoteAfterQuery(s: State, text: seq<byte>, hits: seq<nat>)
    requires NoteOk(s)
    ensures NoteOk(s.(query := text, filtered := hits))
  {
  }

  lemma {:induction false} NoteAfterTimeout(s: State, c: nat, excluded: Exclusion)
    requires Inv(s, excluded) && c in s.timers && NoteOk(s) && s.refreshes < GENERATIONS
    ensures c in s.heap && NoteOk(OnTimeout(s, c))
  {
    hide Inv, Search.Generation;
    InvHeld(s, c, excluded);
    SameGeneration(s, c, excluded);
  }

  /** Below 2^32 refreshes the wrapped numbers tell the searches apart. */
  lemma {:induction false} SameGeneration(s: State, c: nat, excluded: Exclusion)
    requires Inv(s, excluded) && c in s.heap && s.refreshes < GENERATIONS
    ensures s.heap[c].Generation() == s.refreshes % GENERATIONS <==> s.heap[c].born == s.refreshes
  {
    hide IsFilterOutcome, HasReadOk;
  }

  lemma {:induction false} NoteAfterExit(s: State, c: nat, hits: seq<nat>, excluded: Exclusion)
    requires Inv(s, excluded) && c in s.waiting && NoteOk(s)
    ensures c in s.heap && NoteOk(OnExit(s, c, hits))
  {
    hide Inv, Search.Generation;
    InvHeld(s, c, excluded);
  }

  lemma {:induction false} NoteAfterRead(s: State, c: nat, input: Input, hits: seq<nat>, excluded: Exclusion)
    requires Inv(s, excluded) && c in s.reading && NoteOk(s)
    ensures c in s.heap && NoteOk(OnRead(s, c, input, hits, excluded))
  {
    hide Inv, Search.Generation, Receive;
    InvHeld(s, c, excluded);
    ReceiveFrame(s.heap[c], input, excluded);
  }

  lemma {:induction false} NoteAfterEnding(s: State, excluded: Exclusion)
    requires Inv(s, excluded) && NoteOk(s)
    ensures s.pending.Some? ==> s.pending.value in s.heap
    ensures NoteOk(OnLeave(s)) && NoteOk(OnCleanUp(s))
  {
    hide Inv, Loose;
    AbandonPendingLoose(s, excluded);
  }

  lemma {:induction false} BornBefore(s: State, excluded: Exclusion)
    requires Inv(s, excluded)
    ensures forall c :: c in s.heap ==> s.heap[c].born <= s.refreshes && c < s.nextId
  {
    hide IsFilterOutcome, HasReadOk;
  }

  lemma {:induction false} NoteAfterRefresh(s: State, launch: Launch, excluded: Exclusion)
    requires Inv(s, excluded) && NoteOk(s)
    ensures s.pending.Some? ==> s.pending.value in s.heap
    ensures NoteOk(OnRefresh(s, launch))
  {
    BornBefore(s, excluded);
    hide Inv, Loose;
    AbandonPendingLoose(s, excluded);
  }

  lemma {:induction false} NoteRun(s: State, es: seq<Event>, t: State, excluded: Exclusion)
    requires Inv(s, excluded) && NoteOk(s) && Run(s, es, t, excluded) && t.refreshes < GENERATIONS
    ensures NoteOk(t)
    decreases |es|
  {
    hide Inv, Step, Enabled, Alive, NoteOk;
    if es != [] {
      var s1 := Step(s, es[0], excluded);
      RunRefreshes(s1, es[1..], t, excluded);
      RefreshesGrow(s, es[0], excluded);
      StepInv(s, es[0], excluded);
      NoteStep(s, es[0], excluded);
      NoteRun(s1, es[1..], t, excluded);
    }
  }

  /** In every run of fewer than 2^32 refreshes, the noted timeout is what the tab
      reads exactly while no paths are cached: cached paths hide it. */
  lemma {:induction false} TimeoutIsReadIff(es: seq<Event>, t: State, enabled: bool, excluded: Exclusion)
    requires Run(INITIAL, es, t, excluded) && t.refreshes < 0x1_0000_0000
    ensures MessageOf(t, enabled) == Told(TimedOut) <==> t.note.status == TimedOut && t.cache == None
  {
    hide Inv, Run;
    InitialInv(excluded);
    NoteRun(INITIAL, es, t, excluded);
  }

  /** files_search.c:515-571 and 599-612.  What an empty list says after a refresh: that
      it loads or that fd is missing, at once; that the tab is off or fd did not start,
      only while no paths are cached from before. */
  lemma {:induction false} RefreshTells(s: State, launch: Launch, enabled: bool, excluded: Exclusion)
    requires Inv(s, excluded) && Enabled(s, Refresh(launch), excluded)
    ensures Alive(s, Refresh(launch))
    ensures var told := MessageOf(Step(s, Refresh(launch), excluded), enabled);
            && (launch == Started ==> told == Told(Loading))
            && (launch == NoTool ==> told == Told(ToolMissing))
            && (launch == Disabled && s.cache == None ==> told == Told(TabDisabled))
            && (launch == SpawnFailed && s.cache == None ==> told == Told(LaunchFailed))
            && (launch in {Disabled, SpawnFailed} && s.cache != None && !s.note.unavailable && enabled ==>
                  told == if s.query == [] then TypeToSearch else NothingMatched)
            && (launch in {Disabled, SpawnFailed} && s.cache != None && !s.note.unavailable && !enabled ==>
                  told == Told(TabDisabled))
  {
    hide Inv, IsFilterOutcome;
    StepInv(s, Refresh(launch), excluded);
  }

  /** Once a search has delivered, an empty list asks for a query or says that nothing
      matched. */
  lemma {:induction false} DeliveryTells(s: State, e: Event, enabled: bool, excluded: Exclusion)
    requires Inv(s, excluded) && Enabled(s, e, excluded)
    ensures Alive(s, e)
    ensures var t := Step(s, e, excluded);
            |t.applied| > |s.applied| ==>
              MessageOf(t, enabled) == if !enabled then Told(TabDisabled)
                                       else if s.query == [] then TypeToSearch else NothingMatched
  {
    hide Inv, IsFilterOutcome, Receive;
    StepInv(s, e, excluded);
  }

  // ---- The timer of a search that is over ----

  function Refreshes(es: seq<Event>): (n: nat) {
    if es == [] then 0 else Refreshes(es[1..]) + if es[0].Refresh? then 1 else 0
  }

  /** A timer that is still there was there before, for the same search. */
  ghost predicate TimerKept(s: State, t: State, c: nat) {
    && c < t.nextId
    && (c in t.timers ==> c in s.timers && c in s.heap && c in t.heap && t.heap[c].born == s.heap[c].born)
  }

  lemma {:induction false} TimerStep(s: State, e: Event, c: nat, excluded: Exclusion)
    requires Inv(s, excluded) && Enabled(s, e, excluded) && c < s.nextId
    ensures Alive(s, e)
    ensures var t := Step(s, e, excluded);
            TimerKept(s, t, c) && t.refreshes == s.refreshes + if e.Refresh? then 1 else 0
  {
    hide Inv, IsFilterOutcome, Receive, TimerKept, OnTimeout, OnExit, OnRead, OnLeave, OnCleanUp, OnRefresh;
    StepInv(s, e, excluded);
    if c in s.timers {
      InvHeld(s, c, excluded);
    }
    match e
    case TimeoutFires(d) => TimerAfterTimeout(s, d, c);
    case ProcessExits(d, hits) => TimerAfterExit(s, d, hits, c);
    case ReadCompletes(d, input, hits) => TimerAfterRead(s, d, input, hits, c, excluded);
    case LeaveTab => TimerAfterEnding(s, c);
    case Refresh(launch) => TimerAfterRefresh(s, launch, c);
    case CleanUp => TimerAfterEnding(s, c);
    case QueryChanges(text, hits) => TimerAfterQuery(s, text, hits, c);
  }

  lemma {:induction false} TimerAfterTimeout(s: State, d: nat, c: nat)
    requires d in s.heap && c < s.nextId && (c in s.timers ==> c in s.heap)
    ensures TimerKept(s, OnTimeout(s, d), c) && OnTimeout(s, d).refreshes == s.refreshes
  {
    hide Search.Generation;
  }

  lemma {:induction false} TimerAfterExit(s: State, d: nat, hits: seq<nat>, c: nat)
    requires d in s.heap && c < s.nextId && (c in s.timers ==> c in s.heap)
    ensures TimerKept(s, OnExit(s, d, hits), c) && OnExit(s, d, hits).refreshes == s.refreshes
  {
    hide Search.Generation;
  }

  lemma {:induction false} TimerAfterRead(s: State, d: nat, input: Input, hits: seq<nat>, c: nat, excluded: Exclusion)
    requires d in s.heap && c < s.nextId && (c in s.timers ==> c in s.heap)
    ensures var t := OnRead(s, d, input, hits, excluded); TimerKept(s, t, c) && t.refreshes == s.refreshes
  {
    hide Search.Generation, Receive;
    ReceiveFrame(s.heap[d], input, excluded);
  }

  lemma {:induction false} TimerAfterEnding(s: State, c: nat)
    requires c < s.nextId && (c in s.timers ==> c in s.heap) && (s.pending.Some? ==> s.pending.value in s.heap)
    ensures TimerKept(s, OnLeave(s), c) && OnLeave(s).refreshes == s.refreshes
    ensures TimerKept(s, OnCleanUp(s), c) && OnCleanUp(s).refreshes == s.refreshes
  {
  }

  lemma {:induction false} TimerAfterRefresh(s: State, launch: Launch, c: nat)
    requires c < s.nextId && (c in s.timers ==> c in s.heap) && (s.pending.Some? ==> s.pending.value in s.heap)
    ensures TimerKept(s, OnRefresh(s, launch), c) && OnRefresh(s, launch).refreshes == s.refreshes + 1
  {
  }

  lemma {:induction false} TimerAfterQuery(s: State, text: seq<byte>, hits: seq<nat>, c: nat)
    requires c < s.nextId && (c in s.timers ==> c in s.heap)
    ensures TimerKept(s, s.(query := text, filtered := hits), c)
  {
  }

  lemma {:induction false} TimerRun(s: State, es: seq<Event>, t: State, c: nat, excluded: Exclusion)
    requires Inv(s, excluded) && Run(s, es, t, excluded) && c < s.nextId && c in t.timers
    ensures t.refreshes == s.refreshes + Refreshes(es)
    ensures c in s.timers && c in s.heap && c in t.heap && t.heap[c].born == s.heap[c].born
    decreases |es|
  {
    hide Inv, Step, Enabled, Alive;
    if es == [] {
      InvHeld(s, c, excluded);
    } else {
      StepInv(s, es[0], excluded);
      TimerStep(s, es[0], c, excluded);
      TimerRun(Step(s, es[0], excluded), es[1..], t, c, excluded);
    }
  }

  /** When a search of the current generation, delivered or not, still has its timer
      after a run, the timer notes a timeout exactly if nothing was refreshed. */
  lemma {:induction false} TimerNotesIff(s: State, es: seq<Event>, t: State, c: nat, excluded: Exclusion)
    requires Inv(s, excluded) && c in s.heap && s.heap[c].born == s.refreshes
    requires Run(s, es, t, excluded) && t.refreshes < GENERATIONS && c in t.timers
    ensures Alive(t, TimeoutFires(c))
    ensures Step(t, TimeoutFires(c), excluded).note ==
            if Refreshes(es) == 0 then t.note.(status := TimedOut) else t.note
  {
    BornBefore(s, excluded);
    hide Inv, Run, Search.Generation, IsFilterOutcome;
    TimerRun(s, es, t, c, excluded);
    RunInv(s, es, t, excluded);
    StepInv(t, TimeoutFires(c), excluded);
    SameGeneration(t, c, excluded);
  }

  lemma {:induction false} CacheStays(s: State, es: seq<Event>, t: State, excluded: Exclusion)
    requires Inv(s, excluded) && Run(s, es, t, excluded) && forall k :: 0 <= k < |es| ==> !es[k].CleanUp?
    requires s.applied != [] ==> s.cache.Some?
    ensures t.applied != [] ==> t.cache.Some?
    decreases |es|
  {
    hide Inv, Step, Enabled, Alive;
    if es != [] {
      StepInv(s, es[0], excluded);
      CacheStep(s, es[0], excluded);
      CacheStays(Step(s, es[0], excluded), es[1..], t, excluded);
    }
  }

  /** Only the clean-up on exit drops the cache.  Before it, once any search has
      delivered, no later timer brings "fd timeout" to the screen. */
  lemma {:induction false} DeliveredHidesTimeout(es: seq<Event>, t: State, enabled: bool, excluded: Exclusion)
    requires Run(INITIAL, es, t, excluded) && t.refreshes < 0x1_0000_0000
    requires t.applied != [] && forall k :: 0 <= k < |es| ==> !es[k].CleanUp?
    ensures MessageOf(t, enabled) != Told(TimedOut)
  {
    hide Inv, Run, MessageOf;
    InitialInv(excluded);
    CacheStays(INITIAL, es, t, excluded);
    TimeoutIsReadIff(es, t, enabled, excluded);
  }

  /** After the clean-up it can be read: the timer of a search that fd answered in
      time still noted a timeout. */
  lemma {:induction false} FinishedSearchReadsTimeout(excluded: Exclusion) returns (t: State)
    ensures Run(INITIAL, [Refresh(Started), ReadCompletes(0, Eof, []), ProcessExits(0, []), TimeoutFires(0), CleanUp],
                t, excluded)
    ensures t.applied == [0] && MessageOf(t, true) == Told(TimedOut)
  {
    hide Run;
    var f := Search(1, NEW_READER, [], AtEof, true, false);
    var first := [Refresh(Started), ReadCompletes(0, Eof, []), ProcessExits(0, [])];
    var s1 := AfterFirst(f);
    FirstSearch(excluded);
    var s2 := Step(s1, TimeoutFires(0), excluded);
    RunOne(s1, TimeoutFires(0), excluded);
    t := Step(s2, CleanUp, excluded);
    RunOne(s2, CleanUp, excluded);
    RunConcat(INITIAL, first, s1, [TimeoutFires(0)], s2, excluded);
    RunConcat(INITIAL, first + [TimeoutFires(0)], s2, [CleanUp], t, excluded);
    assert first + [TimeoutFires(0)] + [CleanUp] ==
           [Refresh(Started), ReadCompletes(0, Eof, []), ProcessExits(0, []), TimeoutFires(0), CleanUp];
  }
}
