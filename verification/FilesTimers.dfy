/** The timers of search contexts when these are freed.  files_search_unref removes
    the source by its id, which on_timeout never clears
    (src/files/files_search.c:56-70 and 460-473). */
module FilesTimers {
  import opened FilesFilter
  import opened FilesProtocol
  import opened PathReader

  /** The event frees a context whose source is already gone: g_source_remove is
      called with a stale id. */
  ghost predicate RemovesStaleId(s: State, e: Event, c: nat, excluded: Exclusion)
    requires Alive(s, e)
  {
    c in s.heap && c !in Step(s, e, excluded).heap && c !in s.timers
  }

  /** The event is the last read or wait that a context is held by. */
  predicate LastCallback(s: State, e: Event, c: nat) {
    || (e.ProcessExits? && e.c == c && c !in s.reading)
    || (e.ReadCompletes? && e.c == c && c !in s.waiting)
  }

  /** A callback that is not for `c` leaves it alone. */
  lemma {:induction false} OthersKeep(s: State, e: Event, c: nat, excluded: Exclusion)
    requires Inv(s, excluded) && Enabled(s, e, excluded) && c in s.heap && (c in s.reading || c in s.waiting)
    requires !((e.ProcessExits? || e.ReadCompletes?) && e.c == c)
    ensures Alive(s, e) && c in Step(s, e, excluded).heap
  {
    hide Inv, IsFilterOutcome, Receive, OnTimeout, OnExit, OnRead, OnLeave, OnCleanUp, OnRefresh;
    StepInv(s, e, excluded);
    match e
    case TimeoutFires(d) => KeptByTimeout(s, d, c);
    case ProcessExits(d, hits) => KeptByExit(s, d, hits, c);
    case ReadCompletes(d, input, hits) => KeptByRead(s, d, input, hits, c, excluded);
    case LeaveTab => KeptByEnding(s, c);
    case Refresh(launch) => KeptByRefresh(s, launch, c);
    case CleanUp => KeptByEnding(s, c);
    case QueryChanges(text, hits) =>
  }

  lemma {:induction false} KeptByTimeout(s: State, d: nat, c: nat)
    requires d in s.heap && c in s.heap && (c in s.reading || c in s.waiting)
    ensures c in OnTimeout(s, d).heap
  {
    hide Search.Generation;
  }

  lemma {:induction false} KeptByExit(s: State, d: nat, hits: seq<nat>, c: nat)
    requires d in s.heap && c in s.heap && c != d && (c in s.reading || c in s.waiting)
    ensures c in OnExit(s, d, hits).heap
  {
    hide Search.Generation;
  }

  lemma {:induction false} KeptByRead(s: State, d: nat, input: Input, hits: seq<nat>, c: nat, excluded: Exclusion)
    requires d in s.heap && c in s.heap && c != d && (c in s.reading || c in s.waiting)
    ensures c in OnRead(s, d, input, hits, excluded).heap
  {
    hide Search.Generation, Receive;
  }

  lemma {:induction false} KeptByEnding(s: State, c: nat)
    requires c in s.heap && (c in s.reading || c in s.waiting) && (s.pending.Some? ==> s.pending.value in s.heap)
    ensures c in OnLeave(s).heap && c in OnCleanUp(s).heap
  {
  }

  lemma {:induction false} KeptByRefresh(s: State, launch: Launch, c: nat)
    requires c in s.heap && (c in s.reading || c in s.waiting) && (s.pending.Some? ==> s.pending.value in s.heap)
    ensures c in OnRefresh(s, launch).heap
  {
  }

  /** A context whose timer has fired is abandoned or done, and held by its
      outstanding read or wait alone. */
  lemma {:induction false} AfterItsTimer(s: State, c: nat, excluded: Exclusion)
    requires Inv(s, excluded) && c in s.heap && c !in s.timers
    ensures s.pending != Some(c) && (c in s.reading || c in s.waiting) && s.Stale(c)
  {
    hide IsFilterOutcome, HasReadOk, Search.Generation;
    assert s.Held(c);
  }

  lemma {:induction false} OwnCallback(s: State, e: Event, c: nat, excluded: Exclusion)
    requires Inv(s, excluded) && Enabled(s, e, excluded) && c in s.heap && c !in s.timers
    requires (e.ProcessExits? || e.ReadCompletes?) && e.c == c
    ensures Alive(s, e) && (c !in Step(s, e, excluded).heap <==> LastCallback(s, e, c))
  {
    hide Inv, IsFilterOutcome, Receive;
    StepInv(s, e, excluded);
    AfterItsTimer(s, c, excluded);
  }

  /** The stale call is made exactly when the last outstanding read or wait of a
      context completes after its timer fired. */
  lemma {:induction false} RemovesStaleIdIff(s: State, e: Event, c: nat, excluded: Exclusion)
    requires Inv(s, excluded) && Enabled(s, e, excluded) && c in s.heap
    ensures Alive(s, e)
    ensures RemovesStaleId(s, e, c, excluded) <==> c !in s.timers && LastCallback(s, e, c)
  {
    hide Inv, Enabled, Step;
    StepInv(s, e, excluded);
    if c !in s.timers {
      AfterItsTimer(s, c, excluded);
      if (e.ProcessExits? || e.ReadCompletes?) && e.c == c {
        OwnCallback(s, e, c, excluded);
      } else {
        OthersKeep(s, e, c, excluded);
      }
    }
  }

  /** A timer frees its own context, with the source still there to be removed,
      exactly when neither a read nor a wait is outstanding. */
  lemma {:induction false} TimerFreesIff(s: State, c: nat, excluded: Exclusion)
    requires Inv(s, excluded) && c in s.timers
    ensures Alive(s, TimeoutFires(c))
    ensures c !in Step(s, TimeoutFires(c), excluded).heap <==> c !in s.reading && c !in s.waiting
  {
    hide Inv, IsFilterOutcome;
    StepInv(s, TimeoutFires(c), excluded);
    InvHeld(s, c, excluded);
  }

  lemma {:induction false} TimersStay(s: State, e: Event, c: nat, excluded: Exclusion)
    requires Alive(s, e) && c in s.timers && e != TimeoutFires(c)
    ensures c in Step(s, e, excluded).timers
  {
    hide Receive, Search.Generation;
  }

  /** Nothing else frees a context while its timer runs, so between them these are
      all the ways a registered context goes. */
  lemma {:induction false} TimerHolds(s: State, e: Event, c: nat, excluded: Exclusion)
    requires Inv(s, excluded) && Enabled(s, e, excluded) && c in s.timers && e != TimeoutFires(c)
    ensures Alive(s, e) && c in Step(s, e, excluded).timers && c in Step(s, e, excluded).heap
  {
    hide Inv, IsFilterOutcome, Receive, Step;
    StepInv(s, e, excluded);
    TimersStay(s, e, c, excluded);
    InvHeld(Step(s, e, excluded), c, excluded);
  }
}
