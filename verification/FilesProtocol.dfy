/** The asynchronous file search of src/files/files_search.c as a step system.

    A search context is alive exactly while something holds it: the pending slot,
    its unfired timer, its outstanding read or its outstanding wait.  The steps
    below say what each event does to the contexts and to the cache without any
    reference count; `FilesSearch` shows that the program's counts do the same. */
module FilesProtocol {
  import opened CStrings
  import opened PathReader
  import opened FilesFilter

  /** search_generation is a 32-bit unsigned counter. */
  const GENERATIONS: nat := 0x1_0000_0000

  datatype Option<T> = None | Some(value: T)

  /** How reading a pipe ended; read_done is every value but `Reading`. */
  datatype ReadEnd = Reading | AtEof | AtCap | AtError

  /** A search context.  `born` is the unwrapped number of the refresh that
      created it, `received` the bytes delivered so far. */
  datatype Search = Search(born: nat, reader: Reader, received: seq<byte>, ended: ReadEnd, waitDone: bool,
      abandoned: bool) {
    predicate Finished() {
      ended != Reading && waitDone
    }

    function Generation(): nat {
      born % GENERATIONS
    }
  }

  /** status_message, by the text it holds. */
  datatype Status = Blank | Loading | TimedOut | TabDisabled | ToolMissing | LaunchFailed

  /** What the tab is told besides "loading". */
  datatype Note = Note(status: Status, unavailable: bool)

  datatype State = State(
    heap: map<nat, Search>,   // allocated contexts
    nextId: nat,              // a name no context has had yet
    pending: Option<nat>,     // s_pending_search
    timers: set<nat>,         // contexts whose timeout has not fired
    reading: set<nat>,          // contexts with an outstanding read
    waiting: set<nat>,          // contexts with an outstanding wait
    refreshes: nat,           // search_generation, unwrapped
    loading: bool,
    cache: Option<Search>,    // the search the cached paths came from
    query: seq<byte>,
    filtered: seq<nat>,
    applied: seq<nat>,        // contexts whose paths became the cache, in order
    note: Note)
  {
    predicate Held(c: nat) {
      pending == Some(c) || c in timers || c in reading || c in waiting
    }

    function Paths(): seq<Path> {
      if cache.Some? then cache.value.reader.paths else []
    }

    /** The guard of the read and wait callbacks. */
    predicate Stale(c: nat)
      requires c in heap
    {
      heap[c].abandoned || heap[c].Generation() != refreshes % GENERATIONS
    }
  }

  const INITIAL := State(map[], 0, None, {}, {}, {}, 0, false, None, [], [], [], Note(Blank, false))

  /** What files_status_message returns for an empty list; equal texts are one
      value, whether stored or not. */
  datatype Message = Told(status: Status) | TypeToSearch | NothingMatched

  function MessageOf(s: State, enabled: bool): Message {
    if s.note.status != Blank && (s.loading || s.note.unavailable || s.cache == None) then Told(s.note.status)
    else if s.loading && s.cache == None then Told(Loading)
    else if s.note.unavailable then Told(ToolMissing)
    else if !enabled then Told(TabDisabled)
    else if s.cache == None then Told(Loading)
    else if s.query == [] then TypeToSearch
    else NothingMatched
  }

  // ---- Steps ----

  /** Forget the contexts nothing holds. */
  function Collect(s: State): State {
    s.(heap := map c | c in s.heap && s.Held(c) :: s.heap[c])
  }

  function Unpend(s: State, c: nat): State {
    if s.pending == Some(c) then s.(pending := None) else s
  }

  /** abandon_search */
  function Abandon(s: State, c: nat): State
    requires c in s.heap
  {
    if s.heap[c].abandoned then s
    else Unpend(s.(heap := s.heap[c := s.heap[c].(abandoned := true)]), c)
  }

  function AbandonPending(s: State): State
    requires s.pending.Some? ==> s.pending.value in s.heap
  {
    if s.pending.Some? then Abandon(s, s.pending.value) else s
  }

  /** maybe_finish_search with apply_new_cache; `hits` is what files_filter finds. */
  function MaybeFinish(s: State, c: nat, hits: seq<nat>): State
    requires c in s.heap
  {
    if !s.heap[c].Finished() || s.Stale(c) then s
    else
      Unpend(s, c).(cache := Some(s.heap[c]), loading := false, filtered := hits, applied := s.applied + [c],
                    heap := s.heap[c := s.heap[c].(reader := s.heap[c].reader.(paths := []))],
                    note := Note(Blank, false))
  }

  /** What a read completes with. */
  datatype Input = Failed | Eof | Chunk(bytes: seq<byte>)

  function Receive(f: Search, input: Input, excluded: Exclusion): Search {
    match input
    case Failed => f.(ended := AtError)
    case Eof =>
      f.(reader := Process(f.reader, true, excluded), ended := AtEof)
    case Chunk(bytes) =>
      var r := Process(f.reader.(buffer := f.reader.buffer + bytes), false, excluded);
      f.(reader := r, received := f.received + bytes, ended := if r.capped then AtCap else Reading)
  }

  /** How a refresh goes. */
  datatype Launch = Disabled | NoTool | SpawnFailed | Started

  datatype Event =
    | TimeoutFires(c: nat)
    | ProcessExits(c: nat, hits: seq<nat>)
    | ReadCompletes(c: nat, input: Input, hits: seq<nat>)
    | LeaveTab
    | Refresh(launch: Launch)
    | CleanUp
    | QueryChanges(text: seq<byte>, hits: seq<nat>)

  /** Callbacks run for outstanding sources; files_filter finds what it must. */
  ghost predicate Enabled(s: State, e: Event, excluded: Exclusion) {
    match e
    case TimeoutFires(c) => c in s.timers
    case ProcessExits(c, hits) =>
      c in s.waiting && (c in s.heap && !s.Stale(c) && s.heap[c].(waitDone := true).Finished() ==>
        IsFilterOutcome(true, s.query, s.heap[c].reader.paths, hits))
    case ReadCompletes(c, input, hits) =>
      c in s.reading && (input.Chunk? ==> input.bytes != []) &&
      (c in s.heap && !s.Stale(c) && Receive(s.heap[c], input, excluded).Finished() ==>
        IsFilterOutcome(true, s.query, Receive(s.heap[c], input, excluded).reader.paths, hits))
    case QueryChanges(text, hits) => IsFilterOutcome(s.cache.Some?, text, s.Paths(), hits)
    case _ => true
  }

  function OnTimeout(s: State, c: nat): State
    requires c in s.heap
  {
    var s1 := s.(timers := s.timers - {c});
    if s.heap[c].Generation() != s.refreshes % GENERATIONS then Collect(s1)
    else Collect(Abandon(s1, c).(loading := false, note := s.note.(status := TimedOut)))
  }

  function OnExit(s: State, c: nat, hits: seq<nat>): State
    requires c in s.heap
  {
    var s1 := s.(waiting := s.waiting - {c});
    if s.Stale(c) then Collect(s1)
    else Collect(MaybeFinish(s1.(heap := s.heap[c := s.heap[c].(waitDone := true)]), c, hits))
  }

  function OnRead(s: State, c: nat, input: Input, hits: seq<nat>, excluded: Exclusion): State
    requires c in s.heap
  {
    var s1 := s.(reading := s.reading - {c});
    if s.Stale(c) then Collect(s1)
    else
      var f := Receive(s.heap[c], input, excluded);
      var s2 := s1.(heap := s.heap[c := f]);
      if f.ended == Reading then Collect(s2.(reading := s2.reading + {c}))
      else Collect(MaybeFinish(s2, c, hits))
  }

  function OnLeave(s: State): State
    requires s.pending.Some? ==> s.pending.value in s.heap
  {
    if s.loading && s.pending.Some? then Collect(AbandonPending(s).(loading := false)) else s
  }

  function OnRefresh(s: State, launch: Launch): State
    requires s.pending.Some? ==> s.pending.value in s.heap
  {
    var s1 := Collect(AbandonPending(s)).(refreshes := s.refreshes + 1);
    match launch
    case Disabled => s1.(loading := false, note := s.note.(status := TabDisabled))
    case NoTool => s1.(loading := false, note := Note(ToolMissing, true))
    case SpawnFailed => s1.(loading := false, nextId := s.nextId + 1, note := s.note.(status := LaunchFailed))
    case Started =>
      var c := s.nextId;
      s1.(heap := s1.heap[c := Search(s.refreshes + 1, NEW_READER, [], Reading, false, false)], nextId := c + 1,
          pending := Some(c), timers := s1.timers + {c}, reading := s1.reading + {c}, waiting := s1.waiting + {c},
          loading := true, note := Note(Loading, false))
  }

  function OnCleanUp(s: State): State
    requires s.pending.Some? ==> s.pending.value in s.heap
  {
    Collect(AbandonPending(s)).(cache := None, filtered := [], loading := false)
  }

  /** The callback's context has not been released. */
  predicate Alive(s: State, e: Event) {
    && (s.pending.Some? ==> s.pending.value in s.heap)
    && (e.TimeoutFires? || e.ProcessExits? || e.ReadCompletes? ==> e.c in s.heap)
  }

  function Step(s: State, e: Event, excluded: Exclusion): State
    requires Alive(s, e)
  {
    match e
    case TimeoutFires(c) => OnTimeout(s, c)
    case ProcessExits(c, hits) => OnExit(s, c, hits)
    case ReadCompletes(c, input, hits) => OnRead(s, c, input, hits, excluded)
    case LeaveTab => OnLeave(s)
    case Refresh(launch) => OnRefresh(s, launch)
    case CleanUp => OnCleanUp(s)
    case QueryChanges(text, hits) => s.(query := text, filtered := hits)
  }

  // ---- The invariant ----

  /** Contexts are exactly the held ones. */
  ghost predicate HeapIsHeld(s: State) {
    && (forall c :: s.Held(c) <==> c in s.heap)
    && (forall c :: c in s.heap ==> c < s.nextId)
  }

  /** The one search that may still deliver is the pending one. */
  ghost predicate PendingIsCurrent(s: State) {
    && (s.pending.Some? ==>
          var c := s.pending.value;
          c in s.heap && !s.heap[c].abandoned && s.heap[c].born == s.refreshes && c in s.timers
              && !s.heap[c].Finished())
    && (forall c :: c in s.heap && !s.heap[c].abandoned && !s.heap[c].Finished() ==> s.pending == Some(c))
  }

  /** Outstanding reads and waits are those not yet completed. */
  ghost predicate CallbacksMatch(s: State) {
    forall c :: c in s.heap ==>
      && (c in s.reading ==> s.heap[c].ended == Reading)
      && (c in s.waiting ==> !s.heap[c].waitDone)
      && (!s.heap[c].abandoned && s.heap[c].ended == Reading ==> c in s.reading)
      && (!s.heap[c].abandoned && !s.heap[c].waitDone ==> c in s.waiting)
  }

  /** What a search has read so far is what its bytes spell. */
  predicate ReaderOk(reader: Reader, received: seq<byte>, ended: ReadEnd, excluded: Exclusion) {
    match ended
    case Reading => !reader.capped && HasRead(reader, received, excluded)
    case AtCap => reader.capped && HasRead(reader, received, excluded)
    case AtEof => reader.paths == PathsOf(received, true, excluded)
    case AtError => reader.paths == PathsOf(received, false, excluded)
  }

  predicate HasReadOk(f: Search, excluded: Exclusion) {
    ReaderOk(f.reader, f.received, f.ended, excluded)
  }

  ghost predicate ReadersOk(s: State, excluded: Exclusion) {
    forall c :: c in s.heap && c !in s.applied ==> HasReadOk(s.heap[c], excluded)
  }

  ghost predicate BirthsDiffer(s: State) {
    && (forall c :: c in s.heap ==> s.heap[c].born <= s.refreshes)
    && (forall c, d :: c in s.heap && d in s.heap && c != d ==> s.heap[c].born != s.heap[d].born)
  }

  /** Every context replaced the cache at most once, and not while pending. */
  ghost predicate AppliedOnce(s: State) {
    && (forall a, b :: 0 <= a < b < |s.applied| ==> s.applied[a] != s.applied[b])
    && (forall c :: c in s.applied ==> c < s.nextId && s.pending != Some(c) && (c in s.heap ==> s.heap[c].Finished()))
  }

  /** The cached paths come from a search that finished reading and waiting
      without being abandoned; the visible rows are what the filter finds. */
  ghost predicate CacheOk(s: State, excluded: Exclusion) {
    && (s.cache.Some? ==> s.cache.value.Finished() && !s.cache.value.abandoned && HasReadOk(s.cache.value, excluded))
    && IsFilterOutcome(s.cache.Some?, s.query, s.Paths(), s.filtered)
  }

  ghost predicate HeldInHeap(s: State) {
    && (forall c :: s.Held(c) ==> c in s.heap)
    && (forall c :: c in s.heap ==> c < s.nextId)
  }

  /** Everything but collection. */
  ghost predicate Loose(s: State, excluded: Exclusion) {
    && HeldInHeap(s) && PendingIsCurrent(s) && CallbacksMatch(s) && ReadersOk(s, excluded)
    && BirthsDiffer(s) && AppliedOnce(s) && CacheOk(s, excluded)
  }

  ghost predicate Inv(s: State, excluded: Exclusion) {
    HeapIsHeld(s) && Loose(s, excluded)
  }

  lemma {:induction false} InitialInv(excluded: Exclusion)
    ensures Inv(INITIAL, excluded)
  {
  }

  lemma {:induction false} CollectInv(s: State, excluded: Exclusion)
    requires Loose(s, excluded)
    ensures Inv(Collect(s), excluded)
  {
    hide IsFilterOutcome, HasReadOk, Search.Generation;
  }

  lemma {:induction false} AbandonLoose(s: State, c: nat, excluded: Exclusion)
    requires Inv(s, excluded) && c in s.heap
    ensures Loose(Abandon(s, c), excluded) && Abandon(s, c).pending != Some(c)
  {
    hide HeldInHeap, PendingIsCurrent, CallbacksMatch, ReadersOk, BirthsDiffer, AppliedOnce, CacheOk, Abandon;
    AbandonKeepsHolders(s, c, excluded);
    AbandonKeepsReaders(s, c, excluded);
    AbandonKeepsHistory(s, c, excluded);
  }

  lemma {:induction false} AbandonKeepsHolders(s: State, c: nat, excluded: Exclusion)
    requires Inv(s, excluded) && c in s.heap
    ensures HeldInHeap(Abandon(s, c)) && PendingIsCurrent(Abandon(s, c)) && Abandon(s, c).pending != Some(c)
  {
    hide CallbacksMatch, ReadersOk, BirthsDiffer, AppliedOnce, CacheOk;
  }

  lemma {:induction false} AbandonKeepsReaders(s: State, c: nat, excluded: Exclusion)
    requires Inv(s, excluded) && c in s.heap
    ensures var t := Abandon(s, c); CallbacksMatch(t) && ReadersOk(t, excluded) && BirthsDiffer(t)
  {
    hide HeldInHeap, PendingIsCurrent, AppliedOnce, CacheOk, HasReadOk;
    ReaderUntouched(s.heap[c], s.heap[c].(abandoned := true), excluded);
  }

  lemma {:induction false} AbandonKeepsHistory(s: State, c: nat, excluded: Exclusion)
    requires Inv(s, excluded) && c in s.heap
    ensures AppliedOnce(Abandon(s, c)) && CacheOk(Abandon(s, c), excluded)
  {
    hide HeldInHeap, PendingIsCurrent, CallbacksMatch, ReadersOk, BirthsDiffer, HasReadOk, IsFilterOutcome;
  }

  lemma {:induction false} ReaderUntouched(f: Search, g: Search, excluded: Exclusion)
    requires f.reader == g.reader && f.received == g.received && f.ended == g.ended
    ensures HasReadOk(f, excluded) == HasReadOk(g, excluded)
  {
  }

  /** Once `c` is not pending, its timer may go. */
  lemma {:induction false} TimerGone(s: State, c: nat, loading: bool, note: Note, excluded: Exclusion)
    requires Loose(s, excluded) && s.pending != Some(c)
    ensures Loose(s.(timers := s.timers - {c}, loading := loading, note := note), excluded)
  {
    hide IsFilterOutcome, HasReadOk, Search.Generation;
  }

  lemma {:induction false} TimeoutInv(s: State, c: nat, excluded: Exclusion)
    requires Inv(s, excluded) && c in s.timers
    ensures Inv(OnTimeout(s, c), excluded)
  {
    hide Loose, Inv;
    InvHeld(s, c, excluded);
    var s1 := s.(timers := s.timers - {c});
    if s.heap[c].Generation() != s.refreshes % GENERATIONS {
      TimerGone(s, c, s.loading, s.note, excluded);
      CollectInv(s1, excluded);
    } else {
      AbandonLoose(s, c, excluded);
      var note := s.note.(status := TimedOut);
      TimerGone(Abandon(s, c), c, false, note, excluded);
      var t := Abandon(s, c).(timers := s.timers - {c}, loading := false, note := note);
      CollectInv(t, excluded);
      assert t == Abandon(s1, c).(loading := false, note := note);
    }
  }

  lemma {:induction false} InvHeld(s: State, c: nat, excluded: Exclusion)
    requires Inv(s, excluded) && s.Held(c)
    ensures c in s.heap && Loose(s, excluded)
    ensures s.pending.Some? ==> s.pending.value in s.heap
    ensures s.pending == Some(c) ==> s.heap[c].Generation() == s.refreshes % GENERATIONS
    ensures (c in s.reading || c in s.waiting) && !s.heap[c].abandoned ==> s.pending == Some(c)
  {
    hide IsFilterOutcome, HasReadOk;
  }

  lemma {:induction false} ReceiveOk(f: Search, input: Input, excluded: Exclusion)
    requires f.ended == Reading && HasReadOk(f, excluded)
    ensures HasReadOk(Receive(f, input, excluded), excluded)
    ensures var g := Receive(f, input, excluded);
            g.born == f.born && g.waitDone == f.waitDone && g.abandoned == f.abandoned
  {
    match input
    case Failed =>
      assert Terminated(f.received) + [] == Terminated(f.received);
    case Eof => EofCompletes(f.reader, f.received, excluded);
    case Chunk(bytes) => ChunkExtends(f.reader, f.received, bytes, excluded);
  }

  /** A read or wait of an abandoned context may complete unnoticed. */
  lemma {:induction false} CallbackGone(s: State, c: nat, r: set<nat>, w: set<nat>, excluded: Exclusion)
    requires Loose(s, excluded) && c in s.heap && s.heap[c].abandoned
    requires s.reading - {c} <= r <= s.reading && s.waiting - {c} <= w <= s.waiting
    ensures Loose(s.(reading := r, waiting := w), excluded)
  {
    hide IsFilterOutcome, HasReadOk, Search.Generation;
  }

  /** The pending context made progress and has more to come. */
  lemma {:induction false} ProgressLoose(s: State, c: nat, f: Search, r: set<nat>, w: set<nat>, excluded: Exclusion)
    requires Inv(s, excluded) && s.pending == Some(c) && HasReadOk(f, excluded)
    requires f.born == s.heap[c].born && !f.abandoned && !f.Finished()
    requires r == (if f.ended == Reading then s.reading else s.reading - {c})
    requires w == (if f.waitDone then s.waiting - {c} else s.waiting)
    requires f.ended == Reading ==> s.heap[c].ended == Reading
    requires !f.waitDone ==> !s.heap[c].waitDone
    ensures Loose(s.(heap := s.heap[c := f], reading := r, waiting := w), excluded)
  {
    hide IsFilterOutcome, HasReadOk, Search.Generation;
  }

  /** The pending context finished and its paths became the cache. */
  lemma {:induction false} FinishLoose(s: State, c: nat, f: Search, hits: seq<nat>, excluded: Exclusion)
    requires Inv(s, excluded) && s.pending == Some(c) && HasReadOk(f, excluded)
    requires f.born == s.heap[c].born && !f.abandoned && f.Finished()
    requires IsFilterOutcome(true, s.query, f.reader.paths, hits)
    ensures Loose(s.(heap := s.heap[c := f.(reader := f.reader.(paths := []))], reading := s.reading - {c},
                     waiting := s.waiting - {c}, pending := None, cache := Some(f), loading := false,
                     filtered := hits, applied := s.applied + [c], note := Note(Blank, false)), excluded)
  {
    hide IsFilterOutcome, HasReadOk, Search.Generation;
  }

  /** What a callback of the pending context leads to, before collection. */
  function Progressed(s: State, c: nat, f: Search, hits: seq<nat>): State {
    if f.Finished() then
      s.(heap := s.heap[c := f.(reader := f.reader.(paths := []))], reading := s.reading - {c},
         waiting := s.waiting - {c}, pending := None, cache := Some(f), loading := false,
         filtered := hits, applied := s.applied + [c], note := Note(Blank, false))
    else
      s.(heap := s.heap[c := f], reading := if f.ended == Reading then s.reading else s.reading - {c},
         waiting := if f.waitDone then s.waiting - {c} else s.waiting)
  }

  lemma {:induction false} ProgressInv(s: State, c: nat, f: Search, hits: seq<nat>, excluded: Exclusion)
    requires Inv(s, excluded) && s.pending == Some(c) && HasReadOk(f, excluded)
    requires f.born == s.heap[c].born && !f.abandoned
    requires f.ended == Reading ==> s.heap[c].ended == Reading
    requires !f.waitDone ==> !s.heap[c].waitDone
    requires f.Finished() ==> IsFilterOutcome(true, s.query, f.reader.paths, hits)
    ensures Inv(Collect(Progressed(s, c, f, hits)), excluded)
  {
    hide Loose, Inv, IsFilterOutcome, HasReadOk;
    if f.Finished() {
      FinishLoose(s, c, f, hits, excluded);
    } else {
      ProgressLoose(s, c, f, if f.ended == Reading then s.reading else s.reading - {c},
                    if f.waitDone then s.waiting - {c} else s.waiting, excluded);
    }
    CollectInv(Progressed(s, c, f, hits), excluded);
  }

  lemma {:induction false} ExitInv(s: State, c: nat, hits: seq<nat>, excluded: Exclusion)
    requires Inv(s, excluded) && Enabled(s, ProcessExits(c, hits), excluded)
    ensures Inv(OnExit(s, c, hits), excluded)
  {
    hide Loose, Inv, IsFilterOutcome, HasReadOk;
    InvHeld(s, c, excluded);
    if s.Stale(c) {
      CallbackGone(s, c, s.reading, s.waiting - {c}, excluded);
      CollectInv(s.(waiting := s.waiting - {c}), excluded);
    } else {
      var f := s.heap[c].(waitDone := true);
      PendingFacts(s, c, excluded);
      ReaderUntouched(s.heap[c], f, excluded);
      ProgressInv(s, c, f, hits, excluded);
      assert OnExit(s, c, hits) == Collect(Progressed(s, c, f, hits));
    }
  }

  lemma {:induction false} PendingFacts(s: State, c: nat, excluded: Exclusion)
    requires Inv(s, excluded) && s.pending == Some(c)
    ensures c in s.heap && HasReadOk(s.heap[c], excluded) && !s.heap[c].Finished()
    ensures c in s.reading <==> s.heap[c].ended == Reading
    ensures c in s.waiting <==> !s.heap[c].waitDone
  {
    hide IsFilterOutcome, HasReadOk;
  }

  lemma {:induction false} ReadInv(s: State, c: nat, input: Input, hits: seq<nat>, excluded: Exclusion)
    requires Inv(s, excluded) && Enabled(s, ReadCompletes(c, input, hits), excluded)
    ensures Inv(OnRead(s, c, input, hits, excluded), excluded)
  {
    hide Loose, Inv, IsFilterOutcome, HasReadOk, Receive;
    InvHeld(s, c, excluded);
    if s.Stale(c) {
      CallbackGone(s, c, s.reading - {c}, s.waiting, excluded);
      CollectInv(s.(reading := s.reading - {c}), excluded);
    } else {
      var f := Receive(s.heap[c], input, excluded);
      PendingFacts(s, c, excluded);
      ReceiveOk(s.heap[c], input, excluded);
      ProgressInv(s, c, f, hits, excluded);
      assert s.reading - {c} + {c} == s.reading;
      assert OnRead(s, c, input, hits, excluded) == Collect(Progressed(s, c, f, hits));
    }
  }

  /** Abandoning the pending search, if any, leaves no pending search. */
  lemma {:induction false} AbandonPendingLoose(s: State, excluded: Exclusion)
    requires Inv(s, excluded)
    ensures s.pending.Some? ==> s.pending.value in s.heap
    ensures Loose(AbandonPending(s), excluded) && AbandonPending(s).pending == None
  {
    hide Loose, IsFilterOutcome, HasReadOk;
    if s.pending.Some? {
      AbandonLoose(s, s.pending.value, excluded);
    }
  }

  lemma {:induction false} LooseSetters(s: State, loading: bool, excluded: Exclusion)
    requires Loose(s, excluded)
    ensures Loose(s.(loading := loading), excluded)
  {
    hide IsFilterOutcome, HasReadOk, Search.Generation;
  }

  lemma {:induction false} LooseEmptied(s: State, excluded: Exclusion)
    requires Loose(s, excluded)
    ensures Loose(s.(cache := None, filtered := []), excluded)
  {
    hide IsTopHits, HasReadOk, Search.Generation;
  }

  lemma {:induction false} LeaveInv(s: State, excluded: Exclusion)
    requires Inv(s, excluded)
    ensures Inv(OnLeave(s), excluded)
  {
    hide Loose, IsFilterOutcome, HasReadOk;
    AbandonPendingLoose(s, excluded);
    LooseSetters(AbandonPending(s), false, excluded);
    CollectInv(AbandonPending(s).(loading := false), excluded);
  }

  lemma {:induction false} CleanUpInv(s: State, excluded: Exclusion)
    requires Inv(s, excluded)
    ensures Inv(OnCleanUp(s), excluded)
  {
    hide Loose, IsFilterOutcome, HasReadOk;
    AbandonPendingLoose(s, excluded);
    var s1 := AbandonPending(s);
    LooseSetters(s1, false, excluded);
    LooseEmptied(s1.(loading := false), excluded);
    CollectInv(s1.(loading := false, cache := None, filtered := []), excluded);
    assert OnCleanUp(s) == Collect(s1.(loading := false, cache := None, filtered := []));
  }

  /** With no pending search the generation may move on. */
  lemma {:induction false} NextGeneration(s: State, loading: bool, id: nat, note: Note, excluded: Exclusion)
    requires Inv(s, excluded) && s.pending == None && id >= s.nextId
    ensures Inv(s.(refreshes := s.refreshes + 1, loading := loading, nextId := id, note := note), excluded)
  {
    hide IsFilterOutcome, HasReadOk, Search.Generation;
  }

  lemma {:induction false} Launches(s: State, excluded: Exclusion)
    requires Inv(s, excluded) && s.pending == None
    ensures var c := s.nextId;
            Inv(s.(refreshes := s.refreshes + 1,
                   heap := s.heap[c := Search(s.refreshes + 1, NEW_READER, [], Reading, false, false)], nextId := c + 1,
                   pending := Some(c), timers := s.timers + {c}, reading := s.reading + {c},
                   waiting := s.waiting + {c}, loading := true, note := Note(Loading, false)), excluded)
  {
    NewReaderHasReadNothing(excluded);
    assert HasReadOk(Search(s.refreshes + 1, NEW_READER, [], Reading, false, false), excluded);
    hide IsFilterOutcome, HasReadOk, Search.Generation;
  }

  lemma {:induction false} RefreshInv(s: State, launch: Launch, excluded: Exclusion)
    requires Inv(s, excluded)
    ensures Inv(OnRefresh(s, launch), excluded)
  {
    hide Loose, Inv, IsFilterOutcome, HasReadOk, HeapIsHeld;
    AbandonPendingLoose(s, excluded);
    var s1 := AbandonPending(s);
    CollectInv(s1, excluded);
    NextGeneration(Collect(s1), false, s1.nextId, s.note.(status := TabDisabled), excluded);
    NextGeneration(Collect(s1), false, s1.nextId, Note(ToolMissing, true), excluded);
    NextGeneration(Collect(s1), false, s1.nextId + 1, s.note.(status := LaunchFailed), excluded);
    Launches(Collect(s1), excluded);
    UntouchedByAbandon(s);
  }

  lemma {:induction false} UntouchedByAbandon(s: State)
    requires s.pending.Some? ==> s.pending.value in s.heap
    ensures AbandonPending(s).refreshes == s.refreshes && AbandonPending(s).nextId == s.nextId
  {
  }

  // ---- Runs ----

  /** `t` is reached from `s` by the events `es`. */
  ghost predicate Run(s: State, es: seq<Event>, t: State, excluded: Exclusion)
    decreases |es|
  {
    if es == [] then s == t
    else Alive(s, es[0]) && Enabled(s, es[0], excluded) && Run(Step(s, es[0], excluded), es[1..], t, excluded)
  }

  /** No callback and no abandon_search ever meets a released context, and every
      event keeps the invariant. */
  lemma {:induction false} StepInv(s: State, e: Event, excluded: Exclusion)
    requires Inv(s, excluded) && Enabled(s, e, excluded)
    ensures Alive(s, e) && Inv(Step(s, e, excluded), excluded)
  {
    hide Inv, IsFilterOutcome, Receive;
    AbandonPendingLoose(s, excluded);
    match e
    case TimeoutFires(c) =>
      InvHeld(s, c, excluded);
      TimeoutInv(s, c, excluded);
    case ProcessExits(c, hits) =>
      InvHeld(s, c, excluded);
      ExitInv(s, c, hits, excluded);
    case ReadCompletes(c, input, hits) =>
      InvHeld(s, c, excluded);
      ReadInv(s, c, input, hits, excluded);
    case LeaveTab => LeaveInv(s, excluded);
    case Refresh(launch) => RefreshInv(s, launch, excluded);
    case CleanUp => CleanUpInv(s, excluded);
    case QueryChanges(text, hits) => QueryInv(s, text, hits, excluded);
  }

  lemma {:induction false} QueryInv(s: State, text: seq<byte>, hits: seq<nat>, excluded: Exclusion)
    requires Inv(s, excluded) && IsFilterOutcome(s.cache.Some?, text, s.Paths(), hits)
    ensures Inv(s.(query := text, filtered := hits), excluded)
  {
    hide IsFilterOutcome, HasReadOk, Search.Generation;
  }

  lemma {:induction false} RunInv(s: State, es: seq<Event>, t: State, excluded: Exclusion)
    requires Inv(s, excluded) && Run(s, es, t, excluded)
    ensures Inv(t, excluded)
    decreases |es|
  {
    hide Inv, Step, Enabled, Alive;
    if es != [] {
      StepInv(s, es[0], excluded);
      RunInv(Step(s, es[0], excluded), es[1..], t, excluded);
    }
  }

  /** The program never waits for an event that cannot happen: after any run,
      every enabled event finds its context alive. */
  lemma {:induction false} RunsNeverDangle(es: seq<Event>, t: State, e: Event, excluded: Exclusion)
    requires Run(INITIAL, es, t, excluded) && Enabled(t, e, excluded)
    ensures Alive(t, e)
  {
    hide Inv, Run, Step;
    InitialInv(excluded);
    RunInv(INITIAL, es, t, excluded);
    StepInv(t, e, excluded);
  }

  // ---- The cache ----

  /** What the cached paths are, after any run: the first 50000 kept pieces of
      the bytes fd wrote before the pipe ended, failed, or was cut off. */
  lemma {:induction false} CachedPathsAreTheStream(es: seq<Event>, t: State, excluded: Exclusion, unread: seq<byte>)
    requires Run(INITIAL, es, t, excluded) && t.cache.Some?
    ensures var f := t.cache.value;
            && f.ended != Reading && f.waitDone && !f.abandoned
            && (f.ended == AtEof ==> t.Paths() == PathsOf(f.received, true, excluded))
            && (f.ended == AtError ==> t.Paths() == PathsOf(f.received, false, excluded))
            && (f.ended == AtCap ==> t.Paths() == PathsOf(f.received + unread, true, excluded))
    ensures IsFilterOutcome(true, t.query, t.Paths(), t.filtered)
  {
    hide Run, PathsOf, IsFilterOutcome, HasRead;
    InitialInv(excluded);
    RunInv(INITIAL, es, t, excluded);
    var f := t.cache.value;
    if f.ended == AtCap {
      CapIsFinal(f.reader, f.received, unread, excluded);
    }
  }

  /** Only the pending search delivers, and only when it has finished reading
      and waiting; it stops being pending in the same step. */
  lemma {:induction false} CacheStep(s: State, e: Event, excluded: Exclusion)
    requires Inv(s, excluded) && Enabled(s, e, excluded)
    ensures Alive(s, e)
    ensures var t := Step(s, e, excluded);
            if t.applied == s.applied then t.cache == s.cache || (e.CleanUp? && t.cache == None)
            else
              && s.pending.Some? && t.pending == None
              && t.applied == s.applied + [s.pending.value]
              && t.cache.Some? && t.cache.value.ended != Reading && t.cache.value.waitDone
              && !t.cache.value.abandoned
  {
    hide Inv, IsFilterOutcome, Receive;
    StepInv(s, e, excluded);
    if e.ProcessExits? || e.ReadCompletes? {
      InvHeld(s, e.c, excluded);
      if !s.heap[e.c].abandoned {
        PendingFacts(s, e.c, excluded);
        if e.ReadCompletes? {
          ReceiveFrame(s.heap[e.c], e.input, excluded);
        }
      }
    }
  }

  /** The event is the last thing search `c` waits for: fd has exited once the pipe has
      ended, or the pipe ends once fd has exited. */
  predicate Completes(s: State, c: nat, e: Event, excluded: Exclusion)
    requires c in s.heap
  {
    match e
    case ProcessExits(d, hits) => d == c && s.heap[c].ended != Reading
    case ReadCompletes(d, input, hits) =>
      d == c && s.heap[c].waitDone && Receive(s.heap[c], input, excluded).ended != Reading
    case _ => false
  }

  lemma {:induction false} OthersDeliverNothing(s: State, e: Event, excluded: Exclusion)
    requires Inv(s, excluded) && Enabled(s, e, excluded)
    ensures Alive(s, e)
    ensures !e.ProcessExits? && !e.ReadCompletes? ==> Step(s, e, excluded).applied == s.applied
  {
    hide Inv, IsFilterOutcome, OnExit, OnRead;
    StepInv(s, e, excluded);
  }

  /** And whenever the pending search has finished both, it delivers. */
  lemma {:induction false} DeliversIff(s: State, e: Event, excluded: Exclusion)
    requires Inv(s, excluded) && Enabled(s, e, excluded)
    ensures Alive(s, e)
    ensures Step(s, e, excluded).applied != s.applied <==>
            s.pending.Some? && Completes(s, s.pending.value, e, excluded)
  {
    hide Inv, IsFilterOutcome, Receive, OnTimeout, OnLeave, OnRefresh, OnCleanUp;
    StepInv(s, e, excluded);
    OthersDeliverNothing(s, e, excluded);
    if s.pending.Some? {
      PendingFresh(s, excluded);
    }
    if e.ProcessExits? || e.ReadCompletes? {
      InvHeld(s, e.c, excluded);
      if !s.heap[e.c].abandoned {
        PendingFacts(s, e.c, excluded);
        if e.ReadCompletes? {
          ReceiveFrame(s.heap[e.c], e.input, excluded);
        }
      }
    }
  }

  lemma {:induction false} ReceiveFrame(f: Search, input: Input, excluded: Exclusion)
    ensures var g := Receive(f, input, excluded);
            g.born == f.born && g.waitDone == f.waitDone && g.abandoned == f.abandoned
  {
  }

  /** A context that is not pending, be it abandoned by leave, refresh, timeout
      or cleanup, or finished, never becomes pending again and never delivers. */
  lemma {:induction false} EndedStep(s: State, e: Event, c: nat, excluded: Exclusion)
    requires Inv(s, excluded) && Enabled(s, e, excluded) && c < s.nextId && s.pending != Some(c)
    ensures Alive(s, e)
    ensures var t := Step(s, e, excluded);
            c < t.nextId && t.pending != Some(c) && (c in t.applied <==> c in s.applied)
  {
    hide Inv, IsFilterOutcome, Receive;
    CacheStep(s, e, excluded);
  }

  lemma {:induction false} EndedStaysEnded(s: State, es: seq<Event>, t: State, c: nat, excluded: Exclusion)
    requires Inv(s, excluded) && Run(s, es, t, excluded) && c < s.nextId && s.pending != Some(c)
    ensures t.pending != Some(c) && (c in t.applied <==> c in s.applied)
    decreases |es|
  {
    hide Inv, Step, Enabled, Alive;
    if es != [] {
      StepInv(s, es[0], excluded);
      EndedStep(s, es[0], c, excluded);
      EndedStaysEnded(Step(s, es[0], excluded), es[1..], t, c, excluded);
    }
  }

  /** Leave, refresh and cleanup, and the timeout of the pending search itself,
      end the pending search without touching the cached paths. */
  lemma {:induction false} EndingKeepsPaths(s: State, e: Event, excluded: Exclusion)
    requires Inv(s, excluded) && Enabled(s, e, excluded) && s.pending.Some?
    requires e.Refresh? || e.CleanUp? || (e.LeaveTab? && s.loading) || (e.TimeoutFires? && s.pending == Some(e.c))
    ensures Alive(s, e)
    ensures var t := Step(s, e, excluded);
            && t.pending != s.pending && t.applied == s.applied
            && (!e.CleanUp? ==> t.cache == s.cache)
  {
    hide Inv, IsFilterOutcome, OnTimeout, OnLeave, OnRefresh, OnCleanUp;
    var c := s.pending.value;
    StepInv(s, e, excluded);
    InvHeld(s, c, excluded);
    PendingFresh(s, excluded);
    EndedByTimeout(s, c);
    EndedByLeaving(s);
    if e.Refresh? {
      EndedByRefresh(s, e.launch);
    }
  }

  lemma {:induction false} EndedByTimeout(s: State, c: nat)
    requires s.pending == Some(c) && c in s.heap && !s.heap[c].abandoned
    requires s.heap[c].Generation() == s.refreshes % GENERATIONS
    ensures var t := OnTimeout(s, c); t.pending == None && t.applied == s.applied && t.cache == s.cache
  {
    hide Search.Generation;
  }

  lemma {:induction false} EndedByLeaving(s: State)
    requires s.pending.Some? && s.pending.value in s.heap && !s.heap[s.pending.value].abandoned
    ensures s.loading ==>
              var t := OnLeave(s); t.pending == None && t.applied == s.applied && t.cache == s.cache
    ensures OnCleanUp(s).pending == None && OnCleanUp(s).applied == s.applied
  {
  }

  lemma {:induction false} EndedByRefresh(s: State, launch: Launch)
    requires s.pending.Some? && s.pending.value in s.heap && !s.heap[s.pending.value].abandoned
    requires s.pending.value < s.nextId
    ensures var t := OnRefresh(s, launch); t.pending != s.pending && t.applied == s.applied && t.cache == s.cache
  {
  }

  lemma {:induction false} PendingFresh(s: State, excluded: Exclusion)
    requires Inv(s, excluded) && s.pending.Some?
    ensures s.pending.value in s.heap && s.pending.value < s.nextId && !s.heap[s.pending.value].abandoned
  {
    hide IsFilterOutcome, HasReadOk, Search.Generation;
  }

  /** For outstanding reads and waits the generation number decides nothing: the
      abandoned flag already separates the current search from older ones. */
  lemma {:induction false} GenerationIsRedundant(s: State, c: nat, excluded: Exclusion)
    requires Inv(s, excluded) && (c in s.reading || c in s.waiting)
    ensures c in s.heap && (s.Stale(c) <==> s.heap[c].abandoned)
  {
    InvHeld(s, c, excluded);
  }

  // ---- The loading flag ----

  predicate LoadingOk(s: State) {
    s.loading <==> s.pending.Some?
  }

  /** A timer of an older context fires while the 32-bit generation, wrapped
      around, has come back to that context's number. */
  predicate Collides(s: State, e: Event)
    requires Alive(s, e)
  {
    e.TimeoutFires? && s.pending.Some? && s.pending != Some(e.c)
    && s.heap[e.c].Generation() == s.refreshes % GENERATIONS
  }

  /** The flag follows the pending slot through every event but that one. */
  lemma {:induction false} LoadingStepIff(s: State, e: Event, excluded: Exclusion)
    requires Inv(s, excluded) && Enabled(s, e, excluded) && LoadingOk(s)
    ensures Alive(s, e) && (LoadingOk(Step(s, e, excluded)) <==> !Collides(s, e))
  {
    hide Inv, IsFilterOutcome, Receive, Search.Generation;
    StepInv(s, e, excluded);
    match e
    case TimeoutFires(c) =>
      InvHeld(s, c, excluded);
      if s.pending == Some(c) {
        PendingFresh(s, excluded);
      }
    case ProcessExits(c, hits) =>
      InvHeld(s, c, excluded);
    case ReadCompletes(c, input, hits) =>
      InvHeld(s, c, excluded);
      ReceiveFrame(s.heap[c], input, excluded);
    case LeaveTab => AbandonPendingLoose(s, excluded);
    case Refresh(launch) => AbandonPendingLoose(s, excluded);
    case CleanUp => AbandonPendingLoose(s, excluded);
    case QueryChanges(text, hits) =>
  }

  /** Fewer than 2^32 refreshes cannot collide. */
  lemma {:induction false} NoEarlyCollision(s: State, e: Event, excluded: Exclusion)
    requires Inv(s, excluded) && Enabled(s, e, excluded) && s.refreshes < GENERATIONS
    ensures Alive(s, e) && !Collides(s, e)
  {
    hide IsFilterOutcome, HasReadOk;
    StepInv(s, e, excluded);
  }

  lemma {:induction false} RefreshesGrow(s: State, e: Event, excluded: Exclusion)
    requires Alive(s, e)
    ensures s.refreshes <= Step(s, e, excluded).refreshes <= s.refreshes + 1
  {
    hide Receive;
  }

  lemma {:induction false} RunRefreshes(s: State, es: seq<Event>, t: State, excluded: Exclusion)
    requires Run(s, es, t, excluded)
    ensures s.refreshes <= t.refreshes <= s.refreshes + |es|
    decreases |es|
  {
    hide Step, Enabled, Alive;
    if es != [] {
      RefreshesGrow(s, es[0], excluded);
      RunRefreshes(Step(s, es[0], excluded), es[1..], t, excluded);
    }
  }

  lemma {:induction false} LoadingRun(s: State, es: seq<Event>, t: State, excluded: Exclusion)
    requires Inv(s, excluded) && LoadingOk(s) && Run(s, es, t, excluded) && t.refreshes < GENERATIONS
    ensures LoadingOk(t)
    decreases |es|
  {
    hide Inv, Step, Enabled, Alive, Collides, LoadingOk;
    if es != [] {
      var s1 := Step(s, es[0], excluded);
      RunRefreshes(s1, es[1..], t, excluded);
      RefreshesGrow(s, es[0], excluded);
      NoEarlyCollision(s, es[0], excluded);
      StepInv(s, es[0], excluded);
      LoadingStepIff(s, es[0], excluded);
      LoadingRun(s1, es[1..], t, excluded);
    }
  }

  /** files_search.c:295-333 and 448-571.  In every run of fewer than 2^32
      refreshes the tab shows "loading" exactly while a search is pending. */
  lemma {:induction false} LoadingMeansPending(es: seq<Event>, t: State, excluded: Exclusion)
    requires Run(INITIAL, es, t, excluded) && t.refreshes < 0x1_0000_0000
    ensures LoadingOk(t)
  {
    hide Inv, Run, Step, Enabled, Alive;
    InitialInv(excluded);
    LoadingRun(INITIAL, es, t, excluded);
  }

  // ---- A longer run that breaks it ----

  lemma {:induction false} RunConcat(s: State, es: seq<Event>, t: State, fs: seq<Event>, u: State, excluded: Exclusion)
    requires Run(s, es, t, excluded) && Run(t, fs, u, excluded)
    ensures Run(s, es + fs, u, excluded)
    decreases |es|
  {
    hide Step, Enabled, Alive;
    if es == [] {
      assert es + fs == fs;
    } else {
      assert (es + fs)[1..] == es[1..] + fs;
      RunConcat(Step(s, es[0], excluded), es[1..], t, fs, u, excluded);
    }
  }

  lemma {:induction false} RunOne(s: State, e: Event, excluded: Exclusion)
    requires Alive(s, e) && Enabled(s, e, excluded)
    ensures Run(s, [e], Step(s, e, excluded), excluded)
  {
    hide Step, Enabled, Alive;
    assert [e][1..] == [];
  }

  function Idle(k: nat): seq<Event> {
    seq(k, _ => Refresh(Disabled))
  }

  /** Refreshing a disabled tab only counts, and says so. */
  lemma {:induction false} IdleRun(s: State, k: nat, excluded: Exclusion)
    requires s.pending == None && !s.loading && Collect(s) == s && s.note == Note(TabDisabled, false)
    ensures Run(s, Idle(k), s.(refreshes := s.refreshes + k), excluded)
    decreases k
  {
    if k > 0 {
      var s1 := s.(refreshes := s.refreshes + 1);
      assert Step(s, Refresh(Disabled), excluded) == s1;
      assert Collect(s1) == s1;
      IdleRun(s1, k - 1, excluded);
      assert Idle(k)[0] == Refresh(Disabled) && Idle(k)[1..] == Idle(k - 1);
    } else {
      assert Idle(k) == [];
    }
  }

  /** The state after a first search finished, its timer still running. */
  function AfterFirst(filler: Search): State {
    State(map[0 := filler], 1, None, {0}, {}, {}, 1, false, Some(filler), [], [], [0], Note(Blank, false))
  }

  lemma {:induction false} FirstSearch(excluded: Exclusion)
    ensures var f := Search(1, NEW_READER, [], AtEof, true, false);
            Run(INITIAL, [Refresh(Started), ReadCompletes(0, Eof, []), ProcessExits(0, [])], AfterFirst(f), excluded)
  {
    var f0 := Search(1, NEW_READER, [], Reading, false, false);
    var s1 := State(map[0 := f0], 1, Some(0), {0}, {0}, {0}, 1, true, None, [], [], [], Note(Loading, false));
    assert Step(INITIAL, Refresh(Started), excluded) == s1;
    RunOne(INITIAL, Refresh(Started), excluded);
    var f1 := Search(1, NEW_READER, [], AtEof, false, false);
    assert Receive(f0, Eof, excluded) == f1;
    var s2 := State(map[0 := f1], 1, Some(0), {0}, {}, {0}, 1, true, None, [], [], [], Note(Loading, false));
    var read := ReadCompletes(0, Eof, []);
    assert Step(s1, read, excluded) == s2;
    RunOne(s1, read, excluded);
    var f := Search(1, NEW_READER, [], AtEof, true, false);
    var exit := ProcessExits(0, []);
    assert Step(s2, exit, excluded) == AfterFirst(f);
    RunOne(s2, exit, excluded);
    RunConcat(INITIAL, [Refresh(Started)], s1, [read], s2, excluded);
    RunConcat(INITIAL, [Refresh(Started)] + [read], s2, [exit], AfterFirst(f), excluded);
    assert [Refresh(Started)] + [read] + [exit] == [Refresh(Started), read, exit];
  }

  /** After 2^32 refreshes within one timer's life, the old timer stops the
      "loading" display of a search that is still running. */
  lemma {:induction false} WrapAroundBreaksLoading(excluded: Exclusion)
    ensures exists es, t :: Run(INITIAL, es, t, excluded) && t.refreshes == 0x1_0000_0001 && !LoadingOk(t)
  {
    hide Run, Step, Enabled, Idle;
    var f := Search(1, NEW_READER, [], AtEof, true, false);
    FirstSearch(excluded);
    var s0 := AfterFirst(f).(refreshes := 2, note := Note(TabDisabled, false));
    var s1 := s0.(refreshes := GENERATIONS);
    FirstIdle(f, excluded);
    IdleRun(s0, GENERATIONS - 2, excluded);
    var t := StaleTimer(s1, f, excluded);
    var first := [Refresh(Started), ReadCompletes(0, Eof, []), ProcessExits(0, [])];
    RunConcat(INITIAL, first, AfterFirst(f), [Refresh(Disabled)], s0, excluded);
    RunConcat(INITIAL, first + [Refresh(Disabled)], s0, Idle(GENERATIONS - 2), s1, excluded);
    RunConcat(INITIAL, first + [Refresh(Disabled)] + Idle(GENERATIONS - 2), s1, [Refresh(Started), TimeoutFires(0)], t,
              excluded);
  }

  lemma {:induction false} FirstIdle(f: Search, excluded: Exclusion)
    ensures var s0 := AfterFirst(f).(refreshes := 2, note := Note(TabDisabled, false));
            Run(AfterFirst(f), [Refresh(Disabled)], s0, excluded) && Collect(s0) == s0
  {
    var s0 := AfterFirst(f).(refreshes := 2, note := Note(TabDisabled, false));
    assert Step(AfterFirst(f), Refresh(Disabled), excluded) == s0;
    RunOne(AfterFirst(f), Refresh(Disabled), excluded);
  }

  /** One more refresh gives the new search the generation of the first. */
  lemma {:induction false} StaleTimer(s1: State, f: Search, excluded: Exclusion) returns (t: State)
    requires f == Search(1, NEW_READER, [], AtEof, true, false)
    requires s1 == AfterFirst(f).(refreshes := GENERATIONS, note := Note(TabDisabled, false))
    ensures Run(s1, [Refresh(Started), TimeoutFires(0)], t, excluded)
    ensures t.pending == Some(1) && !t.loading && t.refreshes == GENERATIONS + 1
  {
    hide Run;
    var g := Search(GENERATIONS + 1, NEW_READER, [], Reading, false, false);
    var s2 := s1.(heap := map[0 := f, 1 := g], nextId := 2, pending := Some(1), timers := {0, 1}, reading := {1},
                  waiting := {1}, refreshes := GENERATIONS + 1, loading := true, note := Note(Loading, false));
    assert Step(s1, Refresh(Started), excluded) == s2;
    RunOne(s1, Refresh(Started), excluded);
    t := Step(s2, TimeoutFires(0), excluded);
    RunOne(s2, TimeoutFires(0), excluded);
    RunConcat(s1, [Refresh(Started)], s2, [TimeoutFires(0)], t, excluded);
    assert [Refresh(Started)] + [TimeoutFires(0)] == [Refresh(Started), TimeoutFires(0)];
  }
}
