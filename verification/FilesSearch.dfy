/** The program of src/files/files_search.c: contexts with reference counts on a
    heap, released when the count reaches zero.  Every callback and entry point
    does what the matching step of `FilesProtocol` says. */
module FilesSearch {
  import opened CStrings
  import opened PathReader
  import opened FilesFilter
  import opened FilesProtocol

  datatype Counted = Counted(refcount: int, search: Search)

  /** Forget the contexts nothing holds, counting `extra` as held. */
  ghost function CollectBut(s: State, extra: set<nat>): State {
    s.(heap := map c | c in s.heap && (s.Held(c) || c in extra) :: s.heap[c])
  }

  /** The pieces of a stream contain no NUL. */
  lemma {:induction false} TerminatedAreCStrings(s: seq<byte>)
    ensures forall k :: 0 <= k < |Terminated(s)| ==> IsCString(Terminated(s)[k])
    ensures IsCString(Remainder(s))
    decreases |s|
  {
    var z := FirstNul(s);
    if z < |s| {
      TerminatedAreCStrings(s[z + 1..]);
    }
  }

  lemma {:induction false} KeptAreCStrings(pieces: seq<Path>, excluded: Exclusion)
    requires forall k :: 0 <= k < |pieces| ==> IsCString(pieces[k])
    ensures forall k :: 0 <= k < |Kept(pieces, excluded)| ==> IsCString(Kept(pieces, excluded)[k])
  {
    if pieces != [] {
      KeptAreCStrings(pieces[1..], excluded);
    }
  }

  lemma {:induction false} ReadPathsAreCStrings(f: Search, excluded: Exclusion)
    requires HasReadOk(f, excluded)
    ensures forall k :: 0 <= k < |f.reader.paths| ==> IsCString(f.reader.paths[k])
  {
    hide Kept, Terminated, Remainder;
    var t := Terminated(f.received);
    TerminatedAreCStrings(f.received);
    KeptAreCStrings(t, excluded);
    KeptAreCStrings(t + [Remainder(f.received)], excluded);
    assert t + [] == t;
  }

  /** A timer's step, once abandoning has been collected around its callback. */
  lemma {:induction false} StepIsTimeout(s: State, c: nat, excluded: Exclusion)
    requires Alive(s, TimeoutFires(c))
    ensures var s1 := s.(timers := s.timers - {c});
            Step(s, TimeoutFires(c), excluded) ==
              if s.heap[c].Generation() != s.refreshes % GENERATIONS then Collect(s1)
              else Collect(Abandon(s1, c).(loading := false, note := s.note.(status := TimedOut)))
  {
    hide Collect, Abandon;
  }

  lemma {:induction false} AbandonKeepsNote(s: State, c: nat)
    requires c in s.heap
    ensures CollectBut(Abandon(s, c), {c}).note == s.note
  {
  }

  lemma {:induction false} CollectIgnoresNote(s: State, extra: set<nat>, loading: bool, note: Note)
    ensures CollectBut(s.(loading := loading, note := note), extra)
         == CollectBut(s, extra).(loading := loading, note := note)
  {
    assert forall c :: s.(loading := loading, note := note).Held(c) == s.Held(c);
  }

  lemma {:induction false} StepIsRefresh(s: State, launch: Launch, excluded: Exclusion)
    requires Alive(s, Refresh(launch))
    ensures Step(s, Refresh(launch), excluded) == OnRefresh(s, launch)
  {
    hide OnRefresh;
  }

  /** The outcomes of a completed read, by case. */
  lemma {:induction false} StepIsRead(s: State, c: nat, input: Input, hits: seq<nat>, excluded: Exclusion)
    requires Alive(s, ReadCompletes(c, input, hits)) && c in s.reading
    ensures var t := Step(s, ReadCompletes(c, input, hits), excluded);
            var g := Receive(s.heap[c], input, excluded);
            if s.Stale(c) then t == Collect(s.(reading := s.reading - {c}))
            else if g.ended == Reading then t == Collect(s.(heap := s.heap[c := g]))
            else t == Collect(MaybeFinish(s.(reading := s.reading - {c}, heap := s.heap[c := g]), c, hits))
  {
    hide Receive, Collect, MaybeFinish;
    assert s.reading - {c} + {c} == s.reading;
  }

  lemma {:induction false} StepIsExit(s: State, c: nat, hits: seq<nat>, excluded: Exclusion)
    requires Alive(s, ProcessExits(c, hits))
    ensures var t := Step(s, ProcessExits(c, hits), excluded);
            if s.Stale(c) then t == Collect(s.(waiting := s.waiting - {c}))
            else t == Collect(MaybeFinish(s.(waiting := s.waiting - {c},
                heap := s.heap[c := s.heap[c].(waitDone := true)]), c, hits))
  {
    hide Collect, MaybeFinish;
  }

  lemma {:induction false} ReadingIsUncapped(f: Search, excluded: Exclusion)
    requires HasReadOk(f, excluded) && f.ended == Reading
    ensures !f.reader.capped
  {
  }

  /** Counting the refresh first and abandoning after it is the same. */
  lemma {:induction false} RefreshCommutes(s: State)
    requires s.pending.Some? ==> s.pending.value in s.heap
    ensures var s1 := s.(refreshes := s.refreshes + 1);
            && (s.pending.Some? ==>
                 CollectBut(Abandon(s1, s.pending.value), {})
                 == Collect(AbandonPending(s)).(refreshes := s.refreshes + 1))
            && (s.pending == None ==> Collect(s1) == Collect(AbandonPending(s)).(refreshes := s.refreshes + 1))
    ensures AbandonPending(s).pending == None || (s.pending.Some? && s.heap[s.pending.value].abandoned)
    ensures Collect(AbandonPending(s)).nextId == s.nextId && Collect(AbandonPending(s)).refreshes == s.refreshes
    ensures Collect(AbandonPending(s)).pending == AbandonPending(s).pending
    ensures Collect(AbandonPending(s)).note == s.note
  {
  }

  /** Dropping the pending slot can cost no other context its last holder. */
  lemma {:induction false} UnpendCollected(s: State, c: nat, extra: set<nat>)
    requires s.pending == Some(c) && forall d :: d in s.heap ==> s.Held(d) || d in extra
    ensures var u := s.(pending := None);
            CollectBut(Unpend(s, c), extra)
            == if u.Held(c) || c in extra then u else u.(heap := map d | d in u.heap && d != c :: u.heap[d])
  {
    var u := s.(pending := None);
    var v := if u.Held(c) || c in extra then u else u.(heap := map d | d in u.heap && d != c :: u.heap[d]);
    assert CollectBut(Unpend(s, c), extra).heap == v.heap;
  }

  /** Collection once the callback's own reference to `c` is gone. */
  lemma {:induction false} CollectOwn(s: State, t: State, c: nat)
    requires t == CollectBut(s, {c})
    ensures t.Held(c) == s.Held(c)
    ensures Collect(s) == if t.Held(c) then t else t.(heap := map d | d in t.heap && d != c :: t.heap[d])
  {
    assert forall d :: s.Held(d) <==> t.Held(d);
    var u := if t.Held(c) then t else t.(heap := map d | d in t.heap && d != c :: t.heap[d]);
    forall d ensures d in Collect(s).heap <==> d in u.heap {
    }
    assert Collect(s).heap == u.heap;
  }

  /** Collecting before or after the paths are handed over is the same. */
  lemma {:induction false} FinishCollected(s: State, c: nat, hits: seq<nat>)
    requires c in s.heap && s.heap[c].Finished() && !s.Stale(c) && CollectBut(s, {c}) == s
    ensures var f := s.heap[c];
            var t := if s.pending == Some(c) then CollectBut(Unpend(s, c), {c}) else s;
            CollectBut(MaybeFinish(s, c, hits), {c})
            == t.(cache := Some(f), loading := false, filtered := hits, applied := s.applied + [c],
                  heap := t.heap[c := f.(reader := f.reader.(paths := []))], note := Note(Blank, false))
  {
    var f := s.heap[c];
    var t := if s.pending == Some(c) then CollectBut(Unpend(s, c), {c}) else s;
    assert CollectBut(MaybeFinish(s, c, hits), {c}).heap == t.heap[c := f.(reader := f.reader.(paths := []))];
  }

  class Searches {
    const excluded: Exclusion
    var heap: map<nat, Counted>
    var nextId: nat
    var pending: Option<nat>
    var timers: set<nat>
    var reading: set<nat>
    var waiting: set<nat>
    var refreshes: nat
    var loading: bool
    var cacheValid: bool
    var paths: seq<Path>
    ghost var source: Option<Search>
    var query: seq<byte>
    var filtered: seq<nat>
    ghost var applied: seq<nat>
    var status: Status
    var unavailable: bool

    ghost function Abs(): State
      reads this
    {
      State(map c | c in heap :: heap[c].search, nextId, pending, timers, reading, waiting, refreshes, loading,
            source, query, filtered, applied, Note(status, unavailable))
    }

    function Holders(c: nat): nat
      reads this
    {
      (if pending == Some(c) then 1 else 0) + (if c in timers then 1 else 0)
      + (if c in reading then 1 else 0) + (if c in waiting then 1 else 0)
    }

    /** Every context is counted once per holder and once if in `extra`, and is
        allocated exactly while that count is positive. */
    ghost predicate CountsAre(extra: set<nat>)
      reads this
    {
      && (forall c :: c in heap ==> heap[c].refcount == Holders(c) + (if c in extra then 1 else 0) > 0)
      && (forall c :: Holders(c) > 0 || c in extra ==> c in heap)
      && (forall c :: c in heap ==> c < nextId)
    }

    /** The same, but for one reference to `c` that is about to be dropped. */
    ghost predicate CountsBut(extra: set<nat>, c: nat)
      reads this
    {
      && c in heap && heap[c].refcount == Holders(c) + (if c in extra then 1 else 0) + 1
      && (forall d :: d in heap && d != c ==> heap[d].refcount == Holders(d) + (if d in extra then 1 else 0) > 0)
      && (forall d :: Holders(d) > 0 || d in extra ==> d in heap)
      && (forall d :: d in heap ==> d < nextId)
    }

    ghost predicate CacheIsSource()
      reads this
    {
      && (cacheValid <==> source.Some?)
      && paths == (if source.Some? then source.value.reader.paths else [])
      && IsCString(query)
    }

    /** Between events: counts equal holders, and the protocol's invariant holds. */
    ghost predicate Valid()
      reads this
    {
      CountsAre({}) && CacheIsSource() && Inv(Abs(), excluded)
    }

    constructor (excluded: Exclusion)
      ensures this.excluded == excluded && Valid() && Abs() == INITIAL
    {
      this.excluded := excluded;
      heap, nextId, pending, timers, reading, waiting := map[], 0, None, {}, {}, {};
      refreshes, loading, cacheValid, paths, source := 0, false, false, [], None;
      query, filtered, applied, status, unavailable := [], [], [], Blank, false;
      new;
      InitialInv(excluded);
      assert Abs() == INITIAL;
    }

    // ---- Reference counting ----

    /** files_search_unref.  A context is freed when its last reference goes,
        never before its timer fired. */
    method Unref(c: nat, ghost extra: set<nat>)
      requires CountsBut(extra, c)
      modifies this`heap
      ensures CountsAre(extra)
      ensures Abs() == (if old(Holders(c)) > 0 || c in extra then old(Abs())
                        else old(Abs()).(heap := map d | d in old(heap) && d != c :: old(heap)[d].search))
      ensures c !in heap ==> c !in timers
    {
      Decrement(c);
      assert forall d :: Holders(d) == old(Holders(d));
      if heap[c].refcount > 0 {
        return;
      }
      Free(c, extra);
    }

    /** g_free */
    method Free(c: nat, ghost extra: set<nat>)
      requires c in heap && Holders(c) == 0 && c !in extra
      requires forall d :: d in heap && d != c ==> heap[d].refcount == Holders(d) + (if d in extra then 1 else 0) > 0
      requires (forall d :: Holders(d) > 0 || d in extra ==> d in heap) && forall d :: d in heap ==> d < nextId
      modifies this`heap
      ensures CountsAre(extra) && c !in heap
      ensures Abs() == old(Abs()).(heap := map d | d in old(heap) && d != c :: old(heap)[d].search)
    {
      heap := map d | d in heap && d != c :: heap[d];
      assert Abs().heap == map d | d in old(heap) && d != c :: old(heap)[d].search;
    }

    /** clear_pending_if_current */
    method DropPending(c: nat, ghost extra: set<nat>)
      requires CountsAre(extra) && c in heap && pending == Some(c)
      modifies this`heap, this`pending
      ensures CountsAre(extra)
      ensures forall d :: d in old(Abs()).heap ==> old(Abs()).Held(d) || d in extra
      ensures var u := old(Abs()).(pending := None);
              Abs() == if u.Held(c) || c in extra then u
                       else u.(heap := map d | d in u.heap && d != c :: u.heap[d])
    {
      hide Abs, CountsAre, CountsBut;
      AllHeld(extra);
      ForgetPending(c, extra);
      Unref(c, extra);
    }

    lemma {:induction false} AllHeld(extra: set<nat>)
      requires CountsAre(extra)
      ensures forall d :: d in Abs().heap ==> Abs().Held(d) || d in extra
    {
    }

    method ForgetPending(c: nat, ghost extra: set<nat>)
      requires CountsAre(extra) && c in heap && pending == Some(c)
      modifies this`pending
      ensures CountsBut(extra, c) && Abs() == old(Abs()).(pending := None)
      ensures Holders(c) > 0 <==> Abs().Held(c)
      ensures Abs().heap == map d | d in heap :: heap[d].search
    {
      pending := None;
      assert forall d :: Holders(d) == old(Holders(d)) - (if d == c then 1 else 0);
      assert Abs().heap == old(Abs()).heap;
    }

    method ClearPendingIfCurrent(c: nat, ghost extra: set<nat>)
      requires CountsAre(extra) && c in heap
      modifies this`heap, this`pending
      ensures CountsAre(extra)
      ensures Abs() == if old(pending) == Some(c) then CollectBut(Unpend(old(Abs()), c), extra) else old(Abs())
    {
      if pending == Some(c) {
        ghost var s := Abs();
        DropPending(c, extra);
        UnpendCollected(s, c, extra);
      }
    }

    method SetSearch(c: nat, f: Search, ghost extra: set<nat>)
      requires CountsAre(extra) && c in heap
      modifies this`heap
      ensures CountsAre(extra) && c in heap
      ensures Abs() == old(Abs()).(heap := old(Abs()).heap[c := f])
    {
      heap := heap[c := heap[c].(search := f)];
      assert Abs().heap == old(Abs()).heap[c := f];
    }

    /** abandon_search; cancelling and killing are calls to the outside. */
    method AbandonSearch(c: nat, ghost extra: set<nat>)
      requires CountsAre(extra) && c in heap
      modifies this`heap, this`pending
      ensures CountsAre(extra)
      ensures Abs() == CollectBut(Abandon(old(Abs()), c), extra)
    {
      ghost var s := Abs();
      AllCounted(extra);
      if heap[c].search.abandoned {
        return;
      }
      SetSearch(c, heap[c].search.(abandoned := true), extra);
      AllCounted(extra);
      ClearPendingIfCurrent(c, extra);
    }

    /** While counts are right, nothing is left to collect. */
    lemma {:induction false} AllCounted(extra: set<nat>)
      requires CountsAre(extra)
      ensures Abs() == CollectBut(Abs(), extra)
    {
      assert forall c :: c in heap ==> (Abs().Held(c) || c in extra);
      assert Abs().heap == CollectBut(Abs(), extra).heap;
    }

    /** Dropping the running callback's own reference collects the rest. */
    method DropOwn(c: nat, ghost s: State)
      requires CountsAre({c}) && Abs() == CollectBut(s, {c})
      modifies this`heap
      ensures CountsAre({}) && Abs() == Collect(s)
      ensures c !in heap ==> c !in timers
    {
      ghost var t := Abs();
      assert t.Held(c) <==> Holders(c) > 0;
      Unref(c, {});
      CollectOwn(s, t, c);
      assert Abs() == Collect(s);
    }

    /** The main loop takes a source off its queue to run its callback, which
        from then on owns the source's reference. */
    method TakeTimer(c: nat)
      requires CountsAre({}) && c in timers
      modifies this`timers
      ensures CountsAre({c}) && Abs() == old(Abs()).(timers := old(timers) - {c})
    {
      timers := timers - {c};
      assert forall d :: Holders(d) == old(Holders(d)) - (if d == c then 1 else 0);
    }

    method TakeRead(c: nat)
      requires CountsAre({}) && c in reading
      modifies this`reading
      ensures CountsAre({c}) && Abs() == old(Abs()).(reading := old(reading) - {c})
    {
      reading := reading - {c};
      assert forall d :: Holders(d) == old(Holders(d)) - (if d == c then 1 else 0);
    }

    method TakeWait(c: nat)
      requires CountsAre({}) && c in waiting
      modifies this`waiting
      ensures CountsAre({c}) && Abs() == old(Abs()).(waiting := old(waiting) - {c})
    {
      waiting := waiting - {c};
      assert forall d :: Holders(d) == old(Holders(d)) - (if d == c then 1 else 0);
    }

    lemma {:induction false} SameFields()
      ensures Abs().loading == loading && Abs().pending == pending && Abs().refreshes == refreshes
          && Abs().nextId == nextId
      ensures Abs().timers == timers && Abs().reading == reading && Abs().waiting == waiting
      ensures Abs().cache == source && Abs().query == query && Abs().filtered == filtered
    {
    }

    /** The context of a counted reference, as the abstract state sees it. */
    lemma {:induction false} SameSearch(c: nat, extra: set<nat>)
      requires CountsAre(extra) && (c in heap || c in extra || c in timers || c in reading || c in waiting)
      ensures c in heap && c in Abs().heap && heap[c].search == Abs().heap[c]
      ensures Abs() == CollectBut(Abs(), extra)
      ensures Abs().refreshes == refreshes && Abs().pending == pending
      ensures Abs().timers == timers && Abs().reading == reading && Abs().waiting == waiting
      ensures Abs().cache == source && Abs().query == query && Abs().applied == applied
    {
      AllCounted(extra);
    }

    // ---- Finishing ----

    method SetCache(c: nat, f: Search)
      requires CountsAre({c}) && IsCString(query)
      modifies this`cacheValid, this`paths, this`source, this`applied
      ensures CountsAre({c}) && CacheIsSource()
      ensures Abs() == old(Abs()).(cache := Some(f), applied := old(applied) + [c])
    {
      source := Some(f);
      paths, cacheValid, applied := f.reader.paths, true, applied + [c];
    }

    method SetRows(found: seq<nat>, ghost extra: set<nat>)
      requires CountsAre(extra)
      modifies this`filtered
      ensures CountsAre(extra) && filtered == found && Abs() == old(Abs()).(filtered := found)
    {
      filtered := found;
    }

    /** apply_new_cache: the context's paths become the cache, and are filtered. */
    method ApplyNewCache(c: nat)
      requires CountsAre({c}) && HasReadOk(heap[c].search, excluded) && IsCString(query)
      modifies this`heap, this`cacheValid, this`paths, this`source, this`loading, this`filtered, this`applied,
          this`status, this`unavailable
      ensures CountsAre({c}) && CacheIsSource()
      ensures IsFilterOutcome(true, query, old(heap[c].search.reader.paths), filtered)
      ensures var f := old(heap[c].search);
              Abs() == old(Abs()).(cache := Some(f), loading := false, filtered := this.filtered,
                                   applied := old(applied) + [c],
                                   heap := old(Abs()).heap[c := f.(reader := f.reader.(paths := []))],
                                   note := Note(Blank, false))
    {
      hide IsFilterOutcome, HasReadOk, CountsAre;
      SameSearch(c, {c});
      var f := heap[c].search;
      ReadPathsAreCStrings(f, excluded);
      SetSearch(c, f.(reader := f.reader.(paths := [])), {c});
      var found := Filter(true, query, f.reader.paths);
      SetCache(c, f);
      SetLoading(false, {c});
      SetNote(Blank, {c});
      SetRows(found, {c});
    }

    /** maybe_finish_search */
    method MaybeFinishSearch(c: nat) returns (ghost hits: seq<nat>)
      requires CountsAre({c}) && CacheIsSource() && HasReadOk(heap[c].search, excluded)
      modifies this`heap, this`pending, this`cacheValid, this`paths, this`source, this`loading, this`filtered,
          this`applied, this`status, this`unavailable
      ensures CountsAre({c}) && CacheIsSource()
      ensures old(heap[c].search).Finished() && !old(Abs()).Stale(c) ==>
                IsFilterOutcome(true, query, old(heap[c].search.reader.paths), hits)
      ensures Abs() == CollectBut(MaybeFinish(old(Abs()), c, hits), {c})
    {
      hide IsFilterOutcome, HasReadOk, Abs, CountsAre;
      hits := [];
      ghost var s := Abs();
      SameSearch(c, {c});
      var f := heap[c].search;
      if f.ended == Reading || !f.waitDone {
        return;
      }
      if f.abandoned || f.Generation() != refreshes % GENERATIONS {
        return;
      }
      ClearPendingIfCurrent(c, {c});
      SameSearch(c, {c});
      ApplyNewCache(c);
      hits := filtered;
      FinishCollected(s, c, hits);
    }

    /** files_status_message */
    method StatusMessage(enabled: bool) returns (m: Message)
      requires Valid()
      ensures m == MessageOf(Abs(), enabled)
    {
      hide Inv;
      SameFields();
      if status != Blank && (loading || unavailable || !cacheValid) {
        return Told(status);
      }
      if loading && !cacheValid {
        return Told(Loading);
      }
      if unavailable {
        return Told(ToolMissing);
      }
      if !enabled {
        return Told(TabDisabled);
      }
      if !cacheValid {
        return Told(Loading);
      }
      return if query == [] then TypeToSearch else NothingMatched;
    }

    // ---- Callbacks ----

    /** on_timeout */
    method OnTimeoutFired(c: nat)
      requires Valid() && c in timers
      modifies this
      ensures Valid() && Abs() == Step(old(Abs()), TimeoutFires(c), excluded)
    {
      hide Inv, IsFilterOutcome, Abs, CountsAre, Step, Collect, Abandon;
      ghost var s := Abs();
      SameSearch(c, {});
      StepInv(s, TimeoutFires(c), excluded);
      StepIsTimeout(s, c, excluded);
      TakeTimer(c);
      SameSearch(c, {c});
      if heap[c].search.Generation() != refreshes % GENERATIONS {
        DropOwn(c, Abs());
        return;
      }
      EndByTimeout(c);
    }

    /** The rest of on_timeout for the current generation. */
    method EndByTimeout(c: nat)
      requires CountsAre({c})
      modifies this`heap, this`pending, this`loading, this`status
      ensures CountsAre({})
      ensures c in old(Abs()).heap
      ensures var s := old(Abs());
              Abs() == Collect(Abandon(s, c).(loading := false, note := s.note.(status := TimedOut)))
    {
      hide Abs, CountsAre, Collect, Abandon;
      ghost var s := Abs();
      SameSearch(c, {c});
      AbandonSearch(c, {c});
      SetLoading(false, {c});
      SetStatus(TimedOut, {c});
      AbandonKeepsNote(s, c);
      CollectIgnoresNote(Abandon(s, c), {c}, false, s.note.(status := TimedOut));
      DropOwn(c, Abandon(s, c).(loading := false, note := s.note.(status := TimedOut)));
    }

    /** The status text of a search under way or delivered, fd being there. */
    method SetNote(text: Status, ghost extra: set<nat>)
      requires CountsAre(extra)
      modifies this`status, this`unavailable
      ensures CountsAre(extra) && Abs() == old(Abs()).(note := Note(text, false))
    {
      status, unavailable := text, false;
    }

    /** files_set_status */
    method SetStatus(text: Status, ghost extra: set<nat>)
      requires CountsAre(extra)
      modifies this`status
      ensures CountsAre(extra) && Abs() == old(Abs()).(note := old(Abs()).note.(status := text))
    {
      status := text;
    }

    method SetUnavailable(ghost extra: set<nat>)
      requires CountsAre(extra)
      modifies this`unavailable
      ensures CountsAre(extra) && Abs() == old(Abs()).(note := old(Abs()).note.(unavailable := true))
    {
      unavailable := true;
    }

    method SetLoading(value: bool, ghost extra: set<nat>)
      requires CountsAre(extra)
      modifies this`loading
      ensures CountsAre(extra) && Abs() == old(Abs()).(loading := value)
    {
      loading := value;
    }

    /** on_process_waited */
    method OnProcessWaited(c: nat) returns (ghost hits: seq<nat>)
      requires Valid() && c in waiting
      modifies this
      ensures Enabled(old(Abs()), ProcessExits(c, hits), excluded)
      ensures Valid() && Abs() == Step(old(Abs()), ProcessExits(c, hits), excluded)
    {
      hide Inv, IsFilterOutcome, HasReadOk, Abs, CountsAre, Step, Collect, MaybeFinish;
      ghost var s := Abs();
      SameSearch(c, {});
      InvHeld(s, c, excluded);
      TakeWait(c);
      SameSearch(c, {c});
      hits := [];
      var f := heap[c].search;
      if f.abandoned || f.Generation() != refreshes % GENERATIONS {
        StepInv(s, ProcessExits(c, hits), excluded);
        StepIsExit(s, c, hits, excluded);
        DropOwn(c, Abs());
        return;
      }
      hits := FinishWait(c, f, s);
      StepInv(s, ProcessExits(c, hits), excluded);
    }

    /** on_process_waited once the context is known to be current. */
    method FinishWait(c: nat, f: Search, ghost s: State) returns (ghost hits: seq<nat>)
      requires Inv(s, excluded) && s.pending == Some(c) && c in s.waiting && c in s.heap && !s.Stale(c)
      requires CountsAre({c}) && CacheIsSource() && Abs() == s.(waiting := s.waiting - {c})
      requires c in heap && heap[c].search == f == s.heap[c]
      modifies this
      ensures Enabled(s, ProcessExits(c, hits), excluded) && Alive(s, ProcessExits(c, hits))
      ensures CountsAre({}) && CacheIsSource() && Abs() == Step(s, ProcessExits(c, hits), excluded)
    {
      hide Inv, IsFilterOutcome, HasReadOk, Abs, CountsAre, Step, Collect, MaybeFinish;
      PendingFacts(s, c, excluded);
      ReaderUntouched(f, f.(waitDone := true), excluded);
      SetSearch(c, f.(waitDone := true), {c});
      SameSearch(c, {c});
      ghost var t := Abs();
      hits := MaybeFinishSearch(c);
      StepInv(s, ProcessExits(c, hits), excluded);
      StepIsExit(s, c, hits, excluded);
      DropOwn(c, MaybeFinish(t, c, hits));
    }

    /** on_stdout_chunk with read_next_chunk */
    method OnStdoutChunk(c: nat, input: Input) returns (ghost hits: seq<nat>)
      requires Valid() && c in reading && (input.Chunk? ==> input.bytes != [])
      modifies this
      ensures Enabled(old(Abs()), ReadCompletes(c, input, hits), excluded)
      ensures Valid() && Abs() == Step(old(Abs()), ReadCompletes(c, input, hits), excluded)
    {
      hide Inv, IsFilterOutcome, HasReadOk, Abs, CountsAre, Receive, Step, Collect, MaybeFinish;
      ghost var s := Abs();
      SameSearch(c, {});
      InvHeld(s, c, excluded);
      TakeRead(c);
      SameSearch(c, {c});
      hits := [];
      var f := heap[c].search;
      if f.abandoned || f.Generation() != refreshes % GENERATIONS {
        StepInv(s, ReadCompletes(c, input, hits), excluded);
        StepIsRead(s, c, input, hits, excluded);
        DropOwn(c, Abs());
        return;
      }
      hits := TakeInput(c, f, input, s);
      StepInv(s, ReadCompletes(c, input, hits), excluded);
    }

    /** on_stdout_chunk once the context is known to be current. */
    method TakeInput(c: nat, f: Search, input: Input, ghost s: State) returns (ghost hits: seq<nat>)
      requires Inv(s, excluded) && s.pending == Some(c) && c in s.reading && c in s.heap && !s.Stale(c)
      requires CountsAre({c}) && CacheIsSource() && Abs() == s.(reading := s.reading - {c})
      requires c in heap && heap[c].search == f == s.heap[c] && (input.Chunk? ==> input.bytes != [])
      modifies this
      ensures Enabled(s, ReadCompletes(c, input, hits), excluded) && Alive(s, ReadCompletes(c, input, hits))
      ensures CountsAre({}) && CacheIsSource() && Abs() == Step(s, ReadCompletes(c, input, hits), excluded)
    {
      hide Inv, IsFilterOutcome, HasReadOk, Abs, CountsAre, Receive, Step, Collect, MaybeFinish;
      PendingFacts(s, c, excluded);
      ReceiveOk(f, input, excluded);
      ReadingIsUncapped(f, excluded);
      hits := [];
      var g := HandleInput(f, input);
      SetSearch(c, g, {c});
      SameSearch(c, {c});
      ghost var t := Abs();
      if g.ended == Reading {
        ReadNextChunk(c);
        assert s.reading - {c} + {c} == s.reading;
        assert Abs() == s.(heap := s.heap[c := g]);
        StepInv(s, ReadCompletes(c, input, hits), excluded);
        StepIsRead(s, c, input, hits, excluded);
        SameSearch(c, {c});
        DropOwn(c, Abs());
      } else {
        hits := MaybeFinishSearch(c);
        StepInv(s, ReadCompletes(c, input, hits), excluded);
        StepIsRead(s, c, input, hits, excluded);
        DropOwn(c, MaybeFinish(t, c, hits));
      }
    }

    /** The middle of on_stdout_chunk: feed the bytes to the splitter. */
    method HandleInput(f: Search, input: Input) returns (g: Search)
      requires !f.reader.capped && f.ended == Reading
      ensures g == Receive(f, input, excluded)
    {
      if input.Failed? {
        return f.(ended := AtError);
      }
      var splitter := new PathBuffer(excluded);
      splitter.buffer, splitter.paths := f.reader.buffer, f.reader.paths;
      if input.Chunk? {
        splitter.Append(input.bytes);
        splitter.ProcessBuffer(false);
        g := f.(reader := Reader(splitter.buffer, splitter.paths, splitter.capReached),
            received := f.received + input.bytes);
        if splitter.capReached {
          g := g.(ended := AtCap);
        }
      } else {
        splitter.ProcessBuffer(true);
        g := f.(reader := Reader(splitter.buffer, splitter.paths, splitter.capReached), ended := AtEof);
      }
    }

    /** read_next_chunk: the new read takes a reference of its own. */
    method ReadNextChunk(c: nat)
      requires CountsAre({c}) && c !in reading
      modifies this`heap, this`reading
      ensures CountsAre({c}) && Abs() == old(Abs()).(reading := old(reading) + {c})
    {
      Ref(c);
      reading := reading + {c};
      assert forall d :: Holders(d) == old(Holders(d)) + (if d == c then 1 else 0);
    }

    // ---- Entry points ----

    /** files_on_leave */
    method Leave()
      requires Valid()
      modifies this
      ensures Valid() && Abs() == Step(old(Abs()), LeaveTab, excluded)
    {
      hide Inv, IsFilterOutcome, Abs, CountsAre;
      ghost var s := Abs();
      StepInv(s, LeaveTab, excluded);
      SameFields();
      if !loading {
        return;
      }
      if pending.Some? {
        InvHeld(s, pending.value, excluded);
        PendingCounted();
        AbandonSearch(pending.value, {});
        SetLoading(false, {});
        assert Abs() == Collect(AbandonPending(s).(loading := false));
      }
    }

    lemma {:induction false} PendingCounted()
      requires CountsAre({}) && pending.Some?
      ensures pending.value in heap
    {
    }

    lemma {:induction false} SourceReadOk()
      requires Valid()
      ensures source.Some? ==> HasReadOk(source.value, excluded)
    {
      hide IsFilterOutcome, HasReadOk;
    }

    method SetQuery(text: seq<byte>, found: seq<nat>)
      requires CountsAre({})
      modifies this`query, this`filtered
      ensures CountsAre({}) && query == text && Abs() == old(Abs()).(query := text, filtered := found)
    {
      query, filtered := text, found;
    }

    /** files_on_query_changed */
    method OnQueryChanged(text: seq<byte>) returns (ghost hits: seq<nat>)
      requires Valid() && IsCString(text)
      modifies this
      ensures Enabled(old(Abs()), QueryChanges(text, hits), excluded)
      ensures Valid() && Abs() == Step(old(Abs()), QueryChanges(text, hits), excluded)
    {
      hide Inv, IsFilterOutcome, HasReadOk, Abs, CountsAre;
      ghost var s := Abs();
      SameFields();
      SourceReadOk();
      if source.Some? {
        ReadPathsAreCStrings(source.value, excluded);
      }
      var found := Filter(cacheValid, text, paths);
      hits := found;
      StepInv(s, QueryChanges(text, hits), excluded);
      SetQuery(text, found);
    }

    /** cleanup_files_mode */
    method CleanUpMode()
      requires Valid()
      modifies this
      ensures Valid() && Abs() == Step(old(Abs()), CleanUp, excluded)
    {
      hide Inv, IsFilterOutcome, Abs, CountsAre;
      ghost var s := Abs();
      StepInv(s, CleanUp, excluded);
      SameFields();
      SameAll();
      if pending.Some? {
        InvHeld(s, pending.value, excluded);
        PendingCounted();
        AbandonSearch(pending.value, {});
      }
      assert Abs() == Collect(AbandonPending(s));
      ClearCache();
    }

    lemma {:induction false} SameAll()
      requires CountsAre({})
      ensures Abs() == Collect(Abs())
    {
      AllCounted({});
      assert CollectBut(Abs(), {}).heap == Collect(Abs()).heap;
    }

    method ClearCache()
      requires CountsAre({})
      modifies this`paths, this`cacheValid, this`source, this`filtered, this`loading
      ensures CountsAre({}) && Abs() == old(Abs()).(cache := None, filtered := [], loading := false)
      ensures source == None && !cacheValid && paths == []
    {
      paths, cacheValid, source, filtered, loading := [], false, None, [], false;
    }

    /** files_search_refresh; `launch` says whether the tab is enabled, a tool is
        found, and the subprocess starts. */
    method StartRefresh(launch: Launch)
      requires Valid()
      modifies this
      ensures Valid() && Abs() == Step(old(Abs()), Refresh(launch), excluded)
    {
      hide Inv, IsFilterOutcome, Abs, CountsAre, Step, OnRefresh, Collect, AbandonPending;
      ghost var s := Abs();
      StepInv(s, Refresh(launch), excluded);
      StepIsRefresh(s, launch, excluded);
      SameFields();
      SameAll();
      RefreshCommutes(s);
      AbandonPendingLoose(s, excluded);
      CountRefresh();
      SameFields();
      SameAll();
      if pending.Some? {
        PendingCounted();
        AbandonSearch(pending.value, {});
      }
      SameFields();
      FinishRefresh(s, launch);
    }

    /** The rest of the refresh, with no search pending. */
    method FinishRefresh(ghost s: State, launch: Launch)
      requires CountsAre({}) && pending == None && (s.pending.Some? ==> s.pending.value in s.heap)
      requires Abs() == Collect(AbandonPending(s)).(refreshes := s.refreshes + 1) && Abs().nextId == s.nextId
      requires Abs().note == s.note
      modifies this`heap, this`nextId, this`pending, this`timers, this`waiting, this`reading, this`loading,
          this`status, this`unavailable
      ensures CountsAre({}) && Abs() == OnRefresh(s, launch)
    {
      hide Abs, CountsAre, Collect, AbandonPending;
      SameFields();
      ghost var s1 := Abs();
      if launch == Disabled {
        SetLoading(false, {});
        SetStatus(TabDisabled, {});
        return;
      }
      if launch == NoTool {
        SetUnavailable({});
        SetLoading(false, {});
        SetStatus(ToolMissing, {});
        return;
      }
      var c := AllocateContext();
      SameFields();
      if launch == SpawnFailed {
        DropNew(c);
        SetLoading(false, {});
        SetStatus(LaunchFailed, {});
        assert Abs().heap == s1.heap;
        return;
      }
      RegisterContext(c);
    }

    method CountRefresh()
      requires CountsAre({})
      modifies this`refreshes
      ensures CountsAre({}) && Abs() == old(Abs()).(refreshes := old(refreshes) + 1)
    {
      refreshes := refreshes + 1;
    }

    /** g_new0 with a reference count of one. */
    method AllocateContext() returns (c: nat)
      requires CountsAre({})
      modifies this`heap, this`nextId
      ensures CountsAre({c}) && c == old(nextId) && Holders(c) == 0 && c !in old(Abs()).heap
      ensures Abs() == old(Abs()).(nextId := c + 1, heap := old(Abs()).heap[c := Search(refreshes, NEW_READER, [],
          Reading, false, false)])
    {
      c := nextId;
      heap := heap[c := Counted(1, Search(refreshes, NEW_READER, [], Reading, false, false))];
      nextId := nextId + 1;
      assert Abs().heap == old(Abs()).heap[c := Search(refreshes, NEW_READER, [], Reading, false, false)];
    }

    /** The launch failed: the only reference goes. */
    method DropNew(c: nat)
      requires CountsAre({c}) && Holders(c) == 0
      modifies this`heap
      ensures CountsAre({}) && Abs() == old(Abs()).(heap := map d | d in old(Abs()).heap
          && d != c :: old(Abs()).heap[d])
    {
      Unref(c, {});
    }

    /** The pending slot, the timer, the wait and the first read each take a
        reference, then the creator's own is dropped. */
    method RegisterContext(c: nat)
      requires CountsAre({c}) && Holders(c) == 0 && pending == None
      modifies this`heap, this`pending, this`timers, this`waiting, this`reading, this`loading, this`status,
          this`unavailable
      ensures CountsAre({})
      ensures Abs() == old(Abs()).(pending := Some(c), timers := old(timers) + {c}, waiting := old(waiting) + {c},
                                   reading := old(reading) + {c}, loading := true, note := Note(Loading, false))
    {
      assert c !in timers && c !in waiting && c !in reading;
      hide Abs, CountsAre;
      MakePending(c);
      ArmTimer(c);
      SetLoading(true, {c});
      SetNote(Loading, {c});
      AwaitExit(c);
      ReadNextChunk(c);
      DropCreation(c);
    }

    /** The creator lets go of a context that others hold by now. */
    method DropCreation(c: nat)
      requires CountsAre({c}) && Holders(c) > 0
      modifies this`heap
      ensures CountsAre({}) && Abs() == old(Abs())
    {
      hide Abs;
      Unref(c, {});
    }

    method MakePending(c: nat)
      requires CountsAre({c}) && pending == None
      modifies this`heap, this`pending
      ensures CountsAre({c}) && Abs() == old(Abs()).(pending := Some(c))
    {
      Ref(c);
      pending := Some(c);
      assert forall d :: Holders(d) == old(Holders(d)) + (if d == c then 1 else 0);
    }

    /** g_timeout_add */
    method ArmTimer(c: nat)
      requires CountsAre({c}) && c !in timers
      modifies this`heap, this`timers
      ensures CountsAre({c}) && Abs() == old(Abs()).(timers := old(timers) + {c})
    {
      Ref(c);
      timers := timers + {c};
      assert forall d :: Holders(d) == old(Holders(d)) + (if d == c then 1 else 0);
    }

    method AwaitExit(c: nat)
      requires CountsAre({c}) && c !in waiting
      modifies this`heap, this`waiting
      ensures CountsAre({c}) && Abs() == old(Abs()).(waiting := old(waiting) + {c})
    {
      Ref(c);
      waiting := waiting + {c};
      assert forall d :: Holders(d) == old(Holders(d)) + (if d == c then 1 else 0);
    }

    method Decrement(c: nat)
      requires c in heap
      modifies this`heap
      ensures heap == old(heap)[c := old(heap)[c].(refcount := old(heap)[c].refcount - 1)]
      ensures Abs() == old(Abs())
    {
      heap := heap[c := heap[c].(refcount := heap[c].refcount - 1)];
      assert Abs().heap == old(Abs()).heap;
    }

    /** files_search_ref */
    method Ref(c: nat)
      requires c in heap
      modifies this`heap
      ensures heap == old(heap)[c := old(heap)[c].(refcount := old(heap)[c].refcount + 1)]
      ensures Abs().heap == old(Abs()).heap
    {
      heap := heap[c := heap[c].(refcount := heap[c].refcount + 1)];
    }
  }
}
