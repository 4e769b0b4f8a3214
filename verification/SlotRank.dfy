/** Sorting and numbering together (src/harpoon/workspace_slots.c:572-614): which
    window a slot recalls, read off the unsorted candidates. */
module SlotRank {
  import opened SeqFacts
  import opened SlotOrder
  import opened VisibleRegion

  function WindowsOf(cs: seq<Candidate>): seq<WindowPosition> {
    Map((c: Candidate) => c.window, cs)
  }

  /** The candidates move with their windows. */
  ghost predicate CandidateOutcome(mode: Mode, input: seq<Candidate>, output: seq<Candidate>) {
    multiset(output) == multiset(input) && SortOutcome(mode, WindowsOf(input), WindowsOf(output))
  }

  /** What the candidate sorts by among these candidates. */
  ghost function CandidateKey(mode: Mode, input: seq<Candidate>, c: Candidate): Key {
    KeyOf(mode, CoordinateSet(mode, WindowsOf(input)), c.window)
  }

  ghost function CandidateKeys(mode: Mode, input: seq<Candidate>): seq<Key> {
    KeysOf(mode, CoordinateSet(mode, WindowsOf(input)), WindowsOf(input))
  }

  // ---- Counting keys ----

  function CountBefore(ks: seq<Key>, key: Key): (n: nat)
    ensures n <= |ks|
  {
    if ks == [] then 0
    else CountBefore(ks[1..], key) + if KeyLeq(key, ks[0]) then 0 else 1
  }

  function CountUpTo(ks: seq<Key>, key: Key): (n: nat)
    ensures n <= |ks|
  {
    if ks == [] then 0
    else CountUpTo(ks[1..], key) + if KeyLeq(ks[0], key) then 1 else 0
  }

  lemma {:induction false} CountConcat(a: seq<Key>, b: seq<Key>, key: Key)
    ensures CountBefore(a + b, key) == CountBefore(a, key) + CountBefore(b, key)
    ensures CountUpTo(a + b, key) == CountUpTo(a, key) + CountUpTo(b, key)
  {
    hide KeyLeq;
    if a == [] {
      assert a + b == b;
    } else {
      assert (a + b)[1..] == a[1..] + b;
      CountConcat(a[1..], b, key);
    }
  }

  lemma {:induction false} CountPermuted(a: seq<Key>, b: seq<Key>, key: Key)
    requires multiset(a) == multiset(b)
    ensures CountBefore(a, key) == CountBefore(b, key) && CountUpTo(a, key) == CountUpTo(b, key)
    decreases |a|
  {
    hide KeyLeq, CountBefore, CountUpTo;
    SameMembers(a, b);
    if a != [] {
      assert a[0] in b;
      var j :| 0 <= j < |b| && b[j] == a[0];
      CountWithout(a, 0, key);
      CountWithout(b, j, key);
      WithoutMultiset(a, 0);
      WithoutMultiset(b, j);
      SameRest(multiset(Without(a, 0)), multiset(Without(b, j)), a[0]);
      CountPermuted(Without(a, 0), Without(b, j), key);
    } else {
      assert b == [];
    }
  }

  lemma {:induction false} CountWithout(ks: seq<Key>, k: nat, key: Key)
    requires k < |ks|
    ensures CountBefore(ks, key) == CountBefore(Without(ks, k), key) + if KeyLeq(key, ks[k]) then 0 else 1
    ensures CountUpTo(ks, key) == CountUpTo(Without(ks, k), key) + if KeyLeq(ks[k], key) then 1 else 0
  {
    hide KeyLeq;
    assert ks == ks[..k] + ks[k..] && ks[k..][1..] == ks[k + 1..];
    CountConcat(ks[..k], ks[k..], key);
    CountConcat(ks[..k], ks[k + 1..], key);
  }

  lemma {:induction false} NoneBefore(ks: seq<Key>, key: Key)
    requires forall k :: 0 <= k < |ks| ==> KeyLeq(key, ks[k])
    ensures CountBefore(ks, key) == 0
  {
    if ks != [] {
      NoneBefore(ks[1..], key);
    }
  }

  lemma {:induction false} AllUpTo(ks: seq<Key>, key: Key)
    requires forall k :: 0 <= k < |ks| ==> KeyLeq(ks[k], key)
    ensures CountUpTo(ks, key) == |ks|
  {
    if ks != [] {
      AllUpTo(ks[1..], key);
    }
  }

  /** In a sorted list, the place of a key is between the two counts. */
  lemma {:induction false} SortedPlace(ks: seq<Key>, i: nat)
    requires SortedKeys(ks) && i < |ks|
    ensures CountBefore(ks, ks[i]) <= i < CountUpTo(ks, ks[i])
  {
    assert ks == ks[..i] + ks[i..] && ks == ks[..i + 1] + ks[i + 1..];
    CountConcat(ks[..i], ks[i..], ks[i]);
    CountConcat(ks[..i + 1], ks[i + 1..], ks[i]);
    NoneBefore(ks[i..], ks[i]);
    AllUpTo(ks[..i + 1], ks[i]);
  }

  // ---- Slots ----

  lemma {:induction false} OutcomeKeys(mode: Mode, input: seq<Candidate>, output: seq<Candidate>)
    requires CandidateOutcome(mode, input, output)
    ensures var ks := Map(c => CandidateKey(mode, input, c), output);
            SortedKeys(ks) && multiset(ks) == multiset(CandidateKeys(mode, input))
  {
    hide SortOutcome, SortedKeys, KeyOf, CoordinateSet;
    var s := CoordinateSet(mode, WindowsOf(input));
    OutcomeIsSorted(mode, WindowsOf(input), WindowsOf(output));
    assert Map(c => CandidateKey(mode, input, c), output) == KeysOf(mode, s, WindowsOf(output));
    MapMultiset(w => KeyOf(mode, s, w), WindowsOf(output), WindowsOf(input));
  }

  /** The candidate in place `i` (slot `i + 1`) has at most `i` candidates before
      it, and with itself more than `i` not after it. */
  lemma {:induction false} PlaceIsRank(mode: Mode, input: seq<Candidate>, output: seq<Candidate>, i: nat)
    requires CandidateOutcome(mode, input, output) && i < |output|
    ensures |output| == |input| && output[i] in input
    ensures var ks, key := CandidateKeys(mode, input), CandidateKey(mode, input, output[i]);
            CountBefore(ks, key) <= i < CountUpTo(ks, key)
  {
    hide SortOutcome, SortedKeys, KeyOf, CandidateKeys, CandidateKey;
    SameMembers(output, input);
    assert |multiset(output)| == |multiset(input)|;
    OutcomeKeys(mode, input, output);
    var ks := Map(c => CandidateKey(mode, input, c), output);
    SortedPlace(ks, i);
    CountPermuted(ks, CandidateKeys(mode, input), ks[i]);
  }

  /** A candidate that ties with no other has its place in every outcome. */
  lemma {:induction false} UntiedPlace(mode: Mode, input: seq<Candidate>, output: seq<Candidate>, c: Candidate)
    requires CandidateOutcome(mode, input, output) && c in input
    requires var ks, key := CandidateKeys(mode, input), CandidateKey(mode, input, c);
             CountUpTo(ks, key) == CountBefore(ks, key) + 1
    ensures var before := CountBefore(CandidateKeys(mode, input), CandidateKey(mode, input, c));
            before < |output| && output[before] == c
  {
    hide CandidateOutcome, CandidateKeys, CandidateKey;
    OutcomeMembers(mode, input, output);
    var i :| 0 <= i < |output| && output[i] == c;
    PlaceIsRank(mode, input, output, i);
  }

  lemma {:induction false} OutcomeMembers(mode: Mode, input: seq<Candidate>, output: seq<Candidate>)
    requires CandidateOutcome(mode, input, output)
    ensures forall c :: c in output <==> c in input
  {
    hide SortOutcome;
    SameMembers(output, input);
  }

  /** Sorting, assigning densely and recalling: slot k gives the k-th window of the
      sorted candidates, one of rank k among them, for k up to nine. */
  method SortedThenRecall(manager: WorkspaceSlotManager, mode: Mode, ghost input: seq<Candidate>,
                          sorted: seq<Candidate>, desktop: int, slot: int)
    returns (id: int)
    requires manager.Valid() && CandidateOutcome(mode, input, sorted)
    modifies manager, manager.slots
    ensures manager.Valid() && |sorted| == |input|
    ensures id == if 1 <= slot <= |input| && slot <= 9 then sorted[slot - 1].window.id else 0
    ensures 1 <= slot <= |input| && slot <= 9 ==>
              var ks, key := CandidateKeys(mode, input), CandidateKey(mode, input, sorted[slot - 1]);
              sorted[slot - 1] in input && CountBefore(ks, key) < slot <= CountUpTo(ks, key)
  {
    assert |sorted| == |input| by {
      assert |multiset(sorted)| == |multiset(input)|;
    }
    if 1 <= slot <= |sorted| {
      PlaceIsRank(mode, input, sorted, slot - 1);
    }
    id := AssignThenRecall(manager, sorted, desktop, slot);
  }
}
