/** Numbering the visible windows of a workspace (src/harpoon/workspace_slots.c). */
module SlotOrder {
  import opened SeqFacts
  import opened VisibleRegion

  const ROW_THRESHOLD := 100
  const MAX_WORKSPACE_SLOTS: nat := 9

  /** Row mode groups by y and orders by x; column mode the other way round. */
  datatype Mode = RowFirst | ColumnFirst {
    function Grouping(w: WindowPosition): int { if RowFirst? then w.y else w.x }
    function Within(w: WindowPosition): int { if RowFirst? then w.x else w.y }
  }

  // ---- Band indices of an ascending coordinate list ----

  /** Band number of element `i` and the coordinate its band starts at. */
  function BandState(cs: seq<int>, i: nat): (int, int)
    requires i < |cs|
  {
    if i == 0 then (0, cs[0])
    else
      var (band, start) := BandState(cs, i - 1);
      if cs[i] - start > ROW_THRESHOLD then (band + 1, cs[i]) else (band, start)
  }

  lemma {:induction false} BandStep(cs: seq<int>, i: nat)
    requires i < |cs|
    ensures BandState(cs, i) ==
            if i == 0 then (0, cs[0])
            else
              var (band, start) := BandState(cs, i - 1);
              if cs[i] - start > ROW_THRESHOLD then (band + 1, cs[i]) else (band, start)
  {
  }

  /** assign_row_indices, and assign_column_indices over x. */
  method AssignBandIndices(mode: Mode, windows: seq<WindowPosition>, indices: array<int>)
    requires indices.Length >= |windows|
    modifies indices
    ensures forall i :: 0 <= i < |windows| ==> indices[i] == BandState(Coordinates(mode, windows), i).0
  {
    if |windows| == 0 {
      return;
    }
    ghost var cs := Coordinates(mode, windows);
    BandStep(cs, 0);
    var band, start := 0, mode.Grouping(windows[0]);
    indices[0] := 0;
    hide BandState, Coordinates;
    for i := 1 to |windows|
      invariant (band, start) == BandState(cs, i - 1)
      invariant forall k :: 0 <= k < i ==> indices[k] == BandState(cs, k).0
    {
      BandStep(cs, i);
      if mode.Grouping(windows[i]) - start > ROW_THRESHOLD {
        band := band + 1;
        start := mode.Grouping(windows[i]);
      }
      indices[i] := band;
    }
  }

  function Coordinates(mode: Mode, windows: seq<WindowPosition>): (r: seq<int>)
    ensures |r| == |windows|
  {
    seq(|windows|, k requires 0 <= k < |windows| => mode.Grouping(windows[k]))
  }

  predicate Ascending(cs: seq<int>) {
    forall i, j :: 0 <= i < j < |cs| ==> cs[i] <= cs[j]
  }

  /** workspace_slots.c:354-383.  A band spans at most 100 pixels from its first
      member, the next band starts more than 100 pixels further on, and numbers
      grow by one. */
  lemma {:induction false} BandShape(cs: seq<int>, i: nat)
    requires Ascending(cs) && i < |cs|
    ensures 0 <= BandState(cs, i).0 <= i
    ensures 0 <= cs[i] - BandState(cs, i).1 <= 100
    ensures exists k :: 0 <= k <= i && cs[k] == BandState(cs, i).1
              && BandState(cs, k) == BandState(cs, i) && (k > 0 ==> BandState(cs, k - 1).0 == BandState(cs, k).0 - 1)
    ensures i > 0 && BandState(cs, i).0 != BandState(cs, i - 1).0 ==>
              && BandState(cs, i).0 == BandState(cs, i - 1).0 + 1
              && BandState(cs, i).1 - BandState(cs, i - 1).1 > 100
  {
    hide BandState;
    BandStep(cs, i);
    if i == 0 {
      assert cs[0] == BandState(cs, 0).1;
    } else {
      BandShape(cs, i - 1);
      assert cs[i - 1] <= cs[i];
      if BandState(cs, i).0 == BandState(cs, i - 1).0 {
        var k :| 0 <= k <= i - 1 && cs[k] == BandState(cs, i - 1).1
          && BandState(cs, k) == BandState(cs, i - 1) && (k > 0 ==> BandState(cs, k - 1).0 == BandState(cs, k).0 - 1);
        assert cs[k] == BandState(cs, i).1 && BandState(cs, k) == BandState(cs, i);
      } else {
        assert cs[i] == BandState(cs, i).1;
      }
    }
  }

  // ---- The band as a function of the set of coordinates ----

  ghost function Lowest(s: set<int>): (m: int)
    requires s != {}
    ensures m in s && forall v :: v in s ==> m <= v
  {
    LowestExists(s);
    var m :| m in s && forall v :: v in s ==> m <= v;
    m
  }

  lemma {:induction false} EmptyOrNot(s: set<int>)
    ensures s == {} || exists a :: a in s
  {
    if forall a :: a !in s {
      assert s == {};
    }
  }

  lemma {:induction false} LowestExists(s: set<int>)
    requires s != {}
    ensures exists m :: m in s && forall v :: v in s ==> m <= v
    decreases s
  {
    EmptyOrNot(s);
    var a :| a in s;
    var rest := s - {a};
    if rest == {} {
      assert s == {a};
      assert a in s && forall v :: v in s ==> a <= v;
    } else {
      LowestExists(rest);
      var m :| m in rest && forall v :: v in rest ==> m <= v;
      var least := if a < m then a else m;
      assert least in s;
      forall v | v in s ensures least <= v {
        assert v == a || v in rest;
      }
    }
  }

  /** Start a band at the lowest coordinate, drop what it holds, go on. */
  ghost function Band(s: set<int>, c: int): nat
    requires c in s
    decreases s
  {
    var low := Lowest(s);
    if c - low <= ROW_THRESHOLD then 0
    else
      var rest := set v | v in s && v - low > ROW_THRESHOLD;
      assert low in s && low !in rest;
      1 + Band(rest, c)
  }

  function Elements(cs: seq<int>): set<int> {
    set v | v in cs
  }

  /** From index `a`, where a band starts, band numbers follow `Band`. */
  lemma {:induction false} BandFrom(cs: seq<int>, a: nat, i: nat)
    requires Ascending(cs) && a <= i < |cs| && BandState(cs, a).1 == cs[a]
    ensures cs[i] in Elements(cs[a..])
    ensures BandState(cs, i).0 == BandState(cs, a).0 + Band(Elements(cs[a..]), cs[i])
    decreases i - a
  {
    var tail := cs[a..];
    var s := Elements(tail);
    assert tail[0] == cs[a] && tail[i - a] == cs[i];
    assert cs[a] in s && cs[i] in s;
    assert Lowest(s) == cs[a] by {
      forall v | v in s ensures cs[a] <= v {
        var k :| 0 <= k < |tail| && tail[k] == v;
        assert cs[a + k] == v;
      }
    }
    var b := BandEnd(cs, a, i);
    if b <= i {
      var rest := set v | v in s && v - cs[a] > ROW_THRESHOLD;
      assert rest == Elements(cs[b..]) by {
        forall v ensures v in rest <==> v in Elements(cs[b..]) {
          if v in rest {
            var k :| 0 <= k < |tail| && tail[k] == v;
            assert a + k >= b;
            assert cs[b..][a + k - b] == v;
          }
          if v in Elements(cs[b..]) {
            var k :| 0 <= k < |cs[b..]| && cs[b..][k] == v;
            assert tail[b + k - a] == v && cs[b] <= cs[b + k];
          }
        }
      }
      BandFrom(cs, b, i);
    }
  }

  /** The first index after `a` outside the band that starts at `a`, or i + 1. */
  lemma {:induction false} BandEnd(cs: seq<int>, a: nat, i: nat) returns (b: nat)
    requires Ascending(cs) && a <= i < |cs| && BandState(cs, a).1 == cs[a]
    ensures a < b <= i + 1
    ensures forall k :: a <= k < b ==> BandState(cs, k) == BandState(cs, a) && cs[k] - cs[a] <= ROW_THRESHOLD
    ensures b <= i ==> cs[b] - cs[a] > ROW_THRESHOLD && BandState(cs, b) == (BandState(cs, a).0 + 1, cs[b])
    decreases i - a
  {
    if a == i {
      b := i + 1;
    } else {
      b := BandEnd(cs, a, i - 1);
      if b == i && cs[i] - cs[a] <= ROW_THRESHOLD {
        b := i + 1;
      }
    }
  }

  /** The band index of a window depends on the set of coordinates alone. */
  lemma {:induction false} BandIsIntrinsic(cs: seq<int>, i: nat)
    requires Ascending(cs) && i < |cs|
    ensures cs[i] in Elements(cs) && BandState(cs, i).0 == Band(Elements(cs), cs[i])
  {
    assert cs[0..] == cs;
    BandFrom(cs, 0, i);
  }

  // ---- Sorting ----

  datatype Placed = Placed(window: WindowPosition, band: int)

  type Key = (int, int)

  predicate KeyLeq(a: Key, b: Key) {
    a.0 < b.0 || (a.0 == b.0 && a.1 <= b.1)
  }

  predicate SortedKeys(ks: seq<Key>) {
    forall i, j :: 0 <= i < j < |ks| ==> KeyLeq(ks[i], ks[j])
  }

  function PlacedKey(mode: Mode, p: Placed): Key {
    (p.band, mode.Within(p.window))
  }

  function PlacedKeys(mode: Mode, ps: seq<Placed>): seq<Key> {
    Map(p => PlacedKey(mode, p), ps)
  }

  function Windows(ps: seq<Placed>): seq<WindowPosition> {
    Map((p: Placed) => p.window, ps)
  }

  /** The records built between the two qsort calls. */
  function Tagged(mode: Mode, windows: seq<WindowPosition>): (r: seq<Placed>)
    ensures |r| == |windows|
  {
    seq(|windows|, k requires 0 <= k < |windows| => Placed(windows[k], BandState(Coordinates(mode, windows), k).0))
  }

  /** Every outcome of sort_by_row or sort_by_column: each qsort may leave equal
      elements in any order. */
  ghost predicate SortOutcome(mode: Mode, input: seq<WindowPosition>, output: seq<WindowPosition>) {
    exists first: seq<WindowPosition>, second: seq<Placed> ::
      && multiset(first) == multiset(input) && Ascending(Coordinates(mode, first))
      && multiset(second) == multiset(Tagged(mode, first)) && SortedKeys(PlacedKeys(mode, second))
      && output == Windows(second)
  }

  ghost function CoordinateSet(mode: Mode, ws: seq<WindowPosition>): set<int> {
    set w | w in ws :: mode.Grouping(w)
  }

  /** The key a window sorts by, read off the unsorted input. */
  ghost function KeyOf(mode: Mode, s: set<int>, w: WindowPosition): Key {
    (if mode.Grouping(w) in s then Band(s, mode.Grouping(w)) else 0, mode.Within(w))
  }

  ghost function KeysOf(mode: Mode, s: set<int>, ws: seq<WindowPosition>): seq<Key> {
    Map(w => KeyOf(mode, s, w), ws)
  }

  lemma {:induction false} SortedHeads(a: seq<Key>, b: seq<Key>)
    requires SortedKeys(a) && SortedKeys(b) && a != [] && b != [] && forall k :: k in a <==> k in b
    ensures a[0] == b[0]
  {
    assert a[0] in b && b[0] in a;
    var i :| 0 <= i < |b| && b[i] == a[0];
    var j :| 0 <= j < |a| && a[j] == b[0];
    assert KeyLeq(a[0], a[j]) && KeyLeq(b[0], b[i]);
  }

  lemma {:induction false} SortedTail(a: seq<Key>)
    requires SortedKeys(a) && a != []
    ensures SortedKeys(a[1..])
  {
    forall i, j | 0 <= i < j < |a| - 1 ensures KeyLeq(a[1..][i], a[1..][j]) {
      assert KeyLeq(a[i + 1], a[j + 1]);
    }
  }

  lemma {:induction false} SortedUnique(a: seq<Key>, b: seq<Key>)
    requires SortedKeys(a) && SortedKeys(b) && multiset(a) == multiset(b)
    ensures a == b
    decreases |a|
  {
    hide SortedKeys;
    SameMembers(a, b);
    if a != [] {
      SortedHeads(a, b);
      TailMultiset(a, b);
      SortedTail(a);
      SortedTail(b);
      SortedUnique(a[1..], b[1..]);
      assert a == [a[0]] + a[1..] && b == [b[0]] + b[1..];
    }
  }

  /** workspace_slots.c:427-469.  Any outcome is a permutation of the input,
      sorted by band of the input's coordinates, then across the band. */
  lemma {:induction false} OutcomeIsSorted(mode: Mode, input: seq<WindowPosition>, output: seq<WindowPosition>)
    requires SortOutcome(mode, input, output)
    ensures multiset(output) == multiset(input)
    ensures SortedKeys(KeysOf(mode, CoordinateSet(mode, input), output))
  {
    var first: seq<WindowPosition>, second: seq<Placed> :|
      && multiset(first) == multiset(input) && Ascending(Coordinates(mode, first))
      && multiset(second) == multiset(Tagged(mode, first)) && SortedKeys(PlacedKeys(mode, second))
      && output == Windows(second);
    MapMultiset((p: Placed) => p.window, second, Tagged(mode, first));
    assert Windows(Tagged(mode, first)) == first;
    var s, cs := CoordinateSet(mode, input), Coordinates(mode, first);
    SameMembers(first, input);
    assert Elements(cs) == s by {
      CoordinatesAreElements(mode, first);
    }
    forall k | 0 <= k < |second|
      ensures KeysOf(mode, s, output)[k] == PlacedKeys(mode, second)[k]
    {
      assert second[k] in multiset(Tagged(mode, first));
      var q :| 0 <= q < |first| && Tagged(mode, first)[q] == second[k];
      BandIsIntrinsic(cs, q);
    }
    assert KeysOf(mode, s, output) == PlacedKeys(mode, second);
  }

  lemma {:induction false} CoordinatesAreElements(mode: Mode, ws: seq<WindowPosition>)
    ensures Elements(Coordinates(mode, ws)) == CoordinateSet(mode, ws)
  {
    var cs := Coordinates(mode, ws);
    forall v ensures v in Elements(cs) <==> v in CoordinateSet(mode, ws) {
      if v in CoordinateSet(mode, ws) {
        var w :| w in ws && mode.Grouping(w) == v;
        var k :| 0 <= k < |ws| && ws[k] == w;
        assert cs[k] == v;
      }
    }
  }

  /** Neither the order of the input nor an unstable sort changes the sequence
      of sort keys. */
  lemma {:induction false} OrderIsDetermined(mode: Mode, a: seq<WindowPosition>, b: seq<WindowPosition>,
                          outA: seq<WindowPosition>, outB: seq<WindowPosition>)
    requires multiset(a) == multiset(b) && SortOutcome(mode, a, outA) && SortOutcome(mode, b, outB)
    ensures CoordinateSet(mode, a) == CoordinateSet(mode, b)
    ensures KeysOf(mode, CoordinateSet(mode, a), outA) == KeysOf(mode, CoordinateSet(mode, b), outB)
  {
    hide SortOutcome, SortedKeys, Map, KeyOf;
    SameMembers(a, b);
    var s := CoordinateSet(mode, a);
    assert s == CoordinateSet(mode, b);
    OutcomeIsSorted(mode, a, outA);
    OutcomeIsSorted(mode, b, outB);
    MapMultiset(w => KeyOf(mode, s, w), outA, outB);
    SortedUnique(KeysOf(mode, s, outA), KeysOf(mode, s, outB));
  }

  // ---- How the order reads ----

  /** Coordinates more than 100 apart are in different bands, in their order. */
  lemma {:induction false} BandSeparates(s: set<int>, c: int, d: int)
    requires c in s && d in s && d - c > 100
    ensures Band(s, c) < Band(s, d)
    decreases s
  {
    var low := Lowest(s);
    if c - low > ROW_THRESHOLD {
      var rest := set v | v in s && v - low > ROW_THRESHOLD;
      assert low in s && low !in rest;
      BandSeparates(rest, c, d);
    }
  }

  lemma {:induction false} KeysInOrder(mode: Mode, input: seq<WindowPosition>, output: seq<WindowPosition>,
                                       i: nat, j: nat)
    requires SortOutcome(mode, input, output) && i < j < |output|
    ensures var s := CoordinateSet(mode, input);
            && mode.Grouping(output[i]) in s && mode.Grouping(output[j]) in s
            && KeyLeq(KeyOf(mode, s, output[i]), KeyOf(mode, s, output[j]))
  {
    hide SortOutcome, KeyLeq, KeyOf, Band;
    var s := CoordinateSet(mode, input);
    OutcomeIsSorted(mode, input, output);
    SameMembers(output, input);
    assert output[i] in input && output[j] in input;
    assert KeyLeq(KeysOf(mode, s, output)[i], KeysOf(mode, s, output)[j]);
  }

  /** Rows run from top to bottom and each from left to right: no window stands
      behind one that lies more than 100 pixels below it, nor, in its own row, behind
      one further right. */
  lemma {:induction false} RowsReadAcross(input: seq<WindowPosition>, output: seq<WindowPosition>, i: nat, j: nat)
    requires SortOutcome(RowFirst, input, output) && i < j < |output|
    ensures output[i].y <= output[j].y + 100
    ensures output[i] in input && output[j] in input
    ensures var ys := set w | w in input :: w.y;
            && output[i].y in ys && output[j].y in ys
            && (Band(ys, output[i].y) == Band(ys, output[j].y) ==> output[i].x <= output[j].x)
    ensures output[i].y == output[j].y ==> output[i].x <= output[j].x
  {
    hide SortOutcome, Band;
    KeysInOrder(RowFirst, input, output, i, j);
    OutcomeIsSorted(RowFirst, input, output);
    SameMembers(output, input);
    var ys := set w | w in input :: w.y;
    assert ys == CoordinateSet(RowFirst, input);
    if output[i].y > output[j].y + 100 {
      BandSeparates(ys, output[j].y, output[i].y);
    }
  }

  /** In column mode the two coordinates change places. */
  lemma {:induction false} ColumnsReadDown(input: seq<WindowPosition>, output: seq<WindowPosition>, i: nat, j: nat)
    requires SortOutcome(ColumnFirst, input, output) && i < j < |output|
    ensures output[i].x <= output[j].x + 100
    ensures output[i] in input && output[j] in input
    ensures var xs := set w | w in input :: w.x;
            && output[i].x in xs && output[j].x in xs
            && (Band(xs, output[i].x) == Band(xs, output[j].x) ==> output[i].y <= output[j].y)
    ensures output[i].x == output[j].x ==> output[i].y <= output[j].y
  {
    hide SortOutcome, Band;
    KeysInOrder(ColumnFirst, input, output, i, j);
    OutcomeIsSorted(ColumnFirst, input, output);
    SameMembers(output, input);
    var xs := set w | w in input :: w.x;
    assert xs == CoordinateSet(ColumnFirst, input);
    if output[i].x > output[j].x + 100 {
      BandSeparates(xs, output[j].x, output[i].x);
    }
  }

  // ---- Slots ----

  datatype WorkspaceSlot = WorkspaceSlot(id: int, overlayX: int, overlayY: int, hasOverlay: bool)

  datatype Candidate = Candidate(window: WindowPosition, overlayX: int, overlayY: int)

  class WorkspaceSlotManager {
    const slots: array<WorkspaceSlot>
    var count: nat
    var workspace: int

    ghost predicate Valid()
      reads this
    {
      slots.Length == MAX_WORKSPACE_SLOTS && count <= MAX_WORKSPACE_SLOTS
    }

    constructor ()
      ensures Valid() && fresh(slots) && count == 0 && workspace == -1
    {
      slots := new WorkspaceSlot[MAX_WORKSPACE_SLOTS](_ => WorkspaceSlot(0, 0, 0, false));
      count, workspace := 0, -1;
    }

    /** The dense assignment that ends assign_workspace_slots. */
    method AssignDense(visible: seq<Candidate>, desktop: int)
      requires Valid()
      modifies this, slots
      ensures Valid() && workspace == desktop
      ensures count == if |visible| < MAX_WORKSPACE_SLOTS then |visible| else MAX_WORKSPACE_SLOTS
      ensures forall i :: 0 <= i < count ==>
                slots[i] == WorkspaceSlot(visible[i].window.id, visible[i].overlayX, visible[i].overlayY, true)
      ensures forall i :: count <= i < slots.Length ==> slots[i] == old(slots[i])
    {
      count, workspace := 0, desktop;
      var total := if |visible| < MAX_WORKSPACE_SLOTS then |visible| else MAX_WORKSPACE_SLOTS;
      for i := 0 to total
        invariant Valid() && workspace == desktop
        invariant forall k :: 0 <= k < i ==>
                    slots[k] == WorkspaceSlot(visible[k].window.id, visible[k].overlayX, visible[k].overlayY, true)
        invariant forall k :: i <= k < slots.Length ==> slots[k] == old(slots[k])
      {
        slots[i] := WorkspaceSlot(visible[i].window.id, visible[i].overlayX, visible[i].overlayY, true);
      }
      count := total;
    }

    /** get_workspace_slot_window: slots are numbered from 1, 0 means none. */
    method GetWindow(slot: int) returns (id: int)
      requires Valid()
      ensures id == if 1 <= slot <= count then slots[slot - 1].id else 0
    {
      if slot < 1 || slot > MAX_WORKSPACE_SLOTS {
        return 0;
      }
      var index := slot - 1;
      if index >= count {
        return 0;
      }
      return slots[index].id;
    }
  }

  /** Recalling slot k after an assignment gives the k-th window of the order
      for k up to nine, and no window beyond the last. */
  method AssignThenRecall(manager: WorkspaceSlotManager, visible: seq<Candidate>, desktop: int, slot: int)
    returns (id: int)
    requires manager.Valid()
    modifies manager, manager.slots
    ensures manager.Valid()
    ensures id == if 1 <= slot <= |visible| && slot <= MAX_WORKSPACE_SLOTS then visible[slot - 1].window.id else 0
  {
    manager.AssignDense(visible, desktop);
    id := manager.GetWindow(slot);
  }
}
