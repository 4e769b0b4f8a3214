/** The registry of match entries: stable ids over an array that shifts on
    deletion (src/matching/match_entry.c and match_entry_config.c). */
module MatchRegistry {
  import opened CStrings
  import opened Wildcard

  const MAX_WINDOWS: nat := 256

  datatype WindowInfo = WindowInfo(id: int, title: seq<byte>, className: seq<byte>, instance: seq<byte>,
      kind: seq<byte>)

  datatype MatchEntry = MatchEntry(matchId: int, boundId: int, className: seq<byte>, instance: seq<byte>,
                                   kind: seq<byte>, title: seq<byte>, isAssigned: bool)

  const CLEARED := MatchEntry(0, 0, [], [], [], [], false)

  /** What the manager holds: the live entries and the next id. */
  datatype Registry = Registry(entries: seq<MatchEntry>, nextId: int)

  // ---- The registry on values ----

  predicate HasId(es: seq<MatchEntry>, id: int) {
    exists k :: 0 <= k < |es| && es[k].matchId == id
  }

  /** Ids are positive, pairwise distinct and below the next one. */
  predicate WellFormed(r: Registry) {
    && |r.entries| <= MAX_WINDOWS && r.nextId > 0
    && (forall k :: 0 <= k < |r.entries| ==> 0 < r.entries[k].matchId < r.nextId)
    && (forall a, b :: 0 <= a < b < |r.entries| ==> r.entries[a].matchId != r.entries[b].matchId)
  }

  /** Index of the first entry with the id, or -1. */
  function IndexOf(es: seq<MatchEntry>, id: int): (i: int)
    ensures -1 <= i < |es|
    ensures i >= 0 ==> es[i].matchId == id && forall k :: 0 <= k < i ==> es[k].matchId != id
    ensures i < 0 <==> !HasId(es, id)
  {
    if es == [] then -1
    else
      var n := |es| - 1;
      var i := IndexOf(es[..n], id);
      if i >= 0 then i else if es[n].matchId == id then n
      else
        assert forall k :: 0 <= k < n ==> es[k] == es[..n][k];
        -1
  }

  function RemoveAt(es: seq<MatchEntry>, i: nat): seq<MatchEntry>
    requires i < |es|
  {
    es[..i] + es[i + 1..]
  }

  /** The entries whose id is not among `ids`, in order. */
  function Except(es: seq<MatchEntry>, ids: set<int>): seq<MatchEntry> {
    if es == [] then []
    else
      var n := |es| - 1;
      Except(es[..n], ids) + if es[n].matchId in ids then [] else [es[n]]
  }

  /** The entries whose id is among `ids`, in order. */
  function Only(es: seq<MatchEntry>, ids: seq<int>): seq<MatchEntry> {
    if es == [] then []
    else
      var n := |es| - 1;
      Only(es[..n], ids) + if Referenced(es[n].matchId, ids) then [es[n]] else []
  }

  /** match_id_is_referenced */
  predicate Referenced(id: int, ids: seq<int>) {
    id > 0 && id in ids
  }

  function FreshId(next: int): int {
    if next <= 0 then 1 else next
  }

  /** The entry captured from a live window. */
  function Captured(w: WindowInfo, id: int): MatchEntry {
    MatchEntry(id, w.id, w.className, w.instance, w.kind, Escape(w.title), true)
  }

  function Pattern(p: seq<byte>, id: int): MatchEntry {
    MatchEntry(id, 0, [], [], [], p, false)
  }

  function Append(r: Registry, e: MatchEntry): Registry {
    Registry(r.entries + [e], FreshId(r.nextId) + 1)
  }

  ghost predicate Matches(e: MatchEntry, w: WindowInfo) {
    && Glob(e.title, w.title)
    && (e.className == [] || e.className == w.className)
    && (e.instance == [] || e.instance == w.instance)
    && (e.kind == [] || e.kind == w.kind)
  }

  /** match_entry.c:244: the warning about a fresh entry that does not match its
      own window can never be logged. */
  lemma {:induction false} CapturedMatchesSource(w: WindowInfo, id: int)
    ensures Matches(Captured(w, id), w)
  {
    EscapedMatchesItself(w.title);
  }

  /** A captured entry matches the windows whose title is as long and differs only
      where the captured one has a star or a dot, and that agree in class, instance
      and type as far as the captured window had any. */
  lemma {:induction false} CapturedMatchesIff(w: WindowInfo, id: int, v: WindowInfo)
    ensures Matches(Captured(w, id), v) <==>
            && |v.title| == |w.title|
            && (forall k :: 0 <= k < |w.title| ==>
                  w.title[k] == '*' as int || w.title[k] == '.' as int || w.title[k] == v.title[k])
            && (w.className == [] || w.className == v.className)
            && (w.instance == [] || w.instance == v.instance)
            && (w.kind == [] || w.kind == v.kind)
  {
    hide Glob;
    EscapedKeepsLength(w.title, v.title);
  }

  /** A typed pattern is not bound, and its one star spans any middle of a title, in
      windows of every class. */
  lemma {:induction false} PatternMatchesIff(u: seq<byte>, v: seq<byte>, id: int, w: WindowInfo)
    requires Plain(u) && Plain(v)
    ensures var e := Pattern(u + ['*' as int] + v, id);
            && e.boundId == 0 && !e.isAssigned && e.matchId == id
            && (Matches(e, w) <==>
                |u| + |v| <= |w.title| && w.title[..|u|] == u && w.title[|w.title| - |v|..] == v)
  {
    hide Glob;
    StarSpansMiddle(u, v, w.title);
  }

  method MatchesWindow(e: MatchEntry, w: WindowInfo) returns (matched: bool)
    ensures matched <==> Matches(e, w)
  {
    var title := WildcardMatch(e.title, w.title);
    if !title { return false; }
    if |e.className| != 0 && e.className != w.className { return false; }
    if |e.instance| != 0 && e.instance != w.instance { return false; }
    if |e.kind| != 0 && e.kind != w.kind { return false; }
    return true;
  }

  // ---- Deleting by id ----

  lemma {:induction false} ExceptAbsent(es: seq<MatchEntry>, ids: set<int>)
    requires forall k :: 0 <= k < |es| ==> es[k].matchId !in ids
    ensures Except(es, ids) == es
  {
    if es != [] {
      var n := |es| - 1;
      ExceptAbsent(es[..n], ids);
      assert es == es[..n] + [es[n]];
    }
  }

  lemma {:induction false} ExceptConcat(a: seq<MatchEntry>, b: seq<MatchEntry>, ids: set<int>)
    ensures Except(a + b, ids) == Except(a, ids) + Except(b, ids)
  {
    if b == [] {
      assert a + b == a;
    } else {
      var n := |b| - 1;
      assert (a + b)[..|a| + n] == a + b[..n];
      ExceptConcat(a, b[..n], ids);
    }
  }

  lemma {:induction false} ExceptMembers(es: seq<MatchEntry>, ids: set<int>)
    ensures forall e :: e in Except(es, ids) <==> e in es && e.matchId !in ids
    ensures |Except(es, ids)| <= |es|
  {
    if es != [] {
      var n := |es| - 1;
      ExceptMembers(es[..n], ids);
      assert es == es[..n] + [es[n]];
    }
  }

  lemma {:induction false} ExceptTwice(es: seq<MatchEntry>, a: set<int>, b: set<int>)
    ensures Except(Except(es, a), b) == Except(es, a + b)
  {
    if es != [] {
      var n := |es| - 1;
      var last := if es[n].matchId in a then [] else [es[n]];
      ExceptTwice(es[..n], a, b);
      ExceptConcat(Except(es[..n], a), last, b);
      if last != [] {
        assert last[..0] == [];
      }
    }
  }

  lemma {:induction false} ExceptOne(e: MatchEntry, ids: set<int>)
    requires e.matchId in ids
    ensures Except([e], ids) == []
  {
    assert [e][..0] == [];
  }

  lemma {:induction false} ExceptAround(es: seq<MatchEntry>, i: nat, ids: set<int>)
    requires i < |es| && es[i].matchId in ids
    ensures Except(es, ids) == Except(es[..i], ids) + Except(es[i + 1..], ids)
  {
    hide Except;
    ExceptOne(es[i], ids);
    ExceptConcat([es[i]], es[i + 1..], ids);
    ExceptConcat(es[..i], [es[i]] + es[i + 1..], ids);
    assert es == es[..i] + ([es[i]] + es[i + 1..]);
  }

  /** With distinct ids, deleting the indexed entry removes exactly its id. */
  lemma {:induction false} RemoveAtIsExcept(es: seq<MatchEntry>, i: nat)
    requires i < |es| && forall a, b :: 0 <= a < b < |es| ==> es[a].matchId != es[b].matchId
    ensures RemoveAt(es, i) == Except(es, {es[i].matchId})
  {
    hide Except;
    ExceptAround(es, i, {es[i].matchId});
    ExceptAbsent(es[..i], {es[i].matchId});
    ExceptAbsent(es[i + 1..], {es[i].matchId});
  }

  lemma {:induction false} ExceptKeepsDistinct(es: seq<MatchEntry>, ids: set<int>)
    requires forall a, b :: 0 <= a < b < |es| ==> es[a].matchId != es[b].matchId
    ensures var out := Except(es, ids); forall a, b :: 0 <= a < b < |out| ==> out[a].matchId != out[b].matchId
  {
    if es != [] {
      var n := |es| - 1;
      ExceptKeepsDistinct(es[..n], ids);
      ExceptMembers(es[..n], ids);
      var front, out := Except(es[..n], ids), Except(es, ids);
      forall a, b | 0 <= a < b < |out| ensures out[a].matchId != out[b].matchId {
        if b == |front| {
          assert front[a] in es[..n];
        }
      }
    }
  }

  /** A registry with entries removed stays well formed. */
  lemma {:induction false} ExceptWellFormed(r: Registry, ids: set<int>)
    requires WellFormed(r)
    ensures WellFormed(Registry(Except(r.entries, ids), r.nextId))
  {
    ExceptKeepsDistinct(r.entries, ids);
    ExceptMembers(r.entries, ids);
    var out := Except(r.entries, ids);
    forall k | 0 <= k < |out| ensures 0 < out[k].matchId < r.nextId {
      assert out[k] in r.entries;
    }
  }

  lemma {:induction false} AppendWellFormed(r: Registry, e: MatchEntry)
    requires WellFormed(r) && |r.entries| < MAX_WINDOWS && e.matchId == FreshId(r.nextId)
    ensures WellFormed(Append(r, e))
  {
  }

  // ---- Rebinding to live windows ----

  predicate Live(ws: seq<WindowInfo>, id: int) {
    id != 0 && exists j :: 0 <= j < |ws| && ws[j].id == id
  }

  /** Index of the first window from `j` on that the entry matches, or the length. */
  ghost function FirstMatch(e: MatchEntry, ws: seq<WindowInfo>, j: nat): (m: nat)
    requires j <= |ws|
    ensures j <= m <= |ws| && (m < |ws| ==> Matches(e, ws[m])) && forall k :: j <= k < m ==> !Matches(e, ws[k])
    decreases |ws| - j
  {
    if j == |ws| || Matches(e, ws[j]) then j else FirstMatch(e, ws, j + 1)
  }

  /** A live binding sticks; a dead one is replaced by the first match, if any. */
  ghost function Rebound(e: MatchEntry, ws: seq<WindowInfo>): MatchEntry {
    if Live(ws, e.boundId) then e.(isAssigned := true)
    else
      var m := FirstMatch(e, ws, 0);
      if m < |ws| then e.(boundId := ws[m].id, isAssigned := true) else e.(boundId := 0, isAssigned := false)
  }

  /** The window is the first of the list that the entry matches. */
  ghost predicate IsFirstMatch(e: MatchEntry, ws: seq<WindowInfo>, j: int) {
    0 <= j < |ws| && Matches(e, ws[j]) && forall q :: 0 <= q < j ==> !Matches(e, ws[q])
  }

  /** match_entry.c:104-146.  What becomes of an entry: its window, if that is still
      listed, else the first one it matches, else none. */
  ghost predicate RebindsTo(e: MatchEntry, ws: seq<WindowInfo>, f: MatchEntry) {
    if exists j :: 0 <= j < |ws| && ws[j].id == e.boundId then f == e.(isAssigned := true)
    else if exists j :: 0 <= j < |ws| && Matches(e, ws[j]) then
      exists j :: IsFirstMatch(e, ws, j) && f == e.(boundId := ws[j].id, isAssigned := true)
    else f == e.(boundId := 0, isAssigned := false)
  }

  lemma {:induction false} ReboundIs(e: MatchEntry, ws: seq<WindowInfo>)
    requires forall j :: 0 <= j < |ws| ==> ws[j].id != 0
    ensures RebindsTo(e, ws, Rebound(e, ws))
  {
    hide Matches;
    var m := FirstMatch(e, ws, 0);
    assert m < |ws| ==> IsFirstMatch(e, ws, m);
  }

  ghost function ReboundAll(es: seq<MatchEntry>, ws: seq<WindowInfo>): (r: seq<MatchEntry>)
    ensures |r| == |es| && forall k :: 0 <= k < |es| ==> r[k] == Rebound(es[k], ws) && r[k].matchId == es[k].matchId
  {
    seq(|es|, k requires 0 <= k < |es| => Rebound(es[k], ws))
  }

  // ---- Loading ----

  /** normalize_loaded_match_entries */
  function Normalised(r: Registry): (n: Registry)
    ensures |n.entries| == |r.entries| && n.nextId > 0
    decreases |r.entries|
  {
    if r.entries == [] then Registry([], FreshId(r.nextId))
    else
      var last := |r.entries| - 1;
      var done := Normalised(Registry(r.entries[..last], r.nextId));
      var e := r.entries[last];
      if e.matchId <= 0 || HasId(done.entries, e.matchId) then
        Registry(done.entries + [e.(matchId := done.nextId)], done.nextId + 1)
      else
        Registry(done.entries + [e], if e.matchId >= done.nextId then e.matchId + 1 else done.nextId)
  }

  lemma {:induction false} NormaliseNothing(next: int)
    ensures Normalised(Registry([], next)) == Registry([], FreshId(next))
  {
  }

  lemma {:induction false} HasIdIff(es: seq<MatchEntry>, id: int, has: bool)
    requires has ==> exists k :: 0 <= k < |es| && es[k].matchId == id
    requires !has ==> forall k :: 0 <= k < |es| ==> es[k].matchId != id
    ensures HasId(es, id) == has
  {
  }

  /** The array while garbage is collected: kept entries, then unseen ones. */
  lemma {:induction false} GcSplit(now: seq<MatchEntry>, kept: seq<MatchEntry>, all: seq<MatchEntry>, seen: nat)
    requires seen <= |all| && now == kept + all[seen..] && |kept| < |now|
    ensures seen < |all| && now[|kept|] == all[seen]
    ensures RemoveAt(now, |kept|) == kept + all[seen + 1..]
    ensures now == kept + [all[seen]] + all[seen + 1..]
  {
  }

  lemma {:induction false} OnlyNone(ids: seq<int>)
    ensures Only([], ids) == []
  {
  }

  lemma {:induction false} OnlyStep(es: seq<MatchEntry>, ids: seq<int>, i: nat)
    requires i < |es|
    ensures Only(es[..i + 1], ids) == Only(es[..i], ids) + if Referenced(es[i].matchId, ids) then [es[i]] else []
  {
    assert es[..i + 1][..i] == es[..i];
  }

  /** One turn of the normalising loop. */
  lemma {:induction false} NormaliseStep(r: Registry, i: nat)
    requires i < |r.entries|
    ensures var done := Normalised(Registry(r.entries[..i], r.nextId));
            var e := r.entries[i];
            Normalised(Registry(r.entries[..i + 1], r.nextId)) ==
              if e.matchId <= 0 || HasId(done.entries, e.matchId) then
                Registry(done.entries + [e.(matchId := done.nextId)], done.nextId + 1)
              else
                Registry(done.entries + [e], if e.matchId >= done.nextId then e.matchId + 1 else done.nextId)
  {
    assert r.entries[..i + 1][..i] == r.entries[..i];
  }

  /** Whatever was in the file, the loaded registry is well formed. */
  lemma {:induction false} NormalisedIsWellFormed(r: Registry)
    requires |r.entries| <= MAX_WINDOWS
    ensures WellFormed(Normalised(r)) && Normalised(r).nextId >= r.nextId
    decreases |r.entries|
  {
    if r.entries != [] {
      var last := |r.entries| - 1;
      NormalisedIsWellFormed(Registry(r.entries[..last], r.nextId));
    }
  }

  lemma {:induction false} NormalisedKeepsWellFormed(r: Registry)
    requires WellFormed(r)
    ensures Normalised(r) == r
    decreases |r.entries|
  {
    hide Normalised, HasId;
    if r.entries == [] {
      NormaliseNothing(r.nextId);
    } else {
      var last := |r.entries| - 1;
      NormalisedKeepsWellFormed(Registry(r.entries[..last], r.nextId));
      NormaliseStep(r, last);
      HasIdIff(r.entries[..last], r.entries[last].matchId, false);
      assert r.entries == r.entries[..last + 1] == r.entries[..last] + [r.entries[last]];
    }
  }

  /** match_entry_config.c:44-73.  Normalising is the identity exactly on well
      formed registries. */
  lemma {:induction false} NormalisedIsIdentityIff(r: Registry)
    requires |r.entries| <= MAX_WINDOWS
    ensures Normalised(r) == r <==> WellFormed(r)
  {
    NormalisedIsWellFormed(r);
    if WellFormed(r) {
      NormalisedKeepsWellFormed(r);
    }
  }

  /** Everything but ids survives normalising, and an id is kept exactly when it
      is positive and not among the loaded ids before it. */
  lemma {:induction false} NormalisedKeepsUnseen(r: Registry, k: nat)
    requires k < |r.entries|
    ensures var n := Normalised(r);
            && n.entries[k].(matchId := 0) == r.entries[k].(matchId := 0)
            && (n.entries[k].matchId == r.entries[k].matchId <==>
                r.entries[k].matchId > 0 && !HasId(n.entries[..k], r.entries[k].matchId))
    decreases |r.entries|
  {
    var last := |r.entries| - 1;
    var front := Registry(r.entries[..last], r.nextId);
    var done := Normalised(front);
    if k < last {
      NormalisedKeepsUnseen(front, k);
      assert Normalised(r).entries[..k] == done.entries[..k];
    } else {
      assert Normalised(r).entries[..k] == done.entries;
      NormalisedIdsBelow(front);
    }
  }

  lemma {:induction false} NormalisedIdsBelow(r: Registry)
    ensures forall k :: 0 <= k < |r.entries| ==> 0 < Normalised(r).entries[k].matchId < Normalised(r).nextId
    decreases |r.entries|
  {
    if r.entries != [] {
      NormalisedIdsBelow(Registry(r.entries[..|r.entries| - 1], r.nextId));
    }
  }

  /** "Missing or duplicate ids get fresh ones" is not all that happens: an entry
      without an id can be given the id that a later entry rightly holds. */
  lemma {:induction false} NormalisingMayStealAnId(a: MatchEntry, b: MatchEntry)
    requires a.matchId == 0 && b.matchId == 5
    ensures Normalised(Registry([a, b], 5)) == Registry([a.(matchId := 5), b.(matchId := 6)], 7)
  {
    var r := Registry([a, b], 5);
    assert r.entries[..1] == [a] && [a][..0] == [];
    assert Normalised(Registry([], 5)) == Registry([], 5);
    assert Normalised(Registry([a], 5)) == Registry([a.(matchId := 5)], 6);
    assert [a.(matchId := 5)][0].matchId == 5;
  }

  /** It cannot happen when the stored next id is above every stored id, as it is
      in every file the program writes: then all first occurrences keep theirs. */
  lemma {:induction false} HighNextIdProtects(r: Registry, k: nat)
    requires k < |r.entries| && forall q :: 0 <= q < |r.entries| ==> r.entries[q].matchId < r.nextId
    requires r.entries[k].matchId > 0 && forall q :: 0 <= q < k ==> r.entries[q].matchId != r.entries[k].matchId
    ensures Normalised(r).entries[k].matchId == r.entries[k].matchId
  {
    NormalisedKeepsUnseen(r, k);
    if HasId(Normalised(r).entries[..k], r.entries[k].matchId) {
      var q :| 0 <= q < k && Normalised(r).entries[..k][q].matchId == r.entries[k].matchId;
      OutIdOldOrFresh(r, q);
    }
  }

  lemma {:induction false} OutIdOldOrFresh(r: Registry, k: nat)
    requires k < |r.entries|
    ensures Normalised(r).nextId >= r.nextId
    ensures Normalised(r).entries[k].matchId == r.entries[k].matchId || Normalised(r).entries[k].matchId >= r.nextId
    decreases |r.entries|
  {
    var last := |r.entries| - 1;
    var front := Registry(r.entries[..last], r.nextId);
    if k < last {
      OutIdOldOrFresh(front, k);
    } else {
      NextGrows(front);
    }
    NextGrows(r);
  }

  lemma {:induction false} NextGrows(r: Registry)
    ensures Normalised(r).nextId >= r.nextId
    decreases |r.entries|
  {
    if r.entries != [] {
      NextGrows(Registry(r.entries[..|r.entries| - 1], r.nextId));
    }
  }

  /** save_match_entries writes `max(next, 1)` and every entry; load_match_entries
      takes at most 256 of them, unbound, and normalises. */
  function Saved(r: Registry): Registry {
    r.(nextId := if r.nextId > 0 then r.nextId else 1)
  }

  function Unbound(es: seq<MatchEntry>): (u: seq<MatchEntry>)
    ensures |u| == |es| && forall k :: 0 <= k < |es| ==> u[k] == es[k].(boundId := 0)
  {
    seq(|es|, k requires 0 <= k < |es| => es[k].(boundId := 0))
  }

  function Loaded(file: Registry): Registry {
    var es := if |file.entries| <= MAX_WINDOWS then file.entries else file.entries[..MAX_WINDOWS];
    Normalised(Registry(Unbound(es), file.nextId))
  }

  /** Of any file the first 256 entries are loaded, in order and unbound; only their
      ids may change. */
  lemma {:induction false} LoadKeepsFirst(file: Registry, k: nat)
    requires k < |file.entries| && k < 256
    ensures var l := Loaded(file);
            && |l.entries| == (if |file.entries| <= 256 then |file.entries| else 256)
            && l.entries[k].(matchId := 0) == file.entries[k].(matchId := 0, boundId := 0)
  {
    hide Normalised;
    var es := if |file.entries| <= MAX_WINDOWS then file.entries else file.entries[..MAX_WINDOWS];
    NormalisedKeepsUnseen(Registry(Unbound(es), file.nextId), k);
  }

  /** Saving and loading gives back every entry with its id, only unbound. */
  lemma {:induction false} SaveLoadRoundTrip(r: Registry)
    requires WellFormed(r)
    ensures var l := Loaded(Saved(r));
            && l.nextId == r.nextId && |l.entries| == |r.entries|
            && forall k :: 0 <= k < |r.entries| ==> l.entries[k] == r.entries[k].(boundId := 0)
    ensures WellFormed(Loaded(Saved(r)))
  {
    NormalisedKeepsWellFormed(Registry(Unbound(r.entries), r.nextId));
  }

  // ---- Runs ----

  datatype Event =
    | Create(w: WindowInfo)
    | CreatePattern(p: seq<byte>)
    | Delete(index: int)
    | DeleteId(id: int)
    | CollectGarbage(referenced: seq<int>)
    | SaveAndLoad
    | Rebind(windows: seq<WindowInfo>)

  ghost function Step(r: Registry, e: Event): Registry {
    match e
    case Create(w) => if |r.entries| >= MAX_WINDOWS then r else Append(r, Captured(w, FreshId(r.nextId)))
    case CreatePattern(p) =>
      if p == [] || |r.entries| >= MAX_WINDOWS then r else Append(r, Pattern(p, FreshId(r.nextId)))
    case Delete(i) => if 0 <= i < |r.entries| then r.(entries := RemoveAt(r.entries, i)) else r
    case DeleteId(id) =>
      var i := if id <= 0 then -1 else IndexOf(r.entries, id);
      if i >= 0 then r.(entries := RemoveAt(r.entries, i)) else r
    case CollectGarbage(ids) => r.(entries := Only(r.entries, ids))
    case SaveAndLoad => Loaded(Saved(r))
    case Rebind(ws) => r.(entries := ReboundAll(r.entries, ws))
  }

  lemma {:induction false} StepDeletes(r: Registry, i: nat)
    requires i < |r.entries|
    ensures Step(r, Delete(i)) == r.(entries := RemoveAt(r.entries, i)) && |RemoveAt(r.entries, i)| == |r.entries| - 1
  {
  }

  lemma {:induction false} StepCollects(r: Registry, ids: seq<int>)
    ensures Step(r, CollectGarbage(ids)) == r.(entries := Only(r.entries, ids))
  {
    hide Only;
  }

  /** The ids handed out by a step. */
  function Issued(r: Registry, e: Event): seq<int> {
    match e
    case Create(w) => if |r.entries| >= MAX_WINDOWS then [] else [FreshId(r.nextId)]
    case CreatePattern(p) => if p == [] || |r.entries| >= MAX_WINDOWS then [] else [FreshId(r.nextId)]
    case _ => []
  }

  ghost function RunFrom(r: Registry, es: seq<Event>): Registry
    decreases |es|
  {
    if es == [] then r else RunFrom(Step(r, es[0]), es[1..])
  }

  ghost function IssuedBy(r: Registry, es: seq<Event>): seq<int>
    decreases |es|
  {
    if es == [] then [] else Issued(r, es[0]) + IssuedBy(Step(r, es[0]), es[1..])
  }

  lemma {:induction false} OnlyIsExcept(es: seq<MatchEntry>, ids: seq<int>, gone: set<int>)
    requires forall k :: 0 <= k < |es| ==> (es[k].matchId in gone <==> !Referenced(es[k].matchId, ids))
    ensures Only(es, ids) == Except(es, gone)
  {
    if es != [] {
      OnlyIsExcept(es[..|es| - 1], ids, gone);
    }
  }

  /** Garbage collection keeps exactly the referenced entries; `Only` keeps their
      order by construction, and this says it drops nothing else. */
  lemma {:induction false} OnlyMembers(es: seq<MatchEntry>, ids: seq<int>)
    ensures forall e :: e in Only(es, ids) <==> e in es && e.matchId > 0 && e.matchId in ids
  {
    if es != [] {
      var n := |es| - 1;
      OnlyMembers(es[..n], ids);
      assert es == es[..n] + [es[n]];
    }
  }

  lemma {:induction false} StepWellFormed(r: Registry, e: Event)
    requires WellFormed(r)
    ensures WellFormed(Step(r, e)) && Step(r, e).nextId >= r.nextId + |Issued(r, e)|
    ensures forall k :: 0 <= k < |Issued(r, e)| ==> r.nextId <= Issued(r, e)[k] < Step(r, e).nextId
  {
    hide Only, Except, RemoveAt, Loaded, Saved, Rebound, Escape;
    match e
    case Create(w) =>
    case CreatePattern(p) =>
    case Delete(i) =>
      if 0 <= i < |r.entries| {
        RemoveAtIsExcept(r.entries, i);
        ExceptWellFormed(r, {r.entries[i].matchId});
      }
    case DeleteId(id) =>
      var i := IndexOf(r.entries, id);
      if i >= 0 {
        RemoveAtIsExcept(r.entries, i);
        ExceptWellFormed(r, {r.entries[i].matchId});
      }
    case CollectGarbage(ids) =>
      var gone := set k | 0 <= k < |r.entries| && !Referenced(r.entries[k].matchId, ids) :: r.entries[k].matchId;
      OnlyIsExcept(r.entries, ids, gone);
      ExceptWellFormed(r, gone);
    case SaveAndLoad => SaveLoadRoundTrip(r);
    case Rebind(ws) => assert forall k :: 0 <= k < |r.entries| ==>
        Step(r, e).entries[k].matchId == r.entries[k].matchId;
  }

  lemma {:induction false} RunWellFormed(r: Registry, es: seq<Event>)
    requires WellFormed(r)
    ensures WellFormed(RunFrom(r, es)) && RunFrom(r, es).nextId >= r.nextId
    ensures forall k :: 0 <= k < |IssuedBy(r, es)| ==> r.nextId <= IssuedBy(r, es)[k] < RunFrom(r, es).nextId
    decreases |es|
  {
    if es != [] {
      StepWellFormed(r, es[0]);
      RunWellFormed(Step(r, es[0]), es[1..]);
    }
  }

  predicate StrictlyIncreasing(ids: seq<int>) {
    forall a, b :: 0 <= a < b < |ids| ==> ids[a] < ids[b]
  }

  /** match_entry.c:24-30 and 150-265, match_entry_config.c:44-174.  Over any run
      of the registry's operations, from any loaded file, ids stay positive,
      distinct and below the next one, and no id is ever issued twice. */
  lemma {:induction false} IdsAreNeverReused(r: Registry, es: seq<Event>)
    requires WellFormed(r)
    ensures WellFormed(RunFrom(r, es))
    ensures StrictlyIncreasing(IssuedBy(r, es))
    decreases |es|
  {
    hide Step, WellFormed;
    if es != [] {
      var r1 := Step(r, es[0]);
      StepWellFormed(r, es[0]);
      RunWellFormed(r1, es[1..]);
      IdsAreNeverReused(r1, es[1..]);
      var now, later := Issued(r, es[0]), IssuedBy(r1, es[1..]);
      assert |now| <= 1;
      forall a, b | 0 <= a < b < |now + later| ensures (now + later)[a] < (now + later)[b] {
        if a >= |now| {
          assert later[a - |now|] < later[b - |now|];
        } else {
          assert (now + later)[b] == later[b - |now|];
        }
      }
    }
  }

  // ---- The program ----

  class MatchEntryManager {
    const entries: array<MatchEntry>
    var count: nat
    var nextMatchId: int

    ghost predicate Valid()
      reads this
    {
      entries.Length == MAX_WINDOWS && count <= MAX_WINDOWS
    }

    ghost function Contents(): Registry
      reads this, entries
      requires Valid()
    {
      Registry(entries[..count], nextMatchId)
    }

    /** match_entry_manager_init */
    constructor ()
      ensures Valid() && fresh(entries) && Contents() == Registry([], 1) && WellFormed(Contents())
    {
      entries := new MatchEntry[MAX_WINDOWS](_ => CLEARED);
      count, nextMatchId := 0, 1;
    }

    /** allocate_match_id */
    method AllocateId() returns (id: int)
      requires Valid()
      modifies this`nextMatchId
      ensures id == FreshId(old(nextMatchId)) && nextMatchId == id + 1
    {
      if nextMatchId <= 0 {
        nextMatchId := 1;
      }
      id := nextMatchId;
      nextMatchId := nextMatchId + 1;
    }

    /** matching_create_entry */
    method CreateEntry(w: WindowInfo) returns (id: int)
      requires Valid()
      modifies this, entries
      ensures Valid()
      ensures Contents() == Step(old(Contents()), Create(w))
      ensures id == if old(count) >= 256 then -1 else FreshId(old(nextMatchId))
    {
      if count >= MAX_WINDOWS {
        return -1;
      }
      var index := count;
      count := count + 1;
      id := AllocateId();
      entries[index] := Captured(w, id);
      assert entries[..count] == old(entries[..count]) + [Captured(w, id)];
    }

    /** matching_create_pattern_entry */
    method CreatePatternEntry(p: seq<byte>) returns (id: int)
      requires Valid()
      modifies this, entries
      ensures Valid()
      ensures Contents() == Step(old(Contents()), CreatePattern(p))
      ensures id == if p == [] || old(count) >= 256 then -1 else FreshId(old(nextMatchId))
    {
      if |p| == 0 { return -1; }
      if count >= MAX_WINDOWS { return -1; }
      var index := count;
      count := count + 1;
      id := AllocateId();
      entries[index] := Pattern(p, id);
      assert entries[..count] == old(entries[..count]) + [Pattern(p, id)];
    }

    /** match_entry_delete: shift the tail left and clear the last cell. */
    method DeleteAt(index: int)
      requires Valid()
      modifies this, entries
      ensures Valid() && nextMatchId == old(nextMatchId)
      ensures Contents() == Step(old(Contents()), Delete(index))
      ensures 0 <= index < old(count) ==> entries[count] == CLEARED
    {
      if index < 0 || index >= count {
        return;
      }
      for i := index to count - 1
        invariant Valid() && count == old(count) && nextMatchId == old(nextMatchId)
        invariant forall k :: 0 <= k < index ==> entries[k] == old(entries[k])
        invariant forall k :: index <= k < i ==> entries[k] == old(entries[k + 1])
        invariant forall k :: i <= k < count ==> entries[k] == old(entries[k])
      {
        entries[i] := entries[i + 1];
      }
      entries[count - 1] := CLEARED;
      count := count - 1;
      assert entries[..count] == RemoveAt(old(entries[..count]), index);
    }

    /** match_entry_find_index_by_match_id */
    method FindIndex(id: int) returns (i: int)
      requires Valid()
      ensures i == if id <= 0 then -1 else IndexOf(entries[..count], id)
    {
      if id <= 0 {
        return -1;
      }
      for k := 0 to count
        invariant forall q :: 0 <= q < k ==> entries[q].matchId != id
      {
        if entries[k].matchId == id {
          assert entries[..count][k].matchId == id;
          return k;
        }
      }
      return -1;
    }

    /** match_entry_delete_by_match_id */
    method DeleteById(id: int)
      requires Valid()
      modifies this, entries
      ensures Valid() && nextMatchId == old(nextMatchId)
      ensures Contents() == Step(old(Contents()), DeleteId(id))
    {
      if id <= 0 {
        return;
      }
      for i := 0 to count
        invariant forall q :: 0 <= q < i ==> entries[q].matchId != id
        invariant Contents() == old(Contents())
      {
        if entries[i].matchId == id {
          assert entries[..count][i].matchId == id;
          DeleteAt(i);
          return;
        }
      }
    }

    /** find_live_window_by_id */
    method IsLive(ws: seq<WindowInfo>, id: int) returns (live: bool)
      ensures live <==> Live(ws, id)
    {
      if id == 0 { return false; }
      for j := 0 to |ws|
        invariant forall k :: 0 <= k < j ==> ws[k].id != id
      {
        if ws[j].id == id { return true; }
      }
      return false;
    }

    /** match_entry_reassign_live_windows.  It reports a change exactly when some
        binding changed; an entry whose `isAssigned` flag alone was corrected
        does not count. */
    method Reassign(ws: seq<WindowInfo>) returns (changed: bool)
      requires Valid() && forall j :: 0 <= j < |ws| ==> ws[j].id != 0
      modifies entries
      ensures Contents() == Step(old(Contents()), Rebind(ws))
      ensures changed <==> exists k :: 0 <= k < count && entries[k].boundId != old(entries[k].boundId)
      ensures count == old(count) && forall k :: 0 <= k < count ==> RebindsTo(old(entries[k]), ws, entries[k])
    {
      hide RebindsTo;
      changed := false;
      for i := 0 to count
        invariant forall k :: 0 <= k < i ==> entries[k] == Rebound(old(entries[k]), ws)
        invariant forall k :: 0 <= k < i ==> RebindsTo(old(entries[k]), ws, entries[k])
        invariant forall k :: i <= k < count ==> entries[k] == old(entries[k])
        invariant changed <==> exists k :: 0 <= k < i && entries[k].boundId != old(entries[k].boundId)
      {
        ghost var was := changed;
        var e, moved := RebindEntry(entries[i], ws);
        changed := changed || moved;
        assert old(entries[i]) == entries[i];
        entries[i] := e;
        if moved {
          assert entries[i].boundId != old(entries[i].boundId);
        }
      }
      assert entries[..count] == ReboundAll(old(entries[..count]), ws);
    }

    /** One turn of the rebinding loop. */
    method RebindEntry(entry: MatchEntry, ws: seq<WindowInfo>) returns (e: MatchEntry, changed: bool)
      requires forall j :: 0 <= j < |ws| ==> ws[j].id != 0
      ensures e == Rebound(entry, ws) && (changed <==> e.boundId != entry.boundId)
      ensures RebindsTo(entry, ws, e)
    {
      hide RebindsTo;
      ReboundIs(entry, ws);
      e, changed := entry, false;
      if e.boundId != 0 {
        var live := IsLive(ws, e.boundId);
        if live {
          return e.(isAssigned := true), false;
        }
        changed := true;
      }
      e := e.(isAssigned := false, boundId := 0);
      for j := 0 to |ws|
        invariant e == entry.(isAssigned := false, boundId := 0) && (changed <==> entry.boundId != 0)
        invariant forall k :: 0 <= k < j ==> !Matches(entry, ws[k])
      {
        var matched := MatchesWindow(e, ws[j]);
        if matched {
          assert FirstMatch(entry, ws, 0) == j;
          return e.(boundId := ws[j].id, isAssigned := true), true;
        }
      }
    }

    /** One turn of the collecting loop: step over a referenced entry, or delete
        the entry and stay at the same index. */
    method CollectOne(ghost all: seq<MatchEntry>, ghost kept: seq<MatchEntry>, ghost seen: nat, i: nat,
                      referenced: seq<int>)
      returns (next: nat, removed: nat, ghost kept': seq<MatchEntry>)
      requires Valid() && |kept| == i < count && seen <= |all| && entries[..count] == kept + all[seen..]
      modifies this, entries
      ensures Valid() && nextMatchId == old(nextMatchId) && seen < |all| && count == old(count) - removed
      ensures kept' == kept + if Referenced(all[seen].matchId, referenced) then [all[seen]] else []
      ensures next == |kept'| && entries[..count] == kept' + all[seen + 1..]
    {
      hide Step, RemoveAt, Referenced;
      ghost var now := entries[..count];
      GcSplit(now, kept, all, seen);
      assert entries[i] == now[i] == all[seen];
      if Referenced(entries[i].matchId, referenced) {
        return i + 1, 0, kept + [all[seen]];
      }
      StepDeletes(Contents(), i);
      DeleteAt(i);
      assert entries[..count] == RemoveAt(now, i);
      next, removed, kept' := i, 1, kept;
    }

    /** match_entry_gc */
    method Gc(referenced: seq<int>) returns (removed: nat)
      requires Valid()
      modifies this, entries
      ensures Valid() && nextMatchId == old(nextMatchId)
      ensures Contents() == Step(old(Contents()), CollectGarbage(referenced))
      ensures removed == old(count) - count
    {
      hide Only, Step, Referenced;
      StepCollects(Contents(), referenced);
      removed := 0;
      var i := 0;
      ghost var all, kept: seq<MatchEntry> := entries[..count], [];
      ghost var seen := 0;
      OnlyNone(referenced);
      assert all[..0] == [] && all[0..] == all;
      while i < count
        invariant Valid() && nextMatchId == old(nextMatchId)
        invariant seen <= |all| && |kept| == i && removed == |all| - count
        invariant kept == Only(all[..seen], referenced)
        invariant entries[..count] == kept + all[seen..]
        decreases |all| - seen
      {
        var dropped;
        i, dropped, kept := CollectOne(all, kept, seen, i, referenced);
        OnlyStep(all, referenced, seen);
        removed := removed + dropped;
        seen := seen + 1;
      }
      assert all[seen..] == [] && all[..seen] == all;
    }

    /** normalize_loaded_match_entries */
    method Normalise()
      requires Valid()
      modifies this, entries
      ensures Valid() && count == old(count) && Contents() == Normalised(old(Contents()))
    {
      hide Normalised, HasId;
      ghost var es, next := entries[..count], nextMatchId;
      if nextMatchId <= 0 {
        nextMatchId := 1;
      }
      var seen := new int[MAX_WINDOWS];
      var seenCount := 0;
      assert es[..0] == [];
      NormaliseNothing(next);
      for i := 0 to count
        invariant Valid() && count == |es| && seenCount == i
        invariant Registry(entries[..i], nextMatchId) == Normalised(Registry(es[..i], next))
        invariant forall k :: 0 <= k < i ==> seen[k] == entries[k].matchId
        invariant forall k :: i <= k < count ==> entries[k] == es[k]
      {
        ghost var done := entries[..i];
        var id := entries[i].matchId;
        var duplicate := false;
        for j := 0 to seenCount
          invariant !duplicate && forall k :: 0 <= k < j ==> seen[k] != id
        {
          if seen[j] == id {
            duplicate := true;
            assert done[j].matchId == id;
            break;
          }
        }
        HasIdIff(done, id, duplicate);
        NormaliseStep(Registry(es, next), i);
        if id <= 0 || duplicate {
          id := nextMatchId;
          nextMatchId := nextMatchId + 1;
          entries[i] := entries[i].(matchId := id);
        } else if id >= nextMatchId {
          nextMatchId := id + 1;
        }
        assert entries[..i + 1] == done + [entries[i]];
        seen[seenCount] := id;
        seenCount := seenCount + 1;
      }
      assert es[..count] == es;
    }
  }
}
