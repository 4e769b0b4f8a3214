/** Entry names told as lists of words: what the word tests and the pair table of
    src/emoji/emoji_provider.c see of them. */
module EmojiNames {
  import opened CStrings
  import opened EmojiPairs
  import opened EmojiRank
  import opened EmojiScores
  import opened Words

  type Word = seq<byte>

  predicate Separates(b: byte) {
    || b == ' ' as int || b == '-' as int || b == '_' as int || b == '.' as int
    || b == '(' as int || b == '|' as int || b == '/' as int
  }

  predicate NoneAlnum(w: Word) {
    forall k :: 0 <= k < |w| ==> !IsAlnum(w[k])
  }

  /** A word is seen whole by the word tests, or not at all. */
  predicate IsSpoken(w: Word) {
    && w != [] && (forall k :: 0 <= k < |w| ==> w[k] != 0 && !Separates(w[k]))
    && (AllAlnum(w) || NoneAlnum(w))
  }

  predicate AllSpoken(ws: seq<Word>) {
    forall k :: 0 <= k < |ws| ==> IsSpoken(ws[k])
  }

  /** The words, each after a space but the first. */
  function Spoken(ws: seq<Word>): Word {
    if ws == [] then []
    else if |ws| == 1 then ws[0]
    else Spoken(ws[..|ws| - 1]) + [SPACE] + ws[|ws| - 1]
  }

  lemma {:induction false} SpokenStep(ws: seq<Word>)
    requires AllSpoken(ws) && |ws| > 1
    ensures Spoken(ws) == Spoken(ws[..|ws| - 1]) + [SPACE] + ws[|ws| - 1]
    ensures AllSpoken(ws[..|ws| - 1]) && IsSpoken(ws[|ws| - 1])
  {
    hide IsSpoken;
  }

  lemma {:induction false} SpokenEnds(ws: seq<Word>)
    requires AllSpoken(ws) && ws != []
    ensures Spoken(ws) != [] && !Separates(Spoken(ws)[|Spoken(ws)| - 1]) && IsCString(Spoken(ws))
    ensures |ws[0]| <= |Spoken(ws)| && Spoken(ws)[..|ws[0]|] == ws[0]
    ensures |ws[0]| < |Spoken(ws)| ==> Spoken(ws)[|ws[0]|] == SPACE
    decreases |ws|
  {
    if |ws| > 1 {
      SpokenStep(ws);
      SpokenEnds(ws[..|ws| - 1]);
    }
  }

  /** The first words are where they would be alone. */
  lemma {:induction false} SpokenFront(ws: seq<Word>, n: nat)
    requires AllSpoken(ws) && n <= |ws|
    ensures Spoken(ws[..n]) <= Spoken(ws)
    decreases |ws|
  {
    hide IsSpoken;
    if n < |ws| && |ws| > 1 {
      SpokenStep(ws);
      SpokenFront(ws[..|ws| - 1], n);
      assert ws[..|ws| - 1][..n] == ws[..n];
    } else {
      assert n == |ws| ==> ws[..n] == ws;
    }
  }

  lemma {:induction false} SpokenLength(ws: seq<Word>, n: nat)
    requires AllSpoken(ws) && 0 < n <= |ws| && forall k :: n <= k < |ws| ==> |ws[k]| == 1
    ensures |Spoken(ws)| == |Spoken(ws[..n])| + 2 * (|ws| - n)
    decreases |ws|
  {
    hide IsSpoken;
    if n < |ws| {
      SpokenStep(ws);
      SpokenLength(ws[..|ws| - 1], n);
      assert ws[..|ws| - 1][..n] == ws[..n];
    } else {
      assert ws[..n] == ws;
    }
  }

  lemma {:induction false} TwoSpoken(v: Word, w: Word)
    requires IsSpoken(v) && IsSpoken(w)
    ensures Spoken([v, w]) == v + [SPACE] + w && AllSpoken([v, w])
  {
    hide IsSpoken;
    assert [v, w][..1] == [v];
  }

  // ---- Word starts ----

  lemma {:induction false} StartsOfFront(a: seq<byte>, b: seq<byte>, n: nat)
    requires n <= |a|
    ensures WordStarts(a + b, n) == WordStarts(a, n)
  {
    if n > 0 {
      StartsOfFront(a, b, n - 1);
      assert n > 1 ==> (a + b)[n - 2] == a[n - 2];
    }
  }

  lemma {:induction false} NoStarts(s: seq<byte>, p: nat, n: nat)
    requires p <= n <= |s| && forall k :: p <= k < n ==> !IsWordStart(s, k)
    ensures WordStarts(s, n) == WordStarts(s, p)
    decreases n - p
  {
    if p < n {
      NoStarts(s, p, n - 1);
    }
  }

  lemma {:induction false} StartsStep(s: seq<byte>, n: nat)
    requires n < |s|
    ensures WordStarts(s, n + 1) == WordStarts(s, n) + if IsWordStart(s, n) then [n] else []
  {
  }

  function Offsets(ws: seq<Word>): (f: seq<nat>)
    ensures |f| == |ws|
    decreases |ws|
  {
    if ws == [] then []
    else if |ws| == 1 then [0]
    else Offsets(ws[..|ws| - 1]) + [|Spoken(ws[..|ws| - 1])| + 1]
  }

  /** One more word means one more start. */
  lemma {:induction false} StartsAppend(front: seq<byte>, w: Word)
    requires IsSpoken(w) && front != [] && !Separates(front[|front| - 1])
    ensures var name := front + [SPACE] + w;
            WordStarts(name, |name|) == WordStarts(front, |front|) + [|front| + 1]
  {
    hide WordStarts, AllAlnum, NoneAlnum;
    var name := front + [SPACE] + w;
    assert name == front + ([SPACE] + w);
    StartsOfFront(front, [SPACE] + w, |front|);
    StartsStep(name, |front|);
    StartsStep(name, |front| + 1);
    forall k | |front| + 2 <= k < |name| ensures !IsWordStart(name, k) {
      assert name[k - 1] == w[k - 1 - |front| - 1];
    }
    NoStarts(name, |front| + 2, |name|);
  }

  lemma {:induction false} SpokenStarts(ws: seq<Word>)
    requires AllSpoken(ws) && ws != []
    ensures WordStarts(Spoken(ws), |Spoken(ws)|) == Offsets(ws)
    decreases |ws|
  {
    hide WordStarts;
    var name := Spoken(ws);
    if |ws| == 1 {
      StartsNone(name);
      StartsStep(name, 0);
      NoStarts(name, 1, |name|);
    } else {
      var front, w := Spoken(ws[..|ws| - 1]), ws[|ws| - 1];
      SpokenStep(ws);
      SpokenEnds(ws[..|ws| - 1]);
      SpokenStarts(ws[..|ws| - 1]);
      StartsAppend(front, w);
    }
  }

  lemma {:induction false} StartsNone(s: seq<byte>)
    ensures WordStarts(s, 0) == []
  {
  }

  function FirstBytes(ws: seq<Word>): (s: seq<byte>)
    requires forall k :: 0 <= k < |ws| ==> ws[k] != []
    ensures |s| == |ws| && forall k :: 0 <= k < |ws| ==> s[k] == ToLower(ws[k][0])
  {
    seq(|ws|, k requires 0 <= k < |ws| => ToLower(ws[k][0]))
  }

  lemma {:induction false} OffsetBytes(ws: seq<Word>, k: nat)
    requires AllSpoken(ws) && k < |ws|
    ensures Offsets(ws)[k] < |Spoken(ws)| && Spoken(ws)[Offsets(ws)[k]] == ws[k][0]
    decreases |ws|
  {
    if |ws| > 1 {
      SpokenStep(ws);
      if k < |ws| - 1 {
        OffsetBytes(ws[..|ws| - 1], k);
      }
    }
  }

  /** The pair table aligns the token with the first bytes of the words. */
  lemma {:induction false} SpokenGrid(t: seq<byte>, ws: seq<Word>)
    requires AllSpoken(ws) && 0 < |ws| <= WS_CAP && |t| <= FLEN_CAP && AllAlnum(t)
    ensures Spoken(ws) != [] && EmojiPairs.Prepare(t, Spoken(ws)) == Grid(t, FirstBytes(ws))
  {
    hide WordStarts, Spoken, Offsets;
    SpokenStarts(ws);
    SpokenEnds(ws);
    AlnumIsLower(t);
    var name := Spoken(ws);
    forall k | 0 <= k < |ws| ensures Offsets(ws)[k] < |name| && ToLower(name[Offsets(ws)[k]]) == FirstBytes(ws)[k] {
      OffsetBytes(ws, k);
    }
    assert Letters(name, Offsets(ws)) == FirstBytes(ws);
  }

  /** A name with fewer starts than the token has bytes gives no pairs. */
  lemma {:induction false} TooFewStarts(t: seq<byte>, name: seq<byte>)
    requires |t| >= 2 && name != []
    requires var g := EmojiPairs.Prepare(t, name); |g.starts| < |g.filter|
    ensures PairScore(t, name) == 0
  {
    hide PairScore;
    var g := EmojiPairs.Prepare(t, name);
    PairScoreIsMaximum(t, name);
    if e :| Embeds(Same, g.filter, g.starts, e) {
      EmbeddingFits(Same, g.filter, g.starts, e);
    }
  }

  // ---- Runs ----

  lemma {:induction false} NoRuns(s: seq<byte>, p: nat)
    requires p <= |s| && forall k :: p <= k < |s| ==> !IsAlnum(s[k])
    ensures Runs(IsAlnum, s, p) == []
    decreases |s| - p
  {
    if p < |s| {
      NoRuns(s, p + 1);
    }
  }

  lemma {:induction false} LastRun(s: seq<byte>, p: nat)
    requires p < |s| && forall k :: p <= k < |s| ==> IsAlnum(s[k])
    ensures Runs(IsAlnum, s, p) == [Run(p, |s|)]
  {
    hide Runs;
    RunsStep(IsAlnum, s, p);
    RunEndsAt(IsAlnum, s, p, |s|);
    RunsStep(IsAlnum, s, |s|);
  }

  function WordRuns(w: Word): nat {
    if AllAlnum(w) then 1 else 0
  }

  function CountSeen(ws: seq<Word>): nat {
    if ws == [] then 0 else CountSeen(ws[..|ws| - 1]) + WordRuns(ws[|ws| - 1])
  }

  lemma {:induction false} SeenGrows(ws: seq<Word>, n: nat)
    requires n <= |ws|
    ensures CountSeen(ws[..n]) <= CountSeen(ws)
    ensures (forall k :: n <= k < |ws| ==> AllAlnum(ws[k])) ==> CountSeen(ws) == CountSeen(ws[..n]) + |ws| - n
    decreases |ws|
  {
    hide AllAlnum;
    if n < |ws| {
      SeenGrows(ws[..|ws| - 1], n);
      assert ws[..|ws| - 1][..n] == ws[..n];
    } else {
      assert ws[..n] == ws;
    }
  }

  lemma {:induction false} SameEnd(s: seq<byte>, tail: seq<byte>, p: nat)
    requires p <= |s| && tail != [] && !IsAlnum(tail[0])
    ensures RunEnd(IsAlnum, s + tail, p) == RunEnd(IsAlnum, s, p)
  {
    hide RunEnd;
    RunEndsAt(IsAlnum, s + tail, p, RunEnd(IsAlnum, s, p));
  }

  /** One more word means one more run, if it is seen. */
  lemma {:induction false} RunsAppend(s: seq<byte>, w: Word, p: nat)
    requires p <= |s| && IsSpoken(w)
    ensures |Runs(IsAlnum, s + [SPACE] + w, p)| == |Runs(IsAlnum, s, p)| + WordRuns(w)
    decreases |s| - p
  {
    hide Runs, RunEnd;
    var name := s + [SPACE] + w;
    assert name == s + ([SPACE] + w);
    RunsStep(IsAlnum, name, p);
    RunsStep(IsAlnum, s, p);
    if p == |s| {
      assert name[p] == SPACE;
      TailRuns(s, w);
    } else if IsAlnum(s[p]) {
      SameEnd(s, [SPACE] + w, p);
      assert RunEnd(IsAlnum, s, p) > p by {
        RunMoves(s, p);
      }
      RunsAppend(s, w, RunEnd(IsAlnum, s, p));
    } else {
      RunsAppend(s, w, p + 1);
    }
  }

  lemma {:induction false} RunMoves(s: seq<byte>, p: nat)
    requires p < |s| && IsAlnum(s[p])
    ensures RunEnd(IsAlnum, s, p) > p
  {
  }

  lemma {:induction false} TailRuns(s: seq<byte>, w: Word)
    requires IsSpoken(w)
    ensures |Runs(IsAlnum, s + [SPACE] + w, |s| + 1)| == WordRuns(w)
  {
    var name := s + [SPACE] + w;
    assert forall k :: |s| + 1 <= k < |name| ==> name[k] == w[k - |s| - 1];
    if AllAlnum(w) {
      LastRun(name, |s| + 1);
    } else {
      NoRuns(name, |s| + 1);
    }
  }

  lemma {:induction false} SpokenRuns(ws: seq<Word>)
    requires AllSpoken(ws) && ws != []
    ensures |Runs(IsAlnum, Spoken(ws), 0)| == CountSeen(ws)
    decreases |ws|
  {
    hide Runs, AllAlnum;
    if |ws| == 1 {
      assert CountSeen(ws[..0]) == 0;
      OneWordRuns(ws[0]);
    } else {
      SpokenStep(ws);
      SpokenRuns(ws[..|ws| - 1]);
      RunsAppend(Spoken(ws[..|ws| - 1]), ws[|ws| - 1], 0);
    }
  }

  lemma {:induction false} OneWordRuns(w: Word)
    requires IsSpoken(w)
    ensures |Runs(IsAlnum, w, 0)| == WordRuns(w)
  {
    if AllAlnum(w) {
      LastRun(w, 0);
    } else {
      NoRuns(w, 0);
    }
  }

  /** Every run is one of the words. */
  lemma {:induction false} RunIsWord(ws: seq<Word>, a: nat, b: nat) returns (k: nat)
    requires AllSpoken(ws) && ws != [] && IsRun(IsAlnum, Spoken(ws), a, b)
    ensures k < |ws| && Spoken(ws)[a..b] == ws[k] && (b < |Spoken(ws)| ==> Spoken(ws)[b] == SPACE)
    decreases |ws|
  {
    var name := Spoken(ws);
    if |ws| == 1 {
      k := 0;
      assert IsAlnum(name[a]);
      assert a == 0 && b == |name| by {
        WholeWord(name, a, b);
      }
      assert name[0..|name|] == name;
    } else {
      var front, w := Spoken(ws[..|ws| - 1]), ws[|ws| - 1];
      SpokenStep(ws);
      SpokenEnds(ws[..|ws| - 1]);
      RunSides(front, w, a, b);
      if b <= |front| {
        assert name[a..b] == front[a..b];
        k := RunIsWord(ws[..|ws| - 1], a, b);
        assert ws[..|ws| - 1][k] == ws[k];
      } else {
        k := |ws| - 1;
        assert name[|front| + 1..] == w;
      }
    }
  }

  lemma {:induction false} WholeWord(w: Word, a: nat, b: nat)
    requires IsSpoken(w) && IsRun(IsAlnum, w, a, b)
    ensures a == 0 && b == |w|
  {
    assert IsAlnum(w[a]);
  }

  /** A run lies in front of the space or is the word behind it. */
  lemma {:induction false} RunSides(front: seq<byte>, w: Word, a: nat, b: nat)
    requires IsSpoken(w) && IsRun(IsAlnum, front + [SPACE] + w, a, b)
    ensures if b <= |front| then IsRun(IsAlnum, front, a, b)
            else a == |front| + 1 && b == |front| + 1 + |w|
  {
    var name := front + [SPACE] + w;
    assert name[|front|] == SPACE && !IsAlnum(SPACE);
    assert forall k :: |front| < k < |name| ==> name[k] == w[k - |front| - 1];
    assert forall k :: 0 <= k < |front| ==> name[k] == front[k];
    assert IsAlnum(name[a]) && IsAlnum(name[b - 1]);
    assert !(a <= |front| < b);
  }

  /** A token that begins no word of the name is at best an acronym. */
  lemma {:induction false} SpokenTier(t: seq<byte>, ws: seq<Word>, e: Entry)
    requires t != [] && AllAlnum(t) && AllSpoken(ws) && ws != [] && e.name == Spoken(ws) && e.aliases == []
    requires forall k :: 0 <= k < |ws| ==> !(t <= ws[k])
    ensures TierOf(t, e) == if PairScore(t, e.name) > 0 then 1 else 0
  {
    hide PairScore, Spoken, IsSpoken;
    var name := e.name;
    SpokenEnds(ws);
    NotBefore(t, name, 0, |ws[0]|);
    assert name[0..|ws[0]|] == ws[0] && name[0..] == name;
    forall a: nat, b: nat | IsRun(IsAlnum, name, a, b) ensures name[a..b] != t && !(t <= name[a..]) {
      var k := RunIsWord(ws, a, b);
      NotBefore(t, name, a, b);
    }
  }

  lemma {:induction false} NotBefore(t: seq<byte>, name: seq<byte>, a: nat, b: nat)
    requires AllAlnum(t) && a <= b <= |name| && (b < |name| ==> name[b] == SPACE) && !(t <= name[a..b])
    ensures !(t <= name[a..])
  {
    if |t| <= b - a {
      forall k | 0 <= k < |t| ensures name[a..][k] == name[a..b][k] {
      }
    } else {
      assert IsAlnum(t[b - a]);
      assert b < |name| ==> name[a..][b - a] == SPACE;
    }
  }
}
