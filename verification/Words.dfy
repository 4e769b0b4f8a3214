/** Maximal runs of word bytes in a string: how the rankers split their fields
    and queries. */
module Words {
  import opened CStrings

  type CharSet = byte -> bool

  predicate IsAlnum(b: byte) {
    IsLower(b) || IsDigit(b)
  }

  predicate NotSpace(b: byte) {
    b != ' ' as int
  }

  /** Where the run through `p` ends; `p` itself if it is in none. */
  function RunEnd(inWord: CharSet, s: seq<byte>, p: nat): (e: nat)
    requires p <= |s|
    ensures p <= e <= |s| && (e == |s| || !inWord(s[e]))
    ensures forall k :: p <= k < e ==> inWord(s[k])
    decreases |s| - p
  {
    if p == |s| || !inWord(s[p]) then p else RunEnd(inWord, s, p + 1)
  }

  /** `s[a..b]` is a maximal non-empty stretch of word bytes. */
  predicate IsRun(inWord: CharSet, s: seq<byte>, a: nat, b: nat) {
    && a < b <= |s|
    && (a == 0 || !inWord(s[a - 1])) && (b == |s| || !inWord(s[b]))
    && forall k :: a <= k < b ==> inWord(s[k])
  }

  /** Position `p` is not inside a run. */
  predicate AtEdge(inWord: CharSet, s: seq<byte>, p: nat) {
    p <= |s| && (p == 0 || p == |s| || !inWord(s[p - 1]) || !inWord(s[p]))
  }

  datatype Run = Run(start: nat, end: nat)

  /** The runs that start at `p` or later, left to right. */
  function Runs(inWord: CharSet, s: seq<byte>, p: nat): (rs: seq<Run>)
    requires p <= |s|
    ensures forall k :: 0 <= k < |rs| ==> p <= rs[k].start < rs[k].end <= |s|
    decreases |s| - p
  {
    if p == |s| then []
    else if !inWord(s[p]) then Runs(inWord, s, p + 1)
    else
      var e := RunEnd(inWord, s, p);
      [Run(p, e)] + Runs(inWord, s, e)
  }

  lemma {:induction false} RunsStep(inWord: CharSet, s: seq<byte>, p: nat)
    requires p <= |s|
    ensures Runs(inWord, s, p) ==
            if p == |s| then []
            else if !inWord(s[p]) then Runs(inWord, s, p + 1)
            else [Run(p, RunEnd(inWord, s, p))] + Runs(inWord, s, RunEnd(inWord, s, p))
  {
    hide RunEnd;
  }

  lemma {:induction false} RunEndsAt(inWord: CharSet, s: seq<byte>, p: nat, b: nat)
    requires p <= b <= |s| && (b == |s| || !inWord(s[b])) && forall k :: p <= k < b ==> inWord(s[k])
    ensures RunEnd(inWord, s, p) == b
    decreases b - p
  {
    if p < b {
      RunEndsAt(inWord, s, p + 1, b);
    }
  }

  lemma {:induction false} RunEndBefore(inWord: CharSet, s: seq<byte>, p: nat, q: nat)
    requires p <= q < |s| && !inWord(s[q])
    ensures RunEnd(inWord, s, p) <= q
    decreases q - p
  {
    if p < q && inWord(s[p]) {
      RunEndBefore(inWord, s, p + 1, q);
    }
  }

  /** `Runs` lists exactly the maximal stretches. */
  lemma {:induction false} RunsAreMaximal(inWord: CharSet, s: seq<byte>, p: nat, a: nat, b: nat)
    requires AtEdge(inWord, s, p)
    ensures Run(a, b) in Runs(inWord, s, p) <==> p <= a && IsRun(inWord, s, a, b)
    decreases |s| - p
  {
    if p < |s| {
      if !inWord(s[p]) {
        RunsAreMaximal(inWord, s, p + 1, a, b);
      } else {
        var e := RunEnd(inWord, s, p);
        RunsAreMaximal(inWord, s, e, a, b);
        if a == p && IsRun(inWord, s, a, b) {
          RunEndsAt(inWord, s, p, b);
        }
        if p < a && IsRun(inWord, s, a, b) {
          RunEndBefore(inWord, s, p, a - 1);
        }
      }
    }
  }

  /** Skip to the next run and past it. */
  method NextRun(inWord: CharSet, s: seq<byte>, p: nat) returns (a: nat, b: nat)
    requires p <= |s|
    ensures p <= a <= b <= |s| && (p < |s| ==> p < b)
    ensures a == |s| ==> Runs(inWord, s, p) == []
    ensures a < |s| ==> a < b && Runs(inWord, s, p) == [Run(a, b)] + Runs(inWord, s, b)
  {
    a := p;
    while a < |s| && !inWord(s[a])
      invariant p <= a <= |s| && Runs(inWord, s, a) == Runs(inWord, s, p)
    {
      a := a + 1;
    }
    b := a;
    while b < |s| && inWord(s[b])
      invariant a <= b <= |s| && RunEnd(inWord, s, b) == RunEnd(inWord, s, a)
      invariant a < b || a == |s| || inWord(s[a])
    {
      b := b + 1;
    }
  }

  /** Some run of `s` equals `word`. */
  ghost predicate HasWord(inWord: CharSet, s: seq<byte>, word: seq<byte>) {
    exists a: nat, b: nat :: IsRun(inWord, s, a, b) && s[a..b] == word
  }

  /** `prefix` occurs in `s` where some run starts. */
  ghost predicate HasWordPrefix(inWord: CharSet, s: seq<byte>, prefix: seq<byte>) {
    exists a: nat, b: nat :: IsRun(inWord, s, a, b) && prefix <= s[a..]
  }

  /** string_has_token and name_has_word: some run equals the query. */
  method FindWord(inWord: CharSet, s: seq<byte>, word: seq<byte>) returns (found: bool)
    ensures found <==> HasWord(inWord, s, word)
  {
    if |word| == 0 {
      return false;
    }
    var p := 0;
    while p < |s|
      invariant AtEdge(inWord, s, p)
      invariant forall a: nat, b: nat :: a < p && IsRun(inWord, s, a, b) ==> s[a..b] != word
      decreases |s| - p
    {
      var a, b := NextRun(inWord, s, p);
      NextRunIs(inWord, s, p, a, b);
      if a == |s| {
        return false;
      }
      if b - a == |word| && s[a..b] == word {
        return true;
      }
      p := b;
    }
    return false;
  }

  /** What `NextRun` found is the first run from `p` on. */
  lemma {:induction false} NextRunIs(inWord: CharSet, s: seq<byte>, p: nat, a: nat, b: nat)
    requires AtEdge(inWord, s, p) && p <= a <= b <= |s|
    requires a == |s| ==> Runs(inWord, s, p) == []
    requires a < |s| ==> a < b && Runs(inWord, s, p) == [Run(a, b)] + Runs(inWord, s, b)
    ensures a < |s| ==> IsRun(inWord, s, a, b) && AtEdge(inWord, s, b)
    ensures forall c: nat, d: nat :: p <= c && IsRun(inWord, s, c, d) ==> a < |s| && ((c == a && d == b) || b <= c)
  {
    if a < |s| {
      assert Run(a, b) in Runs(inWord, s, p);
      RunsAreMaximal(inWord, s, p, a, b);
    }
    forall c: nat, d: nat | p <= c && IsRun(inWord, s, c, d) ensures a < |s| && ((c == a && d == b) || b <= c) {
      RunsAreMaximal(inWord, s, p, c, d);
    }
  }

  /** name_has_word_prefix */
  method FindWordPrefix(inWord: CharSet, s: seq<byte>, prefix: seq<byte>) returns (found: bool)
    requires prefix != []
    ensures found <==> HasWordPrefix(inWord, s, prefix)
  {
    var p := 0;
    while p < |s|
      invariant AtEdge(inWord, s, p)
      invariant forall a: nat, b: nat :: a < p && IsRun(inWord, s, a, b) ==> !(prefix <= s[a..])
      decreases |s| - p
    {
      var a, b := NextRun(inWord, s, p);
      NextRunIs(inWord, s, p, a, b);
      if a == |s| {
        return false;
      }
      if prefix <= s[a..] {
        return true;
      }
      p := b;
    }
    return false;
  }

  /** count_words */
  method CountWords(s: seq<byte>) returns (words: nat)
    ensures words == |Runs(IsAlnum, s, 0)|
  {
    words := 0;
    var inside := false;
    for i := 0 to |s|
      invariant words + |Runs(IsAlnum, s, if inside then RunEnd(IsAlnum, s, i) else i)| == |Runs(IsAlnum, s, 0)|
    {
      if IsAlnum(s[i]) {
        if !inside {
          words := words + 1;
          inside := true;
        }
      } else {
        inside := false;
      }
    }
  }
}
