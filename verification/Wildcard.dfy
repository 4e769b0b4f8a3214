/** Title patterns (src/matching/window_matcher.c). */
module Wildcard {
  import opened CStrings

  const STAR: byte := '*' as int
  const DOT: byte := '.' as int

  /** '*' stands for any bytes, '.' for exactly one, everything else for itself. */
  ghost predicate Glob(p: seq<byte>, s: seq<byte>)
    decreases |p|
  {
    if p == [] then s == []
    else if p[0] == STAR then exists k :: 0 <= k <= |s| && Glob(p[1..], s[k..])
    else s != [] && (p[0] == DOT || p[0] == s[0]) && Glob(p[1..], s[1..])
  }

  /** Consecutive stars are worth one. */
  lemma {:induction false} StarsCollapse(p: seq<byte>, s: seq<byte>)
    requires |p| > 1 && p[0] == STAR && p[1] == STAR
    ensures Glob(p, s) <==> Glob(p[1..], s)
  {
    if Glob(p, s) {
      var k :| 0 <= k <= |s| && Glob(p[1..], s[k..]);
      var q :| 0 <= q <= |s[k..]| && Glob(p[1..][1..], s[k..][q..]);
      assert s[k..][q..] == s[k + q..];
      assert Glob(p[1..][1..], s[k + q..]);
    }
    if Glob(p[1..], s) {
      assert s[0..] == s;
      assert Glob(p[1..], s[0..]);
    }
  }

  lemma {:induction false} OnlyStars(p: seq<byte>)
    ensures Glob(p, []) <==> forall k :: 0 <= k < |p| ==> p[k] == STAR
    decreases |p|
  {
    if p != [] {
      OnlyStars(p[1..]);
      var s: seq<byte> := [];
      assert s[0..] == s;
      assert (forall k :: 0 <= k < |p| ==> p[k] == STAR) <==>
             p[0] == STAR && forall k :: 0 <= k < |p[1..]| ==> p[1..][k] == STAR by {
        if p[0] == STAR && forall k :: 0 <= k < |p[1..]| ==> p[1..][k] == STAR {
          forall k | 0 <= k < |p| ensures p[k] == STAR {
            assert k > 0 ==> p[k] == p[1..][k - 1];
          }
        }
      }
    }
  }

  lemma {:induction false} StarTakesAll(s: seq<byte>)
    ensures Glob([STAR], s)
  {
    assert [STAR][1..] == [];
    assert s[|s|..] == [];
    assert Glob([], s[|s|..]);
  }

  /** wildcard_match: a scan that calls itself behind every star. */
  method WildcardMatch(pattern: seq<byte>, str: seq<byte>) returns (matched: bool)
    ensures matched <==> Glob(pattern, str)
    decreases |pattern|
  {
    var p, s := 0, 0;
    assert pattern[0..] == pattern && str[0..] == str;
    while p < |pattern| && s < |str|
      invariant p <= |pattern| && s <= |str|
      invariant Glob(pattern[p..], str[s..]) <==> Glob(pattern, str)
    {
      assert pattern[p..][1..] == pattern[p + 1..] && str[s..][1..] == str[s + 1..];
      if pattern[p] == STAR {
        matched := BehindStar(pattern, p, str, s);
        return;
      } else if pattern[p] == DOT || pattern[p] == str[s] {
        p, s := p + 1, s + 1;
      } else {
        return false;
      }
    }
    ghost var rest := pattern[p..];
    OnlyStars(rest);
    var q := p;
    while q < |pattern| && pattern[q] == STAR
      invariant p <= q <= |pattern|
      invariant forall k :: p <= k < q ==> pattern[k] == STAR
    {
      q := q + 1;
    }
    assert q == |pattern| <==> forall k :: 0 <= k < |rest| ==> rest[k] == STAR by {
      assert forall k :: 0 <= k < |rest| ==> rest[k] == pattern[p + k];
    }
    return q == |pattern| && s == |str|;
  }

  /** The star branch: skip the stars, then try every suffix that is not empty. */
  method BehindStar(pattern: seq<byte>, p: nat, str: seq<byte>, s: nat) returns (matched: bool)
    requires p < |pattern| && s < |str| && pattern[p] == STAR
    ensures matched <==> Glob(pattern[p..], str[s..])
    decreases |pattern|, 0
  {
    var q := p;
    while q + 1 < |pattern| && pattern[q + 1] == STAR
      invariant p <= q < |pattern| && pattern[q] == STAR
      invariant Glob(pattern[q..], str[s..]) <==> Glob(pattern[p..], str[s..])
    {
      StarsCollapse(pattern[q..], str[s..]);
      assert pattern[q..][1..] == pattern[q + 1..];
      q := q + 1;
    }
    assert pattern[q..][1..] == pattern[q + 1..];
    if q + 1 == |pattern| {
      assert pattern[q..] == [STAR];
      StarTakesAll(str[s..]);
      return true;
    }
    var tail := pattern[q + 1..];
    var t := s;
    while t < |str|
      invariant s <= t <= |str|
      invariant forall k :: s <= k < t ==> !Glob(tail, str[k..])
    {
      matched := WildcardMatch(tail, str[t..]);
      if matched {
        assert str[s..][t - s..] == str[t..];
        return true;
      }
      t := t + 1;
    }
    forall k | 0 <= k <= |str[s..]| ensures !Glob(tail, str[s..][k..]) {
      assert str[s..][k..] == str[s + k..];
      OnlyStars(tail);
    }
    return false;
  }

  /** escape_title_wildcards */
  function Escape(title: seq<byte>): (r: seq<byte>)
    ensures |r| == |title|
  {
    seq(|title|, k requires 0 <= k < |title| => if title[k] == STAR then DOT else title[k])
  }

  /** A captured title always matches the window it was captured from. */
  lemma {:induction false} EscapedMatchesItself(title: seq<byte>)
    ensures Glob(Escape(title), title)
  {
    if title != [] {
      EscapedMatchesItself(title[1..]);
      assert Escape(title)[1..] == Escape(title[1..]);
    }
  }

  /** And no title of another length: it cannot broaden into a wildcard. */
  lemma {:induction false} EscapedKeepsLength(title: seq<byte>, other: seq<byte>)
    ensures Glob(Escape(title), other) <==>
            |other| == |title| && forall k :: 0 <= k < |title| ==>
              title[k] == STAR || title[k] == DOT || title[k] == other[k]
  {
    if title != [] && other != [] {
      EscapedKeepsLength(title[1..], other[1..]);
      assert Escape(title)[1..] == Escape(title[1..]);
      if |other| == |title| && Fits(title[0], other[0])
         && forall k :: 0 <= k < |title| - 1 ==> Fits(title[1..][k], other[1..][k]) {
        forall k | 0 <= k < |title| ensures Fits(title[k], other[k]) {
          assert k > 0 ==> title[k] == title[1..][k - 1] && other[k] == other[1..][k - 1];
        }
      }
      if |other| == |title| && forall k :: 0 <= k < |title| ==> Fits(title[k], other[k]) {
        forall k | 0 <= k < |title| - 1 ensures Fits(title[1..][k], other[1..][k]) {
          assert Fits(title[k + 1], other[k + 1]);
        }
      }
    }
  }

  predicate Fits(t: byte, o: byte) {
    t == STAR || t == DOT || t == o
  }

  // ---- Patterns with one star ----

  predicate Plain(p: seq<byte>) {
    forall k :: 0 <= k < |p| ==> p[k] != '*' as int && p[k] != '.' as int
  }

  lemma {:induction false} PlainMatchesItself(p: seq<byte>, s: seq<byte>)
    requires Plain(p)
    ensures Glob(p, s) <==> p == s
  {
    if p != [] && s != [] {
      PlainMatchesItself(p[1..], s[1..]);
      assert p == [p[0]] + p[1..] && s == [s[0]] + s[1..];
    }
  }

  lemma {:induction false} StarSkips(v: seq<byte>, s: seq<byte>)
    requires Plain(v)
    ensures Glob([STAR] + v, s) <==> |v| <= |s| && s[|s| - |v|..] == v
  {
    assert ([STAR] + v)[1..] == v;
    forall k | 0 <= k <= |s| ensures Glob(v, s[k..]) <==> v == s[k..] {
      PlainMatchesItself(v, s[k..]);
    }
    if |v| <= |s| {
      assert Glob(v, s[|s| - |v|..]) <==> v == s[|s| - |v|..];
    }
  }

  /** window_matcher.c:57-95.  A star between two plain parts: titles that begin with
      the one and end with the other, without overlap. */
  lemma {:induction false} StarSpansMiddle(u: seq<byte>, v: seq<byte>, s: seq<byte>)
    requires Plain(u) && Plain(v)
    ensures Glob(u + ['*' as int] + v, s) <==> |u| + |v| <= |s| && s[..|u|] == u && s[|s| - |v|..] == v
  {
    var p: seq<byte> := u + [STAR] + v;
    if u == [] {
      StarSkips(v, s);
      assert p == [STAR] + v;
    } else if s != [] {
      StarSpansMiddle(u[1..], v, s[1..]);
      assert p[1..] == u[1..] + [STAR] + v;
      if |u| <= |s| {
        assert s[..|u|] == [s[0]] + s[1..][..|u| - 1] && u == [u[0]] + u[1..];
      }
      if |u| + |v| <= |s| {
        assert s[|s| - |v|..] == s[1..][|s| - 1 - |v|..];
      }
    }
  }
}
