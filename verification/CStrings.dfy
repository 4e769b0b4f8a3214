/** Bytes, the ASCII case maps of the C locale, and subsequence embeddings. */
module CStrings {

  type byte = b: int | 0 <= b < 256

  /** A C string's contents: the bytes before its terminating NUL. */
  predicate IsCString(s: seq<byte>) {
    0 !in s
  }

  predicate IsUpper(b: byte) {
    'A' as int <= b <= 'Z' as int
  }

  predicate IsLower(b: byte) {
    'a' as int <= b <= 'z' as int
  }

  predicate IsDigit(b: byte) {
    '0' as int <= b <= '9' as int
  }

  predicate IsAscii(s: seq<byte>) {
    forall k :: 0 <= k < |s| ==> s[k] < 128
  }

  function ToLower(b: byte): byte {
    if IsUpper(b) then b + 32 else b
  }

  function ToUpper(b: byte): byte {
    if IsLower(b) then b - 32 else b
  }

  /** The value of a byte once it is stored in a signed char. */
  function Signed(b: byte): int {
    if b < 128 then b else b - 256
  }

  function Lowered(s: seq<byte>): (r: seq<byte>)
    ensures |r| == |s|
    ensures forall k :: 0 <= k < |s| ==> r[k] == ToLower(s[k])
  {
    seq(|s|, k requires 0 <= k < |s| => ToLower(s[k]))
  }

  // ---- Embeddings ----

  /** How a needle byte (first) is compared with a haystack byte (second). */
  type Compare = (byte, byte) -> bool

  predicate Same(a: byte, b: byte) {
    a == b
  }

  predicate Increasing(e: seq<nat>) {
    forall a, b :: 0 <= a < b < |e| ==> e[a] < e[b]
  }

  /** `e` places the bytes of `needle` at increasing positions of `hay`. */
  predicate Embeds(same: Compare, needle: seq<byte>, hay: seq<byte>, e: seq<nat>) {
    && |e| == |needle|
    && Increasing(e)
    && forall k :: 0 <= k < |e| ==> e[k] < |hay| && same(needle[k], hay[e[k]])
  }

  ghost predicate Embeddable(same: Compare, needle: seq<byte>, hay: seq<byte>) {
    exists e :: Embeds(same, needle, hay, e)
  }

  /** `e` embeds a non-empty prefix of the needle. */
  predicate Places(needle: seq<byte>, hay: seq<byte>, e: seq<nat>) {
    0 < |e| <= |needle| && Embeds(Same, needle[..|e|], hay, e)
  }

  lemma {:induction false} PlacesPrefix(needle: seq<byte>, hay: seq<byte>, e: seq<nat>)
    requires Places(needle, hay, e) && |e| > 1
    ensures Places(needle, hay, e[..|e| - 1])
  {
    var f := e[..|e| - 1];
    forall k | 0 <= k < |f| ensures f[k] < |hay| && Same(needle[..|f|][k], hay[f[k]]) {
      assert Same(needle[..|e|][k], hay[e[k]]);
    }
  }

  lemma {:induction false} PlacesExtend(needle: seq<byte>, hay: seq<byte>, e: seq<nat>, j: nat)
    requires Places(needle, hay, e) && |e| < |needle| && e[|e| - 1] < j < |hay| && needle[|e|] == hay[j]
    ensures Places(needle, hay, e + [j])
  {
    var f := e + [j];
    forall a, b | 0 <= a < b < |f| ensures f[a] < f[b] {
      if b == |e| && a < |e| - 1 {
        assert e[a] < e[|e| - 1];
      }
    }
    forall k | 0 <= k < |f| ensures f[k] < |hay| && Same(needle[..|f|][k], hay[f[k]]) {
      if k < |e| {
        assert Same(needle[..|e|][k], hay[e[k]]);
      }
    }
  }

  /** Left-to-right scan: take the first haystack byte that fits, then go on. */
  predicate Scan(same: Compare, needle: seq<byte>, hay: seq<byte>) {
    if needle == [] then true
    else if hay == [] then false
    else if same(needle[0], hay[0]) then Scan(same, needle[1..], hay[1..])
    else Scan(same, needle, hay[1..])
  }

  function Shifted(e: seq<nat>, shift: nat): (r: seq<nat>)
    ensures |r| == |e| && forall k :: 0 <= k < |e| ==> r[k] == e[k] + shift
  {
    seq(|e|, k requires 0 <= k < |e| => e[k] + shift)
  }

  lemma {:induction false} EmbedHere(same: Compare, needle: seq<byte>, hay: seq<byte>, rest: seq<nat>)
    requires needle != [] && hay != [] && same(needle[0], hay[0])
    requires Embeds(same, needle[1..], hay[1..], rest)
    ensures Embeds(same, needle, hay, [0] + Shifted(rest, 1))
  {
    var e := [0] + Shifted(rest, 1);
    forall k | 0 <= k < |e| ensures e[k] < |hay| && same(needle[k], hay[e[k]]) {
      if k > 0 {
        assert e[k] == rest[k - 1] + 1;
        assert same(needle[1..][k - 1], hay[1..][rest[k - 1]]);
      }
    }
  }

  lemma {:induction false} EmbedLater(same: Compare, needle: seq<byte>, hay: seq<byte>, rest: seq<nat>)
    requires hay != [] && Embeds(same, needle, hay[1..], rest)
    ensures Embeds(same, needle, hay, Shifted(rest, 1))
  {
    var e := Shifted(rest, 1);
    forall k | 0 <= k < |e| ensures e[k] < |hay| && same(needle[k], hay[e[k]]) {
      assert same(needle[k], hay[1..][rest[k]]);
    }
  }

  /** A successful scan yields an embedding. */
  lemma {:induction false} ScanFinds(same: Compare, needle: seq<byte>, hay: seq<byte>) returns (e: seq<nat>)
    requires Scan(same, needle, hay)
    ensures Embeds(same, needle, hay, e)
  {
    if needle == [] {
      e := [];
    } else if same(needle[0], hay[0]) {
      var rest := ScanFinds(same, needle[1..], hay[1..]);
      EmbedHere(same, needle, hay, rest);
      e := [0] + Shifted(rest, 1);
    } else {
      var rest := ScanFinds(same, needle, hay[1..]);
      EmbedLater(same, needle, hay, rest);
      e := Shifted(rest, 1);
    }
  }

  /** The scan misses no embedding. */
  lemma {:induction false} EmbeddingScans(same: Compare, needle: seq<byte>, hay: seq<byte>, e: seq<nat>)
    requires Embeds(same, needle, hay, e)
    ensures Scan(same, needle, hay)
    decreases |hay|
  {
    if needle != [] {
      assert same(needle[0], hay[e[0]]);
      var rest := hay[1..];
      if same(needle[0], hay[0]) {
        var tail := seq(|e| - 1, k requires 0 <= k < |e| - 1 => assert e[0] < e[k + 1]; e[k + 1] - 1);
        forall k | 0 <= k < |tail| ensures tail[k] < |rest| && same(needle[1..][k], rest[tail[k]]) {
          assert same(needle[k + 1], hay[e[k + 1]]);
        }
        EmbeddingScans(same, needle[1..], rest, tail);
      } else {
        assert e[0] > 0;
        assert forall k :: 0 < k < |e| ==> e[0] < e[k];
        var moved := seq(|e|, k requires 0 <= k < |e| => e[k] - 1);
        forall k | 0 <= k < |moved| ensures moved[k] < |rest| && same(needle[k], rest[moved[k]]) {
          assert same(needle[k], hay[e[k]]);
        }
        EmbeddingScans(same, needle, rest, moved);
      }
    }
  }

  lemma {:induction false} ScanIffEmbeddable(same: Compare, needle: seq<byte>, hay: seq<byte>)
    ensures Scan(same, needle, hay) <==> Embeddable(same, needle, hay)
  {
    if Scan(same, needle, hay) {
      var e := ScanFinds(same, needle, hay);
    }
    if e :| Embeds(same, needle, hay, e) {
      EmbeddingScans(same, needle, hay, e);
    }
  }

  lemma {:induction false} IncreasingSpreads(e: seq<nat>, k: nat)
    requires Increasing(e) && k < |e|
    ensures e[k] >= k
  {
    if k > 0 {
      IncreasingSpreads(e, k - 1);
    }
  }

  /** An embedded needle is no longer than its haystack. */
  lemma {:induction false} EmbeddingFits(same: Compare, needle: seq<byte>, hay: seq<byte>, e: seq<nat>)
    requires Embeds(same, needle, hay, e)
    ensures |needle| <= |hay|
  {
    if e != [] {
      IncreasingSpreads(e, |e| - 1);
    }
  }
}
