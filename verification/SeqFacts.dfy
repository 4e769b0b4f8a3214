/** Facts about sequences and their multisets. */
module SeqFacts {

  function Map<A, B>(f: A -> B, s: seq<A>): (r: seq<B>)
    ensures |r| == |s| && forall k :: 0 <= k < |s| ==> r[k] == f(s[k])
  {
    seq(|s|, k requires 0 <= k < |s| => f(s[k]))
  }

  function Without<T>(s: seq<T>, k: nat): seq<T>
    requires k < |s|
  {
    s[..k] + s[k + 1..]
  }

  lemma {:induction false} WithoutMultiset<T>(s: seq<T>, k: nat)
    requires k < |s|
    ensures multiset(s) == multiset(Without(s, k)) + multiset{s[k]}
  {
    assert s == s[..k] + [s[k]] + s[k + 1..];
  }

  lemma {:induction false} MapWithout<A, B>(f: A -> B, s: seq<A>, k: nat)
    requires k < |s|
    ensures |Without(s, k)| == |s| - 1 && Map(f, Without(s, k)) == Without(Map(f, s), k)
  {
  }

  /** A sequence map carries equal multisets to equal multisets. */
  lemma {:induction false} MapMultiset<A, B>(f: A -> B, a: seq<A>, b: seq<A>)
    requires multiset(a) == multiset(b)
    ensures multiset(Map(f, a)) == multiset(Map(f, b))
    decreases |a|
  {
    hide Map, Without;
    assert |multiset(a)| == |a| && |multiset(b)| == |b|;
    if a == [] {
      assert b == [];
    } else {
      assert a[0] in multiset(b);
      var k :| 0 <= k < |b| && b[k] == a[0];
      WithoutMultiset(a, 0);
      WithoutMultiset(b, k);
      SameRest(multiset(Without(a, 0)), multiset(Without(b, k)), a[0]);
      MapMultiset(f, Without(a, 0), Without(b, k));
      WithoutMultiset(Map(f, a), 0);
      WithoutMultiset(Map(f, b), k);
      MapWithout(f, a, 0);
      MapWithout(f, b, k);
    }
  }

  lemma {:induction false} SameRest<T>(a: multiset<T>, b: multiset<T>, x: T)
    requires a + multiset{x} == b + multiset{x}
    ensures a == b
  {
    assert a == (a + multiset{x}) - multiset{x};
    assert b == (b + multiset{x}) - multiset{x};
  }

  lemma {:induction false} SameMembers<T>(a: seq<T>, b: seq<T>)
    requires multiset(a) == multiset(b)
    ensures |a| == |b| && forall x :: x in a <==> x in b
  {
    assert |multiset(a)| == |a| && |multiset(b)| == |b|;
    forall x ensures x in a <==> x in b {
      assert x in multiset(a) <==> x in multiset(b);
    }
  }

  lemma {:induction false} TailMultiset<T>(a: seq<T>, b: seq<T>)
    requires a != [] && b != [] && a[0] == b[0] && multiset(a) == multiset(b)
    ensures multiset(a[1..]) == multiset(b[1..])
  {
    WithoutMultiset(a, 0);
    WithoutMultiset(b, 0);
    assert Without(a, 0) == a[1..] && Without(b, 0) == b[1..];
    SameRest(multiset(a[1..]), multiset(b[1..]), a[0]);
  }

  predicate Distinct<T(==)>(s: seq<T>) {
    forall a, b :: 0 <= a < b < |s| ==> s[a] != s[b]
  }

  lemma {:induction false} TailDistinct<T>(s: seq<T>)
    requires s != [] && Distinct(s[1..])
    ensures forall a, b :: 1 <= a < b < |s| ==> s[a] != s[b]
  {
    forall a, b | 1 <= a < b < |s| ensures s[a] != s[b] {
      assert s[1..][a - 1] == s[a] && s[1..][b - 1] == s[b];
    }
  }

  lemma {:induction false} DistinctOnce<T>(s: seq<T>)
    ensures Distinct(s) <==> forall x :: multiset(s)[x] <= 1
  {
    if s != [] {
      WithoutMultiset(s, 0);
      assert Without(s, 0) == s[1..];
      DistinctOnce(s[1..]);
      if Distinct(s) {
        assert s[0] !in s[1..];
        assert multiset(s[1..])[s[0]] == 0;
      } else {
        if !Distinct(s[1..]) {
          var x :| multiset(s[1..])[x] > 1;
          assert multiset(s)[x] > 1;
        } else {
          var a, b :| 0 <= a < b < |s| && s[a] == s[b];
          TailDistinct(s);
          assert a == 0;
          assert s[1..][b - 1] == s[0];
          assert s[0] in multiset(s[1..]);
          assert multiset(s)[s[0]] > 1;
        }
      }
    }
  }

  lemma {:induction false} DistinctPermutation<T>(a: seq<T>, b: seq<T>)
    requires Distinct(a) && multiset(a) == multiset(b)
    ensures Distinct(b)
  {
    DistinctOnce(a);
    DistinctOnce(b);
  }

  /** The three assignments of an exchange, inside the first `count` elements. */
  method Exchange<T>(a: array<T>, ghost count: nat, i: nat, j: nat)
    requires i < j < count <= a.Length
    modifies a
    ensures a[i] == old(a[j]) && a[j] == old(a[i])
    ensures forall k :: 0 <= k < a.Length && k != i && k != j ==> a[k] == old(a[k])
    ensures multiset(a[..count]) == multiset(old(a[..count]))
  {
    var tmp := a[i];
    a[i] := a[j];
    a[j] := tmp;
  }
}
