/** Sequences without repetitions, and sequences as multisets. */
module Sequences {

  ghost predicate Distinct<E>(s: seq<E>) {
    forall i, j :: 0 <= i < j < |s| ==> s[i] != s[j]
  }

  lemma DistinctMultiset<E>(s: seq<E>)
    ensures Distinct(s) <==> forall x :: multiset(s)[x] <= 1
    decreases |s|
  {
    if s != [] {
      var t, y := s[..|s| - 1], s[|s| - 1];
      DistinctMultiset(t);
      assert s == t + [y];
      assert multiset(s) == multiset(t) + multiset{y};
      if Distinct(s) {
        assert Distinct(t);
        assert y !in t;
        assert y !in multiset(t);
        forall x
          ensures multiset(s)[x] <= 1
        {
          assert multiset(t)[x] <= 1;
        }
      }
      if forall x :: multiset(s)[x] <= 1 {
        forall x
          ensures multiset(t)[x] <= 1
        {
          assert multiset(s)[x] <= 1;
        }
        assert multiset(s)[y] <= 1;
        assert y !in multiset(t);
        assert y !in t;
        assert Distinct(t);
      }
    }
  }

  lemma DistinctPermuted<E>(s: seq<E>, t: seq<E>)
    requires Distinct(s) && multiset(s) == multiset(t)
    ensures Distinct(t)
  {
    DistinctMultiset(s);
    DistinctMultiset(t);
  }

  lemma DistinctParts<E>(a: seq<E>, b: seq<E>)
    requires Distinct(a + b)
    ensures Distinct(a) && Distinct(b) && forall x | x in b :: x !in a
  {
    var s := a + b;
    assert forall k {:trigger a[k]} :: 0 <= k < |a| ==> s[k] == a[k];
    assert forall k {:trigger b[k]} :: 0 <= k < |b| ==> s[|a| + k] == b[k];
  }

  lemma SameElements<E>(s: seq<E>, t: seq<E>)
    requires multiset(s) == multiset(t)
    ensures (forall x | x in s :: x in t) && forall x | x in t :: x in s
  {
    assert forall x | x in s :: x in multiset(s);
    assert forall x | x in t :: x in multiset(t);
  }

  /** Taking out the element at position i. */
  function Without<E>(s: seq<E>, i: nat): seq<E>
    requires i < |s|
  {
    s[..i] + s[i + 1..]
  }

  lemma WithoutElements<E>(s: seq<E>, i: nat)
    requires i < |s|
    ensures multiset(s) == multiset(Without(s, i)) + multiset{s[i]}
  {
    assert s == s[..i] + [s[i]] + s[i + 1..];
  }

  lemma MultisetCancel<E>(a: multiset<E>, b: multiset<E>, x: E)
    requires a + multiset{x} == b + multiset{x}
    ensures a == b
  {
    assert a == (a + multiset{x}) - multiset{x};
    assert b == (b + multiset{x}) - multiset{x};
  }

  lemma DistinctWithout<E>(s: seq<E>, i: nat)
    requires i < |s| && Distinct(s)
    ensures Distinct(Without(s, i))
  {
  }

  ghost function Map<E, F>(f: E -> F, s: seq<E>): (t: seq<F>)
    ensures |t| == |s| && forall k :: 0 <= k < |s| ==> t[k] == f(s[k])
  {
    if s == [] then [] else [f(s[0])] + Map(f, s[1..])
  }

  lemma MapWithout<E, F>(f: E -> F, s: seq<E>, i: nat)
    requires i < |s|
    ensures multiset(Map(f, s)) == multiset(Map(f, Without(s, i))) + multiset{f(s[i])}
  {
    hide Map;
    WithoutElements(Map(f, s), i);
    assert Without(Map(f, s), i) == Map(f, Without(s, i));
  }

  lemma {:induction false} MapPermuted<E, F>(f: E -> F, s: seq<E>, t: seq<E>)
    requires multiset(s) == multiset(t)
    ensures multiset(Map(f, s)) == multiset(Map(f, t))
    decreases |s|
  {
    if s == [] {
      assert |multiset(s)| == |s| && |multiset(t)| == |t|;
    } else {
      assert s[0] in multiset(s);
      var j :| 0 <= j < |t| && t[j] == s[0];
      WithoutElements(s, 0);
      WithoutElements(t, j);
      MultisetCancel(multiset(Without(s, 0)), multiset(Without(t, j)), s[0]);
      MapPermuted(f, Without(s, 0), Without(t, j));
      MapWithout(f, s, 0);
      MapWithout(f, t, j);
    }
  }
}
