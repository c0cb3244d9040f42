/** The bottom-up merge sort that the list and hash macros share, as functions on sequences:
    include/utlist.h, lines 101-304, and include/uthash.h, lines 715-804. The macros relink
    nodes; the methods in UtList and UtHash are proved to produce these sequences. */
module MergeSort {
  import opened Sequences

  ghost predicate TotalPreorder<E>(cmp: (E, E) -> int, s: seq<E>) {
    && (forall x, y | x in s && y in s :: cmp(x, y) <= 0 || cmp(y, x) <= 0)
    && forall x, y, z | x in s && y in s && z in s :: cmp(x, y) <= 0 && cmp(y, z) <= 0 ==> cmp(x, z) <= 0
  }

  ghost predicate Sorted<E>(cmp: (E, E) -> int, s: seq<E>) {
    forall i, j :: 0 <= i < j < |s| ==> cmp(s[i], s[j]) <= 0
  }

  /** The elements of s that compare equal to x, in the order of s. */
  ghost function Ties<E>(cmp: (E, E) -> int, x: E, s: seq<E>): seq<E> {
    if s == [] then []
    else (if cmp(x, s[0]) <= 0 && cmp(s[0], x) <= 0 then [s[0]] else []) + Ties(cmp, x, s[1..])
  }

  /** t is a sorted rearrangement of s that keeps tied elements in their order. */
  ghost predicate StableSorting<E>(cmp: (E, E) -> int, s: seq<E>, t: seq<E>) {
    && Sorted(cmp, t)
    && multiset(t) == multiset(s)
    && forall x | x in s :: Ties(cmp, x, t) == Ties(cmp, x, s)
  }

  // ------------------------------------------------------------------ the algorithm

  /** Merging two runs; on ties the first run goes first. */
  ghost function Merge<E>(cmp: (E, E) -> int, a: seq<E>, b: seq<E>): (m: seq<E>)
    ensures |m| == |a| + |b|
  {
    if a == [] then b
    else if b == [] then a
    else if cmp(a[0], b[0]) <= 0 then [a[0]] + Merge(cmp, a[1..], b)
    else [b[0]] + Merge(cmp, a, b[1..])
  }

  /** How many comparisons merging makes. */
  ghost function MergeCost<E>(cmp: (E, E) -> int, a: seq<E>, b: seq<E>): (c: nat)
    ensures c <= |a| + |b|
  {
    if a == [] || b == [] then 0
    else if cmp(a[0], b[0]) <= 0 then 1 + MergeCost(cmp, a[1..], b)
    else 1 + MergeCost(cmp, a, b[1..])
  }

  function Cut(n: nat, w: nat): (k: nat)
    ensures k <= n && k <= w && (k == n || k == w)
  {
    if n < w then n else w
  }

  /** The first run of width w, the run after it, and what follows the two. */
  ghost function First<E>(s: seq<E>, w: nat): seq<E> { s[..Cut(|s|, w)] }
  ghost function Second<E>(s: seq<E>, w: nat): seq<E> { First(s[Cut(|s|, w)..], w) }
  ghost function Beyond<E>(s: seq<E>, w: nat): (r: seq<E>)
    ensures s != [] && w > 0 ==> |r| < |s|
    ensures |r| == if |s| <= 2 * w then 0 else |s| - 2 * w
  {
    s[Cut(|s|, w)..][Cut(|s| - Cut(|s|, w), w)..]
  }

  /** One pass: neighbouring runs of width w are merged. */
  ghost function Pass<E>(cmp: (E, E) -> int, s: seq<E>, w: nat): (t: seq<E>)
    requires w > 0
    ensures |t| == |s|
    decreases |s|
  {
    if s == [] then [] else Merge(cmp, First(s, w), Second(s, w)) + Pass(cmp, Beyond(s, w), w)
  }

  ghost function PassCost<E>(cmp: (E, E) -> int, s: seq<E>, w: nat): (c: nat)
    requires w > 0
    ensures c <= |s|
    decreases |s|
  {
    if s == [] then 0
    else MergeCost(cmp, First(s, w), Second(s, w)) + PassCost(cmp, Beyond(s, w), w)
  }

  /** How many merges a pass makes. */
  ghost function Merges(n: nat, w: nat): nat
    requires w > 0
    decreases n
  {
    if n == 0 then 0 else 1 + Merges(if n <= 2 * w then 0 else n - 2 * w, w)
  }

  /** Passes with widths w, 2w, 4w, ... until one of them needs at most one merge. */
  ghost function Sort<E>(cmp: (E, E) -> int, s: seq<E>, w: nat): (t: seq<E>)
    requires w > 0
    ensures |t| == |s|
    decreases |s| - w
  {
    if |s| <= 2 * w then Pass(cmp, s, w) else Sort(cmp, Pass(cmp, s, w), 2 * w)
  }

  ghost function SortCost<E>(cmp: (E, E) -> int, s: seq<E>, w: nat): (c: nat)
    requires w > 0
    decreases |s| - w
  {
    PassCost(cmp, s, w) + if |s| <= 2 * w then 0 else SortCost(cmp, Pass(cmp, s, w), 2 * w)
  }

  ghost function Passes(n: nat, w: nat): nat
    requires w > 0
    decreases n - w
  {
    if n <= 2 * w then 1 else 1 + Passes(n, 2 * w)
  }

  /** One round of merging: which element goes first, and what it costs. */
  lemma MergeStep<E>(cmp: (E, E) -> int, a: seq<E>, b: seq<E>)
    ensures (a == [] ==> Merge(cmp, a, b) == b) && (b == [] ==> Merge(cmp, a, b) == a)
    ensures a == [] && b != [] ==> Merge(cmp, a, b) == [b[0]] + Merge(cmp, a, b[1..])
    ensures a != [] && b == [] ==> Merge(cmp, a, b) == [a[0]] + Merge(cmp, a[1..], b)
    ensures a == [] || b == [] ==>
      MergeCost(cmp, a, b) == 0 && (a != [] ==> MergeCost(cmp, a[1..], b) == 0)
      && (b != [] ==> MergeCost(cmp, a, b[1..]) == 0)
    ensures a != [] && b != [] && cmp(a[0], b[0]) <= 0 ==>
      && Merge(cmp, a, b) == [a[0]] + Merge(cmp, a[1..], b)
      && MergeCost(cmp, a, b) == 1 + MergeCost(cmp, a[1..], b)
    ensures a != [] && b != [] && cmp(a[0], b[0]) > 0 ==>
      && Merge(cmp, a, b) == [b[0]] + Merge(cmp, a, b[1..])
      && MergeCost(cmp, a, b) == 1 + MergeCost(cmp, a, b[1..])
  {
  }

  lemma PassStep<E>(cmp: (E, E) -> int, s: seq<E>, w: nat)
    requires w > 0
    ensures s == [] ==> Pass(cmp, s, w) == [] && PassCost(cmp, s, w) == 0 && Merges(|s|, w) == 0
    ensures s != [] ==>
      && Pass(cmp, s, w) == Merge(cmp, First(s, w), Second(s, w)) + Pass(cmp, Beyond(s, w), w)
      && PassCost(cmp, s, w) == MergeCost(cmp, First(s, w), Second(s, w)) + PassCost(cmp, Beyond(s, w), w)
      && Merges(|s|, w) == 1 + Merges(|Beyond(s, w)|, w)
      && |Beyond(s, w)| < |s|
  {
  }

  lemma MergesAtMostOne(n: nat, w: nat)
    requires w > 0
    ensures Merges(n, w) <= 1 <==> n <= 2 * w
  {
  }

  // ------------------------------------------------------------------ merging

  lemma {:induction false} MergeElements<E>(cmp: (E, E) -> int, a: seq<E>, b: seq<E>)
    ensures multiset(Merge(cmp, a, b)) == multiset(a) + multiset(b)
  {
    hide *;
    MergeStep(cmp, a, b);
    if a != [] && b != [] {
      if cmp(a[0], b[0]) <= 0 {
        MergeElements(cmp, a[1..], b);
        MultisetUncons(a);
        MultisetCons(a[0], Merge(cmp, a[1..], b));
      } else {
        MergeElements(cmp, a, b[1..]);
        MultisetUncons(b);
        MultisetCons(b[0], Merge(cmp, a, b[1..]));
      }
    }
  }

  lemma MultisetUncons<E>(s: seq<E>)
    requires s != []
    ensures multiset(s) == multiset{s[0]} + multiset(s[1..])
  {
    assert s == [s[0]] + s[1..];
  }

  lemma MultisetCons<E>(x: E, s: seq<E>)
    ensures multiset([x] + s) == multiset{x} + multiset(s)
  {
  }

  /** Putting a least element in front of a sorted sequence. */
  lemma SortedCons<E>(cmp: (E, E) -> int, x: E, s: seq<E>)
    requires Sorted(cmp, s) && forall y | y in s :: cmp(x, y) <= 0
    ensures Sorted(cmp, [x] + s)
  {
    var t := [x] + s;
    forall i, j | 0 <= i < j < |t|
      ensures cmp(t[i], t[j]) <= 0
    {
      assert t[j] == s[j - 1];
      if i > 0 {
        assert t[i] == s[i - 1];
      }
    }
  }

  lemma HeadIsLeast<E>(cmp: (E, E) -> int, x: E, s: seq<E>, dom: seq<E>)
    requires TotalPreorder(cmp, dom) && x in dom && s != [] && Sorted(cmp, s)
    requires forall y | y in s :: y in dom
    requires cmp(x, s[0]) <= 0
    ensures forall y | y in s :: cmp(x, y) <= 0
  {
    forall y | y in s
      ensures cmp(x, y) <= 0
    {
      var i :| 0 <= i < |s| && s[i] == y;
      assert s[0] in dom && s[i] in dom;
    }
  }

  lemma {:induction false} MergeSorted<E>(cmp: (E, E) -> int, a: seq<E>, b: seq<E>, dom: seq<E>)
    requires TotalPreorder(cmp, dom) && Sorted(cmp, a) && Sorted(cmp, b)
    requires (forall x | x in a :: x in dom) && forall x | x in b :: x in dom
    ensures Sorted(cmp, Merge(cmp, a, b))
  {
    if a != [] && b != [] {
      assert a[0] in dom && b[0] in dom;
      if cmp(a[0], b[0]) <= 0 {
        MergeSorted(cmp, a[1..], b, dom);
        MergeElements(cmp, a[1..], b);
        HeadIsLeast(cmp, a[0], b, dom);
        InMerge(cmp, a[1..], b);
        SortedCons(cmp, a[0], Merge(cmp, a[1..], b));
      } else {
        MergeSorted(cmp, a, b[1..], dom);
        HeadIsLeast(cmp, b[0], a, dom);
        InMerge(cmp, a, b[1..]);
        SortedCons(cmp, b[0], Merge(cmp, a, b[1..]));
      }
    }
  }

  lemma InMerge<E>(cmp: (E, E) -> int, a: seq<E>, b: seq<E>)
    ensures forall x | x in Merge(cmp, a, b) :: x in a || x in b
  {
    MergeElements(cmp, a, b);
    forall x | x in Merge(cmp, a, b)
      ensures x in a || x in b
    {
      assert x in multiset(Merge(cmp, a, b));
    }
  }

  lemma {:induction false} TiesConcat<E>(cmp: (E, E) -> int, x: E, a: seq<E>, b: seq<E>)
    ensures Ties(cmp, x, a + b) == Ties(cmp, x, a) + Ties(cmp, x, b)
  {
    if a == [] {
      assert a + b == b;
    } else {
      assert (a + b)[1..] == a[1..] + b;
      TiesConcat(cmp, x, a[1..], b);
    }
  }

  lemma {:induction false} NoTies<E>(cmp: (E, E) -> int, x: E, s: seq<E>)
    requires forall y | y in s :: !(cmp(x, y) <= 0 && cmp(y, x) <= 0)
    ensures Ties(cmp, x, s) == []
  {
    if s != [] {
      assert s[0] in s;
      NoTies(cmp, x, s[1..]);
    }
  }

  lemma TiesCons<E>(cmp: (E, E) -> int, x: E, y: E, s: seq<E>)
    ensures Ties(cmp, x, [y] + s) == (if cmp(x, y) <= 0 && cmp(y, x) <= 0 then [y] else []) + Ties(cmp, x, s)
  {
    assert ([y] + s)[1..] == s;
  }

  lemma TiesUncons<E>(cmp: (E, E) -> int, x: E, s: seq<E>)
    requires s != []
    ensures Ties(cmp, x, s) == (if cmp(x, s[0]) <= 0 && cmp(s[0], x) <= 0 then [s[0]] else []) + Ties(cmp, x, s[1..])
  {
  }

  lemma SortedTail<E>(cmp: (E, E) -> int, s: seq<E>, dom: seq<E>)
    requires s != [] && Sorted(cmp, s) && forall y | y in s :: y in dom
    ensures s[0] in dom && Sorted(cmp, s[1..]) && forall y | y in s[1..] :: y in dom
  {
  }

  /** Merging keeps ties in order: those of the first run before those of the second. */
  lemma {:induction false} MergeStable<E>(cmp: (E, E) -> int, x: E, a: seq<E>, b: seq<E>, dom: seq<E>)
    requires TotalPreorder(cmp, dom) && x in dom && Sorted(cmp, a)
    requires (forall y | y in a :: y in dom) && forall y | y in b :: y in dom
    ensures Ties(cmp, x, Merge(cmp, a, b)) == Ties(cmp, x, a) + Ties(cmp, x, b)
    decreases |a| + |b|
  {
    hide *;
    MergeStep(cmp, a, b);
    if a == [] || b == [] {
      NoTies(cmp, x, []);
    } else if cmp(a[0], b[0]) <= 0 {
      SortedTail(cmp, a, dom);
      MergeStable(cmp, x, a[1..], b, dom);
      TiesUncons(cmp, x, a);
      TiesCons(cmp, x, a[0], Merge(cmp, a[1..], b));
    } else {
      assert b[0] in dom && forall y | y in b[1..] :: y in dom;
      MergeStable(cmp, x, a, b[1..], dom);
      TiesUncons(cmp, x, b);
      TiesCons(cmp, x, b[0], Merge(cmp, a, b[1..]));
      if cmp(x, b[0]) <= 0 && cmp(b[0], x) <= 0 {
        StrictlyAbove(cmp, x, b[0], a, dom);
        NoTies(cmp, x, a);
      }
    }
  }

  lemma StrictlyAbove<E>(cmp: (E, E) -> int, x: E, b: E, a: seq<E>, dom: seq<E>)
    requires TotalPreorder(cmp, dom) && x in dom && b in dom && a != [] && Sorted(cmp, a)
    requires forall z | z in a :: z in dom
    requires cmp(x, b) <= 0 && cmp(a[0], b) > 0
    ensures forall y | y in a :: cmp(y, x) > 0
  {
    forall y | y in a
      ensures cmp(y, x) > 0
    {
      var i :| 0 <= i < |a| && a[i] == y;
      assert a[0] in dom && y in dom;
      assert i == 0 || cmp(a[0], y) <= 0;
      Transitive(cmp, a[0], y, x, b, dom);
      Transitive(cmp, a[0], a[0], x, b, dom);
    }
  }

  lemma Transitive<E>(cmp: (E, E) -> int, p: E, q: E, r: E, t: E, dom: seq<E>)
    requires TotalPreorder(cmp, dom) && p in dom && q in dom && r in dom && t in dom
    ensures cmp(p, q) <= 0 && cmp(q, r) <= 0 && cmp(r, t) <= 0 ==> cmp(p, t) <= 0
    ensures cmp(p, p) <= 0
  {
  }

  // ------------------------------------------------------------------ passes

  lemma SplitRuns<E>(s: seq<E>, w: nat)
    ensures s == First(s, w) + Second(s, w) + Beyond(s, w)
    ensures First(s, w) + (Second(s, w) + Beyond(s, w)) == s
  {
    var rest := s[Cut(|s|, w)..];
    assert rest == Second(s, w) + Beyond(s, w);
  }

  lemma {:induction false} PassElements<E>(cmp: (E, E) -> int, s: seq<E>, w: nat)
    requires w > 0
    ensures multiset(Pass(cmp, s, w)) == multiset(s)
    decreases |s|
  {
    if s != [] {
      SplitRuns(s, w);
      MergeElements(cmp, First(s, w), Second(s, w));
      PassElements(cmp, Beyond(s, w), w);
      calc {
        multiset(Pass(cmp, s, w));
        multiset(Merge(cmp, First(s, w), Second(s, w))) + multiset(Pass(cmp, Beyond(s, w), w));
        multiset(First(s, w)) + multiset(Second(s, w)) + multiset(Beyond(s, w));
        multiset(First(s, w) + Second(s, w) + Beyond(s, w));
        multiset(s);
      }
    }
  }

  lemma {:induction false} SortElements<E>(cmp: (E, E) -> int, s: seq<E>, w: nat)
    requires w > 0
    ensures multiset(Sort(cmp, s, w)) == multiset(s)
    decreases |s| - w
  {
    PassElements(cmp, s, w);
    if |s| > 2 * w {
      SortElements(cmp, Pass(cmp, s, w), 2 * w);
    }
  }

  /** s consists of sorted runs of width w, the last one perhaps shorter. */
  ghost predicate Runs<E>(cmp: (E, E) -> int, s: seq<E>, w: nat)
    requires w > 0
    decreases |s|
  {
    s == [] || (Sorted(cmp, First(s, w)) && Runs(cmp, s[Cut(|s|, w)..], w))
  }

  lemma RunsSplit<E>(cmp: (E, E) -> int, s: seq<E>, w: nat)
    requires w > 0 && s != [] && Runs(cmp, s, w)
    ensures Sorted(cmp, First(s, w)) && Sorted(cmp, Second(s, w)) && Runs(cmp, Beyond(s, w), w)
  {
    var rest := s[Cut(|s|, w)..];
    assert Runs(cmp, rest, w);
    if rest == [] {
      assert Second(s, w) == [] && Beyond(s, w) == [];
    }
  }

  /** A pass over sorted runs keeps ties in order and doubles the width of the runs. */
  lemma {:induction false} PassSorts<E>(cmp: (E, E) -> int, s: seq<E>, w: nat, dom: seq<E>)
    requires w > 0 && TotalPreorder(cmp, dom) && Runs(cmp, s, w)
    requires forall x | x in s :: x in dom
    ensures Runs(cmp, Pass(cmp, s, w), 2 * w)
    ensures forall x | x in dom :: Ties(cmp, x, Pass(cmp, s, w)) == Ties(cmp, x, s)
    decreases |s|
  {
    if s != [] {
      hide Merge, First, Second, Beyond, TotalPreorder, Sorted, Ties;
      var a, b, rest := First(s, w), Second(s, w), Beyond(s, w);
      SplitRuns(s, w);
      RunsSplit(cmp, s, w);
      InParts(s, w);
      PassSorts(cmp, rest, w, dom);
      MergeSorted(cmp, a, b, dom);
      var m, t := Merge(cmp, a, b), Pass(cmp, rest, w);
      PassRuns(cmp, s, w);
      forall x | x in dom
        ensures Ties(cmp, x, m + t) == Ties(cmp, x, s)
      {
        MergeStable(cmp, x, a, b, dom);
        TiesConcat(cmp, x, m, t);
        TiesConcat(cmp, x, a, b);
        TiesConcat(cmp, x, a + b, rest);
      }
    }
  }

  lemma InParts<E>(s: seq<E>, w: nat)
    ensures forall x | x in First(s, w) :: x in s
    ensures forall x | x in Second(s, w) :: x in s
    ensures forall x | x in Beyond(s, w) :: x in s
  {
  }

  lemma PassRuns<E>(cmp: (E, E) -> int, s: seq<E>, w: nat)
    requires w > 0 && s != []
    requires Sorted(cmp, Merge(cmp, First(s, w), Second(s, w)))
    requires Runs(cmp, Pass(cmp, Beyond(s, w), w), 2 * w)
    ensures Runs(cmp, Pass(cmp, s, w), 2 * w)
  {
    var m, t := Merge(cmp, First(s, w), Second(s, w)), Pass(cmp, Beyond(s, w), w);
    var c := Cut(|s|, 2 * w);
    assert |m| == c;
    assert (m + t)[..c] == m && (m + t)[c..] == t;
  }

  lemma SingletonRuns<E>(cmp: (E, E) -> int, s: seq<E>)
    ensures Runs(cmp, s, 1)
  {
  }

  // ------------------------------------------------------------------ the whole sort

  lemma {:induction false} SortIsStable<E>(cmp: (E, E) -> int, s: seq<E>, w: nat)
    requires w > 0 && TotalPreorder(cmp, s) && Runs(cmp, s, w)
    ensures StableSorting(cmp, s, Sort(cmp, s, w))
    decreases |s| - w
  {
    var t := Pass(cmp, s, w);
    PassElements(cmp, s, w);
    PassSorts(cmp, s, w, s);
    SameElements(t, s);
    if |s| <= 2 * w {
      if s != [] {
        assert First(t, 2 * w) == t;
      }
    } else {
      assert TotalPreorder(cmp, t);
      SortIsStable(cmp, t, 2 * w);
    }
  }

  /** What the sort macros promise: sorted, the same elements, ties in their old order. */
  lemma SortCorrect<E>(cmp: (E, E) -> int, s: seq<E>)
    requires TotalPreorder(cmp, s)
    ensures StableSorting(cmp, s, Sort(cmp, s, 1))
  {
    SingletonRuns(cmp, s);
    SortIsStable(cmp, s, 1);
  }

  // ------------------------------------------------------------------ cost

  function Pow2(k: nat): (r: nat)
    ensures r > 0
  {
    if k == 0 then 1 else 2 * Pow2(k - 1)
  }

  /** c is the logarithm of n to base 2, rounded up. */
  ghost predicate IsCeilLog2(n: nat, c: nat) {
    n <= Pow2(c) && (c > 0 ==> Pow2(c - 1) < n)
  }

  lemma {:induction false} PassesBounds(n: nat, i: nat)
    ensures var k := Passes(n, Pow2(i));
      && k >= 1 && n <= Pow2(i + k) && (k > 1 ==> Pow2(i + k - 1) < n)
    decreases n - Pow2(i)
  {
    if n > 2 * Pow2(i) {
      PassesBounds(n, i + 1);
    }
  }

  /** The number of passes is exactly max(1, ceil(log2 n)). */
  lemma PassCount(n: nat, c: nat)
    requires n > 0 && IsCeilLog2(n, c)
    ensures Passes(n, 1) == if c == 0 then 1 else c
  {
    var k := Passes(n, 1);
    PassesBounds(n, 0);
    assert Pow2(0) == 1 && Pow2(1) == 2;
    if c > k {
      Pow2Monotone(k, c - 1);
    } else if k > 1 && c < k {
      Pow2Monotone(c, k - 1);
    }
  }

  lemma {:induction false} Pow2Monotone(a: nat, b: nat)
    requires a <= b
    ensures Pow2(a) <= Pow2(b)
    decreases b - a
  {
    if a < b {
      Pow2Monotone(a, b - 1);
    }
  }

  /** The sort makes at most n comparisons a pass. */
  lemma {:induction false} CostBound<E>(cmp: (E, E) -> int, s: seq<E>, w: nat)
    requires w > 0
    ensures SortCost(cmp, s, w) <= |s| * Passes(|s|, w)
    decreases |s| - w
  {
    if |s| > 2 * w {
      CostBound(cmp, Pass(cmp, s, w), 2 * w);
      assert |s| * (1 + Passes(|s|, 2 * w)) == |s| + |s| * Passes(|s|, 2 * w);
    }
  }

  /** O(n log n) with its constant: at most n * max(1, ceil(log2 n)) comparisons. */
  lemma ComparisonBound<E>(cmp: (E, E) -> int, s: seq<E>, c: nat)
    requires s != [] && IsCeilLog2(|s|, c)
    ensures SortCost(cmp, s, 1) <= |s| * if c == 0 then 1 else c
  {
    CostBound(cmp, s, 1);
    PassCount(|s|, c);
  }
}
