/** The arithmetic behind the hash table of include/uthash.h: bucket numbers by masking, how a
    bucket array partitions the items, and the bound its expansion heuristic keeps. */
module HashSpec {
  import opened Arithmetic
  import opened Sequences
  import opened MergeSort

  const INITIAL_NUM_BUCKETS := 32
  const INITIAL_NUM_BUCKETS_LOG2 := 5
  const BKT_CAPACITY_THRESH := 10

  // ------------------------------------------------------------------ shifts and masks

  /** Bitwise and. */
  function And(x: nat, y: nat): nat
    decreases x
  {
    if x == 0 || y == 0 then 0 else 2 * And(x / 2, y / 2) + (x % 2) * (y % 2)
  }

  /** Shifting k bits to the right. */
  function ShiftRight(x: nat, k: nat): nat
    decreases k
  {
    if k == 0 then x else ShiftRight(x / 2, k - 1)
  }

  lemma HalfRemainder(x: nat, p: nat)
    requires p > 0
    ensures x % (2 * p) == 2 * ((x / 2) % p) + x % 2 && x / (2 * p) == (x / 2) / p
  {
    var h := x / 2;
    var q, r := h / p, h % p;
    assert h == p * q + r;
    assert x == (2 * p) * q + (2 * r + x % 2);
    RemainderUnique(x, 2 * p, q, 2 * r + x % 2);
  }

  /** HASH_TO_BKT's mask is the remainder, the number of buckets being a power of two. */
  lemma {:induction false} MaskIsRemainder(x: nat, k: nat)
    ensures And(x, Pow2(k) - 1) == x % Pow2(k)
    decreases k
  {
    hide *;
    if k == 0 || x == 0 {
      MaskNothing(x, k);
    } else {
      MaskIsRemainder(x / 2, k - 1);
      MaskStep(x, Pow2(k - 1));
      Pow2Step(k);
    }
  }

  lemma Pow2Step(k: nat)
    requires k > 0
    ensures Pow2(k) == 2 * Pow2(k - 1)
  {
  }

  lemma MaskNothing(x: nat, k: nat)
    requires k == 0 || x == 0
    ensures And(x, Pow2(k) - 1) == x % Pow2(k) == 0
  {
    var q, r := Divide(x, Pow2(k));
    assert x == 0 ==> Pow2(k) * q == 0;
  }

  lemma MaskStep(x: nat, p: nat)
    requires x > 0 && p > 0 && And(x / 2, p - 1) == (x / 2) % p
    ensures And(x, 2 * p - 1) == x % (2 * p)
  {
    hide And;
    assert And(x, 2 * p - 1) == 2 * ((x / 2) % p) + x % 2 by {
      AndOdd(x, p - 1);
      assert 2 * (p - 1) + 1 == 2 * p - 1;
    }
    HalfRemainder(x, p);
  }

  lemma AndOdd(x: nat, z: nat)
    requires x > 0
    ensures And(x, 2 * z + 1) == 2 * And(x / 2, z) + x % 2
  {
    var y := 2 * z + 1;
    assert y / 2 == z && y % 2 == 1;
  }

  lemma {:induction false} ShiftIsQuotient(x: nat, k: nat)
    ensures ShiftRight(x, k) == x / Pow2(k)
    decreases k
  {
    if k > 0 {
      ShiftIsQuotient(x / 2, k - 1);
      HalfRemainder(x, Pow2(k - 1));
    }
  }

  /** The chain length that items spread evenly over Pow2(k) buckets would have, as computed. */
  function IdealChain(n: nat, k: nat): nat {
    ShiftRight(n, k) + if And(n, Pow2(k) - 1) != 0 then 1 else 0
  }

  /** c is n / d rounded up: the least length of d chains with room for n items. */
  ghost predicate IsCeiling(c: nat, n: nat, d: nat) {
    n <= c * d && (c > 0 ==> (c - 1) * d < n)
  }

  /** The shift and the mask compute the quotient rounded up. */
  lemma IdealChainIsCeiling(n: nat, k: nat)
    ensures IsCeiling(IdealChain(n, k), n, Pow2(k))
  {
    hide And, ShiftRight, Pow2;
    MaskIsRemainder(n, k);
    ShiftIsQuotient(n, k);
    RoundedUp(n, Pow2(k), n / Pow2(k), n % Pow2(k));
  }

  lemma RoundedUp(n: nat, p: nat, q: nat, r: nat)
    requires n == p * q + r && r < p
    ensures IsCeiling(q + if r != 0 then 1 else 0, n, p)
  {
    assert (q + 1) * p == q * p + p;
    assert q > 0 ==> (q - 1) * p == q * p - p;
  }

  /** Doubling the buckets sends an item to its old number or to its mirror in the new half. */
  lemma DoubledBucket(h: nat, n: nat)
    requires n > 0
    ensures h % (2 * n) == h % n || h % (2 * n) == h % n + n
  {
    var q, r := Divide(h, 2 * n);
    HalfQuotient(h, n, q, r);
  }

  lemma HalfQuotient(h: nat, n: nat, q: nat, r: nat)
    requires n > 0 && h == (2 * n) * q + r && r < 2 * n
    ensures h % n == if r < n then r else r - n
  {
    if r < n {
      assert h == n * (2 * q) + r;
      RemainderUnique(h, n, 2 * q, r);
    } else {
      assert h == n * (2 * q + 1) + (r - n);
      RemainderUnique(h, n, 2 * q + 1, r - n);
    }
  }

  // ------------------------------------------------------------------ which items a bucket holds

  /** The bucket of a hash value among n buckets. */
  function BucketNo(h: nat, n: nat): (b: nat)
    requires n > 0
    ensures b < n
  {
    h % n
  }

  /** The items whose hash value belongs to bucket b of n. */
  ghost function Bin<E>(hash: E -> nat, items: seq<E>, n: nat, b: nat): seq<E>
    requires n > 0
  {
    if items == [] then []
    else
      var x := items[|items| - 1];
      Bin(hash, items[..|items| - 1], n, b) + if BucketNo(hash(x), n) == b then [x] else []
  }

  lemma {:induction false} BinCount<E>(hash: E -> nat, items: seq<E>, n: nat, b: nat, x: E)
    requires n > 0
    ensures multiset(Bin(hash, items, n, b))[x] == if BucketNo(hash(x), n) == b then multiset(items)[x] else 0
  {
    if items != [] {
      var y, rest := items[|items| - 1], items[..|items| - 1];
      BinCount(hash, rest, n, b, x);
      assert items == rest + [y];
      assert multiset(items) == multiset(rest) + multiset{y};
    }
  }

  lemma BinSnoc<E>(hash: E -> nat, items: seq<E>, x: E, n: nat, b: nat)
    requires n > 0
    ensures Bin(hash, items + [x], n, b) == Bin(hash, items, n, b) + if BucketNo(hash(x), n) == b then [x] else []
  {
    assert (items + [x])[..|items|] == items;
  }

  lemma BinSnocElements<E>(hash: E -> nat, items: seq<E>, x: E, n: nat, b: nat)
    requires n > 0
    ensures multiset(Bin(hash, items + [x], n, b))
      == multiset(Bin(hash, items, n, b)) + OneIf(BucketNo(hash(x), n) == b, x)
  {
    BinSnoc(hash, items, x, n, b);
  }

  ghost function OneIf<E>(c: bool, x: E): multiset<E> {
    if c then multiset{x} else multiset{}
  }

  lemma {:induction false} BinConcat<E>(hash: E -> nat, s: seq<E>, t: seq<E>, n: nat, b: nat)
    requires n > 0
    ensures Bin(hash, s + t, n, b) == Bin(hash, s, n, b) + Bin(hash, t, n, b)
  {
    if t == [] {
      assert s + t == s;
    } else {
      var x, rest := t[|t| - 1], t[..|t| - 1];
      assert s + t == (s + rest) + [x];
      BinSnoc(hash, s + rest, x, n, b);
      BinConcat(hash, s, rest, n, b);
    }
  }

  lemma BinWithout<E>(hash: E -> nat, s: seq<E>, i: nat, n: nat, b: nat)
    requires n > 0 && i < |s|
    ensures multiset(Bin(hash, s, n, b))
      == multiset(Bin(hash, Without(s, i), n, b)) + if BucketNo(hash(s[i]), n) == b then multiset{s[i]} else multiset{}
  {
    assert s == (s[..i] + [s[i]]) + s[i + 1..];
    BinConcat(hash, s[..i] + [s[i]], s[i + 1..], n, b);
    BinSnoc(hash, s[..i], s[i], n, b);
    BinConcat(hash, s[..i], s[i + 1..], n, b);
  }

  lemma {:induction false} BinPermuted<E>(hash: E -> nat, s: seq<E>, t: seq<E>, n: nat, b: nat)
    requires n > 0 && multiset(s) == multiset(t)
    ensures multiset(Bin(hash, s, n, b)) == multiset(Bin(hash, t, n, b))
    decreases |s|
  {
    if s == [] {
      assert |multiset(s)| == |s| && |multiset(t)| == |t|;
    } else {
      assert s[0] in multiset(s);
      var j :| 0 <= j < |t| && t[j] == s[0];
      WithoutElements(s, 0);
      WithoutElements(t, j);
      MultisetCancel(multiset(Without(s, 0)), multiset(Without(t, j)), s[0]);
      BinPermuted(hash, Without(s, 0), Without(t, j), n, b);
      BinWithout(hash, s, 0, n, b);
      BinWithout(hash, t, j, n, b);
    }
  }

  /** Every bucket's chain holds exactly the items that belong to it. */
  ghost predicate Placed<E>(hash: E -> nat, items: seq<E>, chains: seq<seq<E>>) {
    |chains| > 0 &&
    forall b :: 0 <= b < |chains| ==> multiset(chains[b]) == multiset(Bin(hash, items, |chains|, b))
  }

  lemma PlacedMember<E>(hash: E -> nat, items: seq<E>, chains: seq<seq<E>>, b: nat, x: E)
    requires Placed(hash, items, chains) && b < |chains|
    ensures multiset(chains[b])[x] == if BucketNo(hash(x), |chains|) == b then multiset(items)[x] else 0
    ensures x in chains[b] <==> x in items && BucketNo(hash(x), |chains|) == b
  {
    BinCount(hash, items, |chains|, b, x);
    assert x in chains[b] <==> x in multiset(chains[b]);
    assert x in items <==> x in multiset(items);
  }

  lemma PlacedEmpty<E>(hash: E -> nat, chains: seq<seq<E>>)
    requires |chains| > 0 && forall b :: 0 <= b < |chains| ==> chains[b] == []
    ensures Placed(hash, [], chains)
  {
  }

  lemma PlacedPermuted<E>(hash: E -> nat, s: seq<E>, t: seq<E>, chains: seq<seq<E>>)
    requires Placed(hash, s, chains) && multiset(s) == multiset(t)
    ensures Placed(hash, t, chains)
  {
    forall b | 0 <= b < |chains|
      ensures multiset(chains[b]) == multiset(Bin(hash, t, |chains|, b))
    {
      BinPermuted(hash, s, t, |chains|, b);
    }
  }

  /** Adding an item at the front of its bucket's chain. */
  lemma PlacedAdd<E>(hash: E -> nat, items: seq<E>, chains: seq<seq<E>>, x: E)
    requires Placed(hash, items, chains)
    ensures var b := BucketNo(hash(x), |chains|);
      Placed(hash, items + [x], chains[b := [x] + chains[b]])
  {
    var n := |chains|;
    var b := BucketNo(hash(x), n);
    var chains' := chains[b := [x] + chains[b]];
    forall c | 0 <= c < n
      ensures multiset(chains'[c]) == multiset(Bin(hash, items + [x], n, c))
    {
      BinSnoc(hash, items, x, n, c);
      if c == b {
        assert multiset([x] + chains[b]) == multiset(Bin(hash, items, n, b)) + multiset{x};
      }
    }
  }

  /** Taking an item out of its bucket's chain. */
  lemma PlacedRemove<E>(hash: E -> nat, items: seq<E>, chains: seq<seq<E>>, i: nat, k: nat)
    requires Placed(hash, items, chains) && i < |items|
    requires var b := BucketNo(hash(items[i]), |chains|); k < |chains[b]| && chains[b][k] == items[i]
    ensures var b := BucketNo(hash(items[i]), |chains|);
      Placed(hash, Without(items, i), chains[b := Without(chains[b], k)])
  {
    var n := |chains|;
    var b := BucketNo(hash(items[i]), n);
    var chains' := chains[b := Without(chains[b], k)];
    forall c | 0 <= c < n
      ensures multiset(chains'[c]) == multiset(Bin(hash, Without(items, i), n, c))
    {
      hide Bin, Without;
      BinWithout(hash, items, i, n, c);
      if c == b {
        WithoutElements(chains[b], k);
        MultisetCancel(multiset(chains'[b]), multiset(Bin(hash, Without(items, i), n, b)), items[i]);
      }
    }
  }

  // ------------------------------------------------------------------ sums over buckets

  ghost function Sum<B>(f: B -> nat, s: seq<B>): nat {
    if s == [] then 0 else f(s[0]) + Sum(f, s[1..])
  }

  lemma {:induction false} SumUpdate<B>(f: B -> nat, s: seq<B>, i: nat, v: B)
    requires i < |s|
    ensures Sum(f, s[i := v]) + f(s[i]) == Sum(f, s) + f(v)
  {
    if i == 0 {
      assert s[0 := v][1..] == s[1..];
    } else {
      assert s[i := v][1..] == s[1..][i - 1 := v];
      SumUpdate(f, s[1..], i - 1, v);
    }
  }

  lemma {:induction false} SumAtLeast<B>(f: B -> nat, s: seq<B>, i: nat)
    requires i < |s|
    ensures f(s[i]) <= Sum(f, s)
  {
    if i > 0 {
      SumAtLeast(f, s[1..], i - 1);
    }
  }

  lemma {:induction false} SumLeast<B>(f: B -> nat, g: B -> nat, s: seq<B>)
    requires forall b :: 0 <= b < |s| ==> f(s[b]) <= g(s[b])
    ensures Sum(f, s) <= Sum(g, s)
  {
    if s != [] {
      SumLeast(f, g, s[1..]);
    }
  }

  lemma {:induction false} SumConstant<B>(f: B -> nat, s: seq<B>, c: nat)
    requires forall b :: 0 <= b < |s| ==> f(s[b]) == c
    ensures Sum(f, s) == c * |s|
  {
    if s != [] {
      SumConstant(f, s[1..], c);
      assert c * |s| == c + c * (|s| - 1);
    }
  }

  ghost function Length<E>(): seq<E> -> nat { (s: seq<E>) => |s| }

  /** The number of items in the first m buckets. */
  ghost function BinsSize<E>(hash: E -> nat, items: seq<E>, n: nat, m: nat): nat
    requires n > 0
  {
    if m == 0 then 0 else BinsSize(hash, items, n, m - 1) + |Bin(hash, items, n, m - 1)|
  }

  lemma {:induction false} BinsSizeSnoc<E>(hash: E -> nat, items: seq<E>, x: E, n: nat, m: nat)
    requires n > 0
    ensures BinsSize(hash, items + [x], n, m) == BinsSize(hash, items, n, m) + if BucketNo(hash(x), n) < m then 1 else 0
  {
    if m > 0 {
      BinsSizeSnoc(hash, items, x, n, m - 1);
      BinSnoc(hash, items, x, n, m - 1);
    }
  }

  lemma {:induction false} BinsSizeEmpty<E>(hash: E -> nat, n: nat, m: nat)
    requires n > 0
    ensures BinsSize(hash, [], n, m) == 0
  {
    if m > 0 {
      BinsSizeEmpty(hash, n, m - 1);
    }
  }

  lemma {:induction false} BinsHoldAll<E>(hash: E -> nat, items: seq<E>, n: nat)
    requires n > 0
    ensures BinsSize(hash, items, n, n) == |items|
  {
    if items == [] {
      BinsSizeEmpty(hash, n, n);
    } else {
      var x, rest := items[|items| - 1], items[..|items| - 1];
      BinsHoldAll(hash, rest, n);
      BinsSizeSnoc(hash, rest, x, n, n);
      assert items == rest + [x];
    }
  }

  lemma {:induction false} ChainsSize<E>(hash: E -> nat, items: seq<E>, chains: seq<seq<E>>, m: nat)
    requires Placed(hash, items, chains) && m <= |chains|
    ensures Sum(Length<E>(), chains[..m]) == BinsSize(hash, items, |chains|, m)
  {
    if m > 0 {
      ChainsSize(hash, items, chains, m - 1);
      SumSnoc(Length<E>(), chains[..m - 1], chains[m - 1]);
      assert chains[..m] == chains[..m - 1] + [chains[m - 1]];
      assert |chains[m - 1]| == |multiset(chains[m - 1])|;
      assert |Bin(hash, items, |chains|, m - 1)| == |multiset(Bin(hash, items, |chains|, m - 1))|;
    }
  }

  lemma {:induction false} SumSnoc<B>(f: B -> nat, s: seq<B>, v: B)
    ensures Sum(f, s + [v]) == Sum(f, s) + f(v)
  {
    if s == [] {
      assert s + [v] == [v];
    } else {
      assert (s + [v])[1..] == s[1..] + [v];
      SumSnoc(f, s[1..], v);
    }
  }

  /** HASH_FSCK's item count: the chains' lengths add up to the number of items. */
  lemma ChainsHoldAll<E>(hash: E -> nat, items: seq<E>, chains: seq<seq<E>>)
    requires Placed(hash, items, chains)
    ensures Sum(Length<E>(), chains) == |items|
  {
    ChainsSize(hash, items, chains, |chains|);
    BinsHoldAll(hash, items, |chains|);
    assert chains[..|chains|] == chains;
  }

  /** The chains one after the other. */
  ghost function Flat<E>(chains: seq<seq<E>>, m: nat): seq<E>
    requires m <= |chains|
  {
    if m == 0 then [] else Flat(chains, m - 1) + chains[m - 1]
  }

  ghost function FlatBins<E>(hash: E -> nat, items: seq<E>, n: nat, m: nat): seq<E>
    requires n > 0
  {
    if m == 0 then [] else FlatBins(hash, items, n, m - 1) + Bin(hash, items, n, m - 1)
  }

  lemma FlatBinsStep<E>(hash: E -> nat, items: seq<E>, n: nat, m: nat)
    requires n > 0
    ensures multiset(FlatBins(hash, items, n, m)) == if m == 0 then multiset{}
      else multiset(FlatBins(hash, items, n, m - 1)) + multiset(Bin(hash, items, n, m - 1))
  {
  }

  lemma {:induction false} FlatBinsSnoc<E>(hash: E -> nat, items: seq<E>, x: E, n: nat, m: nat)
    requires n > 0
    ensures multiset(FlatBins(hash, items + [x], n, m))
      == multiset(FlatBins(hash, items, n, m)) + OneIf(BucketNo(hash(x), n) < m, x)
  {
    hide *;
    FlatBinsStep(hash, items, n, m);
    FlatBinsStep(hash, items + [x], n, m);
    if m > 0 {
      FlatBinsSnoc(hash, items, x, n, m - 1);
      BinSnocElements(hash, items, x, n, m - 1);
      JoinBags(multiset(FlatBins(hash, items, n, m - 1)), multiset(Bin(hash, items, n, m - 1)),
               multiset(FlatBins(hash, items + [x], n, m - 1)), multiset(Bin(hash, items + [x], n, m - 1)),
               x, BucketNo(hash(x), n), m);
    } else {
      NoneIf(x);
    }
  }

  lemma NoneIf<E>(x: E)
    ensures OneIf(false, x) == multiset{}
  {
  }

  lemma JoinBags<E>(a: multiset<E>, b: multiset<E>, a': multiset<E>, b': multiset<E>, x: E, r: nat, m: nat)
    requires m > 0
    requires a' == a + OneIf(r < m - 1, x)
    requires b' == b + OneIf(r == m - 1, x)
    ensures a' + b' == (a + b) + OneIf(r < m, x)
  {
  }

  lemma {:induction false} FlatBinsEmpty<E>(hash: E -> nat, n: nat, m: nat)
    requires n > 0
    ensures FlatBins(hash, [], n, m) == []
  {
    if m > 0 {
      FlatBinsEmpty(hash, n, m - 1);
    }
  }

  lemma {:induction false} FlatBinsAll<E>(hash: E -> nat, items: seq<E>, n: nat)
    requires n > 0
    ensures multiset(FlatBins(hash, items, n, n)) == multiset(items)
  {
    if items == [] {
      FlatBinsEmpty(hash, n, n);
    } else {
      var x, rest := items[|items| - 1], items[..|items| - 1];
      FlatBinsAll(hash, rest, n);
      FlatBinsSnoc(hash, rest, x, n, n);
      assert items == rest + [x];
    }
  }

  lemma {:induction false} FlatIsBins<E>(hash: E -> nat, items: seq<E>, chains: seq<seq<E>>, m: nat)
    requires Placed(hash, items, chains) && m <= |chains|
    ensures multiset(Flat(chains, m)) == multiset(FlatBins(hash, items, |chains|, m))
  {
    if m > 0 {
      FlatIsBins(hash, items, chains, m - 1);
    }
  }

  /** Walking all chains visits every item exactly once. */
  lemma FlatHoldsAll<E>(hash: E -> nat, items: seq<E>, chains: seq<seq<E>>)
    requires Placed(hash, items, chains)
    ensures multiset(Flat(chains, |chains|)) == multiset(items)
  {
    FlatIsBins(hash, items, chains, |chains|);
    FlatBinsAll(hash, items, |chains|);
  }

  /** Every item sits in the chain of its own bucket. */
  lemma Tagged<E>(hash: E -> nat, items: seq<E>, chains: seq<seq<E>>)
    requires Placed(hash, items, chains)
    ensures forall c, k {:trigger chains[c][k]} :: 0 <= c < |chains| && 0 <= k < |chains[c]| ==>
      chains[c][k] in items && BucketNo(hash(chains[c][k]), |chains|) == c
  {
    forall c, k {:trigger chains[c][k]} | 0 <= c < |chains| && 0 <= k < |chains[c]|
      ensures chains[c][k] in items && BucketNo(hash(chains[c][k]), |chains|) == c
    {
      PlacedMember(hash, items, chains, c, chains[c][k]);
    }
  }

  /** After doubling, an old chain is split between its own number and its mirror in the new half:
      no item is lost, doubled or sent anywhere else. */
  lemma SplitChains<E>(hash: E -> nat, items: seq<E>, chains: seq<seq<E>>, newChains: seq<seq<E>>, c: nat)
    requires Placed(hash, items, chains) && Placed(hash, items, newChains)
    requires |newChains| == 2 * |chains| && c < |chains|
    ensures multiset(chains[c]) == multiset(newChains[c]) + multiset(newChains[c + |chains|])
  {
    hide Placed;
    var n := |chains|;
    forall x
      ensures multiset(chains[c])[x] == multiset(newChains[c])[x] + multiset(newChains[c + n])[x]
    {
      PlacedMember(hash, items, chains, c, x);
      PlacedMember(hash, items, newChains, c, x);
      PlacedMember(hash, items, newChains, c + n, x);
      DoubledBucket(hash(x), n);
    }
  }

  // ------------------------------------------------------------------ the load bound

  /** UT_hash_bucket. */
  datatype Bucket<+P> = Bucket(head: P, count: nat, expandMult: nat)

  ghost function CountOf<P>(): Bucket<P> -> nat { (b: Bucket<P>) => b.count }

  /** What a bucket may hold without asking for an expansion, or holds if that is more. */
  ghost function Weight<P>(): Bucket<P> -> nat {
    (b: Bucket<P>) => if b.count > 10 * b.expandMult + 9 then b.count else 10 * b.expandMult + 9
  }

  /** The bucket's items beyond the ideal chain length. */
  ghost function Excess<P>(ideal: nat): Bucket<P> -> nat {
    (b: Bucket<P>) => if b.count > ideal then b.count - ideal else 0
  }

  /** The chain length at which adding to the bucket asks for an expansion. */
  function Threshold<P>(b: Bucket<P>): nat {
    (b.expandMult + 1) * BKT_CAPACITY_THRESH
  }

  /** What the table keeps as long as it may still expand. */
  ghost predicate LoadOk<P>(bs: seq<Bucket<P>>) {
    && Sum(Weight<P>(), bs) <= 19 * |bs|
    && forall b :: 0 <= b < |bs| ==> bs[b].count <= Threshold(bs[b])
  }

  /** While it is kept, there are at most 19 items a bucket. */
  lemma LoadBound<P>(bs: seq<Bucket<P>>)
    requires LoadOk(bs)
    ensures Sum(CountOf<P>(), bs) <= 19 * |bs|
  {
    SumLeast(CountOf<P>(), Weight<P>(), bs);
  }

  lemma LoadInitial<P>(bs: seq<Bucket<P>>)
    requires forall b :: 0 <= b < |bs| ==> bs[b].count == bs[b].expandMult == 0
    ensures LoadOk(bs) && Sum(CountOf<P>(), bs) == 0
  {
    SumConstant(Weight<P>(), bs, 9);
    SumConstant(CountOf<P>(), bs, 0);
  }

  /** Adding to a bucket that stays below its threshold, or deleting from any bucket. */
  lemma LoadChange<P>(bs: seq<Bucket<P>>, b: nat, v: Bucket<P>)
    requires LoadOk(bs) && b < |bs| && v.expandMult == bs[b].expandMult
    requires v.count < bs[b].count || v.count < Threshold(v)
    ensures LoadOk(bs[b := v])
  {
    SumUpdate(Weight<P>(), bs, b, v);
  }

  /** The ideal chain length computed by an expansion is between 1 and 10. */
  lemma IdealRange(n: nat, k: nat)
    requires 0 < n <= 19 * Pow2(k) + 1
    ensures 1 <= IdealChain(n, k + 1) <= 10
  {
    hide IdealChain;
    var c := IdealChain(n, k + 1);
    IdealChainIsCeiling(n, k + 1);
    assert Pow2(k + 1) == 2 * Pow2(k);
    hide Pow2;
    AtMostTen(n, Pow2(k), c);
  }

  lemma AtMostTen(n: nat, p: nat, c: nat)
    requires 0 < n <= 19 * p + 1 && p > 0 && IsCeiling(c, n, 2 * p)
    ensures 1 <= c <= 10
  {
    TwentyTimes(p, c);
  }

  lemma TwentyTimes(p: nat, c: nat)
    ensures c > 10 ==> (c - 1) * (2 * p) >= 20 * p
  {
    if c > 10 {
      assert (c - 1) * (2 * p) == 20 * p + (c - 11) * (2 * p);
    }
  }

  /** What an expansion stores in a bucket that has received count items. */
  ghost predicate Expanded<P>(b: Bucket<P>, ideal: nat)
    requires ideal > 0
  {
    b.expandMult == if b.count > ideal then b.count / ideal else 0
  }

  lemma BucketLoad<P>(b: Bucket<P>, ideal: nat)
    requires 0 < ideal <= 10 && Expanded(b, ideal)
    ensures b.count <= Threshold(b)
    ensures ideal * Weight<P>()(b) <= 9 * ideal + 10 * b.count
  {
    var c, m := b.count, b.expandMult;
    if c > ideal {
      assert c == ideal * m + c % ideal;
      MulLeast(ideal, m);
      assert ideal * (10 * m + 9) == 10 * (ideal * m) + 9 * ideal;
    } else if c > 9 {
      assert c == ideal == 10;
    } else {
      assert ideal * 9 == 9 * ideal;
    }
  }

  lemma MulLeast(ideal: nat, m: nat)
    requires ideal <= 10
    ensures ideal * m <= 10 * m
  {
    assert 10 * m == ideal * m + (10 - ideal) * m;
  }

  lemma {:induction false} SumScaled<P>(bs: seq<Bucket<P>>, ideal: nat)
    requires 0 < ideal <= 10 && forall b :: 0 <= b < |bs| ==> Expanded(bs[b], ideal)
    ensures ideal * Sum(Weight<P>(), bs) <= 9 * ideal * |bs| + 10 * Sum(CountOf<P>(), bs)
  {
    if bs != [] {
      hide Weight, Expanded;
      BucketLoad(bs[0], ideal);
      SumScaled(bs[1..], ideal);
      AddScaled(ideal, Weight<P>()(bs[0]), bs[0].count,
                Sum(Weight<P>(), bs[1..]), Sum(CountOf<P>(), bs[1..]), |bs| - 1);
    }
  }

  lemma AddScaled(ideal: nat, w: nat, c: nat, ws: nat, cs: nat, m: nat)
    requires ideal * w <= 9 * ideal + 10 * c && ideal * ws <= 9 * ideal * m + 10 * cs
    ensures ideal * (w + ws) <= 9 * ideal * (m + 1) + 10 * (c + cs)
  {
    assert ideal * (w + ws) == ideal * w + ideal * ws;
    assert 9 * ideal * (m + 1) == 9 * ideal * m + 9 * ideal;
  }

  /** An expansion restores the bound, however unevenly the items fall. */
  lemma LoadExpanded<P>(bs: seq<Bucket<P>>, ideal: nat)
    requires 0 < ideal <= 10 && forall b :: 0 <= b < |bs| ==> Expanded(bs[b], ideal)
    requires Sum(CountOf<P>(), bs) <= ideal * |bs|
    ensures LoadOk(bs)
  {
    hide Sum, Weight, Expanded;
    SumScaled(bs, ideal);
    var w := Sum(Weight<P>(), bs);
    Nineteen(ideal, |bs|);
    CancelFactor(ideal, w, 19 * |bs|);
    forall b | 0 <= b < |bs|
      ensures bs[b].count <= Threshold(bs[b])
    {
      BucketLoad(bs[b], ideal);
    }
  }

  lemma Nineteen(c: nat, m: nat)
    ensures 9 * c * m + 10 * (c * m) == c * (19 * m)
  {
  }

  lemma CancelFactor(c: nat, x: nat, y: nat)
    requires c > 0 && c * x <= c * y
    ensures x <= y
  {
    if x > y {
      assert c * x == c * y + c * (x - y);
      MulAtLeast(c, x - y);
    }
  }
}
