/** The hash table of include/uthash.h: bucket chains, the list in application order, doubling
    expansion and the in-place sort. An entry is a user's structure with its hash handle; the
    handle's application-order links are a list node, so that the sort is the one of UtList. */
module UtHash {
  import opened Sequences
  import opened MergeSort
  import opened UtList
  import opened HashSpec

  type Key = string

  class Entry<V> {
    const key: Key
    const value: V
    var hashv: nat
    var app: Node?<Entry<V>>
    var hhPrev: Entry?<V>
    var hhNext: Entry?<V>

    constructor (key: Key, value: V)
      ensures this.key == key && this.value == value
    {
      this.key, this.value := key, value;
      hashv, app, hhPrev, hhNext := 0, null, null, null;
    }
  }

  type Bkt<V> = Bucket<Entry?<V>>

  ghost function EntryHash<V>(hash: Key -> nat): Entry<V> -> nat { (e: Entry<V>) => hash(e.key) }

  /** The chain as it is walked: from head along hh_next. */
  ghost predicate Forward<V>(head: Entry?<V>, chain: seq<Entry<V>>)
    reads chain`hhNext
  {
    && head == (if chain == [] then null else chain[0])
    && forall k {:trigger chain[k].hhNext} :: 0 <= k < |chain| ==>
      chain[k].hhNext == if k + 1 < |chain| then chain[k + 1] else null
  }

  ghost predicate Backward<V>(chain: seq<Entry<V>>)
    reads chain`hhPrev
  {
    forall k {:trigger chain[k].hhPrev} :: 0 <= k < |chain| ==>
      chain[k].hhPrev == if k > 0 then chain[k - 1] else null
  }

  /** HASH_FSCK's check of one bucket. */
  ghost predicate ChainOk<V>(b: Bkt<V>, chain: seq<Entry<V>>)
    reads chain`hhNext, chain`hhPrev
  {
    b.count == |chain| && Forward(b.head, chain) && Backward(chain)
  }

  /** Entries and the list nodes of their handles refer to each other. */
  ghost predicate Paired<V>(items: seq<Entry<V>>, order: seq<Node<Entry<V>>>)
    reads items`app
  {
    && |items| == |order|
    && (forall k {:trigger order[k].data} :: 0 <= k < |order| ==> order[k].data == items[k])
    && forall k {:trigger items[k].app} :: 0 <= k < |items| ==> items[k].app == order[k]
  }

  lemma PairedSnoc<V>(items: seq<Entry<V>>, order: seq<Node<Entry<V>>>, e: Entry<V>, node: Node<Entry<V>>)
    requires Paired(items, order) && e.app == node && node.data == e
    ensures Paired(items + [e], order + [node])
  {
  }

  lemma PairedWithout<V>(items: seq<Entry<V>>, order: seq<Node<Entry<V>>>, at: nat)
    requires Paired(items, order) && at < |items|
    ensures Paired(Without(items, at), Without(order, at))
  {
  }

  // ------------------------------------------------------------------ one bucket

  /** The linking of HASH_ADD_TO_BKT, and of the inner loop of HASH_EXPAND_BUCKETS. */
  method PushFront<V>(head: Entry?<V>, e: Entry<V>, ghost chain: seq<Entry<V>>)
    requires Forward(head, chain) && Backward(chain) && e !in chain && Distinct(chain)
    modifies e`hhNext, e`hhPrev, chain`hhPrev
    ensures Forward(e, [e] + chain) && Backward([e] + chain)
  {
    e.hhNext := head;
    e.hhPrev := null;
    if head != null {
      head.hhPrev := e;
    }
    ghost var longer := [e] + chain;
    assert chain != [] ==> chain[0] == longer[1];
    forall k {:trigger longer[k].hhNext} | 0 <= k < |longer|
      ensures longer[k].hhNext == if k + 1 < |longer| then longer[k + 1] else null
    {
      assert k > 0 ==> longer[k] == chain[k - 1] && chain[k - 1].hhNext == longer[k].hhNext;
    }
    forall k {:trigger longer[k].hhPrev} | 0 <= k < |longer|
      ensures longer[k].hhPrev == if k > 0 then longer[k - 1] else null
    {
      assert k > 0 ==> longer[k] == chain[k - 1] && chain[k - 1].hhPrev == longer[k].hhPrev;
    }
  }

  /** HASH_DEL_IN_BKT. */
  method DelInBkt<V>(b: Bkt<V>, e: Entry<V>, ghost chain: seq<Entry<V>>, ghost at: nat)
    returns (b': Bkt<V>)
    requires ChainOk(b, chain) && Distinct(chain) && at < |chain| && chain[at] == e
    modifies chain`hhNext, chain`hhPrev
    ensures ChainOk(b', Without(chain, at)) && b'.expandMult == b.expandMult
  {
    b' := b.(count := b.count - 1);
    if b'.head == e {
      b' := b'.(head := e.hhNext);
    }
    if e.hhPrev != null {
      e.hhPrev.hhNext := e.hhNext;
    }
    if e.hhNext != null {
      e.hhNext.hhPrev := e.hhPrev;
    }
  }

  ghost function FirstWith<V>(chain: seq<Entry<V>>, key: Key): Entry?<V> {
    if chain == [] then null else if chain[0].key == key then chain[0] else FirstWith(chain[1..], key)
  }

  lemma {:induction false} FirstWithAt<V>(chain: seq<Entry<V>>, key: Key, at: nat)
    requires at <= |chain| && forall k :: 0 <= k < at ==> chain[k].key != key
    requires at < |chain| ==> chain[at].key == key
    ensures FirstWith(chain, key) == if at < |chain| then chain[at] else null
  {
    if at > 0 {
      FirstWithAt(chain[1..], key, at - 1);
    }
  }

  /** HASH_FIND_IN_BKT: the first entry of the chain with the key. */
  method FindInBkt<V>(b: Bkt<V>, key: Key, ghost chain: seq<Entry<V>>) returns (out: Entry?<V>, ghost at: nat)
    requires ChainOk(b, chain)
    ensures at <= |chain| && forall k :: 0 <= k < at ==> chain[k].key != key
    ensures if at == |chain| then out == null else out == chain[at] && out.key == key
    ensures out == null <==> forall k :: 0 <= k < |chain| ==> chain[k].key != key
    ensures out == FirstWith(chain, key)
  {
    out, at := b.head, 0;
    while out != null
      invariant at <= |chain| && forall k :: 0 <= k < at ==> chain[k].key != key
      invariant out == if at < |chain| then chain[at] else null
      decreases |chain| - at
    {
      if |out.key| == |key| {
        if out.key == key { break; }
      }
      out := out.hhNext;
      at := at + 1;
    }
    FirstWithAt(chain, key, at);
  }

  // ------------------------------------------------------------------ all buckets

  ghost function Members<V>(chains: seq<seq<Entry<V>>>): set<Entry<V>> {
    set c, k | 0 <= c < |chains| && 0 <= k < |chains[c]| :: chains[c][k]
  }

  ghost predicate Contained<V>(chains: seq<seq<Entry<V>>>, items: seq<Entry<V>>) {
    forall c, k {:trigger chains[c][k]} :: 0 <= c < |chains| && 0 <= k < |chains[c]| ==> chains[c][k] in items
  }

  /** Every bucket is in order: count, links both ways. */
  ghost predicate BucketsOk<V>(buckets: array<Bkt<V>>, chains: seq<seq<Entry<V>>>)
    reads buckets, Members(chains)`hhNext, Members(chains)`hhPrev
  {
    && buckets.Length == |chains|
    && forall c :: 0 <= c < |chains| ==>
      assert forall k | 0 <= k < |chains[c]| :: chains[c][k] in Members(chains);
      ChainOk(buckets[c], chains[c])
  }

  /** Hash values are stored and every entry is in the chain of its bucket. */
  ghost predicate Hashed<V>(hash: Key -> nat, items: seq<Entry<V>>, chains: seq<seq<Entry<V>>>)
    reads items`hashv
  {
    && Placed(EntryHash(hash), items, chains)
    && forall k {:trigger items[k].hashv} :: 0 <= k < |items| ==> items[k].hashv == hash(items[k].key)
  }

  lemma ChainDistinct<E>(hash: E -> nat, items: seq<E>, chains: seq<seq<E>>, b: nat)
    requires Placed(hash, items, chains) && Distinct(items) && b < |chains|
    ensures Distinct(chains[b])
  {
    DistinctMultiset(items);
    DistinctMultiset(chains[b]);
    forall x
      ensures multiset(chains[b])[x] <= 1
    {
      assert multiset(items)[x] <= 1;
      PlacedMember(hash, items, chains, b, x);
    }
  }

  /** Putting an entry at the front of bucket b. */
  method AddToChain<V>(hash: Key -> nat, buckets: array<Bkt<V>>, e: Entry<V>, b: nat, grown: Bkt<V>,
                       ghost items: seq<Entry<V>>, ghost chains: seq<seq<Entry<V>>>)
    returns (ghost chains': seq<seq<Entry<V>>>)
    requires BucketsOk(buckets, chains) && Placed(EntryHash(hash), items, chains)
    requires Distinct(items) && e !in items
    requires b == BucketNo(hash(e.key), |chains|)
    requires grown.head == buckets[b].head && grown.count == buckets[b].count + 1
    modifies buckets, e`hhNext, e`hhPrev, items`hhPrev
    ensures chains' == chains[b := [e] + chains[b]]
    ensures BucketsOk(buckets, chains') && Placed(EntryHash(hash), items + [e], chains')
    ensures buckets[..] == old(buckets[..])[b := grown.(head := e)]
  {
    hide Placed, Forward, Backward, Sum, BucketNo;
    Tagged(EntryHash(hash), items, chains);
    PlacedAdd(EntryHash(hash), items, chains, e);
    ChainDistinct(EntryHash(hash), items, chains, b);
    assert buckets[b].head == grown.head && ChainOk(buckets[b], chains[b]);
    PushFront(grown.head, e, chains[b]);
    buckets[b] := grown.(head := e);
    chains' := chains[b := [e] + chains[b]];
  }

  /** While buckets are being emptied, the ones from bucket i on are still linked forwards. */
  ghost predicate Waiting<V>(buckets: array<Bkt<V>>, chains: seq<seq<Entry<V>>>, i: nat)
    reads buckets, Members(chains)`hhNext
  {
    && buckets.Length == |chains|
    && forall c :: i <= c < |chains| ==>
      assert forall k | 0 <= k < |chains[c]| :: chains[c][k] in Members(chains);
      Forward(buckets[c].head, chains[c])
  }

  /** The first k entries of bucket i and all entries of the buckets before it. */
  ghost predicate Moved<V>(hash: Key -> nat, done: seq<Entry<V>>, items: seq<Entry<V>>, chains: seq<seq<Entry<V>>>,
                           i: nat, k: nat)
    requires |chains| > 0 && i < |chains| && k <= |chains[i]|
  {
    && done == Flat(chains, i) + chains[i][..k]
    && Distinct(done)
    && forall x | x in done :: x in items && (BucketNo(hash(x.key), |chains|) < i || x in chains[i][..k])
  }

  lemma MovedNext<V>(hash: Key -> nat, done: seq<Entry<V>>, items: seq<Entry<V>>, chains: seq<seq<Entry<V>>>,
                     i: nat, k: nat)
    requires Placed(EntryHash(hash), items, chains) && Distinct(items)
    requires i < |chains| && k < |chains[i]| && Moved(hash, done, items, chains, i, k)
    ensures chains[i][k] in items && chains[i][k] !in done
    ensures Moved(hash, done + [chains[i][k]], items, chains, i, k + 1)
  {
    var e := chains[i][k];
    Tagged(EntryHash(hash), items, chains);
    ChainDistinct(EntryHash(hash), items, chains, i);
    assert chains[i][..k + 1] == chains[i][..k] + [e];
    assert done + [e] == Flat(chains, i) + chains[i][..k + 1];
  }

  lemma MovedBucket<V>(hash: Key -> nat, done: seq<Entry<V>>, items: seq<Entry<V>>, chains: seq<seq<Entry<V>>>, i: nat)
    requires Placed(EntryHash(hash), items, chains)
    requires i + 1 < |chains| && Moved(hash, done, items, chains, i, |chains[i]|)
    ensures Moved(hash, done, items, chains, i + 1, 0)
  {
    Tagged(EntryHash(hash), items, chains);
    assert chains[i][..|chains[i]|] == chains[i];
    assert chains[i + 1][..0] == [];
    assert done == Flat(chains, i + 1) + [];
  }

  lemma MovedAll<V>(hash: Key -> nat, done: seq<Entry<V>>, items: seq<Entry<V>>, chains: seq<seq<Entry<V>>>,
                    newChains: seq<seq<Entry<V>>>)
    requires Placed(EntryHash(hash), items, chains) && Placed(EntryHash(hash), done, newChains)
    requires Moved(hash, done, items, chains, |chains| - 1, |chains[|chains| - 1]|)
    ensures Placed(EntryHash(hash), items, newChains)
  {
    var last := |chains| - 1;
    assert chains[last][..|chains[last]|] == chains[last];
    assert done == Flat(chains, |chains|);
    FlatHoldsAll(EntryHash(hash), items, chains);
    PlacedPermuted(EntryHash(hash), done, items, newChains);
  }

  /** The bucket counter part of HASH_EXPAND_BUCKETS's inner loop. */
  method CountMoved<V>(b: Bkt<V>, ideal: nat, nonideal: nat) returns (b': Bkt<V>, nonideal': nat)
    requires ideal > 0 && Expanded(b, ideal)
    ensures b'.head == b.head && b'.count == b.count + 1 && Expanded(b', ideal)
    ensures nonideal' + Excess<Entry?<V>>(ideal)(b) == nonideal + Excess<Entry?<V>>(ideal)(b')
  {
    b', nonideal' := b.(count := b.count + 1), nonideal;
    if b'.count > ideal {
      nonideal' := nonideal' + 1;
      b' := b'.(expandMult := b'.count / ideal);
    }
  }

  /** The new bucket array under construction. */
  ghost predicate Built<V>(hash: Key -> nat, buckets: array<Bkt<V>>, done: seq<Entry<V>>,
                           chains: seq<seq<Entry<V>>>, ideal: nat, nonideal: nat)
    requires ideal > 0
    reads buckets, Members(chains)`hhNext, Members(chains)`hhPrev
  {
    && BucketsOk(buckets, chains) && Placed(EntryHash(hash), done, chains)
    && (forall c :: 0 <= c < buckets.Length ==> Expanded(buckets[c], ideal))
    && nonideal == Sum(Excess<Entry?<V>>(ideal), buckets[..])
  }

  /** Moving one entry to its new bucket. */
  method MoveEntry<V>(hash: Key -> nat, buckets: array<Bkt<V>>, e: Entry<V>, k: nat, ideal: nat, nonideal: nat,
                      ghost done: seq<Entry<V>>, ghost chains: seq<seq<Entry<V>>>)
    returns (nonideal': nat, ghost chains': seq<seq<Entry<V>>>)
    requires ideal > 0 && Built(hash, buckets, done, chains, ideal, nonideal)
    requires |chains| == Pow2(k) && e.hashv == hash(e.key) && Distinct(done) && e !in done
    modifies buckets, e`hhNext, e`hhPrev, done`hhPrev
    ensures Built(hash, buckets, done + [e], chains', ideal, nonideal') && |chains'| == |chains|
  {
    hide Placed, Sum, Pow2, And, Expanded, ChainOk;
    MaskIsRemainder(e.hashv, k);
    var b := And(e.hashv, Pow2(k) - 1);
    MaskInRange(hash, e, b, |chains|, buckets, chains);
    var grown: Bkt<V>;
    grown, nonideal' := CountMoved(buckets[b], ideal, nonideal);
    ghost var before := buckets[..];
    chains' := AddToChain(hash, buckets, e, b, grown, done, chains);
    ExcessUnlinked(grown, e, ideal);
    SumUpdate(Excess<Entry?<V>>(ideal), before, b, grown.(head := e));
    LengthOk(buckets, chains');
  }

  lemma MaskInRange<V>(hash: Key -> nat, e: Entry<V>, b: nat, n: nat,
                       buckets: array<Bkt<V>>, chains: seq<seq<Entry<V>>>)
    requires n > 0 && e.hashv == hash(e.key) && b == e.hashv % n && n == |chains| && BucketsOk(buckets, chains)
    ensures b == BucketNo(hash(e.key), n) && b < n == buckets.Length
  {
  }

  lemma LengthOk<V>(buckets: array<Bkt<V>>, chains: seq<seq<Entry<V>>>)
    requires BucketsOk(buckets, chains)
    ensures buckets.Length == |chains|
  {
  }

  lemma ExcessUnlinked<V>(b: Bkt<V>, e: Entry<V>, ideal: nat)
    requires ideal > 0 && Expanded(b, ideal)
    ensures Expanded(b.(head := e), ideal)
    ensures Excess<Entry?<V>>(ideal)(b.(head := e)) == Excess<Entry?<V>>(ideal)(b)
  {
  }

  /** A zeroed bucket array. */
  method EmptyBuckets<V>(hash: Key -> nat, n: nat, ideal: nat)
    returns (buckets: array<Bkt<V>>, ghost chains: seq<seq<Entry<V>>>)
    requires n > 0 && ideal > 0
    ensures fresh(buckets) && |chains| == n && Built(hash, buckets, [], chains, ideal, 0)
    ensures forall c :: 0 <= c < n ==> buckets[c] == Bucket(null, 0, 0)
  {
    buckets := new Bkt<V>[n](_ => Bucket(null, 0, 0));
    chains := seq(n, _ => []);
    SumConstant(Excess<Entry?<V>>(ideal), buckets[..], 0);
    PlacedEmpty(EntryHash(hash), chains);
  }

  lemma NothingMoved<V>(hash: Key -> nat, items: seq<Entry<V>>, chains: seq<seq<Entry<V>>>)
    requires |chains| > 0
    ensures Moved(hash, [], items, chains, 0, 0)
  {
    assert chains[0][..0] == [];
  }

  lemma WaitingAll<V>(buckets: array<Bkt<V>>, chains: seq<seq<Entry<V>>>)
    requires BucketsOk(buckets, chains)
    ensures Waiting(buckets, chains, 0)
  {
    forall c | 0 <= c < |chains|
      ensures Forward(buckets[c].head, chains[c])
    {
      assert ChainOk(buckets[c], chains[c]);
    }
  }

  lemma WaitingFirst<V>(buckets: array<Bkt<V>>, chains: seq<seq<Entry<V>>>, i: nat)
    requires Waiting(buckets, chains, i) && i < |chains|
    ensures buckets.Length == |chains| && Waiting(buckets, chains, i + 1)
    ensures Forward(buckets[i].head, chains[i][0..])
    ensures buckets[i].head == null <==> chains[i] == []
  {
    assert chains[i][0..] == chains[i];
  }

  /** What an entry that is about to move satisfies. */
  lemma NextToMove<V>(hash: Key -> nat, done: seq<Entry<V>>, items: seq<Entry<V>>, chains: seq<seq<Entry<V>>>,
                      i: nat, k: nat)
    requires Hashed(hash, items, chains) && i < |chains| && k < |chains[i]|
    requires Moved(hash, done, items, chains, i, k)
    ensures Distinct(done) && (forall x | x in done :: x in items)
    ensures chains[i][k] in items && chains[i][k].hashv == hash(chains[i][k].key)
    ensures forall j :: k < j < |chains[i]| && Distinct(chains[i]) ==> chains[i][j] != chains[i][k]
    ensures forall c, j {:trigger chains[c][j]} :: i < c < |chains| && 0 <= j < |chains[c]| ==>
      chains[c][j] != chains[i][k]
  {
    Tagged(EntryHash(hash), items, chains);
    assert chains[i][k] in items;
  }

  /** One round of the inner loop: the entry at thh moves and the walk goes on. */
  method MoveOne<V>(hash: Key -> nat, thh: Entry<V>, buckets: array<Bkt<V>>, newBuckets: array<Bkt<V>>, log2: nat,
                    ideal: nat, nonideal: nat, ghost items: seq<Entry<V>>, ghost chains: seq<seq<Entry<V>>>,
                    ghost i: nat, ghost k: nat, ghost done: seq<Entry<V>>, ghost newChains: seq<seq<Entry<V>>>)
    returns (next: Entry?<V>, nonideal': nat, ghost newChains': seq<seq<Entry<V>>>)
    requires ideal > 0 && Hashed(hash, items, chains) && Distinct(items) && buckets != newBuckets
    requires i < |chains| && k < |chains[i]| && Moved(hash, done, items, chains, i, k)
    requires Forward(thh, chains[i][k..]) && Waiting(buckets, chains, i + 1)
    requires |newChains| == Pow2(log2) && Built(hash, newBuckets, done, newChains, ideal, nonideal)
    modifies newBuckets, items`hhNext, items`hhPrev
    ensures Forward(next, chains[i][k + 1..]) && Waiting(buckets, chains, i + 1)
    ensures next == null <==> k + 1 == |chains[i]|
    ensures Moved(hash, done + [chains[i][k]], items, chains, i, k + 1)
    ensures Built(hash, newBuckets, done + [chains[i][k]], newChains', ideal, nonideal')
    ensures |newChains'| == |newChains|
  {
    hide Placed, Sum, Pow2, Expanded, BucketsOk, Moved, Built;
    ghost var rest := chains[i][k..];
    assert rest[0].hhNext == if |rest| > 1 then rest[1] else null;
    assert rest[1..] == chains[i][k + 1..];
    ChainDistinct(EntryHash(hash), items, chains, i);
    NextToMove(hash, done, items, chains, i, k);
    MovedNext(hash, done, items, chains, i, k);
    next := thh.hhNext;
    StillForward(thh, next, rest);
    assert thh == chains[i][k];
    assert thh in items;
    assert forall j :: 0 <= j < |done| ==> done[j] in items;
    nonideal', newChains' := MoveEntry(hash, newBuckets, thh, log2, ideal, nonideal, done, newChains);
  }

  lemma StillForward<V>(e: Entry<V>, next: Entry?<V>, rest: seq<Entry<V>>)
    requires rest != [] && Forward(e, rest) && next == e.hhNext
    ensures Forward(next, rest[1..])
  {
    var shorter := rest[1..];
    assert rest[0].hhNext == next;
    forall k {:trigger shorter[k].hhNext} | 0 <= k < |shorter|
      ensures shorter[k].hhNext == if k + 1 < |shorter| then shorter[k + 1] else null
    {
      assert rest[k + 1].hhNext == shorter[k].hhNext;
    }
  }

  lemma AllBuilt<V>(hash: Key -> nat, buckets: array<Bkt<V>>, done: seq<Entry<V>>, items: seq<Entry<V>>,
                    chains: seq<seq<Entry<V>>>, newChains: seq<seq<Entry<V>>>, ideal: nat, nonideal: nat)
    requires ideal > 0 && Placed(EntryHash(hash), items, chains)
    requires Moved(hash, done, items, chains, |chains| - 1, |chains[|chains| - 1]|)
    requires Built(hash, buckets, done, newChains, ideal, nonideal)
    ensures Built(hash, buckets, items, newChains, ideal, nonideal)
  {
    MovedAll(hash, done, items, chains, newChains);
  }

  /** The loops of HASH_EXPAND_BUCKETS: every entry moves to a bucket array of twice the size. */
  method Redistribute<V>(hash: Key -> nat, buckets: array<Bkt<V>>, log2: nat, ideal: nat,
                         ghost items: seq<Entry<V>>, ghost chains: seq<seq<Entry<V>>>)
    returns (newBuckets: array<Bkt<V>>, nonideal: nat, ghost newChains: seq<seq<Entry<V>>>)
    requires ideal > 0 && BucketsOk(buckets, chains) && |chains| == Pow2(log2)
    requires Hashed(hash, items, chains) && Distinct(items)
    modifies items`hhNext, items`hhPrev
    ensures fresh(newBuckets) && |newChains| == Pow2(log2 + 1)
    ensures Built(hash, newBuckets, items, newChains, ideal, nonideal) && Hashed(hash, items, newChains)
  {
    hide Placed, Sum, Pow2, Expanded, BucketsOk, Moved, Forward;
    var n := buckets.Length;
    LengthOk(buckets, chains);
    WaitingAll(buckets, chains);
    newBuckets, newChains := EmptyBuckets(hash, 2 * n, ideal);
    nonideal := 0;
    ghost var done: seq<Entry<V>> := [];
    NothingMoved(hash, items, chains);
    Pow2Double(log2);
    var i := 0;
    while i < n
      invariant 0 <= i <= n && |newChains| == 2 * n && fresh(newBuckets)
      invariant if i < n then Moved(hash, done, items, chains, i, 0)
                else Moved(hash, done, items, chains, n - 1, |chains[n - 1]|)
      invariant Built(hash, newBuckets, done, newChains, ideal, nonideal)
      invariant Waiting(buckets, chains, i)
    {
      WaitingFirst(buckets, chains, i);
      var thh := buckets[i].head;
      ghost var k := 0;
      while thh != null
        invariant k <= |chains[i]| && |newChains| == 2 * n && fresh(newBuckets)
        invariant Forward(thh, chains[i][k..]) && (thh == null <==> k == |chains[i]|)
        invariant Moved(hash, done, items, chains, i, k)
        invariant Built(hash, newBuckets, done, newChains, ideal, nonideal)
        invariant Waiting(buckets, chains, i + 1)
        decreases |chains[i]| - k
      {
        ghost var e := chains[i][k];
        thh, nonideal, newChains := MoveOne(hash, thh, buckets, newBuckets, log2 + 1, ideal, nonideal,
                                            items, chains, i, k, done, newChains);
        done := done + [e];
        k := k + 1;
      }
      i := i + 1;
      if i < n {
        MovedBucket(hash, done, items, chains, i - 1);
      }
    }
    AllBuilt(hash, newBuckets, done, items, chains, newChains, ideal, nonideal);
  }

  lemma Pow2Double(k: nat)
    ensures Pow2(k + 1) == 2 * Pow2(k)
  {
  }

  lemma {:induction false} CountsAreLengths<P, E>(bs: seq<Bucket<P>>, chains: seq<seq<E>>)
    requires |bs| == |chains| && forall c :: 0 <= c < |bs| ==> bs[c].count == |chains[c]|
    ensures Sum(CountOf<P>(), bs) == Sum(Length<E>(), chains)
  {
    if bs != [] {
      CountsAreLengths(bs[1..], chains[1..]);
    }
  }

  /** HASH_FSCK's item count: the bucket counters add up to the number of items. */
  lemma CountersHoldAll<V>(hash: Key -> nat, buckets: array<Bkt<V>>, items: seq<Entry<V>>, chains: seq<seq<Entry<V>>>)
    requires BucketsOk(buckets, chains) && Placed(EntryHash(hash), items, chains)
    ensures Sum(CountOf<Entry?<V>>(), buckets[..]) == |items|
  {
    CountsAreLengths(buckets[..], chains);
    ChainsHoldAll(EntryHash(hash), items, chains);
  }

  // ------------------------------------------------------------------ the table

  /** The counters of a table, and its expansions since it was made: whether each was ineffective. */
  datatype Counters = Counters(numBuckets: nat, idealChainMaxlen: nat, nonidealItems: nat,
                               ineffExpands: nat, noexpand: bool, expansions: seq<bool>)

  /** How many ineffective expansions there have been since the last effective one. */
  function LastIneffective(expansions: seq<bool>): nat {
    if expansions == [] || !expansions[|expansions| - 1] then 0
    else LastIneffective(expansions[..|expansions| - 1]) + 1
  }

  ghost predicate TwoInARow(expansions: seq<bool>) {
    exists k :: 0 <= k < |expansions| - 1 && expansions[k] && expansions[k + 1]
  }

  /** Expansion is given up exactly if two expansions in a row have been ineffective. */
  ghost predicate Historic(c: Counters) {
    && c.ineffExpands == LastIneffective(c.expansions) && (c.noexpand <==> TwoInARow(c.expansions))
    && c.numBuckets == Pow2(INITIAL_NUM_BUCKETS_LOG2 + |c.expansions|)
  }

  /** What an expansion of a table with n items makes of its counters, if afterwards that many items are
      beyond the ideal chain length. */
  ghost predicate Grown(was: Counters, now: Counters, n: nat, excess: nat) {
    && now.numBuckets == 2 * was.numBuckets
    && 1 <= now.idealChainMaxlen <= 10 && IsCeiling(now.idealChainMaxlen, n, now.numBuckets)
    && now.nonidealItems == excess && now.expansions == was.expansions + [excess > n / 2]
    && now.ineffExpands == (if excess > n / 2 then was.ineffExpands + 1 else 0)
    && (now.noexpand <==> was.noexpand || now.ineffExpands > 1)
  }

  lemma NewIsHistoric()
    ensures Historic(Counters(32, 0, 0, 0, false, []))
  {
    assert Pow2(5) == 32;
  }

  lemma GrownFrom(was: Counters, now: Counters, n: nat, excess: nat)
    requires now.numBuckets == 2 * was.numBuckets
    requires 1 <= now.idealChainMaxlen <= 10 && IsCeiling(now.idealChainMaxlen, n, now.numBuckets)
    requires now.nonidealItems == excess && now.expansions == was.expansions + [excess > n / 2]
    requires now.ineffExpands == if excess > n / 2 then was.ineffExpands + 1 else 0
    requires now.noexpand <==> was.noexpand || now.ineffExpands > 1
    ensures Grown(was, now, n, excess)
  {
  }

  lemma StillHistoric(was: Counters, now: Counters, n: nat, excess: nat)
    requires Historic(was) && !was.noexpand && Grown(was, now, n, excess)
    ensures Historic(now)
  {
    hide IsCeiling, Pow2;
    var before, after := was.expansions, now.expansions;
    assert after[..|after| - 1] == before;
    Pow2Double(INITIAL_NUM_BUCKETS_LOG2 + |before|);
    if TwoInARow(after) {
      var k :| 0 <= k < |after| - 1 && after[k] && after[k + 1];
      assert k == |before| - 1;
    }
    if excess > n / 2 && LastIneffective(before) > 0 {
      assert after[|before| - 1] && after[|before| - 1 + 1];
    }
  }

  class HashTable<V> {
    /** HASH_FCN. */
    const hash: Key -> nat
    var head: Node?<Entry<V>>
    // UT_hash_table; meaningful as long as head is not NULL
    var buckets: array<Bkt<V>>
    var numBuckets: nat
    var log2NumBuckets: nat
    var numItems: nat
    var tail: Node?<Entry<V>>
    var idealChainMaxlen: nat
    var nonidealItems: nat
    var ineffExpands: nat
    var noexpand: bool
    // the entries in application order, the list nodes of their handles, and the bucket chains
    ghost var items: seq<Entry<V>>
    ghost var order: seq<Node<Entry<V>>>
    ghost var chains: seq<seq<Entry<V>>>
    // the expansions since HASH_MAKE_TABLE: whether each was ineffective
    ghost var expansions: seq<bool>

    ghost function Counts(): Counters
      reads `numBuckets, `idealChainMaxlen, `nonidealItems, `ineffExpands, `noexpand, `expansions
    {
      Counters(numBuckets, idealChainMaxlen, nonidealItems, ineffExpands, noexpand, expansions)
    }

    /** Adding an entry with this key makes the table expand. */
    ghost predicate Due(key: Key)
      reads `buckets, `numBuckets, `noexpand, buckets
    {
      numBuckets > 0 && !noexpand &&
      var b := BucketNo(hash(key), numBuckets);
      b < buckets.Length && buckets[b].count + 1 >= 10 * (buckets[b].expandMult + 1)
    }

    ghost function Repr(): set<object>
      reads this
    {
      {this, buckets} + (set n | n in order) + (set e | e in items)
    }

    /** The list in application order, linked both ways, and its tail pointer. */
    ghost predicate ListOk()
      reads `head, `tail, `order, order
    {
      && Distinct(order) && NextLinked(order) && PrevLinked(order)
      && if order == [] then head == null
         else && head == order[0] && order[0].prev == null
              && tail == order[|order| - 1] && order[|order| - 1].next == null
    }

    ghost predicate AppOk()
      reads `head, `tail, `order, `items, order, items`app
    {
      Distinct(items) && Paired(items, order) && ListOk()
    }

    /** The bucket array holds exactly the entries listed, under the load bound while the table
        may still expand. */
    ghost predicate TableOk(listed: seq<Entry<V>>)
      reads `buckets, `chains, `numBuckets, `log2NumBuckets, `noexpand, buckets, listed`hashv,
            Members(chains)`hhNext, Members(chains)`hhPrev
    {
      && BucketsOk(buckets, chains) && Hashed(hash, listed, chains)
      && numBuckets == |chains| == Pow2(log2NumBuckets)
      && (!noexpand ==> LoadOk(buckets[..]))
    }

    /** Everything HASH_FSCK checks, and what it relies on. */
    ghost predicate Valid()
      reads this, buckets, order, items
    {
      AppOk() &&
      (items != [] ==> Contained(chains, items) && TableOk(items) && numItems == |items| && Historic(Counts()))
    }

    lemma TableContained(listed: seq<Entry<V>>)
      requires TableOk(listed)
      ensures Contained(chains, listed)
    {
      Tagged(EntryHash(hash), listed, chains);
    }

    /** As long as the table may expand there are at most 19 items a bucket, and no chain is longer
        than the length that makes its bucket ask for an expansion. */
    lemma LoadIsBounded()
      requires Valid() && items != [] && !noexpand
      ensures numItems <= 19 * numBuckets
      ensures forall b :: 0 <= b < |chains| ==> |chains[b]| == buckets[b].count <= 10 * (buckets[b].expandMult + 1)
    {
      hide Placed, Sum, Pow2;
      CountersHoldAll(hash, buckets, items, chains);
      LoadBound(buckets[..]);
      assert forall b :: 0 <= b < |chains| ==> ChainOk(buckets[b], chains[b]) && buckets[..][b] == buckets[b];
    }

    /** Whatever has been added to and deleted from the table since it was made, it has given up to
        expand exactly if two expansions in a row have been ineffective. */
    lemma NoexpandExactly()
      requires Valid() && items != []
      ensures noexpand <==> TwoInARow(expansions)
      ensures ineffExpands == LastIneffective(expansions) && numBuckets == Pow2(5 + |expansions|)
    {
    }

    constructor (hash: Key -> nat)
      ensures Valid() && items == [] && this.hash == hash && fresh(Repr())
    {
      this.hash := hash;
      head, tail := null, null;
      buckets := new Bkt<V>[0];
      numBuckets, log2NumBuckets, numItems := 0, 0, 0;
      idealChainMaxlen, nonidealItems, ineffExpands, noexpand := 0, 0, 0, false;
      items, order, chains, expansions := [], [], [], [];
    }

    /** The entry that is found for a key: the first one with it in its bucket's chain. */
    ghost function FirstOf(key: Key): Entry?<V>
      reads `items, `chains
    {
      if items == [] || chains == [] then null else FirstWith(chains[BucketNo(hash(key), |chains|)], key)
    }

    /** HASH_FIND. */
    method Find(key: Key) returns (out: Entry?<V>)
      requires Valid()
      ensures out == FirstOf(key)
      ensures out == null <==> forall e :: e in items ==> e.key != key
      ensures out != null ==> out in items && out.key == key
    {
      out := null;
      if head != null {
        var b := And(hash(key), numBuckets - 1);
        MaskIsRemainder(hash(key), log2NumBuckets);
        ghost var at;
        assert ChainOk(buckets[b], chains[b]);
        out, at := FindInBkt(buckets[b], key, chains[b]);
        FoundInChain(hash, items, chains, key, b, at);
      }
    }

    /** HASH_MAKE_TABLE. */
    method MakeTable()
      modifies `buckets, `numBuckets, `log2NumBuckets, `numItems, `idealChainMaxlen, `nonidealItems,
               `ineffExpands, `noexpand, `chains, `expansions
      ensures TableOk([]) && numItems == 0 && fresh(buckets)
      ensures numBuckets == 32 && idealChainMaxlen == nonidealItems == ineffExpands == 0
      ensures !noexpand && expansions == []
    {
      hide Placed, Sum, Pow2, LoadOk, Built, BucketsOk, Hashed, TableOk;
      numItems, idealChainMaxlen, nonidealItems, ineffExpands, noexpand := 0, 0, 0, 0, false;
      numBuckets := INITIAL_NUM_BUCKETS;
      log2NumBuckets := INITIAL_NUM_BUCKETS_LOG2;
      expansions := [];
      buckets, chains := EmptyBuckets(hash, INITIAL_NUM_BUCKETS, 1);
      NewTableOk();
    }

    lemma NewTableOk()
      requires numBuckets == |chains| == INITIAL_NUM_BUCKETS && log2NumBuckets == INITIAL_NUM_BUCKETS_LOG2
      requires Built(hash, buckets, [], chains, 1, 0)
      requires forall c :: 0 <= c < |chains| && c < buckets.Length ==> buckets[c] == Bucket(null, 0, 0)
      ensures TableOk([])
    {
      assert Pow2(5) == 32;
      LoadInitial(buckets[..]);
    }

    lemma TableOkFrom(listed: seq<Entry<V>>)
      requires 0 < idealChainMaxlen <= 10 && IsCeiling(idealChainMaxlen, |listed|, numBuckets)
      requires Built(hash, buckets, listed, chains, idealChainMaxlen, nonidealItems)
      requires Hashed(hash, listed, chains) && numBuckets == |chains| == Pow2(log2NumBuckets)
      ensures TableOk(listed) && LoadOk(buckets[..])
      ensures nonidealItems == Sum(Excess<Entry?<V>>(idealChainMaxlen), buckets[..])
    {
      hide Placed, Pow2;
      CountersHoldAll(hash, buckets, listed, chains);
      LoadExpanded(buckets[..], idealChainMaxlen);
    }

    /** The end of HASH_EXPAND_BUCKETS. */
    method JudgeExpansion(ghost listed: seq<Entry<V>>)
      requires TableOk(listed) && LoadOk(buckets[..])
      modifies `ineffExpands, `noexpand, `expansions
      ensures TableOk(listed) && LoadOk(buckets[..])
      ensures expansions == old(expansions) + [nonidealItems > numItems / 2]
      ensures ineffExpands == if nonidealItems > numItems / 2 then old(ineffExpands) + 1 else 0
      ensures noexpand <==> old(noexpand) || ineffExpands > 1
    {
      hide Placed, Sum, Pow2, LoadOk, ShiftRight, Distinct;
      ShiftOnce(numItems);
      expansions := expansions + [nonidealItems > numItems / 2];
      ineffExpands := if nonidealItems > ShiftRight(numItems, 1) then ineffExpands + 1 else 0;
      if ineffExpands > 1 {
        noexpand := true;
      }
    }

    /** HASH_EXPAND_BUCKETS. The bound on the number of items is what HASH_ADD_TO_BKT leaves it. */
    method Expand(ghost listed: seq<Entry<V>>)
      requires BucketsOk(buckets, chains) && Hashed(hash, listed, chains) && Distinct(listed)
      requires numBuckets == |chains| == Pow2(log2NumBuckets)
      requires 0 < numItems == |listed| <= 19 * numBuckets + 1
      modifies `buckets, `numBuckets, `log2NumBuckets, `idealChainMaxlen, `nonidealItems,
               `ineffExpands, `noexpand, `chains, `expansions, listed`hhNext, listed`hhPrev
      ensures TableOk(listed) && LoadOk(buckets[..]) && fresh(buckets)
      ensures numBuckets == 2 * old(numBuckets)
      ensures 1 <= idealChainMaxlen <= 10
      ensures IsCeiling(idealChainMaxlen, numItems, numBuckets)
      ensures nonidealItems == Sum(Excess<Entry?<V>>(idealChainMaxlen), buckets[..])
      ensures ineffExpands == if nonidealItems > numItems / 2 then old(ineffExpands) + 1 else 0
      ensures noexpand <==> old(noexpand) || ineffExpands > 1
      ensures expansions == old(expansions) + [nonidealItems > numItems / 2]
    {
      hide *;
      Pow2Double(log2NumBuckets);
      idealChainMaxlen := IdealChain(numItems, log2NumBuckets + 1);
      IdealRange(numItems, log2NumBuckets);
      IdealChainIsCeiling(numItems, log2NumBuckets + 1);
      var newBuckets, nonideal;
      ghost var newChains;
      newBuckets, nonideal, newChains := Redistribute(hash, buckets, log2NumBuckets, idealChainMaxlen, listed, chains);
      nonidealItems := nonideal;
      numBuckets := numBuckets * 2;
      log2NumBuckets := log2NumBuckets + 1;
      buckets, chains := newBuckets, newChains;
      TableOkFrom(listed);
      JudgeExpansion(listed);
    }

    /** HASH_ADD_TO_BKT: an expansion follows once the bucket has reached its threshold. */
    method AddToBkt(e: Entry<V>, ghost listed: seq<Entry<V>>)
      requires TableOk(listed) && Distinct(listed + [e]) && Distinct(listed) && e !in listed
      requires e.hashv == hash(e.key) && numItems == |listed| + 1
      modifies `buckets, `numBuckets, `log2NumBuckets, `idealChainMaxlen, `nonidealItems,
               `ineffExpands, `noexpand, `chains, `expansions, buckets,
               e`hhNext, e`hhPrev, listed`hhNext, listed`hhPrev
      ensures TableOk(listed + [e])
      ensures buckets == old(buckets) || fresh(buckets)
      ensures if old(Due(e.key)) then
          && fresh(buckets) && numBuckets == 2 * old(numBuckets)
          && Grown(old(Counts()), Counts(), numItems, Sum(Excess<Entry?<V>>(idealChainMaxlen), buckets[..]))
        else
          var b := BucketNo(hash(e.key), old(numBuckets));
          Counts() == old(Counts()) && chains == old(chains)[b := [e] + old(chains)[b]]
    {
      hide Placed, Sum, Pow2, And, LoadOk, ChainOk;
      var b := And(e.hashv, numBuckets - 1);
      MaskIsRemainder(e.hashv, log2NumBuckets);
      MaskInRange(hash, e, b, numBuckets, buckets, chains);
      CountersHoldAll(hash, buckets, listed, chains);
      if !noexpand {
        LoadBound(buckets[..]);
      }
      ghost var before := buckets[..];
      var bkt: Bkt<V> := buckets[b];
      var grown: Bkt<V> := bkt.(count := bkt.count + 1);
      chains := AddToChain(hash, buckets, e, b, grown, listed, chains);
      if grown.count >= Threshold(grown) && !noexpand {
        ghost var was := Counts();
        Expand(listed + [e]);
        GrownFrom(was, Counts(), numItems, Sum(Excess<Entry?<V>>(idealChainMaxlen), buckets[..]));
      } else if !noexpand {
        LoadChange(before, b, grown.(head := e));
      }
    }

    /** Appending the node of a new handle. */
    method LinkLast(node: Node<Entry<V>>)
      requires ListOk() && node !in order && node.next == null
      modifies `head, `tail, `order, order`next, node`prev
      ensures ListOk() && order == old(order) + [node]
    {
      if head == null {
        head := node;
        node.prev := null;
        tail := node;
      } else {
        tail.next := node;
        node.prev := tail;
        tail := node;
      }
      order := order + [node];
    }

    /** The application-order part of HASH_ADD_KEYPTR. */
    method AppendApp(e: Entry<V>)
      requires AppOk() && e !in items
      modifies `head, `tail, `items, `order, order, e`app
      ensures AppOk() && items == old(items) + [e]
      ensures |order| == old(|order|) + 1 && order[..old(|order|)] == old(order) && fresh(order[old(|order|)])
    {
      hide NextLinked, PrevLinked;
      var node := new Node(e);
      e.app := node;
      PairedSnoc(items, order, e, node);
      LinkLast(node);
      items := items + [e];
    }

    /** With less than nine entries no bucket is near its threshold. */
    lemma FewEntries(listed: seq<Entry<V>>, b: nat)
      requires TableOk(listed) && b < |chains|
      ensures |listed| < 9 ==> b < buckets.Length && buckets[b].count + 1 < Threshold(buckets[b])
    {
      hide Placed, Pow2, LoadOk, Sum;
      CountersHoldAll(hash, buckets, listed, chains);
      SumAtLeast(CountOf<Entry?<V>>(), buckets[..], b);
    }

    /** The rest of HASH_ADD_KEYPTR; the first entry brings a new table. */
    method InsertIntoTable(e: Entry<V>, first: bool, ghost listed: seq<Entry<V>>)
      requires if first then listed == [] else TableOk(listed) && numItems == |listed|
      requires Distinct(listed + [e]) && Distinct(listed) && e !in listed && (first || Historic(Counts()))
      modifies `buckets, `numBuckets, `log2NumBuckets, `numItems, `idealChainMaxlen, `nonidealItems,
               `ineffExpands, `noexpand, `chains, `expansions, buckets, e`hashv, e`hhNext, e`hhPrev,
               listed`hhNext, listed`hhPrev
      ensures TableOk(listed + [e]) && numItems == |listed| + 1 && Historic(Counts())
      ensures buckets == old(buckets) || fresh(buckets)
      ensures if first then Counts() == Counters(32, 0, 0, 0, false, [])
        else if old(Due(e.key)) then
          Grown(old(Counts()), Counts(), numItems, Sum(Excess<Entry?<V>>(idealChainMaxlen), buckets[..]))
        else Counts() == old(Counts())
      ensures first || numBuckets == old(numBuckets) ==>
        chains != [] && FirstWith(chains[BucketNo(hash(e.key), |chains|)], e.key) == e
      ensures |listed| < 9 ==> first || numBuckets == old(numBuckets)
    {
      hide Placed, Sum, LoadOk, ChainOk, Pow2, Hashed, Historic, Grown;
      if first {
        MakeTable();
        NewIsHistoric();
      }
      numItems := numItems + 1;
      e.hashv := hash(e.key);
      FewEntries(listed, BucketNo(hash(e.key), |chains|));
      ghost var was, due := Counts(), Due(e.key);
      AddToBkt(e, listed);
      if due {
        StillHistoric(was, Counts(), numItems, Sum(Excess<Entry?<V>>(idealChainMaxlen), buckets[..]));
      }
    }

    /** What HASH_ADD_KEYPTR does to the list and to the table. */
    method AddBoth(e: Entry<V>)
      requires Valid() && e !in items
      modifies Repr(), e
      ensures Valid() && items == old(items) + [e]
      ensures buckets == old(buckets) || fresh(buckets)
      ensures |order| == old(|order|) + 1 && order[..old(|order|)] == old(order) && fresh(order[old(|order|)])
      ensures old(items) == [] || numBuckets == old(numBuckets) ==> FirstOf(e.key) == e
      ensures if old(items) == [] then Counts() == Counters(32, 0, 0, 0, false, [])
        else if old(Due(e.key)) then
          Grown(old(Counts()), Counts(), |items|, Sum(Excess<Entry?<V>>(idealChainMaxlen), buckets[..]))
        else Counts() == old(Counts())
      ensures old(|items|) < 9 ==> old(items) == [] || numBuckets == old(numBuckets)
    {
      hide Placed, Sum, LoadOk, Hashed, Pow2, NextLinked, PrevLinked, Distinct, Paired, FirstWith;
      hide Historic, Grown, Valid, ChainOk, BucketNo;
      ghost var listed := items;
      var first := head == null;
      Parts();
      AppDistinct();
      AppendApp(e);
      AppDistinct();
      InsertIntoTable(e, first, listed);
      Whole();
    }

    lemma Parts()
      requires Valid()
      ensures AppOk() && (items != [] ==> TableOk(items) && numItems == |items| && Historic(Counts()))
    {
    }

    lemma Whole()
      requires AppOk() && TableOk(items) && numItems == |items| && Historic(Counts())
      ensures Valid()
    {
      TableContained(items);
    }

    /** HASH_ADD_KEYPTR. */
    method Add(e: Entry<V>)
      requires Valid() && e !in items
      modifies Repr(), e
      ensures Valid() && items == old(items) + [e]
      ensures buckets == old(buckets) || fresh(buckets)
      ensures |order| == old(|order|) + 1 && order[..old(|order|)] == old(order) && fresh(order[old(|order|)])
      ensures fresh(Repr() - old(Repr()) - {e})
      ensures old(items) == [] || numBuckets == old(numBuckets) ==> FirstOf(e.key) == e
      ensures if old(items) == [] then Counts() == Counters(32, 0, 0, 0, false, [])
        else if old(Due(e.key)) then
          Grown(old(Counts()), Counts(), |items|, Sum(Excess<Entry?<V>>(idealChainMaxlen), buckets[..]))
        else Counts() == old(Counts())
      ensures old(|items|) < 9 ==> old(items) == [] || numBuckets == old(numBuckets)
    {
      hide Valid, Grown;
      AddBoth(e);
      assert order == order[..old(|order|)] + [order[old(|order|)]];
    }

    lemma AppDistinct()
      requires AppOk()
      ensures Distinct(items) && (head == null <==> items == [])
    {
    }

    /** The application-order part of HASH_DELETE, for a table that keeps other entries. */
    method Unlink(node: Node<Entry<V>>, ghost at: nat)
      requires ListOk() && |order| > 1 && at < |order| && order[at] == node
      modifies `head, `tail, `order, order
      ensures ListOk() && order == Without(old(order), at)
    {
      if node == tail {
        tail := node.prev;
      }
      if node.prev != null {
        node.prev.next := node.next;
      } else {
        head := node.next;
      }
      if node.next != null {
        node.next.prev := node.prev;
      }
      Bypassed(order, at);
      DistinctWithout(order, at);
      order := Without(order, at);
    }

    method UnlinkApp(e: Entry<V>, ghost at: nat)
      requires AppOk() && |items| > 1 && at < |items| && items[at] == e
      modifies `head, `tail, `items, `order, order
      ensures AppOk() && items == Without(old(items), at) && order == Without(old(order), at)
    {
      DistinctWithout(items, at);
      PairedWithout(items, order, at);
      assert items[at].app == order[at];
      Unlink(e.app, at);
      items := Without(items, at);
    }

    /** The bucket part of HASH_DELETE. */
    method RemoveFromTable(e: Entry<V>, ghost listed: seq<Entry<V>>, ghost at: nat)
      requires TableOk(listed) && numItems == |listed| && Distinct(listed)
      requires at < |listed| && listed[at] == e
      modifies `numItems, `chains, buckets, listed`hhNext, listed`hhPrev
      ensures TableOk(Without(listed, at)) && numItems == |listed| - 1
    {
      hide Sum, Pow2, And, LoadOk, Forward, Backward, Placed, BucketNo;
      var b := And(e.hashv, numBuckets - 1);
      assert listed[at].hashv == hash(e.key);
      MaskIsRemainder(e.hashv, log2NumBuckets);
      MaskInRange(hash, e, b, numBuckets, buckets, chains);
      Tagged(EntryHash(hash), listed, chains);
      ChainDistinct(EntryHash(hash), listed, chains, b);
      PlacedMember(EntryHash(hash), listed, chains, b, e);
      ghost var k :| 0 <= k < |chains[b]| && chains[b][k] == e;
      PlacedRemove(EntryHash(hash), listed, chains, at, k);
      ghost var before := buckets[..];
      assert ChainOk(buckets[b], chains[b]);
      buckets[b] := DelInBkt(buckets[b], e, chains[b], k);
      if !noexpand {
        LoadChange(before, b, buckets[b]);
      }
      chains := chains[b := Without(chains[b], k)];
      numItems := numItems - 1;
    }

    /** HASH_DELETE of the last entry. */
    method DropTable()
      requires Valid() && |items| == 1
      modifies `head, `items, `order
      ensures Valid() && items == [] && order == []
    {
      hide TableOk;
      head := null;
      items, order := [], [];
      EmptyApp();
    }

    /** HASH_DELETE of an entry that is not the last one. */
    method DeleteOther(e: Entry<V>, ghost at: nat)
      requires Valid() && |items| > 1 && at < |items| && items[at] == e
      modifies `head, `tail, `items, `order, order, `numItems, `chains, buckets, items`hhNext, items`hhPrev
      ensures Valid() && items == Without(old(items), at) && order == Without(old(order), at)
    {
      hide Placed, Sum, LoadOk, Hashed, Pow2, NextLinked, PrevLinked, Distinct, BucketNo;
      ghost var listed := items;
      AppDistinct();
      UnlinkApp(e, at);
      RemoveFromTable(e, listed, at);
      TableContained(items);
    }

    /** HASH_DELETE; the table goes with its last entry. */
    method Delete(e: Entry<V>, ghost at: nat)
      requires Valid() && at < |items| && items[at] == e
      modifies Repr()
      ensures Valid() && items == Without(old(items), at)
      ensures buckets == old(buckets) && order == Without(old(order), at)
      ensures Counts() == old(Counts())
      ensures Repr() <= old(Repr())
    {
      hide TableOk, ListOk, Distinct, Paired;
      OnlyEntry(at);
      AppDistinct();
      if e.app.prev == null && e.app.next == null {
        DropTable();
      } else {
        DeleteOther(e, at);
      }
    }

    lemma OnlyEntry(at: nat)
      requires AppOk() && at < |items|
      ensures at < |order| && items[at].app == order[at]
      ensures order[at].prev == null && order[at].next == null <==> |items| == 1
      ensures |items| == 1 ==> Without(items, at) == [] && Without(order, at) == []
    {
    }

    lemma EmptyApp()
      requires head == null && items == [] && order == []
      ensures AppOk()
    {
    }

    lemma AppOutput(dom: set<Node<Entry<V>>>)
      requires AppOk() && head != null && dom == set n | n in order
      ensures order != [] && tail != null && tail.next == null
      ensures Output(head, tail, order, true) && Apart([], [], order, dom)
      ensures items == Map(Data<Entry<V>>(), order) && forall n | n in dom :: n.data.app == n
    {
      ApartDistinct(order, dom);
    }

    /** The list in its new order. */
    lemma AppSorted(s: seq<Node<Entry<V>>>, dom: set<Node<Entry<V>>>)
      requires order != [] && tail != null && tail.next == null && items == Map(Data<Entry<V>>(), order)
      requires Output(head, tail, order, true) && Apart([], [], order, dom)
      requires forall n | n in dom :: n.data.app == n
      ensures AppOk()
    {
      ApartDistinct(order, dom);
      assert forall k {:trigger items[k].app} :: 0 <= k < |items| ==> order[k] in dom && items[k] == order[k].data;
    }

    /** The application-order list after HASH_SRT's loops. */
    method SortApp(cmp: (Entry<V>, Entry<V>) -> int)
      returns (ghost passes: nat, ghost comparisons: nat)
      requires AppOk() && head != null
      modifies `head, `tail, `items, `order, order
      ensures AppOk() && SortResult(cmp, old(order), order, passes, comparisons)
      ensures items == Map(Data<Entry<V>>(), order)
    {
      hide *;
      ghost var s, t, dom := order, order, set n | n in order;
      AppOutput(dom);
      head, tail, t, passes, comparisons := SortHandles(head, tail, cmp, s, dom);
      order, items := t, Map(Data<Entry<V>>(), t);
      AppSorted(s, dom);
    }

    /** HASH_SRT: no bucket is touched. */
    method Sort(cmp: (Entry<V>, Entry<V>) -> int)
      returns (ghost passes: nat, ghost comparisons: nat)
      requires Valid()
      modifies `head, `tail, `items, `order, order
      ensures Valid() && SortResult(cmp, old(order), order, passes, comparisons)
      ensures multiset(items) == multiset(old(items))
    {
      hide Placed, Sum, LoadOk, ChainOk, Hashed, Pow2, NextLinked, PrevLinked, Distinct, Paired, Map;
      hide MergeSort.Sort, SortCost, Passes;
      passes, comparisons := 0, 0;
      AppDistinct();
      if head == null {
        EmptySort(By(cmp));
      } else {
        ghost var s, listed := order, items;
        AppData();
        passes, comparisons := SortApp(cmp);
        SortElements(By(cmp), s, 1);
        MapPermuted(Data<Entry<V>>(), s, order);
        TablePermuted(listed);
        TableContained(items);
      }
    }

    lemma AppData()
      requires AppOk()
      ensures items == Map(Data<Entry<V>>(), order)
    {
    }

    lemma TablePermuted(listed: seq<Entry<V>>)
      requires TableOk(listed) && multiset(listed) == multiset(items)
      ensures TableOk(items)
    {
      PlacedPermuted(EntryHash(hash), listed, items, chains);
      SameElements(listed, items);
      forall k {:trigger items[k].hashv} | 0 <= k < |items|
        ensures items[k].hashv == hash(items[k].key)
      {
        assert items[k] in items && items[k] in listed;
        var j :| 0 <= j < |listed| && listed[j] == items[k];
        assert listed[j].hashv == hash(listed[j].key);
      }
    }
  }

  /** The loops of HASH_SRT: the sort of UtList with a list end of its own. */
  method SortHandles<T>(head: Node<T>, tail: Node<T>, cmp: (T, T) -> int,
                        ghost s: seq<Node<T>>, ghost dom: set<Node<T>>)
    returns (list: Node<T>, last: Node<T>, ghost t: seq<Node<T>>, ghost passes: nat, ghost comparisons: nat)
    requires s != [] && Output(head, tail, s, true) && tail.next == null && Apart([], [], s, dom)
    modifies dom
    ensures t != [] && Output(list, last, t, true) && last.next == null && Apart([], [], t, dom)
    ensures SortResult(cmp, s, t, passes, comparisons)
  {
    hide *;
    list, last, t, passes, comparisons := head, tail, s, 0, 0;
    var insize, looping := 1, true;
    StartState(cmp, s);
    while looping
      invariant insize > 0 && t != [] && Apart([], [], t, dom)
      invariant Output(list, last, t, true) && last.next == null
      invariant SortState(cmp, s, t, insize, !looping, passes, comparisons)
      decreases looping, |s| - insize
    {
      var nmerges: nat;
      ghost var made: nat;
      SortStep(cmp, s, t, insize, passes, comparisons);
      SortLength(cmp, s, t, insize, !looping, passes, comparisons);
      NextInput(list, last, t, dom);
      list, last, nmerges, t, made := MergePass(list, null, insize, true, cmp, t, dom);
      passes, comparisons := passes + 1, comparisons + made;
      NonEmptyOutput(list, last, t, true);
      InDom([], [], t, dom);
      EndList(list, last, t, dom);
      if nmerges <= 1 {
        looping := false;
      }
      insize := insize * 2;
    }
    FinalState(cmp, s, t, insize, passes, comparisons);
  }

  ghost function Data<T>(): Node<T> -> T { (n: Node<T>) => n.data }

  lemma ShiftOnce(n: nat)
    ensures ShiftRight(n, 1) == n / 2
  {
  }

  lemma FoundInChain<V>(hash: Key -> nat, items: seq<Entry<V>>, chains: seq<seq<Entry<V>>>, key: Key, b: nat, at: nat)
    requires Placed(EntryHash(hash), items, chains) && b == BucketNo(hash(key), |chains|) && at <= |chains[b]|
    requires forall k :: 0 <= k < at ==> chains[b][k].key != key
    requires at < |chains[b]| ==> chains[b][at].key == key
    ensures at == |chains[b]| <==> forall e | e in items :: e.key != key
    ensures at < |chains[b]| ==> chains[b][at] in items
  {
    Tagged(EntryHash(hash), items, chains);
    if at == |chains[b]| {
      forall e | e in items
        ensures e.key != key
      {
        PlacedMember(EntryHash(hash), items, chains, b, e);
      }
    }
  }
}
