/** The store of user sessions: src/srv_resource.c and the expiry sweep of src/timeout_thread.c.
    A hash table finds a session by its identifier; a list keeps the sessions in the order of
    their last use. */
module SessionStore {
  import opened Sequences
  import opened UtList
  import opened HashSpec
  import UtHash
  import opened Quota

  type Sid = string
  type SessionNode = Node<UserSession>
  /** UserSessionHM: the key is the sid, the value the list node. */
  type SessionEntry = UtHash.Entry<SessionNode>

  // ------------------------------------------------------------------ expiry

  const ULONG := 0x1_0000_0000_0000_0000
  const TIME_MAX := 0x7FFF_FFFF_FFFF_FFFF

  /** The test of the sweep. The timeout is an unsigned long, so the subtraction wraps around and
      the comparison is unsigned. */
  predicate Expired(last: nat, now: nat, timeout: nat) {
    last < (now - timeout) % ULONG
  }

  /** The test means what it should exactly if the timeout is not longer than the clock reading,
      or the wrapped difference happens to be no later than the session's last use. */
  lemma ExpiredMeaning(last: nat, now: nat, timeout: nat)
    requires last <= TIME_MAX && now <= TIME_MAX && timeout < ULONG
    ensures (Expired(last, now, timeout) <==> last + timeout < now)
      <==> timeout <= now || now + ULONG - timeout <= last
  {
    if timeout <= now {
      assert (now - timeout) % ULONG == now - timeout;
    } else {
      assert (now - timeout) % ULONG == now - timeout + ULONG;
    }
  }

  /** A configured timeout of -1, stored as the largest unsigned long, sweeps every session at every
      clock reading, those used in the same second included. */
  lemma SweptTooEarly(last: nat, now: nat)
    requires last <= now <= TIME_MAX
    ensures Expired(last, now, ULONG - 1) && !(last + (ULONG - 1) < now)
  {
    assert (now - (ULONG - 1)) % ULONG == now + 1;
  }

  // ------------------------------------------------------------------ hash table and list together

  ghost function ValueOf(): SessionEntry -> SessionNode { (e: SessionEntry) => e.value }

  /** Entries and list nodes correspond one to one, with equal identifiers. */
  ghost predicate Matching(items: seq<SessionEntry>, nodes: seq<SessionNode>) {
    && multiset(Map(ValueOf(), items)) == multiset(nodes)
    && forall k :: 0 <= k < |items| ==> items[k].key == items[k].value.data.sid
  }

  ghost predicate DistinctSids(nodes: seq<SessionNode>) {
    forall i, j :: 0 <= i < j < |nodes| ==> nodes[i].data.sid != nodes[j].data.sid
  }

  /** No other node of the list has this one's identifier. */
  ghost predicate UniqueSid(nodes: seq<SessionNode>, n: SessionNode) {
    forall m | m in nodes :: m.data.sid == n.data.sid ==> m == n
  }

  /** The identifiers of the nodes chosen are unique in the list. */
  ghost predicate AllUnique(nodes: seq<SessionNode>, chosen: seq<bool>)
    requires |chosen| == |nodes|
  {
    forall k :: 0 <= k < |nodes| && chosen[k] ==> UniqueSid(nodes, nodes[k])
  }

  ghost predicate HasSid(nodes: seq<SessionNode>, sid: Sid) {
    exists k :: 0 <= k < |nodes| && nodes[k].data.sid == sid
  }

  /** The position of a node. */
  ghost function PositionOf(nodes: seq<SessionNode>, n: SessionNode): (k: nat)
    requires n in nodes
    ensures k < |nodes| && nodes[k] == n
  {
    var k :| 0 <= k < |nodes| && nodes[k] == n; k
  }

  lemma MatchingValue(items: seq<SessionEntry>, nodes: seq<SessionNode>, k: nat)
    requires Matching(items, nodes) && k < |items|
    ensures items[k].value in nodes && items[k].value.data.sid == items[k].key
  {
    var values := Map(ValueOf(), items);
    assert values[k] in multiset(values);
  }

  lemma MatchingNode(items: seq<SessionEntry>, nodes: seq<SessionNode>, k: nat)
    requires Matching(items, nodes) && k < |nodes|
    ensures exists i :: 0 <= i < |items| && items[i].value == nodes[k]
  {
    var values := Map(ValueOf(), items);
    assert nodes[k] in multiset(nodes);
    assert nodes[k] in values;
    var i :| 0 <= i < |values| && values[i] == nodes[k];
  }

  /** Looking the identifier up in the table is searching the list for it. */
  lemma LookupIsSearch(items: seq<SessionEntry>, nodes: seq<SessionNode>, sid: Sid)
    requires Matching(items, nodes)
    ensures (forall e | e in items :: e.key != sid) <==> !HasSid(nodes, sid)
  {
    if HasSid(nodes, sid) {
      var k :| 0 <= k < |nodes| && nodes[k].data.sid == sid;
      MatchingNode(items, nodes, k);
      var i :| 0 <= i < |items| && items[i].value == nodes[k];
      assert items[i] in items && items[i].key == sid;
    }
    if e :| e in items && e.key == sid {
      var i :| 0 <= i < |items| && items[i] == e;
      MatchingValue(items, nodes, i);
      var k := PositionOf(nodes, e.value);
      assert nodes[k].data.sid == sid;
    }
  }

  lemma MatchingSize(items: seq<SessionEntry>, nodes: seq<SessionNode>)
    requires Matching(items, nodes)
    ensures |items| == |nodes|
  {
    assert |multiset(Map(ValueOf(), items))| == |items| && |multiset(nodes)| == |nodes|;
  }

  lemma MatchingAdd(items: seq<SessionEntry>, nodes: seq<SessionNode>, e: SessionEntry)
    requires Matching(items, nodes) && e.key == e.value.data.sid
    ensures Matching(items + [e], nodes + [e.value])
  {
    assert Map(ValueOf(), items + [e]) == Map(ValueOf(), items) + [e.value];
  }

  lemma MatchingRemove(items: seq<SessionEntry>, nodes: seq<SessionNode>, i: nat, k: nat)
    requires Matching(items, nodes) && i < |items| && k < |nodes| && items[i].value == nodes[k]
    ensures Matching(Without(items, i), Without(nodes, k))
  {
    MapWithout(ValueOf(), items, i);
    WithoutElements(nodes, k);
    MultisetCancel(multiset(Map(ValueOf(), Without(items, i))), multiset(Without(nodes, k)), nodes[k]);
  }

  lemma MatchingMoved(items: seq<SessionEntry>, nodes: seq<SessionNode>, k: nat)
    requires Matching(items, nodes) && k < |nodes|
    ensures Matching(items, Without(nodes, k) + [nodes[k]])
  {
    WithoutElements(nodes, k);
  }

  ghost function Sessions(nodes: seq<SessionNode>): set<UserSession> {
    set n | n in nodes :: n.data
  }

  /** The sessions are listed by the time of their last use, none of which is later than clock. */
  ghost predicate Recent(nodes: seq<SessionNode>, clock: nat)
    reads Sessions(nodes)`lastUpdateTime
  {
    forall i {:trigger nodes[i].data} :: 0 <= i < |nodes| ==>
      && nodes[i].data.lastUpdateTime <= clock
      && forall j {:trigger nodes[j].data} :: i < j < |nodes| ==>
        nodes[i].data.lastUpdateTime <= nodes[j].data.lastUpdateTime
  }

  lemma RecentWithout(nodes: seq<SessionNode>, k: nat, clock: nat)
    requires Recent(nodes, clock) && k < |nodes|
    ensures Recent(Without(nodes, k), clock)
  {
  }

  /** Without one of its sessions the list is still in order, and that session is not in it. */
  lemma OthersAre(nodes: seq<SessionNode>, k: nat, clock: nat)
    requires DistinctSids(nodes) && Recent(nodes, clock) && k < |nodes|
    ensures var rest := Without(nodes, k);
      && Recent(rest, clock) && DistinctSids(rest)
      && !HasSid(rest, nodes[k].data.sid) && nodes[k].data !in Sessions(rest)
  {
    hide Recent, DistinctSids;
    RecentWithout(nodes, k, clock);
    DistinctSidsWithout(nodes, k);
  }

  lemma RecentAppend(nodes: seq<SessionNode>, n: SessionNode, clock: nat)
    requires Recent(nodes, clock) && clock <= n.data.lastUpdateTime
    ensures Recent(nodes + [n], n.data.lastUpdateTime)
  {
  }

  lemma DistinctSidsWithout(nodes: seq<SessionNode>, k: nat)
    requires DistinctSids(nodes) && k < |nodes|
    ensures DistinctSids(Without(nodes, k))
    ensures forall i :: 0 <= i < |Without(nodes, k)| ==> Without(nodes, k)[i].data.sid != nodes[k].data.sid
  {
  }

  lemma DistinctSidsAppend(nodes: seq<SessionNode>, n: SessionNode)
    requires DistinctSids(nodes)
    ensures DistinctSids(nodes + [n]) <==> !HasSid(nodes, n.data.sid)
  {
    var longer := nodes + [n];
    if HasSid(nodes, n.data.sid) {
      var k :| 0 <= k < |nodes| && nodes[k].data.sid == n.data.sid;
      assert longer[k] == nodes[k] && longer[|nodes|] == n;
    }
  }

  /** Which sessions a sweep finds expired. */
  ghost function Gone(nodes: seq<SessionNode>, now: nat, timeout: nat): (gone: seq<bool>)
    reads Sessions(nodes)`lastUpdateTime
    ensures |gone| == |nodes|
    ensures forall k :: 0 <= k < |nodes| ==> gone[k] == Expired(nodes[k].data.lastUpdateTime, now, timeout)
  {
    if nodes == [] then []
    else
      var m := |nodes| - 1;
      assert nodes[m] in nodes;
      Gone(nodes[..m], now, timeout) + [Expired(nodes[m].data.lastUpdateTime, now, timeout)]
  }

  /** The nodes that are left. */
  ghost function Kept(nodes: seq<SessionNode>, gone: seq<bool>): (kept: seq<SessionNode>)
    requires |gone| == |nodes|
    ensures |kept| <= |nodes|
  {
    if nodes == [] then []
    else
      var m := |nodes| - 1;
      Kept(nodes[..m], gone[..m]) + if gone[m] then [] else [nodes[m]]
  }

  lemma {:induction false} KeptSuffix(nodes: seq<SessionNode>, gone: seq<bool>)
    requires |gone| == |nodes| && forall i, j :: 0 <= i < j < |nodes| ==> gone[j] ==> gone[i]
    ensures var k := |nodes| - |Kept(nodes, gone)|;
      Kept(nodes, gone) == nodes[k..] && forall i :: 0 <= i < |nodes| ==> (gone[i] <==> i < k)
  {
    if nodes != [] {
      var m := |nodes| - 1;
      var rest := gone[..m];
      assert forall i :: 0 <= i < m ==> rest[i] == gone[i];
      KeptSuffix(nodes[..m], rest);
      var k := m - |Kept(nodes[..m], rest)|;
      if !gone[m] {
        assert nodes[k..] == nodes[..m][k..] + [nodes[m]];
      }
    }
  }

  /** In a list ordered by last use the expired sessions are exactly the first ones, and a sweep
      leaves the rest as it is. */
  lemma ExpiredFirst(nodes: seq<SessionNode>, clock: nat, now: nat, timeout: nat)
    requires Recent(nodes, clock)
    ensures var gone := Gone(nodes, now, timeout);
      var k := |nodes| - |Kept(nodes, gone)|;
      Kept(nodes, gone) == nodes[k..] && forall i :: 0 <= i < |nodes| ==> (gone[i] <==> i < k)
  {
    var gone := Gone(nodes, now, timeout);
    forall i, j | 0 <= i < j < |nodes|
      ensures gone[j] ==> gone[i]
    {
      assert nodes[i].data.lastUpdateTime <= nodes[j].data.lastUpdateTime;
    }
    KeptSuffix(nodes, gone);
  }

  // ------------------------------------------------------------------ the walk of a sweep

  ghost function OrderOf(nodes: seq<SessionNode>): (order: seq<UserSession>)
    ensures |order| == |nodes| && forall k :: 0 <= k < |nodes| ==> order[k] == nodes[k].data
  {
    seq(|nodes|, k requires 0 <= k < |nodes| => nodes[k].data)
  }

  /** The sessions that have expired. */
  ghost function Dead(nodes: seq<SessionNode>, now: nat, timeout: nat): set<UserSession>
    reads Sessions(nodes)`lastUpdateTime
  {
    set n | n in nodes && Expired(n.data.lastUpdateTime, now, timeout) :: n.data
  }

  /** The session at the walk's position stays, or the one at position at is deleted. */
  datatype Step = Keep | Drop(at: nat)

  /** The sessions left after these steps, and the position that the walk has come to. */
  ghost function Walked(order: seq<UserSession>, steps: seq<Step>): (seq<UserSession>, nat) {
    if steps == [] then (order, 0)
    else
      var (s, i) := Walked(order, steps[..|steps| - 1]);
      match steps[|steps| - 1]
      case Drop(at) => if at < |s| then (Without(s, at), if at <= i then i else i + 1) else (s, i + 1)
      case Keep => (s, i + 1)
  }

  /** The last step has deleted the session that the walk was to visit next. */
  ghost predicate Dangles(order: seq<UserSession>, steps: seq<Step>) {
    steps != [] &&
    var (s, i) := Walked(order, steps[..|steps| - 1]);
    steps[|steps| - 1] == Drop(i + 1) && i + 1 < |s|
  }

  /** A step that the sweep may take: a deletion exactly for a dead session, of one with its identifier. */
  ghost predicate MayStep(order: seq<UserSession>, dead: set<UserSession>, before: seq<Step>, step: Step) {
    var (s, i) := Walked(order, before);
    && !Dangles(order, before) && i < |s| && (step.Drop? <==> s[i] in dead)
    && (step.Drop? ==> step.at < |s| && s[step.at].sid == s[i].sid)
  }

  ghost predicate Walks(order: seq<UserSession>, dead: set<UserSession>, steps: seq<Step>) {
    steps == [] ||
    (Walks(order, dead, steps[..|steps| - 1]) &&
     MayStep(order, dead, steps[..|steps| - 1], steps[|steps| - 1]))
  }

  /** The walk is over: it is left dangling, or has come to the end of the list. */
  ghost predicate WalkEnds(order: seq<UserSession>, steps: seq<Step>) {
    Dangles(order, steps) || Walked(order, steps).1 >= |Walked(order, steps).0|
  }

  ghost function DroppedBy(order: seq<UserSession>, steps: seq<Step>): seq<UserSession> {
    if steps == [] then []
    else
      var (s, _) := Walked(order, steps[..|steps| - 1]);
      DroppedBy(order, steps[..|steps| - 1]) +
      match steps[|steps| - 1]
      case Drop(at) => if at < |s| then [s[at]] else []
      case Keep => []
  }

  ghost predicate WalkState(order: seq<UserSession>, dead: set<UserSession>, nodes: seq<SessionNode>, i: nat,
                            steps: seq<Step>, dropped: seq<SessionNode>, dangling: bool)
  {
    && Walked(order, steps) == (OrderOf(nodes), i) && Walks(order, dead, steps)
    && DroppedBy(order, steps) == OrderOf(dropped) && (dangling <==> Dangles(order, steps))
  }

  /** The list without a session. */
  ghost function Minus(order: seq<UserSession>, us: UserSession): (rest: seq<UserSession>)
    ensures |rest| <= |order|
  {
    if order == [] then []
    else
      var m := |order| - 1;
      if order[m] == us then order[..m] else Minus(order[..m], us) + [order[m]]
  }

  lemma {:induction false} MinusAt(order: seq<UserSession>, at: nat)
    requires Distinct(order) && at < |order|
    ensures Minus(order, order[at]) == Without(order, at)
  {
    var m := |order| - 1;
    if at < m {
      MinusAt(order[..m], at);
      assert Without(order, at) == Without(order[..m], at) + [order[m]];
    }
  }

  ghost function MinusAll(order: seq<UserSession>, us: seq<UserSession>): seq<UserSession> {
    if us == [] then order else Minus(MinusAll(order, us[..|us| - 1]), us[|us| - 1])
  }

  /** What a walk leaves is the list without the sessions that it has dropped. */
  lemma {:induction false} WalkedMinus(order: seq<UserSession>, steps: seq<Step>)
    requires Distinct(order)
    ensures Walked(order, steps).0 == MinusAll(order, DroppedBy(order, steps))
    ensures Distinct(Walked(order, steps).0)
  {
    if steps != [] {
      var before := steps[..|steps| - 1];
      WalkedMinus(order, before);
      var s := Walked(order, before).0;
      var ds := DroppedBy(order, before);
      match steps[|steps| - 1]
      case Drop(at) =>
        if at < |s| {
          MinusAt(s, at);
          DistinctWithout(s, at);
          assert (ds + [s[at]])[..|ds|] == ds;
        } else {
          assert ds + [] == ds;
        }
      case Keep =>
        assert ds + [] == ds;
    }
  }

  lemma WalkStarts(nodes: seq<SessionNode>, dead: set<UserSession>)
    ensures WalkState(OrderOf(nodes), dead, nodes, 0, [], [], false)
  {
  }

  lemma WalkStep(order: seq<UserSession>, dead: set<UserSession>, nodes: seq<SessionNode>, i: nat, steps: seq<Step>,
                 dropped: seq<SessionNode>, del: Node?<UserSession>, at: nat, dangling: bool)
    requires WalkState(order, dead, nodes, i, steps, dropped, false) && Distinct(nodes) && i < |nodes|
    requires del != null <==> nodes[i].data in dead
    requires del != null ==> at < |nodes| && nodes[at] == del && del.data.sid == nodes[i].data.sid
    requires dangling <==> del != null && i + 1 < |nodes| && del == nodes[i + 1]
    ensures WalkState(order, dead, if del == null then nodes else Without(nodes, at),
                      if del != null && at <= i then i else i + 1, steps + [if del == null then Keep else Drop(at)],
                      if del == null then dropped else dropped + [del], dangling)
  {
    var step := if del == null then Keep else Drop(at);
    assert (steps + [step])[..|steps|] == steps;
    if del != null {
      assert OrderOf(Without(nodes, at)) == Without(OrderOf(nodes), at);
      assert OrderOf(dropped + [del]) == OrderOf(dropped) + [del.data];
    }
  }

  /** The dead sessions in the order of the list. */
  ghost function Overdue(order: seq<UserSession>, dead: set<UserSession>): seq<UserSession> {
    if order == [] then []
    else
      var m := |order| - 1;
      Overdue(order[..m], dead) + if order[m] in dead then [order[m]] else []
  }

  lemma {:induction false} ChosenOverdue(nodes: seq<SessionNode>, chosen: seq<bool>, dead: set<UserSession>)
    requires |chosen| == |nodes| && forall k :: 0 <= k < |nodes| ==> (chosen[k] <==> nodes[k].data in dead)
    ensures OrderOf(Chosen(nodes, chosen)) == Overdue(OrderOf(nodes), dead)
  {
    if nodes != [] {
      var m := |nodes| - 1;
      ChosenOverdue(nodes[..m], chosen[..m], dead);
      assert OrderOf(nodes)[..m] == OrderOf(nodes[..m]);
      var front := Chosen(nodes[..m], chosen[..m]);
      assert OrderOf(front + [nodes[m]]) == OrderOf(front) + [nodes[m].data];
      assert front + [] == front && Overdue(OrderOf(nodes)[..m], dead) + [] == Overdue(OrderOf(nodes)[..m], dead);
    }
  }

  class Store {
    const hashmap: UtHash.HashTable<SessionNode>
    const dlist: DList<UserSession>

    ghost function Repr(): (r: set<object>)
      reads hashmap, dlist
      ensures this !in r && forall o | o in r :: !(o is UserSession)
    {
      hashmap.Repr() + {dlist} + (set n | n in dlist.nodes)
    }

    ghost predicate Valid()
      reads hashmap, hashmap.buckets, hashmap.order, hashmap.items, dlist, dlist.nodes
    {
      hashmap.Valid() && dlist.Valid() && Matching(hashmap.items, dlist.nodes)
    }

    /** The latest clock reading stored in a session. */
    ghost var clock: nat

    /** Identifiers are distinct, and the list is in the order of last use. */
    ghost predicate Ordered()
      reads this, dlist, Sessions(dlist.nodes)`lastUpdateTime
    {
      DistinctSids(dlist.nodes) && Recent(dlist.nodes, clock)
    }

    constructor (hash: Sid -> nat)
      ensures Valid() && Ordered() && dlist.nodes == [] && clock == 0 && fresh(Repr())
    {
      hashmap := new UtHash.HashTable(hash);
      dlist := new DList();
      clock := 0;
    }

    /** The list node that the table finds for an identifier. */
    ghost function Target(sid: Sid): Node?<UserSession>
      reads hashmap`items, hashmap`chains
    {
      var ushm := hashmap.FirstOf(sid);
      if ushm == null then null else ushm.value
    }

    /** HASH_FIND_STR, and where its result is in the two structures. */
    method Lookup(sid: Sid) returns (ushm: UtHash.Entry?<SessionNode>, ghost i: nat, ghost at: nat)
      requires Valid()
      ensures ushm == null <==> !HasSid(dlist.nodes, sid)
      ensures ushm == hashmap.FirstOf(sid)
      ensures ushm != null ==>
        && i < |hashmap.items| && hashmap.items[i] == ushm
        && at < |dlist.nodes| && dlist.nodes[at] == ushm.value && ushm.value.data.sid == sid
    {
      hide UtHash.HashTable.Valid, DList.Valid, Matching;
      i, at := 0, 0;
      LookupIsSearch(hashmap.items, dlist.nodes, sid);
      ushm := hashmap.Find(sid);
      if ushm != null {
        i :| 0 <= i < |hashmap.items| && hashmap.items[i] == ushm;
        MatchingValue(hashmap.items, dlist.nodes, i);
        at := PositionOf(dlist.nodes, ushm.value);
      }
    }

    /** find_user_session. */
    method FindUserSession(sid: Sid) returns (us: UserSession?)
      requires Valid()
      ensures us == null <==> !HasSid(dlist.nodes, sid)
      ensures us != null ==> us.sid == sid && us in Sessions(dlist.nodes)
      ensures us == if Target(sid) == null then null else Target(sid).data
    {
      var ushm, i, at := Lookup(sid);
      us := if ushm != null then ushm.value.data else null;
    }

    lemma SameSize()
      requires Valid()
      ensures |hashmap.items| == |dlist.nodes|
    {
      hide UtHash.HashTable.Valid, DList.Valid;
      MatchingSize(hashmap.items, dlist.nodes);
    }

    /** A new node and a new entry in both structures. */
    method LinkBoth(usdl: SessionNode, ushm: SessionEntry)
      requires Valid() && ushm.key == usdl.data.sid && ushm.value == usdl
      requires usdl !in Repr() && ushm !in Repr()
      modifies Repr(), usdl, ushm
      ensures Valid() && dlist.nodes == old(dlist.nodes) + [usdl]
      ensures fresh(hashmap.Repr() - old(hashmap.Repr()) - {ushm})
      ensures old(|hashmap.items|) < 9 ==> hashmap.FirstOf(ushm.key) == ushm
    {
      hide UtHash.HashTable.Valid, UtHash.HashTable.FirstOf, DList.Valid, Matching;
      MatchingAdd(hashmap.items, dlist.nodes, ushm);
      dlist.Append(usdl);
      hashmap.Add(ushm);
    }

    /** The new session's list node and hash entry. */
    method Link(us: UserSession) returns (usdl: SessionNode)
      requires Valid()
      modifies Repr()
      ensures Valid() && usdl.data == us && dlist.nodes == old(dlist.nodes) + [usdl]
      ensures fresh(Repr() - old(Repr()))
      ensures old(|dlist.nodes|) < 9 ==> Target(us.sid) == usdl
    {
      hide Valid, UtHash.HashTable.FirstOf;
      SameSize();
      usdl := new Node(us);
      var ushm := new UtHash.Entry(us.sid, usdl);
      LinkBoth(usdl, ushm);
    }

    /** Taking a session out of both structures. */
    method Unlink(ushm: SessionEntry, ghost i: nat, ghost at: nat)
      requires Valid()
      requires i < |hashmap.items| && hashmap.items[i] == ushm
      requires at < |dlist.nodes| && dlist.nodes[at] == ushm.value
      modifies Repr()
      ensures Valid() && dlist.nodes == Without(old(dlist.nodes), at)
      ensures Repr() <= old(Repr())
    {
      hide UtHash.HashTable.Valid, DList.Valid, Matching;
      MatchingRemove(hashmap.items, dlist.nodes, i, at);
      hashmap.Delete(ushm, i);
      dlist.Delete(ushm.value, at);
    }

    /** Taking a session out leaves the others in order. */
    method UnlinkOrdered(ushm: SessionEntry, ghost i: nat, ghost at: nat)
      requires Valid()
      requires i < |hashmap.items| && hashmap.items[i] == ushm
      requires at < |dlist.nodes| && dlist.nodes[at] == ushm.value
      modifies Repr()
      ensures Valid() && dlist.nodes == Without(old(dlist.nodes), at)
      ensures (old(Ordered()) ==> Ordered()) && Repr() <= old(Repr())
    {
      hide Valid, DistinctSids, Recent, Repr, HasSid;
      ghost var rest, ordered := Without(dlist.nodes, at), Ordered();
      if ordered {
        OthersAre(dlist.nodes, at, clock);
      }
      assert forall o: object | o in Sessions(rest) :: o !in Repr();
      Unlink(ushm, i, at);
    }

    /** Making a session the newest one of the list. */
    method MoveToTail(usdl: SessionNode, ghost at: nat)
      requires Valid() && at < |dlist.nodes| && dlist.nodes[at] == usdl
      modifies dlist, dlist.nodes
      ensures Valid() && dlist.nodes == Without(old(dlist.nodes), at) + [usdl] && Repr() == old(Repr())
    {
      hide UtHash.HashTable.Valid, DList.Valid, Matching;
      MatchingMoved(hashmap.items, dlist.nodes, at);
      dlist.MoveToTail(usdl, at);
    }

    /** The body of update_user_session once the session is found. */
    method Touch(usdl: SessionNode, ghost at: nat, now: nat)
      requires Valid() && at < |dlist.nodes| && dlist.nodes[at] == usdl
      modifies dlist, dlist.nodes, `clock, usdl.data`lastUpdateTime
      ensures Valid() && (old(Ordered() && clock <= now) ==> Ordered())
      ensures dlist.nodes == Without(old(dlist.nodes), at) + [usdl] && Repr() == old(Repr())
      ensures usdl.data.lastUpdateTime == now == clock
    {
      hide Valid, DistinctSids, Recent, Without, Repr;
      ghost var rest, before, ordered := Without(dlist.nodes, at), clock, Ordered();
      if ordered {
        OthersAre(dlist.nodes, at, clock);
      }
      clock := now;
      usdl.data.lastUpdateTime := now;
      if ordered && before <= now {
        assert Recent(rest, before);
        RecentAppend(rest, usdl, before);
        DistinctSidsAppend(rest, usdl);
      }
      assert forall o: object | o in Sessions(rest + [usdl]) :: o != dlist && o !in dlist.nodes;
      MoveToTail(usdl, at);
    }

    lemma NodesInRepr()
      ensures dlist in Repr() && forall k :: 0 <= k < |dlist.nodes| ==> dlist.nodes[k] in Repr()
    {
    }

    /** add_user_session; nothing checks whether the identifier is new. */
    method AddUserSession(us: UserSession) returns (ghost usdl: SessionNode)
      requires Valid()
      modifies Repr(), `clock
      ensures Valid() && usdl.data == us && dlist.nodes == old(dlist.nodes) + [usdl]
      ensures clock == us.lastUpdateTime && fresh(Repr() - old(Repr()))
      ensures old(|dlist.nodes|) < 9 ==> Target(us.sid) == usdl
      ensures old(Ordered() && clock <= us.lastUpdateTime) ==>
        (Ordered() <==> !old(HasSid(dlist.nodes, us.sid)))
    {
      hide Valid, HasSid, Repr, DistinctSids;
      ghost var nodes, before, ordered := dlist.nodes, clock, Ordered();
      usdl := Link(us);
      clock := us.lastUpdateTime;
      if ordered && before <= clock {
        RecentAppend(nodes, usdl, before);
        DistinctSidsAppend(nodes, usdl);
      }
    }

    /** delete_user_session; del is the list node that it frees. */
    method DeleteUserSession(sid: Sid) returns (del: Node?<UserSession>, ghost at: nat)
      requires Valid()
      modifies Repr()
      ensures Valid() && (old(Ordered()) ==> Ordered()) && Repr() <= old(Repr())
      ensures !old(HasSid(dlist.nodes, sid)) ==> del == null && dlist.nodes == old(dlist.nodes)
      ensures old(HasSid(dlist.nodes, sid)) ==>
        && at < old(|dlist.nodes|) && old(dlist.nodes)[at] == del == old(Target(sid))
        && old(dlist.nodes)[at].data.sid == sid && dlist.nodes == Without(old(dlist.nodes), at)
    {
      hide Valid, HasSid, DistinctSids;
      var ushm: UtHash.Entry?<SessionNode>;
      ghost var i;
      del := null;
      ushm, i, at := Lookup(sid);
      if ushm != null {
        del := ushm.value;
        UnlinkOrdered(ushm, i, at);
      }
    }

    /** update_user_session: the session found by the identifier becomes the newest one. */
    method UpdateUserSession(us: UserSession, now: nat) returns (ghost at: nat)
      requires Valid()
      modifies Repr(), `clock, Sessions(dlist.nodes)`lastUpdateTime
      ensures Valid() && (old(Ordered() && clock <= now) ==> Ordered()) && Repr() == old(Repr())
      ensures !old(HasSid(dlist.nodes, us.sid)) ==> dlist.nodes == old(dlist.nodes) && clock == old(clock)
      ensures old(HasSid(dlist.nodes, us.sid)) ==>
        && at < old(|dlist.nodes|) && old(dlist.nodes)[at].data.sid == us.sid
        && old(dlist.nodes)[at] == old(Target(us.sid))
        && dlist.nodes == Without(old(dlist.nodes), at) + [old(dlist.nodes)[at]]
        && old(dlist.nodes)[at].data.lastUpdateTime == now == clock
      ensures forall u | u in Sessions(old(dlist.nodes)) ::
        !old(HasSid(dlist.nodes, us.sid)) || u != old(dlist.nodes)[at].data ==>
          u.lastUpdateTime == old(u.lastUpdateTime)
    {
      hide Valid, HasSid, Repr, Ordered;
      var ushm: UtHash.Entry?<SessionNode>;
      ghost var i;
      ushm, i, at := Lookup(us.sid);
      if ushm != null {
        NodesInRepr();
        Touch(ushm.value, at, now);
      }
    }

    /** The walk stays inside the list: the next node is read before the current one may go. */
    method NextElement(elt: SessionNode, ghost i: nat) returns (next: Node?<UserSession>)
      requires Valid() && i < |dlist.nodes| && dlist.nodes[i] == elt
      ensures next == if i + 1 < |dlist.nodes| then dlist.nodes[i + 1] else null
    {
      hide UtHash.HashTable.Valid, Matching;
      next := elt.next;
    }

    /** One step of the sweep, at position i. An expired session is deleted by its identifier; the
        walk is left dangling exactly if the look-up finds the node it has saved as the next one,
        which is then freed. */
    method SweepOne(elt: SessionNode, now: nat, timeout: nat, ghost i: nat, ghost seen: seq<SessionNode>)
      returns (next: Node?<UserSession>, dangling: bool, ghost del: Node?<UserSession>, ghost at: nat)
      requires Valid() && i < |dlist.nodes| && dlist.nodes[i] == elt
      modifies Repr()
      ensures Valid() && (old(Ordered()) ==> Ordered()) && Repr() <= old(Repr())
      ensures next == if i + 1 < old(|dlist.nodes|) then old(dlist.nodes)[i + 1] else null
      ensures Expired(elt.data.lastUpdateTime, now, timeout) <==> del != null
      ensures del == null ==> dlist.nodes == old(dlist.nodes)
      ensures del != null ==>
        && at < old(|dlist.nodes|) && old(dlist.nodes)[at] == del && del.data.sid == elt.data.sid
        && dlist.nodes == Without(old(dlist.nodes), at)
      ensures dangling <==> del != null && del == next
      ensures Gone(seen, now, timeout) == old(Gone(seen, now, timeout))
      ensures Dead(seen, now, timeout) == old(Dead(seen, now, timeout))
      ensures del != null ==> del == old(Target(elt.data.sid))
    {
      hide Valid, HasSid, Repr, Gone, Dead;
      ghost var all := dlist.nodes;
      SidAt(all, i);
      assert forall o: object | o in Sessions(seen) :: o !in Repr();
      next := NextElement(elt, i);
      dangling, del, at := false, null, 0;
      if Expired(elt.data.lastUpdateTime, now, timeout) {
        var freed: Node?<UserSession>;
        freed, at := DeleteUserSession(elt.data.sid);
        del, dangling := freed, freed == next;
      }
    }

    lemma SidAt(nodes: seq<SessionNode>, i: nat)
      ensures i < |nodes| ==> HasSid(nodes, nodes[i].data.sid)
    {
    }

    lemma NodesDistinct()
      requires Valid()
      ensures Distinct(dlist.nodes)
    {
      hide UtHash.HashTable.Valid, Matching;
    }

    lemma HeadOfList()
      requires Valid()
      ensures dlist.head == if dlist.nodes == [] then null else dlist.nodes[0]
    {
      hide UtHash.HashTable.Valid, Matching;
    }

    /** One round of checkSessionTimeout. Expired sessions are deleted by identifier, so the right
        ones go only if theirs are unique; in any case all that go have the identifier of an expired
        session. A walk that is left dangling goes on in freed memory: the model stops there. */
    method Sweep(now: nat, timeout: nat)
      returns (dangling: bool, ghost visited: seq<SessionNode>, ghost dropped: seq<SessionNode>, ghost steps: seq<Step>)
      requires Valid()
      modifies Repr()
      ensures Walks(OrderOf(old(dlist.nodes)), old(Dead(dlist.nodes, now, timeout)), steps)
      ensures WalkEnds(OrderOf(old(dlist.nodes)), steps) && (dangling <==> Dangles(OrderOf(old(dlist.nodes)), steps))
      ensures OrderOf(dlist.nodes) == Walked(OrderOf(old(dlist.nodes)), steps).0
      ensures OrderOf(dropped) == DroppedBy(OrderOf(old(dlist.nodes)), steps)
      ensures steps != [] && steps[0].Drop? ==>
        var nodes := old(dlist.nodes);
        nodes != [] && steps[0].at < |nodes| && nodes[steps[0].at] == old(Target(dlist.nodes[0].data.sid))
      ensures Valid() && (old(Ordered()) ==> Ordered()) && Repr() <= old(Repr())
      ensures Swept(old(dlist.nodes), old(Gone(dlist.nodes, now, timeout)), dlist.nodes, visited, dropped, dangling)
      ensures AllUnique(old(dlist.nodes), old(Gone(dlist.nodes, now, timeout))) ==>
        && !dangling && visited == old(dlist.nodes)
        && dlist.nodes == Kept(old(dlist.nodes), old(Gone(dlist.nodes, now, timeout)))
        && dropped == Chosen(old(dlist.nodes), old(Gone(dlist.nodes, now, timeout)))
      ensures old(DistinctSids(dlist.nodes)) ==> DistinctSids(dlist.nodes)
    {
      hide *;
      ghost var all, gone, i := dlist.nodes, Gone(dlist.nodes, now, timeout), 0;
      ghost var dead, order := Dead(all, now, timeout), OrderOf(all);
      ghost var target := if all == [] then null else Target(all[0].data.sid);
      dangling, visited, dropped, steps := false, [], [], [];
      WalkStarts(all, dead);
      NodesDistinct();
      SweepStart(all, gone);
      HeadOfList();
      var elt := dlist.head;
      while elt != null && !dangling
        invariant Valid() && (old(Ordered()) ==> Ordered()) && Repr() <= old(Repr())
        invariant SweepState(all, gone, dlist.nodes, i, visited, dropped, dangling)
        invariant Gone(all, now, timeout) == gone && Dead(all, now, timeout) == dead
        invariant WalkState(order, dead, dlist.nodes, i, steps, dropped, dangling)
        invariant steps == [] && all != [] ==> i == 0 && dlist.nodes == all && Target(all[0].data.sid) == target
        invariant steps != [] && steps[0].Drop? ==> steps[0].at < |all| && all[steps[0].at] == target
        invariant !dangling ==> elt == if i < |dlist.nodes| then dlist.nodes[i] else null
        invariant dangling || i <= |dlist.nodes|
        decreases if dangling then 0 else |dlist.nodes| - i + 1
      {
        ghost var nodes, del, at := dlist.nodes, null, 0;
        NodesDistinct();
        StateAmong(all, gone, nodes, i, visited, dropped);
        var here := elt;
        elt, dangling, del, at := SweepOne(here, now, timeout, i, all);
        SweepStep(all, gone, nodes, i, visited, dropped, del, at, dangling);
        DeadOrAlive(all, here, now, timeout);
        WalkStep(order, dead, nodes, i, steps, dropped, del, at, dangling);
        steps := steps + [if del == null then Keep else Drop(at)];
        if !dangling {
          WalkOn(nodes, i, del, at);
        }
        visited := visited + [here];
        if del != null {
          dropped := dropped + [del];
        }
        i := if del != null && at <= i then i else i + 1;
      }
      SweepEnd(all, gone, dlist.nodes, i, visited, dropped, dangling);
      WalkIsOver(order, dead, dlist.nodes, i, steps, dropped, dangling);
    }
  }

  lemma DeadOrAlive(nodes: seq<SessionNode>, n: SessionNode, now: nat, timeout: nat)
    requires n in nodes
    ensures n.data in Dead(nodes, now, timeout) <==> Expired(n.data.lastUpdateTime, now, timeout)
  {
  }

  lemma WalkIsOver(order: seq<UserSession>, dead: set<UserSession>, nodes: seq<SessionNode>, i: nat,
                   steps: seq<Step>, dropped: seq<SessionNode>, dangling: bool)
    requires WalkState(order, dead, nodes, i, steps, dropped, dangling) && (dangling || i >= |nodes|)
    ensures WalkEnds(order, steps) && Walks(order, dead, steps) && (dangling <==> Dangles(order, steps))
    ensures OrderOf(nodes) == Walked(order, steps).0 && OrderOf(dropped) == DroppedBy(order, steps)
  {
  }

  // ------------------------------------------------------------------ what a sweep does to the list

  /** The list when these nodes have been taken out, one after the other. */
  ghost function RemovedAll(nodes: seq<SessionNode>, ds: seq<SessionNode>): seq<SessionNode> {
    if ds == [] then nodes
    else
      var rest, d := RemovedAll(nodes, ds[..|ds| - 1]), ds[|ds| - 1];
      if d in rest then Without(rest, PositionOf(rest, d)) else rest
  }

  /** Every one of them was in the list when its turn came. */
  ghost predicate Removable(nodes: seq<SessionNode>, ds: seq<SessionNode>) {
    forall k :: 0 <= k < |ds| ==> ds[k] in RemovedAll(nodes, ds[..k])
  }

  /** The nodes chosen. */
  ghost function Chosen(nodes: seq<SessionNode>, chosen: seq<bool>): seq<SessionNode>
    requires |chosen| == |nodes|
  {
    if nodes == [] then []
    else
      var m := |nodes| - 1;
      Chosen(nodes[..m], chosen[..m]) + if chosen[m] then [nodes[m]] else []
  }

  /** A node chosen has the identifier. */
  ghost predicate ChosenId(nodes: seq<SessionNode>, chosen: seq<bool>, sid: Sid)
    requires |chosen| == |nodes|
  {
    exists k :: 0 <= k < |nodes| && chosen[k] && nodes[k].data.sid == sid
  }

  ghost predicate Follows(nodes: seq<SessionNode>, a: SessionNode, b: SessionNode) {
    exists k :: 0 <= k < |nodes| - 1 && nodes[k] == a && nodes[k + 1] == b
  }

  /** What every sweep does: the nodes dropped, and no others, are taken out, all of them with the
      identifier of an expired session; no node is visited twice; and it is left dangling only by
      dropping the node after the last one visited, with the same identifier. */
  ghost predicate Swept(all: seq<SessionNode>, gone: seq<bool>, nodes: seq<SessionNode>, visited: seq<SessionNode>,
                        dropped: seq<SessionNode>, dangling: bool)
    requires |gone| == |all|
  {
    && nodes == RemovedAll(all, dropped) && Removable(all, dropped)
    && (forall d | d in dropped :: d in all && ChosenId(all, gone, d.data.sid))
    && Distinct(visited) && (forall n | n in visited :: n in all)
    && (dangling ==>
          && visited != [] && dropped != []
          && var v, d := visited[|visited| - 1], dropped[|dropped| - 1];
             v.data.sid == d.data.sid && Follows(RemovedAll(all, dropped[..|dropped| - 1]), v, d))
  }

  /** Where a sweep stands that is about to visit position i. */
  ghost predicate SweepState(all: seq<SessionNode>, gone: seq<bool>, nodes: seq<SessionNode>, i: nat,
                             visited: seq<SessionNode>, dropped: seq<SessionNode>, dangling: bool)
    requires |gone| == |all|
  {
    && Distinct(all) && Swept(all, gone, nodes, visited, dropped, dangling)
    && (!dangling ==> forall k :: i <= k < |nodes| ==> nodes[k] !in visited)
    && (AllUnique(all, gone) ==> !dangling && Exact(all, gone, nodes, i, visited, dropped))
  }

  /** The same if the identifiers of the expired sessions are unique. */
  ghost predicate Exact(all: seq<SessionNode>, gone: seq<bool>, nodes: seq<SessionNode>, i: nat,
                        visited: seq<SessionNode>, dropped: seq<SessionNode>)
    requires |gone| == |all|
  {
    var v := |visited|;
    && v <= |all| && visited == all[..v] && dropped == Chosen(all[..v], gone[..v])
    && nodes == Kept(all[..v], gone[..v]) + all[v..] && i == |Kept(all[..v], gone[..v])|
  }

  lemma SweepStart(all: seq<SessionNode>, gone: seq<bool>)
    requires |gone| == |all| && Distinct(all)
    ensures SweepState(all, gone, all, 0, [], [], false)
  {
    assert all[..0] == [] && gone[..0] == [] && all[0..] == all;
  }

  lemma {:induction false} RemovedAmong(nodes: seq<SessionNode>, ds: seq<SessionNode>)
    requires Distinct(nodes)
    ensures Distinct(RemovedAll(nodes, ds)) && forall n | n in RemovedAll(nodes, ds) :: n in nodes
  {
    if ds != [] {
      var rest, d := RemovedAll(nodes, ds[..|ds| - 1]), ds[|ds| - 1];
      RemovedAmong(nodes, ds[..|ds| - 1]);
      if d in rest {
        DistinctWithout(rest, PositionOf(rest, d));
        assert forall n | n in Without(rest, PositionOf(rest, d)) :: n in rest;
      }
    }
  }

  /** Taking out one node more. */
  lemma RemovedSnoc(nodes: seq<SessionNode>, ds: seq<SessionNode>, at: nat)
    requires Distinct(nodes) && Removable(nodes, ds) && at < |RemovedAll(nodes, ds)|
    ensures var d := RemovedAll(nodes, ds)[at];
      RemovedAll(nodes, ds + [d]) == Without(RemovedAll(nodes, ds), at) && Removable(nodes, ds + [d])
  {
    var rest := RemovedAll(nodes, ds);
    var d := rest[at];
    RemovedAmong(nodes, ds);
    assert (ds + [d])[..|ds|] == ds && PositionOf(rest, d) == at;
    forall k | 0 <= k < |ds + [d]|
      ensures (ds + [d])[k] in RemovedAll(nodes, (ds + [d])[..k])
    {
      assert (ds + [d])[..k] == ds[..k];
      assert k == |ds| ==> ds[..k] == ds;
    }
  }

  /** One node is visited: del, found at position at, is dropped, or none is. */
  lemma SweepStep(all: seq<SessionNode>, gone: seq<bool>, nodes: seq<SessionNode>, i: nat, visited: seq<SessionNode>,
                  dropped: seq<SessionNode>, del: Node?<UserSession>, at: nat, dangling: bool)
    requires |gone| == |all| && SweepState(all, gone, nodes, i, visited, dropped, false) && i < |nodes|
    requires forall k :: 0 <= k < |all| && all[k] == nodes[i] ==> (gone[k] <==> del != null)
    requires del != null ==> at < |nodes| && nodes[at] == del && del.data.sid == nodes[i].data.sid
    requires dangling <==> del != null && i + 1 < |nodes| && del == nodes[i + 1]
    ensures SweepState(all, gone, if del == null then nodes else Without(nodes, at),
                       if del != null && at <= i then i else i + 1, visited + [nodes[i]],
                       if del == null then dropped else dropped + [del], dangling)
  {
    hide AllUnique, Exact, Removable, RemovedAll, Swept;
    SweptStep(all, gone, nodes, i, visited, dropped, del, at, dangling);
    SweptNodes(all, gone, nodes, visited, dropped, false);
    if AllUnique(all, gone) {
      ExactStep(all, gone, nodes, i, visited, dropped, del, at);
    }
  }

  lemma SweptNodes(all: seq<SessionNode>, gone: seq<bool>, nodes: seq<SessionNode>, visited: seq<SessionNode>,
                   dropped: seq<SessionNode>, dangling: bool)
    requires |gone| == |all| && Distinct(all) && Swept(all, gone, nodes, visited, dropped, dangling)
    ensures Distinct(nodes) && forall n | n in nodes :: n in all
  {
    RemovedAmong(all, dropped);
  }

  lemma StateAmong(all: seq<SessionNode>, gone: seq<bool>, nodes: seq<SessionNode>, i: nat, visited: seq<SessionNode>,
                   dropped: seq<SessionNode>)
    requires |gone| == |all| && SweepState(all, gone, nodes, i, visited, dropped, false) && i < |nodes|
    ensures nodes[i] in all
  {
    SweptNodes(all, gone, nodes, visited, dropped, false);
  }

  lemma SweptStep(all: seq<SessionNode>, gone: seq<bool>, nodes: seq<SessionNode>, i: nat, visited: seq<SessionNode>,
                  dropped: seq<SessionNode>, del: Node?<UserSession>, at: nat, dangling: bool)
    requires |gone| == |all| && Distinct(all) && Swept(all, gone, nodes, visited, dropped, false) && i < |nodes|
    requires nodes[i] !in visited
    requires forall k :: 0 <= k < |all| && all[k] == nodes[i] ==> (gone[k] <==> del != null)
    requires del != null ==> at < |nodes| && nodes[at] == del && del.data.sid == nodes[i].data.sid
    requires dangling <==> del != null && i + 1 < |nodes| && del == nodes[i + 1]
    ensures Swept(all, gone, if del == null then nodes else Without(nodes, at), visited + [nodes[i]],
                  if del == null then dropped else dropped + [del], dangling)
  {
    hide RemovedAll, Removable;
    RemovedAmong(all, dropped);
    assert nodes[i] in nodes;
    if del != null {
      assert nodes[at] in nodes;
      RemovedSnoc(all, dropped, at);
      assert (dropped + [del])[..|dropped|] == dropped;
      var k :| 0 <= k < |all| && all[k] == nodes[i];
      assert ChosenId(all, gone, del.data.sid);
    }
  }

  /** With unique identifiers the expired node itself is dropped. */
  lemma ExactStep(all: seq<SessionNode>, gone: seq<bool>, nodes: seq<SessionNode>, i: nat, visited: seq<SessionNode>,
                  dropped: seq<SessionNode>, del: Node?<UserSession>, at: nat)
    requires |gone| == |all| && Distinct(nodes) && AllUnique(all, gone) && i < |nodes|
    requires Exact(all, gone, nodes, i, visited, dropped) && forall n | n in nodes :: n in all
    requires forall k :: 0 <= k < |all| && all[k] == nodes[i] ==> (gone[k] <==> del != null)
    requires del != null ==> at < |nodes| && nodes[at] == del && del.data.sid == nodes[i].data.sid
    ensures Exact(all, gone, if del == null then nodes else Without(nodes, at),
                  if del != null && at <= i then i else i + 1, visited + [nodes[i]],
                  if del == null then dropped else dropped + [del])
    ensures del != null ==> at == i
  {
    hide Kept, Chosen;
    var v := |visited|;
    var kept := Kept(all[..v], gone[..v]);
    KeptNext(all, gone, v);
    ChosenNext(all, gone, v);
    assert nodes[i] == all[v..][0] == all[v];
    if del != null {
      assert nodes[at] in nodes;
      assert UniqueSid(all, all[v]);
      assert Without(nodes, i) == kept + all[v + 1..];
    } else {
      assert nodes == kept + [all[v]] + all[v + 1..];
    }
  }

  /** A walk that is not left dangling comes to the next node. */
  lemma WalkOn(nodes: seq<SessionNode>, i: nat, del: Node?<UserSession>, at: nat)
    requires Distinct(nodes) && i < |nodes| && (del != null ==> at < |nodes| && nodes[at] == del)
    requires !(del != null && i + 1 < |nodes| && del == nodes[i + 1])
    ensures var nodes' := if del == null then nodes else Without(nodes, at);
      var i' := if del != null && at <= i then i else i + 1;
      && i' <= |nodes'| && |nodes'| - i' < |nodes| - i
      && (if i + 1 < |nodes| then i' < |nodes'| && nodes'[i'] == nodes[i + 1] else i' == |nodes'|)
  {
  }

  lemma ChosenNext(nodes: seq<SessionNode>, chosen: seq<bool>, i: nat)
    requires |chosen| == |nodes| && i < |nodes|
    ensures Chosen(nodes[..i + 1], chosen[..i + 1])
      == Chosen(nodes[..i], chosen[..i]) + if chosen[i] then [nodes[i]] else []
  {
    assert nodes[..i + 1][..i] == nodes[..i] && chosen[..i + 1][..i] == chosen[..i];
  }

  lemma SweepEnd(all: seq<SessionNode>, gone: seq<bool>, nodes: seq<SessionNode>, i: nat, visited: seq<SessionNode>,
                 dropped: seq<SessionNode>, dangling: bool)
    requires |gone| == |all| && SweepState(all, gone, nodes, i, visited, dropped, dangling)
    requires dangling || i >= |nodes|
    ensures Swept(all, gone, nodes, visited, dropped, dangling)
    ensures AllUnique(all, gone) ==>
      !dangling && visited == all && nodes == Kept(all, gone) && dropped == Chosen(all, gone)
    ensures DistinctSids(all) ==> DistinctSids(nodes)
  {
    hide Kept, Chosen, AllUnique, Swept, DistinctSids;
    SweptSids(all, gone, nodes, visited, dropped, dangling);
    if AllUnique(all, gone) {
      var v := |visited|;
      assert |all[v..]| == |all| - v;
      assert all[..|all|] == all && gone[..|all|] == gone;
      assert nodes == Kept(all[..v], gone[..v]) + [];
    }
  }

  lemma SweptSids(all: seq<SessionNode>, gone: seq<bool>, nodes: seq<SessionNode>, visited: seq<SessionNode>,
                  dropped: seq<SessionNode>, dangling: bool)
    requires |gone| == |all| && Distinct(all) && Swept(all, gone, nodes, visited, dropped, dangling)
    ensures DistinctSids(all) ==> DistinctSids(nodes)
  {
    RemovedAmong(all, dropped);
    assert forall k :: 0 <= k < |nodes| ==> nodes[k] in all;
  }

  lemma KeptNext(nodes: seq<SessionNode>, gone: seq<bool>, i: nat)
    requires |gone| == |nodes| && i < |nodes|
    ensures Kept(nodes[..i + 1], gone[..i + 1]) == Kept(nodes[..i], gone[..i]) + if gone[i] then [] else [nodes[i]]
    ensures nodes[..i] + [nodes[i]] == nodes[..i + 1]
    ensures nodes[i..] != [] && nodes[i..][0] == nodes[i] && nodes[i..][1..] == nodes[i + 1..]
    ensures if |nodes[i..]| > 1 then i + 1 < |nodes| && nodes[i..][1] == nodes[i + 1] else i + 1 == |nodes|
  {
    assert nodes[..i + 1][..i] == nodes[..i] && gone[..i + 1][..i] == gone[..i];
  }

  // ------------------------------------------------------------------ a sweep that is left dangling

  lemma {:induction false} FirstSteps(order: seq<UserSession>, dead: set<UserSession>, steps: seq<Step>)
    requires Walks(order, dead, steps) && steps != []
    ensures MayStep(order, dead, [], steps[0]) && (|steps| > 1 ==> !Dangles(order, [steps[0]]))
  {
    if |steps| == 1 {
      assert steps[..0] == [];
    } else {
      var before := steps[..|steps| - 1];
      FirstSteps(order, dead, before);
      assert |before| == 1 ==> before == [steps[0]];
    }
  }

  lemma DanglesAtOnce(order: seq<UserSession>, dead: set<UserSession>, steps: seq<Step>)
    requires |order| > 1 && order[0] in dead && Walks(order, dead, steps) && WalkEnds(order, steps)
    requires steps != [] && steps[0].Drop? ==> steps[0].at == 1
    ensures steps == [Drop(1)] && Dangles(order, steps)
  {
    assert Walked(order, []) == (order, 0);
    FirstSteps(order, dead, steps);
    assert [steps[0]][..0] == [];
    assert |steps| == 1 ==> steps == [steps[0]];
  }

  /** A store with two sessions of one identifier, the first one last used at time 0. */
  method Contested(hash: Sid -> nat, sid: Sid) returns (store: Store)
    ensures fresh(store) && fresh(store.Repr()) && store.Valid() && |store.dlist.nodes| == 2
    ensures store.dlist.nodes[0].data.sid == sid && store.dlist.nodes[0].data.lastUpdateTime == 0
    ensures store.Target(sid) == store.dlist.nodes[1]
  {
    hide Store.Valid, Store.Ordered, Store.Target, Store.Repr, DistinctSids, Recent, HasSid, Sessions;
    var a := new UserSession(sid, 0);
    var b := new UserSession(sid, 0);
    store := new Store(hash);
    ghost var repr := store.Repr();
    label A:
    ghost var first := store.AddUserSession(a);
    assert forall o: object | o in store.Repr() && o !in repr :: fresh@A(o);
    repr := store.Repr();
    label B:
    ghost var second := store.AddUserSession(b);
    assert forall o: object | o in store.Repr() && o !in repr :: fresh@B(o);
    assert store.dlist.nodes == [first, second];
  }

  /** Two sessions with one identifier, one after the other in the list, the first one expired: the
      look-up for it finds the second, which was added later and so is first in its bucket's chain,
      and which the walk was to visit next. */
  method ContestedSweep(hash: Sid -> nat, sid: Sid, now: nat, timeout: nat) returns (store: Store, dangling: bool)
    requires Expired(0, now, timeout)
    ensures dangling && store.Valid() && |store.dlist.nodes| == 1
  {
    hide Store.Valid, Store.Ordered, Store.Target, DistinctSids, Recent, Expired, Swept, AllUnique;
    hide Walks, WalkEnds, Gone, Dead, Kept, Chosen;
    store := Contested(hash, sid);
    ghost var nodes := store.dlist.nodes;
    ghost var order, dead := OrderOf(nodes), Dead(nodes, now, timeout);
    DeadOrAlive(nodes, nodes[0], now, timeout);
    store.NodesDistinct();
    ghost var visited, dropped, steps;
    dangling, visited, dropped, steps := store.Sweep(now, timeout);
    DanglesAtOnce(order, dead, steps);
    assert steps[..0] == [];
    assert |store.dlist.nodes| == |Walked(order, steps).0|;
  }
}
