/** The plugin in operation: whatever requests and answers come in, in whatever order, the callbacks
    of Plugin do to the store exactly what the inputs say, input by input. */
module Operation {
  import opened Sequences
  import opened Quota
  import opened SessionStore
  import opened Plugin
  import Biography
  import Ledger
  import opened Wrappers

  /** What comes in from outside. An answer that nothing waits for does not come. */
  datatype Input =
    | StartRequest(sid: Sid)
    | StartAnswer(sid: Sid, ans: Answer, now: nat)
    | Usage(sid: Sid, len: nat, httpReq: bool, now: nat)
    | UpdateAnswer(k: nat, ans: Answer, httpReq: bool)
    | Close(sid: Sid, len: nat)
    | StopRequest(sid: Sid)
    | StopAnswer(sid: Sid)
    | Tick(now: nat, timeout: nat)

  /** The clock reading of the input becomes a session's. */
  predicate Timed(input: Input) {
    input.StartAnswer? || input.Usage?
  }

  // ------------------------------------------------------------------ the books

  /** The system, the sessions in the order of the list, and when each was last used. */
  datatype Books = Books(sys: System, order: seq<UserSession>, last: map<UserSession, nat>)

  /** What a call does to the books: a new session and one whose use is let through are put last. */
  ghost function Note(b: Books, c: Call, now: nat): Books {
    var next := Next(b.sys, c);
    match c
    case Started(us, _) => Books(next, b.order + [us], b.last[us := now])
    case Used(_, found, len) =>
      if found != null && found in b.sys.sessions && OnUse(b.sys.sessions[found], len).1.Admit? then
        Books(next, Minus(b.order, found) + [found], b.last[found := now])
      else b.(sys := next)
    case Dropped(_, found) => if found == null then b.(sys := next) else b.(sys := next, order := Minus(b.order, found))
    case _ => b.(sys := next)
  }

  ghost function NoteAll(b: Books, cs: seq<Call>, now: nat): Books {
    if cs == [] then b else Note(NoteAll(b, cs[..|cs| - 1], now), cs[|cs| - 1], now)
  }

  function Reading(input: Input): nat {
    if Timed(input) then input.now else 0
  }

  ghost function Late(b: Books, now: nat, timeout: nat): set<UserSession> {
    set us | us in b.order && us in b.last && Expired(b.last[us], now, timeout)
  }

  /** The calls of a sweep: those of a walk over the list, which is left dangling or goes to the end;
      with distinct identifiers exactly the expired sessions are dropped, in the order of the list. */
  ghost predicate Sweeps(b: Books, now: nat, timeout: nat, calls: seq<Call>, dangling: bool) {
    && (exists steps ::
          && Walks(b.order, Late(b, now, timeout), steps) && WalkEnds(b.order, steps)
          && (dangling <==> Dangles(b.order, steps)) && calls == DropCalls(DroppedBy(b.order, steps)))
    && (DistinctIds(b.sys) ==> !dangling && calls == DropCalls(Overdue(b.order, Late(b, now, timeout))))
  }

  /** The calls that an input leads to, only the sessions found being open. An answer to a request
      that is on its way always has its call. */
  ghost predicate Fits(b: Books, input: Input, calls: seq<Call>, dangling: bool) {
    && (!input.Tick? ==> !dangling)
    && match input
       case StartRequest(sid) => |calls| == 1 && calls[0].Checked? && calls[0].sid == sid
       case StartAnswer(sid, ans, _) =>
         if sid !in b.sys.starting then calls == []
         else |calls| == 1 && calls[0].Started? && calls[0].us.sid == sid && calls[0].ans == ans
       case Usage(sid, len, _, _) =>
         |calls| == 1 && calls[0].Used? && calls[0].sid == sid && calls[0].len == len
       case UpdateAnswer(k, ans, _) =>
         if k >= |b.sys.unanswered| then calls == []
         else |calls| == 1 && calls[0].Replied? && calls[0].k == k && calls[0].ans == ans
       case Close(sid, len) => |calls| == 1 && calls[0].Charged? && calls[0].sid == sid && calls[0].len == len
       case StopRequest(sid) => |calls| == 1 && calls[0].Stopping? && calls[0].sid == sid
       case StopAnswer(sid) => |calls| == 1 && calls[0].Dropped? && calls[0].sid == sid
       case Tick(now, timeout) => Sweeps(b, now, timeout, calls, dangling)
  }

  /** The reply to an input, as the verdict of its call makes it. */
  ghost predicate Answers(b: Books, input: Input, calls: seq<Call>, reply: Option<Reply>) {
    match input
    case StartRequest(sid) =>
      reply == Some(if Occupied(b.sys, sid) then Shortcut(AuthFailed, REASON_USERONLINE) else WaitForStart)
    case StartAnswer(sid, _, _) =>
      reply == if sid in b.sys.starting then Some(Shortcut(AuthSucc, REASON_SUCCESS)) else None
    case Usage(_, len, httpReq, _) =>
      |calls| == 1 && calls[0].Used? &&
      var found := calls[0].found;
      reply == Some(
        if found == null || found !in b.sys.sessions then
          Turned(httpReq, REASON_NOUSERSESSION)
        else
          match OnUse(b.sys.sessions[found], len).1
          case Admit => if httpReq then Continue else Status(STATUS_OK)
          case Refuse => Turned(httpReq, REASON_NOBAL)
          case Ask(request) => Wait(Unanswered(found, request)))
    case UpdateAnswer(k, ans, httpReq) =>
      if k >= |b.sys.unanswered| then reply == None
      else
        |calls| == 1 && calls[0].Replied? &&
        reply == Some(
          if calls[0].found != null && !Decide(b.sys.unanswered[k].request.need, ans).Refused? then Continue
          else Turned(httpReq, REASON_NOBAL))
    case StopRequest(sid) =>
      |calls| == 1 && calls[0].Stopping? &&
      var found := calls[0].found;
      reply == Some(
        if found == null || found !in b.sys.sessions then Shortcut(AuthFailed, REASON_NOUSERSESSION)
        else Report(StopReport(b.sys.sessions[found])))
    case StopAnswer(_) => reply == Some(Shortcut(AuthSucc, REASON_SUCCESS))
    case _ => reply == None
  }

  /** A request is turned away, or a response marked as unauthorized. */
  function Turned(httpReq: bool, errid: nat): Reply {
    if httpReq then Shortcut(AuthFailed, errid) else Status(STATUS_UNAUTHORIZED)
  }

  // ------------------------------------------------------------------ the store and the books

  ghost predicate Recorded(nodes: seq<SessionNode>, order: seq<UserSession>, last: map<UserSession, nat>)
    reads Sessions(nodes)`lastUpdateTime
  {
    && OrderOf(nodes) == order
    && forall us | us in Sessions(nodes) :: us in last && last[us] == us.lastUpdateTime
  }

  /** The store holds exactly the sessions of the books: their states, their order, their last uses. */
  ghost predicate Booked(nodes: seq<SessionNode>, b: Books)
    reads Sessions(nodes)
  {
    Holds(nodes, b.sys.sessions) && Recorded(nodes, b.order, b.last)
  }

  lemma LateAreDead(nodes: seq<SessionNode>, b: Books, now: nat, timeout: nat)
    requires Booked(nodes, b)
    ensures Late(b, now, timeout) == Dead(nodes, now, timeout)
  {
    forall us
      ensures us in Late(b, now, timeout) <==> us in Dead(nodes, now, timeout)
    {
      if us in b.order {
        var k :| 0 <= k < |b.order| && b.order[k] == us;
        assert nodes[k] in nodes;
      }
    }
  }

  lemma {:induction false} NotedDrops(b: Books, us: seq<UserSession>, now: nat)
    ensures var after := NoteAll(b, DropCalls(us), now);
      && after.sys == Serve(b.sys, DropCalls(us)) && after.order == MinusAll(b.order, us) && after.last == b.last
  {
    if us != [] {
      var before, u := us[..|us| - 1], us[|us| - 1];
      NotedDrops(b, before, now);
      ServeSnoc(b.sys, DropCalls(before), Dropped(u.sid, u));
      assert DropCalls(us)[..|DropCalls(us)| - 1] == DropCalls(before);
    }
  }

  lemma NotedOne(b: Books, c: Call, now: nat)
    ensures NoteAll(b, [c], now) == Note(b, c, now) && NoteAll(b, [], now) == b
  {
    hide Note;
    assert [c][..0] == [];
    assert NoteAll(b, [c][..0], now) == b;
  }

  lemma NotedIsNext(b: Books, c: Call, now: nat)
    ensures Note(b, c, now).sys == Next(b.sys, c)
  {
    hide Next;
  }

  lemma {:induction false} NotedIsServed(b: Books, cs: seq<Call>, now: nat)
    ensures NoteAll(b, cs, now).sys == Serve(b.sys, cs)
  {
    hide Note, Next;
    if cs != [] {
      NotedIsServed(b, cs[..|cs| - 1], now);
      NotedIsNext(NoteAll(b, cs[..|cs| - 1], now), cs[|cs| - 1], now);
      ServeSnoc(b.sys, cs[..|cs| - 1], cs[|cs| - 1]);
      assert cs == cs[..|cs| - 1] + [cs[|cs| - 1]];
    }
  }

  lemma {:induction false} ServeConcat(sys: System, cs: seq<Call>, ds: seq<Call>)
    ensures Serve(sys, cs + ds) == Serve(Serve(sys, cs), ds)
    ensures LegalRun(sys, cs + ds) <==> LegalRun(sys, cs) && LegalRun(Serve(sys, cs), ds)
    decreases |cs|
  {
    hide Next, Legal;
    if cs == [] {
      assert cs + ds == ds;
    } else {
      assert (cs + ds)[1..] == cs[1..] + ds;
      ServeConcat(Next(sys, cs[0]), cs[1..], ds);
    }
  }

  lemma ServeCall(sys: System, c: Call)
    requires Legal(sys, c)
    ensures Serve(sys, [c]) == Next(sys, c) && LegalRun(sys, [c])
  {
    hide Next, Legal;
    assert [] + [c] == [c];
    ServeSnoc(sys, [], c);
  }

  // ------------------------------------------------------------------ one input at a time

  /** What is on its way outside the store. */
  datatype Net = Net(starting: multiset<Sid>, unanswered: seq<Unanswered>)

  ghost predicate InSync(net: Net, sys: System) {
    net.starting == sys.starting && net.unanswered == sys.unanswered
  }

  method OnStartRequest(store: Store, net: Net, sid: Sid, ghost b: Books)
    returns (net': Net, reply: Reply, ghost c: Call)
    requires store.Valid() && Booked(store.dlist.nodes, b) && InSync(net, b.sys)
    ensures Legal(b.sys, c) && Fits(b, StartRequest(sid), [c], false) && InSync(net', Next(b.sys, c))
    ensures Booked(store.dlist.nodes, Note(b, c, 0)) && Answers(b, StartRequest(sid), [c], Some(reply))
    ensures old(store.Ordered()) ==> store.Ordered()
  {
    hide Store.Valid, Store.Ordered, Holds, Occupied;
    SessionsAllocated(store.dlist.nodes, b.sys.sessions);
    ghost var found;
    reply, found := CheckStart(store, sid, b.sys);
    c := Checked(sid, found);
    net' := if reply == WaitForStart then net.(starting := net.starting + multiset{sid}) else net;
  }

  /** The transaction data of an answer to a start or update request. */
  method Received(reqType: ReqType, need: nat, used: int, ans: Answer) returns (txn: DiamTxnData)
    requires reqType != Stop
    ensures fresh(txn) && txn.thisTimeNeed == need && txn.Shows(Decide(need, ans))
  {
    txn := new DiamTxnData(reqType, need, used);
    txn.Receive(ans);
  }

  method OnStartAnswer(store: Store, net: Net, sid: Sid, ans: Answer, now: nat, ghost b: Books)
    returns (net': Net, reply: Reply, ghost c: Call)
    requires store.Valid() && Booked(store.dlist.nodes, b) && InSync(net, b.sys) && sid in net.starting
    modifies store.Repr(), store`clock
    ensures store.Valid() && fresh(store.Repr() - old(store.Repr()))
    ensures forall u | u in Sessions(store.dlist.nodes) :: u in old(Sessions(store.dlist.nodes)) || fresh(u)
    ensures store.clock == now && c.Started? && c.us.sid == sid
    ensures old(store.Ordered() && store.clock <= now) ==> (store.Ordered() <==> !Occupied(b.sys, sid))
    ensures Legal(b.sys, c) && Fits(b, StartAnswer(sid, ans, now), [c], false) && InSync(net', Next(b.sys, c))
    ensures Booked(store.dlist.nodes, Note(b, c, now)) && Answers(b, StartAnswer(sid, ans, now), [c], Some(reply))
  {
    hide Store.Valid, Store.Ordered, Store.Repr, Holds, Occupied;
    SessionsAllocated(store.dlist.nodes, b.sys.sessions);
    var txn := Received(Start, 0, 0, ans);
    ghost var us;
    label L:
    assert store.Repr() == old(store.Repr());
    reply, us := StartSessionCb(store, sid, txn, now, b.sys, ans);
    assert forall o: object | o in store.Repr() && o !in old(store.Repr()) :: fresh@L(o);
    c := Started(us, ans);
    net' := net.(starting := net.starting - multiset{sid});
  }

  method OnUsage(store: Store, net: Net, sid: Sid, len: nat, httpReq: bool, now: nat, ghost b: Books)
    returns (net': Net, reply: Reply, ghost c: Call)
    requires store.Valid() && Booked(store.dlist.nodes, b) && InSync(net, b.sys)
    modifies store.Repr(), store`clock, Sessions(store.dlist.nodes)
    ensures store.Valid() && store.Repr() == old(store.Repr())
    ensures Sessions(store.dlist.nodes) == old(Sessions(store.dlist.nodes))
    ensures old(store.Ordered() && store.clock <= now) ==> store.Ordered()
    ensures store.clock == old(store.clock) || store.clock == now
    ensures Legal(b.sys, c) && Fits(b, Usage(sid, len, httpReq, now), [c], false) && InSync(net', Next(b.sys, c))
    ensures Booked(store.dlist.nodes, Note(b, c, now)) && Answers(b, Usage(sid, len, httpReq, now), [c], Some(reply))
  {
    hide Store.Valid, Store.Ordered, Store.Repr, Holds, OnUse, Minus;
    ghost var found;
    reply, found := UpdateSession(store, sid, len, httpReq, now, b.sys);
    c := Used(sid, found, len);
    net' := if reply.Wait? then net.(unanswered := net.unanswered + [reply.asked]) else net;
  }

  method OnUpdateAnswer(store: Store, net: Net, k: nat, ans: Answer, httpReq: bool, ghost b: Books)
    returns (net': Net, reply: Reply, ghost c: Call)
    requires store.Valid() && Booked(store.dlist.nodes, b) && InSync(net, b.sys) && k < |net.unanswered|
    modifies Sessions(store.dlist.nodes)
    ensures store.Valid() && store.Repr() == old(store.Repr()) && store.dlist.nodes == old(store.dlist.nodes)
    ensures old(store.Ordered()) ==> store.Ordered()
    ensures Legal(b.sys, c) && Fits(b, UpdateAnswer(k, ans, httpReq), [c], false) && InSync(net', Next(b.sys, c))
    ensures Booked(store.dlist.nodes, Note(b, c, 0)) && Answers(b, UpdateAnswer(k, ans, httpReq), [c], Some(reply))
  {
    hide Store.Valid, Store.Ordered, Store.Repr, Holds, OnAnswer;
    var u := net.unanswered[k];
    var txn := Received(Update, u.request.need, u.request.used, ans);
    ghost var found;
    reply, found := UpdateSessionCb(store, u.from.sid, txn, httpReq, b.sys, k, ans);
    c := Replied(k, found, ans);
    net' := net.(unanswered := Without(net.unanswered, k));
  }

  method OnClose(store: Store, sid: Sid, len: nat, ghost b: Books) returns (ghost c: Call)
    requires store.Valid() && Booked(store.dlist.nodes, b)
    modifies Sessions(store.dlist.nodes)
    ensures store.Valid() && store.Repr() == old(store.Repr()) && store.dlist.nodes == old(store.dlist.nodes)
    ensures old(store.Ordered()) ==> store.Ordered()
    ensures Legal(b.sys, c) && Fits(b, Close(sid, len), [c], false)
    ensures Booked(store.dlist.nodes, Note(b, c, 0))
    ensures Next(b.sys, c).starting == b.sys.starting && Next(b.sys, c).unanswered == b.sys.unanswered
  {
    hide Store.Valid, Store.Ordered, Store.Repr, Holds, Finds;
    ghost var found := PostprocessAnyRequest(store, sid, len, b.sys);
    c := Charged(sid, found, len);
  }

  method OnStopRequest(store: Store, sid: Sid, ghost b: Books) returns (reply: Reply, ghost c: Call)
    requires store.Valid() && Booked(store.dlist.nodes, b)
    ensures old(store.Ordered()) ==> store.Ordered()
    ensures Legal(b.sys, c) && Fits(b, StopRequest(sid), [c], false) && Next(b.sys, c) == b.sys
    ensures Booked(store.dlist.nodes, Note(b, c, 0)) && Answers(b, StopRequest(sid), [c], Some(reply))
  {
    hide Store.Valid, Store.Ordered, Holds, Occupied;
    SessionsAllocated(store.dlist.nodes, b.sys.sessions);
    var used;
    ghost var found;
    used, found := EndSession(store, sid, b.sys);
    c := Stopping(sid, found);
    reply := match used case Some(u) => Report(u) case None => Shortcut(AuthFailed, REASON_NOUSERSESSION);
  }

  method OnStopAnswer(store: Store, sid: Sid, ghost b: Books) returns (ghost c: Call)
    requires store.Valid() && Booked(store.dlist.nodes, b)
    modifies store.Repr()
    ensures store.Valid() && store.Repr() <= old(store.Repr())
    ensures Sessions(store.dlist.nodes) <= old(Sessions(store.dlist.nodes))
    ensures old(store.Ordered()) ==> store.Ordered()
    ensures Legal(b.sys, c) && Fits(b, StopAnswer(sid), [c], false)
    ensures Booked(store.dlist.nodes, Note(b, c, 0))
    ensures Next(b.sys, c).starting == b.sys.starting && Next(b.sys, c).unanswered == b.sys.unanswered
  {
    hide Store.Valid, Store.Ordered, Store.Repr, Holds, Finds, Minus;
    SessionsAllocated(store.dlist.nodes, b.sys.sessions);
    assert forall o: object | o in Sessions(store.dlist.nodes) :: o !in store.Repr();
    ghost var found := EndSessionCb(store, sid, b.sys);
    c := Dropped(sid, found);
  }

  lemma DistinctAreUnique(nodes: seq<SessionNode>, sys: System, chosen: seq<bool>)
    requires Holds(nodes, sys.sessions) && |chosen| == |nodes|
    ensures DistinctIds(sys) ==> AllUnique(nodes, chosen)
  {
    if DistinctIds(sys) {
      forall k, m | 0 <= k < |nodes| && m in nodes && m.data.sid == nodes[k].data.sid
        ensures m == nodes[k]
      {
        var j :| 0 <= j < |nodes| && nodes[j] == m;
        assert nodes[j].data in sys.sessions && nodes[k].data in sys.sessions;
      }
    }
  }

  lemma {:induction false} DropsAreDropped(us: seq<UserSession>, sys: System)
    ensures var served := Serve(sys, DropCalls(us));
      served.starting == sys.starting && served.unanswered == sys.unanswered
    ensures Uncontested(sys, DropCalls(us))
  {
    if us != [] {
      var before, u := us[..|us| - 1], us[|us| - 1];
      DropsAreDropped(before, sys);
      ServeSnoc(sys, DropCalls(before), Dropped(u.sid, u));
      UncontestedConcat(sys, DropCalls(before), [Dropped(u.sid, u)]);
      assert Uncontested(Serve(sys, DropCalls(before)), [Dropped(u.sid, u)]);
    }
  }

  lemma {:induction false} UncontestedConcat(sys: System, cs: seq<Call>, ds: seq<Call>)
    ensures Uncontested(sys, cs + ds) <==> Uncontested(sys, cs) && Uncontested(Serve(sys, cs), ds)
    decreases |cs|
  {
    hide Next, Occupied;
    if cs == [] {
      assert cs + ds == ds;
    } else {
      assert (cs + ds)[1..] == cs[1..] + ds;
      UncontestedConcat(Next(sys, cs[0]), cs[1..], ds);
    }
  }

  method OnTick(store: Store, now: nat, timeout: nat, ghost b: Books) returns (dangling: bool, ghost calls: seq<Call>)
    requires store.Valid() && Booked(store.dlist.nodes, b)
    modifies store.Repr()
    ensures store.Valid() && store.Repr() <= old(store.Repr())
    ensures Sessions(store.dlist.nodes) <= old(Sessions(store.dlist.nodes))
    ensures old(store.Ordered()) ==> store.Ordered()
    ensures LegalRun(b.sys, calls) && Fits(b, Tick(now, timeout), calls, dangling)
    ensures Booked(store.dlist.nodes, NoteAll(b, calls, 0))
    ensures Serve(b.sys, calls).starting == b.sys.starting && Serve(b.sys, calls).unanswered == b.sys.unanswered
  {
    hide Store.Valid, Store.Ordered, Store.Repr, Holds, Serve, LegalRun, Gone, Dead, Late, AllUnique, DistinctIds;
    hide Walks, WalkEnds, Dangles, Overdue, DroppedBy, DropCalls, MinusAll, NoteAll;
    SessionsAllocated(store.dlist.nodes, b.sys.sessions);
    assert forall o: object | o in Sessions(store.dlist.nodes) :: o !in store.Repr();
    LateAreDead(store.dlist.nodes, b, now, timeout);
    DistinctAreUnique(store.dlist.nodes, b.sys, Gone(store.dlist.nodes, now, timeout));
    ghost var steps;
    dangling, steps := CheckSessionTimeout(store, now, timeout, b.sys);
    calls := DropCalls(DroppedBy(b.order, steps));
    NotedDrops(b, DroppedBy(b.order, steps), 0);
    DropsAreDropped(DroppedBy(b.order, steps), b.sys);
  }

  /** One input. Only a sweep may leave its walk dangling. */
  method Handle(store: Store, net: Net, input: Input, ghost b: Books)
    returns (net': Net, reply: Option<Reply>, dangling: bool, ghost calls: seq<Call>)
    requires store.Valid() && Booked(store.dlist.nodes, b) && InSync(net, b.sys)
    modifies store.Repr(), store`clock, Sessions(store.dlist.nodes)
    ensures store.Valid() && fresh(store.Repr() - old(store.Repr()))
    ensures forall u | u in Sessions(store.dlist.nodes) :: u in old(Sessions(store.dlist.nodes)) || fresh(u)
    ensures LegalRun(b.sys, calls) && Fits(b, input, calls, dangling) && Answers(b, input, calls, reply)
    ensures Booked(store.dlist.nodes, NoteAll(b, calls, Reading(input))) && InSync(net', Serve(b.sys, calls))
    ensures store.clock == old(store.clock) || (Timed(input) && store.clock == input.now)
    ensures old(store.Ordered() && (Timed(input) ==> store.clock <= input.now)) && Uncontested(b.sys, calls)
      ==> store.Ordered()
  {
    hide Store.Valid, Store.Repr, Store.Ordered, Sessions, Booked, Fits, Legal, Next, Serve, LegalRun, Note, NoteAll;
    hide Occupied, OnUse, StopReport, Decide;
    BooksAllocated(store.dlist.nodes, b);
    net', reply, dangling, calls := net, None, false, [];
    ghost var c: Call := Checked("", null);
    NotedOne(b, c, Reading(input));
    match input {
      case StartRequest(sid) =>
        var r;
        net', r, c := OnStartRequest(store, net, sid, b);
        reply := Some(r);
      case StartAnswer(sid, ans, now) =>
        if sid in net.starting {
          var r;
          net', r, c := OnStartAnswer(store, net, sid, ans, now, b);
          reply := Some(r);
        } else {
          NothingServed(b.sys);
          NothingAwaited(b, input);
          return;
        }
      case Usage(sid, len, httpReq, now) =>
        var r;
        net', r, c := OnUsage(store, net, sid, len, httpReq, now, b);
        reply := Some(r);
      case UpdateAnswer(k, ans, httpReq) =>
        if k < |net.unanswered| {
          var r;
          net', r, c := OnUpdateAnswer(store, net, k, ans, httpReq, b);
          reply := Some(r);
        } else {
          NothingServed(b.sys);
          NothingAwaited(b, input);
          return;
        }
      case Close(sid, len) =>
        c := OnClose(store, sid, len, b);
      case StopRequest(sid) =>
        var r;
        r, c := OnStopRequest(store, sid, b);
        reply := Some(r);
      case StopAnswer(sid) =>
        c := OnStopAnswer(store, sid, b);
        reply := Some(Shortcut(AuthSucc, REASON_SUCCESS));
      case Tick(now, timeout) =>
        dangling, calls := OnTick(store, now, timeout, b);
        return;
    }
    ServeCall(b.sys, c);
    NotedOne(b, c, Reading(input));
    calls := [c];
  }

  lemma BooksAllocated(nodes: seq<SessionNode>, b: Books)
    requires Booked(nodes, b)
    ensures forall o: object | o in Sessions(nodes) :: allocated(o)
  {
  }

  lemma NothingServed(sys: System)
    ensures Serve(sys, []) == sys && LegalRun(sys, []) && Uncontested(sys, [])
  {
  }

  lemma NothingAwaited(b: Books, input: Input)
    requires match input
      case StartAnswer(sid, _, _) => sid !in b.sys.starting
      case UpdateAnswer(k, _, _) => k >= |b.sys.unanswered|
      case _ => false
    ensures Fits(b, input, [], false) && Answers(b, input, [], None)
  {
  }

  // ------------------------------------------------------------------ any number of inputs

  /** The books after these inputs, each with its calls. */
  ghost function After(b: Books, inputs: seq<Input>, trace: seq<seq<Call>>): Books
    requires |trace| == |inputs|
  {
    if inputs == [] then b
    else
      var m := |inputs| - 1;
      NoteAll(After(b, inputs[..m], trace[..m]), trace[m], Reading(inputs[m]))
  }

  /** The calls are those of the inputs, and the replies those of the calls; only the last input may be
      a sweep that is left dangling. */
  ghost predicate Follows(b: Books, inputs: seq<Input>, trace: seq<seq<Call>>, replies: seq<Option<Reply>>,
                          dangling: bool)
    requires |trace| == |replies| == |inputs|
  {
    if inputs == [] then !dangling
    else
      var m := |inputs| - 1;
      var before := After(b, inputs[..m], trace[..m]);
      && Follows(b, inputs[..m], trace[..m], replies[..m], false)
      && Fits(before, inputs[m], trace[m], dangling) && Answers(before, inputs[m], trace[m], replies[m])
  }

  /** All calls, one after the other. */
  ghost function Joined(trace: seq<seq<Call>>): seq<Call> {
    if trace == [] then [] else Joined(trace[..|trace| - 1]) + trace[|trace| - 1]
  }

  lemma {:induction false} AfterIsServed(b: Books, inputs: seq<Input>, trace: seq<seq<Call>>)
    requires |trace| == |inputs|
    ensures After(b, inputs, trace).sys == Serve(b.sys, Joined(trace))
  {
    if inputs != [] {
      var m := |inputs| - 1;
      AfterIsServed(b, inputs[..m], trace[..m]);
      NotedIsServed(After(b, inputs[..m], trace[..m]), trace[m], Reading(inputs[m]));
      ServeConcat(b.sys, Joined(trace[..m]), trace[m]);
    }
  }

  lemma FollowsSnoc(b: Books, inputs: seq<Input>, trace: seq<seq<Call>>, replies: seq<Option<Reply>>,
                    input: Input, calls: seq<Call>, reply: Option<Reply>, dangling: bool)
    requires |trace| == |replies| == |inputs| && Follows(b, inputs, trace, replies, false)
    requires var now := After(b, inputs, trace); Fits(now, input, calls, dangling) && Answers(now, input, calls, reply)
    ensures Follows(b, inputs + [input], trace + [calls], replies + [reply], dangling)
    ensures After(b, inputs + [input], trace + [calls]) == NoteAll(After(b, inputs, trace), calls, Reading(input))
    ensures Joined(trace + [calls]) == Joined(trace) + calls
  {
    hide Fits, Answers, NoteAll;
    var m := |inputs|;
    assert (inputs + [input])[..m] == inputs && (trace + [calls])[..m] == trace && (replies + [reply])[..m] == replies;
  }

  /** Clock readings that get into the store do not decrease, from t on. */
  ghost predicate Chronological(inputs: seq<Input>, t: nat)
    decreases |inputs|
  {
    inputs == [] ||
    (Chronological(inputs[..|inputs| - 1], t) &&
     (Timed(inputs[|inputs| - 1]) ==> Latest(inputs[..|inputs| - 1], t) <= inputs[|inputs| - 1].now))
  }

  ghost function Latest(inputs: seq<Input>, t: nat): nat {
    if inputs == [] then t
    else if Timed(inputs[|inputs| - 1]) then inputs[|inputs| - 1].now
    else Latest(inputs[..|inputs| - 1], t)
  }

  lemma ChronologicalSnoc(inputs: seq<Input>, input: Input, t: nat)
    ensures Chronological(inputs + [input], t) <==>
      Chronological(inputs, t) && (Timed(input) ==> Latest(inputs, t) <= input.now)
    ensures Latest(inputs + [input], t) == if Timed(input) then input.now else Latest(inputs, t)
  {
    assert (inputs + [input])[..|inputs|] == inputs;
  }

  lemma {:induction false} DistinctInTheEnd(sys: System, cs: seq<Call>)
    requires DistinctIds(sys) && LegalRun(sys, cs) && Uncontested(sys, cs)
    ensures DistinctIds(Serve(sys, cs))
    decreases |cs|
  {
    hide DistinctIds, Next, Legal, Occupied;
    if cs != [] {
      DistinctIdsNext(sys, cs[0]);
      DistinctInTheEnd(Next(sys, cs[0]), cs[1..]);
    }
  }

  /** With distinct identifiers no sweep is left dangling. */
  lemma FitsDistinct(b: Books, input: Input, calls: seq<Call>, dangling: bool)
    requires Fits(b, input, calls, dangling)
    ensures DistinctIds(b.sys) ==> !dangling
  {
  }

  /** The plugin in operation: whatever comes in, input by input the store goes through exactly the
      calls of the input, which make a legal run of the system, and gives their replies; it holds
      the sessions of the books in their states and their order, with their last uses. It stops
      early only when a sweep is left dangling. If clock readings do not decrease and no start is
      answered while its identifier has a session, the list stays in the order of last use, and no
      sweep is left dangling. */
  method Operate(store: Store, net0: Net, inputs: seq<Input>, ghost b: Books)
    returns (net: Net, replies: seq<Option<Reply>>, dangling: bool, ghost trace: seq<seq<Call>>)
    requires store.Valid() && Booked(store.dlist.nodes, b) && InSync(net0, b.sys)
    modifies store.Repr(), store`clock, Sessions(store.dlist.nodes)
    ensures |trace| == |replies| <= |inputs| && (!dangling ==> |replies| == |inputs|)
    ensures Follows(b, inputs[..|replies|], trace, replies, dangling) && LegalRun(b.sys, Joined(trace))
    ensures store.Valid() && Booked(store.dlist.nodes, After(b, inputs[..|replies|], trace))
    ensures InSync(net, After(b, inputs[..|replies|], trace).sys)
    ensures fresh(store.Repr() - old(store.Repr()))
    ensures forall u | u in Sessions(store.dlist.nodes) :: u in old(Sessions(store.dlist.nodes)) || fresh(u)
    ensures var handled := inputs[..|replies|];
      old(store.Ordered()) && Chronological(handled, old(store.clock)) && Uncontested(b.sys, Joined(trace))
      ==> store.Ordered()
    ensures DistinctIds(b.sys) && Uncontested(b.sys, Joined(trace)) ==> !dangling
  {
    hide *;
    net, replies, dangling, trace := net0, [], false, [];
    ghost var handled: seq<Input>, now, clock, ordered := [], b, store.clock, store.Ordered();
    NothingDone(b, inputs, clock);
    while |replies| < |inputs| && !dangling
      invariant |trace| == |replies| == |handled| <= |inputs| && handled == inputs[..|replies|]
      invariant Follows(b, handled, trace, replies, dangling) && now == After(b, handled, trace)
      invariant LegalRun(b.sys, Joined(trace)) && now.sys == Serve(b.sys, Joined(trace))
      invariant store.Valid() && Booked(store.dlist.nodes, now) && InSync(net, now.sys)
      invariant fresh(store.Repr() - old(store.Repr()))
      invariant forall u | u in Sessions(store.dlist.nodes) :: u in old(Sessions(store.dlist.nodes)) || fresh(u)
      invariant Chronological(handled, clock) ==> store.clock <= Latest(handled, clock)
      invariant DistinctIds(b.sys) && Uncontested(b.sys, Joined(trace)) ==> !dangling
      invariant ordered && Chronological(handled, clock) && Uncontested(b.sys, Joined(trace)) ==> store.Ordered()
      decreases |inputs| - |replies|
    {
      var input, reply := inputs[|replies|], None;
      ghost var calls, repr := [], store.Repr();
      label L:
      net, reply, dangling, calls := Handle(store, net, input, now);
      assert forall o: object | o in store.Repr() && o !in repr :: fresh@L(o);
      FollowsSnoc(b, handled, trace, replies, input, calls, reply, dangling);
      ServeConcat(b.sys, Joined(trace), calls);
      UncontestedConcat(b.sys, Joined(trace), calls);
      ChronologicalSnoc(handled, input, clock);
      FitsDistinct(now, input, calls, dangling);
      if DistinctIds(b.sys) && Uncontested(b.sys, Joined(trace)) {
        DistinctInTheEnd(b.sys, Joined(trace));
      }
      NotedIsServed(now, calls, Reading(input));
      assert inputs[..|replies| + 1] == handled + [input];
      now := NoteAll(now, calls, Reading(input));
      handled, trace, replies := handled + [input], trace + [calls], replies + [reply];
    }
  }

  lemma NothingDone(b: Books, inputs: seq<Input>, t: nat)
    ensures inputs[..0] == [] && Follows(b, [], [], [], false) && After(b, [], []) == b && Joined([]) == []
    ensures LegalRun(b.sys, []) && Serve(b.sys, []) == b.sys && Uncontested(b.sys, [])
    ensures Chronological([], t) && Latest([], t) == t
  {
  }

  function Empty(): Books {
    Books(System(multiset{}, map[], []), [], map[])
  }

  lemma {:induction false} AgreesInTheEnd(sys: System, cs: seq<Call>)
    requires AlwaysAgrees(sys, cs)
    ensures Agrees(Serve(sys, cs))
    decreases |cs|
  {
    hide Agrees, Next;
    if cs != [] {
      AgreesInTheEnd(Next(sys, cs[0]), cs[1..]);
    }
  }

  lemma FlagsInTheStore(nodes: seq<SessionNode>, b: Books)
    requires Booked(nodes, b) && Agrees(b.sys)
    ensures forall us | us in Sessions(nodes) :: us.pendingDReq == |Own(b.sys.unanswered, us)| <= 1
  {
    hide Own;
  }

  /** A session's fields are what the ledger makes of its own life in the run. */
  ghost predicate Told(sys: System, cs: seq<Call>, us: UserSession, s: State) {
    match Biography.PastOf(sys, cs, us)
    case None => false
    case Some(past) => Biography.TellsOf(Ledger.Story(past.ans, past.events), s)
  }

  lemma ToldInTheStore(nodes: seq<SessionNode>, b: Books, cs: seq<Call>)
    requires Booked(nodes, b) && b.sys == Serve(Empty().sys, cs)
    requires LegalRun(Empty().sys, cs) && Timely(Empty().sys, cs)
    ensures forall us | us in Sessions(nodes) :: Told(Empty().sys, cs, us, us.View())
  {
    hide Serve, LegalRun, Timely, Biography.TellsOf, Biography.PastOf;
    forall us | us in Sessions(nodes)
      ensures Told(Empty().sys, cs, us, us.View())
    {
      Biography.EveryStateIsTold(Empty().sys, cs, us);
    }
  }

  /** An answer to an update request with either AVP missing lets the request of the session found
      through, and leaves that session in error; any other answer lets it through exactly if its
      grant covers what the request waits for. */
  lemma UpdateAnswered(b: Books, k: nat, ans: Answer, httpReq: bool, calls: seq<Call>, reply: Option<Reply>)
    requires k < |b.sys.unanswered| && LegalRun(b.sys, calls)
    requires Fits(b, UpdateAnswer(k, ans, httpReq), calls, false)
    requires Answers(b, UpdateAnswer(k, ans, httpReq), calls, reply)
    ensures |calls| == 1
    ensures var found, after := calls[0].found, NoteAll(b, calls, 0).sys;
      if found == null then reply == Some(Turned(httpReq, REASON_NOBAL))
      else if Missing(ans) then
        && found in after.sessions && reply == Some(Continue) && after.sessions[found].dserverError
        && after.sessions[found].errorUsed == b.sys.sessions[found].errorUsed + b.sys.unanswered[k].request.need
      else
        && found in after.sessions && after.sessions[found].granted == ans.grant.value
        && (reply == Some(Continue) <==> ans.grant.value >= b.sys.unanswered[k].request.need)
  {
    hide Occupied;
    assert LegalRun(b.sys, calls) ==> Legal(b.sys, calls[0]);
    NotedOne(b, calls[0], 0);
    assert calls == [calls[0]];
  }

  /** A use of the session found is let through exactly if what is left covers it, a request is
      unanswered or the server has failed; otherwise it waits exactly if the last grant was not
      nothing. What is left goes down by a use that it covers, and by nothing else. */
  lemma UsageAnswered(b: Books, sid: Sid, len: nat, httpReq: bool, now: nat, calls: seq<Call>, reply: Option<Reply>)
    requires LegalRun(b.sys, calls) && Fits(b, Usage(sid, len, httpReq, now), calls, false)
    requires Answers(b, Usage(sid, len, httpReq, now), calls, reply)
    ensures |calls| == 1
    ensures var found, after := calls[0].found, NoteAll(b, calls, now).sys;
      if found == null then reply == Some(Turned(httpReq, REASON_NOUSERSESSION)) && after == b.sys
      else
        && found in b.sys.sessions && found in after.sessions
        && var s, s' := b.sys.sessions[found], after.sessions[found];
        var covered, free := s.left >= len, s.dserverError || s.pending > 0;
        && (reply == Some(if httpReq then Continue else Status(STATUS_OK)) <==> covered || free)
        && (reply == Some(Turned(httpReq, REASON_NOBAL)) <==> !covered && !free && s.granted == 0)
        && (!covered && !free && s.granted > 0 <==>
              reply == Some(Wait(Unanswered(found, Request(s.granted - s.left, len)))))
        && s'.left == s.left - (if covered then len else 0)
        && s'.errorUsed == s.errorUsed + (if !covered && free then len else 0)
  {
    hide Occupied, Minus;
    assert LegalRun(b.sys, calls) ==> Legal(b.sys, calls[0]);
    NotedOne(b, calls[0], now);
    assert calls == [calls[0]];
  }

  lemma EmptyIsRight()
    ensures Agrees(Empty().sys) && OwnOnly(Empty().sys) && DistinctIds(Empty().sys)
    ensures Booked([], Empty()) && Sessions([]) == {} && InSync(Net(multiset{}, []), Empty().sys)
  {
  }

  /** From an empty store. Theorems about runs hold of the objects in it: if every session starts when
      its identifier has neither a session nor an unanswered request, the pending flag of each
      session is the number of its requests on their way, which is at most one. */
  method OperateFromEmpty(hash: Sid -> nat, inputs: seq<Input>)
    returns (store: Store, net: Net, replies: seq<Option<Reply>>, dangling: bool, ghost trace: seq<seq<Call>>)
    ensures |trace| == |replies| <= |inputs| && (!dangling ==> |replies| == |inputs|)
    ensures Follows(Empty(), inputs[..|replies|], trace, replies, dangling)
    ensures LegalRun(Empty().sys, Joined(trace))
    ensures store.Valid() && Booked(store.dlist.nodes, After(Empty(), inputs[..|replies|], trace))
    ensures InSync(net, After(Empty(), inputs[..|replies|], trace).sys)
    ensures Uncontested(Empty().sys, Joined(trace)) ==>
      !dangling && (Chronological(inputs, 0) ==> store.Ordered())
    ensures Timely(Empty().sys, Joined(trace)) ==>
      && (forall us | us in Sessions(store.dlist.nodes) :: us.pendingDReq == |Own(net.unanswered, us)| <= 1)
      && (forall us | us in Sessions(store.dlist.nodes) :: Told(Empty().sys, Joined(trace), us, us.View()))
  {
    hide *;
    store := new Store(hash);
    EmptyIsRight();
    net, replies, dangling, trace := Operate(store, Net(multiset{}, []), inputs, Empty());
    ghost var cs, after := Joined(trace), After(Empty(), inputs[..|replies|], trace);
    assert |replies| == |inputs| ==> inputs[..|replies|] == inputs;
    AfterIsServed(Empty(), inputs[..|replies|], trace);
    if Timely(Empty().sys, cs) {
      TimelyRunsAgree(Empty().sys, cs);
      AgreesInTheEnd(Empty().sys, cs);
      FlagsInTheStore(store.dlist.nodes, after);
      ToldInTheStore(store.dlist.nodes, after, cs);
      Synced(net, after.sys);
    }
  }

  lemma Synced(net: Net, sys: System)
    requires InSync(net, sys)
    ensures net.unanswered == sys.unanswered
  {
  }
}
