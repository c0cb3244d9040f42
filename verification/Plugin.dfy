/** All sessions together: src/trplugin.c over the session store. Requests and answers name a
    session only by its identifier, and which session a look-up finds is the store's affair, so an
    answer can reach another session than the one that asked for it. */
module Plugin {
  import opened Sequences
  import opened Quota
  import opened SessionStore
  import UtList
  import opened Wrappers

  /** An update request on its way to the server, and the session that sent it. */
  datatype Unanswered = Unanswered(from: UserSession, request: Request)

  /** The start requests on their way, by identifier; the sessions; the update requests. */
  datatype System = System(starting: multiset<Sid>, sessions: map<UserSession, State>, unanswered: seq<Unanswered>)

  /** What happens, with the session that the look-up of the identifier has found. */
  datatype Call =
    | Checked(sid: Sid, found: UserSession?)            // the check of a start request
    | Started(us: UserSession, ans: Answer)             // start_session_cb
    | Used(sid: Sid, found: UserSession?, len: nat)     // update_session
    | Charged(sid: Sid, found: UserSession?, len: nat)  // postprocess_any_request
    | Replied(k: nat, found: UserSession?, ans: Answer) // update_session_cb
    | Stopping(sid: Sid, found: UserSession?)           // end_session
    | Dropped(sid: Sid, found: UserSession?)            // end_session_cb, or the session expires

  /** What find_user_session promises: a session with the identifier, if there is any. */
  ghost predicate Finds(sys: System, sid: Sid, found: UserSession?) {
    if found == null then !Occupied(sys, sid) else found in sys.sessions && found.sid == sid
  }

  ghost predicate Occupied(sys: System, sid: Sid) {
    exists us | us in sys.sessions :: us.sid == sid
  }

  /** What is true of every call: look-ups are right, a session that starts is a new object, and
      its start request was on its way. */
  ghost predicate Legal(sys: System, c: Call) {
    match c
    case Started(us, _) =>
      us !in sys.sessions && us.sid in sys.starting && forall u | u in sys.unanswered :: u.from != us
    case Replied(k, found, _) => k < |sys.unanswered| ==> Finds(sys, sys.unanswered[k].from.sid, found)
    case _ => Finds(sys, c.sid, c.found)
  }

  function Next(sys: System, c: Call): System {
    match c
    case Checked(sid, found) =>
      if found != null then sys else sys.(starting := sys.starting + multiset{sid})
    case Started(us, ans) =>
      System(sys.starting - multiset{us.sid}, sys.sessions[us := OnStart(ans)], sys.unanswered)
    case Used(_, found, len) =>
      if found == null || found !in sys.sessions then sys
      else
        var (s, verdict) := OnUse(sys.sessions[found], len);
        sys.(sessions := sys.sessions[found := s],
             unanswered := if verdict.Ask? then sys.unanswered + [Unanswered(found, verdict.request)]
                           else sys.unanswered)
    case Charged(_, found, len) =>
      if found == null || found !in sys.sessions then sys
      else sys.(sessions := sys.sessions[found := OnPost(sys.sessions[found], len)])
    case Replied(k, found, ans) =>
      if k >= |sys.unanswered| then sys
      else
        var need := sys.unanswered[k].request.need;
        sys.(sessions := if found == null || found !in sys.sessions then sys.sessions
                         else sys.sessions[found := OnAnswer(sys.sessions[found], need, Decide(need, ans)).0],
             unanswered := Without(sys.unanswered, k))
    case Stopping(_, _) => sys
    case Dropped(_, found) =>
      if found == null then sys else sys.(sessions := sys.sessions - {found})
  }

  ghost predicate LegalRun(sys: System, cs: seq<Call>)
    decreases |cs|
  {
    cs == [] || (Legal(sys, cs[0]) && LegalRun(Next(sys, cs[0]), cs[1..]))
  }

  function Serve(sys: System, cs: seq<Call>): System
    decreases |cs|
  {
    if cs == [] then sys else Serve(Next(sys, cs[0]), cs[1..])
  }

  lemma ServeSnoc(sys: System, cs: seq<Call>, c: Call)
    ensures Serve(sys, cs + [c]) == Next(Serve(sys, cs), c)
    ensures LegalRun(sys, cs + [c]) <==> LegalRun(sys, cs) && Legal(Serve(sys, cs), c)
    decreases |cs|
  {
    hide Next, Legal;
    if cs == [] {
      assert cs + [c] == [c] && [c][1..] == [];
      assert Serve(sys, [c]) == Serve(Next(sys, c), []) && LegalRun(Next(sys, c), []);
    } else {
      assert (cs + [c])[1..] == cs[1..] + [c];
      ServeSnoc(Next(sys, cs[0]), cs[1..], c);
    }
  }

  // ------------------------------------------------------------------ one session's requests

  /** The unanswered requests a session has sent. */
  function Own(us: seq<Unanswered>, from: UserSession): seq<Request> {
    if us == [] then []
    else
      var last := us[|us| - 1];
      Own(us[..|us| - 1], from) + if last.from == from then [last.request] else []
  }

  lemma OwnSnoc(us: seq<Unanswered>, u: Unanswered, from: UserSession)
    ensures Own([], from) == []
    ensures Own(us + [u], from) == Own(us, from) + if u.from == from then [u.request] else []
  {
    assert (us + [u])[..|us|] == us;
  }

  lemma {:induction false} OwnConcat(us: seq<Unanswered>, vs: seq<Unanswered>, from: UserSession)
    ensures Own(us + vs, from) == Own(us, from) + Own(vs, from)
  {
    if vs == [] {
      assert us + vs == us;
    } else {
      var last, rest := vs[|vs| - 1], vs[..|vs| - 1];
      assert us + vs == (us + rest) + [last];
      OwnSnoc(us + rest, last, from);
      OwnConcat(us, rest, from);
    }
  }

  /** Taking one request out: it is the one numbered by the own requests before it. */
  lemma OwnWithout(us: seq<Unanswered>, k: nat, from: UserSession)
    requires k < |us|
    ensures var j := |Own(us[..k], from)|;
      if us[k].from == from then
        && j < |Own(us, from)| && Own(us, from)[j] == us[k].request
        && Own(Without(us, k), from) == Without(Own(us, from), j)
        && |Own(Without(us, k), from)| == |Own(us, from)| - 1
      else
        Own(Without(us, k), from) == Own(us, from)
  {
    hide Own;
    assert us == (us[..k] + [us[k]]) + us[k + 1..];
    OwnConcat(us[..k] + [us[k]], us[k + 1..], from);
    OwnSnoc(us[..k], us[k], from);
    OwnConcat(us[..k], us[k + 1..], from);
  }

  lemma {:induction false} OwnNone(us: seq<Unanswered>, from: UserSession)
    requires forall u | u in us :: u.from != from
    ensures Own(us, from) == []
  {
    if us != [] {
      assert us[|us| - 1] in us && forall u | u in us[..|us| - 1] :: u in us;
      OwnNone(us[..|us| - 1], from);
    }
  }

  // ------------------------------------------------------------------ one session in the crowd

  /** What a call means to a session. */
  function Local(sys: System, c: Call, us: UserSession): seq<Event> {
    match c
    case Used(_, found, len) => if found == us then [Use(len)] else []
    case Charged(_, found, len) => if found == us then [Post(len)] else []
    case Replied(k, _, ans) =>
      if k < |sys.unanswered| && sys.unanswered[k].from == us then
        [Answered(|Own(sys.unanswered[..k], us)|, ans)]
      else []
    case Stopping(_, found) => if found == us then [StopSent] else []
    case Dropped(_, found) => if found == us then [Deleted] else []
    case _ => []
  }

  function Life(sys: System, cs: seq<Call>, us: UserSession): seq<Event>
    decreases |cs|
  {
    if cs == [] then [] else Local(sys, cs[0], us) + Life(Next(sys, cs[0]), cs[1..], us)
  }

  /** An answer goes astray: the session still exists, but another one is found for the answer to
      its request; or it is found for the answer to a request of another. */
  ghost predicate Crosses(sys: System, c: Call, us: UserSession) {
    c.Replied? && c.k < |sys.unanswered| &&
    if sys.unanswered[c.k].from == us then us in sys.sessions && c.found != us else c.found == us
  }

  /** A session is not started again and no answer goes astray from it or to it. */
  ghost predicate Undisturbed(sys: System, cs: seq<Call>, us: UserSession)
    decreases |cs|
  {
    cs == [] ||
    (&& !Crosses(sys, cs[0], us) && !(cs[0].Started? && cs[0].us == us)
     && Undisturbed(Next(sys, cs[0]), cs[1..], us))
  }

  /** The world of one session is what the system has for it. */
  ghost predicate Shows(sys: System, us: UserSession, w: World) {
    && (us in sys.sessions <==> w.alive) && (w.alive ==> w.s == sys.sessions[us])
    && w.outstanding == Own(sys.unanswered, us)
  }

  lemma CallIsLocal(sys: System, c: Call, us: UserSession, w: World)
    requires Legal(sys, c) && Shows(sys, us, w) && !Crosses(sys, c, us) && !(c.Started? && c.us == us)
    ensures Shows(Next(sys, c), us, Run(w, Local(sys, c, us)))
  {
    hide Run, Own, Decide;
    match c
    case Used(_, found, len) =>
      RunOne(w, Use(len));
      if found != null {
        var verdict := OnUse(sys.sessions[found], len).1;
        if verdict.Ask? {
          OwnSnoc(sys.unanswered, Unanswered(found, verdict.request), us);
        }
      }
    case Charged(_, found, len) =>
      RunOne(w, Post(len));
    case Replied(k, found, ans) =>
      var j := if k < |sys.unanswered| then |Own(sys.unanswered[..k], us)| else 0;
      RunOne(w, Answered(j, ans));
      if k < |sys.unanswered| {
        OwnWithout(sys.unanswered, k, us);
      }
    case Stopping(_, _) =>
      RunOne(w, StopSent);
    case Dropped(_, _) =>
      RunOne(w, Deleted);
    case _ =>
      RunOne(w, StopSent);
  }

  /** Whatever happens to other sessions in between, a session lives through exactly the run of
      its own events, to its end and beyond. */
  lemma {:induction false} LifeIsRun(sys: System, cs: seq<Call>, us: UserSession, w: World)
    requires LegalRun(sys, cs) && Shows(sys, us, w) && Undisturbed(sys, cs, us)
    ensures Shows(Serve(sys, cs), us, Run(w, Life(sys, cs, us)))
    decreases |cs|
  {
    hide Shows, Next, Local, Run, Crosses;
    if cs != [] {
      var first := Local(sys, cs[0], us);
      CallIsLocal(sys, cs[0], us, w);
      LifeIsRun(Next(sys, cs[0]), cs[1..], us, Run(w, first));
      RunConcat(w, first, Life(Next(sys, cs[0]), cs[1..], us));
    } else {
      RunOne(w, StopSent);
    }
  }

  /** Conservation in the crowd, exactly: as long as an undisturbed session lives and has no request
      unanswered, its reports and its stop request add up to its usage if and only if the leaks
      of its own life cancel out. */
  lemma CrowdConserves(sys: System, us: UserSession, ans: Answer, cs: seq<Call>)
    requires Legal(sys, Started(us, ans))
    requires var begun := Next(sys, Started(us, ans)); LegalRun(begun, cs) && Undisturbed(begun, cs, us)
    ensures var begun := Next(sys, Started(us, ans));
      var life, end := Life(begun, cs, us), Serve(begun, cs);
      var w := Run(Opened(ans), life);
      && Shows(end, us, w)
      && (us in end.sessions && Own(end.unanswered, us) == [] ==>
            (w.reported + StopReport(end.sessions[us]) == w.admitted + w.posted <==> Leaks(Opened(ans), life) == 0))
  {
    hide Run, Serve, Leaks, LegalRun, Undisturbed, Own;
    var begun := Next(sys, Started(us, ans));
    OwnNone(sys.unanswered, us);
    assert Shows(begun, us, Opened(ans));
    LifeIsRun(begun, cs, us, Opened(ans));
    ReportedExactlyWhenNothingLeaks(ans, Life(begun, cs, us));
  }

  // ------------------------------------------------------------------ where answers go

  ghost predicate DistinctIds(sys: System) {
    forall u, v | u in sys.sessions && v in sys.sessions :: u.sid == v.sid ==> u == v
  }

  /** Every answer on its way can only find the session that asked, or none. */
  ghost predicate OwnOnly(sys: System) {
    DistinctIds(sys) &&
    forall u, us | u in sys.unanswered && us in sys.sessions :: u.from.sid == us.sid ==> u.from == us
  }

  ghost predicate AlwaysOwnOnly(sys: System, cs: seq<Call>)
    decreases |cs|
  {
    OwnOnly(sys) && (cs != [] ==> AlwaysOwnOnly(Next(sys, cs[0]), cs[1..]))
  }

  /** A session starts when its identifier has neither a session nor an unanswered request. */
  ghost predicate TimelyCall(sys: System, c: Call) {
    c.Started? ==> !Occupied(sys, c.us.sid) && forall u | u in sys.unanswered :: u.from.sid != c.us.sid
  }

  ghost predicate Timely(sys: System, cs: seq<Call>)
    decreases |cs|
  {
    cs == [] || (TimelyCall(sys, cs[0]) && Timely(Next(sys, cs[0]), cs[1..]))
  }

  lemma OwnOnlyNext(sys: System, c: Call)
    requires OwnOnly(sys) && Legal(sys, c)
    ensures OwnOnly(Next(sys, c)) <==> TimelyCall(sys, c)
  {
    var next := Next(sys, c);
    match c
    case Started(us, ans) =>
      assert us in next.sessions && forall v | v in sys.sessions :: v in next.sessions;
    case Used(_, found, len) =>
      assert forall u | u in next.unanswered :: u in sys.unanswered || u.from == found;
    case Replied(k, found, ans) =>
      if k < |sys.unanswered| {
        assert forall u | u in next.unanswered :: u in sys.unanswered;
      }
    case _ =>
  }

  /** Throughout a run answers can only reach the session that asked exactly if every session of
      the run starts in time. */
  lemma {:induction false} AnswersReachTheAskerExactlyWhenTimely(sys: System, cs: seq<Call>)
    requires OwnOnly(sys) && LegalRun(sys, cs)
    ensures AlwaysOwnOnly(sys, cs) <==> Timely(sys, cs)
    decreases |cs|
  {
    hide OwnOnly, Next, Legal, TimelyCall;
    if cs != [] {
      OwnOnlyNext(sys, cs[0]);
      if OwnOnly(Next(sys, cs[0])) {
        AnswersReachTheAskerExactlyWhenTimely(Next(sys, cs[0]), cs[1..]);
      }
    }
  }

  lemma OwnOnlyNeverCrosses(sys: System, c: Call, us: UserSession)
    requires OwnOnly(sys) && Legal(sys, c)
    ensures !Crosses(sys, c, us)
  {
    if c.Replied? && c.k < |sys.unanswered| {
      assert sys.unanswered[c.k] in sys.unanswered;
    }
  }

  /** In such a run every session is undisturbed once it has started. */
  lemma {:induction false} TimelyIsUndisturbed(sys: System, cs: seq<Call>, us: UserSession)
    requires LegalRun(sys, cs) && AlwaysOwnOnly(sys, cs)
    requires forall k :: 0 <= k < |cs| ==> !(cs[k].Started? && cs[k].us == us)
    ensures Undisturbed(sys, cs, us)
    decreases |cs|
  {
    hide OwnOnly, Next, Legal, Crosses;
    if cs != [] {
      OwnOnlyNeverCrosses(sys, cs[0], us);
      TimelyIsUndisturbed(Next(sys, cs[0]), cs[1..], us);
    }
  }

  // ------------------------------------------------------------------ distinct identifiers

  /** Every identifier has at most one session or start request on its way. */
  ghost predicate SingleClaim(sys: System) {
    DistinctIds(sys) && forall sid :: sys.starting[sid] <= 1 && (sid in sys.starting ==> !Occupied(sys, sid))
  }

  ghost predicate AlwaysSingleClaim(sys: System, cs: seq<Call>)
    decreases |cs|
  {
    SingleClaim(sys) && (cs != [] ==> AlwaysSingleClaim(Next(sys, cs[0]), cs[1..]))
  }

  /** No start request passes the check while another one for its identifier is on its way. */
  ghost predicate Careful(sys: System, cs: seq<Call>)
    decreases |cs|
  {
    cs == [] ||
    ((cs[0].Checked? && cs[0].found == null ==> cs[0].sid !in sys.starting) && Careful(Next(sys, cs[0]), cs[1..]))
  }

  lemma SingleClaimNext(sys: System, c: Call)
    requires SingleClaim(sys) && Legal(sys, c)
    ensures SingleClaim(Next(sys, c)) <==> (c.Checked? && c.found == null ==> c.sid !in sys.starting)
  {
    var next := Next(sys, c);
    SameIds(sys, next);
    match c
    case Checked(sid, found) =>
      if found == null && sid in sys.starting {
        assert next.starting[sid] == 2;
      }
    case Started(us, ans) =>
      assert forall sid :: next.starting[sid] == if sid == us.sid then 0 else sys.starting[sid];
      assert forall sid | sid in next.starting :: sid in sys.starting;
    case _ =>
      assert next.starting == sys.starting;
  }

  lemma SameIds(sys: System, next: System)
    ensures next.sessions.Keys <= sys.sessions.Keys ==>
      (forall sid :: Occupied(next, sid) ==> Occupied(sys, sid)) && (DistinctIds(sys) ==> DistinctIds(next))
  {
    assert forall u | u in next.sessions :: u in next.sessions.Keys;
  }

  /** The check of the start request keeps identifiers single throughout a run, sessions and start
      requests taken together, exactly if none passes it while another one is on its way. */
  lemma {:induction false} ClaimsStaySingleExactlyWhenCareful(sys: System, cs: seq<Call>)
    requires SingleClaim(sys) && LegalRun(sys, cs)
    ensures AlwaysSingleClaim(sys, cs) <==> Careful(sys, cs)
    decreases |cs|
  {
    hide SingleClaim, Next, Legal;
    if cs != [] {
      SingleClaimNext(sys, cs[0]);
      if SingleClaim(Next(sys, cs[0])) {
        ClaimsStaySingleExactlyWhenCareful(Next(sys, cs[0]), cs[1..]);
      }
    }
  }

  ghost predicate AlwaysDistinct(sys: System, cs: seq<Call>)
    decreases |cs|
  {
    DistinctIds(sys) && (cs != [] ==> AlwaysDistinct(Next(sys, cs[0]), cs[1..]))
  }

  /** No start is answered while its identifier has a session. */
  ghost predicate Uncontested(sys: System, cs: seq<Call>)
    decreases |cs|
  {
    cs == [] || ((cs[0].Started? ==> !Occupied(sys, cs[0].us.sid)) && Uncontested(Next(sys, cs[0]), cs[1..]))
  }

  lemma DistinctIdsNext(sys: System, c: Call)
    requires DistinctIds(sys) && Legal(sys, c)
    ensures DistinctIds(Next(sys, c)) <==> (c.Started? ==> !Occupied(sys, c.us.sid))
  {
    var next := Next(sys, c);
    SameIds(sys, next);
    if c.Started? {
      assert c.us in next.sessions && forall v | v in sys.sessions :: v in next.sessions;
    }
  }

  /** The sessions of a run have distinct identifiers throughout exactly if no start is answered
      while its identifier has a session. */
  lemma {:induction false} IdsStayDistinctExactlyWhenUncontested(sys: System, cs: seq<Call>)
    requires DistinctIds(sys) && LegalRun(sys, cs)
    ensures AlwaysDistinct(sys, cs) <==> Uncontested(sys, cs)
    decreases |cs|
  {
    hide DistinctIds, Next, Legal, Occupied;
    if cs != [] {
      DistinctIdsNext(sys, cs[0]);
      if DistinctIds(Next(sys, cs[0])) {
        IdsStayDistinctExactlyWhenUncontested(Next(sys, cs[0]), cs[1..]);
      }
    }
  }

  // ------------------------------------------------------------------ the pending flag

  /** Every session's pending flag counts its unanswered requests. */
  ghost predicate Agrees(sys: System) {
    forall us | us in sys.sessions :: sys.sessions[us].pending == |Own(sys.unanswered, us)| <= 1
  }

  ghost predicate AlwaysAgrees(sys: System, cs: seq<Call>)
    decreases |cs|
  {
    Agrees(sys) && (cs != [] ==> AlwaysAgrees(Next(sys, cs[0]), cs[1..]))
  }

  /** An answer finds another session than the one that asked, and either that one still exists or
      the one found is waiting for an answer of its own. */
  ghost predicate Harms(sys: System, c: Call) {
    c.Replied? && c.k < |sys.unanswered| &&
    var from := sys.unanswered[c.k].from;
    c.found != from && (from in sys.sessions || (c.found != null && Own(sys.unanswered, c.found) != []))
  }

  ghost predicate Unharmed(sys: System, cs: seq<Call>)
    decreases |cs|
  {
    cs == [] || (!Harms(sys, cs[0]) && Unharmed(Next(sys, cs[0]), cs[1..]))
  }

  lemma AgreesNext(sys: System, c: Call)
    requires Agrees(sys) && Legal(sys, c)
    ensures Agrees(Next(sys, c)) <==> !Harms(sys, c)
  {
    hide Own, Without, Decide, Finds;
    match c
    case Started(us, ans) =>
      OwnNone(sys.unanswered, us);
    case Used(sid, found, len) =>
      AgreesUsed(sys, sid, found, len);
    case Replied(k, found, ans) =>
      AgreesReplied(sys, k, found, ans);
    case _ =>
  }

  lemma AgreesUsed(sys: System, sid: Sid, found: UserSession?, len: nat)
    requires Agrees(sys)
    ensures Agrees(Next(sys, Used(sid, found, len)))
  {
    hide Own, Decide;
    if found != null && found in sys.sessions {
      var verdict := OnUse(sys.sessions[found], len).1;
      if verdict.Ask? {
        forall us: UserSession {
          OwnSnoc(sys.unanswered, Unanswered(found, verdict.request), us);
        }
      }
    }
  }

  lemma AgreesReplied(sys: System, k: nat, found: UserSession?, ans: Answer)
    requires Agrees(sys) && Legal(sys, Replied(k, found, ans))
    ensures Agrees(Next(sys, Replied(k, found, ans))) <==> !Harms(sys, Replied(k, found, ans))
  {
    hide Own, Without, Decide;
    if k < |sys.unanswered| {
      var next, from := Next(sys, Replied(k, found, ans)), sys.unanswered[k].from;
      forall us: UserSession {
        OwnWithout(sys.unanswered, k, us);
      }
      assert from in sys.sessions ==> from in next.sessions;
      assert found != null ==> found in next.sessions && next.sessions[found].pending == 0;
    }
  }

  /** The flags agree throughout a run exactly if no answer does such harm. */
  lemma {:induction false} FlagsAgreeExactlyWhenUnharmed(sys: System, cs: seq<Call>)
    requires Agrees(sys) && LegalRun(sys, cs)
    ensures AlwaysAgrees(sys, cs) <==> Unharmed(sys, cs)
    decreases |cs|
  {
    hide Agrees, Next, Legal, Harms;
    if cs != [] {
      AgreesNext(sys, cs[0]);
      if Agrees(Next(sys, cs[0])) {
        FlagsAgreeExactlyWhenUnharmed(Next(sys, cs[0]), cs[1..]);
      }
    }
  }

  lemma OwnOnlyNeverHarms(sys: System, c: Call)
    requires OwnOnly(sys) && Legal(sys, c)
    ensures !Harms(sys, c)
  {
    if c.Replied? && c.k < |sys.unanswered| {
      assert sys.unanswered[c.k] in sys.unanswered;
    }
  }

  /** So on a run whose sessions start in time no session ever has two requests unanswered. */
  lemma {:induction false} TimelyRunsAgree(sys: System, cs: seq<Call>)
    requires Agrees(sys) && OwnOnly(sys) && LegalRun(sys, cs) && Timely(sys, cs)
    ensures AlwaysAgrees(sys, cs)
    decreases |cs|
  {
    hide Agrees, OwnOnly, Next, Legal, Harms, TimelyCall;
    if cs != [] {
      OwnOnlyNext(sys, cs[0]);
      OwnOnlyNeverHarms(sys, cs[0]);
      AgreesNext(sys, cs[0]);
      TimelyRunsAgree(Next(sys, cs[0]), cs[1..]);
    }
  }

  /** A session with the flag set has a request unanswered, so the flag will be cleared. */
  ghost predicate Awaited(sys: System) {
    forall us | us in sys.sessions ::
      sys.sessions[us].pending <= 1 && (sys.sessions[us].pending > 0 ==> Own(sys.unanswered, us) != [])
  }

  /** The last answer a waiting session has to expect goes to another one. */
  ghost predicate Strands(sys: System, c: Call) {
    c.Replied? && c.k < |sys.unanswered| &&
    var from := sys.unanswered[c.k].from;
    && c.found != from && from in sys.sessions
    && sys.sessions[from].pending > 0 && |Own(sys.unanswered, from)| == 1
  }

  ghost predicate Unstranded(sys: System, cs: seq<Call>)
    decreases |cs|
  {
    cs == [] || (!Strands(sys, cs[0]) && Unstranded(Next(sys, cs[0]), cs[1..]))
  }

  ghost predicate AlwaysAwaited(sys: System, cs: seq<Call>)
    decreases |cs|
  {
    Awaited(sys) && (cs != [] ==> AlwaysAwaited(Next(sys, cs[0]), cs[1..]))
  }

  lemma AwaitedNext(sys: System, c: Call)
    requires Awaited(sys) && Legal(sys, c)
    ensures Awaited(Next(sys, c)) <==> !Strands(sys, c)
  {
    hide Own, Without, Decide, Finds;
    match c
    case Used(sid, found, len) =>
      AwaitedUsed(sys, sid, found, len);
    case Replied(k, found, ans) =>
      AwaitedReplied(sys, k, found, ans);
    case _ =>
  }

  lemma AwaitedUsed(sys: System, sid: Sid, found: UserSession?, len: nat)
    requires Awaited(sys)
    ensures Awaited(Next(sys, Used(sid, found, len)))
  {
    hide Own, Decide;
    if found != null && found in sys.sessions {
      var verdict := OnUse(sys.sessions[found], len).1;
      if verdict.Ask? {
        forall us: UserSession {
          OwnSnoc(sys.unanswered, Unanswered(found, verdict.request), us);
        }
      }
    }
  }

  lemma AwaitedReplied(sys: System, k: nat, found: UserSession?, ans: Answer)
    requires Awaited(sys) && Legal(sys, Replied(k, found, ans))
    ensures Awaited(Next(sys, Replied(k, found, ans))) <==> !Strands(sys, Replied(k, found, ans))
  {
    hide Own, Without, Decide;
    if k < |sys.unanswered| {
      var next, from := Next(sys, Replied(k, found, ans)), sys.unanswered[k].from;
      forall us: UserSession {
        OwnWithout(sys.unanswered, k, us);
      }
      assert from in sys.sessions ==> from in next.sessions;
      assert found != null ==> found in next.sessions && next.sessions[found].pending == 0;
    }
  }

  /** Throughout a run no session waits for an answer that cannot come, exactly if no session is
      stranded by a wrong look-up. */
  lemma {:induction false} NobodyWaitsExactlyWhenUnstranded(sys: System, cs: seq<Call>)
    requires Awaited(sys) && LegalRun(sys, cs)
    ensures AlwaysAwaited(sys, cs) <==> Unstranded(sys, cs)
    decreases |cs|
  {
    hide Awaited, Next, Legal, Strands;
    if cs != [] {
      AwaitedNext(sys, cs[0]);
      if Awaited(Next(sys, cs[0])) {
        NobodyWaitsExactlyWhenUnstranded(Next(sys, cs[0]), cs[1..]);
      }
    }
  }

  lemma DistinctNeverStrands(sys: System, c: Call)
    requires DistinctIds(sys) && Legal(sys, c)
    ensures !Strands(sys, c)
  {
  }

  /** With distinct identifiers that is never the case, late answers included. */
  lemma {:induction false} NobodyWaitsForNothing(sys: System, cs: seq<Call>)
    requires Awaited(sys) && LegalRun(sys, cs) && AlwaysDistinct(sys, cs)
    ensures AlwaysAwaited(sys, cs)
    decreases |cs|
  {
    hide Awaited, DistinctIds, Next, Legal, Strands;
    if cs != [] {
      DistinctNeverStrands(sys, cs[0]);
      AwaitedNext(sys, cs[0]);
      NobodyWaitsForNothing(Next(sys, cs[0]), cs[1..]);
    }
  }

  // ------------------------------------------------------------------ runs that go wrong

  lemma ServeNext(sys: System, cs: seq<Call>, i: nat)
    requires i < |cs|
    ensures Serve(sys, cs[..i + 1]) == Next(Serve(sys, cs[..i]), cs[i])
    ensures LegalRun(sys, cs[..i + 1]) <==> LegalRun(sys, cs[..i]) && Legal(Serve(sys, cs[..i]), cs[i])
    ensures Serve(sys, cs[..0]) == sys && LegalRun(sys, cs[..0]) && cs[..|cs|] == cs
  {
    assert cs[..i + 1] == cs[..i] + [cs[i]];
    ServeSnoc(sys, cs[..i], cs[i]);
  }

  /** The run has come to s after i calls. */
  ghost predicate At(cs: seq<Call>, i: nat, s: System)
    requires i <= |cs|
  {
    Serve(System(multiset{}, map[], []), cs[..i]) == s && LegalRun(System(multiset{}, map[], []), cs[..i])
  }

  lemma OneStep(cs: seq<Call>, i: nat, s: System, t: System)
    requires i < |cs| && (i == 0 ==> s == System(multiset{}, map[], []))
    requires (i > 0 ==> At(cs, i, s)) && Legal(s, cs[i]) && Next(s, cs[i]) == t
    ensures At(cs, i + 1, t)
  {
    hide Legal, Next;
    ServeNext(System(multiset{}, map[], []), cs, i);
  }

  const ONE := Answer(Some(2001), Some(1))
  const FIVE := Answer(Some(2001), Some(5))

  function LateRun(a: UserSession, b: UserSession): seq<Call> {
    [Checked(a.sid, null), Started(a, ONE), Used(a.sid, a, 5), Dropped(a.sid, a),
     Checked(a.sid, null), Started(b, ONE), Used(a.sid, b, 5), Replied(0, b, FIVE), Used(a.sid, b, 5)]
  }

  lemma LateRunBegins(a: UserSession, b: UserSession)
    requires a != b && a.sid == b.sid
    ensures At(LateRun(a, b), 4, System(multiset{}, map[], [Unanswered(a, Request(0, 5))]))
  {
    hide At;
    var cs, sid, none := LateRun(a, b), a.sid, multiset{};
    var ua, begun, asking := Unanswered(a, Request(0, 5)), State(1, 1, 0, 0, false), State(1, 1, 0, 1, false);
    OneStep(cs, 0, System(none, map[], []), System(multiset{sid}, map[], []));
    OneStep(cs, 1, System(multiset{sid}, map[], []), System(none, map[a := begun], []));
    assert [] + [ua] == [ua];
    OneStep(cs, 2, System(none, map[a := begun], []), System(none, map[a := asking], [ua]));
    assert map[a := asking] - {a} == map[];
    OneStep(cs, 3, System(none, map[a := asking], [ua]), System(none, map[], [ua]));
  }

  lemma LateRunGoesOn(a: UserSession, b: UserSession)
    requires a != b && a.sid == b.sid
    ensures var ua, ub := Unanswered(a, Request(0, 5)), Unanswered(b, Request(0, 5));
      At(LateRun(a, b), 7, System(multiset{}, map[b := State(1, 1, 0, 1, false)], [ua, ub]))
  {
    hide At;
    LateRunBegins(a, b);
    var cs, sid, none := LateRun(a, b), a.sid, multiset{};
    var ua, ub := Unanswered(a, Request(0, 5)), Unanswered(b, Request(0, 5));
    var begun, asking := State(1, 1, 0, 0, false), State(1, 1, 0, 1, false);
    OneStep(cs, 4, System(none, map[], [ua]), System(multiset{sid}, map[], [ua]));
    OneStep(cs, 5, System(multiset{sid}, map[], [ua]), System(none, map[b := begun], [ua]));
    assert [ua] + [ub] == [ua, ub];
    OneStep(cs, 6, System(none, map[b := begun], [ua]), System(none, map[b := asking], [ua, ub]));
  }

  /** An untimely start: the answer to a request of an expired session clears the flag of the
      session that has its identifier now, which then has two requests unanswered. */
  lemma LateAnswer(a: UserSession, b: UserSession)
    requires a != b && a.sid == b.sid
    ensures var end := Serve(System(multiset{}, map[], []), LateRun(a, b));
      && LegalRun(System(multiset{}, map[], []), LateRun(a, b))
      && b in end.sessions && end.sessions[b].pending == 1 && |Own(end.unanswered, b)| == 2
  {
    hide At, Own;
    LateRunGoesOn(a, b);
    var cs, none := LateRun(a, b), multiset{};
    var ua, ub, uc := Unanswered(a, Request(0, 5)), Unanswered(b, Request(0, 5)), Unanswered(b, Request(5, 5));
    var asking, granted, again := State(1, 1, 0, 1, false), State(5, 0, 0, 0, false), State(5, 0, 0, 1, false);
    assert Without([ua, ub], 0) == [ub];
    OneStep(cs, 7, System(none, map[b := asking], [ua, ub]), System(none, map[b := granted], [ub]));
    assert [ub] + [uc] == [ub, uc] && [] + [ub] == [ub];
    OneStep(cs, 8, System(none, map[b := granted], [ub]), System(none, map[b := again], [ub, uc]));
    LastStep(cs, System(none, map[b := again], [ub, uc]));
    OwnSnoc([], ub, b);
    OwnSnoc([ub], uc, b);
  }

  lemma LastStep(cs: seq<Call>, s: System)
    requires At(cs, |cs|, s)
    ensures Serve(System(multiset{}, map[], []), cs) == s && LegalRun(System(multiset{}, map[], []), cs)
  {
    assert cs[..|cs|] == cs;
  }

  function ContestedRun(a: UserSession, b: UserSession): seq<Call> {
    [Checked(a.sid, null), Checked(a.sid, null), Started(a, ONE), Used(a.sid, a, 5),
     Started(b, ONE), Replied(0, b, FIVE)]
  }

  lemma ContestedRunBegins(a: UserSession, b: UserSession)
    requires a != b && a.sid == b.sid
    ensures At(ContestedRun(a, b), 3, System(multiset{a.sid}, map[a := State(1, 1, 0, 0, false)], []))
  {
    hide At;
    var cs, sid := ContestedRun(a, b), a.sid;
    OneStep(cs, 0, System(multiset{}, map[], []), System(multiset{sid}, map[], []));
    OneStep(cs, 1, System(multiset{sid}, map[], []), System(multiset{sid, sid}, map[], []));
    OneStep(cs, 2, System(multiset{sid, sid}, map[], []),
            System(multiset{sid}, map[a := State(1, 1, 0, 0, false)], []));
  }

  /** Two start requests pass the check for one identifier: there are two sessions, the answer to
      the first one's request finds the second, and the first waits for ever. */
  lemma ContestedStart(a: UserSession, b: UserSession)
    requires a != b && a.sid == b.sid
    ensures var end := Serve(System(multiset{}, map[], []), ContestedRun(a, b));
      && LegalRun(System(multiset{}, map[], []), ContestedRun(a, b)) && !DistinctIds(end)
      && a in end.sessions && end.sessions[a].pending == 1 && end.unanswered == []
  {
    hide At;
    ContestedRunBegins(a, b);
    var cs, ids := ContestedRun(a, b), multiset{a.sid};
    var ua := Unanswered(a, Request(0, 5));
    var begun, asking, granted := State(1, 1, 0, 0, false), State(1, 1, 0, 1, false), State(5, 0, 0, 0, false);
    assert [] + [ua] == [ua] && Without([ua], 0) == [];
    OneStep(cs, 3, System(ids, map[a := begun], []), System(ids, map[a := asking], [ua]));
    var both := System(multiset{}, map[a := asking, b := begun], [ua]);
    OneStep(cs, 4, System(ids, map[a := asking], [ua]), both);
    var end := System(multiset{}, map[a := asking, b := granted], []);
    OneStep(cs, 5, both, end);
    LastStep(cs, end);
    assert a in end.sessions && b in end.sessions;
  }

  // ------------------------------------------------------------------ the callbacks on the store

  /** The store holds these sessions, each one once, in these states. */
  ghost predicate Holds(nodes: seq<SessionNode>, sessions: map<UserSession, State>)
    reads Sessions(nodes)`grantedQuota, Sessions(nodes)`leftQuota, Sessions(nodes)`dserverError,
          Sessions(nodes)`errorUsed, Sessions(nodes)`pendingDReq
  {
    && (forall i, j {:trigger nodes[i].data, nodes[j].data} :: 0 <= i < j < |nodes| ==> nodes[i].data != nodes[j].data)
    && (forall k {:trigger nodes[k].data} :: 0 <= k < |nodes| ==>
          nodes[k].data in sessions && sessions[nodes[k].data] == nodes[k].data.View())
    && forall us | us in sessions :: us in Sessions(nodes)
  }

  /** The same except for one session, whose state may be any. */
  ghost predicate HoldsBut(nodes: seq<SessionNode>, sessions: map<UserSession, State>, us: UserSession)
    reads (Sessions(nodes) - {us})`grantedQuota, (Sessions(nodes) - {us})`leftQuota,
          (Sessions(nodes) - {us})`dserverError, (Sessions(nodes) - {us})`errorUsed,
          (Sessions(nodes) - {us})`pendingDReq
  {
    && (forall i, j {:trigger nodes[i].data, nodes[j].data} :: 0 <= i < j < |nodes| ==> nodes[i].data != nodes[j].data)
    && (forall k {:trigger nodes[k].data} :: 0 <= k < |nodes| && nodes[k].data != us ==>
          nodes[k].data in sessions && sessions[nodes[k].data] == nodes[k].data.View())
    && forall v | v in sessions :: v in Sessions(nodes)
  }

  /** Looking an identifier up in the store is looking it up in the system. */
  lemma FoundIsHeld(nodes: seq<SessionNode>, sys: System, sid: Sid)
    requires Holds(nodes, sys.sessions)
    ensures HasSid(nodes, sid) <==> Occupied(sys, sid)
    ensures forall us | us in Sessions(nodes) ::
      us in sys.sessions && sys.sessions[us] == us.View() && HoldsBut(nodes, sys.sessions, us)
  {
    if HasSid(nodes, sid) {
      var k :| 0 <= k < |nodes| && nodes[k].data.sid == sid;
      assert nodes[k].data in sys.sessions;
    }
    if us :| us in sys.sessions && us.sid == sid {
      assert us in Sessions(nodes);
      var n :| n in nodes && n.data == us;
    }
  }

  lemma HoldsAgain(nodes: seq<SessionNode>, sessions: map<UserSession, State>, us: UserSession)
    requires HoldsBut(nodes, sessions, us) && us in Sessions(nodes)
    ensures Holds(nodes, sessions[us := us.View()])
  {
  }

  lemma HoldsMoved(nodes: seq<SessionNode>, at: nat, sessions: map<UserSession, State>)
    requires Holds(nodes, sessions) && at < |nodes|
    ensures Holds(Without(nodes, at) + [nodes[at]], sessions)
  {
    var us := nodes[at].data;
    HoldsOneLess(nodes, sessions, at);
    HoldsOneMore(Without(nodes, at), sessions - {us}, nodes[at]);
    assert sessions == (sessions - {us})[us := us.View()];
  }

  lemma SessionsMoved(nodes: seq<SessionNode>, at: nat)
    requires at < |nodes|
    ensures Sessions(Without(nodes, at) + [nodes[at]]) == Sessions(nodes)
    ensures Sessions(Without(nodes, at)) <= Sessions(nodes)
  {
    var moved := Without(nodes, at) + [nodes[at]];
    forall n
      ensures n in moved <==> n in nodes
    {
      if n in nodes {
        var k :| 0 <= k < |nodes| && nodes[k] == n;
        assert n == if k < at then moved[k] else if k == at then moved[|nodes| - 1] else moved[k - 1];
      }
    }
    assert forall n | n in Without(nodes, at) :: n in nodes;
  }

  lemma HeldOnce(nodes: seq<SessionNode>, sessions: map<UserSession, State>)
    requires Holds(nodes, sessions)
    ensures Distinct(OrderOf(nodes))
  {
    var order := OrderOf(nodes);
    forall i, j | 0 <= i < j < |order|
      ensures order[i] != order[j]
    {
      assert nodes[i].data != nodes[j].data;
    }
  }

  lemma OrderMoved(nodes: seq<SessionNode>, sessions: map<UserSession, State>, at: nat)
    requires Holds(nodes, sessions) && at < |nodes|
    ensures OrderOf(Without(nodes, at)) == Minus(OrderOf(nodes), nodes[at].data)
    ensures OrderOf(Without(nodes, at) + [nodes[at]]) == Minus(OrderOf(nodes), nodes[at].data) + [nodes[at].data]
  {
    hide Holds, Minus;
    HeldOnce(nodes, sessions);
    MinusAt(OrderOf(nodes), at);
    assert OrderOf(Without(nodes, at)) == Without(OrderOf(nodes), at);
    assert OrderOf(Without(nodes, at) + [nodes[at]]) == OrderOf(Without(nodes, at)) + [nodes[at].data];
  }

  lemma HoldsOneMore(nodes: seq<SessionNode>, sessions: map<UserSession, State>, n: SessionNode)
    requires Holds(nodes, sessions) && n.data !in sessions
    ensures Holds(nodes + [n], sessions[n.data := n.data.View()])
  {
    assert forall m | m in nodes :: m in nodes + [n];
    assert n in nodes + [n];
  }

  lemma HoldsOneLess(nodes: seq<SessionNode>, sessions: map<UserSession, State>, at: nat)
    requires Holds(nodes, sessions) && at < |nodes|
    ensures Holds(Without(nodes, at), sessions - {nodes[at].data})
  {
    var rest := Without(nodes, at);
    forall us | us in sessions && us != nodes[at].data
      ensures us in Sessions(rest)
    {
      var n :| n in nodes && n.data == us;
      var k :| 0 <= k < |nodes| && nodes[k] == n;
      assert n == if k < at then rest[k] else rest[k - 1];
      assert n in rest;
    }
  }

  datatype Reply =
    | Shortcut(flag: Flag, errid: nat)  // http_req_shortcut_cb
    | Continue                          // http_req_continue_cb, or the response as it is
    | Status(code: nat)                 // the response, under this status
    | Wait(asked: Unanswered)           // the request waits for an answer
    | WaitForStart                      // the start request has gone to the server
    | Report(used: int)                 // the stop request has gone to the server

  const STATUS_OK := 200
  const STATUS_UNAUTHORIZED := 401
  const REASON_USERONLINE := 6

  ghost predicate LetsThrough(r: Reply) {
    r == Continue || r == Status(STATUS_OK)
  }

  /** The start branch of handle_request, up to start_session. */
  method CheckStart(store: Store, sid: Sid, ghost sys: System) returns (reply: Reply, ghost found: UserSession?)
    requires store.Valid() && Holds(store.dlist.nodes, sys.sessions)
    ensures Legal(sys, Checked(sid, found))
    ensures reply == if Occupied(sys, sid) then Shortcut(AuthFailed, REASON_USERONLINE) else WaitForStart
    ensures reply == WaitForStart <==> Next(sys, Checked(sid, found)) != sys
  {
    hide Store.Valid, Holds, HoldsBut, HasSid;
    FoundIsHeld(store.dlist.nodes, sys, sid);
    var us := store.FindUserSession(sid);
    found := us;
    reply := if us != null then Shortcut(AuthFailed, REASON_USERONLINE) else WaitForStart;
    assert us == null ==> Next(sys, Checked(sid, found)).starting[sid] == sys.starting[sid] + 1;
  }

  /** The session found is used again: update_user_session looks it up once more. */
  method Refresh(store: Store, us: UserSession, now: nat, ghost sessions: map<UserSession, State>)
    requires store.Valid() && Holds(store.dlist.nodes, sessions)
    requires store.Target(us.sid) != null && store.Target(us.sid).data == us && HasSid(store.dlist.nodes, us.sid)
    modifies store.Repr(), store`clock, Sessions(store.dlist.nodes)`lastUpdateTime
    ensures store.Valid() && Holds(store.dlist.nodes, sessions) && store.Repr() == old(store.Repr())
    ensures (old(store.Ordered() && store.clock <= now) ==> store.Ordered()) && store.clock == now
    ensures store.dlist.nodes != [] && store.dlist.nodes[|store.dlist.nodes| - 1].data == us
    ensures Sessions(store.dlist.nodes) == old(Sessions(store.dlist.nodes))
    ensures OrderOf(store.dlist.nodes) == Minus(OrderOf(old(store.dlist.nodes)), us) + [us]
    ensures forall u | u in Sessions(store.dlist.nodes) ::
      u.lastUpdateTime == if u == us then now else old(u.lastUpdateTime)
  {
    hide Store.Valid, Store.Ordered, Store.Repr, Store.Target, Holds, HasSid;
    ghost var nodes := store.dlist.nodes;
    ghost var at := store.UpdateUserSession(us, now);
    HoldsMoved(nodes, at, sessions);
    SessionsMoved(nodes, at);
    OrderMoved(nodes, sessions, at);
  }

  /** update_session, on a request (httpReq) or on its response. */
  method UpdateSession(store: Store, sid: Sid, len: nat, httpReq: bool, now: nat, ghost sys: System)
    returns (reply: Reply, ghost found: UserSession?)
    requires store.Valid() && Holds(store.dlist.nodes, sys.sessions)
    modifies store.Repr(), store`clock, Sessions(store.dlist.nodes)
    ensures store.Valid() && Legal(sys, Used(sid, found, len))
    ensures Holds(store.dlist.nodes, Next(sys, Used(sid, found, len)).sessions)
    ensures reply.Wait? <==> Next(sys, Used(sid, found, len)).unanswered != sys.unanswered
    ensures reply.Wait? ==> Next(sys, Used(sid, found, len)).unanswered == sys.unanswered + [reply.asked]
    ensures LetsThrough(reply) <==> found != null && OnUse(sys.sessions[found], len).1 == Admit
    ensures reply.Wait? <==> found != null && OnUse(sys.sessions[found], len).1.Ask?
    ensures reply.Wait? ==> reply.asked == Unanswered(found, OnUse(sys.sessions[found], len).1.request)
    ensures LetsThrough(reply) ==> reply == if httpReq then Continue else Status(STATUS_OK)
    ensures !LetsThrough(reply) && !reply.Wait? ==>
      reply == if !httpReq then Status(STATUS_UNAUTHORIZED)
               else Shortcut(AuthFailed, if found != null then REASON_NOBAL else REASON_NOUSERSESSION)
    ensures old(store.Ordered() && store.clock <= now) ==> store.Ordered()
    ensures !LetsThrough(reply) ==> store.dlist.nodes == old(store.dlist.nodes) && store.clock == old(store.clock)
    ensures LetsThrough(reply) ==>
      && store.clock == now && store.dlist.nodes != []
      && store.dlist.nodes[|store.dlist.nodes| - 1].data.sid == sid
    ensures store.Repr() == old(store.Repr())
    ensures Sessions(store.dlist.nodes) == old(Sessions(store.dlist.nodes))
    ensures LetsThrough(reply) && found != null ==>
      OrderOf(store.dlist.nodes) == Minus(OrderOf(old(store.dlist.nodes)), found) + [found]
    ensures forall u | u in Sessions(store.dlist.nodes) ::
      u.lastUpdateTime == if LetsThrough(reply) && u == found then now else old(u.lastUpdateTime)
  {
    hide Store.Valid, Store.Ordered, Store.Repr, Store.Target, OnUse, Holds, HoldsBut, HasSid, Occupied;
    FoundIsHeld(store.dlist.nodes, sys, sid);
    var us := store.FindUserSession(sid);
    found := us;
    if us == null {
      reply := if httpReq then Shortcut(AuthFailed, REASON_NOUSERSESSION) else Status(STATUS_UNAUTHORIZED);
    } else {
      var verdict := us.Use(len);
      HoldsAgain(store.dlist.nodes, sys.sessions, us);
      if verdict.Admit? {
        Refresh(store, us, now, sys.sessions[us := us.View()]);
        reply := if httpReq then Continue else Status(STATUS_OK);
      } else if verdict.Refuse? {
        reply := if httpReq then Shortcut(AuthFailed, REASON_NOBAL) else Status(STATUS_UNAUTHORIZED);
      } else {
        reply := Wait(Unanswered(us, verdict.request));
      }
    }
  }

  /** update_session_cb, when the k-th unanswered request is answered. */
  method UpdateSessionCb(store: Store, sid: Sid, txn: DiamTxnData, httpReq: bool,
                         ghost sys: System, ghost k: nat, ghost ans: Answer)
    returns (reply: Reply, ghost found: UserSession?)
    requires store.Valid() && Holds(store.dlist.nodes, sys.sessions)
    requires k < |sys.unanswered| && sys.unanswered[k].from.sid == sid
    requires txn.thisTimeNeed == sys.unanswered[k].request.need && txn.Shows(Decide(txn.thisTimeNeed, ans))
    modifies Sessions(store.dlist.nodes)
    ensures store.Valid() && (old(store.Ordered()) ==> store.Ordered())
    ensures Legal(sys, Replied(k, found, ans))
    ensures store.dlist.nodes == old(store.dlist.nodes) && store.Repr() == old(store.Repr())
    ensures forall u | u in Sessions(store.dlist.nodes) :: u.lastUpdateTime == old(u.lastUpdateTime)
    ensures Holds(store.dlist.nodes, Next(sys, Replied(k, found, ans)).sessions)
    ensures LetsThrough(reply) <==> found != null && !Decide(txn.thisTimeNeed, ans).Refused?
    ensures LetsThrough(reply) ==> reply == Continue
    ensures found != null && Missing(ans) ==> reply == Continue && found.dserverError
    ensures found != null && !Missing(ans) ==>
      found.grantedQuota == ans.grant.value && (reply == Continue <==> ans.grant.value >= txn.thisTimeNeed)
    ensures !LetsThrough(reply) ==>
      reply == if httpReq then Shortcut(AuthFailed, REASON_NOBAL) else Status(STATUS_UNAUTHORIZED)
  {
    hide Store.Valid, Store.Ordered, Store.Repr, Holds, HoldsBut, HasSid, Occupied;
    var success := false;
    FoundIsHeld(store.dlist.nodes, sys, sid);
    var us := store.FindUserSession(sid);
    found := us;
    if us != null {
      success := us.Answered(txn, ans);
      HoldsAgain(store.dlist.nodes, sys.sessions, us);
    }
    if success {
      reply := Continue;
    } else {
      reply := if httpReq then Shortcut(AuthFailed, REASON_NOBAL) else Status(STATUS_UNAUTHORIZED);
    }
  }

  method NewSession(sid: Sid, txn: DiamTxnData, now: nat, ghost ans: Answer) returns (us: UserSession)
    requires var o := Decide(txn.thisTimeNeed, ans); !o.Refused? && txn.Shows(o)
    ensures fresh(us) && us.sid == sid && us.lastUpdateTime == now && us.View() == OnStart(ans)
  {
    us := new UserSession(sid, now);
    us.Open(txn, ans);
  }

  /** Sessions that the store holds were there before anything that is new. */
  lemma SessionsAllocated(nodes: seq<SessionNode>, sessions: map<UserSession, State>)
    requires Holds(nodes, sessions)
    ensures forall o: object | o in Sessions(nodes) :: allocated(o)
  {
  }

  /** A new session in the store. */
  method AddNewSession(store: Store, us: UserSession, ghost sys: System, ghost ans: Answer)
    requires store.Valid() && Holds(store.dlist.nodes, sys.sessions)
    requires us.View() == OnStart(ans) && us !in sys.sessions
    modifies store.Repr(), store`clock
    ensures store.Valid() && fresh(store.Repr() - old(store.Repr()))
    ensures Sessions(store.dlist.nodes) == old(Sessions(store.dlist.nodes)) + {us}
    ensures OrderOf(store.dlist.nodes) == OrderOf(old(store.dlist.nodes)) + [us]
    ensures Holds(store.dlist.nodes, Next(sys, Started(us, ans)).sessions)
    ensures old(store.Ordered() && store.clock <= us.lastUpdateTime) ==> (store.Ordered() <==> !Occupied(sys, us.sid))
    ensures store.clock == us.lastUpdateTime
  {
    hide Store.Valid, Store.Repr, Store.Ordered, Holds, HasSid, Occupied;
    FoundIsHeld(store.dlist.nodes, sys, us.sid);
    ghost var nodes := store.dlist.nodes;
    ghost var usdl := store.AddUserSession(us);
    HoldsOneMore(nodes, sys.sessions, usdl);
    assert OrderOf(nodes + [usdl]) == OrderOf(nodes) + [us];
  }

  /** start_session_cb. Whether the identifier has a session by now is not looked at. */
  method StartSessionCb(store: Store, sid: Sid, txn: DiamTxnData, now: nat, ghost sys: System, ghost ans: Answer)
    returns (reply: Reply, ghost us: UserSession?)
    requires store.Valid() && Holds(store.dlist.nodes, sys.sessions) && sid in sys.starting
    requires txn.Shows(Decide(txn.thisTimeNeed, ans))
    modifies store.Repr(), store`clock
    ensures store.Valid() && fresh(store.Repr() - old(store.Repr()))
    ensures Sessions(store.dlist.nodes) ==
      old(Sessions(store.dlist.nodes)) + if us == null then {} else {us}
    ensures if Decide(txn.thisTimeNeed, ans).Refused? then
        && us == null && store.dlist.nodes == old(store.dlist.nodes) && store.clock == old(store.clock)
        && reply == Shortcut(AuthFailed, txn.errid)
      else
        && store.clock == now && us != null && us.lastUpdateTime == now
        && OrderOf(store.dlist.nodes) == OrderOf(old(store.dlist.nodes)) + [us]
        && fresh(us) && us.sid == sid && Legal(sys, Started(us, ans))
        && Holds(store.dlist.nodes, Next(sys, Started(us, ans)).sessions)
        && (old(store.Ordered() && store.clock <= now) ==> (store.Ordered() <==> !Occupied(sys, sid)))
        && reply == Shortcut(AuthSucc, REASON_SUCCESS)
  {
    hide Store.Valid, Store.Repr, Store.Ordered, Sessions, Holds, HasSid, Occupied;
    SessionsAllocated(store.dlist.nodes, sys.sessions);
    us := null;
    if txn.flag == AuthSucc || txn.dserverError {
      var session := NewSession(sid, txn, now, ans);
      us := session;
      label L:
      assert store.Repr() == old(store.Repr());
      AddNewSession(store, session, sys, ans);
      assert forall o: object | o in store.Repr() && o !in old(store.Repr()) :: fresh@L(o);
      reply := Shortcut(AuthSucc, REASON_SUCCESS);
    } else {
      reply := Shortcut(txn.flag, txn.errid);
    }
  }

  /** postprocess_any_request, for the use of a session. */
  method PostprocessAnyRequest(store: Store, sid: Sid, len: nat, ghost sys: System)
    returns (ghost found: UserSession?)
    requires store.Valid() && Holds(store.dlist.nodes, sys.sessions)
    modifies Sessions(store.dlist.nodes)
    ensures store.Valid() && (old(store.Ordered()) ==> store.Ordered())
    ensures Legal(sys, Charged(sid, found, len))
    ensures store.dlist.nodes == old(store.dlist.nodes) && store.Repr() == old(store.Repr())
    ensures forall u | u in Sessions(store.dlist.nodes) :: u.lastUpdateTime == old(u.lastUpdateTime)
    ensures Holds(store.dlist.nodes, Next(sys, Charged(sid, found, len)).sessions)
  {
    hide Store.Valid, Store.Ordered, Store.Repr, Holds, HoldsBut, HasSid, Occupied;
    FoundIsHeld(store.dlist.nodes, sys, sid);
    var us := store.FindUserSession(sid);
    found := us;
    if us != null {
      us.PostCharge(len);
      HoldsAgain(store.dlist.nodes, sys.sessions, us);
    }
  }

  /** end_session: the usage reported with the stop request, or no session. */
  method EndSession(store: Store, sid: Sid, ghost sys: System) returns (used: Option<int>, ghost found: UserSession?)
    requires store.Valid() && Holds(store.dlist.nodes, sys.sessions)
    ensures Legal(sys, Stopping(sid, found))
    ensures used == if found != null then Some(StopReport(sys.sessions[found])) else None
    ensures used == None <==> !Occupied(sys, sid)
  {
    hide Store.Valid, Holds, HoldsBut, HasSid, Occupied;
    FoundIsHeld(store.dlist.nodes, sys, sid);
    var us := store.FindUserSession(sid);
    found := us;
    used := if us == null then None else Some(us.grantedQuota - us.leftQuota);
  }

  /** end_session_cb. */
  method EndSessionCb(store: Store, sid: Sid, ghost sys: System) returns (ghost found: UserSession?)
    requires store.Valid() && Holds(store.dlist.nodes, sys.sessions)
    modifies store.Repr()
    ensures store.Valid() && (old(store.Ordered()) ==> store.Ordered())
    ensures Legal(sys, Dropped(sid, found))
    ensures store.Repr() <= old(store.Repr())
    ensures OrderOf(store.dlist.nodes) ==
      if found == null then OrderOf(old(store.dlist.nodes)) else Minus(OrderOf(old(store.dlist.nodes)), found)
    ensures Sessions(store.dlist.nodes) <= old(Sessions(store.dlist.nodes))
    ensures Holds(store.dlist.nodes, Next(sys, Dropped(sid, found)).sessions)
  {
    hide Store.Valid, Store.Ordered, Store.Repr, Holds, HoldsBut, HasSid, Occupied;
    FoundIsHeld(store.dlist.nodes, sys, sid);
    ghost var nodes, occupied := store.dlist.nodes, HasSid(store.dlist.nodes, sid);
    assert forall o: object | o in Sessions(nodes) :: o !in store.Repr();
    var del: UtList.Node?<UserSession>;
    ghost var at;
    del, at := store.DeleteUserSession(sid);
    assert Holds(nodes, sys.sessions);
    if occupied {
      found := nodes[at].data;
      assert nodes[at] in nodes;
      assert found in Sessions(nodes);
      HoldsOneLess(nodes, sys.sessions, at);
      SessionsMoved(nodes, at);
      OrderMoved(nodes, sys.sessions, at);
    } else {
      found := null;
    }
  }

  /** Sessions dropped one after the other, as calls. */
  ghost function DropCalls(us: seq<UserSession>): seq<Call> {
    if us == [] then []
    else
      var u := us[|us| - 1];
      DropCalls(us[..|us| - 1]) + [Dropped(u.sid, u)]
  }

  lemma {:induction false} DroppedRun(nodes: seq<SessionNode>, ds: seq<SessionNode>, sys: System)
    requires Holds(nodes, sys.sessions) && Removable(nodes, ds)
    ensures LegalRun(sys, DropCalls(OrderOf(ds)))
    ensures Holds(RemovedAll(nodes, ds), Serve(sys, DropCalls(OrderOf(ds))).sessions)
    ensures Sessions(RemovedAll(nodes, ds)) <= Sessions(nodes)
  {
    hide Holds, Removable, RemovedAll, Serve, LegalRun, Sessions, Without;
    if ds == [] {
      NothingDropped(nodes, sys);
    } else {
      var before, d := ds[..|ds| - 1], ds[|ds| - 1];
      RemovedStep(nodes, ds);
      DroppedRun(nodes, before, sys);
      assert OrderOf(ds)[..|ds| - 1] == OrderOf(before);
      var rest, served := RemovedAll(nodes, before), Serve(sys, DropCalls(OrderOf(before)));
      var at := PositionOf(rest, d);
      HoldsOneLess(rest, served.sessions, at);
      HeldAt(rest, served.sessions, at);
      SessionsMoved(rest, at);
      ServeSnoc(sys, DropCalls(OrderOf(before)), Dropped(d.data.sid, d.data));
    }
  }

  lemma RemovedStep(nodes: seq<SessionNode>, ds: seq<SessionNode>)
    requires ds != [] && Removable(nodes, ds)
    ensures var rest, d := RemovedAll(nodes, ds[..|ds| - 1]), ds[|ds| - 1];
      Removable(nodes, ds[..|ds| - 1]) && d in rest && RemovedAll(nodes, ds) == Without(rest, PositionOf(rest, d))
  {
    var before := ds[..|ds| - 1];
    assert forall k :: 0 <= k < |before| ==> before[..k] == ds[..k];
  }

  lemma NothingDropped(nodes: seq<SessionNode>, sys: System)
    ensures var calls := DropCalls(OrderOf([]));
      LegalRun(sys, calls) && Serve(sys, calls) == sys && RemovedAll(nodes, []) == nodes
  {
  }

  lemma HeldAt(nodes: seq<SessionNode>, sessions: map<UserSession, State>, at: nat)
    requires Holds(nodes, sessions) && at < |nodes|
    ensures nodes[at].data in sessions
  {
  }

  lemma ChosenAreDead(nodes: seq<SessionNode>, now: nat, timeout: nat)
    ensures OrderOf(Chosen(nodes, Gone(nodes, now, timeout))) == Overdue(OrderOf(nodes), Dead(nodes, now, timeout))
  {
    forall k | 0 <= k < |nodes|
      ensures Gone(nodes, now, timeout)[k] <==> nodes[k].data in Dead(nodes, now, timeout)
    {
      DeadOrAlive(nodes, nodes[k], now, timeout);
    }
    ChosenOverdue(nodes, Gone(nodes, now, timeout), Dead(nodes, now, timeout));
  }

  /** One round of the timeout thread. What it does to the system is the run of the sessions dropped
      by a walk over the list; if the identifiers of the expired ones are unique, exactly they go. */
  method CheckSessionTimeout(store: Store, now: nat, timeout: nat, ghost sys: System)
    returns (dangling: bool, ghost steps: seq<Step>)
    requires store.Valid() && Holds(store.dlist.nodes, sys.sessions)
    modifies store.Repr()
    ensures store.Valid() && (old(store.Ordered()) ==> store.Ordered()) && store.Repr() <= old(store.Repr())
    ensures var order, dead := OrderOf(old(store.dlist.nodes)), old(Dead(store.dlist.nodes, now, timeout));
      var calls := DropCalls(DroppedBy(order, steps));
      && Walks(order, dead, steps) && WalkEnds(order, steps) && (dangling <==> Dangles(order, steps))
      && LegalRun(sys, calls) && Holds(store.dlist.nodes, Serve(sys, calls).sessions)
      && OrderOf(store.dlist.nodes) == MinusAll(order, DroppedBy(order, steps))
      && (AllUnique(old(store.dlist.nodes), old(Gone(store.dlist.nodes, now, timeout))) ==>
            !dangling && DroppedBy(order, steps) == Overdue(order, dead))
    ensures Sessions(store.dlist.nodes) <= old(Sessions(store.dlist.nodes))
  {
    hide Store.Valid, Store.Ordered, Store.Repr, Holds, HasSid, DistinctSids;
    hide Gone, Dead, Kept, Chosen, Overdue, DropCalls, Serve, LegalRun, AllUnique, Removable, RemovedAll;
    hide Walks, WalkEnds, Dangles, Walked, DroppedBy, MinusAll;
    ghost var nodes, visited, dropped := store.dlist.nodes, [], [];
    assert forall o: object | o in Sessions(nodes) :: o !in store.Repr();
    HeldOnce(nodes, sys.sessions);
    ChosenAreDead(nodes, now, timeout);
    dangling, visited, dropped, steps := store.Sweep(now, timeout);
    DroppedRun(nodes, dropped, sys);
    WalkedMinus(OrderOf(nodes), steps);
  }
}
