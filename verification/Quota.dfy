/** The quota protocol of one user session: src/trplugin.c and the decision taken on an answer in
    src/ta_cli.c. Every callback is one atomic step. */
module Quota {
  import opened Wrappers

  const REASON_SUCCESS := 0
  const REASON_NOUSER := 3
  const REASON_NOBAL := 4
  const REASON_NOUSERSESSION := 5
  const DIAMETER_UNKNOWN_SESSION_ID := 5002
  const DIAMETER_AUTHORIZATION_REJECTED := 5003

  datatype ReqType = Start | Update | Stop
  datatype Flag = Normal | AuthFailed | AuthSucc

  /** The parts of an answer that are looked at; either may be missing. */
  datatype Answer = Answer(resultCode: Option<nat>, grant: Option<nat>)

  // ------------------------------------------------------------------ answers

  predicate Missing(ans: Answer) {
    ans.resultCode == None || ans.grant == None
  }

  /** What an answer comes to for a start or update request. */
  datatype Outcome = Granted(quota: nat) | Refused(quota: nat) | ServerError

  function Decide(need: nat, ans: Answer): Outcome {
    if ans.resultCode.None? || ans.grant.None? then ServerError
    else if ans.grant.value < need then Refused(ans.grant.value)
    else Granted(ans.grant.value)
  }

  /** DiamTxnData, as far as an answer fills it in. */
  class DiamTxnData {
    const reqType: ReqType
    const thisTimeNeed: nat
    const used: int
    var flag: Flag
    var errid: nat
    var grantedQuota: nat
    var dserverError: bool

    constructor (reqType: ReqType, need: nat, used: int)
      ensures this.reqType == reqType && thisTimeNeed == need && this.used == used && Fresh()
    {
      this.reqType, thisTimeNeed, this.used := reqType, need, used;
      flag, errid, grantedQuota, dserverError := Normal, REASON_SUCCESS, 0, false;
    }

    ghost predicate Fresh()
      reads this
    {
      flag == Normal && errid == REASON_SUCCESS && grantedQuota == 0 && !dserverError
    }

    /** The fields an update or start callback reads, as an outcome. */
    ghost predicate Shows(o: Outcome)
      reads this
    {
      match o
      case Granted(q) => flag == AuthSucc && !dserverError && grantedQuota == q && q >= thisTimeNeed
      case Refused(q) => flag == AuthFailed && !dserverError && grantedQuota == q && q < thisTimeNeed
      case ServerError => flag == Normal && dserverError && grantedQuota == 0
    }

    /** The first part of ta_cb_ans. */
    method Receive(ans: Answer)
      requires Fresh()
      modifies this
      ensures reqType != Stop ==> Shows(Decide(thisTimeNeed, ans))
      ensures reqType != Stop ==> (dserverError <==> Missing(ans))
      ensures reqType != Stop && !Missing(ans) ==>
        && grantedQuota == ans.grant.value
        && flag == if ans.grant.value >= thisTimeNeed then AuthSucc else AuthFailed
      ensures dserverError ==> flag == Normal && grantedQuota == 0
      ensures reqType == Stop ==> flag == Normal && grantedQuota == 0 && (dserverError <==> ans.resultCode.None?)
      ensures errid != REASON_SUCCESS <==> flag == AuthFailed
      ensures flag == AuthFailed ==>
        && (errid == REASON_NOUSER <==> ans.resultCode == Some(DIAMETER_AUTHORIZATION_REJECTED))
        && (errid == REASON_NOUSERSESSION <==> ans.resultCode == Some(DIAMETER_UNKNOWN_SESSION_ID))
        && errid in {REASON_NOUSER, REASON_NOUSERSESSION, REASON_NOBAL}
    {
      match ans.resultCode {
        case Some(resultCode) =>
          if reqType != Stop {
            match ans.grant {
              case Some(quota) =>
                grantedQuota := quota;
                if grantedQuota < thisTimeNeed {
                  flag := AuthFailed;
                  if resultCode == DIAMETER_AUTHORIZATION_REJECTED {
                    errid := REASON_NOUSER;
                  } else if resultCode == DIAMETER_UNKNOWN_SESSION_ID {
                    errid := REASON_NOUSERSESSION;
                  } else {
                    errid := REASON_NOBAL;
                  }
                } else {
                  flag := AuthSucc;
                }
              case None =>
                dserverError := true;
            }
          }
        case None =>
          dserverError := true;
      }
    }
  }

  // ------------------------------------------------------------------ one session

  /** The quota fields of a UserSession. */
  datatype State = State(granted: nat, left: int, errorUsed: nat, pending: nat, dserverError: bool)

  /** An update request: the usage it reports and the volume it waits for. */
  datatype Request = Request(used: int, need: nat)

  datatype Verdict = Admit | Refuse | Ask(request: Request)

  /** A new session after a start answer; start requests need nothing, so none is refused. */
  function OnStart(ans: Answer): State {
    match Decide(0, ans)
    case ServerError => State(0, 0, 0, 0, true)
    case o => State(o.quota, o.quota, 0, 0, false)
  }

  function OnUse(s: State, len: nat): (State, Verdict) {
    if s.left >= len || s.dserverError || s.pending > 0 then
      (if s.left >= len then s.(left := s.left - len) else s.(errorUsed := s.errorUsed + len), Admit)
    else if s.granted == 0 then (s, Refuse)
    else (s.(pending := 1), Ask(Request(s.granted - s.left, len)))
  }

  /** The new state, and whether the waiting request is let through. */
  function OnAnswer(s: State, need: nat, o: Outcome): (State, bool) {
    match o
    case Granted(q) => (s.(granted := q, left := q - need, pending := 0), true)
    case Refused(q) => (s.(granted := q, left := q - s.errorUsed, pending := 0), false)
    case ServerError =>
      (State(0, 0 - s.errorUsed, s.errorUsed + need, 0, true), true)
  }

  function OnPost(s: State, len: nat): State {
    if s.dserverError then s.(errorUsed := s.errorUsed + len) else s.(left := s.left - len)
  }

  /** UserSession; lastUpdateTime is the session store's. */
  class UserSession {
    const sid: string
    var grantedQuota: nat
    var leftQuota: int
    var dserverError: bool
    var errorUsed: nat
    var pendingDReq: nat
    var lastUpdateTime: nat

    ghost function View(): State
      reads `grantedQuota, `leftQuota, `dserverError, `errorUsed, `pendingDReq
    {
      State(grantedQuota, leftQuota, errorUsed, pendingDReq, dserverError)
    }

    /** user_session_alloc. */
    constructor (sid: string, now: nat)
      ensures this.sid == sid && lastUpdateTime == now && View() == State(0, 0, 0, 0, false)
    {
      this.sid := sid;
      grantedQuota, leftQuota, dserverError, errorUsed, pendingDReq := 0, 0, false, 0, 0;
      lastUpdateTime := now;
    }

    /** The quota part of start_session_cb, for an answer that lets the session start. */
    method Open(txn: DiamTxnData, ghost ans: Answer)
      requires View() == State(0, 0, 0, 0, false)
      requires var o := Decide(txn.thisTimeNeed, ans); !o.Refused? && txn.Shows(o)
      modifies this`grantedQuota, this`leftQuota, this`dserverError
      ensures View() == OnStart(ans)
      ensures dserverError <==> Missing(ans)
      ensures leftQuota == grantedQuota == if Missing(ans) then 0 else ans.grant.value
    {
      if !txn.dserverError {
        grantedQuota := txn.grantedQuota;
        leftQuota := txn.grantedQuota;
      } else {
        dserverError := true;
      }
    }

    /** The quota part of update_session. */
    method Use(len: nat) returns (verdict: Verdict)
      modifies this`leftQuota, this`errorUsed, this`pendingDReq
      ensures (View(), verdict) == OnUse(old(View()), len)
      ensures var covered, free := old(leftQuota) >= len, old(dserverError || pendingDReq > 0);
        && (verdict == Admit <==> covered || free)
        && (verdict == Refuse <==> !covered && !free && old(grantedQuota) == 0)
        && (verdict.Ask? ==> pendingDReq > 0 && verdict.request == Request(grantedQuota - leftQuota, len))
        && leftQuota == old(leftQuota) - (if covered then len else 0)
        && errorUsed == old(errorUsed) + (if !covered && free then len else 0)
    {
      if leftQuota >= len || dserverError || pendingDReq > 0 {
        if leftQuota >= len {
          leftQuota := leftQuota - len;
        } else {
          errorUsed := errorUsed + len;
        }
        verdict := Admit;
      } else {
        if grantedQuota == 0 {
          verdict := Refuse;
        } else {
          verdict := Ask(Request(grantedQuota - leftQuota, len));
          pendingDReq := 1;
        }
      }
    }

    /** The quota part of update_session_cb. */
    method Answered(txn: DiamTxnData, ghost ans: Answer) returns (success: bool)
      requires txn.Shows(Decide(txn.thisTimeNeed, ans))
      modifies this`grantedQuota, this`leftQuota, this`errorUsed, this`pendingDReq, this`dserverError
      ensures (View(), success) == OnAnswer(old(View()), txn.thisTimeNeed, Decide(txn.thisTimeNeed, ans))
      ensures pendingDReq == 0 && (success <==> Missing(ans) || ans.grant.value >= txn.thisTimeNeed)
      ensures Missing(ans) ==> dserverError && errorUsed == old(errorUsed) + txn.thisTimeNeed
      ensures !Missing(ans) ==>
        && grantedQuota == ans.grant.value && errorUsed == old(errorUsed)
        && leftQuota == ans.grant.value - if success then txn.thisTimeNeed else old(errorUsed)
    {
      grantedQuota := txn.grantedQuota;
      leftQuota := grantedQuota - errorUsed;
      pendingDReq := 0;
      if txn.flag == AuthSucc || txn.dserverError {
        if !txn.dserverError {
          leftQuota := grantedQuota - txn.thisTimeNeed;
        } else {
          dserverError := true;
          errorUsed := errorUsed + txn.thisTimeNeed;
        }
        success := true;
      } else {
        success := false;
      }
    }

    /** The charging part of postprocess_any_request. */
    method PostCharge(len: nat)
      modifies this`errorUsed, this`leftQuota
      ensures View() == OnPost(old(View()), len)
      ensures errorUsed - leftQuota == old(errorUsed - leftQuota) + len
      ensures if dserverError then leftQuota == old(leftQuota) else errorUsed == old(errorUsed)
    {
      if dserverError {
        errorUsed := errorUsed + len;
      } else {
        leftQuota := leftQuota - len;
      }
    }
  }

  /** A start answer that has both AVPs opens a session whatever it says; a refusal shows only
      later, when a session with no grant has its first request turned down. */
  lemma StartIsNeverRefused(ans: Answer, len: nat)
    ensures !Decide(0, ans).Refused?
    ensures var s := OnStart(ans);
      len > 0 && !s.dserverError && s.granted == 0 ==> OnUse(s, len) == (s, Refuse)
  {
  }

  // ------------------------------------------------------------------ runs

  datatype Event =
    | Use(len: nat)
    | Post(len: nat)
    | Answered(k: nat, ans: Answer)
    | StopSent // the stop request; the session can be used until its answer
    | Deleted  // the session is deleted: the stop request is answered, or the session has expired

  /** A session and the history of its life: bytes let through, response bytes charged afterwards,
      bytes reported to the server, update requests not yet answered, and the bytes taken from
      the left quota by post-charging since the last answer. */
  datatype World = World(s: State, alive: bool, admitted: nat, posted: nat, reported: int,
                         outstanding: seq<Request>, postedSince: nat)

  function Opened(ans: Answer): World {
    World(OnStart(ans), true, 0, 0, 0, [], 0)
  }

  /** end_session reports what has been used since the last grant. */
  function StopReport(s: State): int {
    s.granted - s.left
  }

  /** A deleted session is not found: no use of it is let through, charged or reported. */
  function Step(w: World, e: Event): World {
    match e
    case Use(len) =>
      if !w.alive then w
      else
        var (s, verdict) := OnUse(w.s, len);
        (match verdict
         case Admit => w.(s := s, admitted := w.admitted + len)
         case Refuse => w.(s := s)
         case Ask(r) => w.(s := s, reported := w.reported + r.used, outstanding := w.outstanding + [r]))
    case Post(len) =>
      if !w.alive then w
      else
        w.(s := OnPost(w.s, len), posted := w.posted + len,
           postedSince := w.postedSince + if w.s.dserverError then 0 else len)
    case Answered(k, ans) =>
      if k >= |w.outstanding| then w
      else
        var r := w.outstanding[k];
        var rest := w.outstanding[..k] + w.outstanding[k + 1..];
        if !w.alive then w.(outstanding := rest)
        else
          var (s, ok) := OnAnswer(w.s, r.need, Decide(r.need, ans));
          w.(s := s, admitted := w.admitted + (if ok then r.need else 0), postedSince := 0, outstanding := rest)
    case StopSent =>
      if !w.alive then w else w.(reported := w.reported + StopReport(w.s))
    case Deleted => w.(alive := false)
  }

  function Run(w: World, es: seq<Event>): World
    decreases |es|
  {
    if es == [] then w else Run(Step(w, es[0]), es[1..])
  }

  lemma {:induction false} RunConcat(w: World, es: seq<Event>, fs: seq<Event>)
    ensures Run(w, es + fs) == Run(Run(w, es), fs)
    decreases |es|
  {
    if es == [] {
      assert es + fs == fs;
    } else {
      assert (es + fs)[1..] == es[1..] + fs;
      RunConcat(Step(w, es[0]), es[1..], fs);
    }
  }

  lemma RunOne(w: World, e: Event)
    ensures Run(w, [e]) == Step(w, e) && Run(w, []) == w
  {
    hide Step;
    assert [e][1..] == [];
    assert Run(Step(w, e), []) == Step(w, e);
  }

  // ------------------------------------------------------------------ one request at a time

  /** What every run keeps: the pending flag counts the unanswered requests, an over-used quota is
      covered by recorded usage, and a session in error has no quota and asks for none. */
  ghost predicate Inv(w: World) {
    && |w.outstanding| <= 1 && (w.alive ==> w.s.pending == |w.outstanding|)
    && w.s.left >= -(w.s.errorUsed + w.postedSince)
    && (w.alive && w.s.dserverError ==> w.outstanding == [] && w.s.granted == 0 && w.s.left <= 0)
  }

  lemma StepKeepsInv(w: World, e: Event)
    requires Inv(w)
    ensures Inv(Step(w, e))
  {
  }

  lemma {:induction false} RunKeepsInv(w: World, es: seq<Event>)
    requires Inv(w)
    ensures Inv(Run(w, es))
    decreases |es|
  {
    if es != [] {
      StepKeepsInv(w, es[0]);
      RunKeepsInv(Step(w, es[0]), es[1..]);
    }
  }

  /** In a session's whole life at most one update request is unanswered, and the flag says so. */
  lemma SingleFlight(ans: Answer, es: seq<Event>)
    ensures var w := Run(Opened(ans), es);
      |w.outstanding| <= 1 && (w.alive ==> w.s.pending == |w.outstanding|)
  {
    RunKeepsInv(Opened(ans), es);
  }

  /** The left quota never falls below what has been recorded as used without quota. */
  lemma OverUseIsRecorded(ans: Answer, es: seq<Event>)
    ensures var w := Run(Opened(ans), es);
      w.s.left >= -(w.s.errorUsed + w.postedSince)
  {
    RunKeepsInv(Opened(ans), es);
  }

  /** After a server error the session stays in error: every use is let through, and no further
      update request is sent. */
  lemma {:induction false} ErrorIsForGood(w: World, es: seq<Event>, len: nat)
    requires w.s.dserverError
    ensures var v := Run(w, es);
      && v.s.dserverError && |v.outstanding| <= |w.outstanding| && OnUse(v.s, len).1 == Admit
      && (StopSent !in es ==> v.reported == w.reported)
    decreases |es|
  {
    if es != [] {
      ErrorIsForGood(Step(w, es[0]), es[1..], len);
    }
  }

  // ------------------------------------------------------------------ the account

  /** Bytes used that have not been reported. */
  function Unreported(w: World): int {
    w.admitted + w.posted - w.reported
  }

  /** Bytes used that neither have been reported nor will be by the next report. */
  function Unaccounted(w: World): int {
    Unreported(w) - if w.alive && w.outstanding == [] then StopReport(w.s) else 0
  }

  /** What an event does to the account: usage leaks while a request is unanswered and after a
      server error; a refusal charges the recorded usage of the whole session once more, and a
      server error leaves the waiting request out; a stop request leaves its report in the
      quota, to be reported again; and what a deleted session has used since the last report
      never is. */
  function Leak(w: World, e: Event): int {
    if !w.alive then 0
    else
      match e
      case Use(len) => if w.outstanding != [] || w.s.dserverError then len else 0
      case Post(len) => if w.outstanding != [] || w.s.dserverError then len else 0
      case Answered(k, ans) =>
        if k >= |w.outstanding| then 0
        else
          var need := w.outstanding[k].need;
          (match Decide(need, ans)
           case Granted(_) => 0
           case Refused(_) => 0 - w.s.errorUsed
           case ServerError => need - w.s.errorUsed)
      case StopSent => 0 - StopReport(w.s)
      case Deleted => if w.outstanding == [] then StopReport(w.s) else 0
  }

  function Leaks(w: World, es: seq<Event>): int
    decreases |es|
  {
    if es == [] then 0 else Leak(w, es[0]) + Leaks(Step(w, es[0]), es[1..])
  }

  lemma StepAccount(w: World, e: Event)
    requires Inv(w)
    ensures Unaccounted(Step(w, e)) == Unaccounted(w) + Leak(w, e)
  {
  }

  /** The law of conservation, on every run: the account changes by exactly the leaks. */
  lemma {:induction false} Account(w: World, es: seq<Event>)
    requires Inv(w)
    ensures Unaccounted(Run(w, es)) == Unaccounted(w) + Leaks(w, es)
    decreases |es|
  {
    hide Step, Leak, Unaccounted, Inv;
    if es != [] {
      StepKeepsInv(w, es[0]);
      StepAccount(w, es[0]);
      Account(Step(w, es[0]), es[1..]);
    }
  }

  lemma {:induction false} LeaksConcat(w: World, es: seq<Event>, fs: seq<Event>)
    ensures Leaks(w, es + fs) == Leaks(w, es) + Leaks(Run(w, es), fs)
    decreases |es|
  {
    hide Step, Leak;
    if es == [] {
      assert es + fs == fs;
    } else {
      assert (es + fs)[1..] == es[1..] + fs;
      LeaksConcat(Step(w, es[0]), es[1..], fs);
    }
  }

  /** So the reports of a session and its stop request add up to its usage, whenever no update
      request is unanswered, exactly if the leaks cancel out. */
  lemma ReportedExactlyWhenNothingLeaks(ans: Answer, es: seq<Event>)
    ensures var w := Run(Opened(ans), es);
      w.alive && w.outstanding == [] ==>
        (w.reported + StopReport(w.s) == w.admitted + w.posted <==> Leaks(Opened(ans), es) == 0)
  {
    hide Run, Leaks, OnUse, OnAnswer, OnPost;
    Account(Opened(ans), es);
  }

  // ------------------------------------------------------------------ clean runs

  /** A run in which nothing touches the session while a request is unanswered, and no answer
      signals a server error. */
  ghost predicate Clean(w: World, es: seq<Event>)
    decreases |es|
  {
    es == [] ||
    (&& (match es[0]
         case Answered(k, ans) =>
           k < |w.outstanding| ==> Decide(w.outstanding[k].need, ans) != ServerError
         case StopSent => false
         case Deleted => false
         case _ => w.outstanding == [])
     && Clean(Step(w, es[0]), es[1..]))
  }

  lemma {:induction false} CleanRunsConserve(w: World, es: seq<Event>)
    requires Inv(w) && Clean(w, es) && !w.s.dserverError && w.s.errorUsed == 0
    ensures Leaks(w, es) == 0 && Unaccounted(Run(w, es)) == Unaccounted(w)
    ensures w.alive ==> Run(w, es).alive
    decreases |es|
  {
    if es != [] {
      StepKeepsInv(w, es[0]);
      StepAccount(w, es[0]);
      CleanRunsConserve(Step(w, es[0]), es[1..]);
    }
  }

  /** On clean runs the reports add up to exactly what was used, the stop request included. */
  lemma ReportedIsUsed(ans: Answer, es: seq<Event>)
    requires Decide(0, ans) != ServerError && Clean(Opened(ans), es)
    ensures var w := Run(Opened(ans), es);
      w.alive && (w.outstanding == [] ==> w.reported + StopReport(w.s) == w.admitted + w.posted)
  {
    hide Run, Leaks, Clean, OnUse, OnAnswer, OnPost;
    CleanRunsConserve(Opened(ans), es);
  }

  // ------------------------------------------------------------------ runs whose answers all grant

  ghost predicate IsUsage(e: Event) {
    e.Use? || e.Post?
  }

  /** All answers grant, and the session is neither stopped nor deleted. */
  ghost predicate Granting(w: World, es: seq<Event>)
    decreases |es|
  {
    es == [] ||
    (&& es[0] != StopSent && es[0] != Deleted
     && (es[0].Answered? && es[0].k < |w.outstanding| ==>
           Decide(w.outstanding[es[0].k].need, es[0].ans).Granted?)
     && Granting(Step(w, es[0]), es[1..]))
  }

  /** No byte is used while a request is unanswered. */
  ghost predicate Idle(w: World, es: seq<Event>)
    decreases |es|
  {
    es == [] ||
    ((w.outstanding != [] && IsUsage(es[0]) ==> es[0].len == 0) && Idle(Step(w, es[0]), es[1..]))
  }

  /** In a run whose answers all grant only usage while waiting leaks. */
  lemma {:induction false} GrantingLeaks(w: World, es: seq<Event>)
    requires Inv(w) && Granting(w, es) && w.alive && !w.s.dserverError && w.s.left <= w.s.granted
    ensures Leaks(w, es) >= 0 && (Leaks(w, es) == 0 <==> Idle(w, es))
    ensures var v := Run(w, es); v.alive && !v.s.dserverError && v.s.left <= v.s.granted
    decreases |es|
  {
    if es != [] {
      StepKeepsInv(w, es[0]);
      GrantingLeaks(Step(w, es[0]), es[1..]);
    }
  }

  /** Such a run keeps a balanced account balanced exactly if nothing is used while waiting. */
  lemma BalancedExactlyWhenIdle(w: World, es: seq<Event>)
    requires Inv(w) && Granting(w, es) && w.alive && !w.s.dserverError && w.s.left <= w.s.granted
    requires Unaccounted(w) == 0
    ensures Unaccounted(Run(w, es)) == 0 <==> Idle(w, es)
  {
    hide Run, Leaks, Granting, Idle, OnUse, OnAnswer, OnPost;
    Account(w, es);
    GrantingLeaks(w, es);
  }

  // ------------------------------------------------------------------ runs with refusals

  /** No answer signals a server error, and the session is neither stopped nor deleted. */
  ghost predicate Answering(w: World, es: seq<Event>)
    decreases |es|
  {
    es == [] ||
    (&& es[0] != StopSent && es[0] != Deleted
     && (es[0].Answered? && es[0].k < |w.outstanding| ==>
           Decide(w.outstanding[es[0].k].need, es[0].ans) != ServerError)
     && Answering(Step(w, es[0]), es[1..]))
  }

  /** The bytes used while a request was unanswered. */
  ghost function Waited(w: World, es: seq<Event>): nat
    decreases |es|
  {
    if es == [] then 0
    else
      (if w.outstanding != [] && IsUsage(es[0]) then es[0].len else 0) + Waited(Step(w, es[0]), es[1..])
  }

  /** What the refusals have charged: each one all usage recorded so far in the session's life. */
  ghost function Recharged(w: World, es: seq<Event>): nat
    decreases |es|
  {
    if es == [] then 0
    else
      (match es[0]
       case Answered(k, ans) =>
         if k < |w.outstanding| && Decide(w.outstanding[k].need, ans).Refused? then w.s.errorUsed else 0
       case _ => 0)
      + Recharged(Step(w, es[0]), es[1..])
  }

  lemma {:induction false} AnsweringLeaks(w: World, es: seq<Event>)
    requires Inv(w) && Answering(w, es) && w.alive && !w.s.dserverError
    ensures Leaks(w, es) == Waited(w, es) - Recharged(w, es)
    ensures Run(w, es).alive && !Run(w, es).s.dserverError
    decreases |es|
  {
    if es != [] {
      StepKeepsInv(w, es[0]);
      AnsweringLeaks(Step(w, es[0]), es[1..]);
    }
  }

  /** Without server errors the reports, the stop request included, exceed the usage by exactly what
      refusals have charged beyond the bytes used while waiting: a customer is charged for more
      than was used exactly if that is more, and everything is reported exactly if it is equal. */
  lemma ReportsExceedUsageBy(ans: Answer, es: seq<Event>)
    requires Decide(0, ans) != ServerError && Answering(Opened(ans), es)
    ensures var w := Run(Opened(ans), es);
      w.outstanding == [] ==>
        w.reported + StopReport(w.s) - (w.admitted + w.posted)
          == Recharged(Opened(ans), es) - Waited(Opened(ans), es)
  {
    hide Run, Leaks, Waited, Recharged, Answering;
    AnsweringLeaks(Opened(ans), es);
    Account(Opened(ans), es);
  }

  // ------------------------------------------------------------------ whole lives

  /** When the session is deleted after its stop request, what it has used and never reported is
      what has leaked before, less what the stop request repeats of an unanswered update, and
      what has been used since the stop request, less what has been reported since. */
  lemma StoppedLife(ans: Answer, es: seq<Event>, fs: seq<Event>)
    requires var w := Run(Opened(ans), es); w.alive
    ensures var w := Run(Opened(ans), es);
      var v := Run(Step(w, StopSent), fs);
      Unreported(Step(v, Deleted)) == Leaks(Opened(ans), es)
        - (if w.outstanding == [] then 0 else StopReport(w.s))
        + (v.admitted + v.posted - (w.admitted + w.posted)) - (v.reported - Step(w, StopSent).reported)
  {
    hide Run, Leaks, OnUse, OnAnswer, OnPost, Decide;
    Account(Opened(ans), es);
  }

  lemma {:induction false} UsageGrows(w: World, es: seq<Event>)
    ensures var v := Run(w, es); v.admitted >= w.admitted && v.posted >= w.posted
    decreases |es|
  {
    if es != [] {
      UsageGrows(Step(w, es[0]), es[1..]);
    }
  }

  /** If all answers grant, the stop request finds no request unanswered and none is sent later,
      everything used has been reported in the end exactly if nothing was used while a request
      was unanswered and nothing after the stop request. */
  lemma AllReportedExactlyWhen(ans: Answer, es: seq<Event>, fs: seq<Event>)
    requires Decide(0, ans) != ServerError && Granting(Opened(ans), es)
    requires var w := Run(Opened(ans), es);
      w.outstanding == [] && Run(Step(w, StopSent), fs).reported == Step(w, StopSent).reported
    ensures var w := Run(Opened(ans), es);
      var v := Run(Step(w, StopSent), fs);
      Unreported(Step(v, Deleted)) == 0 <==>
        Idle(Opened(ans), es) && v.admitted == w.admitted && v.posted == w.posted
  {
    hide Run, Leaks, OnUse, OnAnswer, OnPost, Idle, Granting;
    GrantingLeaks(Opened(ans), es);
    StoppedLife(ans, es, fs);
    UsageGrows(Step(Run(Opened(ans), es), StopSent), fs);
  }

  /** A session that expires has reported everything, under the same conditions, exactly if nothing
      was used while waiting and nothing since its last grant. */
  lemma ExpiredLife(ans: Answer, es: seq<Event>)
    requires Decide(0, ans) != ServerError && Granting(Opened(ans), es)
    requires Run(Opened(ans), es).outstanding == []
    ensures var w := Run(Opened(ans), es);
      Unreported(Step(w, Deleted)) == 0 <==> Idle(Opened(ans), es) && StopReport(w.s) == 0
  {
    hide Run, Leaks, OnUse, OnAnswer, OnPost, Idle, Granting;
    Account(Opened(ans), es);
    GrantingLeaks(Opened(ans), es);
  }

  /** After a server error nothing that is used is ever reported: whatever happens, a stop request
      reports what it would have reported at once. */
  lemma {:induction false} ErrorUsageIsNeverReported(w: World, es: seq<Event>)
    requires Inv(w) && w.alive && w.s.dserverError
    ensures var v := Run(w, es);
      StopReport(v.s) == StopReport(w.s) && (StopSent !in es ==> v.reported == w.reported)
    decreases |es|
  {
    if es != [] {
      StepKeepsInv(w, es[0]);
      if es[0] == Deleted {
        DeadStaysDead(Step(w, es[0]), es[1..]);
      } else {
        ErrorUsageIsNeverReported(Step(w, es[0]), es[1..]);
      }
    }
  }

  ghost predicate NoEnd(es: seq<Event>) {
    StopSent !in es && Deleted !in es
  }

  /** After a server error exactly the usage leaks: the account stays as it is if and only if no
      byte is used any more. */
  lemma {:induction false} ErrorLeaks(w: World, es: seq<Event>)
    requires Inv(w) && w.alive && w.s.dserverError && NoEnd(es)
    ensures Leaks(w, es) >= 0
    ensures Leaks(w, es) == 0 <==> forall k :: 0 <= k < |es| && IsUsage(es[k]) ==> es[k].len == 0
    decreases |es|
  {
    if es != [] {
      var rest := es[1..];
      assert es[0] in es && forall e | e in rest :: e in es;
      StepKeepsInv(w, es[0]);
      ErrorLeaks(Step(w, es[0]), rest);
      assert forall k :: 0 < k < |es| ==> es[k] == rest[k - 1];
      assert forall k :: 0 <= k < |rest| ==> rest[k] == es[k + 1];
    }
  }

  lemma {:induction false} DeadStaysDead(w: World, es: seq<Event>)
    requires !w.alive
    ensures var v := Run(w, es);
      && !v.alive && v.s == w.s && v.reported == w.reported
      && v.admitted == w.admitted && v.posted == w.posted
    decreases |es|
  {
    if es != [] {
      DeadStaysDead(Step(w, es[0]), es[1..]);
    }
  }

  // ------------------------------------------------------------------ one round of asking

  ghost function Volume(es: seq<Event>): nat
    requires forall k :: 0 <= k < |es| ==> IsUsage(es[k])
  {
    if es == [] then 0
    else
      assert IsUsage(es[0]);
      es[0].len + Volume(es[1..])
  }

  /** While a request is unanswered everything is let through. */
  lemma {:induction false} UsageWhilePending(w: World, es: seq<Event>)
    requires Inv(w) && w.alive && w.outstanding != [] && forall k :: 0 <= k < |es| ==> IsUsage(es[k])
    ensures var v := Run(w, es);
      && v.outstanding == w.outstanding && v.reported == w.reported && Inv(v) && v.alive
      && v.admitted + v.posted == w.admitted + w.posted + Volume(es)
      && v.s.errorUsed <= w.s.errorUsed + Volume(es)
    decreases |es|
  {
    if es != [] {
      StepKeepsInv(w, es[0]);
      UsageWhilePending(Step(w, es[0]), es[1..]);
    }
  }

  /** What a whole round of asking does to the account: the bytes used while waiting are lost when
      the answer grants; a refusal charges the recorded usage of the whole session once more; a
      server error also leaves the waiting request out. */
  lemma RoundTrip(w: World, len: nat, es: seq<Event>, ans: Answer)
    requires Inv(w) && w.alive && w.outstanding == [] && OnUse(w.s, len).1.Ask?
    requires forall k :: 0 <= k < |es| ==> IsUsage(es[k])
    ensures var v := Run(Step(w, Use(len)), es);
      var after := Step(v, Answered(0, ans));
      && after.outstanding == []
      && Unaccounted(after) == Unaccounted(w) + Volume(es) + (match Decide(len, ans)
           case Granted(_) => 0
           case Refused(_) => 0 - v.s.errorUsed
           case ServerError => len - v.s.errorUsed)
  {
    hide Run;
    var asked := Step(w, Use(len));
    StepKeepsInv(w, Use(len));
    UsageWhilePending(asked, es);
    var v := Run(asked, es);
    assert v.outstanding == [] + [Request(w.s.granted - w.s.left, len)];
    assert v.outstanding[..0] + v.outstanding[1..] == [];
  }

  // ------------------------------------------------------------------ runs that lose usage

  lemma RunFour(w: World, a: Event, b: Event, c: Event, d: Event)
    ensures Run(w, [a, b, c, d]) == Step(Step(Step(Step(w, a), b), c), d)
  {
    hide Step;
    assert [a, b, c, d][1..] == [b, c, d] && [b, c, d][1..] == [c, d] && [c, d][1..] == [d] && [d][1..] == [];
    assert forall v :: Run(v, [d]) == Step(v, d);
    assert forall v :: Run(v, [c, d]) == Run(Step(v, c), [d]);
    assert forall v :: Run(v, [b, c, d]) == Run(Step(v, b), [c, d]);
  }

  /** Three bytes let through while the second grant is awaited are never reported. */
  lemma UsageWhileWaitingIsLost()
    ensures var code := Some(2001);
      var w := Run(Opened(Answer(code, Some(10))), [Use(10), Use(5), Use(3), Answered(0, Answer(code, Some(100)))]);
      w.outstanding == [] && w.admitted == 18 && w.reported + StopReport(w.s) == 15
  {
    hide Run;
    var code := Some(2001);
    RunFour(Opened(Answer(code, Some(10))), Use(10), Use(5), Use(3), Answered(0, Answer(code, Some(100))));
  }

  /** Thirteen bytes used are reported as sixteen: three bytes used while waiting are charged by two
      refusals. */
  lemma UsageIsReportedTwice()
    ensures var code, two := Some(2001), Answer(Some(2001), Some(2));
      var w := Run(Opened(Answer(code, Some(10))),
                   [Use(10), Use(5), Use(3), Answered(0, two)] + ([Use(5)] + [Answered(0, two)]));
      w.outstanding == [] && w.admitted == 13 && w.reported + StopReport(w.s) == 16
  {
    hide Run;
    var two := Answer(Some(2001), Some(2));
    var start := Opened(Answer(Some(2001), Some(10)));
    RunConcat(start, [Use(10), Use(5), Use(3), Answered(0, two)], [Use(5)] + [Answered(0, two)]);
    RunFour(start, Use(10), Use(5), Use(3), Answered(0, two));
    var w := Run(start, [Use(10), Use(5), Use(3), Answered(0, two)]);
    RunConcat(w, [Use(5)], [Answered(0, two)]);
    RunOne(w, Use(5));
    RunOne(Step(w, Use(5)), Answered(0, two));
  }

  /** Seven bytes used after a server error are not in the stop request. */
  lemma UsageInErrorIsLost()
    ensures var w := Run(Opened(Answer(None, None)), [Use(7)]);
      w.admitted == 7 && w.reported + StopReport(w.s) == 0
  {
    hide Run;
    RunOne(Opened(Answer(None, None)), Use(7));
  }

  /** Three bytes let through between the stop request and its answer are not in it either. */
  lemma UsageAfterStopIsLost()
    ensures var w := Run(Opened(Answer(Some(2001), Some(10))), [Use(4), StopSent, Use(3), Deleted]);
      w.admitted == 7 && w.reported == 4 && !w.alive
  {
    hide Run;
    RunFour(Opened(Answer(Some(2001), Some(10))), Use(4), StopSent, Use(3), Deleted);
  }
}
