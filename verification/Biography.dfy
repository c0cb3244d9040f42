/** The life of each session in a run of all sessions, so that what the ledger says of one session
    holds of the fields of every session there is. */
module Biography {
  import opened Quota
  import opened SessionStore
  import opened Plugin
  import Ledger
  import opened Wrappers

  /** The answer that started a session, and what has happened to it since. */
  datatype Past = Past(ans: Answer, events: seq<Event>)

  /** A session's last life in a run, if it has been started. */
  function PastOf(sys: System, cs: seq<Call>, us: UserSession): Option<Past> {
    if cs == [] then None
    else
      var before, c := cs[..|cs| - 1], cs[|cs| - 1];
      if c.Started? && c.us == us then Some(Past(c.ans, []))
      else
        match PastOf(sys, before, us)
        case None => None
        case Some(past) => Some(past.(events := past.events + Local(Serve(sys, before), c, us)))
  }

  /** If all sessions start in time, every session is what the run of its own events makes of it. */
  lemma {:induction false} PastIsLived(sys: System, cs: seq<Call>, us: UserSession)
    requires sys.sessions == map[] && sys.unanswered == [] && LegalRun(sys, cs) && Timely(sys, cs)
    ensures OwnOnly(Serve(sys, cs))
    ensures match PastOf(sys, cs, us)
      case None => us !in Serve(sys, cs).sessions
      case Some(past) => Shows(Serve(sys, cs), us, Run(Opened(past.ans), past.events))
    decreases |cs|
  {
    hide OwnOnly, Shows, Run, Next, Legal, Local, Crosses, TimelyCall;
    if cs == [] {
      NothingYet(sys);
    } else {
      var m := |cs| - 1;
      var before, c := cs[..m], cs[m];
      assert cs == before + [c];
      ServeSnoc(sys, before, c);
      TimelySnoc(sys, before, c);
      PastIsLived(sys, before, us);
      var now := Serve(sys, before);
      OwnOnlyNext(now, c);
      OwnOnlyNeverCrosses(now, c, us);
      if c.Started? && c.us == us {
        JustStarted(now, us, c.ans);
      } else {
        match PastOf(sys, before, us)
        case None =>
          OthersStay(now, c, us);
        case Some(past) =>
          CallIsLocal(now, c, us, Run(Opened(past.ans), past.events));
          RunConcat(Opened(past.ans), past.events, Local(now, c, us));
      }
    }
  }

  lemma NothingYet(sys: System)
    requires sys.sessions == map[] && sys.unanswered == []
    ensures OwnOnly(sys)
  {
  }

  lemma {:induction false} TimelySnoc(sys: System, cs: seq<Call>, c: Call)
    ensures Timely(sys, cs + [c]) <==> Timely(sys, cs) && TimelyCall(Serve(sys, cs), c)
    decreases |cs|
  {
    hide Next, TimelyCall;
    if cs == [] {
      assert cs + [c] == [c] && [c][1..] == [];
    } else {
      assert (cs + [c])[1..] == cs[1..] + [c];
      TimelySnoc(Next(sys, cs[0]), cs[1..], c);
    }
  }

  lemma OthersStay(sys: System, c: Call, us: UserSession)
    requires us !in sys.sessions && !(c.Started? && c.us == us)
    ensures us !in Next(sys, c).sessions
  {
  }

  lemma JustStarted(sys: System, us: UserSession, ans: Answer)
    requires Legal(sys, Started(us, ans))
    ensures Shows(Next(sys, Started(us, ans)), us, Run(Opened(ans), []))
  {
    hide Own;
    OwnNone(sys.unanswered, us);
    assert Run(Opened(ans), []) == Opened(ans);
  }

  /** What the ledger makes of a session's past: what the last answer granted, what is left of it,
      what has been used without a grant, whether a request is on its way, whether the server has
      failed. */
  ghost predicate TellsOf(ds: seq<Ledger.Deed>, s: State) {
    && s.granted == Ledger.LastGrant(ds) && s.left == Ledger.Usable(ds) && s.errorUsed == Ledger.OnRecord(ds)
    && s.pending == (if Ledger.Waiting(ds) then 1 else 0) && (s.dserverError <==> Ledger.Failed(ds))
  }

  /** In the crowd: if all sessions start in time, the fields of every session are what the ledger
      makes of the deeds of its own life, and those were lawful. */
  lemma EveryStateIsTold(sys: System, cs: seq<Call>, us: UserSession)
    requires sys.sessions == map[] && sys.unanswered == [] && LegalRun(sys, cs) && Timely(sys, cs)
    requires us in Serve(sys, cs).sessions
    ensures PastOf(sys, cs, us).Some?
    ensures var past := PastOf(sys, cs, us).value;
      && TellsOf(Ledger.Story(past.ans, past.events), Serve(sys, cs).sessions[us])
      && Ledger.AllLawful([Ledger.Begun(past.ans)], Ledger.Trail(Opened(past.ans), past.events))
  {
    hide PastOf, Run, Serve, LegalRun, Timely, OwnOnly, Own, Ledger.Story, Ledger.Trail, Ledger.AllLawful;
    hide Ledger.LastGrant, Ledger.Usable, Ledger.OnRecord, Ledger.Waiting, Ledger.Failed, Ledger.Needed;
    PastIsLived(sys, cs, us);
    var past := PastOf(sys, cs, us).value;
    Ledger.LivesAreLawful(past.ans, past.events);
  }
}
