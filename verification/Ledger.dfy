/** What a session owes its server, told from what is seen of it: the answers it has heard and the
    requests it has let through, turned down, asked for or charged. Nothing here looks at the
    session's fields or at the branches of its callbacks. */
module Ledger {
  import opened Quota

  datatype Deed =
    | Begun(ans: Answer)               // the start request is answered
    | Passed(len: nat)                 // a use is let through at once
    | TurnedDown(len: nat)
    | Asked(len: nat, report: int)     // an update request is sent, and the use waits for it
    | Charged(len: nat)                // the bytes of a response
    | Heard(ans: Answer, passed: bool) // the answer, and whether the waiting use is let through

  /** What the last answer granted. */
  function LastGrant(ds: seq<Deed>): nat {
    if ds == [] then 0
    else
      match ds[|ds| - 1]
      case Begun(ans) => if Missing(ans) then 0 else ans.grant.value
      case Heard(ans, _) => if Missing(ans) then 0 else ans.grant.value
      case _ => LastGrant(ds[..|ds| - 1])
  }

  /** A request is on its way. */
  predicate Waiting(ds: seq<Deed>) {
    ds != [] &&
    match ds[|ds| - 1]
    case Asked(_, _) => true
    case Begun(_) => false
    case Heard(_, _) => false
    case _ => Waiting(ds[..|ds| - 1])
  }

  /** The bytes that the last request waits, or waited, for. */
  function Needed(ds: seq<Deed>): nat {
    if ds == [] then 0
    else
      match ds[|ds| - 1]
      case Asked(len, _) => len
      case _ => Needed(ds[..|ds| - 1])
  }

  /** Some answer had an AVP missing. */
  predicate Failed(ds: seq<Deed>) {
    exists k :: 0 <= k < |ds| && (ds[k].Begun? || ds[k].Heard?) && Missing(ds[k].ans)
  }

  /** The bytes taken from the last grant: those that a granting answer was waited for, or all that
      were on record when the answer did not grant; then each use that what was left covered, and
      each charge. */
  function Taken(ds: seq<Deed>): nat
    decreases |ds|, 0
  {
    if ds == [] then 0
    else
      var before := ds[..|ds| - 1];
      match ds[|ds| - 1]
      case Begun(_) => 0
      case Heard(ans, _) =>
        if !Missing(ans) && ans.grant.value >= Needed(before) then Needed(before) else OnRecord(before)
      case Passed(len) => Taken(before) + if Usable(before) >= len then len else 0
      case Charged(len) => Taken(before) + if Failed(before) then 0 else len
      case _ => Taken(before)
  }

  /** The bytes used without a grant, in the whole life: those let through that nothing covered, what
      was waited for when an answer had an AVP missing, and the charges since then. */
  function OnRecord(ds: seq<Deed>): nat
    decreases |ds|, 0
  {
    if ds == [] then 0
    else
      var before := ds[..|ds| - 1];
      match ds[|ds| - 1]
      case Heard(ans, _) => OnRecord(before) + if Missing(ans) then Needed(before) else 0
      case Passed(len) => OnRecord(before) + if Usable(before) >= len then 0 else len
      case Charged(len) => OnRecord(before) + if Failed(before) then len else 0
      case _ => OnRecord(before)
  }

  /** What is left of the last grant. */
  function Usable(ds: seq<Deed>): int
    decreases |ds|, 1
  {
    LastGrant(ds) - Taken(ds)
  }

  /** What may be seen next: a use is let through exactly if it is covered, or a request is on its
      way, or the server has failed; otherwise it is turned down if the last grant was nothing, and
      asks if there was one, reporting what has been taken from it. */
  ghost predicate Lawful(ds: seq<Deed>, d: Deed) {
    match d
    case Begun(_) => false
    case Passed(len) => Usable(ds) >= len || Waiting(ds) || Failed(ds)
    case TurnedDown(len) => Usable(ds) < len && !Waiting(ds) && !Failed(ds) && LastGrant(ds) == 0
    case Asked(len, report) =>
      Usable(ds) < len && !Waiting(ds) && !Failed(ds) && LastGrant(ds) > 0 && report == Taken(ds)
    case Charged(_) => true
    case Heard(ans, passed) => Waiting(ds) && (passed <==> Missing(ans) || ans.grant.value >= Needed(ds))
  }

  // ------------------------------------------------------------------ what is seen of a run

  function Seen(w: World, e: Event): seq<Deed> {
    if !w.alive then []
    else
      match e
      case Use(len) =>
        (match OnUse(w.s, len).1
         case Admit => [Passed(len)]
         case Refuse => [TurnedDown(len)]
         case Ask(request) => [Asked(len, request.used)])
      case Post(len) => [Charged(len)]
      case Answered(k, ans) =>
        if k >= |w.outstanding| then []
        else
          var need := w.outstanding[k].need;
          [Heard(ans, OnAnswer(w.s, need, Decide(need, ans)).1)]
      case _ => []
  }

  function Trail(w: World, es: seq<Event>): seq<Deed>
    decreases |es|
  {
    if es == [] then [] else Seen(w, es[0]) + Trail(Step(w, es[0]), es[1..])
  }

  /** All that has been seen of a session. */
  function Story(ans: Answer, es: seq<Event>): seq<Deed> {
    [Begun(ans)] + Trail(Opened(ans), es)
  }

  /** The fields of the session and its request are what the ledger makes of the deeds. */
  ghost predicate Tells(ds: seq<Deed>, w: World) {
    && w.s == State(LastGrant(ds), Usable(ds), OnRecord(ds), if Waiting(ds) then 1 else 0, Failed(ds))
    && (w.alive ==> if Waiting(ds) then |w.outstanding| == 1 && w.outstanding[0].need == Needed(ds)
                    else w.outstanding == [])
  }

  lemma FailedSnoc(ds: seq<Deed>, d: Deed)
    ensures Failed(ds + [d]) <==> Failed(ds) || ((d.Begun? || d.Heard?) && Missing(d.ans))
  {
    var more := ds + [d];
    assert more[|ds|] == d && forall k :: 0 <= k < |ds| ==> more[k] == ds[k];
  }

  /** The ledger after one more deed. */
  lemma Entered(ds: seq<Deed>, d: Deed)
    ensures LastGrant(ds + [d]) ==
      if d.Begun? || d.Heard? then (if Missing(d.ans) then 0 else d.ans.grant.value) else LastGrant(ds)
    ensures Waiting(ds + [d]) <==> d.Asked? || (Waiting(ds) && !d.Begun? && !d.Heard?)
    ensures Needed(ds + [d]) == if d.Asked? then d.len else Needed(ds)
    ensures Failed(ds + [d]) <==> Failed(ds) || ((d.Begun? || d.Heard?) && Missing(d.ans))
    ensures Taken(ds + [d]) ==
      match d
      case Begun(_) => 0
      case Heard(ans, _) => if !Missing(ans) && ans.grant.value >= Needed(ds) then Needed(ds) else OnRecord(ds)
      case Passed(len) => Taken(ds) + if Usable(ds) >= len then len else 0
      case Charged(len) => Taken(ds) + if Failed(ds) then 0 else len
      case _ => Taken(ds)
    ensures OnRecord(ds + [d]) ==
      match d
      case Heard(ans, _) => OnRecord(ds) + if Missing(ans) then Needed(ds) else 0
      case Passed(len) => OnRecord(ds) + if Usable(ds) >= len then 0 else len
      case Charged(len) => OnRecord(ds) + if Failed(ds) then len else 0
      case _ => OnRecord(ds)
  {
    var more := ds + [d];
    assert more[..|more| - 1] == ds && more[|more| - 1] == d;
    FailedSnoc(ds, d);
    hide Failed, Missing, Usable;
  }

  lemma StepTells(ds: seq<Deed>, w: World, e: Event)
    requires Tells(ds, w)
    ensures Tells(ds + Seen(w, e), Step(w, e))
    ensures Seen(w, e) != [] ==> |Seen(w, e)| == 1 && Lawful(ds, Seen(w, e)[0])
  {
    hide LastGrant, Waiting, Needed, Failed, Taken, OnRecord;
    var seen := Seen(w, e);
    if seen == [] {
      assert ds + seen == ds;
    } else {
      assert ds + seen == ds + [seen[0]];
      Entered(ds, seen[0]);
    }
  }

  ghost predicate AllLawful(ds: seq<Deed>, more: seq<Deed>)
    decreases |more|
  {
    more == [] || (Lawful(ds, more[0]) && AllLawful(ds + [more[0]], more[1..]))
  }

  lemma {:induction false} RunTells(ds: seq<Deed>, w: World, es: seq<Event>)
    requires Tells(ds, w)
    ensures Tells(ds + Trail(w, es), Run(w, es)) && AllLawful(ds, Trail(w, es))
    decreases |es|
  {
    hide Tells, Lawful, Step, Seen;
    if es == [] {
      assert ds + [] == ds;
    } else {
      var seen, next := Seen(w, es[0]), Step(w, es[0]);
      StepTells(ds, w, es[0]);
      RunTells(ds + seen, next, es[1..]);
      assert ds + seen + Trail(next, es[1..]) == ds + Trail(w, es);
      if seen == [] {
        assert ds + seen == ds && Trail(w, es) == Trail(next, es[1..]);
      } else {
        assert seen == [seen[0]] && Trail(w, es)[1..] == Trail(next, es[1..]);
      }
    }
  }

  /** Every life is lawful, from its start on, and the fields are always what the ledger says. */
  lemma LivesAreLawful(ans: Answer, es: seq<Event>)
    ensures AllLawful([Begun(ans)], Trail(Opened(ans), es)) && Tells(Story(ans, es), Run(Opened(ans), es))
  {
    assert Failed([Begun(ans)]) <==> Missing(ans) by {
      assert [Begun(ans)][0] == Begun(ans);
    }
    assert Tells([Begun(ans)], Opened(ans));
    RunTells([Begun(ans)], Opened(ans), es);
  }

  // ------------------------------------------------------------------ what comes next

  /** The next use of a session: exactly when it is let through, turned down or asks, and what it
      takes from the grant or puts on record. */
  lemma NextUse(ans: Answer, es: seq<Event>, len: nat)
    ensures var ds, w := Story(ans, es), Run(Opened(ans), es);
      var (s, verdict) := OnUse(w.s, len);
      var free := Waiting(ds) || Failed(ds);
      && (verdict == Admit <==> Usable(ds) >= len || free)
      && (verdict == Refuse <==> Usable(ds) < len && !free && LastGrant(ds) == 0)
      && (verdict == Ask(Request(Taken(ds), len)) <==> Usable(ds) < len && !free && LastGrant(ds) > 0)
      && s.granted == LastGrant(ds) && s.left == Usable(ds) - (if Usable(ds) >= len then len else 0)
      && s.errorUsed == OnRecord(ds) + (if Usable(ds) < len && free then len else 0)
      && (s.pending == 1 <==> Waiting(ds) || verdict.Ask?) && (s.dserverError <==> Failed(ds))
  {
    hide Run, LastGrant, Waiting, Needed, Failed, Taken, OnRecord, Story;
    LivesAreLawful(ans, es);
  }

  /** The next answer: exactly when the waiting use is let through, and what is left then. */
  lemma NextAnswer(ans: Answer, es: seq<Event>, next: Answer)
    ensures var ds, w := Story(ans, es), Run(Opened(ans), es);
      w.alive && Waiting(ds) ==>
        var need := Needed(ds);
        var v := Step(w, Answered(0, next));
        && v.admitted == w.admitted + (if Missing(next) || next.grant.value >= need then need else 0)
        && v.s == if Missing(next) then State(0, 0 - OnRecord(ds), OnRecord(ds) + need, 0, true)
                  else if next.grant.value >= need then
                    State(next.grant.value, next.grant.value - need, OnRecord(ds), 0, false)
                  else State(next.grant.value, next.grant.value - OnRecord(ds), OnRecord(ds), 0, false)
  {
    hide Run, LastGrant, Waiting, Needed, Failed, Taken, OnRecord, Story;
    LivesAreLawful(ans, es);
    RunKeepsInv(Opened(ans), es);
  }

  // ------------------------------------------------------------------ how far a grant goes

  ghost predicate AllUses(us: seq<Event>) {
    forall k :: 0 <= k < |us| ==> us[k].Use?
  }

  /** Every one of these uses is let through at once. */
  ghost predicate NoneWaits(w: World, us: seq<Event>) {
    forall d | d in Trail(w, us) :: d.Passed?
  }

  /** What is left can be used without asking, and not a byte more. */
  lemma {:induction false} LeftIsUsable(w: World, us: seq<Event>)
    requires w.alive && w.s.pending == 0 && !w.s.dserverError && AllUses(us)
    requires us != [] || w.s.left >= 0
    ensures NoneWaits(w, us) <==> Volume(us) <= w.s.left
    ensures NoneWaits(w, us) ==>
      && Run(w, us).s == w.s.(left := w.s.left - Volume(us)) && Run(w, us).outstanding == w.outstanding
      && Run(w, us).reported == w.reported && Run(w, us).admitted == w.admitted + Volume(us)
    decreases |us|
  {
    if us != [] {
      var next, rest := Step(w, us[0]), us[1..];
      assert us[0].Use? && Trail(w, us)[0] == Seen(w, us[0])[0];
      assert Trail(w, us)[0] in Trail(w, us);
      if w.s.left >= us[0].len {
        LeftIsUsable(next, rest);
        assert Trail(w, us) == Seen(w, us[0]) + Trail(next, rest);
      }
    }
  }

  /** A grant of the start request can be used to its last byte, and no further, without asking. */
  lemma StartGrantIsUsable(ans: Answer, us: seq<Event>)
    requires !Missing(ans) && AllUses(us)
    ensures NoneWaits(Opened(ans), us) <==> Volume(us) <= ans.grant.value
  {
    hide Trail, Run;
    LeftIsUsable(Opened(ans), us);
  }

  /** At any time that no request is unanswered and the server has not failed, what can be used
      without asking is what is left of the last grant. */
  lemma UsableIsUsable(ans: Answer, es: seq<Event>, us: seq<Event>)
    requires var ds, w := Story(ans, es), Run(Opened(ans), es);
      w.alive && !Waiting(ds) && !Failed(ds) && (us != [] || Usable(ds) >= 0) && AllUses(us)
    ensures NoneWaits(Run(Opened(ans), es), us) <==> Volume(us) <= Usable(Story(ans, es))
  {
    hide Run, LastGrant, Waiting, Needed, Failed, Taken, OnRecord, Story, Trail, Usable;
    LivesAreLawful(ans, es);
    LeftIsUsable(Run(Opened(ans), es), us);
  }

  /** After an answer it is the grant less the bytes waited for if the grant covers them, and less
      all bytes on record otherwise. */
  lemma GrantIsUsable(ans: Answer, es: seq<Event>, next: Answer, us: seq<Event>)
    requires var ds, w := Story(ans, es), Run(Opened(ans), es);
      w.alive && Waiting(ds) && !Missing(next) && us != [] && AllUses(us)
    ensures var ds, w := Story(ans, es), Run(Opened(ans), es);
      var gone := if next.grant.value >= Needed(ds) then Needed(ds) else OnRecord(ds);
      NoneWaits(Step(w, Answered(0, next)), us) <==> Volume(us) <= next.grant.value - gone
  {
    hide Run, LastGrant, Waiting, Needed, Failed, Taken, OnRecord, Story, Trail;
    var ds, w := Story(ans, es), Run(Opened(ans), es);
    NextAnswer(ans, es, next);
    LeftIsUsable(Step(w, Answered(0, next)), us);
  }

  // ------------------------------------------------------------------ where the grants go

  predicate Reached(w: World, e: Event) {
    w.alive && e.Answered? && e.k < |w.outstanding|
  }

  /** What an answer grants. */
  function Given(w: World, e: Event): int {
    if Reached(w, e) && !Missing(e.ans) then e.ans.grant.value else 0
  }

  /** What was left of the grant before. */
  function GivenUp(w: World, e: Event): int {
    if Reached(w, e) then w.s.left else 0
  }

  /** What an answer that does not grant charges. */
  function Recharge(w: World, e: Event): int {
    if Reached(w, e) && (Missing(e.ans) || e.ans.grant.value < w.outstanding[e.k].need) then w.s.errorUsed else 0
  }

  function Total(f: (World, Event) -> int, w: World, es: seq<Event>): int
    decreases |es|
  {
    if es == [] then 0 else f(w, es[0]) + Total(f, Step(w, es[0]), es[1..])
  }

  /** The grants add up, on every run: each byte granted has been used or charged under the grant, has
      been charged once more by an answer that did not grant, has been given up when the next answer
      came, or is left. */
  lemma {:induction false} GrantsAddUp(w: World, es: seq<Event>)
    ensures var v := Run(w, es);
      w.s.left + Total(Given, w, es)
        == v.s.left + Total(GivenUp, w, es) + Total(Recharge, w, es)
           + (v.admitted + v.posted - v.s.errorUsed) - (w.admitted + w.posted - w.s.errorUsed)
    decreases |es|
  {
    if es != [] {
      GrantsAddUp(Step(w, es[0]), es[1..]);
    }
  }
}
