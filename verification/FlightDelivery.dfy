/** What the calls of a key can be handed: by the entry, by their own run, or by the flight they joined. */
module FlightDelivery {
  import opened Flights
  import opened FlightInvariants

  /** What is expected of the outcomes handed out. */
  type Expectation = Outcome -> bool

  ghost predicate PhaseMeets(phase: Phase, good: Expectation) {
    match phase
    case Running(run) => forall bytes :: good(Data(bytes, run))
    case Storing(bytes, run) => good(Data(bytes, run))
    case Closing(result) => good(result)
    case Returned(result) => good(result)
    case Done(result, _) => good(result)
    case _ => true
  }

  ghost predicate CallMeets(s: State, t: Tid, good: Expectation)
    requires t in s.threads
  {
    && PhaseMeets(s.threads[t].phase, good)
    && (s.threads[t].phase.Waiting? ==>
          var l := s.threads[t].phase.leader;
          if l in s.results then good(s.results[l])
          else KeyOf(s, t) in s.flights && s.flights[KeyOf(s, t)] == l)
  }

  ghost predicate FlightMeets(s: State, k: string, good: Expectation) {
    k in s.flights && s.flights[k] in s.threads ==> PhaseMeets(s.threads[s.flights[k]].phase, good)
  }

  /** Whatever the key's entry, its open flight, or a call for it outside `earlier` can hand out is as
      expected. */
  ghost predicate HandsOut(c: Config, s: State, k: string, good: Expectation, earlier: set<Tid>) {
    && (Live(c, s, k) ==> good(Found(s, k)))
    && FlightMeets(s, k, good)
    && (forall t :: t in s.threads && t !in earlier && KeyOf(s, t) == k ==> CallMeets(s, t, good))
  }

  /** A step that starts or ends a run for the key does so as expected. */
  ghost predicate Contributes(s: State, step: Step, k: string, good: Expectation) {
    Ours(s, step, k) ==>
      && (step.Start? ==> forall bytes :: good(Data(bytes, |s.log|)))
      && (step.EndError? ==> good(Failed))
      && (step.EndNothing? ==> good(Nothing))
  }

  // ----- every step keeps what is expected -----

  /** What the acting call of the key holds next is as expected if what it drew on is. */
  lemma ActorMeets(c: Config, s: State, step: Step, k: string, good: Expectation)
    requires Enabled(c, s, step) && Ours(s, step, k) && Contributes(s, step, k, good)
    requires PhaseMeets(s.threads[step.t].phase, good)
    requires Live(c, s, k) ==> good(Found(s, k))
    requires step.Wake? ==> good(s.results[s.threads[step.t].phase.leader])
    ensures PhaseMeets(NextThread(c, s, step).phase, good)
    ensures NextThread(c, s, step).phase.Waiting? <==> step.Join?
    ensures step.Join? ==> k in s.flights && NextThread(c, s, step).phase.leader == s.flights[k]
  {
    hide NextSent;
  }

  lemma EntryMeets(c: Config, s: State, step: Step, k: string, good: Expectation, earlier: set<Tid>)
    requires Leadership(s) && Enabled(c, s, step) && HandsOut(c, s, k, good, earlier)
    requires c.ttl(k) > 0
    ensures var s' := Apply(c, s, step); Live(c, s', k) ==> good(Found(s', k))
  {
    hide Apply, CallMeets, Live, Enabled, Leadership;
    EntryChanges(c, s, step, k);
    if Stored(c, s, step, k) {
      StoresItsBytes(c, s, step, k, good);
    }
  }

  lemma StoresItsBytes(c: Config, s: State, step: Step, k: string, good: Expectation)
    requires Leadership(s) && Enabled(c, s, step) && Stored(c, s, step, k) && FlightMeets(s, k, good)
    ensures k in Apply(c, s, step).store && good(Found(Apply(c, s, step), k))
  {
    hide NextThread, NextFlights, NextResults, NextLimiter, NextHonoured, NextLog, NextTallies;
  }

  /** A step of the leader of the key, or of the call that becomes it. */
  lemma LeaderMeets(c: Config, s: State, step: Step, k: string, good: Expectation, earlier: set<Tid>)
    requires Leadership(s) && Enabled(c, s, step) && HasActor(step) && HandsOut(c, s, k, good, earlier)
    requires Contributes(s, step, k, good)
    ensures NextThread(c, s, step).request.key == k && InFlight(NextThread(c, s, step).phase) ==>
              PhaseMeets(NextThread(c, s, step).phase, good)
  {
    hide NextThread, CallMeets, PhaseMeets;
    PhaseChanges(c, s, step);
    if step.Lead? {
      LeadStartsClean(c, s, step, good);
    } else if Ours(s, step, k) && InFlight(s.threads[step.t].phase) {
      ActorMeets(c, s, step, k, good);
    }
  }

  lemma LeadStartsClean(c: Config, s: State, step: Step, good: Expectation)
    requires Enabled(c, s, step) && step.Lead?
    ensures PhaseMeets(NextThread(c, s, step).phase, good)
  {
  }

  lemma FlightStillMeets(c: Config, s: State, step: Step, k: string, good: Expectation, earlier: set<Tid>)
    requires Leadership(s) && Enabled(c, s, step) && HandsOut(c, s, k, good, earlier)
    requires Contributes(s, step, k, good)
    ensures FlightMeets(Apply(c, s, step), k, good)
  {
    hide NextThread, NextStore, NextResults, NextLimiter, NextHonoured, NextLog, NextTallies,
      CallMeets, PhaseMeets, Live, Contributes;
    if HasActor(step) {
      LeaderMeets(c, s, step, k, good, earlier);
      PhaseChanges(c, s, step);
      ActorExists(c, s, step);
    }
  }

  lemma LeaderHasNoResult(c: Config, s: State, l: Tid)
    requires Provenance(c, s) && l in s.threads && InFlight(s.threads[l].phase)
    ensures l !in s.results
  {
    hide PhaseFrom, EntryFrom;
    assert l in s.results ==> ResultFrom(s, l);
  }

  lemma NothingHeld(good: Expectation)
    ensures PhaseMeets(Arrived, good)
  {
  }

  lemma MoverMeets(c: Config, s: State, step: Step, k: string, good: Expectation, earlier: set<Tid>)
    requires Leadership(s) && Provenance(c, s) && Enabled(c, s, step) && HandsOut(c, s, k, good, earlier)
    requires Contributes(s, step, k, good)
    requires HasActor(step) && step.t !in earlier && NextThread(c, s, step).request.key == k
    ensures CallMeets(Apply(c, s, step), step.t, good)
  {
    hide NextThread, NextStore, NextLimiter, NextHonoured, NextLog, NextTallies, Enabled, Provenance, PhaseMeets, Live,
      Contributes;
    PhaseChanges(c, s, step);
    ActorExists(c, s, step);
    if step.Spawn? {
      NothingHeld(good);
    } else {
      assert CallMeets(s, step.t, good);
      ActorMeets(c, s, step, k, good);
      if step.Join? {
        LeaderOf(s, k);
        LeaderHasNoResult(c, s, s.flights[k]);
      }
    }
  }

  lemma WaiterMeets(c: Config, s: State, step: Step, k: string, good: Expectation, earlier: set<Tid>, t: Tid)
    requires Leadership(s) && Provenance(c, s) && Enabled(c, s, step) && HandsOut(c, s, k, good, earlier)
    requires t in s.threads && t !in earlier && KeyOf(s, t) == k && (HasActor(step) ==> step.t != t)
    ensures CallMeets(Apply(c, s, step), t, good)
  {
    hide NextThread, NextStore, NextLimiter, NextHonoured, NextLog, NextTallies, PhaseMeets, Live, Enabled, Leadership,
      Provenance;
    assert CallMeets(s, t, good);
    if step.Close? {
      ClosesOwnFlight(c, s, step, k, good);
    }
    if HasActor(step) {
      ActorExists(c, s, step);
    }
  }

  lemma ClosesOwnFlight(c: Config, s: State, step: Step, k: string, good: Expectation)
    requires Leadership(s) && Provenance(c, s) && Enabled(c, s, step) && step.Close? && FlightMeets(s, k, good)
    ensures step.t in s.threads && KeyOf(s, step.t) in s.flights && s.flights[KeyOf(s, step.t)] == step.t
    ensures step.t !in s.results && (k in s.flights && s.flights[k] == step.t ==> KeyOf(s, step.t) == k)
    ensures KeyOf(s, step.t) == k ==> good(s.threads[step.t].phase.result)
  {
    hide Provenance;
    LeaderHasNoResult(c, s, step.t);
  }

  lemma CallStillMeets(c: Config, s: State, step: Step, k: string, good: Expectation, earlier: set<Tid>, t: Tid)
    requires Leadership(s) && Provenance(c, s) && Enabled(c, s, step) && HandsOut(c, s, k, good, earlier)
    requires Contributes(s, step, k, good)
    requires var s' := Apply(c, s, step); t in s'.threads && t !in earlier && KeyOf(s', t) == k
    ensures CallMeets(Apply(c, s, step), t, good)
  {
    hide NextThread, NextStore, NextFlights, NextResults, NextLimiter, NextHonoured, NextLog, NextTallies,
      Live, HandsOut, Leadership, Provenance, Contributes, CallMeets, Enabled;
    if HasActor(step) && step.t == t {
      MoverMeets(c, s, step, k, good, earlier);
    } else {
      WaiterMeets(c, s, step, k, good, earlier, t);
    }
  }

  lemma HandsOutKept(c: Config, s: State, step: Step, k: string, good: Expectation, earlier: set<Tid>)
    requires Leadership(s) && Provenance(c, s) && Enabled(c, s, step) && c.ttl(k) > 0
    requires HandsOut(c, s, k, good, earlier) && Contributes(s, step, k, good)
    ensures HandsOut(c, Apply(c, s, step), k, good, earlier)
  {
    hide Apply, Live, CallMeets, FlightMeets, Leadership, Provenance, Contributes, Enabled;
    EntryMeets(c, s, step, k, good, earlier);
    FlightStillMeets(c, s, step, k, good, earlier);
    var s' := Apply(c, s, step);
    forall t | t in s'.threads && t !in earlier && KeyOf(s', t) == k ensures CallMeets(s', t, good) {
      CallStillMeets(c, s, step, k, good, earlier, t);
    }
  }

  // ----- who responded to a call that received nil bytes -----

  /** A call for the key led a flight that ended in nil bytes: the handler responded by itself. */
  ghost predicate RespondedItself(s: State, l: Tid, k: string) {
    l in s.threads && s.threads[l].led && KeyOf(s, l) == k && l in s.results && s.results[l] == Nothing
  }

  /** A call that was handed nil bytes by a flight it did not lead. */
  predicate FollowedIntoNothing(th: Thread) {
    !th.led && (th.phase.Returned? || th.phase.Done?) && th.phase.result.Nothing?
  }

  ghost predicate Linked(s: State) {
    && (forall l :: l in s.results ==> l in s.threads && s.threads[l].led)
    && (forall t :: t in s.threads && FollowedIntoNothing(s.threads[t]) ==>
          exists l :: RespondedItself(s, l, KeyOf(s, t)))
  }

  /** What the link depends on in the acting call. */
  lemma ActorLinked(c: Config, s: State, step: Step)
    requires Enabled(c, s, step) && HasActor(step) && AllResponses(s)
    ensures step.Spawn? ==> step.t !in s.threads && !FollowedIntoNothing(NextThread(c, s, step))
    ensures !step.Spawn? ==>
              && step.t in s.threads && NextThread(c, s, step).request == s.threads[step.t].request
              && (s.threads[step.t].led ==> NextThread(c, s, step).led)
    ensures step.Close? ==> s.threads[step.t].led
    ensures !step.Spawn? && FollowedIntoNothing(NextThread(c, s, step)) ==>
              || FollowedIntoNothing(s.threads[step.t])
              || (s.threads[step.t].phase.Waiting? && s.threads[step.t].phase.leader in s.results &&
                  s.results[s.threads[step.t].phase.leader] == Nothing)
  {
    hide NextSent;
    assert !step.Spawn? ==> Responses(s.threads[step.t]);
  }

  lemma ResponderStays(c: Config, s: State, step: Step, l: Tid, k: string)
    requires Leadership(s) && Provenance(c, s) && AllResponses(s) && Enabled(c, s, step) && RespondedItself(s, l, k)
    ensures RespondedItself(Apply(c, s, step), l, k)
  {
    hide NextThread, NextStore, NextFlights, NextLimiter, NextHonoured, NextLog, NextTallies, Leadership, Provenance,
      Responses, Enabled;
    if HasActor(step) {
      ActorLinked(c, s, step);
      ActorExists(c, s, step);
      if step.Close? {
        LeaderHasNoResult(c, s, step.t);
      }
    }
  }

  lemma LinkedKept(c: Config, s: State, step: Step)
    requires Leadership(s) && Provenance(c, s) && AllResponses(s) && Enabled(c, s, step) && Linked(s)
    ensures Linked(Apply(c, s, step))
  {
    hide NextThread, NextStore, NextFlights, NextLimiter, NextHonoured, NextLog, NextTallies, Leadership, Provenance,
      Responses, Enabled, FollowedIntoNothing, RespondedItself;
    var s' := Apply(c, s, step);
    if HasActor(step) {
      ActorLinked(c, s, step);
    }
    forall t | t in s'.threads && FollowedIntoNothing(s'.threads[t])
      ensures exists l :: RespondedItself(s', l, KeyOf(s', t))
    {
      var l := Responder(c, s, step, t);
      ResponderStays(c, s, step, l, KeyOf(s', t));
    }
  }

  lemma Responder(c: Config, s: State, step: Step, t: Tid) returns (l: Tid)
    requires Leadership(s) && Provenance(c, s) && AllResponses(s) && Enabled(c, s, step) && Linked(s)
    requires t in Apply(c, s, step).threads && FollowedIntoNothing(Apply(c, s, step).threads[t])
    ensures RespondedItself(s, l, KeyOf(Apply(c, s, step), t))
  {
    hide NextThread, NextStore, NextFlights, NextResults, NextLimiter, NextHonoured, NextLog, NextTallies, Leadership,
      Responses, Enabled, FollowedIntoNothing, PhaseFrom, EntryFrom, ResultFrom;
    if HasActor(step) {
      ActorLinked(c, s, step);
    }
    if t in s.threads && FollowedIntoNothing(s.threads[t]) {
      l :| RespondedItself(s, l, KeyOf(s, t));
    } else {
      l := s.threads[t].phase.leader;
    }
  }
}
