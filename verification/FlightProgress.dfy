/** No call gets stuck, and no follower waits for a flight that nobody will close. */
module FlightProgress {
  import opened Flights
  import opened FlightInvariants
  import opened FlightDelivery

  // ----- calls are short -----

  /** The most steps a call can still take. */
  function StepsLeft(phase: Phase): nat {
    match phase
    case Arrived => 10
    case Deleting => 9
    case Looking => 8
    case Joining => 7
    case Checking => 6
    case Calling => 5
    case Running(_) => 4
    case Storing(_, _) => 3
    case Closing(_) => 2
    case Waiting(_) => 2
    case Returned(_) => 1
    case Done(_, _) => 0
  }

  lemma StepsGoDown(c: Config, s: State, step: Step)
    requires Enabled(c, s, step) && HasActor(step) && !step.Spawn?
    ensures step.t in s.threads && StepsLeft(NextThread(c, s, step).phase) < StepsLeft(s.threads[step.t].phase)
  {
    hide NextSent;
  }

  /** How many of the steps the call took, its arrival included. */
  function StepsOf(steps: seq<Step>, t: Tid): nat {
    if steps == [] then 0
    else
      var last := steps[|steps| - 1];
      StepsOf(steps[..|steps| - 1], t) + if HasActor(last) && last.t == t then 1 else 0
  }

  /** However the calls interleave, each takes at most eleven steps. */
  lemma {:induction false} CallsAreShort(c: Config, steps: seq<Step>, t: Tid)
    requires Feasible(c, steps)
    ensures var s := After(c, steps);
            if t in s.threads then StepsOf(steps, t) + StepsLeft(s.threads[t].phase) <= 11 else StepsOf(steps, t) == 0
  {
    hide NextThread, NextStore, NextFlights, NextResults, NextLimiter, NextHonoured, NextLog, NextTallies, Enabled;
    if steps != [] {
      var front, last := steps[..|steps| - 1], steps[|steps| - 1];
      CallsAreShort(c, front, t);
      if HasActor(last) {
        ActorExists(c, After(c, front), last);
        PhaseChanges(c, After(c, front), last);
        if !last.Spawn? {
          StepsGoDown(c, After(c, front), last);
        }
      }
    }
  }

  // ----- nobody waits in vain -----

  ghost function Anything(): Expectation {
    (o: Outcome) => true
  }

  lemma {:induction false} AnythingHolds(c: Config, steps: seq<Step>, k: string)
    requires Feasible(c, steps) && c.ttl(k) > 0
    ensures HandsOut(c, After(c, steps), k, Anything(), {})
  {
    hide Apply, Leadership, Provenance, AllResponses, Deduplicated, Counted, DeletesCovered, Spaced, HandsOut;
    if steps == [] {
      assert HandsOut(c, Init(), k, Anything(), {}) by { NobodyWaits(c, k); }
    } else {
      var front := steps[..|steps| - 1];
      AnythingHolds(c, front, k);
      InvariantHolds(c, front);
      HandsOutKept(c, After(c, front), steps[|steps| - 1], k, Anything(), {});
    }
  }

  lemma NobodyWaits(c: Config, k: string)
    ensures HandsOut(c, Init(), k, Anything(), {})
  {
  }

  /** The leader has handed over, or still leads the open flight of the same key. */
  ghost predicate Served(s: State, t: Tid, l: Tid)
    requires t in s.threads
  {
    || l in s.results
    || (l in s.threads && InFlight(s.threads[l].phase) && KeyOf(s, l) == KeyOf(s, t) &&
        KeyOf(s, t) in s.flights && s.flights[KeyOf(s, t)] == l)
  }

  lemma NoOrphans(c: Config, steps: seq<Step>, t: Tid, l: Tid)
    requires Feasible(c, steps) && At(After(c, steps), t, Waiting(l))
    ensures Served(After(c, steps), t, l)
  {
    hide After, Feasible, Provenance, AllResponses, Deduplicated, Counted, DeletesCovered, Spaced;
    InvariantHolds(c, steps);
    AnythingHolds(c, steps, KeyOf(After(c, steps), t));
    assert CallMeets(After(c, steps), t, Anything());
  }

  // ----- some call can always go on -----

  predicate Finished(s: State, t: Tid) {
    t in s.threads && s.threads[t].phase.Done?
  }

  /** The call itself can take a step: it is not waiting for another call. */
  predicate Ready(s: State, t: Tid) {
    && t in s.threads && !s.threads[t].phase.Done?
    && (s.threads[t].phase.Waiting? ==> s.threads[t].phase.leader in s.results)
  }

  /** One of the steps a ready call can take; a running handler may return. */
  function OwnStep(c: Config, s: State, t: Tid): (step: Step)
    requires Ready(s, t)
    ensures HasActor(step) && !step.Spawn? && step.t == t && Enabled(c, s, step)
  {
    var k := KeyOf(s, t);
    match s.threads[t].phase
    case Arrived =>
      if !s.threads[t].request.refresh then NoRefresh(t)
      else if Allowed(c, s, StreamOf(s, t)) then Allow(t) else Reject(t)
    case Deleting => Delete(t)
    case Looking => if Live(c, s, k) then Hit(t) else Miss(t)
    case Joining => if k in s.flights then Join(t) else Lead(t)
    case Checking => if Live(c, s, k) then RecheckHit(t) else RecheckMiss(t)
    case Calling => Start(t)
    case Running(_) => EndBytes(t, [])
    case Storing(_, _) => Step.Store(t)
    case Closing(_) => Close(t)
    case Waiting(_) => Wake(t)
    case Returned(_) => Send(t, true)
  }

  /** The call that an unfinished call depends on for the next step: itself, or the leader it follows. */
  function Runner(s: State, t: Tid): Tid
    requires t in s.threads
  {
    if s.threads[t].phase.Waiting? && s.threads[t].phase.leader !in s.results then s.threads[t].phase.leader else t
  }

  lemma RunnerIsReady(c: Config, steps: seq<Step>, t: Tid)
    requires Feasible(c, steps) && t in After(c, steps).threads && !Finished(After(c, steps), t)
    ensures Ready(After(c, steps), Runner(After(c, steps), t))
  {
    hide After, Feasible;
    var s := After(c, steps);
    if s.threads[t].phase.Waiting? {
      NoOrphans(c, steps, t, s.threads[t].phase.leader);
    }
  }

  /** No deadlock: only new calls, the clock and evictions can happen exactly when every call is done. */
  lemma OnlyFinishedCallsRest(c: Config, steps: seq<Step>)
    requires Feasible(c, steps)
    ensures var s := After(c, steps);
            (forall step :: Enabled(c, s, step) && HasActor(step) ==> step.Spawn?) <==>
            (forall t :: t in s.threads ==> Finished(s, t))
  {
    hide After, Feasible, OwnStep;
    var s := After(c, steps);
    if t :| t in s.threads && !Finished(s, t) {
      RunnerIsReady(c, steps, t);
      var step := OwnStep(c, s, Runner(s, t));
      assert Enabled(c, s, step) && HasActor(step) && !step.Spawn?;
    } else {
      forall step | Enabled(c, s, step) && HasActor(step) && !step.Spawn?
        ensures !Finished(s, step.t) && step.t in s.threads
      {
        StepsGoDown(c, s, step);
      }
    }
  }

  // ----- every call can be completed from every state -----

  ghost function Unfinished(s: State): set<Tid> {
    set t | t in s.threads && !s.threads[t].phase.Done?
  }

  /** What the completion of calls leaves of the others: they are the same, and the finished ones stay so. */
  ghost predicate NoneLost(s: State, s': State) {
    s'.threads.Keys == s.threads.Keys && Unfinished(s') <= Unfinished(s)
  }

  lemma StepLosesNone(c: Config, s: State, step: Step)
    requires Enabled(c, s, step) && HasActor(step) && !step.Spawn?
    ensures NoneLost(s, Apply(c, s, step))
  {
    hide NextThread, NextStore, NextFlights, NextResults, NextLimiter, NextHonoured, NextLog, NextTallies, Enabled;
    StepsGoDown(c, s, step);
  }

  /** How long the leader that the call waits for can still take. */
  ghost function LeaderSteps(s: State, t: Tid): nat
    requires t in s.threads
  {
    if Runner(s, t) == t || Runner(s, t) !in s.threads then 0 else StepsLeft(s.threads[Runner(s, t)].phase)
  }

  lemma {:induction false} CanFinish(c: Config, steps: seq<Step>, t: Tid) returns (seg: seq<Step>)
    requires Feasible(c, steps) && t in After(c, steps).threads
    ensures Feasible(c, steps + seg) && Finished(After(c, steps + seg), t)
    ensures NoneLost(After(c, steps), After(c, steps + seg))
    decreases StepsLeft(After(c, steps).threads[t].phase), LeaderSteps(After(c, steps), t)
  {
    hide After, Feasible, Apply, Enabled, NextThread, NextResults, OwnStep, StepsLeft;
    var s := After(c, steps);
    if Finished(s, t) {
      seg := [];
      assert steps + seg == steps;
    } else {
      RunnerIsReady(c, steps, t);
      var step := OwnStep(c, s, Runner(s, t));
      StepsGoDown(c, s, step);
      StepLosesNone(c, s, step);
      Take(c, steps, step);
      Moves(c, steps, step);
      var rest := CanFinish(c, steps + [step], t);
      seg := [step] + rest;
      assert steps + seg == steps + [step] + rest;
    }
  }

  /** From every reachable state all calls can be brought to their end. */
  lemma {:induction false} AllCanFinish(c: Config, steps: seq<Step>) returns (seg: seq<Step>)
    requires Feasible(c, steps)
    ensures Feasible(c, steps + seg)
    ensures forall t :: t in After(c, steps).threads ==> Finished(After(c, steps + seg), t)
    decreases Unfinished(After(c, steps))
  {
    hide After, Feasible;
    var s := After(c, steps);
    if t :| t in Unfinished(s) {
      var one := CanFinish(c, steps, t);
      var rest := AllCanFinish(c, steps + one);
      seg := one + rest;
      assert After(c, steps + one).threads.Keys == s.threads.Keys;
      assert steps + seg == steps + one + rest;
    } else {
      seg := [];
      assert steps + seg == steps;
      assert forall t :: t in s.threads && !Finished(s, t) ==> t in Unfinished(s);
    }
  }
}
