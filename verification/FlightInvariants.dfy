/** What every step of the concurrent cache keeps, and so what holds after every feasible run. */
module FlightInvariants {
  import opened Flights

  /** The phases in which a call leads the open flight of its key. */
  predicate InFlight(phase: Phase) {
    phase.Checking? || phase.Calling? || phase.Running? || phase.Storing? || phase.Closing?
  }

  predicate InRun(phase: Phase) {
    phase.Running? || phase.Storing?
  }

  /** A handler run for the key has started and its bytes are not yet stored or dropped. */
  ghost predicate RunUnderWay(s: State, k: string) {
    k in s.flights && s.flights[k] in s.threads && InRun(s.threads[s.flights[k]].phase)
  }

  lemma PhaseChanges(c: Config, s: State, step: Step)
    requires Enabled(c, s, step) && HasActor(step)
    ensures var th' := NextThread(c, s, step);
            if step.Spawn? then th'.phase == Arrived && th'.request == step.request
            else
              && th'.request == s.threads[step.t].request
              && (InFlight(th'.phase) <==> (step.Lead? || (InFlight(s.threads[step.t].phase) && !step.Close?)))
              && (InRun(th'.phase) <==> step.Start? || step.EndBytes?)
              && (InRun(s.threads[step.t].phase) ==>
                  step.EndBytes? || step.EndError? || step.EndNothing? || step.Store?)
              && (step.Close? ==> th'.phase == Returned(s.threads[step.t].phase.result))
              && (s.threads[step.t].phase.Returned? ==>
                  th'.phase.Done? && th'.phase.result == s.threads[step.t].phase.result)
              && !s.threads[step.t].phase.Done?
  {
    hide NextSent;
  }

  // ----- leadership -----

  /** A call is in a leading phase exactly when it is the registered leader of its key. */
  ghost predicate Leadership(s: State) {
    && (forall t :: t in s.threads && InFlight(s.threads[t].phase) ==>
          KeyOf(s, t) in s.flights && s.flights[KeyOf(s, t)] == t)
    && (forall k :: k in s.flights ==>
          s.flights[k] in s.threads && InFlight(s.threads[s.flights[k]].phase) && KeyOf(s, s.flights[k]) == k)
  }

  lemma LeadersStayRegistered(c: Config, s: State, step: Step, t: Tid)
    requires Leadership(s) && Enabled(c, s, step)
    requires t in Apply(c, s, step).threads && InFlight(Apply(c, s, step).threads[t].phase)
    ensures var s' := Apply(c, s, step); KeyOf(s', t) in s'.flights && s'.flights[KeyOf(s', t)] == t
  {
    hide NextThread, NextStore, NextResults, NextLimiter, NextHonoured, NextLog, NextTallies, Enabled;
    if HasActor(step) {
      PhaseChanges(c, s, step);
      ActorExists(c, s, step);
    }
  }

  lemma RegisteredStayLeaders(c: Config, s: State, step: Step, k: string)
    requires Leadership(s) && Enabled(c, s, step) && k in Apply(c, s, step).flights
    ensures var s' := Apply(c, s, step);
            var l := s'.flights[k]; l in s'.threads && InFlight(s'.threads[l].phase) && KeyOf(s', l) == k
  {
    hide NextThread, NextStore, NextResults, NextLimiter, NextHonoured, NextLog, NextTallies, Enabled;
    if HasActor(step) {
      PhaseChanges(c, s, step);
      ActorExists(c, s, step);
    }
  }

  lemma LeadershipKept(c: Config, s: State, step: Step)
    requires Leadership(s) && Enabled(c, s, step)
    ensures Leadership(Apply(c, s, step))
  {
    hide Apply, Enabled;
    var s' := Apply(c, s, step);
    forall t | t in s'.threads && InFlight(s'.threads[t].phase)
      ensures KeyOf(s', t) in s'.flights && s'.flights[KeyOf(s', t)] == t
    {
      LeadersStayRegistered(c, s, step, t);
    }
    forall k | k in s'.flights
      ensures var l := s'.flights[k]; l in s'.threads && InFlight(s'.threads[l].phase) && KeyOf(s', l) == k
    {
      RegisteredStayLeaders(c, s, step, k);
    }
  }

  /** The parts of a step's guard that leadership depends on. */
  lemma ActorExists(c: Config, s: State, step: Step)
    requires Enabled(c, s, step) && HasActor(step)
    ensures step.Spawn? <==> step.t !in s.threads
    ensures step.Lead? ==> KeyOf(s, step.t) !in s.flights
    ensures step.Close? ==> InFlight(s.threads[step.t].phase)
    ensures step.Start? ==> s.threads[step.t].phase.Calling?
    ensures step.Wake? ==> s.threads[step.t].phase.Waiting? && s.threads[step.t].phase.leader in s.results
  {
  }

  // ----- provenance -----

  /** The bytes are what that run of the handler returned, and the run was for that key. */
  ghost predicate FromRun(log: seq<Run>, k: string, bytes: Bytes, run: nat) {
    run < |log| && log[run] == Run(k, [bytes])
  }

  ghost predicate OutcomeFrom(log: seq<Run>, k: string, result: Outcome) {
    result.Data? ==> FromRun(log, k, result.bytes, result.run)
  }

  ghost predicate PhaseFrom(log: seq<Run>, k: string, phase: Phase) {
    match phase
    case Running(run) => run < |log| && log[run] == Run(k, [])
    case Storing(bytes, run) => FromRun(log, k, bytes, run)
    case Closing(result) => OutcomeFrom(log, k, result)
    case Returned(result) => OutcomeFrom(log, k, result)
    case Done(result, _) => OutcomeFrom(log, k, result)
    case _ => true
  }

  ghost predicate EntryFrom(c: Config, s: State, k: string)
    requires k in s.store
  {
    var e := s.store[k];
    FromRun(s.log, k, e.bytes, e.run) && |e.bytes| <= c.maxValueBytes && e.setAt <= s.now
  }

  ghost predicate ResultFrom(s: State, leader: Tid)
    requires leader in s.results
  {
    && leader in s.threads
    && OutcomeFrom(s.log, KeyOf(s, leader), s.results[leader])
    && (s.threads[leader].phase.Returned? || s.threads[leader].phase.Done?)
    && s.threads[leader].phase.result == s.results[leader]
  }

  ghost predicate Provenance(c: Config, s: State) {
    && (forall t :: t in s.threads ==> PhaseFrom(s.log, KeyOf(s, t), s.threads[t].phase))
    && (forall k :: k in s.store ==> EntryFrom(c, s, k))
    && (forall l :: l in s.results ==> ResultFrom(s, l))
    && (forall t :: t in s.threads && s.threads[t].phase.Waiting? ==>
          var l := s.threads[t].phase.leader; l in s.threads && KeyOf(s, l) == KeyOf(s, t))
  }

  /** The log only grows, and a finished run is never rewritten. */
  lemma LogGrows(c: Config, s: State, step: Step)
    requires Leadership(s) && Provenance(c, s) && Enabled(c, s, step)
    ensures var log' := NextLog(c, s, step);
            && |s.log| <= |log'|
            && (forall r :: 0 <= r < |s.log| ==> log'[r].key == s.log[r].key)
            && (forall k, bytes, run :: FromRun(s.log, k, bytes, run) ==> FromRun(log', k, bytes, run))
  {
    if step.EndBytes? {
      assert PhaseFrom(s.log, KeyOf(s, step.t), s.threads[step.t].phase);
    }
  }

  lemma RunningElsewhere(c: Config, s: State, step: Step, t: Tid)
    requires Leadership(s) && Provenance(c, s) && Enabled(c, s, step)
    requires t in s.threads && s.threads[t].phase.Running? && (HasActor(step) ==> step.t != t)
    ensures PhaseFrom(NextLog(c, s, step), KeyOf(s, t), s.threads[t].phase)
  {
    assert PhaseFrom(s.log, KeyOf(s, t), s.threads[t].phase);
    if step.EndBytes? {
      assert PhaseFrom(s.log, KeyOf(s, step.t), s.threads[step.t].phase);
    }
  }

  lemma RunnerFrom(c: Config, s: State, step: Step)
    requires Provenance(c, s) && Enabled(c, s, step) && (step.Start? || step.EndBytes?)
    ensures PhaseFrom(NextLog(c, s, step), KeyOf(s, step.t), NextThread(c, s, step).phase)
    ensures !NextThread(c, s, step).phase.Waiting?
  {
    hide NextSent, EntryFrom, ResultFrom;
    assert PhaseFrom(s.log, KeyOf(s, step.t), s.threads[step.t].phase);
  }

  lemma ActorFrom(c: Config, s: State, step: Step)
    requires Leadership(s) && Provenance(c, s) && Enabled(c, s, step) && HasActor(step)
    ensures var th' := NextThread(c, s, step);
            && PhaseFrom(NextLog(c, s, step), th'.request.key, th'.phase)
            && (th'.phase.Waiting? ==> th'.phase.leader in s.threads && KeyOf(s, th'.phase.leader) == th'.request.key)
  {
    hide NextSent, Leadership;
    if step.Start? || step.EndBytes? {
      RunnerFrom(c, s, step);
    } else if !step.Spawn? {
      HolderFrom(c, s, step);
    }
  }

  lemma HolderFrom(c: Config, s: State, step: Step)
    requires Leadership(s) && Provenance(c, s) && Enabled(c, s, step) && HasActor(step)
    requires !step.Spawn? && !step.Start? && !step.EndBytes?
    ensures var phase := NextPhase(c, s, step);
            && PhaseFrom(s.log, KeyOf(s, step.t), phase)
            && (phase.Waiting? ==> phase.leader in s.threads && KeyOf(s, phase.leader) == KeyOf(s, step.t))
  {
    hide Leadership;
    var k := KeyOf(s, step.t);
    assert PhaseFrom(s.log, k, s.threads[step.t].phase);
    if k in s.store {
      assert EntryFrom(c, s, k);
    }
    if step.Wake? {
      assert ResultFrom(s, s.threads[step.t].phase.leader);
    }
    if step.Join? {
      LeaderOf(s, k);
    }
  }

  lemma LeaderOf(s: State, k: string)
    requires Leadership(s) && k in s.flights
    ensures s.flights[k] in s.threads && InFlight(s.threads[s.flights[k]].phase) && KeyOf(s, s.flights[k]) == k
  {
  }

  /** What a call holds stays true of a longer log. */
  lemma HeldOn(log: seq<Run>, log': seq<Run>, k: string, phase: Phase)
    requires PhaseFrom(log, k, phase) && !phase.Running?
    requires forall k', bytes, run :: FromRun(log, k', bytes, run) ==> FromRun(log', k', bytes, run)
    ensures PhaseFrom(log', k, phase)
  {
    hide FromRun;
  }

  lemma ThreadsFrom(c: Config, s: State, step: Step, t: Tid)
    requires Leadership(s) && Provenance(c, s) && Enabled(c, s, step)
    requires t in Apply(c, s, step).threads
    ensures var s' := Apply(c, s, step); PhaseFrom(s'.log, KeyOf(s', t), s'.threads[t].phase)
  {
    hide NextThread, NextStore, NextFlights, NextResults, NextLimiter, NextHonoured, NextLog, NextTallies, Leadership,
      Enabled, PhaseFrom, EntryFrom, ResultFrom, FromRun;
    if HasActor(step) && step.t == t {
      ActorFrom(c, s, step);
    } else if s.threads[t].phase.Running? {
      RunningElsewhere(c, s, step, t);
    } else {
      LogGrows(c, s, step);
      HeldOn(s.log, NextLog(c, s, step), KeyOf(s, t), s.threads[t].phase);
    }
  }

  lemma StoredFrom(c: Config, s: State, step: Step, k: string)
    requires Provenance(c, s) && Enabled(c, s, step) && Stored(c, s, step, k)
    ensures k in Apply(c, s, step).store && EntryFrom(c, Apply(c, s, step), k)
  {
    hide NextThread, NextFlights, NextResults, NextLimiter, NextHonoured, NextTallies, ResultFrom;
    assert PhaseFrom(s.log, KeyOf(s, step.t), s.threads[step.t].phase);
  }

  lemma EntriesFrom(c: Config, s: State, step: Step, k: string)
    requires Leadership(s) && Provenance(c, s) && Enabled(c, s, step)
    requires k in Apply(c, s, step).store
    ensures EntryFrom(c, Apply(c, s, step), k)
  {
    hide NextThread, NextFlights, NextResults, NextLimiter, NextHonoured, NextLog, NextTallies, Leadership,
      PhaseFrom, ResultFrom;
    if Stored(c, s, step, k) {
      StoredFrom(c, s, step, k);
    } else {
      LogGrows(c, s, step);
      assert EntryFrom(c, s, k);
    }
  }

  lemma ClosedResultFrom(c: Config, s: State, step: Step)
    requires Provenance(c, s) && Enabled(c, s, step) && step.Close?
    ensures ResultFrom(Apply(c, s, step), step.t)
  {
    hide NextStore, NextFlights, NextLimiter, NextHonoured, NextTallies, EntryFrom, NextSent;
    assert PhaseFrom(s.log, KeyOf(s, step.t), s.threads[step.t].phase);
  }

  lemma ResultsFrom(c: Config, s: State, step: Step, l: Tid)
    requires Leadership(s) && Provenance(c, s) && Enabled(c, s, step)
    requires l in Apply(c, s, step).results
    ensures ResultFrom(Apply(c, s, step), l)
  {
    hide NextThread, NextStore, NextFlights, NextLimiter, NextHonoured, NextLog, NextTallies, Leadership, PhaseFrom,
      EntryFrom, Enabled;
    if step.Close? && step.t == l {
      ClosedResultFrom(c, s, step);
    } else {
      LogGrows(c, s, step);
      assert ResultFrom(s, l);
      if HasActor(step) {
        PhaseChanges(c, s, step);
        ActorExists(c, s, step);
      }
    }
  }

  lemma WaitersFrom(c: Config, s: State, step: Step, t: Tid)
    requires Leadership(s) && Provenance(c, s) && Enabled(c, s, step)
    requires var s' := Apply(c, s, step); t in s'.threads && s'.threads[t].phase.Waiting?
    ensures var s' := Apply(c, s, step);
            var l := s'.threads[t].phase.leader; l in s'.threads && KeyOf(s', l) == KeyOf(s', t)
  {
    hide NextThread, NextStore, NextFlights, NextResults, NextLimiter, NextHonoured, NextLog, NextTallies, Leadership,
      PhaseFrom, EntryFrom, ResultFrom, Enabled;
    if HasActor(step) {
      ActorFrom(c, s, step);
      PhaseChanges(c, s, step);
      ActorExists(c, s, step);
    }
  }

  lemma ProvenanceKept(c: Config, s: State, step: Step)
    requires Leadership(s) && Provenance(c, s) && Enabled(c, s, step)
    ensures Provenance(c, Apply(c, s, step))
  {
    hide NextThread, NextStore, NextFlights, NextResults, NextLimiter, NextHonoured, NextLog, NextTallies, Leadership,
      PhaseFrom, EntryFrom, ResultFrom;
    var s' := Apply(c, s, step);
    hide Apply, Enabled;
    forall t | t in s'.threads ensures PhaseFrom(s'.log, KeyOf(s', t), s'.threads[t].phase) {
      ThreadsFrom(c, s, step, t);
    }
    forall k | k in s'.store ensures EntryFrom(c, s', k) {
      EntriesFrom(c, s, step, k);
    }
    forall l | l in s'.results ensures ResultFrom(s', l) {
      ResultsFrom(c, s, step, l);
    }
    forall t | t in s'.threads && s'.threads[t].phase.Waiting?
      ensures var l := s'.threads[t].phase.leader; l in s'.threads && KeyOf(s', l) == KeyOf(s', t)
    {
      WaitersFrom(c, s, step, t);
    }
  }

  // ----- responses -----

  /** What a call's sender has delivered, phase by phase. */
  ghost predicate Responses(th: Thread) {
    match th.phase
    case Closing(result) => th.led && |th.sent| == (if result.Nothing? then 1 else 0)
    case Returned(result) => |th.sent| == (if result.Nothing? && th.led then 1 else 0)
    case Done(result, delivered) =>
      && (delivered ==> result.Data?)
      && (match result
          case Failed => th.sent == []
          case Nothing => |th.sent| == (if th.led then 1 else 0)
          case Data(bytes, _) => th.sent == if delivered then [Response(200, bytes)] else [])
    case _ => th.sent == [] && (InFlight(th.phase) <==> th.led)
  }

  ghost predicate AllResponses(s: State) {
    forall t :: t in s.threads ==> Responses(s.threads[t])
  }

  lemma ActorResponds(c: Config, s: State, step: Step)
    requires Enabled(c, s, step) && HasActor(step)
    requires !step.Spawn? ==> Responses(s.threads[step.t])
    ensures Responses(NextThread(c, s, step))
  {
  }

  lemma ResponsesKept(c: Config, s: State, step: Step)
    requires AllResponses(s) && Enabled(c, s, step)
    ensures AllResponses(Apply(c, s, step))
  {
    hide NextThread, NextStore, NextFlights, NextResults, NextLimiter, NextHonoured, NextLog, NextTallies, Responses;
    if HasActor(step) {
      ActorResponds(c, s, step);
    }
  }

  // ----- deduplication -----

  predicate Ours(s: State, step: Step, k: string) {
    HasActor(step) && !step.Spawn? && step.t in s.threads && KeyOf(s, step.t) == k
  }

  predicate Stored(c: Config, s: State, step: Step, k: string)
    requires Enabled(c, s, step)
  {
    Ours(s, step, k) && step.Store? && |s.threads[step.t].phase.bytes| <= c.maxValueBytes
  }

  predicate EndedUnstored(c: Config, s: State, step: Step, k: string)
    requires Enabled(c, s, step)
  {
    Ours(s, step, k) && (step.EndError? || step.EndNothing? || (step.Store? && !Stored(c, s, step, k)))
  }

  lemma EntryChanges(c: Config, s: State, step: Step, k: string)
    requires Enabled(c, s, step)
    ensures var s' := Apply(c, s, step);
            && s.now <= s'.now
            && (Stored(c, s, step, k) ==>
                  k in s'.store && s'.store[k].setAt == s'.now && (c.ttl(k) > 0 ==> Live(c, s', k)))
            && (Live(c, s', k) && !Stored(c, s, step, k) ==> Live(c, s, k) && s'.store[k] == s.store[k])
            && (Live(c, s, k) && !Live(c, s', k) ==>
                  || (Ours(s, step, k) && step.Delete?)
                  || s'.now > (if Stored(c, s, step, k) then s'.now else s.store[k].setAt) + c.ttl(k))
  {
    hide NextThread, NextFlights, NextResults, NextLimiter, NextHonoured, NextLog, NextTallies;
  }

  /** While an entry is live nobody is about to run, running or storing for its key. */
  ghost predicate Deduplicated(c: Config, s: State) {
    forall t :: t in s.threads && (s.threads[t].phase.Calling? || InRun(s.threads[t].phase)) ==>
      !Live(c, s, KeyOf(s, t))
  }

  lemma DeduplicatedKept(c: Config, s: State, step: Step)
    requires Leadership(s) && Deduplicated(c, s) && Enabled(c, s, step)
    ensures Deduplicated(c, Apply(c, s, step))
  {
    hide NextThread, NextStore, NextFlights, NextResults, NextLimiter, NextHonoured, NextLog, NextTallies, Enabled,
      Live;
    var s' := Apply(c, s, step);
    forall t | t in s'.threads && (s'.threads[t].phase.Calling? || InRun(s'.threads[t].phase))
      ensures !Live(c, s', KeyOf(s', t))
    {
      EntryChanges(c, s, step, KeyOf(s', t));
      if HasActor(step) {
        PhaseChanges(c, s, step);
        ActorExists(c, s, step);
        CallsOnlyAfterAMiss(c, s, step);
      }
    }
  }

  lemma CallsOnlyAfterAMiss(c: Config, s: State, step: Step)
    requires Enabled(c, s, step) && HasActor(step)
    ensures var phase := NextThread(c, s, step).phase;
            && (phase.Calling? ==> step.RecheckMiss? && !Live(c, s, KeyOf(s, step.t)))
            && (phase.Running? ==> step.Start? && s.threads[step.t].phase.Calling?)
            && (phase.Storing? ==> step.EndBytes? && s.threads[step.t].phase.Running?)
            && (step.Store? ==> s.threads[step.t].phase.Storing?)
  {
    hide NextSent;
  }

  // ----- counting handler runs -----

  /** Runs that no delete and no unstored run accounts for: each but the first followed an expiry. */
  function Unexplained(s: State, k: string): int {
    RunsOf(s.log, k) - TallyOf(s, k).deletes - TallyOf(s, k).unstored
  }

  ghost predicate Counted(c: Config, s: State, k: string) {
    var n := Unexplained(s, k);
    && (n - 1) * c.ttl(k) <= s.now
    && (Live(c, s, k) ==> (n - 1) * c.ttl(k) <= s.store[k].setAt)
    && (!Live(c, s, k) && !RunUnderWay(s, k) ==> n * c.ttl(k) <= s.now)
  }

  lemma {:induction false} RunsDependOnKeys(log: seq<Run>, log': seq<Run>, k: string)
    requires |log| == |log'| && forall r :: 0 <= r < |log| ==> log[r].key == log'[r].key
    ensures RunsOf(log, k) == RunsOf(log', k)
  {
    if log != [] {
      RunsDependOnKeys(log[..|log| - 1], log'[..|log| - 1], k);
    }
  }

  lemma LogCount(c: Config, s: State, step: Step, k: string)
    requires Enabled(c, s, step)
    ensures RunsOf(NextLog(c, s, step), k) == RunsOf(s.log, k) + if Ours(s, step, k) && step.Start? then 1 else 0
  {
    var log' := NextLog(c, s, step);
    if step.Start? {
      assert log'[..|log'| - 1] == s.log;
    } else {
      RunsDependOnKeys(s.log, log', k);
    }
  }

  lemma TallyChanges(c: Config, s: State, step: Step, k: string)
    requires Enabled(c, s, step)
    ensures Unexplained(Apply(c, s, step), k) ==
            Unexplained(s, k)
            + (if Ours(s, step, k) && step.Start? then 1 else 0)
            - (if EndedUnstored(c, s, step, k) || (Ours(s, step, k) && step.Delete?) then 1 else 0)
  {
    hide NextThread, NextStore, NextFlights, NextResults, NextLimiter, NextHonoured, NextLog, RunsOf;
    LogCount(c, s, step, k);
  }

  lemma RunBegins(c: Config, s: State, step: Step, k: string)
    requires Leadership(s) && Deduplicated(c, s) && Enabled(c, s, step) && Ours(s, step, k) && step.Start?
    ensures !Live(c, s, k) && !RunUnderWay(s, k) && RunUnderWay(Apply(c, s, step), k)
  {
    hide NextThread, NextStore, NextResults, NextLimiter, NextHonoured, NextLog, NextTallies, Enabled, Live;
    PhaseChanges(c, s, step);
    ActorExists(c, s, step);
  }

  lemma RunFinishes(c: Config, s: State, step: Step, k: string)
    requires Leadership(s) && Enabled(c, s, step) && RunUnderWay(s, k) && !RunUnderWay(Apply(c, s, step), k)
    ensures Stored(c, s, step, k) || EndedUnstored(c, s, step, k)
  {
    hide NextThread, NextStore, NextResults, NextLimiter, NextHonoured, NextLog, NextTallies, Enabled;
    assert KeyOf(s, s.flights[k]) == k;
    if HasActor(step) {
      PhaseChanges(c, s, step);
      ActorExists(c, s, step);
    }
  }

  lemma RunChanges(c: Config, s: State, step: Step, k: string)
    requires Leadership(s) && Deduplicated(c, s) && Enabled(c, s, step)
    ensures var s' := Apply(c, s, step);
            && (Ours(s, step, k) && step.Start? ==> !Live(c, s, k) && !RunUnderWay(s, k) && RunUnderWay(s', k))
            && (RunUnderWay(s, k) && !RunUnderWay(s', k) ==> Stored(c, s, step, k) || EndedUnstored(c, s, step, k))
  {
    hide Apply, Enabled, Live, Leadership, Deduplicated, RunUnderWay, Stored, EndedUnstored;
    if Ours(s, step, k) && step.Start? {
      RunBegins(c, s, step, k);
    }
    if RunUnderWay(s, k) && !RunUnderWay(Apply(c, s, step), k) {
      RunFinishes(c, s, step, k);
    }
  }

  lemma CountedKept(c: Config, s: State, step: Step, k: string)
    requires Leadership(s) && Deduplicated(c, s) && Enabled(c, s, step)
    requires c.ttl(k) > 0 && Counted(c, s, k)
    ensures Counted(c, Apply(c, s, step), k)
  {
    hide Apply, Leadership, Deduplicated, Unexplained, RunUnderWay, Ours, Stored, EndedUnstored;
    TallyChanges(c, s, step, k);
    EntryChanges(c, s, step, k);
    RunChanges(c, s, step, k);
    var n, n', ttl := Unexplained(s, k), Unexplained(Apply(c, s, step), k), c.ttl(k);
    assert n * ttl == (n - 1) * ttl + ttl;
    assert n' * ttl == (n' - 1) * ttl + ttl;
    assert n' == n - 1 ==> n' * ttl == (n - 1) * ttl;
  }

  // ----- counting refreshes -----

  /** Calls for the key whose refresh was honoured and whose delete is still to come. */
  ghost function Pending(s: State, k: string): set<Tid> {
    set t | t in s.threads && s.threads[t].phase.Deleting? && KeyOf(s, t) == k
  }

  /** The refresh streams from which the entry of the key can be deleted. */
  ghost function StreamsOf(s: State, k: string): set<string> {
    set t | t in s.threads && KeyOf(s, t) == k && s.threads[t].request.refresh :: StreamOf(s, t)
  }

  /** The refreshes honoured in some streams. */
  ghost function HonouredIn(s: State, streams: seq<string>): nat {
    if streams == [] then 0 else HonouredOf(s, streams[0]) + HonouredIn(s, streams[1..])
  }

  /** Whichever streams the refreshing calls for the key are listed under, the deletes do not outnumber
      the refreshes honoured in them. */
  ghost predicate DeletesCovered(s: State, k: string, streams: seq<string>) {
    (forall stream :: stream in StreamsOf(s, k) ==> stream in streams) ==>
      TallyOf(s, k).deletes + |Pending(s, k)| <= HonouredIn(s, streams)
  }

  ghost predicate Spaced(c: Config, s: State, stream: string) {
    0 <= s.now &&
    if stream in s.limiter then
      && HonouredOf(s, stream) >= 1
      && (HonouredOf(s, stream) - 1) * c.minInterval <= s.limiter[stream] <= s.now
    else HonouredOf(s, stream) == 0
  }

  lemma DeletingChanges(c: Config, s: State, step: Step)
    requires Enabled(c, s, step) && HasActor(step)
    ensures NextThread(c, s, step).phase.Deleting? <==> step.Allow?
    ensures step.t in s.threads ==> (s.threads[step.t].phase.Deleting? <==> step.Delete?)
    ensures step.Spawn? <==> step.t !in s.threads
    ensures !step.Spawn? ==> NextThread(c, s, step).request == s.threads[step.t].request
  {
    hide NextSent;
  }

  lemma PendingChanges(c: Config, s: State, step: Step, k: string)
    requires Enabled(c, s, step)
    ensures |Pending(Apply(c, s, step), k)| ==
            |Pending(s, k)| + (if Ours(s, step, k) && step.Allow? then 1 else 0)
                            - (if Ours(s, step, k) && step.Delete? then 1 else 0)
  {
    hide NextThread, NextStore, NextFlights, NextResults, NextLimiter, NextHonoured, NextLog, NextTallies, Enabled;
    var p, p' := Pending(s, k), Pending(Apply(c, s, step), k);
    if HasActor(step) {
      DeletingChanges(c, s, step);
      if step.t in p' {
        assert p' == p + {step.t};
      } else {
        assert p' == p - {step.t};
      }
    } else {
      assert p' == p;
    }
  }

  lemma {:induction false} HonouredGrows(c: Config, s: State, step: Step, streams: seq<string>)
    requires Enabled(c, s, step)
    ensures HonouredIn(Apply(c, s, step), streams) >=
            HonouredIn(s, streams) + if step.Allow? && StreamOf(s, step.t) in streams then 1 else 0
  {
    hide NextThread, NextStore, NextFlights, NextResults, NextLimiter, NextLog, NextTallies;
    if streams != [] {
      HonouredGrows(c, s, step, streams[1..]);
      assert streams == [streams[0]] + streams[1..];
    }
  }

  lemma StreamsStay(c: Config, s: State, step: Step, k: string)
    requires Enabled(c, s, step)
    ensures forall stream :: stream in StreamsOf(s, k) ==> stream in StreamsOf(Apply(c, s, step), k)
    ensures Ours(s, step, k) && step.Allow? ==> StreamOf(s, step.t) in StreamsOf(s, k)
  {
    hide NextThread, NextStore, NextFlights, NextResults, NextLimiter, NextHonoured, NextLog, NextTallies;
    if HasActor(step) {
      PhaseChanges(c, s, step);
    }
    forall stream | stream in StreamsOf(s, k) ensures stream in StreamsOf(Apply(c, s, step), k) {
      var t :| t in s.threads && KeyOf(s, t) == k && s.threads[t].request.refresh && StreamOf(s, t) == stream;
      var s' := Apply(c, s, step);
      assert t in s'.threads && s'.threads[t].request == s.threads[t].request;
    }
  }

  lemma DeletesChange(c: Config, s: State, step: Step, k: string)
    requires Enabled(c, s, step)
    ensures TallyOf(Apply(c, s, step), k).deletes ==
            TallyOf(s, k).deletes + if Ours(s, step, k) && step.Delete? then 1 else 0
  {
    hide NextThread, NextStore, NextFlights, NextResults, NextLimiter, NextHonoured, NextLog;
  }

  lemma DeletesCoveredKept(c: Config, s: State, step: Step, k: string, streams: seq<string>)
    requires Enabled(c, s, step) && DeletesCovered(s, k, streams)
    ensures DeletesCovered(Apply(c, s, step), k, streams)
  {
    hide Apply, Enabled, Pending, StreamsOf, HonouredIn, TallyOf, Ours;
    PendingChanges(c, s, step, k);
    HonouredGrows(c, s, step, streams);
    StreamsStay(c, s, step, k);
    DeletesChange(c, s, step, k);
  }

  lemma SpacedKept(c: Config, s: State, step: Step, stream: string)
    requires c.minInterval > 0 && Enabled(c, s, step) && Spaced(c, s, stream)
    ensures Spaced(c, Apply(c, s, step), stream)
  {
    hide NextThread, NextStore, NextFlights, NextResults, NextLog, NextTallies;
    var n := HonouredOf(s, stream);
    assert n * c.minInterval == (n - 1) * c.minInterval + c.minInterval;
  }

  // ----- every feasible run -----

  /** Only calls on endpoints with a positive ttl get here. */
  ghost predicate Cacheable(c: Config, s: State) {
    forall t :: t in s.threads ==> c.ttl(KeyOf(s, t)) > 0
  }

  lemma CacheableKept(c: Config, s: State, step: Step)
    requires Cacheable(c, s) && Enabled(c, s, step)
    ensures Cacheable(c, Apply(c, s, step))
  {
    hide NextThread, NextStore, NextFlights, NextResults, NextLimiter, NextHonoured, NextLog, NextTallies;
    if HasActor(step) {
      PhaseChanges(c, s, step);
    }
  }

  ghost predicate Invariant(c: Config, s: State) {
    && Cacheable(c, s)
    && Leadership(s)
    && Provenance(c, s)
    && AllResponses(s)
    && Deduplicated(c, s)
    && (forall k :: c.ttl(k) > 0 ==> Counted(c, s, k))
    && (forall k, streams :: DeletesCovered(s, k, streams))
    && (c.minInterval > 0 ==> forall stream :: Spaced(c, s, stream))
  }

  lemma InvariantKept(c: Config, s: State, step: Step)
    requires Invariant(c, s) && Enabled(c, s, step)
    ensures Invariant(c, Apply(c, s, step))
  {
    hide Apply, Cacheable, Leadership, Provenance, AllResponses, Deduplicated, Counted, DeletesCovered, Spaced;
    CacheableKept(c, s, step);
    LeadershipKept(c, s, step);
    ProvenanceKept(c, s, step);
    ResponsesKept(c, s, step);
    DeduplicatedKept(c, s, step);
    forall k | c.ttl(k) > 0 ensures Counted(c, Apply(c, s, step), k) {
      CountedKept(c, s, step, k);
    }
    forall k, streams ensures DeletesCovered(Apply(c, s, step), k, streams) {
      DeletesCoveredKept(c, s, step, k, streams);
    }
    if c.minInterval > 0 {
      forall stream ensures Spaced(c, Apply(c, s, step), stream) {
        SpacedKept(c, s, step, stream);
      }
    }
  }

  lemma InvariantAtStart(c: Config)
    ensures Invariant(c, Init())
  {
    forall k, streams ensures DeletesCovered(Init(), k, streams) {
      assert Pending(Init(), k) == {};
    }
  }

  /** The invariant holds after every interleaving. */
  lemma {:induction false} InvariantHolds(c: Config, steps: seq<Step>)
    requires Feasible(c, steps)
    ensures Invariant(c, After(c, steps))
  {
    hide Apply, Invariant;
    if steps == [] {
      InvariantAtStart(c);
    } else {
      var front := steps[..|steps| - 1];
      InvariantHolds(c, front);
      InvariantKept(c, After(c, front), steps[|steps| - 1]);
    }
  }
}
