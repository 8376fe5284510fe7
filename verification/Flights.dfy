/** The response cache under concurrency: cache/memory.go `GetOrFetchBytes` as datasource.go
    `handleSchemaResource` drives it. Every call is a thread; a run of the system is any interleaving
    of the threads' steps, clock ticks and evictions. The store obeys the contract of go-cache (an
    entry is found while now <= set time + ttl) and the flights that of singleflight (one leader per
    key, the others wait for its result). */
module Flights {
  import opened Limiter

  type Tid = nat
  type Bytes = seq<bv8>

  /** Requests with one key are for one endpoint and so have one ttl, see RequestKeys.SameKeySameEndpoint. */
  datatype Config = Config(ttl: string -> int, minInterval: int, maxValueBytes: nat)

  /** A call whose key could be built, on an endpoint with a positive ttl. Its refresh stream is the
      bucket of its namespace and endpoint, which the key does not always determine. */
  datatype Request = Request(key: string, stream: string, refresh: bool)

  datatype Response = Response(status: int, body: Bytes)

  /** What a fetch yields: an error, nil bytes (a response has been sent), or bytes. A run of the
      handler is identified by its position in the log; bytes carry the run they came from. */
  datatype Outcome = Failed | Nothing | Data(bytes: Bytes, run: nat)

  datatype Phase =
    | Arrived                                // about to look for the refresh header
    | Deleting                               // refresh honoured, the entry is about to be deleted
    | Looking                                // first lookup
    | Joining                                // lookup missed, about to enter singleflight
    | Waiting(leader: Tid)                   // follower
    | Checking                               // leader, second lookup
    | Calling                                // leader, second lookup missed
    | Running(run: nat)                      // leader, inside the handler
    | Storing(bytes: Bytes, run: nat)        // leader, handler returned bytes
    | Closing(result: Outcome)               // leader, about to close the flight
    | Returned(result: Outcome)              // GetOrFetchBytes returned
    | Done(result: Outcome, delivered: bool) // the call returned

  /** `sent` is what the call's own sender delivered, `led` whether the call led a flight. */
  datatype Thread = Thread(request: Request, phase: Phase, sent: seq<Response>, led: bool)

  datatype Entry = Entry(bytes: Bytes, run: nat, setAt: int)

  /** A started run of the handler, and the bytes it returned if it has. */
  datatype Run = Run(key: string, bytes: seq<Bytes>)

  /** Per key: deletes performed, and handler runs that ended without storing. */
  datatype Tally = Tally(deletes: nat, unstored: nat)

  datatype State = State(
    now: int,
    threads: map<Tid, Thread>,
    store: map<string, Entry>,
    flights: map<string, Tid>,
    results: map<Tid, Outcome>,
    limiter: map<string, int>,
    log: seq<Run>,
    tallies: map<string, Tally>,
    honoured: map<string, nat>)

  datatype Step =
    | Tick(elapsed: nat)
    | Evict(key: string)
    | Spawn(t: Tid, request: Request)
    | NoRefresh(t: Tid)
    | Allow(t: Tid)
    | Reject(t: Tid)
    | Delete(t: Tid)
    | Hit(t: Tid)
    | Miss(t: Tid)
    | Lead(t: Tid)
    | Join(t: Tid)
    | RecheckHit(t: Tid)
    | RecheckMiss(t: Tid)
    | Start(t: Tid)
    | EndError(t: Tid)
    | EndNothing(t: Tid, response: Response)
    | EndBytes(t: Tid, bytes: Bytes)
    | Store(t: Tid)
    | Close(t: Tid)
    | Wake(t: Tid)
    | Send(t: Tid, delivered: bool)

  function Init(): State {
    State(0, map[], map[], map[], map[], map[], [], map[], map[])
  }

  function TallyOf(s: State, k: string): Tally {
    if k in s.tallies then s.tallies[k] else Tally(0, 0)
  }

  /** How often the handler has been started for the key. */
  function RunsOf(log: seq<Run>, k: string): nat {
    if log == [] then 0
    else RunsOf(log[..|log| - 1], k) + if log[|log| - 1].key == k then 1 else 0
  }

  function HonouredOf(s: State, stream: string): nat {
    if stream in s.honoured then s.honoured[stream] else 0
  }

  /** go-cache: found and not expired. */
  predicate Live(c: Config, s: State, k: string) {
    k in s.store && s.now <= s.store[k].setAt + c.ttl(k)
  }

  predicate At(s: State, t: Tid, phase: Phase) {
    t in s.threads && s.threads[t].phase == phase
  }

  function KeyOf(s: State, t: Tid): string
    requires t in s.threads
  {
    s.threads[t].request.key
  }

  function StreamOf(s: State, t: Tid): string
    requires t in s.threads
  {
    s.threads[t].request.stream
  }

  /** `allowRefresh` in the state the lock protects. */
  predicate Allowed(c: Config, s: State, stream: string) {
    Permits(c.minInterval, LastOf(s.limiter, stream), s.now)
  }

  predicate Enabled(c: Config, s: State, step: Step) {
    match step
    case Tick(_) => true
    case Evict(k) => k in s.store && !Live(c, s, k)
    case Spawn(t, r) => t !in s.threads && c.ttl(r.key) > 0
    case NoRefresh(t) => At(s, t, Arrived) && !s.threads[t].request.refresh
    case Allow(t) => At(s, t, Arrived) && s.threads[t].request.refresh && Allowed(c, s, StreamOf(s, t))
    case Reject(t) => At(s, t, Arrived) && s.threads[t].request.refresh && !Allowed(c, s, StreamOf(s, t))
    case Delete(t) => At(s, t, Deleting)
    case Hit(t) => At(s, t, Looking) && Live(c, s, KeyOf(s, t))
    case Miss(t) => At(s, t, Looking) && !Live(c, s, KeyOf(s, t))
    case Lead(t) => At(s, t, Joining) && KeyOf(s, t) !in s.flights
    case Join(t) => At(s, t, Joining) && KeyOf(s, t) in s.flights
    case RecheckHit(t) => At(s, t, Checking) && Live(c, s, KeyOf(s, t))
    case RecheckMiss(t) => At(s, t, Checking) && !Live(c, s, KeyOf(s, t))
    case Start(t) => At(s, t, Calling)
    case EndError(t) => t in s.threads && s.threads[t].phase.Running?
    case EndNothing(t, _) => t in s.threads && s.threads[t].phase.Running?
    case EndBytes(t, _) => t in s.threads && s.threads[t].phase.Running?
    case Store(t) => t in s.threads && s.threads[t].phase.Storing?
    case Close(t) => t in s.threads && s.threads[t].phase.Closing?
    case Wake(t) => t in s.threads && s.threads[t].phase.Waiting? && s.threads[t].phase.leader in s.results
    case Send(t, _) => t in s.threads && s.threads[t].phase.Returned?
  }

  // ----- what a step does, one component of the state at a time -----

  /** The call that takes the step. */
  predicate HasActor(step: Step) {
    !step.Tick? && !step.Evict?
  }

  function Found(s: State, k: string): Outcome
    requires k in s.store
  {
    Data(s.store[k].bytes, s.store[k].run)
  }

  function NextPhase(c: Config, s: State, step: Step): Phase
    requires Enabled(c, s, step) && HasActor(step) && !step.Spawn?
  {
    var phase, k := s.threads[step.t].phase, KeyOf(s, step.t);
    match step
    case NoRefresh(_) => Looking
    case Allow(_) => Deleting
    case Reject(_) => Looking
    case Delete(_) => Looking
    case Hit(_) => Returned(Found(s, k))
    case Miss(_) => Joining
    case Lead(_) => Checking
    case Join(_) => Waiting(s.flights[k])
    case RecheckHit(_) => Closing(Found(s, k))
    case RecheckMiss(_) => Calling
    case Start(_) => Running(|s.log|)
    case EndError(_) => Closing(Failed)
    case EndNothing(_, _) => Closing(Nothing)
    case EndBytes(_, bytes) => Storing(bytes, phase.run)
    case Store(_) => Closing(Data(phase.bytes, phase.run))
    case Close(_) => Returned(phase.result)
    case Wake(_) => Returned(s.results[phase.leader])
    case Send(_, delivered) => Done(phase.result, phase.result.Data? && delivered)
  }

  /** What the call's own sender has delivered. A flight runs the leader's closure, so a handler that
      responds by itself does so on the leader's sender. */
  function NextSent(s: State, step: Step): seq<Response>
    requires HasActor(step) && step.t in s.threads && (step.Send? ==> s.threads[step.t].phase.Returned?)
  {
    var th := s.threads[step.t];
    if step.EndNothing? then th.sent + [step.response]
    else if step.Send? && th.phase.result.Data? && step.delivered then th.sent + [Response(200, th.phase.result.bytes)]
    else th.sent
  }

  function NextThread(c: Config, s: State, step: Step): Thread
    requires Enabled(c, s, step) && HasActor(step)
  {
    if step.Spawn? then Thread(step.request, Arrived, [], false)
    else
      var th := s.threads[step.t];
      Thread(th.request, NextPhase(c, s, step), NextSent(s, step), th.led || step.Lead?)
  }

  function NextStore(c: Config, s: State, step: Step): map<string, Entry>
    requires Enabled(c, s, step)
  {
    match step
    case Evict(k) => s.store - {k}
    case Delete(t) => s.store - {KeyOf(s, t)}
    case Store(t) =>
      var phase := s.threads[t].phase;
      if |phase.bytes| > c.maxValueBytes then s.store
      else s.store[KeyOf(s, t) := Entry(phase.bytes, phase.run, s.now)]
    case _ => s.store
  }

  function NextFlights(c: Config, s: State, step: Step): map<string, Tid>
    requires Enabled(c, s, step)
  {
    match step
    case Lead(t) => s.flights[KeyOf(s, t) := t]
    case Close(t) => s.flights - {KeyOf(s, t)}
    case _ => s.flights
  }

  function NextResults(c: Config, s: State, step: Step): map<Tid, Outcome>
    requires Enabled(c, s, step)
  {
    if step.Close? then s.results[step.t := s.threads[step.t].phase.result] else s.results
  }

  function NextLimiter(c: Config, s: State, step: Step): map<string, int>
    requires Enabled(c, s, step)
  {
    if step.Allow? && c.minInterval > 0 then s.limiter[StreamOf(s, step.t) := s.now] else s.limiter
  }

  function NextHonoured(c: Config, s: State, step: Step): map<string, nat>
    requires Enabled(c, s, step)
  {
    if step.Allow? then
      var stream := StreamOf(s, step.t);
      s.honoured[stream := HonouredOf(s, stream) + 1]
    else s.honoured
  }

  function NextLog(c: Config, s: State, step: Step): seq<Run>
    requires Enabled(c, s, step)
  {
    match step
    case Start(t) => s.log + [Run(KeyOf(s, t), [])]
    case EndBytes(t, bytes) => Returns(s.log, s.threads[t].phase.run, bytes)
    case _ => s.log
  }

  function Returns(log: seq<Run>, run: nat, bytes: Bytes): seq<Run> {
    if run < |log| then log[run := log[run].(bytes := [bytes])] else log
  }

  function NextTallies(c: Config, s: State, step: Step): map<string, Tally>
    requires Enabled(c, s, step)
  {
    if !HasActor(step) || step.Spawn? then s.tallies
    else
      var th, k := s.threads[step.t], KeyOf(s, step.t);
      var tally := TallyOf(s, k);
      match step
      case Delete(_) => s.tallies[k := tally.(deletes := tally.deletes + 1)]
      case EndError(_) => s.tallies[k := tally.(unstored := tally.unstored + 1)]
      case EndNothing(_, _) => s.tallies[k := tally.(unstored := tally.unstored + 1)]
      case Store(_) =>
        if |th.phase.bytes| > c.maxValueBytes then s.tallies[k := tally.(unstored := tally.unstored + 1)] else s.tallies
      case _ => s.tallies
  }

  function Apply(c: Config, s: State, step: Step): State
    requires Enabled(c, s, step)
  {
    State(
      s.now + if step.Tick? then step.elapsed else 0,
      if HasActor(step) then s.threads[step.t := NextThread(c, s, step)] else s.threads,
      NextStore(c, s, step),
      NextFlights(c, s, step),
      NextResults(c, s, step),
      NextLimiter(c, s, step),
      NextLog(c, s, step),
      NextTallies(c, s, step),
      NextHonoured(c, s, step))
  }

  // ----- runs of the system -----

  /** The steps are an interleaving the system can take, one after the other. */
  predicate Feasible(c: Config, steps: seq<Step>)
    decreases |steps|, 0
  {
    steps == [] ||
    var front := steps[..|steps| - 1];
    Feasible(c, front) && Enabled(c, After(c, front), steps[|steps| - 1])
  }

  function After(c: Config, steps: seq<Step>): State
    requires Feasible(c, steps)
    decreases |steps|, 1
  {
    if steps == [] then Init()
    else Apply(c, After(c, steps[..|steps| - 1]), steps[|steps| - 1])
  }

  lemma {:induction false} PrefixIsFeasible(c: Config, pre: seq<Step>, seg: seq<Step>)
    requires Feasible(c, pre + seg)
    ensures Feasible(c, pre)
    decreases |seg|
  {
    if seg == [] {
      assert pre + seg == pre;
    } else {
      var front := seg[..|seg| - 1];
      assert (pre + seg)[..|pre + seg| - 1] == pre + front;
      PrefixIsFeasible(c, pre, front);
    }
  }

  /** The last step of a run, seen from the run before it. */
  lemma LastStep(c: Config, pre: seq<Step>, seg: seq<Step>)
    requires seg != [] && Feasible(c, pre + seg)
    ensures var front, last := pre + seg[..|seg| - 1], seg[|seg| - 1];
            && Feasible(c, front) && Enabled(c, After(c, front), last)
            && After(c, pre + seg) == Apply(c, After(c, front), last)
  {
    assert (pre + seg)[..|pre + seg| - 1] == pre + seg[..|seg| - 1];
  }

  /** One more step. */
  lemma Take(c: Config, steps: seq<Step>, step: Step)
    requires Feasible(c, steps) && Enabled(c, After(c, steps), step)
    ensures Feasible(c, steps + [step]) && After(c, steps + [step]) == Apply(c, After(c, steps), step)
  {
    assert (steps + [step])[..|steps + [step]| - 1] == steps;
  }

  /** One step of a call, as far as it concerns the calls. */
  lemma Moves(c: Config, steps: seq<Step>, step: Step)
    requires Feasible(c, steps) && HasActor(step) && Enabled(c, After(c, steps), step)
    ensures Feasible(c, steps + [step])
    ensures var s, s' := After(c, steps), After(c, steps + [step]);
            && s'.now == s.now && s'.threads == s.threads[step.t := NextThread(c, s, step)]
            && s'.store == NextStore(c, s, step) && s'.flights == NextFlights(c, s, step)
            && s'.results == NextResults(c, s, step) && s'.log == NextLog(c, s, step)
            && s'.limiter == NextLimiter(c, s, step) && s'.tallies == NextTallies(c, s, step)
  {
    hide After, Feasible, Enabled;
    Take(c, steps, step);
  }
}
