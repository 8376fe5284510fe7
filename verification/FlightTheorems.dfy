/** What the concurrent cache guarantees over whole runs. */
module FlightTheorems {
  import opened Flights
  import opened FlightInvariants
  import opened FlightDelivery
  import opened FlightProgress

  // ----- how often the handler runs -----

  /** Whatever the handler returns: every run but the first is paid for by a delete, by a run that was
      not stored, or by an expiry, and expiries of one key are at least a ttl apart. */
  lemma RunsAreExplained(c: Config, steps: seq<Step>, k: string)
    requires Feasible(c, steps) && c.ttl(k) > 0
    ensures var s := After(c, steps);
            (RunsOf(s.log, k) - TallyOf(s, k).deletes - TallyOf(s, k).unstored - 1) * c.ttl(k) <= s.now
  {
    hide After, Feasible, RunsOf, Leadership, Provenance, AllResponses, Deduplicated, DeletesCovered, Spaced;
    InvariantHolds(c, steps);
    assert Counted(c, After(c, steps), k);
  }

  /** How often a stream can have been honoured by now: once, and once more per interval. */
  ghost function Quota(c: Config, s: State): int
    requires c.minInterval > 0
  {
    1 + s.now / c.minInterval
  }

  lemma {:induction false} HonouredIsLimited(c: Config, s: State, streams: seq<string>)
    requires c.minInterval > 0 && forall stream :: Spaced(c, s, stream)
    ensures HonouredIn(s, streams) <= |streams| * Quota(c, s)
  {
    hide Spaced, HonouredOf, Quota;
    if streams != [] {
      HonouredIsLimited(c, s, streams[1..]);
      StreamIsLimited(c, s, streams[0]);
      assert |streams| * Quota(c, s) == (|streams| - 1) * Quota(c, s) + Quota(c, s);
    }
  }

  lemma StreamIsLimited(c: Config, s: State, stream: string)
    requires c.minInterval > 0 && Spaced(c, s, stream)
    ensures 0 <= s.now && HonouredOf(s, stream) <= Quota(c, s)
  {
    DivisionBound(s.now, c.minInterval, if stream in s.limiter then HonouredOf(s, stream) - 1 else 0);
  }

  lemma {:induction false} Listed(streams: set<string>) returns (listing: seq<string>)
    ensures |listing| == |streams| && forall x :: x in streams <==> x in listing
    decreases streams
  {
    if streams == {} {
      listing := [];
    } else {
      var x :| x in streams;
      var rest := Listed(streams - {x});
      listing := [x] + rest;
    }
  }

  /** The limiter bounds the deletes of a key: each of the streams that its refreshing calls belong to is
      honoured once, and once more per interval. */
  lemma DeletesAreLimited(c: Config, steps: seq<Step>, k: string)
    requires Feasible(c, steps) && c.minInterval > 0
    ensures var s := After(c, steps); 0 <= s.now && TallyOf(s, k).deletes <= |StreamsOf(s, k)| * Quota(c, s)
  {
    hide After, Feasible, Leadership, Provenance, AllResponses, Deduplicated, Counted, Pending, StreamsOf, Quota;
    InvariantHolds(c, steps);
    var s := After(c, steps);
    var listing := Listed(StreamsOf(s, k));
    assert DeletesCovered(s, k, listing) && Spaced(c, s, "");
    HonouredIsLimited(c, s, listing);
  }

  lemma Monotone(a: int, b: int, d: nat)
    ensures a >= b ==> a * d >= b * d
  {
    assert a >= b ==> (a - b) * d >= 0;
  }

  lemma DivisionBound(x: nat, d: nat, n: int)
    requires d > 0 && n * d <= x
    ensures n <= x / d
  {
    assert x < (x / d + 1) * d;
    Monotone(n, x / d + 1, d);
  }

  /** Within `now` time units of creation the handler runs for a key at most once, once more per ttl, once
      per interval and once more for every stream its refreshes belong to, and once for every run that
      ended in an error, in nil bytes or in an oversized value. */
  lemma HandlerCallBound(c: Config, steps: seq<Step>, k: string)
    requires Feasible(c, steps) && c.ttl(k) > 0 && c.minInterval > 0
    ensures var s := After(c, steps);
            RunsOf(s.log, k) <=
              1 + s.now / c.ttl(k) + |StreamsOf(s, k)| * (1 + s.now / c.minInterval) + TallyOf(s, k).unstored
  {
    hide After, Feasible, RunsOf, StreamsOf;
    var s := After(c, steps);
    RunsAreExplained(c, steps, k);
    DeletesAreLimited(c, steps, k);
    DivisionBound(s.now, c.ttl(k), RunsOf(s.log, k) - TallyOf(s, k).deletes - TallyOf(s, k).unstored - 1);
  }

  /** All refreshes for the key come through one stream, as they do when the fields of its calls are not
      ambiguous, see RequestKeys.SameKeySameStream. */
  ghost predicate OneStream(s: State, k: string) {
    forall x, y :: x in StreamsOf(s, k) && y in StreamsOf(s, k) ==> x == y
  }

  lemma OneStreamBound(c: Config, steps: seq<Step>, k: string)
    requires Feasible(c, steps) && c.ttl(k) > 0 && c.minInterval > 0 && OneStream(After(c, steps), k)
    ensures var s := After(c, steps);
            RunsOf(s.log, k) <= 2 + s.now / c.ttl(k) + s.now / c.minInterval + TallyOf(s, k).unstored
  {
    hide After, Feasible, RunsOf;
    var s := After(c, steps);
    HandlerCallBound(c, steps, k);
    DeletesAreLimited(c, steps, k);
    AtMostOne(StreamsOf(s, k));
    Monotone(1, |StreamsOf(s, k)|, 1 + s.now / c.minInterval);
  }

  lemma AtMostOne(streams: set<string>)
    requires forall x, y :: x in streams && y in streams ==> x == y
    ensures |streams| <= 1
  {
    if x :| x in streams {
      assert streams == {x};
    }
  }

  // ----- the bound is reached -----

  /** The call finds nothing, leads a flight and starts the handler. */
  lemma RunStarts(c: Config, steps: seq<Step>, t: Tid) returns (started: seq<Step>)
    requires Feasible(c, steps) && At(After(c, steps), t, Looking)
    requires var s := After(c, steps); !Live(c, s, KeyOf(s, t)) && KeyOf(s, t) !in s.flights
    ensures Feasible(c, started)
    ensures var s, s' := After(c, steps), After(c, started);
            && OnlyMoved(s, s', t) && s'.tallies == s.tallies && s'.threads[t].phase.Running?
            && s'.flights == s.flights[KeyOf(s, t) := t]
            && RunsOf(s'.log, KeyOf(s, t)) == RunsOf(s.log, KeyOf(s, t)) + 1
  {
    hide After, Feasible, Apply, RunsOf;
    started := LeadsAFlight(c, steps, t);
    LogCount(c, After(c, started), Start(t), KeyOf(After(c, steps), t));
    Moves(c, started, Start(t));
    started := started + [Start(t)];
  }

  lemma LeadsAFlight(c: Config, steps: seq<Step>, t: Tid) returns (started: seq<Step>)
    requires Feasible(c, steps) && At(After(c, steps), t, Looking)
    requires var s := After(c, steps); !Live(c, s, KeyOf(s, t)) && KeyOf(s, t) !in s.flights
    ensures Feasible(c, started)
    ensures var s, s' := After(c, steps), After(c, started);
            && OnlyMoved(s, s', t) && s'.tallies == s.tallies && At(s', t, Calling)
            && s'.flights == s.flights[KeyOf(s, t) := t] && s'.log == s.log
  {
    hide After, Feasible, Apply;
    Moves(c, steps, Miss(t));
    started := steps + [Miss(t)];
    Moves(c, started, Lead(t));
    started := started + [Lead(t)];
    Moves(c, started, RecheckMiss(t));
    started := started + [RecheckMiss(t)];
  }

  /** Nothing but this call's progress, what it stores, and the account of its run. */
  ghost predicate OnlyMoved(s: State, s': State, t: Tid) {
    && t in s.threads && t in s'.threads && s'.threads == s.threads[t := s'.threads[t]]
    && s'.threads[t].request == s.threads[t].request
    && s'.now == s.now && s'.limiter == s.limiter
  }

  /** The handler returns no bytes, in a non-nil slice, which are stored. */
  lemma RunEnds(c: Config, steps: seq<Step>, t: Tid) returns (closed: seq<Step>)
    requires Feasible(c, steps) && t in After(c, steps).threads && After(c, steps).threads[t].phase.Running?
    ensures Feasible(c, closed)
    ensures var s, s' := After(c, steps), After(c, closed);
            && OnlyMoved(s, s', t) && s'.tallies == s.tallies
            && s'.flights == s.flights - {KeyOf(s, t)}
            && RunsOf(s'.log, KeyOf(s, t)) == RunsOf(s.log, KeyOf(s, t))
  {
    hide After, Feasible, Apply, RunsOf;
    LogCount(c, After(c, steps), EndBytes(t, []), KeyOf(After(c, steps), t));
    Moves(c, steps, EndBytes(t, []));
    closed := steps + [EndBytes(t, [])];
    Moves(c, closed, Step.Store(t));
    closed := closed + [Step.Store(t)];
    Moves(c, closed, Close(t));
    closed := closed + [Close(t)];
  }

  /** At time 0, the calls for the key are a first one and one refresh from each of the streams. */
  ghost predicate Asked(s: State, k: string, streams: seq<string>) {
    && s.now == 0 && k !in s.flights && TallyOf(s, k).unstored == 0
    && (forall t :: t in s.threads ==> t <= |streams| && KeyOf(s, t) == k)
    && (forall t :: t in s.threads && s.threads[t].request.refresh ==> StreamOf(s, t) in streams)
    && (forall i :: 1 <= i <= |streams| ==>
          i in s.threads && s.threads[i].request.refresh && StreamOf(s, i) == streams[i - 1])
    && (forall stream :: stream in s.limiter ==> stream in streams)
  }

  /** Each of them has run the handler. */
  ghost predicate AllRan(s: State, k: string, streams: seq<string>) {
    Asked(s, k, streams) && RunsOf(s.log, k) == |streams| + 1
  }

  /** Each but the last, which is about to. */
  ghost predicate AboutToRun(c: Config, s: State, k: string, streams: seq<string>) {
    && Asked(s, k, streams) && RunsOf(s.log, k) == |streams|
    && !Live(c, s, k) && At(s, |streams|, Looking)
  }

  /** The bound cannot be improved, and more than one stream does exceed what one allows: with a first call
      and one refresh from each of n streams the handler runs n + 1 times at time 0, all runs stored. */
  lemma BoundIsReached(c: Config, k: string, streams: seq<string>) returns (steps: seq<Step>)
    requires c.ttl(k) > 0 && c.minInterval > 0
    requires forall i, j :: 0 <= i < j < |streams| ==> streams[i] != streams[j]
    ensures Feasible(c, steps)
    ensures var s := After(c, steps);
            && s.now == 0 && TallyOf(s, k).unstored == 0 && |StreamsOf(s, k)| == |streams|
            && RunsOf(s.log, k) == 1 + |streams|
  {
    hide After, Feasible, RunsOf, StreamsOf;
    steps := RefreshesRun(c, k, streams);
    StreamsAre(After(c, steps), k, streams);
  }

  lemma StreamsAre(s: State, k: string, streams: seq<string>)
    requires AllRan(s, k, streams)
    requires forall i, j :: 0 <= i < j < |streams| ==> streams[i] != streams[j]
    ensures |StreamsOf(s, k)| == |streams|
  {
    forall stream ensures stream in StreamsOf(s, k) <==> stream in streams {
      if i :| 0 <= i < |streams| && streams[i] == stream {
        assert i + 1 in s.threads && StreamOf(s, i + 1) == stream;
      }
    }
    SizeOf(StreamsOf(s, k), streams);
  }

  lemma {:induction false} SizeOf(streams: set<string>, listing: seq<string>)
    requires forall x :: x in streams <==> x in listing
    requires forall i, j :: 0 <= i < j < |listing| ==> listing[i] != listing[j]
    ensures |streams| == |listing|
  {
    if listing == [] {
      assert streams == {};
    } else {
      assert listing == [listing[0]] + listing[1..];
      SizeOf(streams - {listing[0]}, listing[1..]);
    }
  }

  lemma {:induction false} RefreshesRun(c: Config, k: string, streams: seq<string>) returns (steps: seq<Step>)
    requires c.ttl(k) > 0 && c.minInterval > 0
    requires forall i, j :: 0 <= i < j < |streams| ==> streams[i] != streams[j]
    ensures Feasible(c, steps) && AllRan(After(c, steps), k, streams)
  {
    hide After, Feasible, Apply, Live, RunsOf;
    var n := |streams|;
    var before: seq<Step>;
    if n == 0 {
      before := FirstArrives(c, k);
    } else {
      var rest := RefreshesRun(c, k, streams[..n - 1]);
      before := NextRefreshes(c, rest, k, streams);
    }
    var started := RunStarts(c, before, n);
    steps := RunEnds(c, started, n);
    StillAsked(After(c, before), After(c, started), After(c, steps), k, streams);
  }

  lemma StillAsked(s: State, s1: State, s': State, k: string, streams: seq<string>)
    requires Asked(s, k, streams) && OnlyMoved(s, s1, |streams|) && OnlyMoved(s1, s', |streams|)
    requires s'.tallies == s.tallies && s'.flights == s.flights[k := |streams|] - {k}
    ensures Asked(s', k, streams)
  {
  }

  lemma FirstArrives(c: Config, k: string) returns (steps: seq<Step>)
    requires c.ttl(k) > 0
    ensures Feasible(c, steps) && AboutToRun(c, After(c, steps), k, [])
  {
    hide After, Feasible, Apply;
    StartIsFeasible(c);
    Moves(c, [], Spawn(0, Request(k, "", false)));
    steps := [] + [Spawn(0, Request(k, "", false))];
    Moves(c, steps, NoRefresh(0));
    steps := steps + [NoRefresh(0)];
  }

  /** A call from a stream that has not refreshed yet deletes the entry. */
  lemma NextRefreshes(c: Config, rest: seq<Step>, k: string, streams: seq<string>) returns (steps: seq<Step>)
    requires c.ttl(k) > 0 && c.minInterval > 0 && streams != []
    requires forall i, j :: 0 <= i < j < |streams| ==> streams[i] != streams[j]
    requires Feasible(c, rest) && AllRan(After(c, rest), k, streams[..|streams| - 1])
    ensures Feasible(c, steps) && AboutToRun(c, After(c, steps), k, streams)
  {
    hide After, Feasible, RunsOf;
    steps := RefreshDeletes(c, rest, |streams|, Request(k, streams[|streams| - 1], true));
  }

  lemma RefreshDeletes(c: Config, rest: seq<Step>, t: Tid, request: Request) returns (steps: seq<Step>)
    requires c.ttl(request.key) > 0 && c.minInterval > 0 && request.refresh
    requires Feasible(c, rest) && t !in After(c, rest).threads && request.stream !in After(c, rest).limiter
    ensures Feasible(c, steps)
    ensures var s, s', k := After(c, rest), After(c, steps), request.key;
            && s'.now == s.now && s'.log == s.log && s'.flights == s.flights
            && s'.threads == s.threads[t := Thread(request, Looking, [], false)]
            && k !in s'.store && s'.limiter == s.limiter[request.stream := s.now]
            && TallyOf(s', k).unstored == TallyOf(s, k).unstored
  {
    hide After, Feasible, Apply, NextTallies;
    steps := RefreshIsHonoured(c, rest, t, request);
    Moves(c, steps, Delete(t));
    TallyOfDelete(c, After(c, steps), t);
    steps := steps + [Delete(t)];
  }

  lemma TallyOfDelete(c: Config, s: State, t: Tid)
    requires Enabled(c, s, Delete(t))
    ensures var tallies := NextTallies(c, s, Delete(t)); var k := KeyOf(s, t);
            k in tallies && tallies[k].unstored == TallyOf(s, k).unstored
  {
  }

  lemma RefreshIsHonoured(c: Config, rest: seq<Step>, t: Tid, request: Request) returns (steps: seq<Step>)
    requires c.ttl(request.key) > 0 && c.minInterval > 0 && request.refresh
    requires Feasible(c, rest) && t !in After(c, rest).threads && request.stream !in After(c, rest).limiter
    ensures Feasible(c, steps)
    ensures var s, s' := After(c, rest), After(c, steps);
            && s'.now == s.now && s'.log == s.log && s'.flights == s.flights && s'.store == s.store
            && s'.threads == s.threads[t := Thread(request, Deleting, [], false)]
            && s'.limiter == s.limiter[request.stream := s.now] && s'.tallies == s.tallies
  {
    hide After, Feasible, Apply;
    Moves(c, rest, Spawn(t, request));
    steps := rest + [Spawn(t, request)];
    Moves(c, steps, Allow(t));
    steps := steps + [Allow(t)];
  }

  // ----- one run serves everybody -----

  /** At most one call per key is between opening and closing a flight, and while an entry is live
      no call is about to run the handler for its key or inside it. */
  lemma FlightsAreExclusive(c: Config, steps: seq<Step>, t: Tid, u: Tid)
    requires Feasible(c, steps)
    requires var s := After(c, steps);
             && t in s.threads && u in s.threads && KeyOf(s, t) == KeyOf(s, u)
             && InFlight(s.threads[t].phase) && InFlight(s.threads[u].phase)
    ensures t == u
    ensures var s := After(c, steps);
            s.threads[t].phase.Calling? || InRun(s.threads[t].phase) ==> !Live(c, s, KeyOf(s, t))
  {
    hide After, Feasible, Provenance, AllResponses, Counted, DeletesCovered, Spaced;
    InvariantHolds(c, steps);
  }

  /** The step neither deletes the key's entry, nor ends a run for it without storing, nor lets it expire. */
  ghost predicate Undisturbed(c: Config, s: State, step: Step, k: string)
    requires Enabled(c, s, step)
  {
    && !(Ours(s, step, k) && step.Delete?)
    && !EndedUnstored(c, s, step, k)
    && (Live(c, s, k) ==> Live(c, Apply(c, s, step), k))
  }

  ghost predicate Quiet(c: Config, pre: seq<Step>, seg: seq<Step>, k: string)
    requires Feasible(c, pre + seg)
    decreases |seg|
  {
    seg == [] ||
    (LastStep(c, pre, seg);
     var front, last := seg[..|seg| - 1], seg[|seg| - 1];
     Quiet(c, pre, front, k) && Undisturbed(c, After(c, pre + front), last, k))
  }

  /** A run for the key is under way, or has returned bytes that its flight is about to hand out. */
  ghost predicate Busy(s: State, k: string) {
    && k in s.flights && s.flights[k] in s.threads
    && var phase := s.threads[s.flights[k]].phase;
       InRun(phase) || (phase.Closing? && phase.result.Data?)
  }

  /** At most one run of the key starts from log position `from` on; once it has, it is under way or
      its entry is live. */
  ghost predicate Solo(c: Config, s: State, k: string, from: nat) {
    || (forall r :: from <= r < |s.log| ==> s.log[r].key != k)
    || (AtMostOneRun(s, k, from) && (RunUnderWay(s, k) || Live(c, s, k)))
  }

  ghost predicate AtMostOneRun(s: State, k: string, from: nat) {
    forall r, q :: from <= r < |s.log| && from <= q < |s.log| && s.log[r].key == k && s.log[q].key == k ==> r == q
  }

  lemma LogChanges(c: Config, s: State, step: Step)
    requires Enabled(c, s, step)
    ensures var log' := Apply(c, s, step).log;
            && |log'| == |s.log| + (if step.Start? then 1 else 0)
            && (forall r :: 0 <= r < |s.log| ==> log'[r].key == s.log[r].key)
            && (step.Start? ==> log'[|s.log|].key == KeyOf(s, step.t))
  {
    hide NextThread, NextStore, NextFlights, NextResults, NextLimiter, NextHonoured, NextTallies;
  }

  lemma SoloKept(c: Config, s: State, step: Step, k: string, from: nat)
    requires Invariant(c, s) && Enabled(c, s, step) && c.ttl(k) > 0
    requires from <= |s.log| && Solo(c, s, k, from) && Undisturbed(c, s, step, k)
    ensures Solo(c, Apply(c, s, step), k, from)
  {
    hide Apply, Provenance, AllResponses, Leadership, Deduplicated, Counted, DeletesCovered, Spaced, RunUnderWay,
      Stored, EndedUnstored, Live, RunsOf;
    LogChanges(c, s, step);
    RunChanges(c, s, step, k);
    EntryChanges(c, s, step, k);
  }

  // ----- what calls receive -----

  /** Bytes, if any, come from a run at log position `from` or later. */
  ghost function Fresh(from: nat): Expectation {
    (o: Outcome) => o.Data? ==> o.run >= from
  }

  /** Bytes, and from a run at log position `from` or later. */
  ghost function BytesSince(from: nat): Expectation {
    (o: Outcome) => o.Data? && o.run >= from
  }

  lemma {:induction false} FreshHolds(c: Config, pre: seq<Step>, seg: seq<Step>, k: string, from: nat,
                                      earlier: set<Tid>)
    requires Feasible(c, pre + seg) && Feasible(c, pre) && c.ttl(k) > 0 && from <= |After(c, pre).log|
    requires HandsOut(c, After(c, pre), k, Fresh(from), earlier)
    ensures HandsOut(c, After(c, pre + seg), k, Fresh(from), earlier) && from <= |After(c, pre + seg).log|
    decreases |seg|
  {
    hide Apply, HandsOut, Feasible, After, Leadership, Provenance, AllResponses, Deduplicated, Counted, DeletesCovered,
      Spaced;
    if seg == [] {
      assert pre + seg == pre;
    } else {
      LastStep(c, pre, seg);
      var front, last := seg[..|seg| - 1], seg[|seg| - 1];
      FreshHolds(c, pre, front, k, from, earlier);
      InvariantHolds(c, pre + front);
      LogChanges(c, After(c, pre + front), last);
      HandsOutKept(c, After(c, pre + front), last, k, Fresh(from), earlier);
    }
  }

  lemma {:induction false} ServedHolds(c: Config, pre: seq<Step>, seg: seq<Step>, k: string, earlier: set<Tid>)
    requires Feasible(c, pre + seg) && Feasible(c, pre) && c.ttl(k) > 0 && Quiet(c, pre, seg, k)
    requires HandsOut(c, After(c, pre), k, BytesSince(|After(c, pre).log|), earlier)
    ensures var from := |After(c, pre).log|;
            HandsOut(c, After(c, pre + seg), k, BytesSince(from), earlier) && from <= |After(c, pre + seg).log|
    decreases |seg|
  {
    hide Apply, HandsOut, Feasible, After, Leadership, Provenance, AllResponses, Deduplicated, Counted, DeletesCovered,
      Spaced;
    if seg == [] {
      assert pre + seg == pre;
    } else {
      LastStep(c, pre, seg);
      var front, last := seg[..|seg| - 1], seg[|seg| - 1];
      ServedHolds(c, pre, front, k, earlier);
      InvariantHolds(c, pre + front);
      LogChanges(c, After(c, pre + front), last);
      HandsOutKept(c, After(c, pre + front), last, k, BytesSince(|After(c, pre).log|), earlier);
    }
  }

  lemma {:induction false} SoloHolds(c: Config, pre: seq<Step>, seg: seq<Step>, k: string)
    requires Feasible(c, pre + seg) && Feasible(c, pre) && c.ttl(k) > 0 && Quiet(c, pre, seg, k)
    ensures var from := |After(c, pre).log|;
            from <= |After(c, pre + seg).log| && Solo(c, After(c, pre + seg), k, from)
    decreases |seg|
  {
    hide Apply, Invariant, Feasible, After, Undisturbed;
    if seg == [] {
      assert pre + seg == pre;
    } else {
      LastStep(c, pre, seg);
      var front, last := seg[..|seg| - 1], seg[|seg| - 1];
      SoloHolds(c, pre, front, k);
      InvariantHolds(c, pre + front);
      SoloKept(c, After(c, pre + front), last, k, |After(c, pre).log|);
      LogChanges(c, After(c, pre + front), last);
    }
  }

  /** The outcome a call has been given. */
  ghost predicate Received(s: State, t: Tid, result: Outcome) {
    t in s.threads && (s.threads[t].phase.Returned? || s.threads[t].phase.Done?) && s.threads[t].phase.result == result
  }

  lemma ReceivedFrom(c: Config, s: State, t: Tid, bytes: Bytes, run: nat)
    requires Invariant(c, s) && Received(s, t, Data(bytes, run))
    ensures FromRun(s.log, KeyOf(s, t), bytes, run)
  {
    hide Leadership, AllResponses, Deduplicated, Counted, DeletesCovered, Spaced;
    assert PhaseFrom(s.log, KeyOf(s, t), s.threads[t].phase);
  }

  /** Before the handler runs, or any outcome is fixed. */
  predicate BeforeRun(phase: Phase) {
    phase.Arrived? || phase.Deleting? || phase.Looking? || phase.Joining? || phase.Checking? || phase.Calling?
  }

  /** The call is yet to come, or nothing about its outcome is fixed: it has not run the handler, nor has
      the call that it waits for, if any, handed anything over. */
  predicate Undecided(s: State, t: Tid) {
    t in s.threads ==>
      if s.threads[t].phase.Waiting? then s.threads[t].phase.leader !in s.results else BeforeRun(s.threads[t].phase)
  }

  /** No flight for the key has got as far as running the handler, or taken anything from the cache. */
  ghost predicate NothingDrawn(s: State, k: string) {
    k in s.flights && s.flights[k] in s.threads ==> BeforeRun(s.threads[s.flights[k]].phase)
  }

  /** Neither an entry nor a flight that could hand anything out yet. */
  ghost predicate Cold(c: Config, s: State, k: string) {
    !Live(c, s, k) && NothingDrawn(s, k)
  }

  /** Exactly one run of the key has started from log position `from` on, this one. */
  ghost predicate TheOnlyRun(s: State, k: string, from: nat, run: nat) {
    from <= run < |s.log| && forall r :: from <= r < |s.log| ==> (s.log[r].key == k <==> r == run)
  }

  ghost function Decided(s: State): set<Tid> {
    set t | t in s.threads && !Undecided(s, t)
  }

  /** From a cold key on, without an expiry, a delete or an unstored run, any number of concurrent
      callers cause at most one run of the handler. As soon as one of them has finished there was exactly
      one, and every caller that finishes has the bytes it returned: no error, no nil bytes. */
  lemma OneRunServesAll(c: Config, pre: seq<Step>, seg: seq<Step>, k: string)
    requires Feasible(c, pre + seg) && Feasible(c, pre) && c.ttl(k) > 0 && Quiet(c, pre, seg, k)
    requires Cold(c, After(c, pre), k)
    ensures var s0, s := After(c, pre), After(c, pre + seg);
            && AtMostOneRun(s, k, |s0.log|)
            && (forall t, a :: Received(s, t, a) && KeyOf(s, t) == k && Undecided(s0, t) ==>
                  a.Data? && TheOnlyRun(s, k, |s0.log|, a.run) && s.log[a.run] == Run(k, [a.bytes]))
            && (forall t, u, a, b ::
                  (Received(s, t, a) && KeyOf(s, t) == k && Undecided(s0, t) &&
                   Received(s, u, b) && KeyOf(s, u) == k && Undecided(s0, u)) ==> a == b)
  {
    hide Feasible, After, Quiet, HandsOut, Invariant;
    var s0, s := After(c, pre), After(c, pre + seg);
    InvariantHolds(c, pre);
    InvariantHolds(c, pre + seg);
    SoloHolds(c, pre, seg, k);
    FromInvariant(c, s0);
    forall t, l | At(s0, t, Waiting(l)) ensures Served(s0, t, l) {
      NoOrphans(c, pre, t, l);
    }
    UndecidedMeetAnything(c, s0, k, BytesSince(|s0.log|));
    ServedHolds(c, pre, seg, k, Decided(s0));
    forall t, a | Received(s, t, a) && KeyOf(s, t) == k && Undecided(s0, t)
      ensures a.Data? && TheOnlyRun(s, k, |s0.log|, a.run) && s.log[a.run] == Run(k, [a.bytes])
    {
      ReceivesAsExpected(c, s, k, BytesSince(|s0.log|), Decided(s0), t, a);
      ReceivedFrom(c, s, t, a.bytes, a.run);
    }
  }

  lemma ReceivesAsExpected(c: Config, s: State, k: string, good: Expectation, earlier: set<Tid>, t: Tid, a: Outcome)
    requires HandsOut(c, s, k, good, earlier) && Received(s, t, a) && KeyOf(s, t) == k && t !in earlier
    ensures good(a)
  {
    assert CallMeets(s, t, good);
  }

  /** As long as nothing is drawn, any expectation that a live entry meets can be held. */
  lemma UndecidedMeetAnything(c: Config, s: State, k: string, good: Expectation)
    requires Leadership(s) && NothingDrawn(s, k) && (Live(c, s, k) ==> good(Found(s, k)))
    requires forall t, l :: At(s, t, Waiting(l)) ==> Served(s, t, l)
    ensures HandsOut(c, s, k, good, Decided(s))
  {
    forall t | t in s.threads && t !in Decided(s) && KeyOf(s, t) == k ensures CallMeets(s, t, good) {
      if s.threads[t].phase.Waiting? {
        assert At(s, t, Waiting(s.threads[t].phase.leader));
        assert Served(s, t, s.threads[t].phase.leader);
      }
    }
  }

  /** This outcome and no other. */
  ghost function Exactly(result: Outcome): Expectation {
    (o: Outcome) => o == result
  }

  lemma {:induction false} EntryServes(c: Config, pre: seq<Step>, seg: seq<Step>, k: string, result: Outcome,
                                       earlier: set<Tid>)
    requires Feasible(c, pre + seg) && Feasible(c, pre) && c.ttl(k) > 0 && Quiet(c, pre, seg, k)
    requires Live(c, After(c, pre), k) && HandsOut(c, After(c, pre), k, Exactly(result), earlier)
    ensures var s0, s := After(c, pre), After(c, pre + seg);
            && Live(c, s, k) && HandsOut(c, s, k, Exactly(result), earlier)
            && |s0.log| <= |s.log| && forall r :: |s0.log| <= r < |s.log| ==> s.log[r].key != k
    decreases |seg|
  {
    hide Apply, HandsOut, Feasible, After, Leadership, Provenance, AllResponses, Deduplicated, Counted, DeletesCovered,
      Spaced, Live, Stored, EndedUnstored;
    if seg == [] {
      assert pre + seg == pre;
    } else {
      LastStep(c, pre, seg);
      var front, last := seg[..|seg| - 1], seg[|seg| - 1];
      EntryServes(c, pre, front, k, result, earlier);
      InvariantHolds(c, pre + front);
      LogChanges(c, After(c, pre + front), last);
      NoRunWhileLive(c, After(c, pre + front), last, k);
      HandsOutKept(c, After(c, pre + front), last, k, Exactly(result), earlier);
    }
  }

  lemma NoRunWhileLive(c: Config, s: State, step: Step, k: string)
    requires Leadership(s) && Deduplicated(c, s) && Enabled(c, s, step) && Live(c, s, k) && Undisturbed(c, s, step, k)
    ensures Ours(s, step, k) ==> !step.Start? && !step.EndError? && !step.EndNothing?
    ensures step.Start? ==> KeyOf(s, step.t) != k
  {
    if Ours(s, step, k) && step.Start? {
      RunBegins(c, s, step, k);
    }
  }

  /** While an entry stays live the handler is not run for its key, and every caller receives that entry. */
  lemma LiveEntryServesAll(c: Config, pre: seq<Step>, seg: seq<Step>, k: string)
    requires Feasible(c, pre + seg) && Feasible(c, pre) && c.ttl(k) > 0 && Quiet(c, pre, seg, k)
    requires Live(c, After(c, pre), k) && NothingDrawn(After(c, pre), k)
    ensures var s0, s := After(c, pre), After(c, pre + seg);
            && (forall r :: |s0.log| <= r < |s.log| ==> s.log[r].key != k)
            && (forall t, a :: Received(s, t, a) && KeyOf(s, t) == k && Undecided(s0, t) ==> a == Found(s0, k))
  {
    hide Feasible, After, Quiet, HandsOut, Invariant;
    var s0, s := After(c, pre), After(c, pre + seg);
    InvariantHolds(c, pre);
    FromInvariant(c, s0);
    forall t, l | At(s0, t, Waiting(l)) ensures Served(s0, t, l) {
      NoOrphans(c, pre, t, l);
    }
    UndecidedMeetAnything(c, s0, k, Exactly(Found(s0, k)));
    EntryServes(c, pre, seg, k, Found(s0, k), Decided(s0));
    forall t, a | Received(s, t, a) && KeyOf(s, t) == k && Undecided(s0, t) ensures a == Found(s0, k) {
      ReceivesAsExpected(c, s, k, Exactly(Found(s0, k)), Decided(s0), t, a);
    }
  }

  // ----- what a lookup decides -----

  /** The call's outcome is fixed, in its flight or already returned. */
  ghost predicate Settled(s: State, t: Tid, result: Outcome) {
    && t in s.threads
    && var phase := s.threads[t].phase;
       (phase.Closing? || phase.Returned? || phase.Done?) && phase.result == result
  }

  lemma SettledKept(c: Config, s: State, step: Step, t: Tid, result: Outcome)
    requires Enabled(c, s, step) && Settled(s, t, result)
    ensures t in s.threads && t in Apply(c, s, step).threads
    ensures var s' := Apply(c, s, step);
            && Settled(s', t, result) && s'.threads[t].led == s.threads[t].led
            && (!s.threads[t].phase.Closing? ==> !s'.threads[t].phase.Closing?)
  {
    hide Apply;
    MovesOnly(c, s, step, t);
    if HasActor(step) && step.t == t {
      SettledMoves(c, s, step, result);
    }
  }

  lemma MovesOnly(c: Config, s: State, step: Step, t: Tid)
    requires Enabled(c, s, step) && t in s.threads
    ensures t in Apply(c, s, step).threads
    ensures Apply(c, s, step).threads[t] ==
            if HasActor(step) && step.t == t then NextThread(c, s, step) else s.threads[t]
  {
    hide NextThread, NextStore, NextFlights, NextResults, NextLimiter, NextHonoured, NextLog, NextTallies;
  }

  lemma SettledMoves(c: Config, s: State, step: Step, result: Outcome)
    requires Enabled(c, s, step) && HasActor(step) && Settled(s, step.t, result)
    ensures var th' := NextThread(c, s, step);
            (th'.phase.Returned? || th'.phase.Done?) && th'.phase.result == result && th'.led == s.threads[step.t].led
  {
    hide NextSent;
  }

  lemma {:induction false} SettledForGood(c: Config, pre: seq<Step>, seg: seq<Step>, t: Tid, result: Outcome)
    requires Feasible(c, pre + seg) && Feasible(c, pre) && Settled(After(c, pre), t, result)
    ensures var s, s' := After(c, pre), After(c, pre + seg);
            && Settled(s', t, result) && s'.threads[t].led == s.threads[t].led
            && (!s.threads[t].phase.Closing? ==> !s'.threads[t].phase.Closing?)
    decreases |seg|
  {
    hide Apply, Feasible, After, Settled, Enabled;
    if seg == [] {
      assert pre + seg == pre;
    } else {
      LastStep(c, pre, seg);
      var front := seg[..|seg| - 1];
      SettledForGood(c, pre, front, t, result);
      SettledKept(c, After(c, pre + front), seg[|seg| - 1], t, result);
    }
  }

  /** The key has an entry whose ttl has not passed. */
  ghost predicate HasEntry(c: Config, s: State, k: string, bytes: Bytes, run: nat) {
    k in s.store && s.store[k].bytes == bytes && s.store[k].run == run && s.now - s.store[k].setAt <= c.ttl(k)
  }

  /** A call that looks when there is such an entry is answered by it, whatever happens to the entry and to
      the handler afterwards; it leads no flight. */
  lemma LookupIsAnswered(c: Config, pre: seq<Step>, step: Step, seg: seq<Step>, t: Tid, bytes: Bytes, run: nat)
    requires Feasible(c, pre) && Feasible(c, pre + [step]) && Feasible(c, pre + [step] + seg)
    requires At(After(c, pre), t, Looking) && HasActor(step) && step.t == t
    requires HasEntry(c, After(c, pre), KeyOf(After(c, pre), t), bytes, run)
    ensures Received(After(c, pre + [step] + seg), t, Data(bytes, run))
    ensures !After(c, pre + [step] + seg).threads[t].led
  {
    hide Feasible, After, Leadership, Provenance, Deduplicated, Counted, DeletesCovered, Spaced;
    InvariantHolds(c, pre);
    assert Responses(After(c, pre).threads[t]);
    LastStep(c, pre, [step]);
    assert pre + [] == pre;
    FirstLookup(c, After(c, pre), step, bytes, run);
    SettledForGood(c, pre + [step], seg, t, Data(bytes, run));
  }

  lemma FirstLookup(c: Config, s: State, step: Step, bytes: Bytes, run: nat)
    requires Enabled(c, s, step) && HasActor(step) && At(s, step.t, Looking)
    requires HasEntry(c, s, KeyOf(s, step.t), bytes, run)
    ensures var s' := Apply(c, s, step);
            && Settled(s', step.t, Data(bytes, run)) && !s'.threads[step.t].phase.Closing?
            && s'.threads[step.t].led == s.threads[step.t].led
  {
    hide NextStore, NextFlights, NextResults, NextLimiter, NextHonoured, NextLog, NextTallies, NextSent;
  }

  /** A leader that finds such an entry on its second lookup answers its flight with it, and never runs
      the handler. */
  lemma RecheckIsAnswered(c: Config, pre: seq<Step>, step: Step, seg: seq<Step>, t: Tid, bytes: Bytes, run: nat)
    requires Feasible(c, pre) && Feasible(c, pre + [step]) && Feasible(c, pre + [step] + seg)
    requires At(After(c, pre), t, Checking) && HasActor(step) && step.t == t
    requires HasEntry(c, After(c, pre), KeyOf(After(c, pre), t), bytes, run)
    ensures Settled(After(c, pre + [step] + seg), t, Data(bytes, run))
  {
    hide Feasible, After, Apply;
    LastStep(c, pre, [step]);
    assert pre + [] == pre;
    SecondLookup(c, After(c, pre), step, bytes, run);
    SettledForGood(c, pre + [step], seg, t, Data(bytes, run));
  }

  lemma SecondLookup(c: Config, s: State, step: Step, bytes: Bytes, run: nat)
    requires Enabled(c, s, step) && HasActor(step) && At(s, step.t, Checking)
    requires HasEntry(c, s, KeyOf(s, step.t), bytes, run)
    ensures Settled(Apply(c, s, step), step.t, Data(bytes, run))
  {
    hide NextStore, NextFlights, NextResults, NextLimiter, NextHonoured, NextLog, NextTallies, NextSent;
  }

  /** The step neither deletes nor replaces the key's entry. */
  ghost predicate LeavesEntry(s: State, step: Step, k: string) {
    Ours(s, step, k) ==> !step.Delete? && !step.Store?
  }

  ghost predicate EntryLeft(c: Config, pre: seq<Step>, seg: seq<Step>, k: string)
    requires Feasible(c, pre + seg)
    decreases |seg|
  {
    seg == [] ||
    (LastStep(c, pre, seg);
     var front, last := seg[..|seg| - 1], seg[|seg| - 1];
     EntryLeft(c, pre, front, k) && LeavesEntry(After(c, pre + front), last, k))
  }

  /** The key has this entry and no other, and has it as long as its ttl has not passed. */
  ghost predicate Kept(c: Config, s: State, k: string, e: Entry) {
    && (k in s.store ==> s.store[k] == e)
    && (s.now <= e.setAt + c.ttl(k) ==> k in s.store)
  }

  lemma KeptByStep(c: Config, s: State, step: Step, k: string, e: Entry)
    requires Enabled(c, s, step) && Kept(c, s, k, e) && LeavesEntry(s, step, k)
    ensures Kept(c, Apply(c, s, step), k, e)
  {
    hide NextThread, NextFlights, NextResults, NextLimiter, NextHonoured, NextLog, NextTallies;
  }

  lemma {:induction false} KeptHolds(c: Config, pre: seq<Step>, seg: seq<Step>, k: string, e: Entry)
    requires Feasible(c, pre + seg) && Feasible(c, pre) && EntryLeft(c, pre, seg, k) && Kept(c, After(c, pre), k, e)
    ensures Kept(c, After(c, pre + seg), k, e)
    decreases |seg|
  {
    hide Apply, Feasible, After, Kept, LeavesEntry;
    if seg == [] {
      assert pre + seg == pre;
    } else {
      LastStep(c, pre, seg);
      var front := seg[..|seg| - 1];
      KeptHolds(c, pre, front, k, e);
      KeptByStep(c, After(c, pre + front), seg[|seg| - 1], k, e);
    }
  }

  /** Bytes that fit and are stored at time u answer exactly the lookups up to u + ttl, until a refresh or
      a later run replaces them; expired entries are not found, and nothing else is evicted. */
  lemma StoredBytesAnswer(c: Config, pre: seq<Step>, t: Tid, seg: seq<Step>, k: string, bytes: Bytes, run: nat)
    requires Feasible(c, pre) && At(After(c, pre), t, Storing(bytes, run)) && |bytes| <= c.maxValueBytes
    requires k == KeyOf(After(c, pre), t)
    requires Feasible(c, pre + [Step.Store(t)]) && Feasible(c, pre + [Step.Store(t)] + seg)
    requires EntryLeft(c, pre + [Step.Store(t)], seg, k)
    ensures var u, s := After(c, pre).now, After(c, pre + [Step.Store(t)] + seg);
            HasEntry(c, s, k, bytes, run) <==> s.now <= u + c.ttl(k)
    ensures var u, s := After(c, pre).now, After(c, pre + [Step.Store(t)] + seg);
            Live(c, s, k) <==> s.now <= u + c.ttl(k)
  {
    hide Feasible, After, EntryLeft, NextThread, NextFlights, NextResults, NextLimiter, NextHonoured, NextLog,
      NextTallies;
    LastStep(c, pre, [Step.Store(t)]);
    assert pre + [] == pre;
    KeptHolds(c, pre + [Step.Store(t)], seg, k, Entry(bytes, run, After(c, pre).now));
  }

  /** An entry that is found can be left to expire: after d time units it is found exactly if its ttl has
      not passed by then; once it has, the entry may be evicted. */
  lemma EntriesExpire(c: Config, pre: seq<Step>, k: string, d: nat)
    requires Feasible(c, pre) && k in After(c, pre).store
    ensures Feasible(c, pre + [Tick(d)])
    ensures var s, s' := After(c, pre), After(c, pre + [Tick(d)]);
            && (Live(c, s', k) <==> s.now + d <= s.store[k].setAt + c.ttl(k))
            && (s.now + d > s.store[k].setAt + c.ttl(k) ==>
                  && Feasible(c, pre + [Tick(d)] + [Evict(k)])
                  && After(c, pre + [Tick(d)] + [Evict(k)]).store == s.store - {k})
  {
    hide After, Feasible, NextThread, NextFlights, NextResults, NextLimiter, NextHonoured, NextLog, NextTallies;
    Take(c, pre, Tick(d));
    if After(c, pre).now + d > After(c, pre).store[k].setAt + c.ttl(k) {
      Take(c, pre + [Tick(d)], Evict(k));
    }
  }

  // ----- what a refresh guarantees -----

  /** A call decides on its refresh header first: without one it goes on; a refresh within the interval of
      the last honoured one of its stream changes nothing; any other is honoured and remembered. */
  lemma RefreshIsDecided(c: Config, s: State, step: Step)
    requires Enabled(c, s, step) && HasActor(step) && At(s, step.t, Arrived)
    ensures var s', asks := Apply(c, s, step), s.threads[step.t].request.refresh;
            var stream := StreamOf(s, step.t);
            var early := c.minInterval > 0 && stream in s.limiter && s.now - s.limiter[stream] < c.minInterval;
            && s'.store == s.store
            && At(s', step.t, if asks && !early then Deleting else Looking)
            && s'.limiter == if asks && !early && c.minInterval > 0 then s.limiter[stream := s.now] else s.limiter
  {
    hide NextFlights, NextResults, NextHonoured, NextLog, NextTallies, NextSent;
  }

  /** An honoured refresh deletes the entry of its key, and no other, before the call looks for it. */
  lemma HonouredRefreshDeletes(c: Config, s: State, step: Step)
    requires Enabled(c, s, step) && HasActor(step) && At(s, step.t, Deleting)
    ensures var s' := Apply(c, s, step); s'.store == s.store - {KeyOf(s, step.t)} && At(s', step.t, Looking)
  {
    hide NextFlights, NextResults, NextHonoured, NextLog, NextTallies, NextSent;
  }

  lemma AfterDelete(c: Config, s: State, t: Tid)
    requires Invariant(c, s) && Enabled(c, s, Delete(t)) && !Busy(s, KeyOf(s, t))
    ensures var s' := Apply(c, s, Delete(t));
            HandsOut(c, s', KeyOf(s, t), Fresh(|s.log|), s'.threads.Keys - {t})
  {
    hide Provenance, AllResponses, Deduplicated, Counted, DeletesCovered, Spaced,
      NextResults, NextLimiter, NextHonoured, NextTallies;
  }

  /** A refresh that deletes while no run for its key is in progress never yields bytes of a run that
      had started before the delete, however the other calls interleave. */
  lemma RefreshIsFresh(c: Config, pre: seq<Step>, t: Tid, seg: seq<Step>, result: Outcome)
    requires Feasible(c, pre) && Enabled(c, After(c, pre), Delete(t)) && Feasible(c, pre + [Delete(t)] + seg)
    requires !Busy(After(c, pre), KeyOf(After(c, pre), t))
    requires Received(After(c, pre + [Delete(t)] + seg), t, result) && result.Data?
    ensures result.run >= |After(c, pre).log|
  {
    hide Feasible, After, Invariant, Apply, NextPhase;
    var s, k := After(c, pre), KeyOf(After(c, pre), t);
    IsCacheable(c, pre, t);
    var mid := pre + [Delete(t)];
    PrefixIsFeasible(c, mid, seg);
    LastStep(c, pre, [Delete(t)]);
    assert pre + [] == pre;
    var s1, s2 := After(c, mid), After(c, mid + seg);
    InvariantHolds(c, pre);
    AfterDelete(c, s, t);
    KeysStay(c, s, Delete(t), t);
    LogChanges(c, s, Delete(t));
    FreshHolds(c, mid, seg, k, |s.log|, s1.threads.Keys - {t});
    RequestsStay(c, mid, seg, t);
    ReceivesAsExpected(c, s2, k, Fresh(|s.log|), s1.threads.Keys - {t}, t, result);
  }

  lemma IsCacheable(c: Config, steps: seq<Step>, t: Tid)
    requires Feasible(c, steps) && t in After(c, steps).threads
    ensures c.ttl(KeyOf(After(c, steps), t)) > 0
  {
    hide After, Feasible, Leadership, Provenance, AllResponses, Deduplicated, Counted, DeletesCovered, Spaced;
    InvariantHolds(c, steps);
  }

  lemma KeysStay(c: Config, s: State, step: Step, t: Tid)
    requires Enabled(c, s, step) && t in s.threads
    ensures var s' := Apply(c, s, step); t in s'.threads && s'.threads[t].request == s.threads[t].request
  {
    hide NextThread, NextStore, NextFlights, NextResults, NextLimiter, NextHonoured, NextLog, NextTallies;
    if HasActor(step) {
      PhaseChanges(c, s, step);
    }
  }

  lemma {:induction false} RequestsStay(c: Config, pre: seq<Step>, seg: seq<Step>, t: Tid)
    requires Feasible(c, pre + seg) && Feasible(c, pre) && t in After(c, pre).threads
    ensures t in After(c, pre + seg).threads
    ensures After(c, pre + seg).threads[t].request == After(c, pre).threads[t].request
    decreases |seg|
  {
    hide Apply, Feasible, After;
    if seg == [] {
      assert pre + seg == pre;
    } else {
      LastStep(c, pre, seg);
      RequestsStay(c, pre, seg[..|seg| - 1], t);
      KeysStay(c, After(c, pre + seg[..|seg| - 1]), seg[|seg| - 1], t);
    }
  }

  /** The converse: when a run is in progress, the refreshing call may join its flight and be handed
      bytes of that run, which had started before the delete. */
  lemma RefreshMayBeStale(c: Config, pre: seq<Step>, t: Tid) returns (seg: seq<Step>)
    requires Feasible(c, pre) && Enabled(c, After(c, pre), Delete(t))
    requires Busy(After(c, pre), KeyOf(After(c, pre), t))
    ensures Feasible(c, pre + [Delete(t)] + seg)
    ensures exists result :: Received(After(c, pre + [Delete(t)] + seg), t, result) &&
                             result.Data? && result.run < |After(c, pre).log|
  {
    hide Feasible, After, Apply, NextPhase;
    var s, k := After(c, pre), KeyOf(After(c, pre), t);
    InvariantHolds(c, pre);
    BusyLeader(c, s, k);
    JoinsTheFlight(c, pre, t);
    var joined := pre + [Delete(t)] + [Miss(t)] + [Join(t)];
    var landed := WaiterIsHandedTheRun(c, joined, t, k, |s.log|);
    seg := [Miss(t)] + [Join(t)] + landed + [Wake(t)];
    JoinSegments(pre + [Delete(t)], [Miss(t)], [Join(t)], landed, [Wake(t)]);
  }

  /** What the phase holds comes from a run before log position `from`. */
  ghost predicate StartedBefore(phase: Phase, from: nat) {
    match phase
    case Running(run) => run < from
    case Storing(_, run) => run < from
    case Closing(Data(_, run)) => run < from
    case _ => false
  }

  lemma BusyLeader(c: Config, s: State, k: string)
    requires Invariant(c, s) && Busy(s, k)
    ensures KeyOf(s, s.flights[k]) == k && StartedBefore(s.threads[s.flights[k]].phase, |s.log|)
    ensures InFlight(s.threads[s.flights[k]].phase)
  {
    hide AllResponses, Deduplicated, Counted, DeletesCovered, Spaced;
    assert PhaseFrom(s.log, KeyOf(s, s.flights[k]), s.threads[s.flights[k]].phase);
  }

  lemma WaiterIsHandedTheRun(c: Config, joined: seq<Step>, t: Tid, k: string, from: nat) returns (landed: seq<Step>)
    requires Feasible(c, joined) && Busy(After(c, joined), k)
    requires var s := After(c, joined);
             && KeyOf(s, s.flights[k]) == k && StartedBefore(s.threads[s.flights[k]].phase, from)
             && At(s, t, Waiting(s.flights[k])) && t != s.flights[k]
    ensures Feasible(c, joined + landed + [Wake(t)])
    ensures exists result ::
            Received(After(c, joined + landed + [Wake(t)]), t, result) && result.Data? && result.run < from
  {
    hide Feasible, After, Apply, NextPhase;
    landed := LandFlight(c, joined, After(c, joined).flights[k], from);
    WakesWith(c, joined + landed, t);
  }

  lemma JoinSegments(a: seq<Step>, b: seq<Step>, c: seq<Step>, d: seq<Step>, e: seq<Step>)
    ensures a + (b + c + d + e) == a + b + c + d + e
  {
  }

  lemma WakesWith(c: Config, steps: seq<Step>, t: Tid)
    requires Feasible(c, steps) && Enabled(c, After(c, steps), Wake(t))
    ensures Feasible(c, steps + [Wake(t)])
    ensures var s := After(c, steps);
            Received(After(c, steps + [Wake(t)]), t, s.results[s.threads[t].phase.leader])
  {
    hide Feasible, After;
    Take(c, steps, Wake(t));
  }

  /** After its delete the call misses and joins the flight that is still open. */
  lemma JoinsTheFlight(c: Config, pre: seq<Step>, t: Tid)
    requires Feasible(c, pre) && Enabled(c, After(c, pre), Delete(t))
    requires var s := After(c, pre); KeyOf(s, t) in s.flights && s.flights[KeyOf(s, t)] != t
    ensures var steps := pre + [Delete(t)] + [Miss(t)] + [Join(t)];
            && Feasible(c, steps)
            && var s, s' := After(c, pre), After(c, steps);
               && s'.flights == s.flights
               && t in s'.threads && s'.threads == s.threads[t := s'.threads[t]]
               && s'.threads[t].phase == Waiting(s.flights[KeyOf(s, t)])
  {
    hide Feasible, After;
    Moves(c, pre, Delete(t));
    MissesAndJoins(c, pre + [Delete(t)], t);
  }

  lemma MissesAndJoins(c: Config, pre: seq<Step>, t: Tid)
    requires Feasible(c, pre) && At(After(c, pre), t, Looking)
    requires var s := After(c, pre); KeyOf(s, t) !in s.store && KeyOf(s, t) in s.flights
    ensures var steps := pre + [Miss(t)] + [Join(t)];
            && Feasible(c, steps)
            && var s, s' := After(c, pre), After(c, steps);
               && s'.flights == s.flights
               && t in s'.threads && s'.threads == s.threads[t := s'.threads[t]]
               && s'.threads[t].phase == Waiting(s.flights[KeyOf(s, t)])
  {
    hide NextLimiter, NextTallies, Feasible, After, NextLog, NextResults, Apply;
    Moves(c, pre, Miss(t));
    Moves(c, pre + [Miss(t)], Join(t));
  }

  /** A flight whose run is in progress can be completed by its leader alone. */
  lemma LandFlight(c: Config, steps: seq<Step>, l: Tid, from: nat) returns (landed: seq<Step>)
    requires Feasible(c, steps) && l in After(c, steps).threads && StartedBefore(After(c, steps).threads[l].phase, from)
    ensures Feasible(c, steps + landed) && Landed(After(c, steps), After(c, steps + landed), l, from)
    decreases StepsLeft(After(c, steps).threads[l].phase)
  {
    hide Feasible, After, Apply, Enabled, NextThread, NextResults, Landed, StartedBefore, StepsLeft;
    var s := After(c, steps);
    var step := LandingStep(c, s, l, from);
    StepsGoDown(c, s, step);
    Moves(c, steps, step);
    if step.Close? {
      landed := [step];
      ClosingLands(c, s, After(c, steps + landed), l, from);
    } else {
      var rest := LandFlight(c, steps + [step], l, from);
      landed := [step] + rest;
      assert steps + landed == steps + [step] + rest;
      LandsLater(s, After(c, steps + [step]), After(c, steps + landed), l, from);
    }
  }

  /** The flight's leader has handed over bytes of a run before log position `from`; no other call moved. */
  ghost predicate Landed(s: State, s': State, l: Tid, from: nat) {
    && l in s'.results && s'.results[l].Data? && s'.results[l].run < from
    && forall t :: t in s.threads && t != l ==> t in s'.threads && s'.threads[t] == s.threads[t]
  }

  lemma LandingStep(c: Config, s: State, l: Tid, from: nat) returns (step: Step)
    requires l in s.threads && StartedBefore(s.threads[l].phase, from)
    ensures HasActor(step) && !step.Spawn? && step.t == l && Enabled(c, s, step)
    ensures !step.Close? ==> StartedBefore(NextThread(c, s, step).phase, from)
    ensures step.Close? ==> s.threads[l].phase.Closing?
  {
    hide NextSent;
    step := OwnStep(c, s, l);
  }

  lemma ClosingLands(c: Config, s: State, s': State, l: Tid, from: nat)
    requires l in s.threads && s.threads[l].phase.Closing? && StartedBefore(s.threads[l].phase, from)
    requires s'.threads == s.threads[l := NextThread(c, s, Close(l))] && s'.results == NextResults(c, s, Close(l))
    ensures Landed(s, s', l, from)
  {
    hide NextThread;
  }

  lemma LandsLater(s: State, s1: State, s': State, l: Tid, from: nat)
    requires l in s1.threads && s1.threads == s.threads[l := s1.threads[l]] && Landed(s1, s', l, from)
    ensures Landed(s, s', l, from)
  {
  }

  // ----- responses, staleness, transparency -----

  /** A call sends at most one response. Once it has returned: bytes are sent exactly once, with status
      200, if the send succeeds; an error sends nothing; and of the calls of a nil-bytes flight exactly
      the leader has responded. */
  lemma ResponsesAreSingle(c: Config, steps: seq<Step>, t: Tid)
    requires Feasible(c, steps) && t in After(c, steps).threads
    ensures var th := After(c, steps).threads[t];
            && |th.sent| <= 1
            && (th.phase.Done? && th.phase.result.Data? && th.phase.delivered ==>
                  th.sent == [Response(200, th.phase.result.bytes)])
            && (th.phase.Done? && th.phase.result.Failed? ==> th.sent == [])
            && (th.phase.Done? && th.phase.result.Nothing? ==> (|th.sent| == 1 <==> th.led))
  {
    hide After, Feasible, Leadership, Provenance, Deduplicated, Counted, DeletesCovered, Spaced;
    InvariantHolds(c, steps);
    assert Responses(After(c, steps).threads[t]);
  }

  /** Some run for the key has ended with a response of the handler itself. */
  ghost predicate HandlerResponded(c: Config, steps: seq<Step>, k: string)
    requires Feasible(c, steps)
    decreases |steps|
  {
    steps != [] &&
    var front, last := steps[..|steps| - 1], steps[|steps| - 1];
    HandlerResponded(c, front, k) || (last.EndNothing? && Ours(After(c, front), last, k))
  }

  ghost function NotNil(): Expectation {
    (o: Outcome) => !o.Nothing?
  }

  lemma {:induction false} NotNilHolds(c: Config, steps: seq<Step>, k: string)
    requires Feasible(c, steps) && c.ttl(k) > 0 && !HandlerResponded(c, steps, k)
    ensures HandsOut(c, After(c, steps), k, NotNil(), {})
  {
    hide Apply, Leadership, Provenance, AllResponses, Deduplicated, Counted, DeletesCovered, Spaced, HandsOut;
    if steps == [] {
      NothingToHandOut(c, k);
    } else {
      var front := steps[..|steps| - 1];
      NotNilHolds(c, front, k);
      InvariantHolds(c, front);
      HandsOutKept(c, After(c, front), steps[|steps| - 1], k, NotNil(), {});
    }
  }

  lemma NothingToHandOut(c: Config, k: string)
    ensures HandsOut(c, Init(), k, NotNil(), {})
  {
  }

  /** As long as no run for the key has ended with a response of the handler itself, every call for the
      key that returns without an error, and whose send succeeds, has responded exactly once. */
  lemma EveryCallResponds(c: Config, steps: seq<Step>, t: Tid, result: Outcome, delivered: bool)
    requires Feasible(c, steps) && At(After(c, steps), t, Done(result, delivered))
    requires !result.Failed? && (result.Data? ==> delivered)
    requires !HandlerResponded(c, steps, KeyOf(After(c, steps), t))
    ensures result.Data? && After(c, steps).threads[t].sent == [Response(200, result.bytes)]
  {
    hide After, Feasible, HandlerResponded, HandsOut;
    var s := After(c, steps);
    IsCacheable(c, steps, t);
    NotNilHolds(c, steps, KeyOf(s, t));
    ReceivesAsExpected(c, s, KeyOf(s, t), NotNil(), {}, t, result);
    ResponsesAreSingle(c, steps, t);
  }

  lemma {:induction false} LinkHolds(c: Config, steps: seq<Step>)
    requires Feasible(c, steps)
    ensures Linked(After(c, steps))
  {
    hide Apply, Leadership, Provenance, AllResponses, Deduplicated, Counted, DeletesCovered, Spaced, Linked;
    if steps == [] {
      NothingToLink();
    } else {
      var front := steps[..|steps| - 1];
      LinkHolds(c, front);
      InvariantHolds(c, front);
      LinkedKept(c, After(c, front), steps[|steps| - 1]);
    }
  }

  lemma NothingToLink()
    ensures Linked(Init())
  {
  }

  /** A call that has returned without an error, and did not fail to send its bytes, has sent nothing
      exactly if it followed another call for its key into a flight that ended in nil bytes, and that
      call's sender got one response. */
  lemma SilenceHasALeader(c: Config, steps: seq<Step>, t: Tid, result: Outcome, delivered: bool)
    requires Feasible(c, steps) && At(After(c, steps), t, Done(result, delivered))
    requires !result.Failed? && (result.Data? ==> delivered)
    ensures var s := After(c, steps);
            s.threads[t].sent == [] <==>
            FollowedIntoNothing(s.threads[t]) &&
            exists l :: l != t && RespondedItself(s, l, KeyOf(s, t)) && |s.threads[l].sent| == 1
  {
    hide After, Feasible, Provenance, Linked;
    var s := After(c, steps);
    ResponsesAreSingle(c, steps, t);
    if FollowedIntoNothing(s.threads[t]) {
      LinkHolds(c, steps);
      var l := LinkOf(s, t);
      InvariantHolds(c, steps);
      ResponderResponded(c, s, l, KeyOf(s, t));
    }
  }

  lemma LinkOf(s: State, t: Tid) returns (l: Tid)
    requires Linked(s) && t in s.threads && FollowedIntoNothing(s.threads[t])
    ensures RespondedItself(s, l, KeyOf(s, t))
  {
    hide RespondedItself;
    l :| RespondedItself(s, l, KeyOf(s, t));
  }

  lemma ResponderResponded(c: Config, s: State, l: Tid, k: string)
    requires Invariant(c, s) && RespondedItself(s, l, k)
    ensures |s.threads[l].sent| == 1
  {
    hide Leadership, Deduplicated, Counted, DeletesCovered, Spaced, PhaseFrom, EntryFrom;
    assert ResultFrom(s, l) && Responses(s.threads[l]);
  }

  /** Whenever a call waits for a leader inside the handler, it can end up without a response: the handler
      responds by itself, on the leader's sender, the flight closes, and the follower returns nil. */
  lemma FollowerMayStaySilent(c: Config, steps: seq<Step>, t: Tid, l: Tid, response: Response, delivered: bool)
    requires Feasible(c, steps) && At(After(c, steps), t, Waiting(l))
    requires l in After(c, steps).threads && After(c, steps).threads[l].phase.Running?
    ensures var next := steps + [EndNothing(l, response)] + [Close(l)] + [Wake(t)] + [Send(t, delivered)];
            && Feasible(c, next)
            && l in After(c, next).threads && After(c, next).threads[l].sent == [response]
            && At(After(c, next), t, Done(Nothing, false)) && After(c, next).threads[t].sent == []
  {
    hide After, Feasible, Apply, Enabled;
    FlightEndsInNothing(c, steps, t, l, response);
    NilIsReturned(c, steps + [EndNothing(l, response)] + [Close(l)], t, l, delivered);
  }

  lemma FlightEndsInNothing(c: Config, steps: seq<Step>, t: Tid, l: Tid, response: Response)
    requires Feasible(c, steps) && At(After(c, steps), t, Waiting(l))
    requires l in After(c, steps).threads && After(c, steps).threads[l].phase.Running?
    ensures var next := steps + [EndNothing(l, response)] + [Close(l)];
            && Feasible(c, next)
            && var s := After(c, next);
               && l in s.threads && s.threads[l].sent == [response] && l in s.results && s.results[l] == Nothing
               && At(s, t, Waiting(l)) && s.threads[t].sent == []
  {
    hide NextLimiter, NextTallies, After, Feasible, Apply, NextStore, NextFlights, NextLog, Leadership, Provenance,
      Deduplicated, Counted, DeletesCovered, Spaced;
    InvariantHolds(c, steps);
    assert Responses(After(c, steps).threads[t]) && Responses(After(c, steps).threads[l]);
    Moves(c, steps, EndNothing(l, response));
    Moves(c, steps + [EndNothing(l, response)], Close(l));
  }

  lemma NilIsReturned(c: Config, steps: seq<Step>, t: Tid, l: Tid, delivered: bool)
    requires Feasible(c, steps) && At(After(c, steps), t, Waiting(l))
    requires l in After(c, steps).results && After(c, steps).results[l] == Nothing
    ensures var next := steps + [Wake(t)] + [Send(t, delivered)];
            && Feasible(c, next)
            && var s, s' := After(c, steps), After(c, next);
               && At(s', t, Done(Nothing, false)) && s'.threads[t].sent == s.threads[t].sent
               && forall u :: u in s.threads && u != t ==> u in s'.threads && s'.threads[u] == s.threads[u]
  {
    hide NextLimiter, NextTallies, After, Feasible, Apply, NextStore, NextFlights, NextLog;
    Moves(c, steps, Wake(t));
    Moves(c, steps + [Wake(t)], Send(t, delivered));
  }

  /** The first call for a key finds nothing. */
  lemma FirstCallMisses(c: Config, k: string) returns (steps: seq<Step>)
    requires c.ttl(k) > 0
    ensures Feasible(c, steps)
    ensures var s := After(c, steps);
            && At(s, 0, Joining) && s.threads[0] == Thread(Request(k, "", false), Joining, [], false) && 1 !in s.threads
            && s.flights == map[] && s.store == map[] && s.log == []
  {
    hide NextLimiter, NextTallies, After, Feasible, Apply, NextResults;
    steps := [];
    StartIsFeasible(c);
    Moves(c, steps, Spawn(0, Request(k, "", false)));
    steps := steps + [Spawn(0, Request(k, "", false))];
    Moves(c, steps, NoRefresh(0));
    steps := steps + [NoRefresh(0)];
    Moves(c, steps, Miss(0));
    steps := steps + [Miss(0)];
  }

  /** It leads a flight and is about to call the handler. */
  lemma FirstCallLeads(c: Config, k: string) returns (steps: seq<Step>)
    requires c.ttl(k) > 0
    ensures Feasible(c, steps)
    ensures var s := After(c, steps);
            && At(s, 0, Calling) && s.threads[0] == Thread(Request(k, "", false), Calling, [], true) && 1 !in s.threads
            && k in s.flights && s.flights[k] == 0 && s.store == map[] && s.log == []
  {
    hide NextLimiter, NextTallies, After, Feasible, Apply;
    steps := FirstCallMisses(c, k);
    Moves(c, steps, Lead(0));
    steps := steps + [Lead(0)];
    Moves(c, steps, RecheckMiss(0));
    steps := steps + [RecheckMiss(0)];
  }

  /** It is inside the handler. */
  lemma FirstCallRuns(c: Config, k: string) returns (steps: seq<Step>)
    requires c.ttl(k) > 0
    ensures Feasible(c, steps)
    ensures var s := After(c, steps);
            && At(s, 0, Running(0)) && s.threads[0] == Thread(Request(k, "", false), Running(0), [], true)
            && 1 !in s.threads
            && k in s.flights && s.flights[k] == 0 && s.store == map[]
  {
    hide NextLimiter, NextTallies, After, Feasible, Apply;
    steps := FirstCallLeads(c, k);
    Moves(c, steps, Start(0));
    steps := steps + [Start(0)];
  }

  lemma StartIsFeasible(c: Config)
    ensures Feasible(c, []) && After(c, []) == Init()
  {
  }

  /** A second call for the key waits for it. */
  lemma SecondCallWaits(c: Config, k: string) returns (steps: seq<Step>)
    requires c.ttl(k) > 0
    ensures Feasible(c, steps)
    ensures var s := After(c, steps);
            && At(s, 0, Running(0)) && s.threads[0] == Thread(Request(k, "", false), Running(0), [], true)
            && At(s, 1, Waiting(0)) && s.threads[1] == Thread(Request(k, "", false), Waiting(0), [], false)
  {
    hide NextLimiter, NextTallies, After, Feasible, Apply, NextLog, NextResults;
    steps := FirstCallRuns(c, k);
    Moves(c, steps, Spawn(1, Request(k, "", false)));
    steps := steps + [Spawn(1, Request(k, "", false))];
    Moves(c, steps, NoRefresh(1));
    steps := steps + [NoRefresh(1)];
    Moves(c, steps, Miss(1));
    steps := steps + [Miss(1)];
    Moves(c, steps, Join(1));
    steps := steps + [Join(1)];
  }

  /** Such a state is reached for every key and every response, so silence is. */
  lemma SilenceIsReachable(c: Config, k: string, response: Response) returns (steps: seq<Step>)
    requires c.ttl(k) > 0
    ensures Feasible(c, steps)
    ensures At(After(c, steps), 1, Done(Nothing, false)) && After(c, steps).threads[1].sent == []
  {
    hide After, Feasible;
    steps := SecondCallWaits(c, k);
    FollowerMayStaySilent(c, steps, 1, 0, response, true);
    steps := steps + [EndNothing(0, response)] + [Close(0)] + [Wake(1)] + [Send(1, true)];
  }

  // ----- whatever the handler does, the flight ends with it -----

  /** What a run of the handler can come to. */
  datatype Ending = Fails | Responds(response: Response) | Yields(bytes: Bytes)

  function EndStep(l: Tid, ending: Ending): Step {
    match ending
    case Fails => EndError(l)
    case Responds(response) => EndNothing(l, response)
    case Yields(bytes) => EndBytes(l, bytes)
  }

  function EndOutcome(ending: Ending, run: nat): Outcome {
    match ending
    case Fails => Failed
    case Responds(_) => Nothing
    case Yields(bytes) => Data(bytes, run)
  }

  /** The cache once the run has ended: only bytes that fit are kept, from now on. */
  function StoreAfter(c: Config, s: State, k: string, ending: Ending, run: nat): map<string, Entry> {
    if ending.Yields? && |ending.bytes| <= c.maxValueBytes then s.store[k := Entry(ending.bytes, run, s.now)]
    else s.store
  }

  lemma RunReturns(c: Config, steps: seq<Step>, l: Tid, run: nat, ending: Ending) returns (closing: seq<Step>)
    requires Feasible(c, steps) && At(After(c, steps), l, Running(run))
    ensures Feasible(c, closing)
    ensures var s, s' := After(c, steps), After(c, closing);
            && At(s', l, Closing(EndOutcome(ending, run)))
            && s'.threads == s.threads[l := s'.threads[l]] && s'.threads[l].request == s.threads[l].request
            && s'.store == StoreAfter(c, s, KeyOf(s, l), ending, run)
            && s'.results == s.results && s'.flights == s.flights
  {
    hide After, Feasible, Apply, NextLimiter, NextTallies, NextLog, NextSent;
    Moves(c, steps, EndStep(l, ending));
    closing := steps + [EndStep(l, ending)];
    if ending.Yields? {
      Moves(c, closing, Step.Store(l));
      closing := closing + [Step.Store(l)];
    }
  }

  lemma FlightCloses(c: Config, steps: seq<Step>, l: Tid, result: Outcome)
    requires Feasible(c, steps) && At(After(c, steps), l, Closing(result))
    ensures Feasible(c, steps + [Close(l)])
    ensures var s, s' := After(c, steps), After(c, steps + [Close(l)]);
            && At(s', l, Returned(result)) && s'.threads == s.threads[l := s'.threads[l]]
            && s'.store == s.store && s'.results == s.results[l := result] && s'.flights == s.flights - {KeyOf(s, l)}
  {
    hide After, Feasible, Apply, NextLimiter, NextTallies, NextLog, NextSent;
    Moves(c, steps, Close(l));
  }

  lemma WaiterWakes(c: Config, steps: seq<Step>, t: Tid, l: Tid, result: Outcome)
    requires Feasible(c, steps) && At(After(c, steps), t, Waiting(l))
    requires l in After(c, steps).results && After(c, steps).results[l] == result
    ensures Feasible(c, steps + [Wake(t)])
    ensures var s, s' := After(c, steps), After(c, steps + [Wake(t)]);
            At(s', t, Returned(result)) && s'.threads == s.threads[t := s'.threads[t]] && s'.store == s.store
  {
    hide After, Feasible, Apply, NextLimiter, NextTallies, NextLog, NextSent;
    Moves(c, steps, Wake(t));
  }

  /** From every reachable state with a waiter on a leader inside the handler, and for whatever the handler
      then does: the flight can close at once, leader and waiter return exactly that, an error or an own
      response leaves the cache as it was, and the next caller can lead. */
  lemma FlightEndsAsItsRun(c: Config, steps: seq<Step>, t: Tid, l: Tid, run: nat, ending: Ending)
    returns (next: seq<Step>)
    requires Feasible(c, steps) && At(After(c, steps), t, Waiting(l)) && At(After(c, steps), l, Running(run))
    ensures Feasible(c, next)
    ensures var s, s' := After(c, steps), After(c, next);
            && Received(s', l, EndOutcome(ending, run)) && Received(s', t, EndOutcome(ending, run))
            && s'.store == StoreAfter(c, s, KeyOf(s, l), ending, run) && KeyOf(s, l) !in s'.flights
  {
    hide After, Feasible, Apply, Enabled;
    var closing := RunReturns(c, steps, l, run, ending);
    FlightCloses(c, closing, l, EndOutcome(ending, run));
    WaiterWakes(c, closing + [Close(l)], t, l, EndOutcome(ending, run));
    next := closing + [Close(l)] + [Wake(t)];
    NobodyLeads(c, closing, t, l, EndOutcome(ending, run));
  }

  lemma NobodyLeads(c: Config, closing: seq<Step>, t: Tid, l: Tid, result: Outcome)
    requires Feasible(c, closing) && At(After(c, closing), l, Closing(result))
    requires Feasible(c, closing + [Close(l)]) && Feasible(c, closing + [Close(l)] + [Wake(t)])
    ensures KeyOf(After(c, closing), l) !in After(c, closing + [Close(l)] + [Wake(t)]).flights
  {
    hide After, Feasible, NextThread, NextStore, NextResults, NextLimiter, NextHonoured, NextLog, NextTallies, Enabled;
    LastStep(c, closing, [Close(l)]);
    LastStep(c, closing + [Close(l)], [Wake(t)]);
    assert closing + [] == closing && closing + [Close(l)] + [] == closing + [Close(l)];
  }

  /** What a lookup finds at time t was returned by a successful run for the same key and stored at a
      time u with u <= t <= u + ttl, within the size limit. */
  lemma LookupsAreBoundedlyStale(c: Config, steps: seq<Step>, t: Tid)
    requires Feasible(c, steps)
    requires Enabled(c, After(c, steps), Hit(t)) || Enabled(c, After(c, steps), RecheckHit(t))
    ensures var s := After(c, steps);
            var e := s.store[KeyOf(s, t)];
            && e.setAt <= s.now <= e.setAt + c.ttl(KeyOf(s, t))
            && FromRun(s.log, KeyOf(s, t), e.bytes, e.run)
            && |e.bytes| <= c.maxValueBytes
  {
    hide After, Feasible, Leadership, AllResponses, Deduplicated, Counted, DeletesCovered, Spaced;
    InvariantHolds(c, steps);
    assert EntryFrom(c, After(c, steps), KeyOf(After(c, steps), t));
  }

  /** The handler is a fixed function of the key. */
  ghost predicate Deterministic(c: Config, steps: seq<Step>, h: string -> Bytes)
    requires Feasible(c, steps)
    decreases |steps|
  {
    steps == [] ||
    var front, last := steps[..|steps| - 1], steps[|steps| - 1];
    && Deterministic(c, front, h)
    && (last.EndBytes? ==> last.bytes == h(KeyOf(After(c, front), last.t)))
  }

  ghost predicate LogOf(s: State, h: string -> Bytes) {
    forall r :: 0 <= r < |s.log| ==> s.log[r].bytes == [] || s.log[r].bytes == [h(s.log[r].key)]
  }

  lemma LogOfKept(c: Config, s: State, step: Step, h: string -> Bytes)
    requires Leadership(s) && Provenance(c, s) && Enabled(c, s, step) && LogOf(s, h)
    requires step.EndBytes? ==> step.bytes == h(KeyOf(s, step.t))
    ensures LogOf(Apply(c, s, step), h)
  {
    hide NextThread, NextStore, NextFlights, NextResults, NextLimiter, NextHonoured, NextTallies, Leadership;
    if step.EndBytes? {
      assert PhaseFrom(s.log, KeyOf(s, step.t), s.threads[step.t].phase);
    }
  }

  lemma {:induction false} LogOfHolds(c: Config, steps: seq<Step>, h: string -> Bytes)
    requires Feasible(c, steps) && Deterministic(c, steps, h)
    ensures LogOf(After(c, steps), h)
  {
    hide Apply, Invariant, LogOf;
    if steps == [] {
      assert LogOf(Init(), h) by { NothingLogged(h); }
    } else {
      var front := steps[..|steps| - 1];
      LogOfHolds(c, front, h);
      InvariantHolds(c, front);
      FromInvariant(c, After(c, front));
      LogOfKept(c, After(c, front), steps[|steps| - 1], h);
    }
  }

  lemma NothingLogged(h: string -> Bytes)
    ensures LogOf(Init(), h)
  {
  }

  lemma FromInvariant(c: Config, s: State)
    requires Invariant(c, s)
    ensures Leadership(s) && Provenance(c, s)
  {
  }

  /** Transparency under concurrency: a call that delivers bytes delivers what its own run of the
      handler would have returned. */
  lemma CachingIsTransparent(c: Config, steps: seq<Step>, h: string -> Bytes, t: Tid)
    requires Feasible(c, steps) && Deterministic(c, steps, h) && t in After(c, steps).threads
    ensures var s := After(c, steps);
            var th := s.threads[t];
            th.phase.Done? && th.phase.result.Data? && th.phase.delivered ==> th.sent == [Response(200, h(KeyOf(s, t)))]
  {
    hide After, Feasible, Deterministic, Invariant;
    InvariantHolds(c, steps);
    LogOfHolds(c, steps, h);
    ResponsesAreSingle(c, steps, t);
    var s := After(c, steps);
    if s.threads[t].phase.Done? && s.threads[t].phase.result.Data? {
      var result := s.threads[t].phase.result;
      assert Received(s, t, result);
      ReceivedFrom(c, s, t, result.bytes, result.run);
    }
  }
}
