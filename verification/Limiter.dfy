/** The refresh limiter: datasource.go, `allowRefresh`. One map serves every (namespace, endpoint)
    stream; each stream is decided as if it had a limiter of its own. */
module Limiter {
  import opened Text

  /** A refresh attempt, at the time `time.Now` returned under the lock. */
  datatype Attempt = Attempt(namespace: string, endpoint: string, now: int)

  function Bucket(namespace: string, endpoint: string): string {
    namespace + "|" + endpoint
  }

  /** A limiter for a single stream: the time of the last honoured refresh decides. */
  predicate Permits(minInterval: int, last: Option<int>, now: int) {
    minInterval <= 0 || last.None? || now - last.value >= minInterval
  }

  function LastOf(limiter: map<string, int>, bucket: string): Option<int> {
    if bucket in limiter then Some(limiter[bucket]) else None
  }

  class RefreshLimiter {
    const minInterval: int
    var refreshLimiter: map<string, int>

    constructor (minInterval: int)
      ensures this.minInterval == minInterval && refreshLimiter == map[]
    {
      this.minInterval := minInterval;
      refreshLimiter := map[];
    }

    /** `allowRefresh`: decides by the stream's own last honoured refresh, remembers this one if it is
        honoured and leaves every other stream, and a rejected stream, as they were. */
    method AllowRefresh(namespace: string, endpoint: string, now: int) returns (allowed: bool)
      modifies this
      ensures allowed == Permits(minInterval, LastOf(old(refreshLimiter), Bucket(namespace, endpoint)), now)
      ensures refreshLimiter == if allowed && minInterval > 0
                                then old(refreshLimiter)[Bucket(namespace, endpoint) := now]
                                else old(refreshLimiter)
    {
      if minInterval <= 0 {
        return true;
      }
      var bucket := Bucket(namespace, endpoint);
      if bucket in refreshLimiter {
        if now - refreshLimiter[bucket] < minInterval {
          return false;
        }
      }
      refreshLimiter := refreshLimiter[bucket := now];
      return true;
    }

    /** Any run of attempts from the present state. */
    method Serve(attempts: seq<Attempt>) returns (decisions: seq<bool>)
      modifies this
      ensures decisions == Shared(minInterval, old(refreshLimiter), attempts)
    {
      decisions := [];
      for i := 0 to |attempts|
        invariant decisions + Shared(minInterval, refreshLimiter, attempts[i..]) ==
                  Shared(minInterval, old(refreshLimiter), attempts)
      {
        var a := attempts[i];
        assert attempts[i..][1..] == attempts[i + 1..];
        var allowed := AllowRefresh(a.namespace, a.endpoint, a.now);
        decisions := decisions + [allowed];
      }
      assert attempts[|attempts|..] == [];
    }
  }

  function Remember(minInterval: int, limiter: map<string, int>, a: Attempt): map<string, int> {
    var bucket := Bucket(a.namespace, a.endpoint);
    if Permits(minInterval, LastOf(limiter, bucket), a.now) && minInterval > 0 then limiter[bucket := a.now]
    else limiter
  }

  function Shared(minInterval: int, limiter: map<string, int>, attempts: seq<Attempt>): (decisions: seq<bool>)
    ensures |decisions| == |attempts|
    decreases |attempts|
  {
    if attempts == [] then []
    else
      var a := attempts[0];
      [Permits(minInterval, LastOf(limiter, Bucket(a.namespace, a.endpoint)), a.now)]
      + Shared(minInterval, Remember(minInterval, limiter, a), attempts[1..])
  }

  /** A stream's private limiter on the times of its attempts. */
  function Private(minInterval: int, last: Option<int>, times: seq<int>): (decisions: seq<bool>)
    ensures |decisions| == |times|
    decreases |times|
  {
    if times == [] then []
    else
      var allowed := Permits(minInterval, last, times[0]);
      [allowed] + Private(minInterval, if allowed && minInterval > 0 then Some(times[0]) else last, times[1..])
  }

  predicate Of(a: Attempt, namespace: string, endpoint: string) {
    a.namespace == namespace && a.endpoint == endpoint
  }

  function TimesOf(attempts: seq<Attempt>, namespace: string, endpoint: string): seq<int> {
    if attempts == [] then []
    else (if Of(attempts[0], namespace, endpoint) then [attempts[0].now] else [])
         + TimesOf(attempts[1..], namespace, endpoint)
  }

  function DecisionsOf(attempts: seq<Attempt>, decisions: seq<bool>, namespace: string, endpoint: string): seq<bool>
    requires |attempts| == |decisions|
  {
    if attempts == [] then []
    else (if Of(attempts[0], namespace, endpoint) then [decisions[0]] else [])
         + DecisionsOf(attempts[1..], decisions[1..], namespace, endpoint)
  }

  /** The bucket names the stream: the endpoint is what follows the last bar. Refreshes are honoured
      only on the known endpoints, none of which contains a bar. */
  lemma BucketIsInjective(ns: string, ep: string, ns': string, ep': string)
    requires '|' !in ep && '|' !in ep'
    ensures Bucket(ns, ep) == Bucket(ns', ep') <==> ns == ns' && ep == ep'
  {
    var b, b' := Bucket(ns, ep), Bucket(ns', ep');
    if b == b' {
      assert b[|ns|] == '|' && b'[|ns'|] == '|';
      assert forall i :: |ns| < i < |b| ==> b[i] == ep[i - |ns| - 1];
      assert forall i :: |ns'| < i < |b'| ==> b'[i] == ep'[i - |ns'| - 1];
      assert |ns| == |ns'|;
      assert ns == b[..|ns|] && ns' == b'[..|ns'|];
      assert ep == b[|ns| + 1..] && ep' == b'[|ns'| + 1..];
    }
  }

  /** The shared limiter decides every stream exactly as its private limiter would. */
  lemma {:induction false} SharedRefinesPrivate(minInterval: int, limiter: map<string, int>, attempts: seq<Attempt>,
                                                namespace: string, endpoint: string)
    requires '|' !in endpoint && forall a :: a in attempts ==> '|' !in a.endpoint
    ensures DecisionsOf(attempts, Shared(minInterval, limiter, attempts), namespace, endpoint) ==
            Private(minInterval, LastOf(limiter, Bucket(namespace, endpoint)), TimesOf(attempts, namespace, endpoint))
    decreases |attempts|
  {
    if attempts != [] {
      var a, rest := attempts[0], attempts[1..];
      var limiter' := Remember(minInterval, limiter, a);
      BucketIsInjective(a.namespace, a.endpoint, namespace, endpoint);
      SharedRefinesPrivate(minInterval, limiter', rest, namespace, endpoint);
      assert Shared(minInterval, limiter, attempts)[1..] == Shared(minInterval, limiter', rest);
      var times := TimesOf(attempts, namespace, endpoint);
      if Of(a, namespace, endpoint) {
        assert times[1..] == TimesOf(rest, namespace, endpoint);
      } else {
        assert times == TimesOf(rest, namespace, endpoint);
      }
    }
  }

  ghost predicate NonDecreasing(times: seq<int>) {
    forall i, j :: 0 <= i < j < |times| ==> times[i] <= times[j]
  }

  /** The rule of a stream, without any state: an attempt is honoured exactly when every honoured
      attempt before it is at least the interval away. So honoured refreshes are spaced, and a
      rejected attempt delays nothing. */
  ghost predicate Rule(minInterval: int, times: seq<int>, decisions: seq<bool>) {
    && |times| == |decisions|
    && forall i :: 0 <= i < |times| ==>
         (decisions[i] <==> forall j :: 0 <= j < i && decisions[j] ==> times[i] - times[j] >= minInterval)
  }

  /** The time of the last honoured attempt before the n-th. */
  function LastHonoured(times: seq<int>, decisions: seq<bool>, n: nat): Option<int>
    requires n <= |times| == |decisions|
  {
    if n == 0 then None
    else if decisions[n - 1] then Some(times[n - 1])
    else LastHonoured(times, decisions, n - 1)
  }

  function OrElse(a: Option<int>, b: Option<int>): Option<int> {
    if a.Some? then a else b
  }

  lemma {:induction false} LastHonouredOfTail(times: seq<int>, decisions: seq<bool>, n: nat)
    requires 0 < n <= |times| == |decisions|
    ensures LastHonoured(times, decisions, n) ==
            OrElse(LastHonoured(times[1..], decisions[1..], n - 1), if decisions[0] then Some(times[0]) else None)
  {
    if n > 1 {
      assert times[1..][n - 2] == times[n - 1] && decisions[1..][n - 2] == decisions[n - 1];
      if !decisions[n - 1] {
        LastHonouredOfTail(times, decisions, n - 1);
      }
    }
  }

  lemma {:induction false} PrivateRemembersTheLast(minInterval: int, last: Option<int>, times: seq<int>, i: nat)
    requires i < |times|
    ensures var d := Private(minInterval, last, times);
            d[i] == Permits(minInterval, OrElse(LastHonoured(times, d, i), last), times[i])
    decreases |times|
  {
    if i > 0 {
      var d := Private(minInterval, last, times);
      var last' := if d[0] && minInterval > 0 then Some(times[0]) else last;
      assert d[1..] == Private(minInterval, last', times[1..]);
      PrivateRemembersTheLast(minInterval, last', times[1..], i - 1);
      LastHonouredOfTail(times, d, i);
    }
  }

  lemma {:induction false} LastIsTheLatest(minInterval: int, times: seq<int>, decisions: seq<bool>, n: nat, now: int)
    requires n <= |times| == |decisions| && NonDecreasing(times)
    requires forall j :: 0 <= j < n ==> times[j] <= now
    ensures Permits(minInterval, LastHonoured(times, decisions, n), now) <==>
            forall j :: 0 <= j < n && decisions[j] ==> now - times[j] >= minInterval
  {
    if n > 0 && !decisions[n - 1] {
      LastIsTheLatest(minInterval, times, decisions, n - 1, now);
    }
  }

  lemma PrivateFollowsTheRule(minInterval: int, times: seq<int>)
    requires NonDecreasing(times)
    ensures Rule(minInterval, times, Private(minInterval, None, times))
  {
    var d := Private(minInterval, None, times);
    forall i | 0 <= i < |times|
      ensures d[i] <==> forall j :: 0 <= j < i && d[j] ==> times[i] - times[j] >= minInterval
    {
      PrivateRemembersTheLast(minInterval, None, times, i);
      LastIsTheLatest(minInterval, times, d, i, times[i]);
    }
  }

  /** What a fresh limiter decides for a stream, in terms of the attempts alone. */
  lemma StreamsFollowTheRule(minInterval: int, attempts: seq<Attempt>, namespace: string, endpoint: string)
    requires '|' !in endpoint && forall a :: a in attempts ==> '|' !in a.endpoint
    requires NonDecreasing(TimesOf(attempts, namespace, endpoint))
    ensures Rule(minInterval, TimesOf(attempts, namespace, endpoint),
                 DecisionsOf(attempts, Shared(minInterval, map[], attempts), namespace, endpoint))
  {
    SharedRefinesPrivate(minInterval, map[], attempts, namespace, endpoint);
    PrivateFollowsTheRule(minInterval, TimesOf(attempts, namespace, endpoint));
  }
}
