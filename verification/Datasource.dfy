/** The response path of datasource.go, `handleSchemaResource`, one call at a time: refresh header,
    limiter, cache, handler, response. The handler is a fixed function of the call. */
module Datasource {
  import opened Text
  import opened Limiter
  import opened ByteCache

  datatype Response = Response(status: int, body: seq<Byte>)

  /** `malformed` is a body that `parseSchemaRequest` rejects; `key` is the storage key, absent when
      `KeyFromPluginContext` fails; `refresh` is a non-empty refresh header. */
  datatype Call = Call(endpoint: string, namespace: string, malformed: bool, key: Option<string>, refresh: bool)

  /** What `dispatch` does: fail, respond by itself (404, 501, failed schema validation) and yield nil
      bytes, or yield the marshaled response. */
  datatype Answer = HandlerError | Replied(response: Response) | Payload(bytes: seq<Byte>)

  /** What the caller observes: whether an error is returned, and the responses sent. */
  datatype Observed = Observed(failed: bool, sent: seq<Response>)

  /** The call without any cache. */
  function Direct(handler: Call -> Answer, call: Call): Observed {
    if call.malformed then Observed(true, [])
    else match handler(call)
      case HandlerError => Observed(true, [])
      case Replied(response) => Observed(false, [response])
      case Payload(bytes) => Observed(false, [Response(200, bytes)])
  }

  /** Calls that share a storage key have the same answer. */
  ghost predicate Coherent(handler: Call -> Answer) {
    forall a: Call, b: Call :: a.key.Some? && a.key == b.key ==> handler(a) == handler(b)
  }

  /** Every entry is what the handler would answer to any call with that key. */
  ghost predicate Faithful(handler: Call -> Answer, view: map<string, Cached>) {
    forall call: Call :: call.key.Some? && call.key.value in view ==>
      handler(call).Payload? && view[call.key.value].bytes == Some(handler(call).bytes)
  }

  class SchemaDatasource {
    const handler: Call -> Answer
    const ttlFor: string -> int
    const refreshEnabled: bool
    const cache: MemoryCache?
    const limiter: RefreshLimiter

    /** `maxValueBytes` of None disables caching. */
    constructor (handler: Call -> Answer, ttlFor: string -> int, refreshEnabled: bool, minInterval: int,
                 maxValueBytes: Option<nat>)
      requires Coherent(handler)
      ensures Valid() && this.handler == handler && fresh(limiter) && (cache != null ==> fresh(cache))
      ensures this.ttlFor == ttlFor && this.refreshEnabled == refreshEnabled
      ensures limiter.minInterval == minInterval && limiter.refreshLimiter == map[]
      ensures cache == null <==> maxValueBytes.None?
      ensures cache != null ==> cache.maxValueBytes == maxValueBytes.value && cache.View() == map[]
    {
      this.handler, this.ttlFor, this.refreshEnabled := handler, ttlFor, refreshEnabled;
      limiter := new RefreshLimiter(minInterval);
      if maxValueBytes.Some? {
        cache := new MemoryCache(maxValueBytes.value);
      } else {
        cache := null;
      }
    }

    ghost predicate Valid()
      reads if cache == null then {} else {cache} + cache.Owned()
    {
      Coherent(handler) && (cache != null ==> cache.Valid() && Faithful(handler, cache.View()))
    }

    /** The cache is asked: it exists, the endpoint has a ttl, and the key could be built. */
    ghost predicate UsesCache(call: Call) {
      !call.malformed && cache != null && ttlFor(call.endpoint) > 0 && call.key.Some?
    }

    /** The call asks for a refresh, and no refresh of its stream was honoured within the interval. */
    ghost predicate Honours(call: Call, now: int)
      reads limiter
    {
      && UsesCache(call) && refreshEnabled && call.refresh
      && var bucket := Bucket(call.namespace, call.endpoint);
         bucket in limiter.refreshLimiter ==>
           limiter.minInterval <= 0 || now - limiter.refreshLimiter[bucket] >= limiter.minInterval
    }

    /** The call finds an entry that it has not been told to delete. */
    ghost predicate Finds(call: Call, now: int)
      reads limiter, if cache == null then {} else {cache} + cache.Owned()
    {
      && UsesCache(call) && !Honours(call, now)
      && call.key.value in cache.View() && now <= cache.View()[call.key.value].expires
    }

    /** `dispatch`: the buffer or error it yields, and the response it has sent itself. */
    method Dispatch(call: Call) returns (fetched: Fetched, sent: seq<Response>)
      ensures match handler(call)
              case HandlerError => fetched.Failed? && sent == []
              case Replied(response) => fetched == Fetched(null) && sent == [response]
              case Payload(bytes) =>
                fetched.Fetched? && BytesOf(fetched.data) == Some(bytes) && fresh(fetched.data) && sent == []
    {
      match handler(call)
      case HandlerError => return Failed, [];
      case Replied(response) => return Fetched(null), [response];
      case Payload(bytes) =>
        var data := new Byte[|bytes|](i requires 0 <= i < |bytes| => bytes[i]);
        assert data[..] == bytes;
        return Fetched(data), [];
    }

    /** `handleSchemaResource`. The caller observes what it would observe without the cache, whatever
        calls came before, whatever the clock and the limiter say. */
    method HandleSchemaResource(call: Call, now: int, later: int) returns (observed: Observed)
      requires Valid() && now <= later
      modifies limiter, if cache == null then {} else {cache}
      ensures Valid() && (cache != null ==> fresh(cache.Owned() - old(cache.Owned())))
      ensures observed == Direct(handler, call)
      ensures if observed.failed then observed.sent == [] else |observed.sent| == 1
      ensures observed.failed <==> call.malformed || handler(call).HandlerError?
      ensures !observed.failed ==>
                observed.sent == [if handler(call).Payload? then Response(200, handler(call).bytes)
                                  else handler(call).response]
      ensures cache != null && (!UsesCache(call) || old(Finds(call, now))) ==> cache.View() == old(cache.View())
      ensures UsesCache(call) && !old(Finds(call, now)) ==>
                var k, answer := call.key.value, handler(call);
                cache.View() ==
                  if answer.Payload? && |answer.bytes| <= cache.maxValueBytes
                  then old(cache.View())[k := Cached(Some(answer.bytes), later + ttlFor(call.endpoint))]
                  else if old(Honours(call, now)) then old(cache.View()) - {k}
                  else old(cache.View())
      ensures limiter.refreshLimiter ==
              if old(Honours(call, now)) && limiter.minInterval > 0
              then old(limiter.refreshLimiter)[Bucket(call.namespace, call.endpoint) := now]
              else old(limiter.refreshLimiter)
    {
      if call.malformed {
        return Observed(true, []);
      }
      var cacheable := ttlFor(call.endpoint) > 0 && cache != null && call.key.Some?;
      if cacheable && refreshEnabled && call.refresh {
        Refresh(call, now);
      }
      var data, sent := Fetch(call, cacheable, now, later);
      if data.Err? || data.value == null {
        return Observed(data.Err?, sent);
      }
      return Observed(false, sent + [Response(200, data.value[..])]);
    }

    /** The branch on the refresh header. */
    method Refresh(call: Call, now: int)
      requires Valid() && UsesCache(call) && refreshEnabled && call.refresh
      modifies limiter, cache
      ensures Valid() && fresh(cache.Owned() - old(cache.Owned()))
      ensures cache.View() ==
              if old(Honours(call, now)) then old(cache.View()) - {call.key.value} else old(cache.View())
      ensures limiter.refreshLimiter ==
              if old(Honours(call, now)) && limiter.minInterval > 0
              then old(limiter.refreshLimiter)[Bucket(call.namespace, call.endpoint) := now]
              else old(limiter.refreshLimiter)
    {
      var allowed := limiter.AllowRefresh(call.namespace, call.endpoint, now);
      if allowed {
        cache.Delete(call.key.value);
      }
    }

    /** Through the cache or around it. Nil data means that the handler has responded by itself. */
    method Fetch(call: Call, cacheable: bool, now: int, later: int)
      returns (data: Result<Buffer, ()>, sent: seq<Response>)
      requires Valid() && now <= later
      requires cacheable ==> ttlFor(call.endpoint) > 0 && cache != null && call.key.Some?
      modifies if cache == null then {} else {cache}
      ensures Valid() && (cache != null ==> fresh(cache.Owned() - old(cache.Owned())))
      ensures match handler(call)
              case HandlerError => data.Err? && sent == []
              case Replied(response) => data == Ok(null) && sent == [response]
              case Payload(bytes) => data.Ok? && BytesOf(data.value) == Some(bytes) && sent == []
      ensures cache != null ==>
                cache.View() ==
                  if !cacheable || Live(old(cache.View()), call.key.value, now) then old(cache.View())
                  else Fills(old(cache.View()), call.key.value, ttlFor(call.endpoint), later, cache.maxValueBytes,
                             if handler(call).Payload? then Some(handler(call).bytes) else None)
    {
      // The answer of the handler, should it be asked.
      var fetched, responded := Dispatch(call);
      var called;
      if cacheable {
        ghost var view := cache.View();
        data, called := GetOrFetchBytes(cache, call.key.value, ttlFor(call.endpoint), now, later, fetched);
        StaysFaithful(handler, call, view, cache.View(), later + ttlFor(call.endpoint));
      } else {
        data, called := GetOrFetchBytes(null, "", 0, now, later, fetched);
      }
      sent := if called then responded else [];
    }

    /** Any run of calls. */
    method Serve(calls: seq<(Call, int, nat)>) returns (observed: seq<Observed>)
      requires Valid()
      modifies limiter, if cache == null then {} else {cache}
      ensures Valid() && |observed| == |calls|
      ensures forall i :: 0 <= i < |calls| ==> observed[i] == Direct(handler, calls[i].0)
    {
      observed := [];
      for i := 0 to |calls|
        invariant Valid() && |observed| == i
        invariant cache != null ==> fresh(cache.Owned() - old(cache.Owned()))
        invariant forall j :: 0 <= j < i ==> observed[j] == Direct(handler, calls[j].0)
      {
        var (call, now, handlerTime) := calls[i];
        var next := HandleSchemaResource(call, now, now + handlerTime);
        observed := observed + [next];
      }
    }
  }

  /** Storing the handler's own answer keeps the entries faithful. */
  lemma StaysFaithful(handler: Call -> Answer, call: Call, view: map<string, Cached>, view': map<string, Cached>,
                      expires: int)
    requires Coherent(handler) && Faithful(handler, view) && call.key.Some?
    requires || view' == view
             || (handler(call).Payload? && view' == view[call.key.value := Cached(Some(handler(call).bytes), expires)])
    ensures Faithful(handler, view')
  {
    forall other: Call | other.key.Some? && other.key.value in view'
      ensures handler(other).Payload? && view'[other.key.value].bytes == Some(handler(other).bytes)
    {
      if other.key.value == call.key.value {
        assert other.key == call.key;
      }
    }
  }
}
