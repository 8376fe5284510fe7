/** The sequential byte cache: cache/memory.go, `MemoryCache`, with its buffers as arrays on the heap.
    go-cache keeps an entry until it is replaced or deleted and finds it while now <= expiry. */
module ByteCache {
  import opened Text

  type Byte = bv8
  type Buffer = array?<Byte>

  /** A stored entry. The buffer is nil if a nil slice was stored. */
  datatype Item = Item(data: Buffer, expires: int)

  /** The same without identity: what a reader can learn. */
  datatype Cached = Cached(bytes: Option<seq<Byte>>, expires: int)

  ghost function BytesOf(b: Buffer): Option<seq<Byte>>
    reads b
  {
    if b == null then None else Some(b[..])
  }

  predicate Live(view: map<string, Cached>, key: string, now: int) {
    key in view && now <= view[key].expires
  }

  method CloneBytes(b: Buffer) returns (out: Buffer)
    ensures BytesOf(out) == BytesOf(b)
    ensures out != null ==> fresh(out)
  {
    if b == null {
      return null;
    }
    var copy := new Byte[b.Length](_ => 0);
    for i := 0 to b.Length
      invariant copy[..i] == b[..i]
    {
      copy[i] := b[i];
    }
    assert copy[..] == copy[..b.Length] == b[..b.Length] == b[..];
    return copy;
  }

  class MemoryCache {
    const maxValueBytes: nat
    var store: map<string, Item>
    /** Every buffer that a caller has handed in or has been handed. */
    ghost var outside: set<object>

    constructor (maxValueBytes: nat)
      ensures this.maxValueBytes == maxValueBytes && store == map[] && outside == {} && Valid()
    {
      this.maxValueBytes := maxValueBytes;
      store := map[];
      outside := {};
    }

    ghost function Owned(): set<object>
      reads this
    {
      set k | k in store && store[k].data != null :: store[k].data
    }

    /** No buffer is both stored and in a caller's hands. */
    ghost predicate Valid()
      reads this
    {
      Owned() !! outside
    }

    ghost function View(): map<string, Cached>
      reads this, Owned()
    {
      map k | k in store :: Cached(BytesOf(store[k].data), store[k].expires)
    }

    /** `Get`: a fresh copy of a live entry. */
    method Get(key: string, now: int) returns (b: Buffer, ok: bool)
      requires Valid()
      modifies this`outside
      ensures Valid() && outside == old(outside) + (if b == null then {} else {b})
      ensures ok == Live(View(), key, now)
      ensures BytesOf(b) == if ok then View()[key].bytes else None
      ensures b != null ==> fresh(b)
    {
      if key !in store || now > store[key].expires {
        return null, false;
      }
      b := CloneBytes(store[key].data);
      ok := true;
      if b != null {
        outside := outside + {b};
      }
    }

    /** `Set`: stores a fresh copy, unless the ttl is not positive or the value too large. A caller
        cannot hold a stored buffer, see Valid. */
    method Set(key: string, value: Buffer, ttl: int, now: int)
      requires Valid() && (value != null ==> value !in Owned())
      modifies this
      ensures Valid() && outside == old(outside) + (if value == null then {} else {value})
      ensures fresh(Owned() - old(Owned()))
      ensures View() == if ttl > 0 && (value == null || value.Length <= maxValueBytes)
                        then old(View())[key := Cached(BytesOf(value), now + ttl)] else old(View())
    {
      if value != null {
        outside := outside + {value};
      }
      if ttl <= 0 || (value != null && value.Length > maxValueBytes) {
        return;
      }
      var copy := CloneBytes(value);
      store := store[key := Item(copy, now + ttl)];
    }

    /** A copy for a caller. */
    method CopyOut(b: Buffer) returns (copy: Buffer)
      requires Valid()
      modifies this`outside
      ensures Valid() && outside == old(outside) + (if copy == null then {} else {copy})
      ensures BytesOf(copy) == BytesOf(b) && (copy != null ==> fresh(copy))
    {
      copy := CloneBytes(b);
      if copy != null {
        outside := outside + {copy};
      }
    }

    method Delete(key: string)
      requires Valid()
      modifies this
      ensures Valid() && outside == old(outside) && Owned() <= old(Owned())
      ensures View() == old(View()) - {key}
    {
      store := store - {key};
    }
  }

  /** What the fetch callback yields: an error, or a possibly nil buffer of its own. */
  datatype Fetched = Failed | Fetched(data: Buffer)

  /** The bytes in the answer, if any. */
  ghost function AnswerOf(fetched: Fetched): Option<seq<Byte>>
    reads if fetched.Fetched? then fetched.data else null
  {
    if fetched.Failed? then None else BytesOf(fetched.data)
  }

  /** What a flight that ended with this answer leaves in the cache. */
  function Fills(view: map<string, Cached>, key: string, ttl: int, later: int, max: nat, answer: Option<seq<Byte>>)
    : map<string, Cached>
  {
    if answer.Some? && |answer.value| <= max then view[key := Cached(answer, later + ttl)] else view
  }

  /** `GetOrFetchBytes` by a single caller: the lookup at `now`, the handler returning at `later`. */
  method GetOrFetchBytes(c: MemoryCache?, key: string, ttl: int, now: int, later: int, fetched: Fetched)
    returns (r: Result<Buffer, ()>, called: bool)
    requires now <= later
    requires c != null ==> c.Valid()
    requires c != null && fetched.Fetched? && fetched.data != null ==> fetched.data !in c.Owned()
    modifies if c == null then {} else {c}
    ensures c != null ==> c.Valid() && c.outside >= old(c.outside) && fresh(c.Owned() - old(c.Owned()))
    ensures c == null || ttl <= 0 ==> called && r == (if fetched.Failed? then Err(()) else Ok(fetched.data))
    ensures c != null && ttl > 0 ==>
              && called == !Live(old(c.View()), key, now)
              && (!called ==> r.Ok? && BytesOf(r.value) == old(c.View())[key].bytes)
              && (called ==>
                  (if fetched.Failed? then r == Err(()) else r.Ok? && BytesOf(r.value) == BytesOf(fetched.data)))
              && (r.Ok? && r.value != null ==> fresh(r.value) && r.value in c.outside)
    ensures c != null ==>
              c.View() == if ttl > 0 && called
                          then Fills(old(c.View()), key, ttl, later, c.maxValueBytes, AnswerOf(fetched))
                          else old(c.View())
  {
    if c == null || ttl <= 0 {
      return if fetched.Failed? then Err(()) else Ok(fetched.data), true;
    }
    var b, ok := c.Get(key, now);
    if ok {
      return Ok(b), false;
    }
    var raw := Lead(c, key, ttl, now, later, fetched);
    if raw.Err? {
      return raw, true;
    }
    var copy := c.CopyOut(raw.value);
    return Ok(copy), true;
  }

  /** The function that the leader of a flight runs. */
  method Lead(c: MemoryCache, key: string, ttl: int, now: int, later: int, fetched: Fetched)
    returns (raw: Result<Buffer, ()>)
    requires now <= later && ttl > 0
    requires c.Valid() && !Live(c.View(), key, now)
    requires fetched.Fetched? && fetched.data != null ==> fetched.data !in c.Owned()
    modifies c
    ensures c.Valid() && c.outside >= old(c.outside) && fresh(c.Owned() - old(c.Owned()))
    ensures if fetched.Failed? then raw == Err(()) else raw.Ok? && BytesOf(raw.value) == BytesOf(fetched.data)
    ensures raw.Ok? && raw.value != null ==> fresh(raw.value) && raw.value !in c.Owned()
    ensures c.View() == Fills(old(c.View()), key, ttl, later, c.maxValueBytes, AnswerOf(fetched))
  {
    // The second lookup cannot succeed when nobody else writes in between.
    var again, found := c.Get(key, now);
    assert !found;
    if fetched.Failed? {
      return Err(());
    }
    if fetched.data == null {
      return Ok(null);
    }
    c.Set(key, fetched.data, ttl, later);
    var copy := CloneBytes(fetched.data);
    return Ok(copy);
  }

  /** Buffers for several callers: nobody else has them, and they are pairwise different. */
  ghost predicate AreOwn(c: MemoryCache, copies: seq<Buffer>)
    reads c
  {
    && (forall i :: 0 <= i < |copies| && copies[i] != null ==> copies[i] in c.outside)
    && (forall i, j :: 0 <= i < j < |copies| && copies[i] != null ==> copies[i] != copies[j])
  }

  /** The callers that share a flight each return a copy of its result of their own. */
  method HandOut(c: MemoryCache, raw: Buffer, callers: nat) returns (copies: seq<Buffer>)
    requires c.Valid()
    modifies c`outside
    ensures c.Valid() && c.outside >= old(c.outside) && AreOwn(c, copies)
    ensures |copies| == callers && forall i :: 0 <= i < callers ==> BytesOf(copies[i]) == BytesOf(raw)
    ensures forall i :: 0 <= i < callers && copies[i] != null ==> fresh(copies[i])
  {
    copies := [];
    for n := 0 to callers
      invariant c.Valid() && c.outside >= old(c.outside) && AreOwn(c, copies)
      invariant |copies| == n && forall i :: 0 <= i < n ==> BytesOf(copies[i]) == BytesOf(raw)
      invariant forall i :: 0 <= i < n && copies[i] != null ==> fresh(copies[i])
    {
      var copy := c.CopyOut(raw);
      copies := copies + [copy];
    }
  }

  /** `GetOrFetchBytes` by several callers whose lookups at `now` all missed: one of them leads the
      flight, and whatever it ends with is handed to all. */
  method ShareFlight(c: MemoryCache, key: string, ttl: int, now: int, later: int, fetched: Fetched, callers: nat)
    returns (r: Result<seq<Buffer>, ()>)
    requires now <= later && ttl > 0
    requires c.Valid() && !Live(c.View(), key, now)
    requires fetched.Fetched? && fetched.data != null ==> fetched.data !in c.Owned()
    modifies c
    ensures c.Valid() && c.outside >= old(c.outside) && fresh(c.Owned() - old(c.Owned()))
    ensures if fetched.Failed? then r == Err(()) else
              && r.Ok? && |r.value| == callers && AreOwn(c, r.value)
              && forall i :: 0 <= i < callers ==>
                   BytesOf(r.value[i]) == BytesOf(fetched.data) && (r.value[i] != null ==> fresh(r.value[i]))
    ensures c.View() == Fills(old(c.View()), key, ttl, later, c.maxValueBytes, AnswerOf(fetched))
  {
    var raw := Lead(c, key, ttl, now, later, fetched);
    if raw.Err? {
      return Err(());
    }
    var copies := HandOut(c, raw.value, callers);
    return Ok(copies);
  }

  // ----- how long an entry answers -----

  /** A stored value is found up to and including the end of its ttl, and no longer. */
  method SetThenGet(c: MemoryCache, key: string, value: Buffer, ttl: int, now: int, at: int)
    returns (b: Buffer, ok: bool)
    requires c.Valid() && (value != null ==> value !in c.Owned())
    requires ttl > 0 && (value != null ==> value.Length <= c.maxValueBytes)
    modifies c
    ensures c.Valid() && (ok <==> at <= now + ttl) && BytesOf(b) == if ok then BytesOf(value) else None
    ensures b != null ==> fresh(b)
  {
    c.Set(key, value, ttl, now);
    ghost var view := c.View();
    assert view[key] == Cached(old(BytesOf(value)), now + ttl);
    b, ok := c.Get(key, at);
    assert view == c.View();
  }

  /** Two fetches of a key, the first of which finds nothing and gets bytes that fit. Until their ttl has
      passed the second is answered with the same bytes and does not ask its handler; after that it does. */
  method FetchTwice(c: MemoryCache, key: string, ttl: int, now: int, later: int, data: array<Byte>,
                    now': int, later': int, fetched': Fetched)
    returns (first: Result<Buffer, ()>, second: Result<Buffer, ()>, called': bool)
    requires c.Valid() && ttl > 0 && now <= later <= now' <= later'
    requires key in c.View() ==> c.View()[key].expires < now
    requires data !in c.Owned() && data.Length <= c.maxValueBytes
    requires fetched'.Fetched? && fetched'.data != null ==> fetched'.data !in c.Owned()
    modifies c
    ensures c.Valid() && first.Ok? && BytesOf(first.value) == Some(data[..])
    ensures called' <==> now' > later + ttl
    ensures !called' ==> second.Ok? && BytesOf(second.value) == Some(data[..]) && second.value != first.value
    ensures called' && fetched'.Fetched? ==> second.Ok? && BytesOf(second.value) == BytesOf(fetched'.data)
    ensures called' && fetched'.Failed? ==> second.Err?
  {
    var called;
    first, called := GetOrFetchBytes(c, key, ttl, now, later, Fetched(data));
    assert called && c.View()[key] == Cached(Some(data[..]), later + ttl);
    second, called' := GetOrFetchBytes(c, key, ttl, now', later', fetched');
  }

  /** Errors, nil bytes and bytes over the limit are never kept. */
  method FetchWithoutKeeping(c: MemoryCache, key: string, ttl: int, now: int, later: int, fetched: Fetched)
    returns (r: Result<Buffer, ()>)
    requires c.Valid() && now <= later
    requires fetched.Failed? || fetched.data == null || fetched.data.Length > c.maxValueBytes
    requires fetched.Fetched? && fetched.data != null ==> fetched.data !in c.Owned()
    modifies c
    ensures c.Valid() && c.View() == old(c.View())
  {
    var called;
    r, called := GetOrFetchBytes(c, key, ttl, now, later, fetched);
  }

  // ----- isolation over whole runs -----

  /** The plugin holds buffers, numbered in the order it got them. It stores one, reads a key into a new
      one, drops a key, or overwrites a byte of one. In a fetch the handler answers with one of them, or
      with nil, after a while; in a shared one several callers that missed wait for the answer. */
  datatype Op =
    | Store(key: string, buffer: nat, ttl: int, now: int)
    | Load(key: string, now: int)
    | Drop(key: string)
    | Fetch(key: string, answer: Option<nat>, ttl: int, now: int, wait: nat)
    | Share(key: string, answer: Option<nat>, ttl: int, now: int, wait: nat, callers: nat)
    | Overwrite(buffer: nat, at: nat, byte: Byte)

  /** The caller and the cache if no memory were shared: stored values are values. */
  datatype Apart = Apart(view: map<string, Cached>, held: seq<seq<Byte>>)

  /** A value for each caller, unless it is nil. */
  function Repeat(bytes: Option<seq<Byte>>, callers: nat): seq<seq<Byte>> {
    if bytes.None? then [] else seq(callers, _ => bytes.value)
  }

  function ValueOf(m: Apart, answer: Option<nat>): Option<seq<Byte>> {
    if answer.Some? && answer.value < |m.held| then Some(m.held[answer.value]) else None
  }

  function Answers(max: nat, m: Apart, key: string, answer: Option<nat>, ttl: int, later: int, callers: nat): Apart {
    var bytes := ValueOf(m, answer);
    Apart(Fills(m.view, key, ttl, later, max, bytes), m.held + Repeat(bytes, callers))
  }

  function Separately(max: nat, m: Apart, op: Op): Apart {
    match op
    case Store(key, b, ttl, now) =>
      if b < |m.held| && ttl > 0 && |m.held[b]| <= max
      then m.(view := m.view[key := Cached(Some(m.held[b]), now + ttl)]) else m
    case Load(key, now) =>
      if Live(m.view, key, now) then m.(held := m.held + Repeat(m.view[key].bytes, 1)) else m
    case Drop(key) => m.(view := m.view - {key})
    case Fetch(key, answer, ttl, now, wait) =>
      if ttl <= 0 then m
      else if Live(m.view, key, now) then m.(held := m.held + Repeat(m.view[key].bytes, 1))
      else Answers(max, m, key, answer, ttl, now + wait, 1)
    case Share(key, answer, ttl, now, wait, callers) =>
      if ttl <= 0 || Live(m.view, key, now) then m else Answers(max, m, key, answer, ttl, now + wait, callers)
    case Overwrite(b, at, byte) =>
      if b < |m.held| && at < |m.held[b]| then m.(held := m.held[b := m.held[b][at := byte]]) else m
  }

  function AllSeparately(max: nat, m: Apart, ops: seq<Op>): Apart
    decreases |ops|
  {
    if ops == [] then m else AllSeparately(max, Separately(max, m, ops[0]), ops[1..])
  }

  /** What isolation comes to: a plugin stores a buffer, overwrites it, reads the key, overwrites what it read
      and reads again. Within the ttl both reads give the bytes as they were stored; once the key is
      dropped, or the ttl has passed, a read gives nothing. */
  lemma OverwritingChangesNothing(max: nat, m: Apart, key: string, b: nat, ttl: int, now: int, at: int, i: nat,
                                  byte: Byte)
    requires b < |m.held| && i < |m.held[b]| <= max && ttl > 0
    ensures var stored := Separately(max, Separately(max, m, Store(key, b, ttl, now)), Overwrite(b, i, byte));
            var read := Separately(max, stored, Load(key, at));
            var again := Separately(max, Separately(max, read, Overwrite(|m.held|, i, byte)), Load(key, at));
            var dropped := Separately(max, Separately(max, read, Drop(key)), Load(key, at));
            && stored.held == m.held[b := m.held[b][i := byte]]
            && read.held == stored.held + (if at <= now + ttl then [m.held[b]] else [])
            && again.held == read.held[..|m.held|] +
                             (if at <= now + ttl then [m.held[b][i := byte], m.held[b]] else [])
            && dropped.held == read.held
  {
  }

  /** And for a fetch: the plugin may overwrite what the handler answered with and what the callers got; the
      next fetch within the ttl gives the answer as it was. */
  lemma AnswersAreKeptApart(max: nat, m: Apart, key: string, b: nat, ttl: int, now: int, wait: nat, at: int, i: nat,
                            byte: Byte, other: Option<nat>, callers: nat)
    requires b < |m.held| && i < |m.held[b]| <= max && ttl > 0 && !Live(m.view, key, now)
    ensures var one := Separately(max, m, Fetch(key, Some(b), ttl, now, wait));
            var all := Separately(max, m, Share(key, Some(b), ttl, now, wait, callers));
            var spoilt := Separately(max, Separately(max, one, Overwrite(b, i, byte)), Overwrite(|m.held|, i, byte));
            && one.held == m.held + [m.held[b]]
            && all.view == one.view && all.held == m.held + seq(callers, _ => m.held[b])
            && (at <= now + wait + ttl ==>
                  Separately(max, spoilt, Fetch(key, other, ttl, at, 0)).held == spoilt.held + [m.held[b]])
  {
  }

  /** The caller's buffers are distinct, outside the cache, and hold what the separate model says. */
  ghost predicate Holds(c: MemoryCache, held: seq<array<Byte>>, m: Apart)
    reads c, c.Owned(), held
  {
    && c.Valid()
    && c.View() == m.view
    && |held| == |m.held|
    && (forall i :: 0 <= i < |held| ==> held[i] in c.outside && held[i][..] == m.held[i])
    && (forall i, j :: 0 <= i < j < |held| ==> held[i] != held[j])
  }

  method Step(c: MemoryCache, held: seq<array<Byte>>, op: Op, ghost m: Apart) returns (held': seq<array<Byte>>)
    requires Holds(c, held, m)
    modifies c, held
    ensures Holds(c, held', Separately(c.maxValueBytes, m, op))
    ensures forall i :: 0 <= i < |held'| ==> held'[i] in held || fresh(held'[i])
  {
    match op
    case Store(key, b, ttl, now) =>
      if b < |held| {
        c.Set(key, held[b], ttl, now);
      }
      held' := held;
    case Load(key, now) =>
      var copy, ok := c.Get(key, now);
      held' := if copy == null then held else held + [copy];
    case Drop(key) =>
      c.Delete(key);
      held' := held;
    case Fetch(key, answer, ttl, now, wait) =>
      held' := FetchStep(c, held, key, answer, ttl, now, wait, m);
    case Share(key, answer, ttl, now, wait, callers) =>
      held' := ShareStep(c, held, key, answer, ttl, now, wait, callers, m);
    case Overwrite(b, at, byte) =>
      if b < |held| && at < held[b].Length {
        held[b][at] := byte;
      }
      held' := held;
  }

  method FetchStep(c: MemoryCache, held: seq<array<Byte>>, key: string, answer: Option<nat>, ttl: int, now: int,
                   wait: nat, ghost m: Apart) returns (held': seq<array<Byte>>)
    requires Holds(c, held, m)
    modifies c
    ensures Holds(c, held', Separately(c.maxValueBytes, m, Fetch(key, answer, ttl, now, wait)))
    ensures forall i :: 0 <= i < |held'| ==> held'[i] in held || fresh(held'[i])
  {
    var data: Buffer := if answer.Some? && answer.value < |held| then held[answer.value] else null;
    var r, called := GetOrFetchBytes(c, key, ttl, now, now + wait, Fetched(data));
    held' := if ttl <= 0 || r.value == null then held else held + [r.value];
  }

  method ShareStep(c: MemoryCache, held: seq<array<Byte>>, key: string, answer: Option<nat>, ttl: int, now: int,
                   wait: nat, callers: nat, ghost m: Apart) returns (held': seq<array<Byte>>)
    requires Holds(c, held, m)
    modifies c
    ensures Holds(c, held', Separately(c.maxValueBytes, m, Share(key, answer, ttl, now, wait, callers)))
    ensures forall i :: 0 <= i < |held'| ==> held'[i] in held || fresh(held'[i])
  {
    if ttl <= 0 || (key in c.store && now <= c.store[key].expires) {
      return held;
    }
    var data: Buffer := if answer.Some? && answer.value < |held| then held[answer.value] else null;
    var r := ShareFlight(c, key, ttl, now, now + wait, Fetched(data), callers);
    if data == null {
      return held;
    }
    held' := held + seq(callers, i requires 0 <= i < callers => r.value[i]);
  }

  /** Whatever a caller stores, reads and overwrites, it and the cache end as if they shared no memory:
      overwriting a buffer that was stored or read never changes what a later read returns. */
  method Drive(c: MemoryCache, held: seq<array<Byte>>, ops: seq<Op>, ghost m: Apart) returns (held': seq<array<Byte>>)
    requires Holds(c, held, m)
    modifies c, held
    ensures Holds(c, held', AllSeparately(c.maxValueBytes, m, ops))
  {
    held' := held;
    ghost var now := m;
    for i := 0 to |ops|
      invariant Holds(c, held', now)
      invariant AllSeparately(c.maxValueBytes, now, ops[i..]) == AllSeparately(c.maxValueBytes, m, ops)
      invariant forall j :: 0 <= j < |held'| ==> held'[j] in held || fresh(held'[j])
    {
      assert ops[i..][1..] == ops[i + 1..];
      held' := Step(c, held', ops[i], now);
      now := Separately(c.maxValueBytes, now, ops[i]);
    }
    assert ops[|ops|..] == [];
  }
}
