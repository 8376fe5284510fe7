# Verified model of schemads

A Dafny 4.11 model of the parts of `schemads` whose behaviour is easy to get wrong, with proofs of what they
promise. `dafny verify dfyconfig.toml` checks all of it. There are three cores.

**Table references** (`tables/tables.go`). A strict encoder, a lenient cursor-based parser, canonicalisation and
backtick wrapping.

- `Text.dfy`: trimming and sorting as the Go library does them; `TableRefs.dfy`: escaping and `String`;
  `Parsing.dfy`: the `parser` cursor and `Parse`, proved to compute functions on the remaining text.
- `Grammar.dfy`: the grammar as a set of layouts (any key order, any padding), independent of the parser, and the
  proof that `Parse` accepts exactly the rendered layouts. `Rejections.dfy`: the failed layouts, in the same style, and
  the proof that each error is reported for exactly the texts of its kind.
- `Canonical.dfy`, `Backticks.dfy`: round trip, injectivity, canonical form, wrapping.

**Schemas** (`validation.go`, `Validate` in `tables/tables.go`).

- `Schemas.dfy`, `Cycles.dfy`: the dependency graph and the three-colour search, as a class whose fields the
  recursive search updates.
- `Validation.dfy`: every check as a loop, tied to a declarative description of well-formed schemas and of the first
  violation, which is what the error reports.
- `Resolution.dfy`: reference validation with the exact list of its errors, and what a reference accepted under a
  valid schema guarantees.

**The response cache** (`cache/memory.go`, `datasource.go`, `cache/key.go`).

- `Flights.dfy`, `FlightInvariants.dfy`, `FlightDelivery.dfy`, `FlightProgress.dfy`, `FlightTheorems.dfy`: the cache
  under concurrency. Each call is a thread that moves through refresh, lookup, flight, second lookup, handler, store,
  return and send; a run of the system is any interleaving of these steps with clock ticks and evictions.
- `Limiter.dfy`: the shared refresh limiter.
- `Keys.dfy`: what two equal keys imply about the context they were built from. `JsonTexts.dfy`, `RequestKeys.dfy`:
  what they imply about the request, its ttl and its refresh stream.
- `ByteCache.dfy`, `Datasource.dfy`: the same code called sequentially, as classes over heap-allocated buffers.

## Contracts assumed of libraries

- go-cache: an entry set at time u with a ttl is found at time t exactly while t <= u + ttl, until it is replaced or
  deleted; expired entries may be evicted at any time.
- singleflight: a caller leads when no call for its key is open, otherwise it waits; closing a call removes it and
  hands its result to those who joined it.
- `sort.Strings`: a sorted permutation, which `Text.SortedIsUnique` shows to be a single result.
- `unicode.IsSpace` is listed character by character; strings are sequences of code points.
- SHA-256 is a function to 64 hexadecimal digits that tells the inputs at hand apart.
- Canonical JSON is a JSON text (outside its strings only the characters of section 2 of RFC 8259) from whose front the
  value can be read off.

## What turned out not to hold

- Printing and parsing loses Unicode space at the ends of a table name. `Canonical.RoundTrip` gives the exact
  condition, `Canonical.LeadingNewlineIsLost` an input.
- `Canonicalize` is not idempotent on `events\n()`; `Canonical.CanonicalFormStabilises` says exactly when one
  application is a fixed point, and that the second always is.
- `dispatch` documents that on nil bytes a response has been sent. In a shared flight it has been sent on the
  leader's sender only, because the closure captures it (datasource.go:174-176): a follower can return without an
  error and without a response. As long as no run for the key has ended in nil bytes every call responds
  (`FlightTheorems.EveryCallResponds`); from every state in which a call waits for a leader inside the handler,
  silence can follow (`FlightTheorems.FollowerMayStaySilent`), and such states are reached
  (`FlightTheorems.SilenceIsReachable`). `FlightTheorems.SilenceHasALeader` names the call that did respond.
- A honoured refresh need not run the handler again: it may join a flight whose run had already started.
  `FlightTheorems.RefreshIsFresh` and `FlightTheorems.RefreshMayBeStale` are the two directions: fresh bytes are
  guaranteed exactly when no run for the key is in progress at the delete.
- Keys do not always determine their fields, since the fields are not escaped. A hash sign alone is harmless.
  `Keys.KeyIsShared` gives the exact condition under which an input shares its key with one of the same kind of scope
  that has another namespace, datasource, update second or proxy hash: the namespace holds `#dsuid:` behind its first
  character, the UID holds `#dsuid:` with something behind it, the UID holds `#u:<decimal>#ph:` behind its first
  character, or the proxy hash holds `#u:<decimal>#ph:`. `Keys.LabelInUidConfuses` is the plainest family.
- The refresh limit per namespace and endpoint does not limit the handler runs of a key by itself. The bucket comes from
  the request (datasource.go:168, 351), and requests of different namespaces can have one key
  (`RequestKeys.OneKeyTwoStreams`); each stream may delete the shared entry. `FlightTheorems.HandlerCallBound` counts the
  streams, and `FlightTheorems.BoundIsReached` shows for every key that n of them do run the handler n + 1 times at
  time 0. What one stream allows (`FlightTheorems.OneStreamBound`) is guaranteed when the fields of the calls are not
  ambiguous: then one key means one stream (`RequestKeys.SameKeySameStream`).
- Two users share a key when the login of one is the email of another one without a login, or the name of one without
  either: the key holds only the first of the three that is not empty (`Keys.IdentityIs`, `Keys.UsersSeparate`).
- A key without a user can equal one with a user: exactly when its proxy hash ends in `#usr:` and the digest of a user
  (`Keys.UserKeyIsShared`). Every key with a user is met this way (`Keys.UserlessTwin`). The schema cache is safe from
  this, because it chooses the scope by endpoint: `RequestKeys.RequestKeysSeparate` needs no condition on user parts.
- Different requests for parameter values hash the same text exactly when the table or the parameter name holds
  `tableParameter` (`RequestKeys.ParameterValuesAreShared`). It is the only confusion among requests: for all others the
  hashed text determines endpoint and content (`RequestKeys.ContentSeparates`), although the raw table name of a column
  values request is followed by an undelimited label.

## Where the code and its documentation differ (the code is followed)

- The grammar at tables/doc.go:23-32 allows padding after a comma and around the equals sign only, and empty keys;
  the code, like the prose below it, also allows padding around the parentheses and before a comma, and it rejects an
  empty key.
- validation.go:52-62 lists the checks on the root parameters after those on references and cycles; the code makes them
  first, and so reports them first.
- cache/key.go:148-150 mentions the UID as a user identity; the code uses login, then email, then name.
- cache/key.go:99 requires the namespace for some scopes; the code requires it for all.

## Model

| member | source | states |
|---|---|---|
| Text.SortedIsUnique | tables/tables.go:63 | whatever algorithm sort.Strings uses and whatever order the map yields its keys in, the sorted key list is the same |
| Text.LessAtFirstDifference | tables/tables.go:63 | the order of the keys: a proper prefix comes first, otherwise the smaller character at the first difference |
| Text.SpacesListed | tables/tables.go:92 | the characters that are trimmed around a reference, one by one |
| TableRefs.WriteEscaped | tables/tables.go:313-321 | appends the escaped text, where Parsing.ReadCharsReads shows that reading it back before any stop gives the text again |
| TableRefs.ListKeys | tables/tables.go:59-62 | every key of the map once, in an order that is left open |
| TableRefs.String | tables/tables.go:54-75 | the canonical text, the same for every iteration order of the parameter map |
| Parsing.Parser.SkipWS | tables/tables.go:337-341 | moves the cursor past exactly the spaces and tabs in front of it |
| Parsing.Parser.Classify | tables/tables.go:356-387 | the branches on one character: decoded, end of the production, or which error |
| Parsing.Parser.ReadText | tables/tables.go:356-392 | the cursor stops at the first unescaped stop character and the decoded text and the rest are those of the specification |
| Parsing.ReadCharsDecodes | tables/tables.go:356-392 | decoding loses nothing: the input read is the escaped form of the text, and what follows is a stop character or the end, so peek never takes a NUL for the end |
| Parsing.ReadCharsReads | tables/tables.go:356-392 | escaping is uniquely decodable: an escaped text before a stop or the end reads as that text |
| Parsing.ReadPair | tables/tables.go:122-140 | one pair with the padding around its parts removed, or the first error in it |
| Parsing.ReadPairs | tables/tables.go:121-166 | the parameter loop, with each of its errors, whose text shapes Rejections.FailedListIsFaulty gives; testing for NUL at the end of a value is the same as testing for the end of the input |
| Parsing.Parse | tables/tables.go:91-166 | the value or error the specification gives on every text; Grammar.ParsesExactlyTheGrammar and Rejections.RejectsExactly say what that is without the parser |
| Grammar.CollectLists | tables/tables.go:142-148 | a list of pairs denotes the map with exactly its keys and values, and fails exactly when a key is repeated, naming one |
| Grammar.PairReads | tables/tables.go:122-140 | a pair reads the same however its parts are padded |
| Grammar.PairsRead | tables/tables.go:121-166 | completeness of the parameter loop for any number of padded pairs |
| Grammar.LayoutParses | tables/tables.go:91-166 | completeness: every layout of a reference parses to what it means, including the repeated-key error |
| Grammar.PairsWereWritten | tables/tables.go:121-166 | soundness of the parameter loop: an accepted text was some list of padded pairs |
| Grammar.ParsedWasLaidOut | tables/tables.go:91-166 | soundness: an accepted text is the rendering of a layout that means the result |
| Grammar.ParsesExactlyTheGrammar | tables/tables.go:91-166 | Parse returns a reference exactly when the trimmed text is one of the ways to write it |
| Grammar.RepeatedKeyIsReported | tables/tables.go:145-147 | a well-laid-out list is rejected exactly when a key is repeated, with ErrDuplicateKey for such a key |
| Rejections.SpoiltTextFails | tables/tables.go:356-392 | escaped text followed by a lone or foreign backslash, or by a reserved character that does not end the production, is rejected with the error for that |
| Rejections.FaultyListFails | tables/tables.go:121-166 | every way in which a pair or the text after it is faulty is rejected with its own error |
| Rejections.FailedListIsFaulty | tables/tables.go:121-166 | conversely, a list that the loop rejects is well-formed pairs with new keys, then one such fault, which determines the error |
| Rejections.FailureIsRejected | tables/tables.go:91-166 | every failed writing of a reference is rejected with its error |
| Rejections.RejectedIsAFailure | tables/tables.go:91-166 | every rejected text is one of these failed writings |
| Rejections.RejectsExactly | tables/tables.go:91-166 | Parse reports an error if and only if the trimmed text is a failed writing of that kind, for each of the ten kinds of error |
| Rejections.DuplicateKeyIsReported | tables/tables.go:145-147 | a key is reported as a duplicate if and only if the text is well-formed pairs with different keys, then a well-formed pair with that key among them, whatever follows |
| Canonical.EncodeIsALayout | tables/tables.go:54-75 | the encoder writes one of the layouts of the reference |
| Canonical.ParsedIsReadable | tables/tables.go:91-166 | every parsed reference has a name without leading Unicode or trailing ASCII space, non-empty keys, and no padding at the ends of keys and values |
| Canonical.RoundTrip | tables/tables.go:42-75 | printing and parsing gives the reference back if and only if its parts have no padding that parsing strips |
| Canonical.EncodeIsInjective | tables/tables.go:54-75 | no two references print the same, also those that Parse would reject |
| Canonical.Canonicalize | tables/tables.go:249-255 | the canonical form, or the error of Parse |
| Canonical.CanonicalFormDecidesEquality | tables/tables.go:240-255 | accepted inputs have equal canonical forms if and only if they parse to the same reference |
| Canonical.CanonicalFormStabilises | tables/tables.go:249-255 | the third application equals the second, and one is a fixed point exactly when there are parameters or the name does not end in Unicode space |
| Canonical.CanonicalFormIsAccepted | tables/tables.go:249-255 | a canonical form is accepted again |
| Canonical.LeadingNewlineIsLost | tables/tables.go:92 | an input whose table name does not survive printing and parsing |
| Canonical.TrailingNewlineIsLostLate | tables/tables.go:92-99 | an input whose canonical form is not canonical |
| Backticks.WrapInBackticks | tables/tables.go:265-277 | the text with each backtick doubled, between two more |
| Backticks.OddBacktick | tables/tables.go:296-298 | a doubled text followed by a backtick that is not doubled is the doubled form of nothing |
| Backticks.UnwrapFromBackticks | tables/tables.go:284-303 | success only on the wrapping of the result, failure only on texts that are the wrapping of nothing; the reported position is that of the first backtick that is not doubled |
| Backticks.WrappedIsInjective | tables/tables.go:257-264 | wrapping is unambiguous, so unwrapping succeeds with s exactly on the wrapping of s |
| Backticks.StoreAndLoad | tables/doc.go:109-118 | the documented recipe print, wrap, unwrap, parse returns the reference exactly when it round-trips |
| Schemas.WalksGoBack | validation.go:108-119 | following dependencies goes strictly backwards in any dependency order |
| Schemas.OrderedIsAcyclic | validation.go:108-119 | a graph with a topological order has no cycle |
| Schemas.LastDeclarationCounts | validation.go:127-130 | in a map built from a list of parameters the last one of a name counts |
| Cycles.Search.Visit | validation.go:134-151 | on success the name and everything it needs are finished, the stack is as before and nothing finished is lost; on failure the stack is a walk back to the reported name on which every dependency scanned earlier is finished |
| Cycles.Search.Expand | validation.go:143-150 | the same for an unvisited name, whose dependencies are scanned once |
| Cycles.DetectCycle | validation.go:120-159 | nil if and only if the dependency graph is acyclic; nil comes with a topological order, an error with the parameter on a cycle that the search order determines, and each parameter is expanded at most once |
| Cycles.ReportIsUnique | validation.go:134-158 | that parameter is unique: from the first declared parameter that leads to a cycle, always on to the first dependency that does, it is the first to come twice |
| Validation.CheckNames | validation.go:70-87 | accepts exactly unique names, free roots and at least one root, and reports the first violation by position |
| Validation.CheckReferences | validation.go:89-95 | accepts exactly when every dependency names a sibling, and reports the first that does not |
| Validation.ValidateRequiredChain | validation.go:171-192 | accepts exactly when required parameters depend on required ones only, and reports the first optional one |
| Validation.ValidateTableParameters | validation.go:65-106 | nil if and only if the parameter list is well formed; an error reports the first violation of the first rule that is violated |
| Validation.ExplanationIsUnique | validation.go:65-106 | what the error may say is determined by the list: no two errors explain the same one |
| Validation.ValidateValuesOfTable | validation.go:207-227 | accepts exactly when all names are declared roots, whatever order they come in |
| Validation.ValidateTableParameterValues | validation.go:200-230 | accepts exactly values for declared roots of existing tables, whatever order the maps are iterated in |
| Validation.ValidateSchema | validation.go:26-50 | nil if and only if the schema is nil or satisfies one declarative predicate; an error names the first repeated table, or the first table with bad parameters and its error, or, if all tables are well formed, a misplaced value |
| Resolution.Validate | tables/tables.go:184-238 | lists every true complaint and nothing else, in one order whatever order the maps are iterated in (unknown keys sorted, missing required ones as declared, missing dependencies by sorted key and as declared), hence nothing exactly when the selection is accepted; a missing table hides the rest |
| Resolution.IssuesAreComplaints | tables/tables.go:213-237 | that list holds exactly the true complaints and is empty exactly for accepted selections |
| Resolution.IssuesAreInOrder | tables/tables.go:205-236 | unknown keys are listed first, ascending; then missing required parameters as declared; then missing dependencies by ascending key and as listed |
| Resolution.IssuesAreCounted | tables/tables.go:213-236 | an unknown key is listed once, a missing required parameter once per declaration, a missing dependency as often as its parameter lists it |
| Resolution.AcyclicIffOrdered | validation.go:108-159 | a closed dependency graph is acyclic if and only if it has a topological order |
| Resolution.SomeNameIsReady | validation.go:108-159 | in an acyclic graph some parameter not yet resolved has all its dependencies resolved |
| Resolution.AcceptedIsResolvable | tables/tables.go:168-179 | under a valid schema the present parameters are closed under remote dependencies and can be listed with each after all it needs |
| Resolution.ValidReferenceIsResolvable | tables/tables.go:168-238 | the same from the two checks a caller makes: a schema that ValidateSchema accepts, and a reference for which Validate lists nothing |
| Resolution.RequiredIsTheLeastSelection | validation.go:161-170 | under a valid schema the required parameters alone are accepted, and are part of every accepted selection |
| Resolution.SelectionsCombine | tables/tables.go:199-236 | accepted selections are closed under union and intersection |
| FlightInvariants.LeadershipKept | cache/memory.go:194-207 | every step keeps: a call is in a leading phase exactly when it is the registered leader of its key |
| FlightInvariants.ProvenanceKept | cache/memory.go:187-216 | every step keeps: entries, results and bytes in flight are what a logged run for their own key returned, and stored bytes respect the size limit |
| FlightInvariants.ResponsesKept | datasource.go:174-188 | every step keeps what each sender has delivered, phase by phase |
| FlightInvariants.DeduplicatedKept | cache/memory.go:190-207 | every step keeps: while an entry is live, no call for its key is about to run the handler or inside it |
| FlightInvariants.CountedKept | cache/memory.go:187-215 | every step keeps the account of handler runs against time, deletes and unstored runs |
| FlightInvariants.DeletesCoveredKept | datasource.go:166-172 | every step keeps: deletes done and pending for a key never exceed the refreshes honoured in the streams that its refreshing calls belong to |
| FlightInvariants.SpacedKept | datasource.go:347-361 | every step keeps: n honoured refreshes of a stream took at least n-1 intervals |
| FlightInvariants.InvariantHolds | cache/memory.go:179-216 | all of these hold after every interleaving |
| FlightDelivery.HandsOutKept | cache/memory.go:187-216 | every step keeps, for any expectation on outcomes: if runs for the key start and end as expected, all that its entry, its open flight and its later calls hold or will be handed is as expected |
| FlightDelivery.LinkedKept | cache/memory.go:194-215 | every step keeps: a call that was handed nil bytes by a flight it did not lead has a leader for the same key whose flight ended in nil bytes |
| FlightTheorems.RunsAreExplained | cache/memory.go:187-215 | for any handler, the runs of a key beyond the first that no delete and no unstored run accounts for took a ttl each of the elapsed time |
| FlightTheorems.DeletesAreLimited | datasource.go:347-361 | the deletes of a key are at most one, and one more per MinInterval, for each of the streams that its refreshing calls belong to |
| FlightTheorems.HandlerCallBound | cache/memory.go:187-215 | within W of creation the handler runs for a key at most 1 + W/ttl + n * (1 + W/MinInterval) times, n being the number of streams its refreshing calls belong to, plus the runs that were not stored; for every interleaving and every assignment of streams |
| FlightTheorems.OneStreamBound | datasource.go:344-362 | with a single stream, at most 2 + W/ttl + W/MinInterval times plus the runs that were not stored |
| FlightTheorems.BoundIsReached | datasource.go:166-172 | for every key and any n different streams, a run in which the handler is called n + 1 times at time 0 and all runs are stored, so more than one stream exceeds what one allows |
| FlightTheorems.FlightsAreExclusive | cache/memory.go:194-207 | at most one call per key leads, and none calls the handler while the entry is live |
| FlightTheorems.OneRunServesAll | cache/memory.go:190-216 | from a cold key on, without expiry, delete or unstored run, any number of concurrent callers, those already waiting included, cause at most one run; once one of them has finished there was exactly one, and every caller that finishes has the bytes of that run, never an error or nil |
| FlightTheorems.LiveEntryServesAll | cache/memory.go:187-193 | while an entry stays live the handler is not run for its key, and every caller receives exactly that entry |
| FlightTheorems.LookupIsAnswered | cache/memory.go:190-192 | a call that looks while an entry's ttl has not passed returns exactly that entry and leads no flight, whatever happens to the entry and to the handler afterwards |
| FlightTheorems.RecheckIsAnswered | cache/memory.go:195-197 | a leader that finds such an entry on its second lookup settles its flight with it |
| FlightTheorems.StoredBytesAnswer | cache/memory.go:136-145 | bytes that fit and are stored at time u are found exactly up to u + ttl, until a refresh or a later run replaces them |
| FlightTheorems.EntriesExpire | cache/memory.go:103-131 | an entry left alone is found exactly as long as its ttl has not passed, after which it may be evicted |
| FlightTheorems.FlightEndsAsItsRun | cache/memory.go:194-215 | from every state with a waiter on a leader inside the handler, whatever the handler does: leader and waiter can return exactly that, only bytes that fit change the cache, and the key is free to be led again |
| FlightTheorems.RefreshIsDecided | datasource.go:166-172 | a call without the header goes on; a refresh within the interval of its stream's last honoured one changes nothing; any other is honoured and remembered |
| FlightTheorems.HonouredRefreshDeletes | datasource.go:168-170 | an honoured refresh deletes the entry of its key and no other before it looks |
| FlightProgress.NoOrphans | cache/memory.go:194-207 | the leader of every waiting call has handed over its result or still leads the open flight of the same key |
| FlightProgress.CallsAreShort | cache/memory.go:179-216 | in every interleaving each call takes at most eleven steps |
| FlightProgress.OnlyFinishedCallsRest | cache/memory.go:179-216 | no deadlock: in a reachable state no call can take a step if and only if all calls are done |
| FlightProgress.AllCanFinish | cache/memory.go:179-216 | from every reachable state there is a continuation that completes all calls |
| FlightTheorems.RefreshIsFresh | datasource.go:162-172 | a refresh that deletes while no run for its key is in progress is never answered from a run that started before the delete |
| FlightTheorems.RefreshMayBeStale | datasource.go:162-172 | otherwise some continuation answers it from such a run |
| FlightTheorems.ResponsesAreSingle | datasource.go:174-188 | at most one response per call; bytes are sent once with status 200, errors send nothing, and on nil bytes exactly the leader has responded |
| FlightTheorems.EveryCallResponds | datasource.go:174-188 | as long as no run for the key has ended in nil bytes, a call that returns without an error, and whose send succeeds, has responded exactly once, with its bytes |
| FlightTheorems.SilenceHasALeader | datasource.go:183-187 | a call that returns without an error and without failing to send has sent nothing if and only if it followed another call for its key into a flight that ended in nil bytes, and that call's sender got one response |
| FlightTheorems.FollowerMayStaySilent | datasource.go:183-187 | from every reachable state in which a call waits for a leader inside the handler, a continuation in which the leader's sender gets the response and the waiting call returns nil with none |
| FlightTheorems.SilenceIsReachable | datasource.go:183-187 | for every key and response such a call is reached |
| FlightTheorems.LookupsAreBoundedlyStale | cache/memory.go:103-131 | what a lookup finds was returned by a successful run for its key and stored at most a ttl ago |
| FlightTheorems.CachingIsTransparent | cache/memory.go:173-216 | with a handler that is a function of the key, every delivered body is what the call's own run would have returned, in every interleaving |
| Limiter.RefreshLimiter.AllowRefresh | datasource.go:347-362 | decides by the stream's last honoured refresh; only an honoured attempt changes anything, and only its own stream |
| Limiter.BucketIsInjective | datasource.go:351 | the bucket determines namespace and endpoint, since no endpoint contains the separator |
| Limiter.SharedRefinesPrivate | datasource.go:344-362 | the shared map decides each stream exactly as a private limiter would |
| Limiter.StreamsFollowTheRule | datasource.go:344-362 | an attempt is honoured if and only if every honoured one before it in its stream is at least MinInterval away; rejected attempts delay nothing |
| Keys.DecimalIsInjective | cache/key.go:136 | the decimal form of the update second determines it and contains no separator |
| Keys.HashParts | cache/key.go:168-175 | the hash of the namespace and all parts, concatenated |
| Keys.KeyFromPluginContext | cache/key.go:104-146 | the first applicable error in the code's order, or a key whose text lists the fields with their labels |
| Keys.ProblemsInOrder | cache/key.go:104-122 | which missing field each error stands for, given that those checked before it are present |
| Keys.IdentityIs | cache/key.go:151-165 | the identity is the login, without one the email, without either the name |
| Keys.UsersSeparate | cache/key.go:114-142 | users with different logins never share a key, nor without logins with different emails, nor without either with different names |
| Keys.LessFieldsDoNotMatter | cache/key.go:151-165 | with a login, or without one with an email, the fields that come after it do not change the key |
| Keys.ReadTheSame | cache/key.go:130-138 | if two different fillings of the fields read the same, each of the two has a field that holds a label in one of four ways |
| Keys.AnotherReading | cache/key.go:130-138 | every filling with such a field reads the same as a different, valid one |
| Keys.KeyIsShared | cache/key.go:85-146 | an input shares its key with one of the same kind of scope that differs in namespace, datasource, update second or proxy hash if and only if one of its fields holds a label in one of those ways |
| Keys.UserKeyIsShared | cache/key.go:130-146 | a key without a user equals some key with a user if and only if its proxy hash ends in the user part of a key |
| Keys.UserlessTwin | cache/key.go:130-146 | every key with a user is also the key of an input without one |
| Keys.EqualKeysSeparate | cache/key.go:85-146 | if one of two inputs is not of the confusable kind, their keys are equal if and only if namespace, datasource UID, update second, proxy hash, user identity and hashed content are |
| Keys.LabelInUidConfuses | cache/key.go:130-138 | a datasource whose UID holds the datasource label with something behind it shares every key with the one whose namespace takes the label over, for any scope, user, proxy hash and content |
| Keys.SameKeySameNamespace | cache/key.go:130-138 | equal keys, of whatever kinds of scope, are for one namespace if the fields of one of them are not of the confusable kind |
| RequestKeys.SortedStringsForgetsOrder | datasource.go:335-342 | equal sorted copies if and only if equal multisets |
| RequestKeys.EndpointsSeparate | datasource.go:268-325 | requests for different endpoints never hash the same text, although endpoint and parts are not delimited |
| RequestKeys.ColumnsContentSeparates | datasource.go:283-293 | two columns requests hash the same text if and only if they ask for the same tables in any order, parameters and schema context |
| JsonTexts.LabelIsNotWithin | datasource.go:311-317 | a label followed by JSON up to the end is no proper part of another JSON text that is labelled the same way |
| RequestKeys.ColumnValuesContentSeparates | datasource.go:306-318 | two column values requests hash the same text if and only if they ask for the same table, columns in any order, parameters, schema context and time range |
| RequestKeys.ParameterValuesContent | datasource.go:294-304 | two requests for parameter values hash the same text if and only if they give the same dependency values, and table and parameter read the same with the label between them |
| RequestKeys.ParameterValuesAreShared | datasource.go:294-304 | a request for parameter values hashes the same text as a different one if and only if its table or parameter name holds the label between them |
| RequestKeys.ContentSeparates | datasource.go:268-325 | any two requests hash the same text if and only if they are for the same endpoint and content, in the sense of the rows above |
| RequestKeys.RequestKeysSeparate | datasource.go:142-160 | with the scope chosen by endpoint, the key of a request whose fields are not of the confusable kind determines tenant, datasource, user, endpoint and content, and conversely |
| RequestKeys.SameKeySameEndpoint | datasource.go:141-160 | requests with one key are for one endpoint, hence have one ttl, even if their fields are confusable |
| RequestKeys.SameKeySameStream | datasource.go:166-172 | requests with one key belong to one refresh stream if the fields of one of them are not of the confusable kind |
| RequestKeys.OneKeyTwoStreams | datasource.go:166-172 | a family of requests of two namespaces that share every key and are limited apart |
| ByteCache.CloneBytes | cache/memory.go:388-395 | a new buffer with the same bytes, nil for nil |
| ByteCache.MemoryCache.Get | cache/memory.go:96-132 | hits exactly on live entries, with a fresh copy |
| ByteCache.MemoryCache.Set | cache/memory.go:136-145 | stores a fresh copy for the ttl, or changes nothing when the ttl is not positive or the value too large |
| ByteCache.MemoryCache.Delete | cache/memory.go:148-153 | removes exactly that entry |
| ByteCache.GetOrFetchBytes | cache/memory.go:179-216 | the live entry, or the fetched bytes; only non-nil bytes within the limit are stored; what is returned through the cache is a fresh copy |
| ByteCache.ShareFlight | cache/memory.go:194-216 | several callers that missed share one call of the handler: its error, or its bytes in pairwise different fresh buffers, and one fill of the cache |
| ByteCache.SetThenGet | cache/memory.go:96-145 | a stored value is found up to and including the end of its ttl and no longer |
| ByteCache.FetchTwice | cache/memory.go:187-215 | after a fetch of bytes that fit, a second fetch within their ttl returns the same bytes in another buffer without asking its handler; after it the handler is asked |
| ByteCache.FetchWithoutKeeping | cache/memory.go:199-205 | errors, nil bytes and bytes over the limit leave the cache as it was |
| ByteCache.HandOut | cache/memory.go:211-215 | the callers of one flight get equal bytes in pairwise different buffers |
| ByteCache.Drive | cache/memory.go:131-216 | over any sequence of stores, reads, deletes, fetches, shared fetches and overwritten bytes, in which the handler answers with buffers that are stored, read and overwritten too, plugin and cache behave as if they shared no memory |
| ByteCache.OverwritingChangesNothing | cache/memory.go:131-145 | a buffer overwritten after it was stored, or after it was read, changes no later read within the ttl; after that, or after a delete, nothing is read |
| ByteCache.AnswersAreKeptApart | cache/memory.go:199-215 | nor does overwriting what the handler answered with or what a caller was handed |
| Datasource.SchemaDatasource.HandleSchemaResource | datasource.go:127-189 | the caller observes exactly what it would without a cache: an error and no response, or one response. The cache is unchanged by a call that bypasses it or finds a live entry without an honoured refresh; otherwise it has the answer if there is one that fits, and an honoured refresh has removed the old entry; the limiter remembers exactly the honoured refreshes |
| Datasource.SchemaDatasource.Serve | datasource.go:127-189 | the same for every call of any run, whatever the clock, the refreshes and the earlier calls |

## Left out

- Parsing.Parse: error messages and byte offsets; the reason of a syntax error and the repeated key are kept.
- ByteCache.GetOrFetchBytes: the handler's answer is a parameter instead of a callback, so a handler that itself uses the cache is not covered. Callers run one at a time or, in ByteCache.ShareFlight, share a flight that they all missed for; other interleavings are the subject of the flight modules.
- Invalid UTF-8: strings are code points, so a byte sequence that is not UTF-8 has no counterpart.
- The typed cache and the JSON variant of the fetch helper, which run the same protocol over reflection and encoding/json; a plugin that uses the response cache for its own entries under the same keys.
- Entries of a foreign kind under a bytes key: the storage keys of the two kinds have different prefixes.
- `parseSchemaRequest` on JSON text, header copying, routing of other paths, `client.go`, `errors.go`, `query.go`, metrics and logging.
- FlightTheorems.CachingIsTransparent: the handler is a function of the key; Keys.dfy and RequestKeys.dfy say which requests have one key.
- In the flight modules, calls that bypass the cache (no key, or an endpoint without a ttl); Datasource.dfy covers them.
- Panics, cancellation of contexts, and integer overflow of clock arithmetic.
