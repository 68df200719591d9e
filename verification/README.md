# Verified model of the grpc-mesh-server control plane

The server accepts connections from mesh nodes, keeps one session per node, and routes calls to the nodes
through those sessions. This project models the parts of it that carry state and proves what they keep over
whole runs, for any number of connections, callers and sweeps.

| file | models |
|---|---|
| `Sessions.dfy` | the session map of `pkg/registry/registry.go`: one critical section per operation, as functions on a registry value and as a class over session objects |
| `SessionProtocol.dfy` | connection handlers, read loops, the sweeper and API callers as one transition system (`pkg/tunnel/tunnel.go` over the registry) |
| `SessionRuns.dfy` | safety of that system over every finite run |
| `SessionLiveness.dfy` | which handlers deregister and when `Stop` returns, over every infinite fair schedule |
| `SessionSchedules.dfy` | fair schedules from any state: what a state says about whether `Stop` may, must or need not return |
| `MethodRegistry.dfy` | method catalogues and their reverse index, against the history of updates |
| `ExtendedSessions.dfy` | sessions, catalogues and breakers together, one call at a time |
| `ExtendedProtocol.dfy` | the same calls interleaved lock by lock |
| `RateLimit.dfy` | token bucket and concurrency limiter |
| `Invoke.dfy` | one routed call, and any number of interleaved calls sharing a limiter |
| `Breaker.dfy` | the circuit breaker |
| `Wildcard.dfy`, `Acl.dfy` | the pattern matcher against a real glob, and rule selection over it |
| `FrameCodec.dfy` | length-prefixed frames over a stream that is read in arbitrary chunks and may be cut anywhere |
| `MeshMethods.dfy` | the parser of the `mesh.methods` metadata |
| `StringTable.dfy` | string handles of the C library, under address reuse |

Conventions. A class method is one run under the mutex its Go counterpart takes, or, in `ExtendedSessions.dfy`,
one call that takes three in turn with no other call in between; its contract equates the new
state with a function of the old one, and the lemmas are about those functions. Time is an integer of
nanoseconds passed in by the caller. A Go `error` is an `Option`. Where a Go call would panic
(`close` of a closed channel), the call has a precondition and every caller in the manager proves it.

Where the code and its own documentation differ, the code is modelled:

- `SessionState.Close` is documented as idempotent (`pkg/registry/registry.go:77`); a second call closes the
  control channel again and panics. The manager unmaps a session in the critical section that closes it, so its own
  calls are never second ones, with one exception, and a caller can bring a second one about in another way:
  - the legacy `Register` is sound if and only if the pointer is new to the manager and its channel open
    (`PlacedConservesExactly`); one that is still mapped, was removed before, or was closed by its maker ends up in
    the map closed, and its removal closes it again;
  - `Close` on a pointer that `Get` or `RegisterSession` handed out is a first close if and only if the session is
    mapped, and then the session stays mapped, to be closed again by its removal (`DirectCloseExactly`).
- `Server.Stop` is documented to return once all handlers are done (`pkg/tunnel/tunnel.go:167-183`). A handler
  that leaves its select by the `readDone` arm then waits on `readDone` a second time, for a value that never
  comes: it neither deregisters nor lets `Stop` return (`StuckForever`, `ReadEndsStuck`, `StopMayHang`).
  `ShippedDeregistersExactly` says exactly when a handler deregisters, `StopReturnsExactly` when `Stop` returns, and
  `MayReturnExactly` and `MustReturnExactly` from which states it can and must;
  `DrainOnceDeregisters` and `DrainOnceStopReturnsExactly` are the intended properties, for a drain that runs only
  when the select has not received.
- The read loop takes an end of stream that `errors.Is` calls `io.EOF` for the node closing its control stream
  (`pkg/tunnel/tunnel.go:295`). A stream that ends right behind a header is reported the same way:
  `EofReportedExactly` says which cuts are, `HeaderAloneLooksClean` gives one, and `EofMeansCleanExactly` shows that
  EOF can be relied on only if every payload is empty.
- The calls of `pkg/registry/session_ext.go` keep session, catalogue and breaker together only if no removal runs
  beside a registration, or beside an update of a connected peer (`SettlesExactly`).
- The handle scheme of `cmd/meshlib/main.go` calls its ids monotonic and 0 never issued. Each registration keeps
  to that if and only if it is not a 2^64-th one (`CounterExactly`, `ZeroIsIssued`); before the first of those, ids
  resolve exactly from registration to release (`ResolvesExactly`). Memory safety (`HandlesAreSafe`) does not depend
  on it.
- The wildcard matcher is a glob only for patterns whose core has no star; `MatcherCompleteExactly` says which.

Expectations a reader of the breaker may have, and what holds instead:

- Half-open does not always get out by itself: `NeverWedgesExactly` gives the settings under which it cannot wedge,
  `WedgeLiftsExactly` what lifts a wedge. Without `ForceOpen` any settings with HalfOpenMaxAttempts >= 1 will do
  (`NeverWedgesUnforcedExactly`).
- Closing does not need its successes in one half-open episode: `HalfOpenClosesExactly` says what is counted, and
  `OneEpisodeExactly` that only HalfOpenMaxAttempts <= 1 makes the two the same.
- A late failure does not always restart the cool-down: `OpenWindow` says which do, `AlwaysRearmsExactly` when all
  do; it rests on the trip condition lasting, which it does exactly for ratios up to one (`TripPersistsExactly`).

## Model

| member | source | states |
|---|---|---|
| SessionSpec.InstallConserves | pkg/registry/registry.go:278-284 | registering a new session closes the session it replaces exactly once, maps the new one, and keeps every other session accounted for |
| SessionSpec.InstallMeans | pkg/registry/registry.go:278-284 | the registered record is stored as it came, the session it replaces is marked disconnected and closed once, and every other one is left alone |
| SessionSpec.RegistrationBuysMaxAge | pkg/registry/registry.go:268-284 | a session registered at t survives a sweep at any time up to t + maxAge and no later |
| SessionSpec.UnmapConserves | pkg/registry/registry.go:350-351 | closing and deleting in one critical section keeps every session mapped and open, or unmapped, disconnected and closed exactly once |
| SessionSpec.CleanupConserves | pkg/registry/registry.go:626-649 | a sweep unmaps exactly the stale sessions, closes each once, and leaves the others as they were |
| SessionSpec.SweepStep | pkg/registry/registry.go:633-646 | deleting while ranging is well behaved: each round removes its own peer if stale and nothing else |
| SessionSpec.MarkedGoesWithNextSweep | pkg/registry/registry.go:577-600 | a session marked disconnected stays registered and open, and is removed by the next sweep whatever its age limit |
| SessionSpec.TouchBuysMaxAge | pkg/registry/registry.go:604-606 | a connected session touched at t survives a sweep at any time up to t + maxAge and no later |
| SessionSpec.PlacedConservesExactly | pkg/registry/registry.go:205-224 | the legacy Register keeps every session accounted for if and only if the pointer is new to the manager and its channel open; otherwise it leaves a closed session in the map whose removal closes the channel again |
| SessionSpec.ReRegisteringSamePointerBreaks | pkg/registry/registry.go:213-219 | in particular for every pointer registered before, still mapped or not |
| SessionSpec.DirectCloseExactly | pkg/registry/registry.go:78-89 | a call to Close from outside the manager is a first close if and only if the session is mapped; it always breaks the account, and a mapped session stays mapped until its removal closes it again |
| Sessions.SessionState.Close | pkg/registry/registry.go:78-89 | marks the session disconnected and closes its channel; the channel must be open |
| Sessions.SessionManager.RegisterSession | pkg/registry/registry.go:255-290 | a nil handshake changes nothing; otherwise a fresh session of that peer, connected, open and with its heartbeat at the present time, takes the peer's place and the old one is closed |
| Sessions.SessionManager.Register | pkg/registry/registry.go:205-224 | the same for any session the caller brings; the registry stays sound exactly when it is new and open |
| Sessions.SessionManager.Get | pkg/registry/registry.go:312-318 | finds a session exactly when the peer is mapped, and it is that peer's own open session |
| Sessions.SessionManager.Remove | pkg/registry/registry.go:341-355 | not found exactly when unmapped; otherwise that session alone is closed and unmapped |
| Sessions.SessionManager.RemoveIfCurrent | pkg/registry/registry.go:360-378 | a session that is no longer the mapped one removes nothing |
| Sessions.SessionManager.MarkDisconnected | pkg/registry/registry.go:591-600 | clears the connected flag of the mapped session only; unknown peers are ignored |
| Sessions.SessionManager.Heartbeat | pkg/registry/registry.go:564-575 | touches the mapped session only, or reports not found |
| Sessions.SessionManager.Cleanup | pkg/registry/registry.go:626-649 | returns the drop in map size and leaves exactly the registry with the stale sessions closed and unmapped, in any iteration order |
| SessionProtocol.NextKeepsInv | pkg/tunnel/tunnel.go:217-312 | every step of every handler, read loop, sweep and API caller keeps sessions conserved, readDone at one value at most, and the wait group equal to the running goroutines |
| SessionProtocol.RegistryAfterOk | pkg/tunnel/tunnel.go:329-368 | deliveries, removals, marks, touches and sweeps never remap an unmapped session nor change its peer |
| SessionRuns.SessionsConserved | pkg/registry/registry.go:78-89 | after any run a session is mapped and open, or unmapped, disconnected and closed exactly once; readDone carried at most one value; wg counts what runs |
| SessionRuns.LeavesMapExactly | pkg/registry/registry.go:278-284 | one step unmaps a session if and only if it registers its peer again, removes the peer, sweeps the session stale, or is its own handler's removal |
| SessionRuns.SurvivesExactly | pkg/registry/registry.go:357-378 | a mapped session is still mapped after a run if and only if no step of the run was such a cause |
| SessionRuns.ReplacedHandlerIsHarmless | pkg/tunnel/tunnel.go:304-311 | however many steps a replaced connection still takes, the map and every mapped session stay as they were |
| SessionRuns.IdleSessionEvicted | pkg/registry/registry.go:690-706 | after a sweep at t of age maxAge, whatever happens, a session mapped at t' was touched or registered no more than maxAge + (t' - t) before; so with sweeps an interval apart an idle one is gone by maxAge + interval |
| SessionRuns.LiveSessionKept | pkg/registry/registry.go:633-646 | a session left alone by its peer's callers is never evicted while every sweep of the run comes within its age limit of the last own heartbeat delivered, or touch, in the run |
| SessionRuns.DeliverExactly | pkg/tunnel/tunnel.go:339-368 | a delivered heartbeat stamps the connection's own session if it names its node; any other message changes no session |
| SessionRuns.HeartbeatIsLastBeat | pkg/tunnel/tunnel.go:339-368 | over every run a session's heartbeat is the time of the last own heartbeat delivered, or touch; nothing else moves it |
| SessionRuns.FlagExactly | pkg/registry/registry.go:577-600 | a mapped session stays connected until it is marked or leaves the map, and nothing connects it again |
| SessionRuns.MarkedIsSwept | pkg/registry/registry.go:633-646 | a marked session is gone after any run with a sweep in it, whatever the age limit and however often its node still beats |
| SessionLiveness.StuckForever | pkg/tunnel/tunnel.go:287-307 | a handler that left by the readDone arm stays before its removal in every continuation, and the wait group stays positive |
| SessionLiveness.ReadEndsStuck | pkg/tunnel/tunnel.go:294-307 | the ordinary end of a connection, the node closing its control stream, can end there from any state |
| SessionLiveness.NextConnectionMayStick | pkg/tunnel/tunnel.go:196-215 | this can happen to the next accepted connection, whatever has gone before |
| SessionLiveness.ShippedDeregistersExactly | pkg/tunnel/tunnel.go:290-311 | in a fair schedule a handler that has left its select finishes with its session unmapped and closed once if and only if it did not leave by readDone |
| SessionLiveness.DrainOnceDeregisters | pkg/tunnel/tunnel.go:304-311 | if the drain is skipped after the readDone arm, every handler told to leave deregisters in every fair schedule |
| SessionLiveness.ReplacedHandlerDeregisters | pkg/tunnel/tunnel.go:287-311 | in that variant a handler whose session was replaced, removed or swept goes through with its own deregistration |
| SessionLiveness.RegisteredIsServed | pkg/tunnel/tunnel.go:270-288 | a connection that registers is served under the peer it named, with a fresh connected session and its read loop up |
| SessionLiveness.StaysServed | pkg/tunnel/tunnel.go:287-302 | a connection is served through every run in which the server is not cancelled, its yamux session and control stream stay up, and nobody takes its session out of the map |
| SessionLiveness.ToldToLeave | pkg/tunnel/tunnel.go:287-302 | a selecting handler may leave by cancellation exactly when cancelled, by its close channel exactly when its yamux session is closed or its session unmapped, by readDone exactly when its read loop has ended |
| SessionLiveness.ReadsUntilFailure | pkg/tunnel/tunnel.go:331-337 | the read loop takes messages until its read fails, whatever becomes of handler and session |
| SessionLiveness.AcceptsUntilCancelled | pkg/tunnel/tunnel.go:196-209 | the accept loop ends only after the server is cancelled |
| SessionLiveness.HandlerFinishes | pkg/tunnel/tunnel.go:287-311 | a handler whose drain can be served runs through its removal to its end |
| SessionLiveness.ReturnsExactly | pkg/tunnel/tunnel.go:184-194 | once Stop waits, the wait group reaches zero if and only if every handler finishes |
| SessionLiveness.StopReturnsExactly | pkg/tunnel/tunnel.go:167-194 | in a fair schedule Stop returns if and only if every connection gets past its handshake and no handler ever leaves by readDone |
| SessionLiveness.StopReturnsPastSelect | pkg/tunnel/tunnel.go:184-194 | with every handler past its select, Stop returns if and only if none of them left by readDone |
| SessionLiveness.DrainOnceStopReturnsExactly | pkg/tunnel/tunnel.go:304-311 | if the drain is skipped after the readDone arm, Stop returns if and only if every connection gets past its handshake |
| SessionSchedules.EveryRunExtends | pkg/tunnel/tunnel.go:217-312 | every finite run from any state is the start of a fair schedule in which everybody comes to rest |
| SessionSchedules.MayReturnExactly | pkg/tunnel/tunnel.go:184-194 | once Stop waits, some fair schedule lets it return if and only if no handler is stuck |
| SessionSchedules.MustReturnExactly | pkg/tunnel/tunnel.go:184-194 | every fair schedule does if and only if every handler is past its select and none is stuck |
| SessionSchedules.DrainOnceMustReturnExactly | pkg/tunnel/tunnel.go:304-311 | if the drain is skipped after the readDone arm, some always does, and every one if and only if every handler is past its handshake |
| SessionSchedules.StopMayReturn | pkg/tunnel/tunnel.go:184-194 | some fair schedule from start-up serves a connection and lets Stop return, in either variant |
| SessionSchedules.StopMayHang | pkg/tunnel/tunnel.go:294-307 | some fair schedule of the shipped code from start-up never lets Stop return, its one handler having left by readDone |
| SessionSchedules.StopMayHangInHandshake | pkg/tunnel/tunnel.go:184-215 | nor does some fair schedule of either variant whose one connection never ends its handshake |
| MethodIndex.IndexIsRecencyScan | pkg/registry/method_registry.go:46-77 | after any history of updates and removals, a method's entry lists exactly the peers whose last update names it, once each, least recently updated first; no entry is empty |
| MethodIndex.ScanIsUnique | pkg/registry/method_registry.go:113-127 | that description leaves one possible list |
| MethodIndex.AddAllEntry | pkg/registry/method_registry.go:215-226 | indexing a catalogue appends the peer once per name, however often a name repeats |
| MethodIndex.DropAllEntry | pkg/registry/method_registry.go:228-242 | unindexing a catalogue removes the peer from each of its names and leaves no empty entry |
| MethodIndex.UpdateThenRemove | pkg/registry/method_registry.go:170-185 | an update followed by a removal leaves exactly what the removal alone would |
| MethodIndex.SearchAgreesWithIndex | pkg/registry/method_registry.go:130-151 | for a name without wildcards the search finds exactly the peers the index lists |
| MethodIndex.MatchingExactly | pkg/registry/method_registry.go:137-147 | a search keeps every matching entry of a catalogue once, in its order, and nothing else |
| Methods.MethodRegistry.AddToIndex | pkg/registry/method_registry.go:215-226 | the searching loop adds the peer only if it is not there |
| Methods.MethodRegistry.RemoveFromIndex | pkg/registry/method_registry.go:228-242 | the in-place deletion removes the first occurrence and clears empty entries |
| Methods.MethodRegistry.UpdateMethods | pkg/registry/method_registry.go:47-77 | the registry after the update is the replay of the history with it appended |
| Methods.MethodRegistry.RemovePeer | pkg/registry/method_registry.go:170-185 | likewise for a removal, also of an unknown peer |
| Methods.MethodRegistry.GetPeerMethods | pkg/registry/method_registry.go:80-94 | the catalogue of the peer's last update, absent after a removal |
| Methods.MethodRegistry.GetMethod | pkg/registry/method_registry.go:97-110 | succeeds exactly when the peer's last update names the method, with the first such descriptor |
| Methods.MethodRegistry.FindPeersWithMethod | pkg/registry/method_registry.go:113-127 | the recency scan of the history |
| Methods.MethodRegistry.FindMethods | pkg/registry/method_registry.go:130-151 | exactly the peers with a matching method, each with its matches in order |
| ExtendedSessions.ExtendedSessionManager.RegisterSession | pkg/registry/session_ext.go:68-88 | run alone: any session is taken, the result sound exactly when it is new and open; a new peer gets a fresh closed breaker; a re-registered peer keeps its breaker as it is |
| ExtendedSessions.ExtendedSessionManager.RemoveSession | pkg/registry/session_ext.go:91-106 | run alone: without a session nothing is removed; otherwise session, catalogue and breaker all go |
| ExtendedSessions.ExtendedSessionManager.UpdateMethods | pkg/registry/session_ext.go:109-117 | run alone: a catalogue is taken only from a peer with a session |
| ExtendedSessions.ExtendedSessionManager.HealthCheck | pkg/registry/session_ext.go:128-154 | reports the session and its heartbeat, the breaker's state (an absent one as closed) and the number of methods; healthy means a session and no open breaker |
| ExtendedSessions.ExtendedSessionManager.ListHealthyPeers | pkg/registry/session_ext.go:205-217 | exactly the healthy peers, each once, in any iteration order |
| ExtendedSessions.ExtendedSessionManager.FindHealthyPeersWithMethod | pkg/registry/session_ext.go:220-232 | exactly the healthy peers whose last update names the method, in recency order |
| ExtendedSessions.HealthyIsSubsequence | pkg/registry/session_ext.go:220-232 | so the result is the unfiltered list with the unhealthy peers left out, without repeats |
| ExtendedProtocol.SettlesExactly | pkg/registry/session_ext.go:67-117 | concurrent calls on a consistent peer leave it with a breaker for its session and nothing without one in every interleaving if and only if no removal runs beside a registration, or beside an update while there is a session |
| ExtendedProtocol.InOrder | pkg/registry/session_ext.go:67-106 | a removal gives up session, catalogue and breaker in this order; a registration makes the session before the breaker |
| ExtendedProtocol.RegisterRace | pkg/registry/session_ext.go:91-106 | a removal around a registration ends with a session without breaker, a registration around a removal with a breaker without session |
| ExtendedProtocol.UpdateRace | pkg/registry/session_ext.go:109-117 | an update around a removal ends with a catalogue without session |
| RateLimit.TokenBucketLimiter.Allow | pkg/server/ratelimit.go:38-73 | refills and draws from the bucket of the request's own key and from no other |
| RateLimit.AdmittedSinceCreation | pkg/server/ratelimit.go:38-73 | a bucket never admits more than burst + floor(rate * elapsed) since its creation |
| RateLimit.AdmittedInWindow | pkg/server/ratelimit.go:53-64 | any window of length d admits fewer than burst + rate * d + 1 requests, from any bucket state |
| RateLimit.DegenerateLimits | pkg/server/ratelimit.go:30-36 | with a rate or burst that is not positive, no more than the initial burst is ever admitted |
| RateLimit.RefillCreditsHalf | pkg/server/ratelimit.go:54-64 | truncation loses less than half of what accrued at a refill |
| RateLimit.AtLeastHalfCredited | pkg/server/ratelimit.go:54-64 | while the cap never bites, at least half of rate * (lastRefill - creation) is in the bucket or was spent |
| RateLimit.DeniedExactly | pkg/server/ratelimit.go:66-72 | a denial means an empty bucket and less than one token accrued since the last refill, and conversely |
| RateLimit.BurstExactly | pkg/server/ratelimit.go:53-72 | of n requests at one instant exactly min(n, burst, tokens + floor(rate * seconds since the last refill)) pass |
| RateLimit.RunScaled | pkg/server/ratelimit.go:53-72 | a run in time is the same run on a clock that counts time times rate |
| RateLimit.KeysAreIndependent | pkg/server/ratelimit.go:39-51 | whatever other keys do in between, a key is admitted as if it were alone |
| RateLimit.LimiterBound | pkg/server/ratelimit.go:39-72 | the bound since creation holds for every key of a shared limiter |
| RateLimit.LimiterWindowBound | pkg/server/ratelimit.go:39-72 | so does the window bound, for any stretch of requests after anything that went before |
| RateLimit.SharedKeyExactly | pkg/server/ratelimit.go:39 | two (peer, method) pairs share a bucket if and only if they are equal or one peer id continues the other after a colon |
| RateLimit.ColonFreePeersAreSeparate | pkg/server/ratelimit.go:39 | peers whose ids hold no colon never share a bucket |
| RateLimit.ConcurrencyLimiter.Allow | pkg/server/ratelimit.go:95-107 | takes a permit of the key exactly when fewer than max are out |
| RateLimit.ConcurrencyLimiter.Release | pkg/server/ratelimit.go:109-118 | gives one back, never below zero |
| RateLimit.PermitsExactly | pkg/server/ratelimit.go:95-118 | of consecutive requests for one key exactly the first max get a permit, and each one given back makes room for one more |
| RateLimit.PermitsOfOneKey | pkg/server/ratelimit.go:96-101 | permits of other keys make no difference |
| Invoke.InvokeProxy.Invoke | pkg/server/invoke.go:51-133 | the first failing check decides the outcome; every permit is given back; every call that reached the gateway, failed or not, touches the session |
| InvokeProtocol.PermitsAccounted | pkg/server/invoke.go:75-132 | over any interleaving of calls, a key's count is the number of calls holding a permit for it, within 0..max, and each finished call released exactly what it acquired |
| InvokeProtocol.MoveKeepsInv | pkg/server/invoke.go:75-90 | each step of each call keeps that account |
| InvokeProtocol.AcquiresExactly | pkg/server/invoke.go:75-82 | a call gets its permit if and only if fewer than max calls in flight hold one for its key, and ends with ResourceExhausted otherwise |
| InvokeProtocol.SoloOutcome | pkg/server/invoke.go:51-133 | a call that runs with none in between ends with the outcome of the first failing check, or as the gateway's response says |
| InvokeProtocol.ClampNeverFires | pkg/server/ratelimit.go:115-117 | a call about to release always finds its permit counted |
| InvokeProtocol.QuietLimiterIsEmpty | pkg/server/invoke.go:82 | after any run in which every call is done, the limiter counts no permit on any key |
| Breaker.CircuitBreaker.Allow | pkg/fault/circuit_breaker.go:73-94 | admits when closed, when open longer than the timeout, or when half-open below the attempt limit |
| Breaker.CircuitBreaker.RecordSuccess | pkg/fault/circuit_breaker.go:97-111 | counts towards closing when half-open, ends a run of failures when closed, and is ignored when open |
| Breaker.CircuitBreaker.RecordFailure | pkg/fault/circuit_breaker.go:114-125 | counts the failure and opens when the trip condition holds |
| Breaker.CircuitBreaker.Execute | pkg/fault/circuit_breaker.go:56-70 | a denied call changes nothing; an admitted one records its outcome |
| Breaker.NeverWedgesExactly | pkg/fault/circuit_breaker.go:82-90 | no run reaches a half-open state that denies every call at every time if and only if HalfOpenMaxAttempts >= 1 and either 0 < FailureRatio <= 1 or MaxFailures <= HalfOpenMaxAttempts |
| Breaker.NeverWedgesUnforcedExactly | pkg/fault/circuit_breaker.go:82-137 | no run without ForceOpen reaches that state, whatever the ratio and MaxFailures, if and only if HalfOpenMaxAttempts >= 1 |
| Breaker.RunHealthy | pkg/fault/circuit_breaker.go:82-137 | under those settings half-open has room, and with a ratio in (0, 1] has attempts = 0 and fewer successes than it needs |
| Breaker.RunClosedOk | pkg/fault/circuit_breaker.go:97-137 | closed means no success counted, failures <= attempts, failures < MaxFailures and the trip condition false |
| Breaker.UnsoundWedges | pkg/fault/circuit_breaker.go:155-160 | otherwise the run through ForceOpen reaches the wedged state |
| Breaker.WedgedExactly | pkg/fault/circuit_breaker.go:89-90 | half-open denies every call at every time if and only if its attempts have reached HalfOpenMaxAttempts, and admits every call otherwise |
| Breaker.WedgedForever | pkg/fault/circuit_breaker.go:89-90 | however many calls a wedged breaker denies, it stays as it is and denies the next |
| Breaker.WedgeLiftsExactly | pkg/fault/circuit_breaker.go:97-185 | over any run of operations the wedge lasts if and only if there is no manual operation, and no outcome of a call let through earlier completes the successes or trips |
| Breaker.ClosedAdmits | pkg/fault/circuit_breaker.go:80-81 | a breaker that any run left closed admits every call |
| Breaker.OpenRecovers | pkg/fault/circuit_breaker.go:73-111 | however it came to be open, the first call after Timeout and those after it are admitted, and when HalfOpenMaxAttempts of them (one if left at 0) have succeeded since the last close the breaker is as new |
| Breaker.ForcedOpenDenies | pkg/fault/circuit_breaker.go:155-160 | forced open at t, whatever went before, it admits exactly once Timeout has passed |
| Breaker.ManualCloseForgets | pkg/fault/circuit_breaker.go:148-168 | after Reset or ForceClose it goes on as a new breaker would |
| Breaker.TripsExactly | pkg/fault/circuit_breaker.go:113-137 | a breaker that has stayed closed opens exactly when the failures since the last success reach MaxFailures or their share of all outcomes reaches FailureRatio |
| Breaker.HalfOpenClosesExactly | pkg/fault/circuit_breaker.go:101-106 | after any run, half-open closes at a success if and only if it brings the half-open successes since the last close to HalfOpenMaxAttempts |
| Breaker.SuccessesCounted | pkg/fault/circuit_breaker.go:97-111 | the success counter is that number in every run, and zero when closed |
| Breaker.OneEpisodeExactly | pkg/fault/circuit_breaker.go:187-191 | those successes always come from one half-open episode if and only if HalfOpenMaxAttempts <= 1 |
| Breaker.TripPersists | pkg/fault/circuit_breaker.go:127-138 | with a ratio up to 1 a true trip condition stays true under one more failure |
| Breaker.TripPersistsExactly | pkg/fault/circuit_breaker.go:127-138 | it does so, whatever MaxFailures and the counters, if and only if the ratio is at most 1 |
| Breaker.OpenWindow | pkg/fault/circuit_breaker.go:114-125 | an open breaker, tripped or forced, counts late failures and restarts its window at exactly those that find the trip condition true |
| Breaker.OpenAdmitsExactly | pkg/fault/circuit_breaker.go:82-88 | its next call is admitted if and only if more than Timeout passed since the start of that window |
| Breaker.StaysTripped | pkg/fault/circuit_breaker.go:122-124 | once tripped, until a call is admitted or a manual close, the breaker stays open and every late failure restarts the window |
| Breaker.CoolDownExactly | pkg/fault/circuit_breaker.go:82-88 | the next call is admitted if and only if more than Timeout passed since the most recent failure or forced opening |
| Breaker.FailureTrips | pkg/fault/circuit_breaker.go:118-124 | every opening failure leaves the breaker in the state those lemmas start from |
| Breaker.AlwaysRearmsExactly | pkg/fault/circuit_breaker.go:155-160 | every late failure restarts the window of an open breaker if and only if the first one would; a breaker forced open further below the threshold ignores its first |
| Wildcard.MatcherSound | pkg/server/acl.go:113-138 | whatever the matcher accepts, the glob accepts, for every value and pattern |
| Wildcard.MatcherCompleteExactly | pkg/server/acl.go:113-138 | the matcher is the glob for a pattern if and only if its core has no star and around it there is at most one star or stars on both ends |
| Wildcard.MatchesByEnds | pkg/server/acl.go:113-138 | without a star a pattern matches itself; with one in front alone any text ending in the rest; behind alone any starting with it; with stars only inside nothing at all |
| Wildcard.MatchesAroundCore | pkg/server/acl.go:122-125 | with stars at both ends it matches any text around its core, taken literally |
| Wildcard.FaithfulComplete | pkg/registry/method_registry.go:244-270 | for such a pattern the two agree on every value |
| Wildcard.UnfaithfulMisses | pkg/registry/method_registry.go:253-269 | for any other the matcher rejects the pattern's own star-free text, which the glob accepts |
| Acl.StaticACL.Match | pkg/server/acl.go:49-66 | the first rule of maximum priority among the matching ones of priority >= 0, and none exactly when there is no such rule |
| Acl.StaticACL.Check | pkg/server/acl.go:40-46 | allows exactly when that rule exists and says so |
| Acl.AllowedMeans | pkg/server/acl.go:40-66 | that is: an allowing rule of priority >= 0 matches both names, and no other matching rule has a higher priority, or the same further up |
| Acl.NegativeRulesNeverMatter | pkg/server/acl.go:51 | deleting the rules of negative priority changes neither the selected rule nor the decision |
| Acl.OrderIndependentExactly | pkg/server/acl.go:58-61 | the decision survives every reordering of the rules if and only if the matching rules of top priority agree |
| Acl.DistinctPrioritiesSuffice | pkg/server/acl.go:58-61 | in particular when the non-negative priorities are pairwise distinct |
| FrameCodec.SendFrame | pkg/control/stream.go:41-64 | an oversized frame writes nothing; otherwise the wire carries the frame, or the part of it the stream took |
| FrameCodec.WireFormat | pkg/control/stream.go:50-61 | the wire carries the length in four bytes, most significant first, then the payload; up to 1 MiB can be sent |
| FrameCodec.TooLongRefused | pkg/control/stream.go:78-81 | a header announcing more than 1 MiB is refused, and no other |
| FrameCodec.Reader.ReadFull | pkg/control/stream.go:73-76 | reads exactly n bytes over any number of short reads, or everything there was |
| FrameCodec.ReceiveFrame | pkg/control/stream.go:67-90 | result and remaining bytes depend on the byte stream alone, not on its chunking |
| FrameCodec.RoundTrip | pkg/control/stream.go:40-90 | receiving everything sent returns the payloads in order, then a clean end |
| FrameCodec.SendAll | pkg/control/stream.go:41-64 | sending until the first error puts on the wire the encoding of the frames before the first oversized one, cut where the stream stopped |
| FrameCodec.ReadLoop | pkg/tunnel/tunnel.go:329-337 | the loop yields the frames before the first that does not arrive or is not a control message, and says which; that depends on the bytes alone |
| FrameCodec.EndToEnd | pkg/control/stream.go:40-90 | of what was sent whole frames arrive in order, all of them with a clean end if and only if the whole encoding found room |
| FrameCodec.Truncation | pkg/control/stream.go:72-87 | a stream cut anywhere yields exactly the frames complete by then, then the error that belongs to the place of the cut: between frames, in a header, behind one, or in a payload |
| FrameCodec.EofReportedExactly | pkg/control/stream.go:72-87 | EOF is reported for a cut if and only if it is right behind a frame or right behind a header |
| FrameCodec.HeaderAloneLooksClean | pkg/control/stream.go:54-61 | a sender that closes between the two writes of a frame is reported as EOF |
| FrameCodec.EofMeansCleanExactly | pkg/tunnel/tunnel.go:294-302 | that a reported EOF means a cut between frames, wherever the cut, holds of a sequence of frames if and only if every payload is empty |
| FrameCodec.NothingInvented | pkg/control/stream.go:72-87 | for arbitrary bytes, what is received is the encoding the stream starts with; EOF is reported if and only if nothing else was there, or one header announcing a payload |
| MeshMethods.ParseMeshMethods | pkg/registry/registry.go:117-134 | nil without metadata under "mesh.methods"; otherwise the trimmed, non-empty parts in order |
| MeshMethods.NamesLaws | pkg/registry/registry.go:126-132 | a text without commas is one name or none, and a comma separates two lists |
| MeshMethods.CommaBlank | pkg/registry/registry.go:126-132 | "a, b" lists a and b |
| MeshMethods.ListOfTwo | pkg/registry/registry.go:126-132 | any blanks around the names may do so |
| MeshMethods.SpacesAre | pkg/registry/registry.go:129 | white space is the six ASCII characters and, beyond ASCII, the listed ones |
| MeshMethods.TrimSpaceMeans | pkg/registry/registry.go:129 | trimming removes white space at both ends, all of it and nothing else |
| MeshMethods.NamesCanonical | pkg/registry/registry.go:128-132 | every name is non-empty, free of commas and trimmed |
| MeshMethods.RecoveredExactly | pkg/registry/registry.go:117-134 | a list survives joining by commas and parsing if and only if each name is canonical |
| MeshMethods.ParseIsIdempotent | pkg/registry/registry.go:117-134 | parsing the comma-join of a parsed list gives the same list |
| StringTable.Strings.Register | cmd/meshlib/main.go:86-93 | issues the next id for the allocation |
| StringTable.Strings.Unlink | cmd/meshlib/main.go:283-286 | hands out the allocation once and forgets the id |
| StringTable.HandlesAreSafe | cmd/meshlib/main.go:70-93 | in every interleaving, with freed addresses reissued, no allocation is freed twice, and a live handle's allocation is allocated, unfreed and its own |
| StringTable.ResolvesExactly | cmd/meshlib/main.go:264-277 | in every run of fewer than 2^64 registrations a handle resolves if and only if it was issued and not released, and then to an allocated address |
| StringTable.ReleasedIdsStayDead | cmd/meshlib/main.go:12-15 | a released id never resolves again, 0 is never a handle and nothing leaks, for fewer than 2^64 registrations |
| StringTable.StaleReleaseIsNoOp | cmd/meshlib/main.go:287-290 | releasing twice, or an id never issued, changes nothing |
| StringTable.BorrowStaysValid | cmd/meshlib/main.go:274-276 | a borrowed pointer stays valid until its own handle is released |
| StringTable.CounterExactly | cmd/meshlib/main.go:84-93 | over every run, a registration issues 0 if and only if it is a 2^64-th one, and a greater handle than the one before if and only if it is not; its handle is its number modulo 2^64 |
| StringTable.ZeroIsIssued | cmd/meshlib/main.go:84-93 | some run does issue 0, with no more than one string alive when it gets there |

## Left out

- TLS, yamux, gRPC dialing and protobuf: library behaviour. A yamux session closing and a read failing on it are steps of the environment; that a read on a closed session fails eventually is part of the fairness assumption.
- JSON encoding of control messages, handshake and authorization checks: a connection either registers or aborts.
- `Stop` as a caller: its cancel is a step and its wait is the wait-group count. A network handshake is not assumed to end: that it does is a condition of the results on `Stop`.
- `SessionRuns.SessionsConserved`: callers of the legacy `Register` bring sessions that are new and open, in any other state; `PlacedConservesExactly` covers the rest.
- `SessionRuns.LiveSessionKept`: the sweep is one step, while the code reads each session's heartbeat under that session's own lock; a touch racing with the sweep is taken before or after it.
- `Breaker`: `FailureRatio` is a rational, compared by cross-multiplication rather than by float division; the state-change callback is not modelled.
- `RateLimit.TokenBucketLimiter.Allow`: elapsed seconds times rate is computed exactly, without the rounding of float64.
- `Methods.MethodRegistry.RemoveFromIndex`: entries are sequence values; the shared backing array of a Go slice is not visible because every query copies. Version numbers and update times are not modelled.
- `MeshMethods`: strings are sequences of code points, so invalid UTF-8 is not represented.
- `FrameCodec`: read and write deadlines appear as the stream ending or taking no more bytes; what is said of a reported EOF is about a stream that its peer closed. Whether a payload is a control message is a parameter of the read loop.
- `ExtendedProtocol`: a nil session, which changes nothing, is not a call of its own, and sweeps are not among the calls: a sweep takes a session and leaves its catalogue and breaker.
- `InvokeProxy.InvokeStream`: a loop of `Invoke` calls over a gRPC stream; the interleaved call model already covers its calls.
- `Invoke.InvokeProxy.Invoke`: the limiter is the concurrency limiter and the policy the static one; the permissive, restrictive and no-op variants are constants.
- `OpenStream`, `List`, `Stats`, `GetExtendedStats`, `ControlChannel`: read-only accessors that would add easy members.
- `fault.Retry`, configuration, logging, metrics and the server handle exports of the C library.
