# TripMate resilience layer: a verified model

A Dafny model of the in-process resilience layer of TripMate (the multi-agent travel platform) and
proofs about whole runs of it. `dafny verify dfyconfig.toml` checks everything.

The layer is asyncio code, so the code between two suspension points is one atomic step. Each
component is modelled twice. A *class* has the fields of the source class and one method per atomic
stretch of its code, updating those fields in place. A *model module* has the same steps as functions
or relations on values, which the methods are proved to compute, and the theorems quantify over all
sequences of such steps: any number of overlapping calls, in any order, with any outcome of the
outside world (value, transient or permanent error, timeout, cancellation).

| files | component |
|---|---|
| `BreakerModel`, `CircuitBreaker`, `BreakerRuns`, `BreakerTheorems` | circuit breaker with overlapping calls |
| `RetryDriver` | timeout and retry wrapper that drives a breaker |
| `SingleFlight`, `SingleFlightTheorems` | single-flight protocol of `get_or_set` |
| `TtlCache`, `BoundedCache` | bounded TTL cache: eviction, and the cache object with the protocol's segments |
| `HybridTiers`, `HybridMemory`, `HybridCache` | Redis over memory: both tiers, the memory tier with its times, the object |
| `LimiterModel`, `LimiterTheorems`, `RedisLimiter`, `LimiterFailover`, `RateLimiter` | sliding-window limiter, its Redis form, the failover |
| `McpModel`, `McpTheorems`, `McpManager` | MCP session manager |
| `QueueModel`, `QueueTheorems`, `TaskQueue` | background queue |
| `Workflow`, `Approval`, `TravelService` | workflow graph and the approval protocol |
| `Finance`, `ToolOutput` | money and the cap on tool output |
| `Numbers` | arithmetic several of them use |

Clocks are real numbers that do not run backwards where a theorem says so; ids are fresh; hashed keys
are injective; jitter is any factor from 0.85 to 1.15; money is exact decimal.

## Where the code departs from its documentation

The model follows the code. Each item names the theorem that shows the departure and, in "exactly
when", the one that gives the condition under which the documented behaviour does hold.

- Single flight: a follower awaits the leader's future while it holds the cache lock the leader needs
  to publish. Two concurrent callers of one missing key jam the cache for good as soon as the leader's
  coroutine returns a value (`TwoCallersJam`, `StuckForever`); None or an exception does not
  (`ResultDecides`). A run jams exactly when a waited-for coroutine yields a value or a caller starts
  to wait for a value about to be published (`JamsExactly`), and a run that has come to rest has
  answered everybody exactly when it is not jammed (`RestIsReturnOrJam`). With the await moved after
  the release no run jams (`EarlyReleaseAnswersEveryone`).
- Single flight and `clear()`: a key can then be fetched twice at once (`ClearAllowsTwoLeaders`);
  exactly when: `ClearIsSafeIff`.
- "Bounded" half-open trials: completions of calls from other epochs give back slots they never took,
  so `half_open_max_trials` can be exceeded by any number (`TrialBoundIsTight`), namely by at most the
  number of such completions (`TrialBound`). Exactly when the limit holds, at any moment and from the
  probing call on: `TrialLimitIff`, `ProbeLimitIff`.
- Outer timeouts are cancellations inside the breaker and run no bookkeeping: they never trip it
  (`TimeoutsNeverTrip`), and a trial that times out keeps its slot, so with the limits configured in
  the source one timed-out invocation after a cooldown rejects every later call until a manual reset
  (`TimedOutProbeWedges`; exactly when: `WedgedIff`).
- Memory cache: it evicts when full even if the key being set is already there (`OverwriteEvicts`);
  when that costs another entry, exactly: `OverwriteCostsIff`.
- Hybrid cache: a failed `flushdb` in `clear` is swallowed and old values come back
  (`ClearForgetsIff`); values over the MCP size cap still reach memory (`OversizeStaysInMemory`;
  exactly when: `OversizeKeptIff`, over runs `OversizeOverRuns`).
- Redis limiter: it logs rejected attempts, so its Retry-After is no promise
  (`RedisRetryAfterMisleads`; exactly when: `RedisRetryAfterIff`, for requests under several keys
  `RetryAfterManyKeysIff`), and equal timestamps count once (`SameInstantIsFree`; exactly when it
  counts every attempt: `CountsEachIff`).
- Queue: final statuses are final only if handlers let cancellation through (`FinalUnlessSwallowed`);
  `active_workers` also counts work that was cancelled while queued (`RunningTableExactly`); `stop()`
  leaves dispatched but unstarted work pending for ever (`StopStrandsWaiters`; exactly which tasks are
  never decided: `RestIsDecided`); `list_tasks` returns
  one match even for a limit of zero (`ListTasks`).
- MCP backoff: the wait is computed before it is capped, and from the 1025th counted failure on that
  computation raises, so the server is shut out until the process ends (`CrashesAddUp`; exactly when:
  `CooldownEndsIff`, `ShutOutIff`).
- Approval: the final agent completes at most once a thread (`FinalAtMostOnce`) but can be started
  again after it has raised, exactly as often as it raised (`StartsAreAccountedFor`,
  `FinalCanStartTwice`); rejecting a draft completes the workflow just as approving it does
  (`ResumeCompletes`); once answered, a thread that is planned anew can never be approved again
  (`ReplanNeverApproved`).
- Approval time limit: when a streaming client has gone, the time of its draft is not noted. Then the
  draft never expires (`GoneClientNeverExpires`) or, if an earlier draft of the thread was noted, it
  expires with that one (`StaleTimeExpires`); nor does a draft that waited while the process
  restarted expire (`RestartNeverExpires`). Exactly when the limit holds, and when a draft never
  expires: `TimeLimitIff`, `NeverExpiresIff`.
- Tool output is measured in bytes but cut in characters, so the cap holds only for outputs that need
  no cut (`CapHoldsIff`).

One departure is a matter of definition only: the module header of the breaker calls 4xx errors
permanent, while the code knows exception classes and counts every class outside its list as
transient (the predicate `IsTransient`).

## Model

| member | source | states |
|---|---|---|
| `BreakerRuns.ReachableInv` | tripmate/integrations/circuit_breaker.py:102-194 | in every state any run of overlapping calls and resets reaches: CLOSED means the failure count is below the threshold (thresholds below 1 acting as 1), outside HALF_OPEN the success count is 0, in HALF_OPEN it is below its threshold, the trial counter stays in 0..max, and in HALF_OPEN it lies between the own trials in flight minus strays and plus lost ones |
| `BreakerTheorems.TrialBound` | tripmate/integrations/circuit_breaker.py:106-164 | trials of the current half-open epoch in flight are at most the limit plus the calls of other epochs completed during it; with no such call and no cancelled trial the counter is exactly their number |
| `BreakerTheorems.TrialBoundIsTight` | tripmate/integrations/circuit_breaker.py:139-164 | for every k some run has k strays and k trials more in flight than the limit |
| `BreakerTheorems.TrialLimitIff` | tripmate/integrations/circuit_breaker.py:106-164 | in any reachable HALF_OPEN state the documented limit of trials holds for the rest of the epoch, whatever happens, if and only if no more calls are in flight than slots are taken |
| `BreakerTheorems.ProbeLimitIff` | tripmate/integrations/circuit_breaker.py:106-130 | it holds throughout an epoch if and only if nothing was in flight when the breaker probed, or no trials are allowed at all |
| `BreakerTheorems.TripsOnSuffix` | tripmate/integrations/circuit_breaker.py:143-182 | while CLOSED the counter is the largest excess of transient failures over successes of any suffix of the outcomes since the last close, and one more failure opens the breaker exactly when some suffix then reaches the threshold |
| `BreakerTheorems.ModeChanges` | tripmate/integrations/circuit_breaker.py:102-194 | for each mode and event of any run, exactly when it is left and where to: CLOSED never goes to HALF_OPEN; OPEN goes there only on a call later than the cooldown after the last transient failure, and to CLOSED only by a late success or a reset |
| `BreakerTheorems.ClosesOnSuccesses` | tripmate/integrations/circuit_breaker.py:161-173 | after the probe of a cooled-down breaker and any run within its epoch, the next success closes it, with counters at zero, if and only if it makes the successes of the epoch reach the threshold |
| `BreakerTheorems.OnlyBugsArePermanent` | tripmate/integrations/circuit_breaker.py:93-100 | errors of the six listed classes change neither failure count nor mode; every other error counts as a failure now |
| `BreakerTheorems.RetryAfterIsExact` | tripmate/integrations/circuit_breaker.py:106-122 | a rejected caller is told the wait after which, and not before which, the breaker probes |
| `BreakerTheorems.TimeoutsNeverTrip` | tripmate/integrations/circuit_breaker.py:132-184 | a run from any CLOSED state whose calls end by cancellation, success or permanent error never leaves CLOSED, nor does its failure count rise |
| `BreakerTheorems.WedgedIff` | tripmate/integrations/circuit_breaker.py:124-184 | in any reachable state every future without reset rejects every call if and only if the breaker is HALF_OPEN with its slots taken and no call in flight, or allows no trials at all and too few calls are in flight to close it |
| `CircuitBreakers.CircuitBreaker.constructor` | tripmate/integrations/circuit_breaker.py:69-91 | a closed breaker with all counters zero |
| `CircuitBreakers.CircuitBreaker.BeforeCall` | tripmate/integrations/circuit_breaker.py:104-130 | computes the admission step of the runs, in place |
| `CircuitBreakers.CircuitBreaker.AfterException` | tripmate/integrations/circuit_breaker.py:137-159 | computes the failure step of the runs, in place |
| `CircuitBreakers.CircuitBreaker.AfterSuccess` | tripmate/integrations/circuit_breaker.py:161-184 | computes the success step of the runs, in place |
| `CircuitBreakers.CircuitBreaker.Reset` | tripmate/integrations/circuit_breaker.py:186-194 | back to the initial state, timestamps included |
| `RetryDriver.CallBreaker` | tripmate/integrations/llm_resilience.py:90-93 | the timeout outside the breaker: a timed-out or cancelled call runs no completion segment |
| `RetryDriver.OnePass` | tripmate/integrations/llm_resilience.py:88-99 | one pass calls once more without config exactly if the first call raised TypeError |
| `RetryDriver.InvokeWithResilience` | tripmate/integrations/llm_resilience.py:46-60 | the loop computes the recursive specification of outcome, breaker, number of attempts and sleeps; it returns None without touching the breaker when no pass is allowed |
| `RetryDriver.LoopShape` | tripmate/integrations/llm_resilience.py:39-60 | the loop stops at the first final pass or at the last; one sleep between passes, at least 0.85 of the capped exponential delay and at most 1.15 of the cap |
| `RetryDriver.FailedPassGoesOn` | tripmate/integrations/llm_resilience.py:46-60 | a pass that ends in an exception or by the timeout is followed by the next one, and the invocation is that of the rest, after the smaller of the doubled delay and the cap, times the jitter |
| `RetryDriver.OtherPassEnds` | tripmate/integrations/llm_resilience.py:46-60 | a value, a rejection by the breaker, a cancellation and the last pass end the invocation at once with what the pass gave |
| `RetryDriver.FirstValueIsReturned` | tripmate/integrations/llm_resilience.py:46-60 | a value is returned if some allowed pass yields one and all before it failed by an exception or the timeout |
| `RetryDriver.AnswerIsReal` | tripmate/integrations/mcp.py:40-61 | a value is returned only if a call of the last pass produced it |
| `RetryDriver.TimeoutsAreInvisible` | tripmate/integrations/llm_resilience.py:88-99 | an invocation that only times out leaves the failure record as it was and never opens the breaker; a closed breaker it leaves untouched |
| `RetryDriver.InvokeIsRun` | tripmate/integrations/mcp.py:79-92 | every invocation is a run of its breaker that leaves no call in flight, so the run theorems hold of the driver |
| `RetryDriver.TimeoutsLeak` | tripmate/integrations/llm_resilience.py:88-99 | in HALF_OPEN each timed-out pass keeps one trial slot, up to the limit |
| `RetryDriver.TimedOutProbeWedges` | tripmate/integrations/llm_resilience.py:63-127 | one invocation that times out on every pass after the cooldown of an idle breaker, with as many passes as slots, makes every later call fail until reset |
| `SingleFlightTheorems.OneLeaderPerKey` | tripmate/cache/ttl_cache.py:102-132 | in every run without clear, in both protocols, a key has one leader at most and the table names it |
| `SingleFlightTheorems.AnswersAgree` | tripmate/cache/ttl_cache.py:103-132 | a follower gets its leader's outcome, and a value was stored under that key before anybody got it |
| `SingleFlightTheorems.AnswersAreResults` | tripmate/cache/ttl_cache.py:112-129 | over runs without clear a leader answers just what its coroutine ended with, be it a value, None or an exception, and a follower what its leader's ended with |
| `SingleFlightTheorems.ValuesComeFromFetches` | tripmate/cache/ttl_cache.py:97-124 | every value handed out was produced in this run by the coroutine of a caller of the same key |
| `SingleFlightTheorems.StuckForever` | tripmate/cache/ttl_cache.py:103-121 | a follower waiting under the lock for a leader that has to publish: whatever follows, the lock stays held and no call returns any more |
| `SingleFlightTheorems.ResultDecides` | tripmate/cache/ttl_cache.py:103-129 | a follower that waits for a running coroutine: the cache jams if and only if that yields a value; None or an exception frees the follower |
| `SingleFlightTheorems.JamsExactly` | tripmate/cache/ttl_cache.py:103-129 | a run jams if and only if in some step of it the coroutine of a leader somebody waits for yields a value, or a caller starts to wait for a leader whose value is not yet published |
| `SingleFlightTheorems.TwoCallersJam` | tripmate/cache/ttl_cache.py:96-121 | two concurrent callers of one missing key, the second coming while the first fetches, reach the jam in five steps |
| `SingleFlightTheorems.StepsAreBounded` | tripmate/cache/ttl_cache.py:88-132 | a measure falls at every step of every run without clear |
| `SingleFlightTheorems.RestIsReturnOrJam` | tripmate/cache/ttl_cache.py:88-132 | a run takes five steps a caller at most, and at rest everybody has returned if and only if the cache is not jammed |
| `SingleFlightTheorems.EarlyReleaseAnswersEveryone` | tripmate/cache/ttl_cache.py:88-132 | with the await moved after the release every run that has come to rest has answered every caller |
| `SingleFlightTheorems.ClearAllowsTwoLeaders` | tripmate/cache/ttl_cache.py:134-140 | clear lets two fetches of one key run at once |
| `SingleFlightTheorems.UnexposedClearsAreSafe` | tripmate/cache/ttl_cache.py:102-140 | any number of clears, none while a key being fetched has a caller yet to register, leaves one leader per key over whole runs |
| `SingleFlightTheorems.ClearIsSafeIff` | tripmate/cache/ttl_cache.py:102-140 | one more clear in a state such runs reach leaves one leader per key in every continuation up to the next clear if and only if no key being fetched has a caller that has still to register |
| `TtlStore.PutCost` | tripmate/cache/ttl_cache.py:43-52 | a set keeps the size within the bound and loses at most one unexpired entry, one of minimal expiry |
| `TtlStore.BoundedAlways` | tripmate/cache/ttl_cache.py:43-86 | after every operation of every run the size is at most max_entries |
| `TtlStore.HitsAreLatest` | tripmate/cache/ttl_cache.py:54-86 | every hit is the value of the latest set of that key since the last clear, unexpired |
| `TtlStore.ExactWhileRoomy` | tripmate/cache/ttl_cache.py:43-86 | while fewer keys than max_entries have been set since the last clear, every read answers exactly as an unbounded map with expiry times |
| `TtlStore.ReadsOwnWrite` | tripmate/cache/ttl_cache.py:54-86 | what was just set is read back until it expires, however full the cache was |
| `TtlStore.OverwriteCostsIff` | tripmate/cache/ttl_cache.py:43-52 | an overwrite is bound to lose another live entry if and only if the cache is full of live entries and another one expires strictly earlier than the one overwritten, and may lose one, as ties are broken, if and only if another one expires no later |
| `TtlStore.OverwriteEvicts` | tripmate/cache/ttl_cache.py:84-86 | it happens in a cache for two |
| `BoundedCache.BoundedAsyncTtlCache.constructor` | tripmate/cache/ttl_cache.py:22-29 | an empty cache |
| `BoundedCache.BoundedAsyncTtlCache.EvictIfFull` | tripmate/cache/ttl_cache.py:43-52 | the loop ends with nothing removed while there is room, else only expired entries, else earliest-expiring ones down to one free slot; it fails exactly for a bound below one |
| `BoundedCache.BoundedAsyncTtlCache.EarliestExpiring` | tripmate/cache/ttl_cache.py:51 | a key of minimal expiry |
| `BoundedCache.BoundedAsyncTtlCache.Get` | tripmate/cache/ttl_cache.py:54-75 | the read step of the store and the lookup step of the protocol; one hit or miss counted |
| `BoundedCache.BoundedAsyncTtlCache.Set` | tripmate/cache/ttl_cache.py:77-86 | the put step of the store; the entry expires after the given seconds, or the default if none are given |
| `BoundedCache.BoundedAsyncTtlCache.Register` | tripmate/cache/ttl_cache.py:102-110 | lead, follow (keeping the lock as coded) or answer at once, as the protocol's step |
| `BoundedCache.BoundedAsyncTtlCache.CoroutineEnded` | tripmate/cache/ttl_cache.py:112-129 | None and exceptions resolve the future at once, to just that outcome; a value resolves nothing yet |
| `BoundedCache.BoundedAsyncTtlCache.Publish` | tripmate/cache/ttl_cache.py:120-128 | the value is stored, then the future resolved; with a bound below one the eviction error resolves it |
| `BoundedCache.BoundedAsyncTtlCache.Retire` | tripmate/cache/ttl_cache.py:130-132 | only the in-flight entry goes |
| `BoundedCache.BoundedAsyncTtlCache.WakeFollower` | tripmate/cache/ttl_cache.py:103-106 | the follower takes the outcome of the future and lets the lock go |
| `BoundedCache.BoundedAsyncTtlCache.Clear` | tripmate/cache/ttl_cache.py:134-140 | store, in-flight table and counters are empty; futures live on |
| `HybridTiers.TiersAgree` | tripmate/cache/redis_cache.py:60-224 | under any Redis failures in sequential runs, Redis holding anything at the start: while it is in use a key in both tiers has one value; every hit of a get is the last value written under its key, or found there, and a get_or_set of either kind answers that value or the one it has fetched |
| `HybridTiers.ReadsOwnWrite` | tripmate/cache/redis_cache.py:87-98 | what a set has written to Redis is read back from it |
| `HybridTiers.FetchedIsMirrored` | tripmate/cache/redis_cache.py:113-130 | what either read-through has fetched and Redis took is read back from Redis |
| `HybridMemory.AnswersAsMap` | tripmate/cache/redis_cache.py:60-130 | over runs without an answer from Redis, gets and both read-throughs answer exactly as a map with expiry times, nothing being fetched that is alive, while the keys written since the last clear leave a slot free (get_or_set_mcp stores its value twice) |
| `HybridMemory.CallStores` | tripmate/cache/ttl_cache.py:54-132 | however full memory is: what each call on it leaves under its key and answers |
| `HybridMemory.ReadBack` | tripmate/cache/ttl_cache.py:54-98 | what memory holds under a key is what the next get or read-through of it answers until it expires |
| `HybridTiers.FailoverOnlyLoses` | tripmate/cache/redis_cache.py:60-85 | losing Redis at a read turns a hit into a miss at worst, never into another value |
| `HybridTiers.NeverReturnsToRedis` | tripmate/cache/redis_cache.py:82-98 | once given up Redis is not used again |
| `HybridTiers.CapHoldsInRedis` | tripmate/cache/redis_cache.py:178-196 | no value above the size cap ever reaches Redis under a key that only the MCP path writes |
| `HybridTiers.OversizeKeptIff` | tripmate/cache/redis_cache.py:198-224 | from tiers within the cap at a key that plain sets do not write, memory holds an oversize value under it after an operation if and only if that was a get_or_set_mcp that had to fetch one; set_mcp never puts one there |
| `HybridTiers.OversizeOverRuns` | tripmate/cache/redis_cache.py:198-224 | over runs, memory holds one at some time if and only if some get_or_set_mcp of the key had to fetch one |
| `HybridTiers.OversizeStaysInMemory` | tripmate/cache/redis_cache.py:213-224 | it happens whenever both tiers lack the key |
| `HybridTiers.ClearForgetsIff` | tripmate/cache/redis_cache.py:226-233 | after clear a key is gone if and only if Redis was unused, flushed, or lacked it |
| `HybridCache.RedisHybridCache.constructor` | tripmate/cache/redis_cache.py:34-58 | Redis is used exactly if the client was built, with whatever it holds |
| `HybridCache.RedisHybridCache.Get` | tripmate/cache/redis_cache.py:60-85 | Redis if it has the key, and else exactly what the TTL cache answers; a failure switches Redis off |
| `HybridCache.RedisHybridCache.Set` | tripmate/cache/redis_cache.py:87-98 | memory first, then Redis; a failed write switches Redis off |
| `HybridCache.RedisHybridCache.SetMcp` | tripmate/cache/redis_cache.py:167-196 | as set, but refuses values above the cap |
| `HybridCache.RedisHybridCache.GetOrSet` | tripmate/cache/redis_cache.py:100-130 | read through both tiers, memory by the read and put steps of the TTL cache; after a fetch Redis first with failures swallowed, then memory |
| `HybridCache.RedisHybridCache.GetOrSetMcp` | tripmate/cache/redis_cache.py:198-224 | the same with set_mcp for the mirror: its failure switches Redis off, and memory is written twice |
| `HybridCache.RedisHybridCache.Clear` | tripmate/cache/redis_cache.py:226-233 | memory is emptied, Redis if the flush succeeds |
| `LimiterTheorems.DecidesByFullHistory` | tripmate/middleware/__init__.py:164-296 | each in-memory verdict on an identifier never evicted is the one its complete admission history gives, the failure on an empty log for limits below one included; eviction errs only towards admitting |
| `LimiterTheorems.CleanupWhen` | tripmate/middleware/__init__.py:164-167 | cleanup does nothing unless forced, a minute has passed or the table is full |
| `LimiterTheorems.CleanupDropsDead` | tripmate/middleware/__init__.py:168-181 | a record stays only if its last request is in the window, and of users every such record does |
| `LimiterTheorems.CleanupCuts` | tripmate/middleware/__init__.py:183-188 | a record in the window goes only when the request table is cut to half its bound |
| `LimiterTheorems.CleanupKeepsRecent` | tripmate/middleware/__init__.py:184-188 | no record that stays is less recent than one that is cut |
| `LimiterTheorems.WindowNeverOverfull` | tripmate/middleware/__init__.py:277-296 | no interval of window length holds more than the limit (a limit below zero counting as none) of admissions of an identifier never evicted |
| `LimiterTheorems.TableIsBounded` | tripmate/middleware/__init__.py:164-188 | the request table never exceeds max_tracked_ips (one record at least is kept) |
| `LimiterTheorems.RetryAfterIsTight` | tripmate/middleware/__init__.py:287-292 | on a history: after a rejection the earliest admissible instant is exactly the oldest kept timestamp plus the window; the integer told is at most the larger of 1 and that wait, and one second more suffices |
| `LimiterTheorems.RetryAfterOverRuns` | tripmate/middleware/__init__.py:277-296 | in any run, with no admission of that identifier in between and no eviction of it: a later attempt passes if and only if it comes at that instant or later, and the rejected one was told that wait to within a second |
| `RedisLimiter.RedisIsStricter` | tripmate/middleware/__init__.py:252-271 | at distinct times, whatever the Redis form admits the memory form admits |
| `RedisLimiter.CountsEachIff` | tripmate/middleware/__init__.py:252-263 | for every sequence of attempts in time order the Redis count is at most the number of attempts in the window, and equal to it if and only if no two of those share a timestamp |
| `RedisLimiter.SameInstantIsFree` | tripmate/middleware/__init__.py:257 | of any number of attempts at one instant the Redis form counts one, while the memory form admits up to its limit |
| `RedisLimiter.RedisRetryAfterIff` | tripmate/middleware/__init__.py:254-270 | after a rejection with nothing else attempted under the key, an attempt passes exactly from the time on when the timestamp with maxRequests - 1 later ones leaves the window; the wait told suffices if and only if it has left by then; at the leaving of the oldest timestamp, from which that wait is computed, the client is still rejected unless the rejected attempt repeated a timestamp |
| `RedisLimiter.RetryAfterManyKeysIff` | tripmate/middleware/__init__.py:248-270 | the same for a request under several keys: a later one passes if and only if it comes when every key has room again, while the wait told is that of the first full key |
| `RedisLimiter.RedisRetryAfterMisleads` | tripmate/middleware/__init__.py:254-270 | a client that waits half a second longer than told is rejected again |
| `RedisLimiter.ToldIsRounded` | tripmate/middleware/__init__.py:269-270 | the number told is in whole seconds, at least one, and otherwise the wait rounded down |
| `LimiterFailover.FailoverBound` | tripmate/middleware/__init__.py:298-336 | over any run of dispatches of any clients with any Redis failures: in any window an address whose records were never evicted and whose requests come at distinct times is served at most the Redis limit if Redis was in use at the start, plus, once Redis has failed, the limits of the fallback records its requests fall under |
| `LimiterFailover.UserBound` | tripmate/middleware/__init__.py:332-336 | over any such run one user is served at most the limit in any window, from however many addresses, whether Redis answers or not |
| `LimiterFailover.DispatchDecides` | tripmate/middleware/__init__.py:298-336 | each dispatch of a run is let through if and only if Redis, if it answers, has room under all its keys, else the record of the address (for LLM routes when failing closed the emergency record and cap) has room, and for a named user so has the user's record in memory |
| `LimiterFailover.EveryRunIsCarried` | tripmate/middleware/__init__.py:298-336 | every sequence of dispatches with a clock that does not run backwards is a run FailoverBound is about |
| `LimiterFailover.StepDispatches` | tripmate/middleware/__init__.py:298-336 | every step of such a run is a dispatch of the limiter |
| `RateLimiter.SlidingWindowRateLimiter.constructor` | tripmate/middleware/__init__.py:147-162 | empty tables; Redis holds what it holds |
| `RateLimiter.SlidingWindowRateLimiter.CleanupStaleRecords` | tripmate/middleware/__init__.py:164-188 | when due, exactly the expired records go, and if that is not enough the least recent down to half the bound |
| `RateLimiter.SlidingWindowRateLimiter.DropExpired` | tripmate/middleware/__init__.py:168-181 | both tables keep exactly the records with a timestamp in the window |
| `RateLimiter.SlidingWindowRateLimiter.EvictOldest` | tripmate/middleware/__init__.py:184-188 | the given number of records goes, none more recent than one that stays |
| `RateLimiter.SlidingWindowRateLimiter.IsRateLimitedInMemory` | tripmate/middleware/__init__.py:277-296 | the check step of the runs: cleanup, pruning, verdict; a rejection writes no timestamp |
| `RateLimiter.SlidingWindowRateLimiter.Prune` | tripmate/middleware/__init__.py:288 | keeps exactly the timestamps in the window, in order |
| `RateLimiter.SlidingWindowRateLimiter.IsRateLimitedRedis` | tripmate/middleware/__init__.py:240-275 | the pipeline over the client's keys and its verdict, or a failure that switches Redis off |
| `RateLimiter.SlidingWindowRateLimiter.ExecutePipeline` | tripmate/middleware/__init__.py:253-259 | per key: drop, count, add |
| `RateLimiter.SlidingWindowRateLimiter.InspectCounts` | tripmate/middleware/__init__.py:261-271 | the first key whose count had reached the limit rejects, with the wait of its oldest member |
| `RateLimiter.SlidingWindowRateLimiter.Dispatch` | tripmate/middleware/__init__.py:298-336 | Redis, else memory under the address or its emergency record, and then the user in memory |
| `McpTheorems.CachedToolsAreLive` | mcp_client.py:139-239 | in every reachable state a cached tool has a live session and failure count 0 |
| `McpTheorems.LoadedToolIsCached` | mcp_client.py:139-204 | a load that lists the tool answers with it, and so does the next call, without touching the connection |
| `McpTheorems.AnswersExactly` | mcp_client.py:139-204 | the tool is found if and only if it is in the table afterwards, and each other answer has exactly its reason |
| `McpTheorems.Counting` | mcp_client.py:171-239 | a failed attempt or a crash report counts one failure now and drops just the server's session and tools, a load resets the count and adds just the listed tools, a shutdown and a cancellation leave it |
| `McpTheorems.WaitsExactly` | mcp_client.py:150-156 | attempts are let through exactly from 0.5, 1, 2, 4, 8 and then always 15 seconds after the last failure on |
| `McpTheorems.CooldownEndsIff` | mcp_client.py:148-156 | attempts are let through from fifteen seconds after the last failure on if and only if at most 1024 failures are counted; with more they never are |
| `McpTheorems.ShutOutIff` | mcp_client.py:139-239 | in every reachable state no continuation, shutdowns and crash reports included, ever attempts a connection again if and only if more than 1024 failures are counted |
| `McpTheorems.CrashesAddUp` | mcp_client.py:206-216 | crash reports alone reach any count |
| `McpTheorems.AttemptsAreSpaced` | mcp_client.py:148-196 | at a server that is down, attempt k after the first comes at least the sum of the first k waits later, in closed form 15.5 + 15(k-5) seconds from k = 5 on, so attempts in T seconds are at most T/15 + 6, whatever crash reports and shutdowns intervene |
| `McpClient.MCPManager.GetTool` | mcp_client.py:139-204 | the step of the runs, on the four tables in place |
| `McpClient.MCPManager.CheckBackoff` | mcp_client.py:148-156 | open, in cooldown, or the wait cannot be computed |
| `McpClient.MCPManager.AddTools` | mcp_client.py:182-183 | exactly the listed tools are added |
| `McpClient.MCPManager.DropSession` | mcp_client.py:192-195 | the session and exactly the server's tools go |
| `McpClient.MCPManager.HandleToolCrash` | mcp_client.py:206-216 | one failure more, session and tools dropped |
| `McpClient.MCPManager.Shutdown` | mcp_client.py:227-239 | tools and sessions are emptied, failure records stay |
| `QueueTheorems.OrderAndPermits` | tripmate/tasks/queue.py:145-196 | in every run, stops and restarts included: workers are made in submission order, a handler is called at most once a task, and once if the record completed or failed; permits and their holders add up to the bound; RUNNING records belong to permit holders |
| `QueueTheorems.RunningIsBounded` | tripmate/tasks/queue.py:172-196 | within one start no more than max_concurrent_workers records read RUNNING |
| `QueueTheorems.FinalUnlessSwallowed` | tripmate/tasks/queue.py:121-196 | a final status changes if and only if a handler swallows a requested cancellation and ends otherwise |
| `QueueTheorems.FinalIsFinal` | tripmate/tasks/queue.py:121-196 | with handlers that let cancellation through, COMPLETED, FAILED and CANCELLED are absorbing in every run |
| `QueueTheorems.RecordsAreResults` | tripmate/tasks/queue.py:182-196 | in every run a record reads COMPLETED if and only if its handler returned, and FAILED if and only if it raised |
| `QueueTheorems.WhoSees` | tripmate/tasks/queue.py:94-138 | in every run a record is seen by everybody if no user is named or it was submitted without owner, else by its owner, and whoever sees it can cancel it until it is decided |
| `QueueTheorems.Conservation` | tripmate/tasks/queue.py:65-196 | without stop an undecided task is at one place of the FIFO or with one live uncancelled listed worker, never both |
| `QueueTheorems.RunningTableExactly` | tripmate/tasks/queue.py:48-196 | in every run the running table lists exactly the live uncancelled workers and, of the tasks dispatched since stop last emptied it, those cancelled while queued and skipped |
| `QueueTheorems.StepLosesIff` | tripmate/tasks/queue.py:48-196 | a step leaves a pending task without a worker that can run it if and only if it was so and is not cancelled, or the step is the end of stop and catches the task between dispatch and handler |
| `QueueTheorems.RunLosesIff` | tripmate/tasks/queue.py:48-196 | a run does so if and only if some stop of it catches the task, and no cancellation by somebody who may see it follows |
| `QueueTheorems.RestIsDecided` | tripmate/tasks/queue.py:145-196 | at rest with at least one permit a task is undecided if and only if some stop of the run caught it between dispatch and handler and nobody who may see it has cancelled it since |
| `QueueTheorems.StopStrandsWaiters` | tripmate/tasks/queue.py:48-63 | stop leaves every dispatched task that has not entered its handler pending with no worker |
| `QueueTheorems.StrandedStays` | tripmate/tasks/queue.py:121-138 | such a task stays pending unless a caller who may see it cancels it |
| `QueueTheorems.SchedulingEnds` | tripmate/tasks/queue.py:145-196 | scheduler steps run out: four a queued task at most |
| `TaskQueue.AsyncTaskQueue.constructor` | tripmate/tasks/queue.py:24-32 | an empty, stopped queue |
| `TaskQueue.AsyncTaskQueue.Start` | tripmate/tasks/queue.py:39-46 | a new semaphore, unless already running |
| `TaskQueue.AsyncTaskQueue.StopBegin` | tripmate/tasks/queue.py:50-56 | no dispatch any more |
| `TaskQueue.AsyncTaskQueue.StopEnd` | tripmate/tasks/queue.py:58-63 | cancels every listed live worker and empties the table |
| `TaskQueue.AsyncTaskQueue.SubmitTask` | tripmate/tasks/queue.py:65-92 | an unknown task name is refused and changes nothing; else a pending record and its id at the end of the FIFO |
| `TaskQueue.AsyncTaskQueue.GetTask` | tripmate/tasks/queue.py:94-101 | the record, unless it belongs to another named user |
| `TaskQueue.AsyncTaskQueue.CancelTask` | tripmate/tasks/queue.py:121-138 | true exactly if the record is visible and undecided; then it reads CANCELLED and its listed worker is cancelled |
| `TaskQueue.AsyncTaskQueue.DispatchOne` | tripmate/tasks/queue.py:147-156 | the oldest id gets a worker and an entry in the table |
| `TaskQueue.AsyncTaskQueue.BeginWorker` | tripmate/tasks/queue.py:163-172 | skips a cancelled record, without leaving the table |
| `TaskQueue.AsyncTaskQueue.AcquirePermit` | tripmate/tasks/queue.py:172-182 | takes a permit, marks the record RUNNING and calls the handler |
| `TaskQueue.AsyncTaskQueue.EndHandler` | tripmate/tasks/queue.py:182-196 | COMPLETED if the handler returned, FAILED if it raised, CANCELLED if it was cancelled; permit and table entry given back |
| `TaskQueue.AsyncTaskQueue.DeliverCancellation` | tripmate/tasks/queue.py:163-172 | a cancelled worker outside its handler dies with the record as it is |
| `TaskQueue.AsyncTaskQueue.GetStats` | tripmate/tasks/queue.py:199-219 | the five counts are those of the records and sum to the total |
| `TaskQueue.AsyncTaskQueue.ListTasks` | tripmate/tasks/queue.py:103-119 | the newest matching records, at most the limit but one at least if any matches |
| `TaskQueue.AsyncTaskQueue.MatchingMeans` | tripmate/tasks/queue.py:109-119 | the matching records are all there, once each, newest first |
| `TaskQueue.AsyncTaskQueue.MatchesMeans` | tripmate/tasks/queue.py:112-115 | a record matches if and only if the user may see it and it has the status asked for |
| `Workflow.NoReviewNoFinal` | tripmate/graph/workflow.py:295-312 | without a review a run stops before the final agent; it has ended exactly if blocked and is interrupted exactly at the approval |
| `Workflow.ReviewRunsFinal` | tripmate/graph/workflow.py:247-292 | a reviewed run goes on to the final agent, approved or not, starts it at most once and ends COMPLETED unless something raises |
| `Approval.FinalAtMostOnce` | tripmate/services/travel_service.py:143-202 | over all runs of calls on all threads: the final agent completes at most once a thread and process, only in a resume of a thread that was waiting, in time and unanswered; once answered it is not even started again |
| `Approval.StartsAreAccountedFor` | tripmate/services/travel_service.py:143-202 | in every run the final agent of a thread is started as often as it raised plus at most once; it is started more than once exactly when a run of it that raised was followed by another |
| `Approval.FinalCanStartTwice` | tripmate/services/travel_service.py:189-202 | four calls in which it raises, the thread is planned anew, and it runs again to completion |
| `Approval.ReplayIsStable` | tripmate/services/travel_service.py:154-156 | an answered thread gives the same answer to every later resume, whatever its arguments and whatever came in between, and nothing changes |
| `Approval.ResumeCompletes` | tripmate/services/travel_service.py:189-202 | a successful resume answers COMPLETED with the caller's verdict on the draft, even when it is a rejection |
| `Approval.ResumeElseInert` | tripmate/services/travel_service.py:161-187 | a resume that does not advance its thread leaves every checkpoint and time alone, and its answer is determined |
| `Approval.RunReplies` | tripmate/services/travel_service.py:66-141 | a call that starts a run answers the draft waiting for approval, the refusal of a blocked query, or the failure of a node the run reaches, or is not found; it notes the time exactly in the first case and touches no other thread |
| `Approval.GoneReplies` | tripmate/services/travel_service.py:326-328 | a stream whose client has gone runs the same but answers and notes nothing |
| `Approval.ResumeReplies` | tripmate/services/travel_service.py:143-202 | in every reachable state the answer of a resume, case by case, and what it leaves behind |
| `Approval.LetOnIff` | tripmate/services/travel_service.py:181-187 | in any run of a process a resume advances a waiting unanswered thread if and only if no interrupt of it was noted in this process or the one noted last is not too old |
| `Approval.TimeLimitIff` | tripmate/services/travel_service.py:181-187 | the time limit holds as documented, counted from the interrupt the thread waits at, if and only if the time of that interrupt was noted |
| `Approval.NeverExpiresIff` | tripmate/services/travel_service.py:181-187 | a waiting thread never expires if and only if no interrupt of it was noted in this process |
| `Approval.ResumedInTime` | tripmate/services/travel_service.py:181-187 | if the interrupt a thread waits at was noted, the thread is advanced only within the time limit of that interrupt |
| `Approval.GoneClientNeverExpires` | tripmate/services/travel_service.py:326-343 | a thread without a noted time whose streaming client has gone can be resumed after any delay |
| `Approval.StaleTimeExpires` | tripmate/services/travel_service.py:182-187 | if an earlier draft of the thread was noted, the draft of the gone client expires with that one, however new it is |
| `Approval.RestartNeverExpires` | tripmate/services/travel_service.py:181-187 | a thread that was waiting when the process restarted can be resumed after any delay |
| `Approval.ReplanNeverApproved` | tripmate/services/travel_service.py:154-156 | no sequence of resumes advances a thread answered once, though it was planned anew |
| `TravelServices.TravelService.constructor` | tripmate/services/travel_service.py:61-64 | nothing remembered, checkpoints as found |
| `TravelServices.TravelService.ExecuteTravelPlan` | tripmate/services/travel_service.py:66-141 | the execute step of the runs, answering the draft or the refusal; the interrupt time is noted |
| `TravelServices.TravelService.StreamTravelEvents` | tripmate/services/travel_service.py:204-365 | the stream step: as execute, but the time is noted only if the client is still there |
| `TravelServices.TravelService.ResumeTravelPlan` | tripmate/services/travel_service.py:143-202 | the resume step: replay, state check, time check, review, bookkeeping, in this order |
| `Finance.RoundsTo` | tripmate/services/financial_service.py:33-35 | rounding is to the nearest integer, away from zero on a tie, and to no other, for amounts of either sign |
| `Finance.ExactAmounts` | tripmate/services/financial_service.py:43-52 | hotel and food count the nights, taxes and buffer are their percentages of the subtotal, the total is spread over the nights |
| `Finance.DisplayedAmounts` | tripmate/services/financial_service.py:54-65 | every amount shown, the daily average included, is the exact one to the nearest cent |
| `Finance.DisplayedPartsAddUp` | tripmate/services/financial_service.py:41-65 | the parts shown add up to the totals shown, within one cent for the grand total and two for the subtotal |
| `Finance.DisplayBoundsAreTight` | tripmate/services/financial_service.py:41-65 | both bounds are reached |
| `Finance.ConvertCurrency` | tripmate/services/financial_service.py:67-88 | an amount exactly if both codes are known in some case, the source code being checked first; it is the exact conversion by way of dollars to the nearest cent |
| `Finance.OneDollarBuys` | tripmate/services/financial_service.py:20-30 | one dollar buys the amount quoted for each currency on offer |
| `Finance.ConversionError` | tripmate/services/financial_service.py:77-88 | there and back is off by at most half a cent times the source rate over the target rate plus half a cent, for amounts of either sign |
| `Finance.RoundTripError` | tripmate/services/financial_service.py:77-88 | the same in cents for a given ratio of rates, and exact when the ratio is at least one |
| `Finance.RoundTripIff` | tripmate/services/financial_service.py:77-88 | all cent amounts, of either sign or non-negative, survive the round trip if and only if the target rate is not below the source rate |
| `Finance.SupportedRoundTrip` | tripmate/services/financial_service.py:20-88 | the exact round trip for the currencies on offer, whatever the case of their codes |
| `ToolOutput.CapHoldsIff` | tripmate/integrations/mcp.py:64-68 | the capped output is within the byte limit if and only if the output was; its excess is bounded |
| `ToolOutput.CapKeeps` | tripmate/integrations/mcp.py:64-68 | what fits is passed on unchanged; of the rest the first max characters are kept and marked |

## Left out

- LLM, MCP, HTTP, Redis and PostgreSQL I/O: nondeterministic outcomes given to the steps.
- Cancellation of single-flight callers: in asyncio it would cancel the shared future; the
  single-flight theorems are about runs without it.
- A memory bound below one in the single-flight runs and the hybrid cache: `Set` and `Publish` report
  the failure, the rest assumes a bound of at least one.
- Blanks around the feedback on a draft: it stands for its stripped text.
- Ties in eviction order: dictionaries are maps, so which of several earliest-expiring entries (or
  least recent addresses) goes is left open.
- None stored with a plain `set`: a cached value is never None in the model, and JSON text stands for
  the value it encodes.
- Interleaved calls of the hybrid cache, and other processes writing to the same Redis server.
- Custom `permanent_exceptions`, `last_state_change`, `get_status`, metrics and log messages.
- Rounding of the breaker's retry-after figure and of hit rates; binary floating point everywhere.
- Identifier strings of the limiter: addresses, emergency and user keys are kept apart by
  construction; how the client address and user are read from headers is not part of this model.
- Dispatches that overlap while Redis is being asked: a dispatch is one step and reads the clock once.
- `X-RateLimit-*` headers, request bodies, security headers and structured logging.
- `safe_*` wrappers beyond their breaker and retry shape, LLM token accounting, credential handling.
- Handlers missing at execution time: handlers are never unregistered, so the branch that reports one
  missing is the case where the handler raises.
- `RUN_STORE`, `ACTIVE_RUNS`, event publishing, SSE text, ownership lookups (a flag says whether they
  pass) and the agents' text; the recursion limit of the graph engine.
- Unicode upper case of unknown currency codes in the text of the error.
- `analyze_budget_variance`: single expressions.
- FastAPI routes, schemas, settings, migrations, CQRS buses, adapters, repositories, registries.
