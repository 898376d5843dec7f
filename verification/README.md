# Verified core of the API gateway

This project models, in Dafny, the stateful protocols of the gateway and the path-template language that feeds
them, and proves what they guarantee over every input, every reachable state and every run.

| file | what it holds |
|---|---|
| `Recency.dfy`, `RecencyRuns.dfy` | the bounded TTL+LRU cache as a value, and theorems about all its runs: order of use, the eviction victim, how long a key stays |
| `Elements.dfy`, `LruCache.dfy` | the cache as it is written, a map and a list of shared elements updated in place, proved to compute the value functions |
| `GuardedFill.dfy` | the snapshot / lookup / fetch / conditional fill protocol as a transition system over arbitrary interleavings |
| `CacheKey.dfy`, `Authz.dfy`, `DecisionRuns.dfy` | the decision-cache key, `decide` with its cache and metrics, and the decision cache under concurrency |
| `Watcher.dfy`, `Convergence.dfy` | the outbox watcher, alone, composed with the guarded cache, and with the decision cache |
| `Dpop.dfy` | DPoP replay protection and the exact bound on its parameters |
| `Introspection.dfy` | the introspection cache with the `exp` clamp |
| `Fifo.dfy`, `IdempotencyStore.dfy`, `IdempotencyRuns.dfy`, `IdempotencySimulation.dfy`, `IdempotencyWindow.dfy` | the idempotency store as a value and as a class, the single-flight protocol as a transition system, the tie between the two, and at-most-once for a key |
| `Metrics.dfy` | counters and latency histogram |
| `Text.dfy`, `RestRouter.dfy`, `ResourceExtractor.dfy` | splitting and joining, the route matcher, the field extractor, and their agreement |
| `FieldNames.dfy`, `ForwardedFor.dfy` | field-name conversion, client address from forwarded headers |

Classes follow the source where it updates state in place; each of their methods is tied to a function on the
abstract state, and the theorems are about those functions. Each method that holds a lock in the source is one
atomic step. The clock is an integer parameter (nanoseconds); an operation that reads the clock twice takes two
parameters.

## Premises

- The invalidation generation is a natural number: fewer than 2^64 invalidations happen.
- SHA-256 in hexadecimal is a function parameter `hash`; key faithfulness assumes that it is injective and that its
  text has no bar.
- The cache key does not hold the required relation (internal/middleware/authz_cache.go:98 against
  internal/middleware/authz.go:968-979), and its parts are joined without escaping. Transparency therefore needs that
  requests which share a key agree in what it stands for and have one relation; `DecisionRuns.TransparentExactly` shows
  that it needs this and no more, whatever the hash. For requests without bars behind the subject, and an injective
  hash without bars, the relation alone matters (`DecisionRuns.TransparentForPlain`).
- The values of the selected context fields are given as the text that the key renders them to.
- Changes commit to the outbox with ascending ids, one poll is in progress at a time, a poll returns a non-empty batch
  when there is something past the cursor (the batch limit is positive), and the head it comes with is one that has
  been reached when the watcher acts on it.
- The watcher's first successful poll adopts the head without a flush, so convergence is about the changes with an id
  past the adopted head, whenever they were committed; `Watcher.NeverFlushed` shows that the others cause no flush.
- Times do not overflow; latencies and bucket bounds are real numbers, so their sums do not round.
- Text is a sequence of characters; upper-casing of a method name is that of ASCII letters.

## Findings

- Replay protection holds in every run if and only if the TTL is at least twice the freshness plus the largest gap
  between the two clock readings. The defaults (120 s and 60 s) meet it exactly with gap zero and with no larger gap
  (`Dpop.SafeExactly`, `Dpop.DefaultsSafe`).
- `finishLeader` and `abortLeader` close the flight's channel after they have released the lock, so for a moment a
  follower's flight is neither registered nor closed (`IdempotencyRuns.UnregisteredBeforeClosed`). It is one of the two
  exactly when its leader is not between the two steps, and the leader's next step closes it
  (`IdempotencyRuns.NoneStranded`).
- A follower of an aborted leader calls downstream on its own, without a reservation. Downstream is called exactly by
  leaders and by such followers (`IdempotencyWindow.CallersExactly`), each once (`IdempotencyRuns.OneCallEach`). A
  leader is alone in its window exactly if no such follower is pending, that is waiting or about to call, when it is
  admitted (`IdempotencyWindow.AloneExactly`); one that is pending can always come to call while a leader of the key
  is at work or has its response stored (`IdempotencyWindow.FollowerRunsBesideLeader`).
- The matcher takes the first `:` of the last segment as the verb separator, the extractor the last `:` of every
  segment. On a path that matches, the extractor accepts exactly if `ResourceExtractor.Acceptable` holds, and gives
  every field as the matcher saw it exactly if `ResourceExtractor.Unambiguous` holds. Between the two lie the segments
  that end in `:`: for `/x:/b` and `/{id}/b` the matcher sees `x:` and the extractor gives `x`.
- The extractor is handed the template of the first binding of the resolved name, which need not be the one that
  matched; a field is found exactly if the path matches that template too (`ResourceExtractor.FirstBindingDecides`).
- The router cuts its path at a `?`, the extractor reads the same path whole (internal/middleware/authz_util.go:175,
  internal/middleware/resource_extractor.go:117). The extractor reads what was resolved exactly if the path has no `?`
  (`ResourceExtractor.ReadAsResolvedExactly`); `/x?q` is resolved as `/x` and gives `x?q` for `/{id}`
  (`ResourceExtractor.QuestionReadExample`).
- A request shares its decision key with one that differs from it exactly if it has a bar in action, type or id, or any
  selected context field (`CacheKey.AloneExactly`). Among requests whose parts have no bar, keys are faithful
  (`CacheKey.KeyFaithful`). Invalidation of a subject also drops the keys of subjects that extend it by a bar
  (`CacheKey.SubjectMatch`).
- The order of the route table never matters exactly when overlapping templates of a method lead to one RPC.
- Text before a forwarded-for header changes nothing exactly when the header has at least as many entries as there
  are trusted hops.

## Model

| member | source | states |
|---|---|---|
| LruCache.Cache.constructor | internal/lrucache/lrucache.go:50-67 | an empty valid cache; non-positive size and TTL fall back to 10000 and five seconds |
| LruCache.Cache.Get | internal/lrucache/lrucache.go:71-88 | returns exactly the abstract live value; an expired entry is dropped, a live one moves to the front; map and list stay in bijection within the capacity |
| LruCache.Cache.Peek | internal/lrucache/lrucache.go:94-110 | the same value, and the order of use is unchanged |
| LruCache.Cache.Put | internal/lrucache/lrucache.go:114-118 | writes with the default TTL |
| LruCache.Cache.AddIfAbsent | internal/lrucache/lrucache.go:130-144 | adds if and only if the key has no live entry; a loser changes nothing, not even recency |
| LruCache.Cache.Generation | internal/lrucache/lrucache.go:160-164 | the current generation |
| LruCache.Cache.PutIfGen | internal/lrucache/lrucache.go:170-177 | writes if and only if the generation has not moved |
| LruCache.Cache.PutIfGenWithTtl | internal/lrucache/lrucache.go:185-195 | the same with a TTL of its own; a non-positive one falls back to the default |
| LruCache.Cache.PutLocked | internal/lrucache/lrucache.go:197-213 | a known key is overwritten and moved to the front; a new one pushes out at most the last entry |
| LruCache.Cache.Invalidate | internal/lrucache/lrucache.go:216-222 | empties the cache and bumps the generation |
| LruCache.Cache.InvalidateKey | internal/lrucache/lrucache.go:226-233 | drops one key and leaves the generation |
| LruCache.Cache.InvalidateWhere | internal/lrucache/lrucache.go:238-251 | deleting while walking leaves exactly the entries that do not match, in order; the generation is bumped even if nothing matched; the count is what was removed |
| LruCache.Cache.Len | internal/lrucache/lrucache.go:258-269 | the number of unexpired entries |
| LruCache.Cache.AbsOk | internal/lrucache/lrucache.go:25-48 | a valid cache has one entry per key and at most the capacity |
| Recency.StepOk | internal/lrucache/lrucache.go:71-251 | every operation keeps one entry per key and the capacity bound |
| Recency.RunOk | internal/lrucache/lrucache.go:71-251 | so does every run |
| Recency.GetExactly | internal/lrucache/lrucache.go:71-110 | key by key: a lookup drops the key exactly if it has expired, gives its value exactly if it has not, and leaves every other entry and the generation |
| Recency.PutExactly | internal/lrucache/lrucache.go:197-213 | a write gives the key its value and expiry; another key leaves only as the last of a full cache |
| Recency.AddExactly | internal/lrucache/lrucache.go:130-144 | a live entry stays as it is; otherwise the key is written to expire one TTL later |
| Recency.PutIfGenExactly | internal/lrucache/lrucache.go:170-195 | a moved generation leaves the cache; otherwise the entry expires after the given TTL, or the default if that is not positive |
| Recency.InvalidateExactly | internal/lrucache/lrucache.go:216-251 | each invalidation removes exactly what it matches, and which of them bump the generation |
| RecencyRuns.OrderedByLastUse | internal/lrucache/lrucache.go:71-251 | in every run the entries are ordered by an independent record of last use, where Peek and a losing AddIfAbsent do not count |
| RecencyRuns.VictimIsLeastRecentlyUsed | internal/lrucache/lrucache.go:197-213 | after any run, a write of a new key into a full cache removes exactly one key, and every other key was used later than it |
| RecencyRuns.Survives | internal/lrucache/lrucache.go:71-251 | over any run a key just used keeps its entry while fewer than the capacity of other keys are used, it has not expired when looked at and no invalidation matches it |
| RecencyRuns.SurvivesExactly | internal/lrucache/lrucache.go:197-213 | under capacity pressure alone, a key stays if and only if the keys ahead of it and those used in the run are fewer than the capacity |
| GuardedFill.InvAlways | internal/middleware/authz.go:951-1020 | in every interleaving each cached entry comes from one request that took its snapshot, then fetched this value for this key, then filled, with no invalidation of the key since the snapshot |
| GuardedFill.NoStaleHit | internal/middleware/authz.go:951-1020 | a hit rests on a snapshot and a fetch later than every earlier invalidation of its key, within the TTL |
| GuardedFill.LateFillDropped | internal/lrucache/lrucache.go:185-195 | a fill whose snapshot precedes any flush leaves the cache as it was |
| GuardedFill.Transparent | internal/middleware/authz.go:951-1020 | a hit equals the authority's answer now if that has been stable since an invalidation |
| GuardedFill.StaleWithoutFlush | internal/middleware/authz.go:951-1020 | the stability premise is needed: after any run, if the authority's answers at a fill and any number of changes later differ and nothing is invalidated in between, the old one is served |
| CacheKey.BuildCacheKey | internal/middleware/authz_cache.go:89-118 | the loop builds the specified key |
| CacheKey.KeyFaithful | internal/middleware/authz_cache.go:89-118 | for an injective hash without bars and parts behind the subject without bars, whatever the subject, keys are equal if and only if subject, action, type, id and every selected field, absence included, agree |
| CacheKey.AgreeByName | internal/middleware/authz_cache.go:89-118 | agreement spelled out: subject, action, type, id and the seven selected fields by name |
| CacheKey.AgreeSameKey | internal/middleware/authz_cache.go:89-118 | requests that agree share their key, bars or not |
| CacheKey.TwinConfused | internal/middleware/authz_cache.go:89-118 | every request with a bar in action, type or id, or with a selected context field, shares its key with a request that does not agree with it |
| CacheKey.AloneExactly | internal/middleware/authz_cache.go:89-118 | a key stands for one request alone, among all requests, if and only if that has no such bar and no such field |
| CacheKey.SubjectMatch | internal/middleware/authz_cache.go:68-76 | invalidation of a subject matches a key if and only if the key's subject is it or extends it by the separator bar |
| CacheKey.SubjectMatchPlain | internal/middleware/authz_cache.go:68-76 | for subjects free of the separator bar it matches exactly the subject's keys |
| Authz.DecisionCache.constructor | internal/middleware/authz_cache.go:37-39 | an empty cache with the normalised size and TTL |
| Authz.DecisionCache.InvalidateSubject | internal/middleware/authz_cache.go:68-76 | drops the subject's entries and bumps the generation; an empty subject does neither |
| Authz.Early | internal/middleware/authz.go:591-923 | exactly when the phases before the check allow, deny, ask for authentication, refuse a malformed id, or let the request through to the check |
| Authz.EarlyReasons | internal/middleware/authz.go:667-830 | the reason of each deny before the check |
| Authz.AuthzMiddleware.constructor | internal/middleware/authz_metrics.go:48-69 | conservation holds at the start |
| Authz.AuthzMiddleware.Decide | internal/middleware/authz.go:591-630 | the outcome and the new cache in every case; allowed + denied + errors = latency count = calls, hits + misses = calls that reached the check |
| Authz.AuthzMiddleware.BeforeCheck | internal/middleware/authz.go:634-923 | the early outcome, each recorded once as allowed or denied, never as an error |
| Authz.AuthzMiddleware.PhaseCheck | internal/middleware/authz.go:928-1032 | a live verdict or the check decides; the write is guarded by the snapshot; hit or miss counted once |
| Authz.AuthzMiddleware.Check | internal/middleware/authz.go:968-1031 | a failure is never written; a deny in the form of an error is |
| Authz.MissOutcome | internal/middleware/authz.go:968-1054 | on a miss, for each reply: allowed allows, a failure is an error, a deny is not-found where existence is hidden and otherwise a deny with the reply's reasons, its message, or `no path` |
| Authz.HitOutcome | internal/middleware/authz.go:956-964 | on a hit the cached verdict and reasons decide, and never an error |
| Authz.CachedAfter | internal/middleware/authz.go:951-1031 | what the cache then holds for the key: on a miss the reply's verdict and reasons for one TTL, nothing after a failure; on a hit what it held |
| DecisionRuns.NoVerdictOlderThanRevocation | internal/middleware/authz.go:951-1020 | after a flush or an invalidation of its subject, a request is served only a verdict of grants at least as new |
| DecisionRuns.DecisionTransparent | internal/middleware/authz.go:928-1054 | with the cache a request gets the outcome it would get without, reasons and deny-versus-not-found included, if requests that share a key agree and have one relation, the check depends on these alone, and the answer has been stable since the last revocation |
| DecisionRuns.SharedKeyMisleads | internal/middleware/authz_cache.go:89-118 | for any two requests that share a key and do not agree, or differ in their relation, there is a check and a run in which the second is served against what it would get without the cache |
| DecisionRuns.RelationIsNotInTheKey | internal/middleware/authz_cache.go:89-118 | in particular for any two requests that agree and differ in the required relation |
| DecisionRuns.TransparentExactly | internal/middleware/authz.go:928-1054 | whatever the hash and the requests: the cache is invisible over all runs and checks if and only if requests that share a key agree and have one relation |
| DecisionRuns.TransparentForPlain | internal/middleware/authz.go:928-1054 | for requests without bars behind the subject: if and only if requests that agree have one relation |
| DecisionRuns.DecisionIsARun | internal/middleware/authz.go:951-1031 | after any run, the protocol steps of one request change the cache and decide exactly as the last phase does |
| Watcher.SubjectChangeWatcher.constructor | internal/watcher/subject_change_watcher.go:39-52 | starts unprimed at cursor zero, with the default interval and the floor of the poll timeout |
| Watcher.SubjectChangeWatcher.Tick | internal/watcher/subject_change_watcher.go:68-98 | an error changes nothing; the first success adopts the head; a batch moves the cursor past all its ids and the head and no further, an empty one leaves it; a flush happens exactly on a batch after priming |
| Watcher.InvAlways | internal/watcher/subject_change_watcher.go:68-98 | in every run each change past the adopted head is ahead of the cursor or precedes the latest flush |
| Watcher.CursorNeverDecreases | internal/watcher/subject_change_watcher.go:68-98 | the cursor never moves back over any run |
| Watcher.CaughtUp | internal/watcher/subject_change_watcher.go:80-97 | progress: after priming or acting on a batch, and while nothing past the head acted on is committed, every later poll is empty and does not flush |
| Watcher.ActedOnOnce | internal/watcher/subject_change_watcher.go:86-97 | no change is in two batches that are acted on; of the priming batch this goes for the ids up to the adopted head |
| Watcher.CoveredByFlush | internal/watcher/subject_change_watcher.go:86-97 | once a poll has been acted on, every change past the adopted head that was committed before the poll was read precedes a flush, even with a truncated batch, a stale head and a jump of the cursor |
| Watcher.NoOldGrantAfterPoll | internal/middleware/authz.go:255-259 | composed with the guard: a later hit rests on a snapshot and a check made after the change |
| Watcher.NeverFlushed | internal/watcher/subject_change_watcher.go:80-97 | the converse: in every run in which no change past the adopted head is committed, the watcher never flushes |
| Watcher.PrimingMissesEarlierChange | internal/watcher/subject_change_watcher.go:80-84 | such a run, in which a change was committed before priming and the old value is still served |
| Convergence.ReplicaConverges | internal/middleware/authz.go:255-259 | composed with the decision cache: a verdict served after such a poll is what the check answered at a version of the grants that includes the change |
| Dpop.Validator.constructor | internal/middleware/dpop_replay_cache.go:46-56 | an empty replay cache; non-positive parameters are 100000 entries, 120 seconds and 60 seconds |
| Dpop.Validator.Add | internal/middleware/dpop_replay_cache.go:74-82 | succeeds if and only if the jti is not empty and not remembered |
| Dpop.Validator.Validate | internal/middleware/dpop.go:124-262 | exactly when each result is given, with the window of the iat as numbers, the plain bearer token and the four refusals before the proof's claims included, and that a jti is remembered exactly if the checks up to it pass |
| Dpop.AttemptIsValidation | internal/middleware/dpop.go:229-250 | an attempt of a run changes the cache and is accepted as the validator says of a proven proof |
| Dpop.FirstAcceptedExactly | internal/middleware/dpop.go:229-250 | over every run, a proof whose jti has not been presented is accepted exactly if the jti is not empty and the clock is within the freshness of its iat, ends included |
| Dpop.NoDoubleAccept | internal/middleware/dpop.go:229-250 | over every run with a monotone clock one proof is accepted at most once if TTL ≥ 2·freshness + gap and fewer other jtis than the capacity come in between |
| Dpop.SafeExactly | internal/middleware/dpop.go:229-250 | that bound is exact: no run accepts twice if and only if the TTL meets it |
| Dpop.DefaultsSafe | internal/config/config.go:253-259 | the defaults are safe if and only if the gap is zero |
| Dpop.ReacceptedExactly | internal/lrucache/lrucache.go:130-144 | the capacity premise is exact: a fresh second presentation is accepted if and only if at least the capacity of other jtis came in |
| Introspection.Clamp | internal/middleware/introspection_cache.go:159-172 | without `exp` the whole TTL; otherwise the TTL or what is left until `exp`, positive, at most the default and not past `exp`; none exactly if the token has expired |
| Introspection.IntrospectionCache.constructor | internal/middleware/introspection_cache.go:87-113 | an empty cache whose TTL is the one clamped against; non-positive parameters are 10000 entries and five seconds |
| Introspection.IntrospectionCache.Introspect | internal/middleware/introspection_cache.go:122-178 | active is said exactly of a live cached info that is active or, without one, of an active answer about a token that has not expired, and with that info; when it is inactive, unreachable or a bad request; and the new cache |
| Introspection.HeldAfter | internal/middleware/introspection_cache.go:158-174 | what the cache then holds: on a miss the answer about a live token, until the smaller of the TTL and the time left |
| Introspection.ActiveGoesBack | internal/middleware/introspection_cache.go:132-178 | over every run, active is said only because the server said so, to this request or in the fetch the cached info goes back to |
| Introspection.IntrospectionCache.Invalidate | internal/middleware/introspection_cache.go:187-189 | drops the token's entry and bumps the generation |
| Introspection.ServedInTime | internal/middleware/introspection_cache.go:122-178 | in every run a hit is no later than one TTL after its write and no later than `exp` plus the gap; the fallback TTL is never used |
| Introspection.IntrospectionIsARun | internal/middleware/introspection_cache.go:122-178 | after any run, the protocol steps of one introspection change the cache and answer exactly as the method does |
| Introspection.StepsFollowProgram | internal/middleware/introspection_cache.go:122-178 | those steps are a prefix of the program of an introspection |
| Introspection.IntrospectionClamps | internal/middleware/introspection_cache.go:158-174 | every run in which introspections interleave at will, each following its program, meets the premise of the time bound: every fill uses the clamped TTL |
| Introspection.ServedAtTheBound | internal/middleware/introspection_cache.go:163-172 | the bound is attained |
| Introspection.NotServedAfterRevocation | internal/middleware/introspection_cache.go:187-189 | no result fetched before a revocation is served after it, in any interleaving |
| IdempotencyStore.Store.constructor | internal/middleware/idempotency.go:86-99 | an empty valid store with a positive capacity |
| IdempotencyStore.Store.Reserve | internal/middleware/idempotency.go:110-127 | replay if and only if there is a live entry; otherwise follow the flight of the key, or lead a new one; an expired entry is dropped |
| IdempotencyStore.Store.FinishLeader | internal/middleware/idempotency.go:132-144 | the result is on the flight, stored if cacheable, the reservation is gone and the channel, which was open, is closed |
| IdempotencyStore.Store.AbortLeader | internal/middleware/idempotency.go:150-159 | releases only its own registered flight; after finish it does nothing, so no channel is closed twice |
| IdempotencyStore.Store.PutLocked | internal/middleware/idempotency.go:221-235 | a known key moves to the back; a new one evicts the oldest first; never more than the capacity |
| IdempotencyStore.Store.MakeRoom | internal/middleware/idempotency.go:227-233 | the eviction loop ends and drops exactly the oldest |
| IdempotencyStore.Store.Sweep | internal/middleware/idempotency.go:162-181 | removing while traversing leaves exactly the unexpired entries in their order |
| IdempotencyStore.Store.RemoveElem | internal/middleware/idempotency.go:184-188 | map and list lose the same element |
| IdempotencyStore.Store.Len | internal/middleware/idempotency.go:191-195 | the number of entries |
| Fifo.WriteBounded | internal/middleware/idempotency.go:221-235 | a write keeps one entry per key and the capacity, and adds nothing but the entry |
| Fifo.WriteEvictsOldest | internal/middleware/idempotency.go:221-235 | another key leaves by a write if and only if the store is full, the key is new and it is the oldest |
| Fifo.UnexpiredFrom | internal/middleware/idempotency.go:169-181 | the swept store holds exactly the live entries |
| IdempotencyRuns.InvAlways | internal/middleware/idempotency.go:110-159 | the invariant of handlers, flights, registrations and stored responses holds after every run, panics included |
| IdempotencyRuns.AtMostOnce | internal/middleware/idempotency.go:257-311 | under a leader that has not aborted downstream is called by the leader alone, exactly once when there is a result, and every request of its epoch that is over got that response |
| IdempotencyRuns.OneCallEach | internal/middleware/idempotency.go:257-311 | in every run there are as many calls downstream as callers, so nobody calls twice |
| IdempotencyRuns.NoneStranded | internal/middleware/idempotency.go:264-310 | every waiting follower's flight is registered with a leader at work, or closed, or closed by its leader's next step; it is registered or closed if and only if its leader is not about to close it; a channel about to be closed is open |
| IdempotencyRuns.OneFlightPerKey | internal/middleware/idempotency.go:110-127 | a key has at most one flight in progress and then no stored entry |
| IdempotencyRuns.ReplayedUntilExpiredOrEvicted | internal/middleware/idempotency.go:110-144 | from a finish with a status below 500 and a body of at most 262144 until expiry, and while fewer than the capacity of responses are stored, every new request with the key replays that response |
| IdempotencyWindow.RetryLeads | internal/middleware/idempotency.go:298-310 | after a finish with a status of 500 or more or a larger body, the next request for the key leads |
| IdempotencyRuns.UnregisteredBeforeClosed | internal/middleware/idempotency.go:132-144 | a reachable state in which a follower's flight is neither registered nor closed |
| IdempotencyWindow.AtMostOnceForKey | internal/middleware/idempotency.go:257-311 | from a leader's admission on, while it is at work or its response is stored: every request for the key is admitted under it, it alone of them calls downstream, all that are over got its response, and any other caller for the key was pending when it was admitted |
| IdempotencyWindow.AloneExactly | internal/middleware/idempotency.go:257-311 | in all continuations that keep the window open nobody but the leader calls downstream for the key, if and only if no request for the key is pending at its admission |
| IdempotencyWindow.WindowEndsExactly | internal/middleware/idempotency.go:110-181 | that window ends if and only if the leader panics or its response is not cacheable, or the stored one is looked at after expiry or evicted as the oldest of a full store |
| IdempotencyWindow.CallersExactly | internal/middleware/idempotency.go:257-311 | in every run a request has called downstream if and only if it leads and its call is over, or it follows an aborted leader of its key and is over |
| IdempotencyWindow.FollowerRunsBesideLeader | internal/middleware/idempotency.go:272-284 | from every reachable state with a pending request, some continuation has it call downstream while a leader in charge of the key is at work or has its response stored |
| IdempotencyWindow.PendingReached | internal/middleware/idempotency.go:150-159 | a state with a pending request is reachable |
| IdempotencySimulation.ReserveStep | internal/middleware/idempotency.go:110-127 | a reservation in the store is the admission step of the protocol: same entries, reservations, flights and role |
| IdempotencySimulation.FinishStep | internal/middleware/idempotency.go:132-144 | finishing in the store is the finish step and then the closing step; a response is left for the key, to expire one TTL later, exactly if its status is below 500 and its body at most 262144 long |
| IdempotencySimulation.AbortStep | internal/middleware/idempotency.go:150-159 | aborting in the store is the panic step and then the closing step |
| IdempotencySimulation.SweepStep | internal/middleware/idempotency.go:162-181 | a collection in the store is the sweep step |
| Metrics.AuthzMetrics.constructor | internal/middleware/authz_metrics.go:48-69 | bounds that are not ascending and positive are replaced by the defaults |
| Metrics.AuthzMetrics.ObserveLatencyMs | internal/middleware/authz_metrics.go:86-101 | one sample more, negative ones as zero: the sum and the count grow by it, and so does exactly the bucket it falls in |
| Metrics.CheckBuckets | internal/middleware/authz_metrics.go:159-171 | the pass accepts exactly non-empty, positive, strictly ascending bounds |
| Metrics.AuthzMetrics.Snapshot | internal/middleware/authz_metrics.go:106-144 | the counters, the hit ratio exactly when there was a lookup, each bucket the number of samples at or below its bound, +Inf and count the number of samples, the sum their sum |
| Metrics.Cumulative | internal/middleware/authz_metrics.go:123-143 | bucket counts add up to the samples at or below a bound |
| RestRouter.MatchTemplate | internal/middleware/rest_router.go:88-112 | the loop decides the match relation: equal verbs and lengths, literals equal, placeholders facing something |
| RestRouter.RestRouter.constructor | internal/middleware/rest_router.go:37-51 | routes grouped by method in table order; the first binding of a name gives its template |
| RestRouter.RestRouter.Resolve | internal/middleware/rest_router.go:56-68 | the first matching route of the method, the query string cut off |
| RestRouter.ResolvedIs | internal/middleware/rest_router.go:56-68 | a request resolves to the first route of the table that has its method in upper case and matches its path up to a `?`, and to none without one |
| RestRouter.FirstMatchIs | internal/middleware/rest_router.go:62-67 | the result is the name of the first route that matches, and none without one |
| RestRouter.FirstTemplateIs | internal/middleware/rest_router.go:42-49 | the template kept for a name is that of its first binding |
| RestRouter.OverlapExactly | internal/middleware/rest_router.go:88-139 | two templates overlap if and only if some path matches both |
| RestRouter.AtMostOneMatch | internal/middleware/rest_router.go:88-112 | without overlaps a path matches at most one route |
| RestRouter.OrderIndependent | internal/middleware/rest_router.go:37-67 | if overlapping templates share their name, every permutation of the table resolves every request alike |
| RestRouter.NoOverlapNoClash | internal/middleware/rest_router.go:37-67 | a method without overlapping templates meets that premise |
| RestRouter.OrderIndependentExactly | internal/middleware/rest_router.go:37-67 | the premise is exact |
| ResourceExtractor.ExtractByPathTemplate | internal/middleware/resource_extractor.go:338-370 | the loop returns the last captured value of the field, if every segment is accepted and the value is not empty |
| ResourceExtractor.LastColonSeparates | internal/middleware/resource_extractor.go:376-381 | the last `:` behind a non-empty base separates, whatever the base |
| ResourceExtractor.WholeExactly | internal/middleware/resource_extractor.go:376-381 | a segment loses nothing if and only if it has no `:` except as its first character |
| ResourceExtractor.ComposeParses | internal/middleware/rest_router.go:116-134 | both parsers read segments and verb of a canonical path back, each in its own way |
| ResourceExtractor.AcceptedExactly | internal/middleware/resource_extractor.go:338-370 | on every path that the matcher gives to a well-formed template, the extractor accepts exactly the acceptable ones and gives each field cut at its last `:` |
| ResourceExtractor.ParsersAgree | internal/middleware/resource_extractor.go:338-381 | on every such path the extractor accepts and gives every field exactly as the matcher saw it if and only if the path is unambiguous |
| ResourceExtractor.RoundTrip | internal/middleware/resource_extractor.go:338-381 | filling any well-formed template gives a path that matches and from which each value is recovered, and nothing for other fields |
| ResourceExtractor.MatchesExactly | internal/middleware/rest_router.go:88-139 | a canonical path matches if and only if it is a filling, and then it is the filling by its extracted values |
| ResourceExtractor.FilledResolves | internal/middleware/rest_router.go:56-68 | in a table without clashes a filled template resolves to its route's name, with or without a query string |
| ResourceExtractor.FirstBindingDecides | internal/middleware/resource_extractor.go:116-121 | a filled path resolves to its name and its field is read with the name's first binding: found if and only if the path matches that one and it has the field, and then what stands in its place there |
| ResourceExtractor.ResolveThenExtract | internal/middleware/rest_router.go:37-68 | where the matched route is the first binding, every value is recovered from end to end |
| ResourceExtractor.ResolveAndExtract | internal/middleware/resource_extractor.go:107-121 | resolving the path and extracting from the whole path by the router's maps computes that field |
| ResourceExtractor.ReadAsResolvedExactly | internal/middleware/rest_router.go:58-61 | a path and what resolution keeps of it give the same for all templates and fields if and only if the path has no `?` |
| ResourceExtractor.QuestionRead | internal/middleware/resource_extractor.go:116-121 | a path with a `?` in its last segment resolves without what follows and its field is read with it |
| ResourceExtractor.QuestionReadExample | internal/middleware/resource_extractor.go:116-121 | `/x?q` on `/{id}` gives `x?q`, and what was resolved gives `x` |
| ResourceExtractor.ColonInside | internal/middleware/resource_extractor.go:346-358 | a `:` in a segment before the last matches and cannot be extracted |
| ResourceExtractor.ColonAtEnd | internal/middleware/resource_extractor.go:376-381 | a segment that ends in `:` matches as it is and is extracted without the `:` |
| ResourceExtractor.ColonInsideExample | internal/middleware/resource_extractor.go:346-358 | `/x:y/b` matches `/{id}/b` and gives no `id` |
| FieldNames.SnakeToCamel | internal/middleware/resource_extractor.go:230-247 | the loop computes the camel form |
| FieldNames.CamelAt | internal/middleware/resource_extractor.go:230-247 | character by character: underscores go, a lowercase letter after one moves to its uppercase code, everything else stays |
| FieldNames.ToSnakeCase | internal/middleware/resource_extractor.go:384-398 | the loop computes the snake form |
| FieldNames.SnakeAt | internal/middleware/resource_extractor.go:384-398 | character by character: uppercase letters become lowercase behind an underscore, the first character without one, everything else stays |
| FieldNames.SnakeRoundTrip | internal/middleware/resource_extractor.go:230-247 | a name comes back from its camel form if and only if it has no uppercase letter, no leading underscore, and a lowercase letter after each underscore |
| FieldNames.CamelRoundTrip | internal/middleware/resource_extractor.go:384-398 | a name comes back from its snake form if and only if it has no underscore and does not begin with an uppercase letter |
| FieldNames.NamesInjective | internal/middleware/resource_extractor.go:230-247 | both conversions are injective on such names |
| ForwardedFor.Untrusted | internal/middleware/context_extractor.go:247-249 | without trust or hops the answer is empty, whatever the headers |
| ForwardedFor.TooFew | internal/middleware/context_extractor.go:250-261 | a missing header or one with too few entries leaves the parsed single address, or nothing |
| ForwardedFor.EnoughEntries | internal/middleware/context_extractor.go:250-257 | the selected entry is the answer if it parses, and otherwise the single address is |
| ForwardedFor.PrefixInsensitive | internal/middleware/context_extractor.go:246-262 | with at least as many entries as trusted hops, text before the header never changes the address |
| ForwardedFor.OutermostProxyDecides | internal/middleware/context_extractor.go:246-262 | the entry that the outermost trusted proxy recorded decides |
| ForwardedFor.InsensitiveExactly | internal/middleware/context_extractor.go:246-262 | that number of entries is exact |

## Left out

- Signatures, JWK and JWT checks, TLS and the mechanics of SHA-256: library code; they appear as booleans or as the hash parameter.
- `canonicalHTU` and the method and URL checks of a DPoP proof: one boolean before the freshness step.
- The JWKS cache: its refresh rule gives no property over runs beyond its freshness test.
- The catalog, override and token lookups, subject resolution and resource extraction inside `decide`: their answers are given as data (`Authz.Route`), and the order and effect of the phases are modelled.
- Authz.Early: the reasons of an unauthenticated and of a malformed request are constants and are not carried by the outcome.
- `Reload`, `CacheHitRatio`, the gRPC and HTTP wrappers, response rendering, logging, request ids, recovery, health, logout: input/output or thin wrappers.
- `MaybeFlushOnMutation`, `InvalidateCache` and the watcher's flush callback: each is one whole-cache invalidation, which is a step of the runs.
- The unguarded `decisionCache.put`, `PutWithTTL`, `DPoPReplayCache.Purge` and the store's plain `get` and `put`: not on the request paths.
- The idempotency key (method, path, principal and body hash), the header and method tests before a reservation, and the recorder of the response: a request enters the model with its key.
- Proto reflection, the literal route table (here an arbitrary sequence), and what the extractor falls back to when the path gives nothing: query string, body, wildcard.
- Introspection.IntrospectionCache.constructor: the error for an empty server URL is configuration and is not modelled.
- Configuration parsing, mTLS edge selection and startup guards: finite branching without a property over runs.
- ForwardedFor.PrefixInsensitive: white-space trimming and address parsing are parameters, of which only that nothing is not an address is used.
- Metrics.AuthzMetrics.ObserveLatencyMs: sums are over real numbers, so rounding of floating point is not modelled.
- FieldNames.SnakeToCamel: text is a sequence of characters, so byte sequences that are not valid UTF-8 are not modelled.
