# Nzovu: verified models of leases, limits, calendars, schemas and posting

Nzovu is a persistent job queue. This project models the parts of it that carry state and
arithmetic of their own, and proves what they promise, for all inputs, all runs and all
interleavings. Code that updates things in place is written as classes, arrays and loops, and tied
by contract to a specification on values; the laws are lemmas about the specification. `CalendarMeaning`,
`CacheRetention`, `LimiterAccess`, `RegisteredRows`, `PostingMeaning` and `LeaseRules` say what the
specification means in terms of inputs and results alone, without the functions that compute it.

- **Leases** (`LeasePolicies`, `LeaseProtocol`, `LeasePersistence`, `LeaseHandlers`, `LeaseReclaim`,
  `LeaseBound`, `LeaseRules`): policy validation and merge; the heartbeat protocol and the exact
  language of heartbeats it accepts; the same protocol with its state stored in milliseconds between
  steps; heartbeats interleaved with reclaim checks; the one-hour bound end to end.
- **Attempt ids** (`AttemptId`, `Lexicographic`): base 32, its inverse and its order.
- **Rate limiting** (`RateLimiting`, `RateLimiter`, `LimiterAccess`): token buckets with lazy refill
  that are forgotten when idle, the bound on every window of every run, and who gets through.
- **Execution cache** (`RecencyCache`, `RecencyList`, `ExecutionCache`, `CacheGuarantees`,
  `CacheRetention`, `CacheCapacity`): a map and a linked ring on the heap that refine a sequence of
  entries, and what users of the cache can rely on.
- **Calendar** (`CalendarTimes`, `CalendarExceptions`, `CalendarEngine`, `CalendarMeaning`,
  `CalendarGuarantees`, `CalendarTruncation`, `BusinessDays`, `DstTransitions`): the candidate
  pipeline, its exceptions, asking each rule for a limited number of times, business-day arithmetic,
  and the search for changes of daylight saving time.
- **Schema registry** (`SchemaTable`, `SqliteRegistry`, `PostgresRegistry`, `RegistryVersions`,
  `RegisteredRows`, `SchemaPaging`, `PageTokens`, `SchemaListing`): versions handed out by concurrent transactions,
  their linearization as SQLite statements, keyset paging over a table that changes between pages,
  and the page tokens a client follows.
- **Posting** (`Posting`, `BulkPosting`, `PostingMeaning`, `BulkGuarantees`, `SqlStore`): retry
  normalisation, enrichment, the bulk call as a refinement of posting one message at a time, and the bulk operation
  of the SQL stores.

`Clock` holds instants and durations (in nanoseconds), and the optional and result types; `Sets`
and `Sequences` (one file) sizes of sets and beginnings of sequences.
`dafny verify dfyconfig.toml` checks the whole project.

## What the proofs found

Where the code does not meet a natural reading of its promise, the model keeps the code, a lemma
exhibits the failure, and another gives the condition, for the promises below an exact one unless
said otherwise.

- The one-hour bound on a lease holds exactly when base lease and maximal extension add up without
  overflow. The validator checks a 64-bit sum that has already wrapped
  (`internal/util/message_validator.go:135`), so a one-second lease with an extension of 292 years
  is accepted (`LeaseBound.OverflowingPolicyIsAccepted`).
- A message moved to another queue, as on a retry from a dead-letter queue, takes the fields it lacks
  from that one. Its policy is its own exactly if it has extension, heartbeat timeout and step; the
  one-hour bound holds in every queue exactly if it has an extension and the sum does not overflow
  (`LeasePolicies.PolicyIsOwnExactly`, `LeaseBound.BoundInEveryQueueExactly`).
- An expiry in the first millisecond of the epoch is stored as zero, which reads back as "not set":
  such a lease never ends. Stored heartbeats refine exact ones exactly for claims from 999,999 ns
  after the epoch on (`LeasePersistence.RefinementHoldsExactly`), and the laws about stored leases
  speak of those.
- The branches of the heartbeat that restart a lease from the current instant are never taken for a
  started lease: an expired one has failed before (`LeaseProtocol.HeartbeatStep`).
- The rate limiter's window bound holds exactly when `rate * 300 s >= burst`; otherwise a client that
  stays away is forgotten before its bucket is full and gets a second burst
  (`RateLimiting.ForgettingTooSoonBreaksBound`).
- Attempt ids are made from a 32-bit hash; six base-32 digits keep thirty bits of it
  (`AttemptId.AttemptIdsSortByTime`).
- Extra times of a date are brought back by the exception handler wherever they lie, so the "next"
  run may lie in the past (`CalendarGuarantees.ExtraTimesMayBePast`): exactly if an extra time of
  today's date is past and a candidate lies on it, or a candidate is rescheduled to the past
  (`CalendarGuarantees.PastTimesExactly`).
- Limiting every rule to its first `MaxFutureCalculations` times is invisible exactly when no more
  runs than that are asked for (`CalendarTruncation.TruncationLosesNothingExactly`).
- Going business days forth and back returns to the start exactly when the start is a business day.
- Changes to or from daylight saving time are all reported exactly if each lies after the first and
  no later than the last midnight of some month, and no two in the same month. A change during the
  last day of a month is lost (`DstTransitions.ChangeOnLastDayIsOutside`).
- The total count of a listing includes a family with the empty id, which no page shows; the server
  does not accept empty ids. A page's metadata includes the row beyond the page
  (`SchemaPaging.MetadataOfPage`).
- The response that goes with a failed all-or-nothing transaction counts every message as a success
  exactly if the store named no message errors (`BulkGuarantees.FailedTransactionCountsSuccesses`).
  The interface of the store permits that; the two SQL stores name an error for every message, so
  that it does not happen with them (`SqlStore.ShippedStoreNeverMisreports`).
- When a duplicate id stops such a transaction, SQLite has every other message of the call reported as
  a duplicate too, as it wraps the error it rolls back for; exactly then, and never with Postgres, is
  a message so reported that did not stop it (`SqlStore.DuplicateIsBlamed`).

## Model

| member | source | states |
|---|---|---|
| LeasePolicies.MergeLeasePolicy | internal/lease/lease.go:113-170 | every merged policy has a positive base and step and non-negative budgets, whatever queue, message and hint say |
| LeasePolicies.AcceptedPolicyBounds | internal/util/message_validator.go:67-151 | an accepted policy has a base of 1 ms to 1 h; base plus extension is at most 1 h exactly if their sum does not overflow, and if it does the heartbeat timeout is off |
| LeasePolicies.ValidatedPolicyOverridesHint | pkg/validator/lease_policy_validator.go:24-79 | in the queue it was validated for, the merge for an accepted message is the message's own policy, whatever the worker hint |
| LeasePolicies.PolicyIsOwnExactly | internal/lease/lease.go:113-170 | the merge for an accepted message is the same in every queue and under every hint iff it has its own extension, heartbeat timeout and step |
| LeaseRules.AcceptedExactly | internal/util/message_validator.go:67-151 | a policy is accepted iff its durations are valid, the base is 1 ms to 1 h, extension and step are absent or at least 1 ms, the step exceeds neither base nor extension, a heartbeat timeout comes with both and is shorter than base plus extension, nothing is negative, and base plus extension is at most 1 h or, without a heartbeat timeout, beyond 64 bits |
| LeaseRules.EffectiveMeaning | pkg/validator/lease_policy_validator.go:31-79 | every field of the checked policy is the message's, else the queue's, the base lease the first present of lease duration, own base, queue's base, queue's duration and 30 s; a base lease and a lease duration that differ are an error, all else is decided by that policy |
| LeaseRules.MergeMeaning | internal/lease/lease.go:113-170 | where each field of the merged policy comes from: message over hint over queue for the base, message over queue for the others, with the defaults 3 s, none, and a fifth of the base or 500 ms |
| LeaseHandlers.MessageMetadata.Validate | pkg/validator/lease_policy_validator.go:24-79 | writes the effective policy and its base lease into the message if valid, leaves the message alone if not |
| LeaseHandlers.Overlay | pkg/validator/lease_policy_validator.go:31-55 | the queue's policy with each requested field written over it |
| LeaseProtocol.HeartbeatStep | internal/lease/lease.go:264-310 | a heartbeat is accepted exactly by start+base+min(k*step, maxExt) and within the heartbeat timeout; it then moves the closed-form state from k to k+1, and otherwise changes nothing; it reports an extension exactly while the budget lasts |
| LeaseProtocol.AcceptedLanguageFrom | internal/lease/lease.go:264-310 | the exact language of accepted heartbeats from any point of a run |
| LeaseProtocol.AcceptedLanguage | internal/lease/lease.go:235-310 | a sequence is accepted in full iff every heartbeat meets its two deadlines; extension used, expiry and renewal count (at most ceil(maxExt/step)) are then functions of its length |
| LeaseProtocol.HeartbeatLiveness | internal/lease/lease.go:264-310 | a worker that beats at least every min(base, step), within the heartbeat timeout, is accepted in full iff no heartbeat comes after start+base+maxExt |
| LeaseProtocol.DriveKeepsBudget | internal/lease/lease.go:264-310 | over any heartbeats in any order, accepted or not: expiry is start+base+used, used only grows and stays within the budget, renewals stay bounded |
| LeaseRules.HeartbeatDeadlines | internal/lease/lease.go:235-310 | all heartbeats are accepted iff the i-th comes by start+base+i*step, by start+base+maxExt, and within the heartbeat timeout of the one before |
| LeaseRules.AttemptAfter | internal/lease/lease.go:264-310 | after accepted heartbeats the attempt is still its worker's, begun when it was, has used min(n*step, maxExt), ends that much after its base, was renewed by the fewest heartbeats that earn this, and expects the next within the timeout |
| LeaseRules.OneHeartbeat | internal/lease/lease.go:264-310 | on any attempt, reachable or not: rejected, changing nothing, iff an expiry is set and lies before now, the lease's first; else the lease moves by a step or what is left of the extension, from now if it had no end, and an expiry of heartbeats stays as it was when there is no timeout |
| LeaseHandlers.LeaseRuntime.ApplyHeartbeat | internal/lease/lease.go:264-310 | the in-place update is one step of the protocol |
| LeaseHandlers.LeaseRuntime.constructor | internal/lease/lease.go:39-61 | a runtime holds the given state |
| LeaseHandlers.AttemptRuntime.ApplyRuntimeToProto | internal/lease/lease.go:206-231 | the stored attempt becomes the runtime with expiries in whole milliseconds; unset start and heartbeat keep what was stored |
| LeaseHandlers.HandleHeartbeat | internal/lease/lease.go:342-363 | load, apply and store back unless rejected, under the merged policy without a hint; without an attempt every heartbeat fails |
| LeaseHandlers.HandleReclaim | internal/lease/lease.go:373-388 | a timeout is reported iff a stored expiry is set and lies before now, the lease's first, and iff a heartbeat at that instant would fail, for the same reason; nothing changes |
| LeaseRules.StoreThenLoad | internal/lease/lease.go:178-231 | storing and loading changes nothing but that expiries lose what they have beyond whole milliseconds |
| LeaseRules.UnsetTimesAreKept | internal/lease/lease.go:206-231 | a start or heartbeat that is not set leaves what was stored of it |
| LeasePersistence.ClaimFollows | internal/lease/lease.go:206-251 | a stored claim is within a millisecond of the exact one |
| LeasePersistence.StepFollows | internal/lease/lease.go:178-231 | what the stored heartbeat accepts the exact one accepts, and the refinement relation is kept with the same extension reported |
| LeasePersistence.EarlyHeartbeatAccepted | internal/lease/lease.go:178-231 | a heartbeat earlier than the drift is accepted from the stored state if it is from the exact one |
| LeasePersistence.StoredRefinesExact | internal/lease/lease.go:342-363 | every accepted stored run is an accepted exact run, with the refinement relation at its end |
| LeasePersistence.PersistedHeartbeatsRefineInMemory | internal/lease/lease.go:178-231 | from the claim on: same budget use and renewal count, and start+base+used-(renewals+1)ms < stored expiry <= start+base+used |
| LeasePersistence.SlackSuffices | internal/lease/lease.go:178-231 | rounding costs no more than (renewals+1) ms on the lease and 1 ms on the heartbeat deadline, from any point of a run |
| LeasePersistence.PersistedHeartbeatsAcceptEarlyOnes | internal/lease/lease.go:178-231 | the same from the claim on |
| LeasePersistence.ExpiryAtEpochIsLost | internal/lease/lease.go:186-231 | for every earlier claim there is a policy whose expiry is stored as zero, so that a heartbeat after it is accepted from the store but not exactly |
| LeasePersistence.RefinementHoldsExactly | internal/lease/lease.go:178-231 | stored heartbeats refine exact ones, for all policies and all heartbeats from the claim on, iff the claim is no earlier than one nanosecond before the second millisecond of the epoch |
| LeaseReclaim.HeartbeatAndReclaimAgree | internal/lease/lease.go:264-388 | at every instant a heartbeat is rejected iff reclaim reports a timeout, of the same kind, and a rejected heartbeat changes nothing |
| LeaseReclaim.TimeoutIsFinal | internal/lease/lease.go:342-388 | once either event times out, with an advancing clock every later event does, in every interleaving, and the attempt stays as it is |
| LeaseReclaim.ReclaimIsInvisible | internal/lease/lease.go:373-388 | with or without the reclaim checks, the heartbeats do and are told the same |
| LeaseBound.EndToEndLeaseBound | pkg/validator/lease_policy_validator.go:24-79 | for every accepted message, in the queue it was validated for: no lease, exact or stored, under any hint and heartbeats, outlives one hour iff base and extension add up without overflow |
| LeaseBound.BoundInEveryQueueExactly | internal/lease/lease.go:113-170 | for every accepted message the bound holds in every queue it may be moved to iff it has its own extension and the sum does not overflow |
| LeaseBound.BoundedWhenSumFits | internal/lease/lease.go:264-310 | the bound over every run, accepted or not, of both protocols |
| LeaseBound.UnboundedWhenSumWraps | internal/lease/lease.go:264-310 | a burst of ceil(1 h / step) heartbeats at the claim instant breaks it otherwise |
| LeaseBound.BurstIsShort | internal/lease/lease.go:264-310 | for an accepted message that burst has at most 18 million heartbeats |
| LeaseBound.OverflowingPolicyIsAccepted | internal/util/message_validator.go:134-143 | such a policy passes validation |
| LeaseBound.RenewalCountFits | internal/lease/lease.go:302-304 | an accepted message within the bound is renewed at most 18 million times, so its 32-bit count never wraps |
| LeaseBound.StoredRunFollowsSomeExactRun | internal/lease/lease.go:342-363 | any stored run, rejections included, follows some exact run |
| AttemptId.EncodeBase32 | internal/lease/lease.go:464-471 | the right-to-left array loop computes the encoding |
| AttemptId.DecodeEncode | internal/lease/lease.go:464-471 | decoding gives back the value modulo 32^length |
| AttemptId.EncodeInjective | internal/lease/lease.go:464-471 | two values share an encoding iff they agree modulo 32^length |
| AttemptId.EncodeOrder | internal/lease/lease.go:464-471 | byte-wise order of encodings is numeric order of what they keep |
| AttemptId.CrockfordAscends | internal/lease/lease.go:438 | the alphabet has 32 characters in ascending order |
| AttemptId.AttemptIdsSortByTime | internal/lease/lease.go:437-462 | ids sort by millisecond first, then by the thirty hash bits they keep, and are equal iff both are |
| AttemptId.AttemptIdShape | internal/lease/lease.go:437-462 | twenty characters: the prefix, ten digits that decode to the milliseconds modulo 2^50, and six that decode to the hash modulo 2^30 |
| Lexicographic.LessMeaning | internal/lease/lease.go:464-471 | the order of encodings is that of the first character in which they differ, a beginning coming first |
| RateLimiter.ClientBucket.TakeToken | pkg/gateway/interceptors.go:264-275 | refill up to the burst, and take a token if there is one |
| RateLimiter.ClientBucket.constructor | pkg/gateway/interceptors.go:260 | a new bucket with the given tokens |
| RateLimiter.TokenBuckets.constructor | pkg/gateway/interceptors.go:231-241 | no buckets, last cleanup now |
| RateLimiter.TokenBuckets.Sweep | pkg/gateway/interceptors.go:248-252 | the idle buckets, and only they, are deleted, in any order of the map |
| RateLimiter.TokenBuckets.ForgetStale | pkg/gateway/interceptors.go:247-254 | the periodic cleanup, which touches no bucket that stays |
| RateLimiter.TokenBuckets.BucketOf | pkg/gateway/interceptors.go:256-262 | the client's own bucket; for a new client none, changing nothing, iff maxBuckets are in use, and else a full bucket, added to the others |
| RateLimiter.TokenBuckets.TakeFrom | pkg/gateway/interceptors.go:256-275 | one bucket changes and no other, though they are objects on the heap |
| RateLimiter.TokenBuckets.Allow | pkg/gateway/interceptors.go:243-276 | one call on the heap is one call on values, of which `LimiterAccess` says whom it lets through |
| RateLimiting.RefillComposes | pkg/gateway/interceptors.go:264-267 | refilling twice is refilling once, and never takes tokens away |
| RateLimiting.CleanupKeepsLevel | pkg/gateway/interceptors.go:247-254 | forgetting idle buckets changes no client's level, now or later, if the refill over five minutes fills a bucket |
| RateLimiting.AllowKeepsConsistent | pkg/gateway/interceptors.go:243-276 | after any call there are at most maxBuckets buckets, each between empty and full |
| RateLimiting.AllowMeaning | pkg/gateway/interceptors.go:243-276 | allowed iff the client's level is at least one and it has or can get a bucket (which is when, `LimiterAccess.NewClient` says); it pays one token and no other client's level changes at any later instant |
| LimiterAccess.CleanupMeaning | pkg/gateway/interceptors.go:247-254 | once a minute has passed since the last cleanup exactly the buckets not seen for five minutes go, before that none, and those that stay are as they were |
| LimiterAccess.NewClient | pkg/gateway/interceptors.go:243-276 | a client without a bucket is let through, and left with burst - 1 tokens, iff fewer than maxBuckets buckets remain after the cleanup; else it is refused and nothing but the cleanup happens |
| LimiterAccess.KnownClient | pkg/gateway/interceptors.go:243-276 | a client with a bucket is let through iff its tokens plus rate times the time since, capped at the burst, make one; it then pays one |
| LimiterAccess.FirstCallIsAllowed | pkg/gateway/interceptors.go:231-276 | in every run, while at most maxBuckets clients have called, the first call of each is allowed |
| LimiterAccess.CallAfterATokensTime | pkg/gateway/interceptors.go:243-276 | a client that has a bucket or finds room for one may call again once a token's time has passed |
| LimiterAccess.RateIsGranted | pkg/gateway/interceptors.go:243-276 | a client alone that keeps to the rate is never refused, over runs of any length |
| RateLimiting.RunKeepsConsistent | pkg/gateway/interceptors.go:243-276 | the cap and the bucket bounds hold over every run with an advancing clock |
| RateLimiting.TokenAccounting | pkg/gateway/interceptors.go:243-276 | requests granted plus tokens left never exceed tokens held plus refill |
| RateLimiting.WindowBound | pkg/gateway/interceptors.go:243-276 | any window of any run allows one client at most burst + rate*d requests |
| RateLimiting.BurstIsAllowed | pkg/gateway/interceptors.go:243-276 | a bucket with k tokens allows k requests at one instant |
| RateLimiting.ForgettingTooSoonBreaksBound | pkg/gateway/interceptors.go:247-254 | a run that exceeds the bound when the refill over five minutes does not fill a bucket |
| RateLimiting.WindowBoundExactly | internal/server/config.go:242-244 | for positive configurations the window bound holds for all runs iff rate*300 >= burst |
| RecencyList.LinkedList.constructor | pkg/calendar/cache.go:31 | an empty ring around its sentinel |
| RecencyList.LinkedList.Back | pkg/calendar/cache.go:84-87 | the last element, or none |
| RecencyList.LinkedList.PushFront | pkg/calendar/cache.go:81 | a new element in front, the others in order behind it |
| RecencyList.LinkedList.InsertFront | pkg/calendar/cache.go:78-81 | links an element in after the sentinel and keeps the ring well-formed |
| RecencyList.LinkedList.Remove | pkg/calendar/cache.go:150 | unlinks one element and leaves the others in order |
| RecencyList.LinkedList.MoveToFront | pkg/calendar/cache.go:59 | one element goes to the front, the others keep their order |
| RecencyList.LinkedList.Init | pkg/calendar/cache.go:99 | empties the ring |
| ExecutionCache.AgreeDistinct | pkg/calendar/cache.go:10-25 | when map and list agree they are in bijection: as many entries as elements, keys distinct |
| ExecutionCache.Cache.constructor | pkg/calendar/cache.go:28-42 | an empty cache |
| ExecutionCache.Cache.RemoveEntry | pkg/calendar/cache.go:147-152 | removes a key from map, list and sequence alike |
| ExecutionCache.Cache.Get | pkg/calendar/cache.go:45-65 | the lookup on the heap is that on the sequence, which `CacheRetention.GetMeaning` spells out |
| ExecutionCache.Cache.CleanupExpired | pkg/calendar/cache.go:134-140 | the expired entries go, whatever order the map is ranged over, and the others keep their order |
| ExecutionCache.Cache.Evict | pkg/calendar/cache.go:83-90 | drops least recent entries until the cache fits |
| ExecutionCache.Cache.Insert | pkg/calendar/cache.go:81-82 | a new key in front of map, list and sequence |
| ExecutionCache.Cache.Store | pkg/calendar/cache.go:75-90 | an existing key is overwritten and moved to the front, a new one may evict |
| ExecutionCache.Cache.Set | pkg/calendar/cache.go:68-91 | a set on the heap is a set on the sequence |
| ExecutionCache.Cache.Clear | pkg/calendar/cache.go:94-100 | empties map and list |
| RecencyCache.StaysWithinCapacity | pkg/calendar/cache.go:68-91 | distinct keys, and at most maxEntries of them, after every operation |
| CacheGuarantees.EntriesAreLatest | pkg/calendar/cache.go:68-91 | every entry is the latest set of its key, in every run |
| CacheGuarantees.HitIsLatestAndFresh | pkg/calendar/cache.go:45-65 | a hit returns the times of the latest set of that key, at most ttl old |
| CacheGuarantees.TouchedEntryIsRetained | pkg/calendar/cache.go:45-91 | an entry in front still hits if it has not expired and fewer than maxEntries other keys were mentioned since; `CacheRetention.HitKeepsEntry` and `SetKeepsEntry` say that hits and sets put it there |
| CacheRetention.GetMeaning | pkg/calendar/cache.go:45-65 | a fresh entry is returned and moved from its position to the front, the others keeping their order; an older one is removed; a key without entry changes nothing |
| CacheRetention.CleanupMeaning | pkg/calendar/cache.go:134-140 | exactly the entries at most ttl old stay, in their order |
| CacheRetention.SetMeaning | pkg/calendar/cache.go:68-91 | after a cleanup the new entry is in front, of all others if its key was there, and else of the maxEntries - 1 most recent ones |
| CacheRetention.HitKeepsEntry | pkg/calendar/cache.go:45-91 | over runs: a key that was hit is hit again with the same times if it has not expired, was not cleared or set anew, and fewer than maxEntries other keys were mentioned between |
| CacheRetention.SetKeepsEntry | pkg/calendar/cache.go:45-91 | the same after a set |
| CacheRetention.HitSaves | pkg/calendar/cache.go:59 | in a cache of two, a hit saves the entry that the next set would otherwise push out |
| CacheGuarantees.EvictedByCapacity | pkg/calendar/cache.go:83-90 | that bound is sharp: after maxEntries new keys the entry is gone |
| CacheCapacity.StepKeepsBelow | pkg/calendar/cache.go:45-140 | every operation keeps the smaller cache a subsequence of the larger, missing at most the difference of the capacities |
| CacheCapacity.RunsStayBelow | pkg/calendar/cache.go:45-140 | the same over whole runs, from any related pair of caches |
| CacheCapacity.CapacityIsMonotone | pkg/calendar/cache.go:45-140 | every hit with capacity n is a hit with the same times with any capacity m >= n |
| CalendarExceptions.BuildExceptionMap | pkg/calendar/exception_handler.go:28-33 | the map holds, for every local date, the last exception given for it |
| CalendarExceptions.ApplyExceptions | pkg/calendar/exception_handler.go:23-101 | the loop over times yields the sorted kept and extra times, which are those of `CalendarMeaning.AppliedExactly` |
| CalendarExceptions.AppliedIsSortedContributions | pkg/calendar/exception_handler.go:23-101 | the result is sorted and a permutation of what each time contributes under the last exception for its date; `CalendarMeaning.ContributionIs` and `ContributionCount` say what that is |
| CalendarMeaning.ContributionIs | pkg/calendar/exception_handler.go:39-93 | what becomes of one time, by the exception at i that is the last for its date: SKIP nothing, EXTRA the time and the extra times on its date, RESCHEDULE the target, on its date at the time's own clock time if that is a whole date, an unknown kind the time; and without one the time |
| CalendarMeaning.ContributionCount | pkg/calendar/exception_handler.go:39-93 | and each of these once |
| CalendarMeaning.AppliedExactly | pkg/calendar/exception_handler.go:23-101 | a time is in the result iff some input time becomes it |
| CalendarMeaning.OrdinaryTimeStays | pkg/calendar/exception_handler.go:86-89 | a time on a date without an exception stays, whatever exceptions other dates have |
| CalendarExceptions.NothingOnSkippedDates | pkg/calendar/exception_handler.go:39-93 | nothing remains on a skipped date but times rescheduled to it |
| CalendarTimes.SortSorts | pkg/calendar/core_engine.go:163-165 | sorting sorts and permutes |
| CalendarTimes.SortedUnique | pkg/calendar/core_engine.go:163-165 | a sorted sequence is determined by its elements, so any sort gives this one |
| CalendarTimes.DedupIncreases | pkg/calendar/core_engine.go:442-459 | of sorted times, one per Unix second is left, in strictly increasing seconds |
| CalendarTimes.DedupKeepsSeconds | pkg/calendar/core_engine.go:442-459 | no second is lost or gained |
| CalendarEngine.RemoveDuplicateTimes | pkg/calendar/core_engine.go:442-459 | the loop with its set of seen seconds keeps the first time of each second |
| CalendarEngine.CollectRules | pkg/calendar/core_engine.go:132-144 | candidates of all rules that did not fail, inside the look-ahead |
| CalendarEngine.CollectExtras | pkg/calendar/core_engine.go:145-156 | candidates of all EXTRA exceptions, after from and inside the look-ahead |
| CalendarEngine.CalculateNextRuns | pkg/calendar/core_engine.go:95-189 | the loops compute the pipeline with its error cases, without the cache; what comes out for which request, `CalendarMeaning.OutcomeExactly` says |
| CalendarEngine.CalculateNextRun | pkg/calendar/core_engine.go:83-92 | the first run, or an error if exceptions remove them all |
| CalendarMeaning.CandidatesExactly | pkg/calendar/core_engine.go:127-156 | a candidate is a time some rule that did not fail returned before the end of the look-ahead, or an extra time of a dated EXTRA exception after from and before that end |
| CalendarMeaning.DedupExactly | pkg/calendar/core_engine.go:442-459 | of sorted times exactly the earliest of each second remain |
| CalendarMeaning.FinalTimesExactly | pkg/calendar/core_engine.go:127-180 | the final times are exactly the earliest of each second of what becomes of the candidate times, in strictly increasing seconds |
| CalendarMeaning.OrdinaryCandidateIsRun | pkg/calendar/core_engine.go:158-180 | a candidate time on a date without an exception has its second among the final times |
| CalendarMeaning.OutcomeExactly | pkg/calendar/core_engine.go:95-189 | a request succeeds iff its count is in range, its exceptions are well-formed and there is a candidate, and returns the final times up to the count; else the first of these that is missing is the error |
| CalendarGuarantees.RunsIncrease | pkg/calendar/core_engine.go:158-180 | runs are strictly increasing in Unix seconds and at most count many |
| CalendarGuarantees.RunsArePrefix | pkg/calendar/core_engine.go:175-180 | the result for n is a prefix of the result for m >= n |
| CalendarGuarantees.NoRunOnSkippedDate | pkg/calendar/exception_handler.go:39-93 | no run falls on a skipped date unless a candidate was rescheduled to that very time |
| CalendarGuarantees.PastTimesExactly | pkg/calendar/exception_handler.go:39-93 | a final time at or before from exists iff an extra time at or before from belongs to the local date of from and a candidate lies on that date, or a candidate is rescheduled to or before from |
| CalendarGuarantees.FirstRunIsPastExactly | pkg/calendar/core_engine.go:170-188 | so the first run of a result is at or before from iff that is so |
| CalendarGuarantees.RunsStayInWindow | pkg/calendar/core_engine.go:127-180 | whatever the exceptions, every run is after from unless that is so, and inside the look-ahead unless an extra time or a target lies beyond it |
| CalendarGuarantees.LateTimesExactly | pkg/calendar/exception_handler.go:39-93 | if the look-ahead ends with a second, a final time at or past its end exists iff a candidate has an extra time or a target there |
| CalendarGuarantees.SkipsStayInWindow | pkg/calendar/exception_handler.go:45-47 | with SKIP exceptions only neither is so |
| CalendarGuarantees.ExtraDateBringsAll | pkg/calendar/exception_handler.go:68-80 | a candidate on an EXTRA date brings every extra time of the date |
| CalendarGuarantees.ExtraTimeRunsOnce | pkg/calendar/core_engine.go:145-175 | an extra time added as a candidate and by its exception is run exactly once |
| CalendarGuarantees.FirstRunNoLaterThanExtra | pkg/calendar/exception_handler.go:68-80 | the first run is no later than any extra time of a date that has a candidate |
| CalendarGuarantees.ExtraTimesMayBePast | pkg/calendar/exception_handler.go:68-80 | a schedule whose first run is hours before from |
| CalendarTruncation.TruncationLosesNothing | pkg/calendar/core_engine.go:127-180 | without exceptions and with count <= MaxFutureCalculations the result is the count smallest distinct seconds of the full streams, each by its earliest time; it fails only if no rule occurs in the window |
| CalendarTruncation.TruncationShows | pkg/calendar/core_engine.go:133 | one rule that occurs every minute shows the cut for any larger count |
| CalendarTruncation.TruncationLosesNothingExactly | pkg/calendar/core_engine.go:127-180 | for all schedules without exceptions the cut is invisible iff count <= MaxFutureCalculations |
| BusinessDays.MemoryBusinessCalendarProvider.IsBusinessDay | pkg/calendar/business_calendar_provider.go:308-331 | neither a weekend day (Sunday as 0 or 7) nor the date of a holiday |
| BusinessDays.MemoryBusinessCalendarProvider.GetNextBusinessDay | pkg/calendar/business_calendar_provider.go:334-349 | the first business day after the date, if there is one within 365 days |
| BusinessDays.MemoryBusinessCalendarProvider.GetPreviousBusinessDay | pkg/calendar/business_calendar_provider.go:352-367 | the last business day before the date, if there is one within 365 days |
| BusinessDays.MemoryBusinessCalendarProvider.AddBusinessDays | pkg/calendar/business_calendar_provider.go:370-404 | the counting loop ends within the 2000-day range with the n-th business day or an error; zero days is the date itself |
| BusinessDays.NthUnique | pkg/calendar/business_calendar_provider.go:385-401 | a date is the n-th business day iff it is one and exactly n are counted up to it |
| BusinessDays.AddMeaning | pkg/calendar/business_calendar_provider.go:370-404 | adding succeeds iff enough business days lie in range, and lands on a business day with exactly that many past the start up to it |
| BusinessDays.WeekdayMeaning | pkg/calendar/business_calendar_provider.go:315 | the epoch is a Thursday and weekdays go round by seven |
| BusinessDays.BusinessMeaning | pkg/calendar/business_calendar_provider.go:314-328 | a business day is no weekend day, 7 too meaning Sunday, and no holiday, one without a date being on 1 January 1970 |
| BusinessDays.CountMeaning | pkg/calendar/business_calendar_provider.go:385-401 | the count up to a day is the number of days passed on the way that are business days |
| BusinessDays.SearchMeaning | pkg/calendar/business_calendar_provider.go:334-367 | a search lands on the day k away iff k is at most 365 and of the days passed only the last is a business day |
| BusinessDays.AddMeansNth | pkg/calendar/business_calendar_provider.go:370-404 | adding n lands on the day k away iff k is at most 2000, that day is a business day, and exactly n are passed |
| BusinessDays.AddOneIsNext | pkg/calendar/business_calendar_provider.go:334-404 | adding one (or minus one) agrees with the next (or previous) business day, up to the shorter search range |
| BusinessDays.AddComposes | pkg/calendar/business_calendar_provider.go:370-404 | additions in one direction compose, except that the sum is refused beyond the range |
| BusinessDays.AddThenSubtract | pkg/calendar/business_calendar_provider.go:370-404 | adding n and then -n returns to the start iff the start is a business day |
| DstTransitions.FindTransitionDate | pkg/calendar/timezone_provider.go:328-341 | the loop computes the bisection, and its iterations are counted |
| DstTransitions.BisectionFindsChange | pkg/calendar/timezone_provider.go:328-341 | with different status at the ends, the result has the end's status and an instant at most 24 h before it has the start's |
| DstTransitions.BisectionOfEqualEnds | pkg/calendar/timezone_provider.go:328-341 | with equal status, the result is the end or a change the search came upon |
| DstTransitions.BisectionIsFast | pkg/calendar/timezone_provider.go:328-341 | on a span of at most 2^k days the loop iterates at most k times |
| DstTransitions.GetDSTTransitions | pkg/calendar/timezone_provider.go:292-325 | one transition for each month whose ends differ, with its direction and offsets |
| DstTransitions.TransitionMeaning | pkg/calendar/timezone_provider.go:303-322 | a month whose first and last midnight differ in status gives one transition inside it, to the status and offset of the last from the offset of the first; no other gives any |
| DstTransitions.EachMonthAdds | pkg/calendar/timezone_provider.go:292-325 | each month adds one transition, with the status and offsets of its ends, to the report of those before it, or nothing if its ends have the same status |
| DstTransitions.ReportedIfOdd | pkg/calendar/timezone_provider.go:306-309 | a month is reported iff the status changes an odd number of times after its first and up to its last midnight |
| DstTransitions.ChangesInsideReported | pkg/calendar/timezone_provider.go:292-325 | for any zone, if no month has two changes inside it, the report consists of the changes inside months, in order, each with its direction and less than a day late |
| DstTransitions.AllChangesReportedExactly | pkg/calendar/timezone_provider.go:292-325 | for any zone, never more is reported than changes, and every change of the span is reported iff each lies inside a month and no two inside the same |
| DstTransitions.ChangeOnLastDayIsOutside | pkg/calendar/timezone_provider.go:303-304 | a change after the last midnight of a month, up to the first of the next, lies inside no month |
| SchemaTable.DeactivateKeepsVersions | pkg/schema/postgres_storage.go:345-371 | deactivation removes no version |
| SchemaTable.NextVersionIsNew | pkg/schema/sqlite_storage.go:141-151 | the version the single statement assigns is never taken |
| SqliteRegistry.Registry.GetMetadata | pkg/schema/sqlite_storage.go:526-553 | largest version and number of versions |
| SqliteRegistry.Registry.Register | pkg/schema/sqlite_storage.go:108-202 | on success the row at the version asked for, or at the largest plus one, is active with the name, content and times asked for, no other row changes, and the metadata is that of the new table; a taken version is refused and changes nothing |
| SqliteRegistry.Registry.Deactivate | pkg/schema/sqlite_storage.go:392-418 | no row disappears; exactly the active rows asked for become inactive, changed in nothing else but their update time; the result is how many they were, or an error if none |
| SchemaTable.MetadataMeaning | pkg/schema/sqlite_storage.go:526-553 | the metadata of an id is the number of its rows and the largest version among them |
| PostgresRegistry.StepKeepsConsistent | pkg/schema/postgres_storage.go:71-157 | every step keeps: locks exclude each other, a version assigned under the lock stays the next one, what has committed is in the table |
| PostgresRegistry.RunKeepsConsistent | pkg/schema/postgres_storage.go:71-157 | so does every interleaving |
| PostgresRegistry.AutomaticNeverRefused | pkg/schema/postgres_storage.go:89-140 | from any table, an automatically versioned registration is refused iff the 32-bit version wraps onto a taken one |
| PostgresRegistry.MetadataCoversVersion | pkg/schema/postgres_storage.go:142-157 | the metadata returned is never behind the version assigned |
| RegistryVersions.VersionsAreContiguous | pkg/schema/postgres_storage.go:71-157 | in every interleaving from an empty table the committed versions of each id are exactly 1 to n, each committed once, and no registration is refused, for any collisions of the lock's hash |
| RegistryVersions.NoVersionTwice | pkg/schema/postgres_storage.go:112-144 | in every interleaving, with explicit and automatic versions, no two transactions commit the same version of an id |
| RegistryVersions.VersionsAreForever | pkg/schema/postgres_storage.go:345-371 | a registered version is never removed, rewritten or reactivated |
| RegistryVersions.CommitIsSqliteRegister | pkg/schema/sqlite_storage.go:141-180 | from any consistent state, a Postgres commit does what the SQLite statement for the same request would do, with the same version, iff the version is explicit or the largest one is below 2^31 - 1 |
| RegistryVersions.RefusalIsSqliteRefusal | pkg/schema/postgres_storage.go:112-140 | under the same condition an insert is refused iff the SQLite statement would be |
| RegistryVersions.PostgresRefinesSqlite | pkg/schema/sqlite_storage.go:141-180 | from any table, with explicit and automatic versions in any interleaving, the table left is that of the same requests as SQLite statements in commit order, as long as no id reaches version 2^31 - 1 |
| RegisteredRows.LockMeaning | pkg/schema/postgres_storage.go:85 | a transaction gets the lock iff no other with an id of the same hash holds it, from locking to commit, refusal or rollback |
| RegisteredRows.CommitStores | pkg/schema/postgres_storage.go:112-144 | a commit puts the transaction's row into the table, active, and changes no other row |
| RegisteredRows.StepOnRow | pkg/schema/postgres_storage.go:345-371 | a row in the table keeps its contents under every step, and its activity under all but a deactivation that covers it |
| RegisteredRows.CommittedRowStands | pkg/schema/postgres_storage.go:71-157 | in every interleaving: for every committed transaction the table has a row with its name, content and creation time, active iff no deactivation that covers it has come after its commit |
| RegisteredRows.RowsAreCommitted | pkg/schema/postgres_storage.go:71-157 | and every row that was not there before is that of some committed transaction |
| RegisteredRows.MetadataIsCurrent | pkg/schema/postgres_storage.go:146 | the metadata returned is that of the table at the instant it is read |
| SchemaPaging.ListWithOptions | pkg/schema/postgres_storage.go:295-341 | the row loop builds the page: the extra row gives the next cursor and is not shown |
| SchemaPaging.PageFacts | pkg/schema/postgres_storage.go:252-342 | a page shows exactly the matching ids beyond its cursor up to the next cursor, ascending, and the cursor moves on |
| SchemaPaging.MatchingMeaning | pkg/schema/postgres_storage.go:252-294 | an id is listed iff it begins with the prefix and has a row, an active one if only those are asked for |
| SchemaPaging.RowMeaning | pkg/schema/postgres_storage.go:252-294 | it is shown with the largest version among those rows and with the number of all its rows |
| SchemaPaging.MetadataOfPage | pkg/schema/postgres_storage.go:329-341 | a page has metadata for exactly the ids it shows and, if there is a next page, the first id of that |
| SchemaPaging.TraversalAscends | pkg/schema/postgres_storage.go:265-341 | whatever happens between pages, ids come in strictly increasing order and none twice |
| SchemaPaging.TraversalIsComplete | pkg/schema/postgres_storage.go:265-341 | every family that matches throughout a completed traversal is shown |
| SchemaPaging.TraversalIsSound | pkg/schema/postgres_storage.go:265-341 | every family shown matched at some page |
| SchemaPaging.TraversalTerminates | pkg/schema/postgres_storage.go:336-340 | on a fixed table the traversal ends |
| SchemaPaging.PagingIsFaithful | pkg/schema/postgres_storage.go:252-342 | on a fixed table, with any positive page sizes, the pages put together are the unpaged list, as long as the total count iff no matching family has the empty id |
| PageTokens.AcceptedExactly | internal/pagination/pagination.go:25-96 | each of the three decoders accepts a token iff it decodes to what its own encoder would have encoded |
| PageTokens.TokenErrors | internal/pagination/pagination.go:25-96 | the empty token asks for the first page; a token that is no text of a cursor is malformed, any other that is not accepted a mismatch |
| PageTokens.TokenContents | internal/pagination/pagination.go:25-96 | what an issued token says: scope, filter, the version of its kind, and nothing but what its kind carries |
| PageTokens.LimitsOfTokens | internal/pagination/pagination.go:25-96 | tokens exist for offsets from 0, positions that are not empty and rows from 1; page sizes go up to 1000, none meaning 100 |
| PageTokens.TokenFitsOnlyItsRequest | internal/pagination/pagination.go:25-96 | a token is accepted under its own scope and filter, by its own decoder, as its own payload, and nowhere else |
| PageTokens.PeekTokenRoundTrip | pkg/repository/implementation.go:60-84 | a peek cursor, or none, comes back from its token, for positive row ids and only for them |
| SchemaListing.FilterDetermines | pkg/nzovu/server.go:558 | the filter string determines prefix and flag, whatever characters the prefix has |
| SchemaListing.PageFollows | pkg/nzovu/server.go:549-602 | one served page is one page of the registry, and its token stands for the registry's cursor |
| SchemaListing.TokensFollowCursors | pkg/nzovu/server.go:549-602 | following tokens never errs and shows the ids of the registry's traversal, for any allowed page sizes and tables that change |
| SchemaListing.ClientSeesEverythingOnce | pkg/nzovu/server.go:549-602 | on a fixed table a client sees exactly the matching non-empty ids, in order, once each |
| SchemaListing.ForeignTokenRefused | pkg/nzovu/server.go:558-562 | a token is refused by another listing iff its prefix or flag differs |
| SchemaListing.VersionCountsAreOwn | pkg/nzovu/server.go:574-587 | every schema shown carries the newest shown version and the number of versions of its own family |
| Posting.RetryFields.Validate | pkg/validator/retry_validator.go:34-112 | normalises the retry fields in place and accepts or rejects them |
| Posting.RetryFieldsAreConsistent | pkg/validator/retry_validator.go:50-109 | a message is accepted iff, after enrichment, both fields are -1 or 1 <= left <= max |
| Posting.EnrichmentFillsGaps | pkg/repository/implementation.go:596-623 | enrichment keeps what a message says, leaves no retry field or state unset, makes it invisible iff it is scheduled for later, and is idempotent |
| PostingMeaning.RetryMeaning | pkg/validator/retry_validator.go:50-109 | the maximum of attempts is the message's, else the queue's, else 3; accepted are -1, which sets the attempts left to -1, and positive maxima not exceeded by the attempts left |
| PostingMeaning.PreparedMeaning | pkg/repository/implementation.go:671-752 | a message is accepted iff it is present, has metadata and is valid, and then has the posted id and payload and the validated metadata enriched; otherwise the code is SCHEMA_MISMATCH iff the validator said so of a present message with metadata, and else VALIDATION_FAILED; a rejected message with metadata is enriched all the same |
| PostingMeaning.PostMeaning | pkg/repository/implementation.go:555-635 | a rejected or duplicate message changes nothing, with its code; any other is stored under its id as posted, next to what was there, unless the store refuses it |
| PostingMeaning.SuccessIsStored | pkg/repository/implementation.go:555-635 | posting in turn: whatever is reported as a success was accepted and new, and is in the final store as it was posted |
| BulkPosting.Poster.constructor | pkg/repository/implementation.go:88-100 | a poster over a store |
| BulkPosting.Poster.PrepareMessages | pkg/repository/implementation.go:671-752 | prepares the array in place, each message as `PostingMeaning.PreparedMeaning` says; an all-or-nothing call stops exactly at the first message that is not ready |
| BulkPosting.Poster.Gather | pkg/repository/implementation.go:757-774 | the messages to store, in order, with the positions they came from, and the size of all |
| BulkPosting.Poster.Scatter | pkg/repository/implementation.go:796-843 | every index of the result array is filled with the result of its own message |
| BulkPosting.Poster.Respond | pkg/repository/implementation.go:844-857 | the counts and the overall success per mode |
| BulkPosting.Poster.CreateQueueMessagesBulk | pkg/repository/implementation.go:638-872 | the whole call: 1 to 1000 messages and at most 1 MiB, its errors, and what store it leaves in each; what is in that store, `PostingMeaning` says |
| BulkPosting.ReadyPosition | pkg/repository/implementation.go:769-774 | a stored message sits at the position that counts the stored ones before it |
| BulkGuarantees.ResponseIsComplete | pkg/repository/implementation.go:796-858 | one result per message at its index under its id; success iff the code is SUCCESS; the counts add up to the number of messages; overall success means all, or for best effort any |
| PostingMeaning.ResultMeaning | pkg/repository/implementation.go:796-843 | the result at i: the id of its message; the code of its rejection, or that of the store's error at the position that counts the stored ones before it: SUCCESS, DUPLICATE_MESSAGE_ID, or INTERNAL_ERROR for all else |
| PostingMeaning.ResponseCounts | pkg/repository/implementation.go:844-857 | the counts are the numbers of indices that succeeded and did not; overall success means all for all or nothing, and any for best effort |
| PostingMeaning.ReadyOfParts | pkg/repository/implementation.go:766-774 | the list for the store is made message by message, in order |
| PostingMeaning.ReadyOfOne | pkg/repository/implementation.go:766-774 | a message is on it iff it is present and was not rejected |
| PostingMeaning.TotalSizeParts | pkg/repository/implementation.go:754-764 | the size of a call is the sum over all messages present, accepted or not |
| PostingMeaning.UnnamedErrors | pkg/repository/implementation.go:783-792 | a store that fails without naming errors fails every message of a best-effort call and none of an all-or-nothing call |
| BulkGuarantees.OneByOne | pkg/repository/implementation.go:555-635 | storing the ready messages leaves the store, and gives each message the outcome, of posting them one call at a time |
| BulkGuarantees.BestEffortIsOneByOne | pkg/repository/implementation.go:638-872 | best effort over a per-message store is posting one by one: same store, same outcomes |
| PostingMeaning.BestEffortStoresWhatWasPosted | pkg/repository/implementation.go:638-872 | over a per-message store, whatever is reported as a success was accepted and is in the store as it was posted |
| BulkGuarantees.WholeListReachesStore | pkg/repository/implementation.go:769-781 | when all messages are ready the store is handed the whole list, in order |
| BulkGuarantees.StorableExactly | pkg/repository/implementation.go:625-630 | storing messages in turn meets no error iff their ids are new and differ and none is refused, and then adds exactly their ids |
| BulkGuarantees.AllOrNothing | pkg/repository/implementation.go:776-872 | over an atomic store, either success with every message stored and nothing lost, or an unchanged store |
| PostingMeaning.AllOrNothingStoresWhatWasPosted | pkg/repository/implementation.go:638-872 | over an atomic store, the call reaches the store iff every message is accepted, and if it does not fail all of them are stored as posted |
| BulkGuarantees.AllOrNothingSucceedsExactly | pkg/repository/implementation.go:776-872 | if the store fails only for the messages' sake, the call succeeds iff all ids are new and differ and none is refused |
| BulkGuarantees.SuccessMeansNoErrors | pkg/repository/implementation.go:819-851 | with all messages ready, an all-or-nothing response reports success iff no message error is named |
| BulkGuarantees.FailedTransactionCountsSuccesses | pkg/repository/implementation.go:783-862 | the response of a failed transaction counts every message as a success iff the store named no message errors |
| SqlStore.Storage.EnqueueMessagesBulk | pkg/repository/postgres/messages.go:117-178 | the store's two modes: a draft that is committed whole or dropped, or each message for itself |
| SqlStore.Storage.EnqueueTogether | pkg/repository/sqlite/messages.go:126-154 | the first error ends the transaction, and every message gets an error |
| SqlStore.ShippedStoreIsAtomic | pkg/repository/postgres/messages.go:126-154 | both SQL stores meet the assumptions of the all-or-nothing theorem, whether the database commits or not |
| SqlStore.ShippedStoreIsPerMessage | pkg/repository/postgres/messages.go:156-178 | both meet those of the best-effort theorem |
| SqlStore.ShippedStoreNeverMisreports | pkg/repository/sqlite/messages.go:137-145 | when a transaction of theirs fails, the response counts no message as a success |
| SqlStore.StoppedExactly | pkg/repository/postgres/messages.go:128-136 | a transaction is stopped by a duplicate at i iff the messages before i can be stored and the id of i is stored or among theirs |
| SqlStore.DuplicateIsBlamed | pkg/repository/sqlite/messages.go:137-145 | a message that is not the one that stopped the transaction is reported as a duplicate iff the store is SQLite, there is another message, and a duplicate stopped it |
| SqlStore.InnocentMessageBlamed | pkg/repository/sqlite/messages.go:137-145 | two messages, of which the second could be stored by itself and is reported as a duplicate |
| BulkGuarantees.StoredMessagesAreWellCounted | pkg/validator/retry_validator.go:50-109 | every message handed to the store has consistent retry fields |

## Left out

- SQL message stores other than their bulk enqueueing, claiming and priorities, and their own arithmetic on leases (`pkg/repository/sql`). In the bulk call `EnqueueMessagesBulk` is any function of store, messages and mode, constrained only where a law says so; a message both refused and duplicate counts as duplicate, and a transaction that cannot begin is taken as one that does not commit.
- CalendarEngine.CalculateNextRuns: does not model the cache, whose key does not determine the schedule, nor the validation of time zone and rules; of a schedule only the exceptions are validated.
- SqliteRegistry.Registry.GetMetadata: does not model the earliest creation and latest update time.
- SqliteRegistry.Registry.Register: returns metadata without those two times, and takes the content as valid.
- BulkPosting.Poster.CreateQueueMessagesBulk: does not model the checks of queue name, dead-letter queues and mode number, nor failures to read the queue's metadata.
- LeasePersistence.StoredRefinesExact: is about instants from 999,999 ns after the epoch on, as are the laws that rest on it; `LeasePersistence.RefinementHoldsExactly` says why.
- Evaluators of calendar rules: represented by the times they return; where it matters, by the contract that these are the first occurrences after the instant asked about, in distinct seconds.
- The engine's use of its cache: the cache key does not determine the schedule, so a cached result need not be a recomputed one, and no such claim is made.
- Time-zone databases and clock changes in calendar dates: local dates are taken at a fixed offset; the search for clock changes takes the status as an arbitrary predicate and the midnights of the months as given.
- Recurring holidays: the business-day code compares dates only, and so does the model.
- Concurrency of the in-memory components: each operation of cache, limiter and provider is atomic under its mutex; the cleanup goroutine is an operation that may happen at any point of a run.
- Postgres isolation: statements see what is committed when they start, the default level of the server; SQLite is taken as serial. Ids are compared by bytes, as SQLite does; a Postgres database whose collation orders text otherwise pages in that order instead, which the model does not cover. A SQLite version beyond 32 bits, which the row would hold but the scan refuses, does not arise in the model.
- Clocks: instants are parameters; laws over runs say where they assume that the clock does not go backwards. Attempt ids are modelled for instants from the epoch on.
- RateLimiter.TokenBuckets.Allow: does not model the rounding of floating-point numbers; tokens and seconds are real numbers.
- RegistryVersions.VersionsAreContiguous: is about fewer than 2^31 - 1 transactions, beyond which versions could wrap; `PostgresRegistry.AutomaticNeverRefused` says what happens then.
- CalendarTruncation.TruncationLosesNothingExactly: assumes a look-ahead of at least two minutes more than `MaxFutureCalculations` minutes, without which the cut may be hidden by the end of the window.
- 64-bit overflow elsewhere than in the lease sum: durations and instants are unbounded integers.
- Duration conversions: the nil cases of the lease validator and `LeasePolicyFromCommon`.
- Sharing of values: cache entries are values of the map, as no pointer to one leaves the cache; messages of a bulk call are taken as separate objects; the sort of candidates is a function, as equal instants cannot be told apart.
- SHA-256 and random bytes in attempt ids: the hash is any number.
- JSON and base64url (section 5 of RFC 4648): page tokens go through any invertible text encoding; strings are sequences of characters, without invalid UTF-8.
- Offset page tokens have no caller in this model beyond their own laws; the filters of peeking and the pages of queues, messages and schedules would repeat the pattern of the schema listing.
- Reading, validating against, and comparing schemas (`Get`, `GetLatest`, `Validate`, `IsCompatible`), and the timestamps of schema metadata.
- Metrics of posting; the size of a message is a parameter.
- gRPC and HTTP plumbing, authentication, encryption, logging, configuration parsing, command line and web interface, and the client's heartbeat goroutines.
