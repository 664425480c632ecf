/** The token buckets of the rate limiter, as values: what one call does, and what holds of every
    run of calls. Time is in seconds and, like tokens, real-valued. */
module RateLimiting {
  import opened Sets

  const CLEANUP_INTERVAL: real := 60.0
  const STALE_AFTER: real := 300.0

  /** Start-up rejects configurations that are not positive. */
  datatype Config = Config(rate: real, burst: nat, maxBuckets: nat) {
    predicate Valid() {
      rate > 0.0 && burst > 0 && maxBuckets > 0
    }

    /** A bucket that has been idle long enough to be forgotten is full again. */
    predicate ForgetsOnlyFullBuckets() {
      rate * STALE_AFTER >= burst as real
    }
  }

  datatype Bucket = Bucket(tokens: real, updated: real, lastSeen: real)

  datatype Limiter = Limiter(buckets: map<string, Bucket>, lastCleanup: real)

  datatype Call = Call(client: string, at: real)

  function NewLimiter(now: real): Limiter {
    Limiter(map[], now)
  }

  predicate Stale(b: Bucket, now: real) {
    now - b.lastSeen >= STALE_AFTER
  }

  function Cleanup(s: Limiter, now: real): Limiter {
    if now - s.lastCleanup >= CLEANUP_INTERVAL then
      Limiter(map id | id in s.buckets && !Stale(s.buckets[id], now) :: s.buckets[id], now)
    else s
  }

  function Earned(c: Config, elapsed: real): real {
    elapsed * c.rate
  }

  /** Tokens of a bucket after the lazy refill at now. */
  function Refilled(c: Config, tokens: real, elapsed: real): real {
    var t := tokens + Earned(c, elapsed);
    if t > c.burst as real then c.burst as real else t
  }

  /** Every call cleans up first, if it is time to. */
  function Allow(c: Config, s: Limiter, client: string, now: real): (Limiter, bool) {
    AllowCleaned(c, Cleanup(s, now), client, now)
  }

  predicate HasOrCanGetBucket(c: Config, s: Limiter, client: string) {
    client in s.buckets || |s.buckets| < c.maxBuckets
  }

  /** Refill a bucket up to the burst and take one token if there is one. */
  function TakeToken(c: Config, b: Bucket, now: real): (Bucket, bool) {
    var tokens := Refilled(c, b.tokens, now - b.updated);
    if tokens < 1.0 then (Bucket(tokens, now, now), false) else (Bucket(tokens - 1.0, now, now), true)
  }

  function AllowCleaned(c: Config, s: Limiter, client: string, now: real): (Limiter, bool) {
    if !HasOrCanGetBucket(c, s, client) then (s, false)
    else
      var bucket := if client in s.buckets then s.buckets[client] else Bucket(c.burst as real, now, now);
      var (bucket', ok) := TakeToken(c, bucket, now);
      (s.(buckets := s.buckets[client := bucket']), ok)
  }

  // ----- the virtual level of a client -----------------------------------------------

  /** The tokens a client is entitled to at now: a client without a bucket has a full one. */
  function Level(c: Config, s: Limiter, client: string, now: real): real {
    if client in s.buckets then Refilled(c, s.buckets[client].tokens, now - s.buckets[client].updated)
    else c.burst as real
  }

  /** What every reachable limiter satisfies at an instant no earlier than its last call. */
  predicate Consistent(c: Config, s: Limiter, clock: real) {
    && s.lastCleanup <= clock
    && |s.buckets| <= c.maxBuckets
    && forall id :: id in s.buckets ==> ConsistentBucket(c, s.buckets[id], clock)
  }

  predicate ConsistentBucket(c: Config, b: Bucket, clock: real) {
    0.0 <= b.tokens <= c.burst as real && b.updated == b.lastSeen <= clock
  }

  lemma EarnedAdds(c: Config, d: real, e: real)
    ensures Earned(c, d + e) == Earned(c, d) + Earned(c, e)
    ensures Earned(c, 0.0) == 0.0
  {
  }

  lemma EarnedMonotone(c: Config, d: real, e: real)
    requires c.Valid() && d <= e
    ensures Earned(c, d) <= Earned(c, e)
  {
    EarnedAdds(c, d, e - d);
    assert d + (e - d) == e;
    assert 0.0 <= (e - d) * c.rate;
  }

  /** Refilling in two steps is refilling in one, and never takes tokens away. */
  lemma RefillComposes(c: Config, tokens: real, d: real, e: real)
    requires c.Valid() && 0.0 <= d && 0.0 <= e
    ensures Refilled(c, Refilled(c, tokens, d), e) == Refilled(c, tokens, d + e)
    ensures Refilled(c, tokens, d) <= tokens + Earned(c, d)
    ensures tokens <= c.burst as real ==> tokens <= Refilled(c, tokens, d) <= c.burst as real
  {
    EarnedAdds(c, d, e);
    EarnedMonotone(c, 0.0, d);
    EarnedMonotone(c, 0.0, e);
  }

  lemma CleanupShrinks(s: Limiter, now: real)
    ensures Cleanup(s, now).buckets.Keys <= s.buckets.Keys
    ensures |Cleanup(s, now).buckets| <= |s.buckets|
  {
    var t := Cleanup(s, now);
    assert t.buckets.Keys <= s.buckets.Keys;
    SubsetSize(t.buckets.Keys, s.buckets.Keys);
  }

  lemma CleanupIdempotent(s: Limiter, now: real)
    ensures Cleanup(Cleanup(s, now), now) == Cleanup(s, now)
  {
  }

  /** A bucket that has not been touched for the stale period is full, if that refills a burst. */
  lemma FullAfterStale(c: Config, tokens: real, idle: real)
    requires c.Valid() && c.ForgetsOnlyFullBuckets() && 0.0 <= tokens && STALE_AFTER <= idle
    ensures Refilled(c, tokens, idle) == c.burst as real
  {
    EarnedMonotone(c, STALE_AFTER, idle);
    assert Earned(c, STALE_AFTER) >= c.burst as real;
  }

  /** Forgetting idle buckets never changes any client's level, provided the refill over the stale
      period fills a bucket. */
  lemma CleanupKeepsLevel(c: Config, s: Limiter, now: real, client: string, t: real)
    requires c.Valid() && c.ForgetsOnlyFullBuckets() && Consistent(c, s, now) && now <= t
    ensures Level(c, Cleanup(s, now), client, t) == Level(c, s, client, t)
  {
    if client in s.buckets && client !in Cleanup(s, now).buckets {
      var b := s.buckets[client];
      assert Stale(b, now) && ConsistentBucket(c, b, now);
      FullAfterStale(c, b.tokens, t - b.updated);
    }
  }

  lemma TakeKeepsConsistent(c: Config, b: Bucket, now: real)
    requires c.Valid() && ConsistentBucket(c, b, now)
    ensures ConsistentBucket(c, TakeToken(c, b, now).0, now)
  {
    RefillComposes(c, b.tokens, now - b.updated, 0.0);
  }

  /** A call, on any limiter that is consistent: the limiter stays consistent and within its cap
      on buckets. */
  lemma AllowKeepsConsistent(c: Config, s: Limiter, client: string, now: real, clock: real)
    requires c.Valid() && Consistent(c, s, clock) && clock <= now
    ensures Consistent(c, Allow(c, s, client, now).0, now)
  {
    CleanupShrinks(s, now);
    var cleaned := Cleanup(s, now);
    assert Consistent(c, cleaned, now);
    var bucket := if client in cleaned.buckets then cleaned.buckets[client] else Bucket(c.burst as real, now, now);
    TakeKeepsConsistent(c, bucket, now);
    var keys := cleaned.buckets.Keys;
    var s' := Allow(c, s, client, now).0;
    if s' != cleaned {
      assert s'.buckets.Keys == keys + {client};
      assert client in keys ==> keys + {client} == keys;
      assert |s'.buckets| == |s'.buckets.Keys|;
    }
  }

  lemma RefilledFull(c: Config, elapsed: real)
    requires c.Valid() && 0.0 <= elapsed
    ensures Refilled(c, c.burst as real, elapsed) == c.burst as real
  {
    EarnedAdds(c, 0.0, 0.0);
    EarnedMonotone(c, 0.0, elapsed);
  }

  /** A call once the idle buckets are gone: the client pays one token if it is allowed. */
  lemma CleanedMeaning(c: Config, s: Limiter, client: string, now: real, t: real)
    requires c.Valid() && now <= t
    ensures AllowCleaned(c, s, client, now).1 <==> Level(c, s, client, now) >= 1.0 && HasOrCanGetBucket(c, s, client)
    ensures Level(c, AllowCleaned(c, s, client, now).0, client, t)
         == Refilled(c, Level(c, s, client, now) - (if AllowCleaned(c, s, client, now).1 then 1.0 else 0.0), t - now)
  {
    if client !in s.buckets {
      RefilledFull(c, 0.0);
      RefilledFull(c, t - now);
      if HasOrCanGetBucket(c, s, client) {
        assert TakeToken(c, Bucket(c.burst as real, now, now), now).1;
      }
    }
  }

  /** The meaning of a call. It is allowed exactly when the client's level is at least one and the
      client has or can get a bucket; it then costs that client one token and nobody else
      anything, now and at every later instant. */
  lemma AllowMeaning(c: Config, s: Limiter, client: string, now: real, other: string, t: real)
    requires c.Valid() && c.ForgetsOnlyFullBuckets() && Consistent(c, s, now) && now <= t
    ensures Allow(c, s, client, now).1 <==>
              Level(c, s, client, now) >= 1.0 && HasOrCanGetBucket(c, Cleanup(s, now), client)
    ensures Level(c, Allow(c, s, client, now).0, client, t)
         == Refilled(c, Level(c, s, client, now) - (if Allow(c, s, client, now).1 then 1.0 else 0.0), t - now)
    ensures other != client ==> Level(c, Allow(c, s, client, now).0, other, t) == Level(c, s, other, t)
  {
    CleanupKeepsLevel(c, s, now, client, now);
    CleanupKeepsLevel(c, s, now, other, t);
    CleanedMeaning(c, Cleanup(s, now), client, now, t);
  }

  // ----- runs --------------------------------------------------------------------------

  function RunCalls(c: Config, s: Limiter, calls: seq<Call>): Limiter
    decreases |calls|
  {
    if calls == [] then s else RunCalls(c, Allow(c, s, calls[0].client, calls[0].at).0, calls[1..])
  }

  /** How many of the calls of one client are allowed. */
  function Allowed(c: Config, s: Limiter, calls: seq<Call>, client: string): nat
    decreases |calls|
  {
    if calls == [] then 0
    else
      var (s', ok) := Allow(c, s, calls[0].client, calls[0].at);
      (if ok && calls[0].client == client then 1 else 0) + Allowed(c, s', calls[1..], client)
  }

  /** The clock of the calls never goes backwards and starts no earlier than the limiter. */
  predicate ClockAdvances(calls: seq<Call>, from: real) {
    (forall i :: 0 <= i < |calls| ==> from <= calls[i].at)
    && forall i, j :: 0 <= i < j < |calls| ==> calls[i].at <= calls[j].at
  }

  lemma ClockTail(calls: seq<Call>, from: real)
    requires ClockAdvances(calls, from) && calls != []
    ensures ClockAdvances(calls[1..], calls[0].at)
  {
    var rest := calls[1..];
    forall i | 0 <= i < |rest|
      ensures calls[0].at <= rest[i].at
    {
      assert rest[i] == calls[i + 1];
    }
    forall i, j | 0 <= i < j < |rest|
      ensures rest[i].at <= rest[j].at
    {
      assert rest[i] == calls[i + 1] && rest[j] == calls[j + 1];
    }
  }

  lemma {:induction false} RunKeepsConsistent(c: Config, s: Limiter, calls: seq<Call>, clock: real)
    requires c.Valid() && Consistent(c, s, clock) && ClockAdvances(calls, clock)
    ensures Consistent(c, RunCalls(c, s, calls), if calls == [] then clock else calls[|calls| - 1].at)
    decreases |calls|
  {
    if calls != [] {
      AllowKeepsConsistent(c, s, calls[0].client, calls[0].at, clock);
      ClockTail(calls, clock);
      RunKeepsConsistent(c, Allow(c, s, calls[0].client, calls[0].at).0, calls[1..], calls[0].at);
    }
  }

  /** The accounting of a run: tokens granted plus tokens left never exceed tokens held at the
      start plus the refill of the elapsed time. */
  lemma {:induction false} TokenAccounting(c: Config, s: Limiter, calls: seq<Call>, client: string, clock: real, end: real)
    requires c.Valid() && c.ForgetsOnlyFullBuckets() && Consistent(c, s, clock) && ClockAdvances(calls, clock)
    requires clock <= end && forall i :: 0 <= i < |calls| ==> calls[i].at <= end
    ensures Allowed(c, s, calls, client) as real + Level(c, RunCalls(c, s, calls), client, end)
         <= Level(c, s, client, clock) + Earned(c, end - clock)
    decreases |calls|
  {
    if calls == [] {
      LevelGrows(c, s, client, clock, end);
    } else {
      var now := calls[0].at;
      var (s', ok) := Allow(c, s, calls[0].client, now);
      ConsistentLater(c, s, clock, now);
      AllowKeepsConsistent(c, s, calls[0].client, now, clock);
      ClockTail(calls, clock);
      assert forall i :: 0 <= i < |calls| - 1 ==> calls[1..][i] == calls[i + 1];
      TokenAccounting(c, s', calls[1..], client, now, end);
      LevelGrows(c, s, client, clock, now);
      AllowMeaning(c, s, calls[0].client, now, client, now);
      EarnedAdds(c, now - clock, end - now);
      assert (now - clock) + (end - now) == end - clock;
    }
  }

  lemma ConsistentLater(c: Config, s: Limiter, clock: real, later: real)
    requires Consistent(c, s, clock) && clock <= later
    ensures Consistent(c, s, later)
  {
    forall id | id in s.buckets
      ensures ConsistentBucket(c, s.buckets[id], later)
    {
      assert ConsistentBucket(c, s.buckets[id], clock);
    }
  }

  lemma LevelGrows(c: Config, s: Limiter, client: string, clock: real, later: real)
    requires c.Valid() && Consistent(c, s, clock) && clock <= later
    ensures 0.0 <= Level(c, s, client, clock) <= c.burst as real
    ensures 0.0 <= Level(c, s, client, later)
    ensures Level(c, s, client, later) <= Level(c, s, client, clock) + Earned(c, later - clock)
  {
    if client in s.buckets {
      var b := s.buckets[client];
      assert ConsistentBucket(c, b, clock);
      assert (clock - b.updated) + (later - clock) == later - b.updated;
      RefillGrows(c, b.tokens, clock - b.updated, later - clock);
    } else {
      EarnedAdds(c, 0.0, 0.0);
      EarnedMonotone(c, 0.0, later - clock);
    }
  }

  lemma RefillGrows(c: Config, tokens: real, d: real, e: real)
    requires c.Valid() && 0.0 <= tokens <= c.burst as real && 0.0 <= d && 0.0 <= e
    ensures 0.0 <= Refilled(c, tokens, d) <= c.burst as real
    ensures 0.0 <= Refilled(c, tokens, d + e) <= Refilled(c, tokens, d) + Earned(c, e)
  {
    EarnedAdds(c, d, e);
    EarnedMonotone(c, 0.0, d);
    EarnedMonotone(c, 0.0, e);
  }

  /** Requests of one client allowed in a window of a run, counted from call i up to call j. */
  function AllowedInWindow(c: Config, start: real, calls: seq<Call>, i: nat, j: nat, client: string): nat
    requires i < j <= |calls|
  {
    Allowed(c, RunCalls(c, NewLimiter(start), calls[..i]), calls[i..j], client)
  }

  /** So many requests may be allowed in a stretch of time. */
  predicate WithinBudget(c: Config, allowed: nat, elapsed: real) {
    allowed as real <= c.burst as real + Earned(c, elapsed)
  }

  lemma LevelInRange(c: Config, s: Limiter, client: string, clock: real)
    requires c.Valid() && Consistent(c, s, clock)
    ensures 0.0 <= Level(c, s, client, clock) <= c.burst as real
  {
    LevelGrows(c, s, client, clock, clock);
  }

  /** What a window that starts at its first call and ends at the instant end can be allowed. */
  lemma RunBound(c: Config, s: Limiter, calls: seq<Call>, client: string, clock: real, end: real)
    requires c.Valid() && c.ForgetsOnlyFullBuckets()
    requires ClockAdvances(calls, clock) && Consistent(c, s, clock)
    requires clock <= end && forall i :: 0 <= i < |calls| ==> calls[i].at <= end
    ensures WithinBudget(c, Allowed(c, s, calls, client), end - clock)
  {
    LevelInRange(c, s, client, clock);
    TokenAccounting(c, s, calls, client, clock, end);
    RunKeepsConsistent(c, s, calls, clock);
    ConsistentLater(c, RunCalls(c, s, calls), if calls == [] then clock else calls[|calls| - 1].at, end);
    LevelInRange(c, RunCalls(c, s, calls), client, end);
  }

  lemma ConsistentBefore(c: Config, start: real, calls: seq<Call>, i: nat)
    requires c.Valid() && ClockAdvances(calls, start) && i < |calls|
    ensures Consistent(c, RunCalls(c, NewLimiter(start), calls[..i]), calls[i].at)
  {
    var before := calls[..i];
    assert ClockAdvances(before, start);
    assert Consistent(c, NewLimiter(start), start);
    RunKeepsConsistent(c, NewLimiter(start), before, start);
    ConsistentLater(c, RunCalls(c, NewLimiter(start), before), if i == 0 then start else calls[i - 1].at, calls[i].at);
  }

  lemma ClockInWindow(calls: seq<Call>, start: real, i: nat, j: nat)
    requires ClockAdvances(calls, start) && i < j <= |calls|
    ensures ClockAdvances(calls[i..j], calls[i].at)
    ensures calls[i].at <= calls[j - 1].at
    ensures forall k :: 0 <= k < j - i ==> calls[i..j][k].at <= calls[j - 1].at
  {
    var window := calls[i..j];
    assert forall k :: 0 <= k < |window| ==> window[k] == calls[i + k];
  }

  lemma WindowBound(c: Config, start: real, calls: seq<Call>, i: nat, j: nat, client: string)
    requires c.Valid() && c.ForgetsOnlyFullBuckets() && ClockAdvances(calls, start) && i < j <= |calls|
    ensures WithinBudget(c, AllowedInWindow(c, start, calls, i, j, client), calls[j - 1].at - calls[i].at)
  {
    ConsistentBefore(c, start, calls, i);
    var window := calls[i..j];
    ClockInWindow(calls, start, i, j);
    RunBound(c, RunCalls(c, NewLimiter(start), calls[..i]), window, client, calls[i].at, calls[j - 1].at);
  }

  // ----- the condition is necessary ----------------------------------------------------

  function Burst(client: string, at: real, k: nat): (calls: seq<Call>)
    ensures |calls| == k && forall i :: 0 <= i < k ==> calls[i] == Call(client, at)
  {
    seq(k, i => Call(client, at))
  }

  /** One call of a client with at least a token, when it is not time to clean up. */
  lemma TakesOne(c: Config, s: Limiter, client: string, at: real)
    requires c.Valid() && at - s.lastCleanup < CLEANUP_INTERVAL
    requires HasOrCanGetBucket(c, s, client)
    requires 1.0 <= Level(c, s, client, at) <= c.burst as real
    ensures Allow(c, s, client, at).1
    ensures Allow(c, s, client, at).0 == s.(buckets := s.buckets[client := Bucket(Level(c, s, client, at) - 1.0, at, at)])
    ensures Level(c, Allow(c, s, client, at).0, client, at) == Level(c, s, client, at) - 1.0
  {
    assert Earned(c, at - at) == 0.0;
  }

  /** A full bucket allows its whole burst at one instant. */
  lemma {:induction false} BurstIsAllowed(c: Config, s: Limiter, client: string, at: real, k: nat)
    requires c.Valid() && at - s.lastCleanup < CLEANUP_INTERVAL
    requires HasOrCanGetBucket(c, s, client)
    requires k as real <= Level(c, s, client, at) <= c.burst as real
    ensures Allowed(c, s, Burst(client, at, k), client) == k
    ensures k > 0 ==> var end := RunCalls(c, s, Burst(client, at, k));
                      && client in end.buckets && end.buckets[client].lastSeen == at
                      && end.buckets.Keys == s.buckets.Keys + {client}
                      && end.lastCleanup == s.lastCleanup
    decreases k
  {
    if k > 0 {
      TakesOne(c, s, client, at);
      var s' := Allow(c, s, client, at).0;
      assert (k - 1) as real == k as real - 1.0;
      assert Burst(client, at, k)[1..] == Burst(client, at, k - 1);
      BurstIsAllowed(c, s', client, at, k - 1);
    }
  }

  lemma {:induction false} AllowedConcat(c: Config, s: Limiter, a: seq<Call>, b: seq<Call>, client: string)
    ensures Allowed(c, s, a + b, client) == Allowed(c, s, a, client) + Allowed(c, RunCalls(c, s, a), b, client)
    decreases |a|
  {
    if a == [] {
      assert a + b == b;
    } else {
      assert (a + b)[1..] == a[1..] + b;
      AllowedConcat(c, Allow(c, s, a[0].client, a[0].at).0, a[1..], b, client);
    }
  }

  /** A client whose bucket has just been forgotten gets a second burst. */
  lemma SecondBurst(c: Config, s: Limiter)
    requires c.Valid() && s.buckets.Keys == {"a"} && s.lastCleanup == 0.0 && s.buckets["a"].lastSeen == 0.0
    ensures Allowed(c, s, Burst("a", STALE_AFTER, c.burst), "a") == c.burst
  {
    var swept := Cleanup(s, STALE_AFTER);
    assert swept.buckets == map[];
    BurstIsAllowed(c, swept, "a", STALE_AFTER, c.burst);
    CleanupIdempotent(s, STALE_AFTER);
  }

  /** A burst now and another after the stale period. */
  function TwoBursts(c: Config): (calls: seq<Call>)
    ensures |calls| == 2 * c.burst
  {
    Burst("a", 0.0, c.burst) + Burst("a", STALE_AFTER, c.burst)
  }

  lemma TwoBurstsAdvance(c: Config)
    requires c.Valid()
    ensures ClockAdvances(TwoBursts(c), 0.0)
    ensures TwoBursts(c)[0].at == 0.0 && TwoBursts(c)[2 * c.burst - 1].at == STALE_AFTER
  {
    assert forall i :: 0 <= i < 2 * c.burst ==> TwoBursts(c)[i].at == if i < c.burst then 0.0 else STALE_AFTER;
  }

  lemma TwoBurstsAllowed(c: Config)
    requires c.Valid()
    ensures Allowed(c, NewLimiter(0.0), TwoBursts(c), "a") == 2 * c.burst
  {
    var (s0, first) := (NewLimiter(0.0), Burst("a", 0.0, c.burst));
    BurstIsAllowed(c, s0, "a", 0.0, c.burst);
    SecondBurst(c, RunCalls(c, s0, first));
    AllowedConcat(c, s0, first, Burst("a", STALE_AFTER, c.burst), "a");
  }

  /** If the stale period does not refill a bucket, a client that stays away for it gets a second
      burst too early. */
  lemma ForgettingTooSoonBreaksBound(c: Config) returns (calls: seq<Call>)
    requires c.Valid() && !c.ForgetsOnlyFullBuckets()
    ensures ClockAdvances(calls, 0.0) && |calls| > 0
    ensures !WithinBudget(c, AllowedInWindow(c, 0.0, calls, 0, |calls|, "a"), calls[|calls| - 1].at - calls[0].at)
  {
    calls := TwoBursts(c);
    TwoBurstsAdvance(c);
    TwoBurstsAllowed(c);
    assert calls[..0] == [] && calls[0..|calls|] == calls;
    assert !WithinBudget(c, 2 * c.burst, STALE_AFTER);
  }

  /** No client is ever allowed more than burst + rate * d requests in a window of length d. */
  ghost predicate BoundsEveryWindow(c: Config) {
    forall start: real, calls: seq<Call>, i: nat, j: nat, client: string ::
      ClockAdvances(calls, start) && i < j <= |calls| ==>
        WithinBudget(c, AllowedInWindow(c, start, calls, i, j, client), calls[j - 1].at - calls[i].at)
  }

  /** The window bound of the limiter holds, for all runs of all clients, exactly when the
      configured rate refills a whole burst within the stale period. */
  lemma WindowBoundExactly(c: Config)
    requires c.Valid()
    ensures BoundsEveryWindow(c) <==> c.ForgetsOnlyFullBuckets()
  {
    if c.ForgetsOnlyFullBuckets() {
      forall start: real, calls: seq<Call>, i: nat, j: nat, client: string | ClockAdvances(calls, start) && i < j <= |calls|
        ensures WithinBudget(c, AllowedInWindow(c, start, calls, i, j, client), calls[j - 1].at - calls[i].at)
      {
        WindowBound(c, start, calls, i, j, client);
      }
    } else {
      var calls := ForgettingTooSoonBreaksBound(c);
    }
  }
}
