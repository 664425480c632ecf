/** Who gets through the rate limiter: new clients, clients that keep to the rate, and in which case
    a client is turned away for want of a bucket. */
module LimiterAccess {
  import opened RateLimiting
  import opened Sets

  // ----- one call ------------------------------------------------------------------------------------

  /** A bucket gains rate tokens a second and never holds more than the burst. */
  lemma RefillMeaning(c: Config, tokens: real, elapsed: real)
    ensures var full := tokens + elapsed * c.rate;
            Refilled(c, tokens, elapsed) == if full <= c.burst as real then full else c.burst as real
  {
  }

  /** A limiter starts without buckets, its first cleanup due a minute later. */
  lemma StartMeaning(now: real)
    ensures NewLimiter(now).buckets == map[] && NewLimiter(now).lastCleanup == now
  {
  }

  /** When a minute has passed since the last cleanup, exactly the buckets not seen for five minutes
      go; otherwise all stay; and those that stay are as they were. */
  lemma CleanupMeaning(s: Limiter, now: real, id: string)
    ensures id in Cleanup(s, now).buckets <==>
              id in s.buckets && (now - s.lastCleanup >= 60.0 ==> now - s.buckets[id].lastSeen < 300.0)
    ensures id in Cleanup(s, now).buckets ==> Cleanup(s, now).buckets[id] == s.buckets[id]
    ensures Cleanup(s, now).lastCleanup == if now - s.lastCleanup >= 60.0 then now else s.lastCleanup
  {
  }

  /** A client without a bucket is let through if fewer than maxBuckets remain after the cleanup, and
      is then left with a full bucket less one token; if not, it is turned away and gets none. */
  lemma NewClient(c: Config, s: Limiter, client: string, now: real)
    requires c.Valid() && client !in Cleanup(s, now).buckets
    ensures |Cleanup(s, now).buckets| < c.maxBuckets ==>
              && Allow(c, s, client, now).1
              && Allow(c, s, client, now).0.buckets
                 == Cleanup(s, now).buckets[client := Bucket(c.burst as real - 1.0, now, now)]
    ensures |Cleanup(s, now).buckets| >= c.maxBuckets ==>
              !Allow(c, s, client, now).1 && Allow(c, s, client, now).0 == Cleanup(s, now)
  {
    RefilledFull(c, 0.0);
    assert now - now == 0.0;
  }

  /** The tokens of a bucket after a refill at now: what it had and what it has gained since, no more
      than the burst. */
  predicate Holds(c: Config, b: Bucket, now: real, held: real) {
    var full := b.tokens + (now - b.updated) * c.rate;
    held == if full <= c.burst as real then full else c.burst as real
  }

  lemma HoldsRefilled(c: Config, b: Bucket, now: real, held: real)
    requires Holds(c, b, now, held)
    ensures held == Refilled(c, b.tokens, now - b.updated)
  {
    RefillMeaning(c, b.tokens, now - b.updated);
  }

  /** A client with a bucket is let through exactly if the bucket, refilled, holds a token. */
  lemma KnownClient(c: Config, s: Limiter, client: string, now: real, held: real)
    requires client in Cleanup(s, now).buckets && Holds(c, Cleanup(s, now).buckets[client], now, held)
    ensures Allow(c, s, client, now).1 <==> 1.0 <= held
    ensures Allow(c, s, client, now).0.buckets
         == Cleanup(s, now).buckets[client := Bucket(if 1.0 <= held then held - 1.0 else held, now, now)]
  {
    HoldsRefilled(c, Cleanup(s, now).buckets[client], now, held);
  }

  /** From one instant to the other at least one token is earned. */
  predicate TokenEarned(c: Config, from: real, to: real) {
    from <= to && 1.0 <= (to - from) * c.rate
  }

  // ----- runs ----------------------------------------------------------------------------------------

  function Clients(calls: seq<Call>): set<string> {
    set i | 0 <= i < |calls| :: calls[i].client
  }

  lemma {:induction false} RunSnoc(c: Config, s: Limiter, calls: seq<Call>, last: Call)
    ensures RunCalls(c, s, calls + [last]) == Allow(c, RunCalls(c, s, calls), last.client, last.at).0
    decreases |calls|
  {
    if calls == [] {
      assert calls + [last] == [last] && [last][1..] == [];
    } else {
      assert (calls + [last])[1..] == calls[1..] + [last];
      RunSnoc(c, Allow(c, s, calls[0].client, calls[0].at).0, calls[1..], last);
    }
  }

  lemma CallKeys(c: Config, s: Limiter, client: string, now: real)
    ensures Allow(c, s, client, now).0.buckets.Keys <= s.buckets.Keys + {client}
  {
  }

  /** Only clients that have called have buckets. */
  lemma {:induction false} KeysAreClients(c: Config, start: real, calls: seq<Call>)
    ensures RunCalls(c, NewLimiter(start), calls).buckets.Keys <= Clients(calls)
    decreases |calls|
  {
    if calls != [] {
      var n := |calls| - 1;
      KeysAreClients(c, start, calls[..n]);
      assert calls == calls[..n] + [calls[n]];
      RunSnoc(c, NewLimiter(start), calls[..n], calls[n]);
      CallKeys(c, RunCalls(c, NewLimiter(start), calls[..n]), calls[n].client, calls[n].at);
      ClientsSnoc(calls);
    }
  }

  lemma ClientsSnoc(calls: seq<Call>)
    requires calls != []
    ensures Clients(calls) == Clients(calls[..|calls| - 1]) + {calls[|calls| - 1].client}
  {
    var (init, last) := (calls[..|calls| - 1], calls[|calls| - 1]);
    forall x | x in Clients(init)
      ensures x in Clients(calls)
    {
      var i :| 0 <= i < |init| && init[i].client == x;
      assert calls[i].client == x;
    }
    forall x | x in Clients(calls)
      ensures x in Clients(init) + {last.client}
    {
      var i :| 0 <= i < |calls| && calls[i].client == x;
      assert i < |init| ==> init[i].client == x;
    }
  }

  /** As long as no more than maxBuckets clients have called, the first call of each is allowed. */
  lemma FirstCallIsAllowed(c: Config, start: real, calls: seq<Call>, i: nat)
    requires c.Valid() && i < |calls| && |Clients(calls[..i + 1])| <= c.maxBuckets
    requires forall j :: 0 <= j < i ==> calls[j].client != calls[i].client
    ensures Allow(c, RunCalls(c, NewLimiter(start), calls[..i]), calls[i].client, calls[i].at).1
  {
    var s := RunCalls(c, NewLimiter(start), calls[..i]);
    var (cleaned, client) := (Cleanup(s, calls[i].at), calls[i].client);
    KeysAreClients(c, start, calls[..i]);
    CleanupShrinks(s, calls[i].at);
    assert calls[..i + 1][..i] == calls[..i];
    ClientsSnoc(calls[..i + 1]);
    assert client !in Clients(calls[..i]);
    ProperSubset(cleaned.buckets.Keys, Clients(calls[..i + 1]), client);
    assert |cleaned.buckets| == |cleaned.buckets.Keys|;
    NewClient(c, s, client, calls[i].at);
  }

  lemma TokenIsHeld(c: Config, b: Bucket, now: real, t: real)
    requires c.Valid() && ConsistentBucket(c, b, now) && TokenEarned(c, now, t)
    ensures 1.0 <= Refilled(c, b.tokens, t - b.updated)
  {
    EarnedMonotone(c, t - now, t - b.updated);
    assert 1.0 <= Earned(c, t - b.updated);
  }

  /** A client that has a bucket, or can get one, may call again once a token's time has passed. */
  lemma CallAfterATokensTime(c: Config, s: Limiter, client: string, now: real, t: real)
    requires c.Valid() && Consistent(c, s, now) && TokenEarned(c, now, t)
    requires client in Cleanup(s, t).buckets || |Cleanup(s, t).buckets| < c.maxBuckets
    ensures Allow(c, s, client, t).1
  {
    if client in Cleanup(s, t).buckets {
      TokenIsHeld(c, s.buckets[client], now, t);
    } else {
      NewClient(c, s, client, t);
    }
  }

  /** Calls of one client, each at least a token's time after the one before. */
  predicate KeepsToRate(c: Config, calls: seq<Call>, client: string) {
    && (forall i :: 0 <= i < |calls| ==> calls[i].client == client)
    && forall i :: 1 <= i < |calls| ==> TokenEarned(c, calls[i - 1].at, calls[i].at)
  }

  lemma RestKeepsToRate(c: Config, calls: seq<Call>, client: string)
    requires KeepsToRate(c, calls, client) && calls != []
    ensures KeepsToRate(c, calls[1..], client)
    ensures |calls| > 1 ==> TokenEarned(c, calls[0].at, calls[1].at)
  {
    var rest := calls[1..];
    forall i | 1 <= i < |rest|
      ensures TokenEarned(c, rest[i - 1].at, rest[i].at)
    {
      assert rest[i - 1] == calls[i] && rest[i] == calls[i + 1];
      assert TokenEarned(c, calls[i + 1 - 1].at, calls[i + 1].at);
    }
  }

  /** A client that has the limiter to itself and keeps to the rate is never turned away. */
  lemma {:induction false} RateIsGranted(c: Config, s: Limiter, calls: seq<Call>, client: string, last: real)
    requires c.Valid() && Consistent(c, s, last) && KeepsToRate(c, calls, client) && s.buckets.Keys <= {client}
    requires calls != [] ==> TokenEarned(c, last, calls[0].at)
    ensures Allowed(c, s, calls, client) == |calls|
    decreases |calls|
  {
    if calls != [] {
      var (now, rest) := (calls[0].at, calls[1..]);
      OneBucketIsEnough(c, s, client, now);
      CallAfterATokensTime(c, s, client, last, now);
      AllowKeepsConsistent(c, s, client, now, last);
      CallKeys(c, s, client, now);
      RestKeepsToRate(c, calls, client);
      RateIsGranted(c, Allow(c, s, client, now).0, rest, client, now);
    }
  }

  lemma OneBucketIsEnough(c: Config, s: Limiter, client: string, now: real)
    requires c.Valid() && s.buckets.Keys <= {client}
    ensures client in Cleanup(s, now).buckets || |Cleanup(s, now).buckets| < c.maxBuckets
  {
    var cleaned := Cleanup(s, now);
    CleanupShrinks(s, now);
    if client !in cleaned.buckets {
      assert cleaned.buckets.Keys == {};
      assert |cleaned.buckets| == |cleaned.buckets.Keys|;
    }
  }
}
