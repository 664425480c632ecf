/** The rate limiter: a map of buckets that are refilled, forgotten and created in place. */
module RateLimiter {
  import opened RateLimiting

  class ClientBucket {
    var tokens: real
    var updated: real
    var lastSeen: real

    constructor (tokens: real, now: real)
      ensures View() == Bucket(tokens, now, now)
    {
      this.tokens, updated, lastSeen := tokens, now, now;
    }

    function View(): Bucket
      reads this
    {
      Bucket(tokens, updated, lastSeen)
    }

    method TakeToken(config: Config, now: real) returns (ok: bool)
      modifies this
      ensures (View(), ok) == RateLimiting.TakeToken(config, old(View()), now)
    {
      tokens := tokens + Earned(config, now - updated);
      if tokens > config.burst as real {
        tokens := config.burst as real;
      }
      updated := now;
      lastSeen := now;
      if tokens < 1.0 {
        return false;
      }
      tokens := tokens - 1.0;
      return true;
    }
  }

  class TokenBuckets {
    const config: Config
    var buckets: map<string, ClientBucket>
    var lastCleanup: real

    constructor (config: Config, now: real)
      ensures Valid() && View() == NewLimiter(now) && this.config == config
    {
      this.config := config;
      buckets, lastCleanup := map[], now;
    }

    /** No two clients share a bucket. */
    ghost predicate Valid()
      reads this
    {
      forall a, b :: a in buckets && b in buckets && buckets[a] == buckets[b] ==> a == b
    }

    function View(): Limiter
      reads this, buckets.Values
    {
      Limiter(map id | id in buckets :: buckets[id].View(), lastCleanup)
    }

    /** Delete every idle bucket, in the arbitrary order in which the map yields its keys. */
    method Sweep(now: real)
      modifies this`buckets
      ensures forall id :: id in buckets <==> id in old(buckets) && !(now - old(buckets)[id].lastSeen >= STALE_AFTER)
      ensures forall id :: id in buckets ==> buckets[id] == old(buckets)[id]
    {
      var todo := buckets.Keys;
      while todo != {}
        invariant todo <= old(buckets).Keys
        invariant forall id :: id in buckets <==>
                    id in old(buckets) && (id in todo || !(now - old(buckets)[id].lastSeen >= STALE_AFTER))
        invariant forall id :: id in buckets ==> buckets[id] == old(buckets)[id]
      {
        var id :| id in todo;
        todo := todo - {id};
        if now - buckets[id].lastSeen >= STALE_AFTER {
          buckets := buckets - {id};
        }
      }
    }

    method ForgetStale(now: real)
      requires Valid()
      modifies this
      ensures Valid() && buckets.Values <= old(buckets.Values)
      ensures View() == Cleanup(old(View()), now)
    {
      if now - lastCleanup >= CLEANUP_INTERVAL {
        Sweep(now);
        lastCleanup := now;
        assert View().buckets == Cleanup(old(View()), now).buckets;
      }
    }

    /** The client's bucket, created full if there is room; null if there is none. */
    method BucketOf(clientId: string, now: real) returns (bucket: ClientBucket?)
      requires Valid()
      modifies this`buckets
      ensures Valid()
      ensures bucket == null <==> clientId !in old(buckets) && config.maxBuckets <= |old(buckets)|
      ensures bucket == null <==> !HasOrCanGetBucket(config, old(View()), clientId)
      ensures bucket == null ==> buckets == old(buckets)
      ensures bucket != null ==>
                && buckets == old(buckets)[clientId := bucket]
                && (clientId !in old(buckets) ==> fresh(bucket) && bucket.View() == Bucket(config.burst as real, now, now))
                && (clientId in old(buckets) ==> bucket == old(buckets)[clientId])
    {
      assert View().buckets.Keys == buckets.Keys;
      assert |View().buckets| == |View().buckets.Keys| && |buckets| == |buckets.Keys|;
      if clientId !in buckets {
        if |buckets| >= config.maxBuckets {
          return null;
        }
        var created := new ClientBucket(config.burst as real, now);
        buckets := buckets[clientId := created];
      }
      bucket := buckets[clientId];
    }

    /** Changing one bucket changes one entry of the view. */
    twostate lemma OneBucketChanged(clientId: string, new bucket: ClientBucket)
      requires old(Valid()) && buckets == old(buckets)[clientId := bucket] && lastCleanup == old(lastCleanup)
      requires forall id :: id in old(buckets) && id != clientId ==> old(buckets)[id].View() == old(buckets[id].View())
      ensures View() == old(View()).(buckets := old(View()).buckets[clientId := bucket.View()])
    {
    }

    method TakeFrom(clientId: string, now: real) returns (ok: bool)
      requires Valid()
      modifies this`buckets, buckets.Values
      ensures Valid()
      ensures (View(), ok) == AllowCleaned(config, old(View()), clientId, now)
    {
      var bucket := BucketOf(clientId, now);
      if bucket == null {
        return false;
      }
      ok := bucket.TakeToken(config, now);
      OneBucketChanged(clientId, bucket);
    }

    method Allow(clientId: string, now: real) returns (ok: bool)
      requires Valid()
      modifies this, buckets.Values
      ensures Valid()
      ensures (View(), ok) == RateLimiting.Allow(config, old(View()), clientId, now)
    {
      ForgetStale(now);
      ok := TakeFrom(clientId, now);
    }
  }
}
