/** A larger cache never misses where a smaller one hits. */
module CacheCapacity {
  import opened Wrappers
  import opened RecencyCache
  import opened Sequences

  /** a is b with some entries left out. */
  predicate Subsequence(a: seq<Entry>, b: seq<Entry>) {
    a == [] || (b != [] && if a[0] == b[0] then Subsequence(a[1..], b[1..]) else Subsequence(a, b[1..]))
  }

  lemma {:induction false} SubsequenceMembers(a: seq<Entry>, b: seq<Entry>)
    requires Subsequence(a, b)
    ensures forall e :: e in a ==> e in b
    ensures |a| <= |b|
    decreases |b|
  {
    if a != [] {
      assert a == [a[0]] + a[1..];
      if a[0] == b[0] {
        SubsequenceMembers(a[1..], b[1..]);
      } else {
        SubsequenceMembers(a, b[1..]);
      }
    }
  }

  /** Leaving out one more entry at the front. */
  lemma {:induction false} SubsequenceTail(a: seq<Entry>, b: seq<Entry>)
    requires a != [] && Subsequence(a, b)
    ensures b != [] && Subsequence(a[1..], b[1..])
    decreases |b|
  {
    if a[0] != b[0] {
      SubsequenceTail(a, b[1..]);
      SubsequenceSkip(a[1..], b[1..]);
    }
  }

  lemma {:induction false} SubsequenceSkip(a: seq<Entry>, b: seq<Entry>)
    requires b != [] && Subsequence(a, b[1..])
    ensures Subsequence(a, b)
    decreases |b|
  {
    if a != [] && a[0] == b[0] {
      SubsequenceTail(a, b[1..]);
      SubsequenceSkip(a[1..], b[1..]);
    }
  }

  /** Removing by the same test keeps the relation, and removes no more from the smaller. */
  lemma {:induction false} KeepSubsequence(p: Entry -> bool, a: seq<Entry>, b: seq<Entry>)
    requires Subsequence(a, b)
    ensures Subsequence(Keep(p, a), Keep(p, b))
    ensures |a| - |Keep(p, a)| <= |b| - |Keep(p, b)|
    decreases |b|
  {
    if a != [] {
      if a[0] == b[0] {
        KeepSubsequence(p, a[1..], b[1..]);
      } else {
        KeepSubsequence(p, a, b[1..]);
        if p(b[0]) {
          assert Keep(p, b)[1..] == Keep(p, b[1..]);
          SubsequenceSkip(Keep(p, a), Keep(p, b));
        }
      }
    }
  }

  lemma ConsSubsequence(e: Entry, a: seq<Entry>, b: seq<Entry>)
    requires Subsequence(a, b)
    ensures Subsequence([e] + a, [e] + b)
    ensures Subsequence(a, [e] + b)
  {
    assert ([e] + a)[1..] == a && ([e] + b)[1..] == b;
    SubsequenceSkip(a, [e] + b);
  }

  /** Dropping the oldest entry of the smaller, or of both when the smaller may lose its own. */
  lemma {:induction false} DropLast(a: seq<Entry>, b: seq<Entry>)
    requires Subsequence(a, b) && a != []
    ensures b != []
    ensures Subsequence(a[..|a| - 1], b[..|b| - 1])
    decreases |b|
  {
    SubsequenceMembers(a, b);
    if a[0] == b[0] {
      if |a| > 1 {
        DropLast(a[1..], b[1..]);
        assert a[1..][..|a| - 2] == a[..|a| - 1][1..] && b[1..][..|b| - 2] == b[..|b| - 1][1..];
      }
    } else {
      DropLast(a, b[1..]);
      assert b[1..][..|b| - 2] == b[..|b| - 1][1..];
      SubsequenceSkip(a[..|a| - 1], b[..|b| - 1]);
    }
  }

  lemma DropLastOfSmaller(a: seq<Entry>, b: seq<Entry>)
    requires Subsequence(a, b) && a != []
    ensures Subsequence(a[..|a| - 1], b)
  {
    DropLast(a, b);
    AppendSubsequence(a[..|a| - 1], b[..|b| - 1], b[|b| - 1]);
    assert b == b[..|b| - 1] + [b[|b| - 1]];
  }

  lemma {:induction false} AppendSubsequence(a: seq<Entry>, b: seq<Entry>, e: Entry)
    requires Subsequence(a, b)
    ensures Subsequence(a, b + [e])
    decreases |b|
  {
    if a != [] {
      assert (b + [e])[1..] == b[1..] + [e];
      if a[0] == b[0] {
        AppendSubsequence(a[1..], b[1..], e);
      } else {
        AppendSubsequence(a, b[1..], e);
      }
    }
  }

  // ----- the invariant of two caches fed the same operations -------------------------------

  /** The cache of capacity n holds part of what the one of capacity m holds, in the same order
      and with the same contents, and is missing at most m - n entries. */
  predicate Below(a: seq<Entry>, b: seq<Entry>, n: nat, m: nat) {
    && Subsequence(a, b)
    && DistinctKeys(a) && DistinctKeys(b)
    && |a| <= n <= m && |b| <= m
    && |b| - |a| <= m - n
  }

  lemma SameFind(a: seq<Entry>, b: seq<Entry>, key: string)
    requires Subsequence(a, b) && DistinctKeys(b)
    ensures Find(a, key).Some? ==> Find(b, key) == Find(a, key)
  {
    SubsequenceMembers(a, b);
    if Find(a, key).Some? {
      var (x, y) := (Find(a, key).value, Find(b, key).value);
      assert x in b && y in b && x.key == y.key;
    }
  }

  lemma WithoutSize(s: seq<Entry>, key: string)
    requires DistinctKeys(s)
    ensures |Without(s, key)| == |s| - (if Find(s, key).Some? then 1 else 0)
    ensures Find(s, key).None? ==> Without(s, key) == s
  {
    if s != [] {
      WithoutSize(s[1..], key);
      if s[0].key == key {
        assert forall e :: e in s[1..] ==> e.key != key;
        KeepSize((e: Entry) => e.key != key, s[1..]);
      }
      KeepSize((e: Entry) => e.key != key, s);
    }
  }

  lemma GetKeepsBelow(a: seq<Entry>, b: seq<Entry>, key: string, now: int, ttl: int, n: nat, m: nat)
    requires Below(a, b, n, m)
    ensures var (a', x) := Get(a, key, now, ttl);
            var (b', y) := Get(b, key, now, ttl);
            Below(a', b', n, m) && (x.Some? ==> y == x)
  {
    SameFind(a, b, key);
    KeepSubsequence((e: Entry) => e.key != key, a, b);
    WithoutSize(a, key);
    WithoutSize(b, key);
    StaysWithinCapacity(a, GetOp(key, now), ttl, n);
    StaysWithinCapacity(b, GetOp(key, now), ttl, m);
    if Find(b, key).Some? {
      ConsSubsequence(Find(b, key).value, Without(a, key), Without(b, key));
    }
  }

  lemma UnexpiredKeepsBelow(a: seq<Entry>, b: seq<Entry>, now: int, ttl: int, n: nat, m: nat)
    requires Below(a, b, n, m)
    ensures Below(Unexpired(a, now, ttl), Unexpired(b, now, ttl), n, m)
  {
    KeepSubsequence((e: Entry) => !Expired(e, now, ttl), a, b);
    KeepDistinct((e: Entry) => !Expired(e, now, ttl), a);
    KeepDistinct((e: Entry) => !Expired(e, now, ttl), b);
  }

  /** A new front entry, and the evictions it causes. */
  lemma PushKeepsBelow(e: Entry, a: seq<Entry>, b: seq<Entry>, n: nat, m: nat)
    requires Below(a, b, n, m) && 0 < n
    requires forall x :: x in b ==> x.key != e.key
    ensures Below(Take([e] + a, n), Take([e] + b, m), n, m)
  {
    SubsequenceMembers(a, b);
    ConsSubsequence(e, a, b);
    ConsDistinct(e, a);
    ConsDistinct(e, b);
    EvictionKeepsBelow([e] + a, [e] + b, n, m);
  }

  lemma EvictionKeepsBelow(a: seq<Entry>, b: seq<Entry>, n: nat, m: nat)
    requires Subsequence(a, b) && DistinctKeys(a) && DistinctKeys(b)
    requires 0 < n <= m && |a| <= n + 1 && |b| <= m + 1 && |b| - |a| <= m - n
    ensures Below(Take(a, n), Take(b, m), n, m)
  {
    SubsequenceMembers(a, b);
    if |a| == n + 1 {
      assert Take(a, n) == a[..|a| - 1];
      if |b| == m + 1 {
        assert Take(b, m) == b[..|b| - 1];
        DropLast(a, b);
      } else {
        DropLastOfSmaller(a, b);
      }
    }
  }

  lemma SetKeepsBelow(a: seq<Entry>, b: seq<Entry>, key: string, times: seq<int>, now: int, ttl: int, n: nat, m: nat)
    requires Below(a, b, n, m) && 0 < n
    ensures Below(Set(a, key, times, now, ttl, n), Set(b, key, times, now, ttl, m), n, m)
  {
    UnexpiredKeepsBelow(a, b, now, ttl, n, m);
    SetOnUnexpired(Unexpired(a, now, ttl), Unexpired(b, now, ttl), Entry(key, times, now), n, m);
  }

  lemma SetOnUnexpired(a: seq<Entry>, b: seq<Entry>, e: Entry, n: nat, m: nat)
    requires Below(a, b, n, m) && 0 < n
    ensures Below(Put(a, e, n), Put(b, e, m), n, m)
  {
    if Find(b, e.key).None? {
      SameFind(a, b, e.key);
      PushKeepsBelow(e, a, b, n, m);
    } else {
      var (a', b') := (Without(a, e.key), Without(b, e.key));
      SameFind(a, b, e.key);
      KeepSubsequence((x: Entry) => x.key != e.key, a, b);
      KeepDistinct((x: Entry) => x.key != e.key, a);
      KeepDistinct((x: Entry) => x.key != e.key, b);
      WithoutSize(a, e.key);
      WithoutSize(b, e.key);
      ConsSubsequence(e, a', b');
      ConsDistinct(e, a');
      ConsDistinct(e, b');
      if |a'| == n {
        DropLastOfSmaller([e] + a', [e] + b');
      }
    }
  }

  lemma StepKeepsBelow(a: seq<Entry>, b: seq<Entry>, op: Op, ttl: int, n: nat, m: nat)
    requires Below(a, b, n, m) && 0 < n
    ensures Below(Apply(a, op, ttl, n).0, Apply(b, op, ttl, m).0, n, m)
    ensures Apply(a, op, ttl, n).1.Some? ==> Apply(b, op, ttl, m).1 == Apply(a, op, ttl, n).1
  {
    match op
    case GetOp(key, now) => GetKeepsBelow(a, b, key, now, ttl, n, m);
    case SetOp(key, times, now) => SetKeepsBelow(a, b, key, times, now, ttl, n, m);
    case CleanupOp(now) => UnexpiredKeepsBelow(a, b, now, ttl, n, m);
    case ClearOp =>
  }

  lemma {:induction false} RunsStayBelow(a: seq<Entry>, b: seq<Entry>, ops: seq<Op>, ttl: int, n: nat, m: nat, i: nat)
    requires Below(a, b, n, m) && 0 < n && i < |ops|
    ensures Results(a, ops, ttl, n)[i].Some? ==> Results(b, ops, ttl, m)[i] == Results(a, ops, ttl, n)[i]
    decreases |ops|
  {
    StepKeepsBelow(a, b, ops[0], ttl, n, m);
    if i > 0 {
      RunsStayBelow(Apply(a, ops[0], ttl, n).0, Apply(b, ops[0], ttl, m).0, ops[1..], ttl, n, m, i - 1);
    }
  }

  /** Capacity monotonicity: fed the same operations at the same instants, whatever hits in a cache
      of n entries hits with the same times in every cache of m >= n entries. */
  lemma CapacityIsMonotone(ops: seq<Op>, ttl: int, n: nat, m: nat, i: nat)
    requires 0 < n <= m && i < |ops|
    ensures Results([], ops, ttl, n)[i].Some? ==> Results([], ops, ttl, m)[i] == Results([], ops, ttl, n)[i]
  {
    RunsStayBelow([], [], ops, ttl, n, m, i);
  }
}
