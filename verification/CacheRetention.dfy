/** What each cache operation does to the order of entries, and how long an entry that was hit or set
    in a run stays available. */
module CacheRetention {
  import opened Wrappers
  import opened RecencyCache
  import opened CacheGuarantees
  import opened CacheCapacity
  import opened Sequences

  // ----- one operation -------------------------------------------------------------------------------

  predicate HasKey(s: seq<Entry>, key: string) {
    exists i :: 0 <= i < |s| && s[i].key == key
  }

  lemma KeyAt(s: seq<Entry>, key: string) returns (i: nat)
    requires DistinctKeys(s) && HasKey(s, key)
    ensures i < |s| && s[i].key == key && Find(s, key) == Some(s[i])
    ensures Without(s, key) == s[..i] + s[i + 1..]
  {
    i :| 0 <= i < |s| && s[i].key == key;
    AtPosition(s, i);
  }

  lemma NoKey(s: seq<Entry>, key: string)
    requires !HasKey(s, key)
    ensures Find(s, key) == None
  {
    assert forall i :: 0 <= i < |s| ==> s[i].key != key;
  }

  /** A get of a cached key at position i: if its entry is at most ttl old, its times are returned and
      the entry moves to the front, the others keeping their order; if it is older, it is removed and
      nothing returned. A get of any other key changes nothing. */
  lemma GetMeaning(s: seq<Entry>, key: string, now: int, ttl: int, n: int, i: nat)
    requires DistinctKeys(s)
    ensures var (s', out) := Apply(s, GetOp(key, now), ttl, n);
            && (i < |s| && s[i].key == key && now - s[i].createdAt <= ttl ==>
                  out == Some(s[i].times) && s' == [s[i]] + (s[..i] + s[i + 1..]))
            && (i < |s| && s[i].key == key && now - s[i].createdAt > ttl ==>
                  out == None && s' == s[..i] + s[i + 1..])
            && ((forall j :: 0 <= j < |s| ==> s[j].key != key) ==> out == None && s' == s)
  {
    if i < |s| && s[i].key == key {
      AtPosition(s, i);
    }
    if forall j :: 0 <= j < |s| ==> s[j].key != key {
      NoKey(s, key);
    }
  }

  lemma ClearMeaning(s: seq<Entry>, ttl: int, n: int)
    ensures Apply(s, ClearOp, ttl, n) == ([], None)
  {
  }

  /** What a cleanup leaves: the entries at most ttl old, in their order. */
  lemma CleanupMeaning(s: seq<Entry>, now: int, ttl: int, n: int)
    ensures var s' := Apply(s, CleanupOp(now), ttl, n).0;
            && (forall e :: e in s' <==> e in s && now - e.createdAt <= ttl)
            && Subsequence(s', s)
  {
    KeepIsSubsequence((e: Entry) => !Expired(e, now, ttl), s);
  }

  lemma {:induction false} KeepIsSubsequence(p: Entry -> bool, s: seq<Entry>)
    ensures Subsequence(Keep(p, s), s)
  {
    if s != [] {
      KeepIsSubsequence(p, s[1..]);
      if p(s[0]) {
        assert Keep(p, s)[1..] == Keep(p, s[1..]);
      } else {
        SubsequenceSkip(Keep(p, s), s);
      }
    }
  }

  /** A set first does what a cleanup does. Then the new entry is in front: of the others if its key
      was among the entries left, at position i; else of as many of the most recent ones as the
      capacity allows. */
  lemma SetMeaning(s: seq<Entry>, key: string, times: seq<int>, now: int, ttl: int, n: nat, i: nat)
    requires DistinctKeys(s) && 0 < n
    ensures var left := Apply(s, CleanupOp(now), ttl, n).0;
            var (s', out) := Apply(s, SetOp(key, times, now), ttl, n);
            && out == None
            && (i < |left| && left[i].key == key ==> s' == [Entry(key, times, now)] + (left[..i] + left[i + 1..]))
            && ((forall j :: 0 <= j < |left| ==> left[j].key != key) ==>
                  s' == [Entry(key, times, now)] + (if |left| < n then left else left[..n - 1]))
  {
    var left := Apply(s, CleanupOp(now), ttl, n).0;
    KeepDistinct((e: Entry) => !Expired(e, now, ttl), s);
    if i < |left| && left[i].key == key {
      AtPosition(left, i);
    }
    if forall j :: 0 <= j < |left| ==> left[j].key != key {
      NoKey(left, key);
    }
  }

  // ----- runs ----------------------------------------------------------------------------------------

  lemma {:induction false} RunSplit(s: seq<Entry>, a: seq<Op>, b: seq<Op>, ttl: int, n: int)
    ensures Run(s, a + b, ttl, n) == Run(Run(s, a, ttl, n), b, ttl, n)
    decreases |a|
  {
    if a == [] {
      assert a + b == b;
    } else {
      assert (a + b)[1..] == a[1..] + b;
      RunSplit(Apply(s, a[0], ttl, n).0, a[1..], b, ttl, n);
    }
  }

  /** What an operation of a run returns depends on the operations before it. */
  lemma {:induction false} ResultAt(s: seq<Entry>, ops: seq<Op>, ttl: int, n: int, i: nat)
    requires i < |ops|
    ensures Results(s, ops, ttl, n)[i] == Apply(Run(s, ops[..i], ttl, n), ops[i], ttl, n).1
    decreases |ops|
  {
    if i > 0 {
      assert ops[1..][..i - 1] == ops[..i][1..];
      ResultAt(Apply(s, ops[0], ttl, n).0, ops[1..], ttl, n, i - 1);
    }
  }

  lemma {:induction false} RunIsCache(s: seq<Entry>, ops: seq<Op>, ttl: int, n: nat)
    requires DistinctKeys(s) && |s| <= n
    ensures DistinctKeys(Run(s, ops, ttl, n)) && |Run(s, ops, ttl, n)| <= n
    decreases |ops|
  {
    if ops != [] {
      StaysWithinCapacity(s, ops[0], ttl, n);
      RunIsCache(Apply(s, ops[0], ttl, n).0, ops[1..], ttl, n);
    }
  }

  /** Once e is in front, a get of its key after operations that spare it is a hit. */
  lemma FrontStays(ops: seq<Op>, e: Entry, i: nat, j: nat, ttl: int, n: nat)
    requires i < j < |ops| && ops[j].GetOp? && ops[j].key == e.key
    requires Run([], ops[..i + 1], ttl, n) != [] && Run([], ops[..i + 1], ttl, n)[0] == e
    requires Spares(ops[i + 1..j], e, ttl) && ops[j].now - e.createdAt <= ttl
    requires |OtherKeys(ops[i + 1..j], e.key)| < n
    ensures Results([], ops, ttl, n)[j] == Some(e.times)
  {
    var s := Run([], ops[..i + 1], ttl, n);
    RunIsCache([], ops[..i + 1], ttl, n);
    TouchedEntryIsRetained(s, ops[i + 1..j], ops[j].now, ttl, n);
    RunSplit([], ops[..i + 1], ops[i + 1..j], ttl, n);
    assert ops[..i + 1] + ops[i + 1..j] == ops[..j];
    ResultAt([], ops, ttl, n, j);
  }

  /** A key that was hit at i is hit again at j, with the same times, if the entry has not expired by
      then, nothing between cleared it or set it anew, and fewer other keys than the capacity were
      mentioned between. When it was stored, the operations before i say. */
  lemma HitKeepsEntry(ops: seq<Op>, i: nat, j: nat, ttl: int, n: nat)
    requires i < j < |ops| && ops[i].GetOp? && Results([], ops, ttl, n)[i].Some?
    requires ops[j].GetOp? && ops[j].key == ops[i].key
    requires LastSet(ops[..i], ops[i].key).Some?
    requires var e := LastSet(ops[..i], ops[i].key).value;
             Spares(ops[i + 1..j], e, ttl) && ops[j].now - e.createdAt <= ttl
    requires |OtherKeys(ops[i + 1..j], ops[i].key)| < n
    ensures Results([], ops, ttl, n)[j] == Results([], ops, ttl, n)[i]
  {
    var (before, key) := (Run([], ops[..i], ttl, n), ops[i].key);
    RunIsCache([], ops[..i], ttl, n);
    ResultAt([], ops, ttl, n, i);
    if !HasKey(before, key) {
      GetMeaning(before, key, ops[i].now, ttl, n, 0);
    }
    var p := KeyAt(before, key);
    GetMeaning(before, key, ops[i].now, ttl, n, p);
    EntriesAreLatest(ops[..i], ttl, n);
    assert before[p] == LastSet(ops[..i], key).value;
    RunSnoc([], ops[..i], ops[i], ttl, n);
    assert ops[..i] + [ops[i]] == ops[..i + 1];
    FrontStays(ops, before[p], i, j, ttl, n);
  }

  /** The same for a key that was set at i. */
  lemma SetKeepsEntry(ops: seq<Op>, i: nat, j: nat, ttl: int, n: nat)
    requires i < j < |ops| && ops[i].SetOp? && ops[j].GetOp? && ops[j].key == ops[i].key
    requires var e := Entry(ops[i].key, ops[i].times, ops[i].now);
             Spares(ops[i + 1..j], e, ttl) && ops[j].now - e.createdAt <= ttl
    requires |OtherKeys(ops[i + 1..j], ops[i].key)| < n
    ensures Results([], ops, ttl, n)[j] == Some(ops[i].times)
  {
    var before := Run([], ops[..i], ttl, n);
    RunIsCache([], ops[..i], ttl, n);
    var left := Apply(before, CleanupOp(ops[i].now), ttl, n).0;
    if HasKey(left, ops[i].key) {
      var p :| 0 <= p < |left| && left[p].key == ops[i].key;
      SetMeaning(before, ops[i].key, ops[i].times, ops[i].now, ttl, n, p);
    } else {
      SetMeaning(before, ops[i].key, ops[i].times, ops[i].now, ttl, n, 0);
    }
    RunSnoc([], ops[..i], ops[i], ttl, n);
    assert ops[..i] + [ops[i]] == ops[..i + 1];
    FrontStays(ops, Entry(ops[i].key, ops[i].times, ops[i].now), i, j, ttl, n);
  }

  /** In a cache of two, a get saves an entry that the next set would have pushed out. */
  lemma HitSaves(a: string, b: string, c: string, times: seq<int>)
    requires a != b && a != c && b != c
    ensures var ops := [SetOp(a, times, 0), SetOp(b, [], 1), GetOp(a, 2), SetOp(c, [], 3), GetOp(a, 4)];
            Results([], ops, 100, 2)[2] == Some(times) && Results([], ops, 100, 2)[4] == Some(times)
  {
    var ops := [SetOp(a, times, 0), SetOp(b, [], 1), GetOp(a, 2), SetOp(c, [], 3), GetOp(a, 4)];
    assert ops[1..2] == [SetOp(b, [], 1)] && ops[3..4] == [SetOp(c, [], 3)];
    assert OtherKeys(ops[1..2], a) == {b} by { assert ops[1..2][0].key == b; }
    SetKeepsEntry(ops, 0, 2, 100, 2);
    assert ops[..2] == [SetOp(a, times, 0), SetOp(b, [], 1)];
    assert ops[..2][..1] == [SetOp(a, times, 0)];
    assert OtherKeys(ops[3..4], a) == {c} by { assert ops[3..4][0].key == c; }
    HitKeepsEntry(ops, 2, 4, 100, 2);
  }
}
