/** What users of the cache can rely on, over whole runs of operations with any clock. */
module CacheGuarantees {
  import opened Wrappers
  import opened RecencyCache
  import opened Sequences

  // ----- a hit is the latest value -----------------------------------------------------

  /** What the operations say is stored under key: the last times set and not cleared since. */
  function LastSet(ops: seq<Op>, key: string): Option<Entry> {
    if ops == [] then None
    else
      var (before, op) := (ops[..|ops| - 1], ops[|ops| - 1]);
      match op
      case SetOp(k, times, now) => if k == key then Some(Entry(key, times, now)) else LastSet(before, key)
      case ClearOp => None
      case _ => LastSet(before, key)
  }

  lemma {:induction false} RunSnoc(s: seq<Entry>, ops: seq<Op>, op: Op, ttl: int, n: int)
    ensures Run(s, ops + [op], ttl, n) == Apply(Run(s, ops, ttl, n), op, ttl, n).0
    decreases |ops|
  {
    if ops == [] {
      assert ops + [op] == [op];
      assert [op][1..] == [];
    } else {
      assert (ops + [op])[1..] == ops[1..] + [op];
      RunSnoc(Apply(s, ops[0], ttl, n).0, ops[1..], op, ttl, n);
    }
  }

  lemma {:induction false} EntriesAreLatest(ops: seq<Op>, ttl: int, n: int)
    ensures forall e :: e in Run([], ops, ttl, n) ==> LastSet(ops, e.key) == Some(e)
    decreases |ops|
  {
    if ops != [] {
      var (before, op) := (ops[..|ops| - 1], ops[|ops| - 1]);
      assert ops == before + [op];
      RunSnoc([], before, op, ttl, n);
      EntriesAreLatest(before, ttl, n);
    }
  }

  /** A hit returns the times of the latest set of that key, which is no older than the ttl. */
  lemma HitIsLatestAndFresh(ops: seq<Op>, key: string, now: int, ttl: int, n: int)
    requires Get(Run([], ops, ttl, n), key, now, ttl).1.Some?
    ensures var latest := LastSet(ops, key);
            && latest.Some?
            && Get(Run([], ops, ttl, n), key, now, ttl).1 == Some(latest.value.times)
            && now - latest.value.createdAt <= ttl
  {
    EntriesAreLatest(ops, ttl, n);
  }

  // ----- retention ---------------------------------------------------------------------

  /** The keys, other than key, that the operations mention. */
  function OtherKeys(ops: seq<Op>, key: string): set<string> {
    set i | 0 <= i < |ops| && (ops[i].GetOp? || ops[i].SetOp?) && ops[i].key != key :: ops[i].key
  }

  /** The operations neither clear the cache, nor set key again, nor come after e has expired. */
  predicate Spares(ops: seq<Op>, e: Entry, ttl: int) {
    forall i :: 0 <= i < |ops| ==>
      match ops[i]
      case GetOp(_, now) => now - e.createdAt <= ttl
      case SetOp(k, _, now) => k != e.key && now - e.createdAt <= ttl
      case CleanupOp(now) => now - e.createdAt <= ttl
      case ClearOp => false
  }

  /** e is in the cache and everything more recent has a key in others. */
  predicate Behind(s: seq<Entry>, e: Entry, others: set<string>) {
    exists i :: 0 <= i < |s| && s[i] == e && forall j :: 0 <= j < i ==> s[j].key in others
  }

  lemma {:induction false} KeepBehind(p: Entry -> bool, s: seq<Entry>, e: Entry, others: set<string>)
    requires Behind(s, e, others) && p(e)
    ensures Behind(Keep(p, s), e, others)
  {
    if s[0] == e {
      assert Keep(p, s)[0] == e;
    } else {
      var i :| 0 <= i < |s| && s[i] == e && forall j :: 0 <= j < i ==> s[j].key in others;
      assert s[1..][i - 1] == e;
      KeepBehind(p, s[1..], e, others);
      if p(s[0]) {
        ConsBehind(s[0], Keep(p, s[1..]), e, others);
      }
    }
  }

  lemma ConsBehind(x: Entry, s: seq<Entry>, e: Entry, others: set<string>)
    requires Behind(s, e, others) && x.key in others
    ensures Behind([x] + s, e, others)
  {
    var i :| 0 <= i < |s| && s[i] == e && forall j :: 0 <= j < i ==> s[j].key in others;
    var t := [x] + s;
    assert t[i + 1] == e;
    forall j | 0 <= j < i + 1
      ensures t[j].key in others
    {
      assert j > 0 ==> t[j] == s[j - 1];
    }
  }

  lemma BehindWider(s: seq<Entry>, e: Entry, others: set<string>, more: set<string>)
    requires Behind(s, e, others) && others <= more
    ensures Behind(s, e, more)
  {
    var i :| 0 <= i < |s| && s[i] == e && forall j :: 0 <= j < i ==> s[j].key in others;
    assert s[i] == e && forall j :: 0 <= j < i ==> s[j].key in more;
  }

  /** With distinct keys, an entry has at most as many entries before it as there are others. */
  lemma BehindPosition(s: seq<Entry>, e: Entry, others: set<string>) returns (i: nat)
    requires Behind(s, e, others) && DistinctKeys(s)
    ensures i < |s| && s[i] == e && i <= |others| && forall j :: 0 <= j < i ==> s[j].key in others
  {
    i :| 0 <= i < |s| && s[i] == e && forall j :: 0 <= j < i ==> s[j].key in others;
    PrefixKeys(s[..i], others);
  }

  lemma {:induction false} PrefixKeys(s: seq<Entry>, others: set<string>)
    requires DistinctKeys(s) && forall j :: 0 <= j < |s| ==> s[j].key in others
    ensures |s| <= |others|
    decreases |s|
  {
    if s != [] {
      var init, k := s[..|s| - 1], s[|s| - 1].key;
      forall j | 0 <= j < |init|
        ensures init[j].key in others - {k}
      {
        assert init[j] == s[j];
      }
      PrefixKeys(init, others - {k});
    }
  }

  lemma TakeBehind(s: seq<Entry>, e: Entry, others: set<string>, n: nat)
    requires Behind(s, e, others) && DistinctKeys(s) && |others| < n
    ensures Behind(Take(s, n), e, others)
  {
    var i := BehindPosition(s, e, others);
    assert Take(s, n)[i] == e;
    assert forall j :: 0 <= j < i ==> Take(s, n)[j] == s[j];
  }

  lemma StepBehind(s: seq<Entry>, op: Op, e: Entry, others: set<string>, ttl: int, n: nat)
    requires DistinctKeys(s) && Behind(s, e, others) && Spares([op], e, ttl)
    requires OtherKeys([op], e.key) <= others && |others| < n
    ensures Behind(Apply(s, op, ttl, n).0, e, others)
  {
    assert [op][0] == op;
    match op
    case GetOp(key, now) =>
      var found := Find(s, key);
      if found.Some? {
        if key == e.key {
          assert found.value == e by { SameKeySameEntry(s, e, found.value); }
          assert ([e] + Without(s, key))[0] == e;
        } else {
          assert key in OtherKeys([op], e.key);
          KeepBehind((x: Entry) => x.key != key, s, e, others);
          ConsBehind(found.value, Without(s, key), e, others);
        }
      }
    case SetOp(key, times, now) =>
      assert key in OtherKeys([op], e.key);
      var fresh' := Unexpired(s, now, ttl);
      KeepBehind((x: Entry) => !Expired(x, now, ttl), s, e, others);
      KeepDistinct((x: Entry) => !Expired(x, now, ttl), s);
      KeepBehind((x: Entry) => x.key != key, fresh', e, others);
      ConsBehind(Entry(key, times, now), Without(fresh', key), e, others);
      ConsBehind(Entry(key, times, now), fresh', e, others);
      if Find(fresh', key).None? {
        ConsDistinct(Entry(key, times, now), fresh');
        TakeBehind([Entry(key, times, now)] + fresh', e, others, n);
      }
    case CleanupOp(now) =>
      KeepBehind((x: Entry) => !Expired(x, now, ttl), s, e, others);
  }

  lemma SameKeySameEntry(s: seq<Entry>, a: Entry, b: Entry)
    requires DistinctKeys(s) && a in s && b in s && a.key == b.key
    ensures a == b
  {
  }

  lemma {:induction false} RunBehind(s: seq<Entry>, ops: seq<Op>, e: Entry, others: set<string>, ttl: int, n: nat)
    requires DistinctKeys(s) && |s| <= n && Behind(s, e, others) && Spares(ops, e, ttl)
    requires OtherKeys(ops, e.key) <= others && |others| < n
    ensures Behind(Run(s, ops, ttl, n), e, others) && DistinctKeys(Run(s, ops, ttl, n))
    decreases |ops|
  {
    if ops != [] {
      var op, rest := ops[0], ops[1..];
      assert forall i :: 0 <= i < |rest| ==> rest[i] == ops[i + 1];
      assert OtherKeys([op], e.key) <= OtherKeys(ops, e.key) by {
        assert forall i :: 0 <= i < |[op]| ==> [op][i] == ops[0];
      }
      assert OtherKeys(rest, e.key) <= OtherKeys(ops, e.key);
      StepBehind(s, op, e, others, ttl, n);
      StaysWithinCapacity(s, op, ttl, n);
      RunBehind(Apply(s, op, ttl, n).0, rest, e, others, ttl, n);
    }
  }

  /** An entry that has just been touched is still a hit, with the same times, as long as it has
      not expired and fewer than maxEntries other keys have been touched since. */
  lemma TouchedEntryIsRetained(s: seq<Entry>, ops: seq<Op>, now: int, ttl: int, n: nat)
    requires DistinctKeys(s) && 0 < |s| <= n
    requires Spares(ops, s[0], ttl) && now - s[0].createdAt <= ttl
    requires |OtherKeys(ops, s[0].key)| < n
    ensures Get(Run(s, ops, ttl, n), s[0].key, now, ttl).1 == Some(s[0].times)
  {
    var e := s[0];
    assert Behind(s, e, {});
    BehindWider(s, e, {}, OtherKeys(ops, e.key));
    RunBehind(s, ops, e, OtherKeys(ops, e.key), ttl, n);
    var end := Run(s, ops, ttl, n);
    var found := Find(end, e.key);
    SameKeySameEntry(end, e, found.value);
  }

  /** The first k entries do not have this key. */
  predicate NotAmongFirst(s: seq<Entry>, key: string, k: nat) {
    forall i :: 0 <= i < |s| && i < k ==> s[i].key != key
  }

  /** Sets of pairwise distinct keys that are not in the cache, none of them key, all at now. */
  predicate NewKeys(s: seq<Entry>, sets: seq<Op>, key: string, now: int) {
    && (forall i :: 0 <= i < |sets| ==> sets[i].SetOp? && sets[i].key != key && sets[i].now == now)
    && (forall i, j :: 0 <= i < j < |sets| ==> sets[i].key != sets[j].key)
    && forall e, i :: e in s && 0 <= i < |sets| ==> e.key != sets[i].key
  }

  lemma SetPushesBack(s: seq<Entry>, op: Op, key: string, k: nat, ttl: int, n: nat)
    requires op.SetOp? && op.key != key && 0 <= ttl && DistinctKeys(s) && |s| <= n && 0 < n
    requires forall e :: e in s ==> !Expired(e, op.now, ttl) && e.key != op.key
    requires NotAmongFirst(s, key, k)
    ensures var s' := Apply(s, op, ttl, n).0;
            && NotAmongFirst(s', key, k + 1)
            && forall e :: e in s' ==> !Expired(e, op.now, ttl) && (e in s || e.key == op.key)
  {
    KeepSize((x: Entry) => !Expired(x, op.now, ttl), s);
    var t := [Entry(op.key, op.times, op.now)] + s;
    assert Apply(s, op, ttl, n).0 == Take(t, n);
    assert NotAmongFirst(t, key, k + 1);
  }

  /** The bound is sharp: once maxEntries new keys have been set, the entry is gone. */
  lemma {:induction false} EvictedByCapacity(s: seq<Entry>, sets: seq<Op>, key: string, k: nat, now: int, ttl: int, n: nat)
    requires 0 <= ttl && 0 < n <= k + |sets| && DistinctKeys(s) && |s| <= n
    requires forall e :: e in s ==> !Expired(e, now, ttl)
    requires NewKeys(s, sets, key, now) && NotAmongFirst(s, key, k)
    ensures Find(Run(s, sets, ttl, n), key) == None
    decreases |sets|
  {
    if sets != [] {
      var op, rest := sets[0], sets[1..];
      var s' := Apply(s, op, ttl, n).0;
      SetPushesBack(s, op, key, k, ttl, n);
      StaysWithinCapacity(s, op, ttl, n);
      assert forall i :: 0 <= i < |rest| ==> rest[i] == sets[i + 1];
      assert NewKeys(s', rest, key, now);
      EvictedByCapacity(s', rest, key, k + 1, now, ttl, n);
    }
  }
}
