/** The execution cache as a value: its entries in order of recency, most recent first. */
module RecencyCache {
  import opened Wrappers
  import opened Sequences

  /** Execution times are cached with the instant at which they were stored. */
  datatype Entry = Entry(key: string, times: seq<int>, createdAt: int)

  function Keep(p: Entry -> bool, s: seq<Entry>): (r: seq<Entry>)
    ensures forall e :: e in r <==> e in s && p(e)
    ensures |r| <= |s|
  {
    if s == [] then [] else if p(s[0]) then [s[0]] + Keep(p, s[1..]) else Keep(p, s[1..])
  }

  function Without(s: seq<Entry>, key: string): seq<Entry> {
    Keep((e: Entry) => e.key != key, s)
  }

  predicate Expired(e: Entry, now: int, ttl: int) {
    now - e.createdAt > ttl
  }

  function Unexpired(s: seq<Entry>, now: int, ttl: int): seq<Entry> {
    Keep((e: Entry) => !Expired(e, now, ttl), s)
  }

  function Find(s: seq<Entry>, key: string): (r: Option<Entry>)
    ensures r.Some? ==> r.value in s && r.value.key == key
    ensures r.None? ==> forall e :: e in s ==> e.key != key
  {
    if s == [] then None else if s[0].key == key then Some(s[0]) else Find(s[1..], key)
  }

  predicate DistinctKeys(s: seq<Entry>) {
    forall i, j :: 0 <= i < j < |s| ==> s[i].key != s[j].key
  }

  // ----- operations --------------------------------------------------------------------

  function Get(s: seq<Entry>, key: string, now: int, ttl: int): (seq<Entry>, Option<seq<int>>) {
    var found := Find(s, key);
    if found.None? then (s, None)
    else if Expired(found.value, now, ttl) then (Without(s, key), None)
    else ([found.value] + Without(s, key), Some(found.value.times))
  }

  /** Store an entry in front: a cached key is moved there, a new one may push out the oldest. */
  function Put(s: seq<Entry>, e: Entry, maxEntries: int): seq<Entry> {
    if Find(s, e.key).Some? then [e] + Without(s, e.key) else Take([e] + s, maxEntries)
  }

  function Set(s: seq<Entry>, key: string, times: seq<int>, now: int, ttl: int, maxEntries: int): seq<Entry> {
    Put(Unexpired(s, now, ttl), Entry(key, times, now), maxEntries)
  }

  datatype Op =
    | GetOp(key: string, now: int)
    | SetOp(key: string, times: seq<int>, now: int)
    | CleanupOp(now: int)
    | ClearOp

  function Apply(s: seq<Entry>, op: Op, ttl: int, maxEntries: int): (seq<Entry>, Option<seq<int>>) {
    match op
    case GetOp(key, now) => Get(s, key, now, ttl)
    case SetOp(key, times, now) => (Set(s, key, times, now, ttl, maxEntries), None)
    case CleanupOp(now) => (Unexpired(s, now, ttl), None)
    case ClearOp => ([], None)
  }

  function Run(s: seq<Entry>, ops: seq<Op>, ttl: int, maxEntries: int): seq<Entry>
    decreases |ops|
  {
    if ops == [] then s else Run(Apply(s, ops[0], ttl, maxEntries).0, ops[1..], ttl, maxEntries)
  }

  /** What each operation returns: the cached times for a hit, and None for anything else. */
  function Results(s: seq<Entry>, ops: seq<Op>, ttl: int, maxEntries: int): (r: seq<Option<seq<int>>>)
    ensures |r| == |ops|
    decreases |ops|
  {
    if ops == [] then []
    else
      var (s', out) := Apply(s, ops[0], ttl, maxEntries);
      [out] + Results(s', ops[1..], ttl, maxEntries)
  }

  // ----- the sequence stays a cache ----------------------------------------------------

  lemma {:induction false} KeepDistinct(p: Entry -> bool, s: seq<Entry>)
    requires DistinctKeys(s)
    ensures DistinctKeys(Keep(p, s))
  {
    if s != [] {
      KeepDistinct(p, s[1..]);
      forall e | e in Keep(p, s[1..])
        ensures e.key != s[0].key
      {
        var i :| 0 <= i < |s[1..]| && s[1..][i] == e;
        assert s[i + 1] == e;
      }
    }
  }

  lemma ConsDistinct(e: Entry, s: seq<Entry>)
    requires DistinctKeys(s) && forall x :: x in s ==> x.key != e.key
    ensures DistinctKeys([e] + s)
  {
  }

  lemma {:induction false} KeepSize(p: Entry -> bool, s: seq<Entry>)
    ensures (forall e :: e in s ==> p(e)) ==> Keep(p, s) == s
    ensures (exists e :: e in s && !p(e)) ==> |Keep(p, s)| < |s|
  {
    if s != [] {
      KeepSize(p, s[1..]);
      assert s == [s[0]] + s[1..];
    }
  }

  /** Distinct keys and at most maxEntries of them, after every operation. */
  lemma StaysWithinCapacity(s: seq<Entry>, op: Op, ttl: int, maxEntries: int)
    requires DistinctKeys(s) && |s| <= maxEntries
    ensures DistinctKeys(Apply(s, op, ttl, maxEntries).0)
    ensures |Apply(s, op, ttl, maxEntries).0| <= maxEntries
  {
    match op
    case GetOp(key, now) =>
      KeepDistinct((e: Entry) => e.key != key, s);
      KeepSize((e: Entry) => e.key != key, s);
      var found := Find(s, key);
      if found.Some? {
        ConsDistinct(found.value, Without(s, key));
      }
    case SetOp(key, times, now) =>
      var fresh' := Unexpired(s, now, ttl);
      KeepDistinct((e: Entry) => !Expired(e, now, ttl), s);
      KeepDistinct((e: Entry) => e.key != key, fresh');
      KeepSize((e: Entry) => e.key != key, fresh');
      if Find(fresh', key).Some? {
        ConsDistinct(Entry(key, times, now), Without(fresh', key));
      } else {
        ConsDistinct(Entry(key, times, now), fresh');
      }
    case CleanupOp(now) =>
      KeepDistinct((e: Entry) => !Expired(e, now, ttl), s);
    case ClearOp =>
  }

  // ----- the operations by position ----------------------------------------------------

  /** With distinct keys a key is found, and removed, at its one position. */
  lemma {:induction false} AtPosition(s: seq<Entry>, i: nat)
    requires DistinctKeys(s) && i < |s|
    ensures Find(s, s[i].key) == Some(s[i])
    ensures Without(s, s[i].key) == s[..i] + s[i + 1..]
  {
    if i == 0 {
      WithoutFirst(s);
    } else {
      assert s[1..][i - 1] == s[i] && s[0].key != s[i].key;
      AtPosition(s[1..], i - 1);
      assert s[..i] + s[i + 1..] == [s[0]] + (s[1..][..i - 1] + s[1..][i..]);
    }
  }

  lemma WithoutFirst(s: seq<Entry>)
    requires DistinctKeys(s) && s != []
    ensures Without(s, s[0].key) == s[1..]
  {
    forall e | e in s[1..]
      ensures e.key != s[0].key
    {
      var i :| 0 <= i < |s[1..]| && s[1..][i] == e;
      assert s[i + 1] == e;
    }
    KeepSize((e: Entry) => e.key != s[0].key, s[1..]);
  }

  lemma TakeDropsLast(s: seq<Entry>, n: int)
    requires s != [] && n < |s|
    ensures Take(s[..|s| - 1], n) == Take(s, n)
  {
  }

  function KeySet(s: seq<Entry>): set<string> {
    set i | 0 <= i < |s| :: s[i].key
  }

  lemma {:induction false} KeySetSize(s: seq<Entry>)
    requires DistinctKeys(s)
    ensures |KeySet(s)| == |s|
  {
    if s != [] {
      KeySetSize(s[1..]);
      assert forall i :: 0 <= i < |s[1..]| ==> s[1..][i] == s[i + 1];
      assert KeySet(s) == {s[0].key} + KeySet(s[1..]);
    }
  }

  /** What a cleanup has left when it has yet to look at the keys in todo. */
  function Cleaned(s: seq<Entry>, todo: set<string>, now: int, ttl: int): seq<Entry> {
    Keep((e: Entry) => e.key in todo || !Expired(e, now, ttl), s)
  }

  lemma {:induction false} KeepSame(p: Entry -> bool, q: Entry -> bool, s: seq<Entry>)
    requires forall e :: e in s ==> p(e) == q(e)
    ensures Keep(p, s) == Keep(q, s)
  {
    if s != [] {
      KeepSame(p, q, s[1..]);
    }
  }

  lemma {:induction false} KeepTwice(p: Entry -> bool, q: Entry -> bool, s: seq<Entry>)
    ensures Keep(p, Keep(q, s)) == Keep((e: Entry) => p(e) && q(e), s)
  {
    if s != [] {
      KeepTwice(p, q, s[1..]);
    }
  }

  lemma CleanedBounds(s: seq<Entry>, now: int, ttl: int)
    ensures Cleaned(s, KeySet(s), now, ttl) == s
    ensures Cleaned(s, {}, now, ttl) == Unexpired(s, now, ttl)
  {
    KeepSize((e: Entry) => e.key in KeySet(s) || !Expired(e, now, ttl), s);
    var none: set<string> := {};
    KeepSame((e: Entry) => e.key in none || !Expired(e, now, ttl), (e: Entry) => !Expired(e, now, ttl), s);
  }

  /** Looking at one more key removes its entry if it has expired. */
  lemma CleanOne(s: seq<Entry>, todo: set<string>, e: Entry, now: int, ttl: int)
    requires DistinctKeys(s) && e in s && e.key in todo
    ensures e in Cleaned(s, todo, now, ttl)
    ensures Expired(e, now, ttl) ==>
              Without(Cleaned(s, todo, now, ttl), e.key) == Cleaned(s, todo - {e.key}, now, ttl)
    ensures !Expired(e, now, ttl) ==> Cleaned(s, todo, now, ttl) == Cleaned(s, todo - {e.key}, now, ttl)
  {
    var p := (x: Entry) => x.key in todo || !Expired(x, now, ttl);
    var q := (x: Entry) => x.key in todo - {e.key} || !Expired(x, now, ttl);
    var other := (x: Entry) => x.key != e.key;
    if Expired(e, now, ttl) {
      KeepTwice(other, p, s);
      KeepSame((x: Entry) => other(x) && p(x), q, s);
    } else {
      KeepSame(p, q, s);
    }
  }
}
