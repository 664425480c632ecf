/** The execution cache: a map from keys to entries and a list of the keys in order of recency. */
module ExecutionCache {
  import opened Wrappers
  import opened RecencyCache
  import opened RecencyList
  import opened Sequences

  /** An entry of the map. It belongs to its map alone, so overwriting it is reassigning the map. */
  datatype CacheEntry = CacheEntry(times: seq<int>, createdAt: int, element: Element)

  /** Map and list are in bijection, and both agree with the sequence of entries. */
  ghost predicate Agree(elements: seq<Element>, cache: map<string, CacheEntry>, contents: seq<Entry>) {
    && |contents| == |elements|
    && (forall i :: 0 <= i < |contents| ==> Linked(elements, cache, contents, i))
    && (forall k :: k in cache ==> Listed(contents, k))
  }

  /** Position i of the list, its entry in the map, and the entry of the sequence. */
  ghost predicate Linked(elements: seq<Element>, cache: map<string, CacheEntry>, contents: seq<Entry>, i: int)
    requires 0 <= i < |contents| == |elements|
  {
    var e := contents[i];
    elements[i].value == e.key && e.key in cache && cache[e.key] == CacheEntry(e.times, e.createdAt, elements[i])
  }

  ghost predicate Listed(contents: seq<Entry>, key: string) {
    exists i :: 0 <= i < |contents| && contents[i].key == key
  }

  lemma ListedAt(contents: seq<Entry>, key: string, i: int)
    requires 0 <= i < |contents| && contents[i].key == key
    ensures Listed(contents, key)
  {
  }

  /** Agreement gives distinct keys: a key determines its entry, and that its element. */
  lemma AgreeDistinct(elements: seq<Element>, cache: map<string, CacheEntry>, contents: seq<Entry>)
    requires Agree(elements, cache, contents)
    requires forall i, j :: 0 <= i < j < |elements| ==> elements[i] != elements[j]
    ensures DistinctKeys(contents)
    ensures cache.Keys == KeySet(contents) && |cache| == |contents|
  {
    forall i, j | 0 <= i < j < |contents|
      ensures contents[i].key != contents[j].key
    {
      assert Linked(elements, cache, contents, i) && Linked(elements, cache, contents, j);
    }
    forall k | k in KeySet(contents)
      ensures k in cache
    {
      var i :| 0 <= i < |contents| && contents[i].key == k;
      assert Linked(elements, cache, contents, i);
    }
    forall k | k in cache
      ensures k in KeySet(contents)
    {
      assert Listed(contents, k);
    }
    KeySetSize(contents);
    assert |cache| == |cache.Keys|;
  }

  lemma AgreeAfterRemoval(elements: seq<Element>, cache: map<string, CacheEntry>, contents: seq<Entry>, key: string, i: nat)
    requires Agree(elements, cache, contents) && DistinctKeys(contents) && i < |contents| && contents[i].key == key
    ensures Agree(elements[..i] + elements[i + 1..], cache - {key}, contents[..i] + contents[i + 1..])
  {
    var (elements', cache', contents') := (elements[..i] + elements[i + 1..], cache - {key}, contents[..i] + contents[i + 1..]);
    forall j | 0 <= j < |contents'|
      ensures Linked(elements', cache', contents', j)
    {
      assert Linked(elements, cache, contents, if j < i then j else j + 1);
    }
    forall k | k in cache'
      ensures Listed(contents', k)
    {
      assert Listed(contents, k);
      var j :| 0 <= j < |contents| && contents[j].key == k;
      ListedAt(contents', k, if j < i then j else j - 1);
    }
  }

  lemma AgreeAfterMove(elements: seq<Element>, cache: map<string, CacheEntry>, contents: seq<Entry>, i: nat)
    requires Agree(elements, cache, contents) && i < |contents|
    ensures Agree([elements[i]] + elements[..i] + elements[i + 1..], cache, [contents[i]] + (contents[..i] + contents[i + 1..]))
  {
    var (elements', contents') := ([elements[i]] + elements[..i] + elements[i + 1..], [contents[i]] + (contents[..i] + contents[i + 1..]));
    forall j | 0 <= j < |contents'|
      ensures Linked(elements', cache, contents', j)
    {
      assert Linked(elements, cache, contents, if j == 0 then i else if j <= i then j - 1 else j);
    }
    forall k | k in cache
      ensures Listed(contents', k)
    {
      assert Listed(contents, k);
      var j :| 0 <= j < |contents| && contents[j].key == k;
      ListedAt(contents', k, if j < i then j + 1 else if j == i then 0 else j);
    }
  }

  lemma AgreeAfterInsert(elements: seq<Element>, cache: map<string, CacheEntry>, contents: seq<Entry>, key: string, entry: CacheEntry)
    requires Agree(elements, cache, contents) && key !in cache && entry.element.value == key
    ensures Agree([entry.element] + elements, cache[key := entry], [Entry(key, entry.times, entry.createdAt)] + contents)
  {
    var (elements', cache', contents') := ([entry.element] + elements, cache[key := entry], [Entry(key, entry.times, entry.createdAt)] + contents);
    forall j | 0 <= j < |contents'|
      ensures Linked(elements', cache', contents', j)
    {
      if j > 0 {
        assert Linked(elements, cache, contents, j - 1);
      }
    }
    forall k | k in cache'
      ensures Listed(contents', k)
    {
      if k == key {
        ListedAt(contents', k, 0);
      } else {
        assert Listed(contents, k);
        var j :| 0 <= j < |contents| && contents[j].key == k;
        ListedAt(contents', k, j + 1);
      }
    }
  }

  lemma AgreeAfterOverwrite(elements: seq<Element>, cache: map<string, CacheEntry>, contents: seq<Entry>, entry: CacheEntry)
    requires Agree(elements, cache, contents) && DistinctKeys(contents) && contents != [] && entry.element == elements[0]
    ensures var key := contents[0].key;
            Agree(elements, cache[key := entry], [Entry(key, entry.times, entry.createdAt)] + contents[1..])
  {
    var key := contents[0].key;
    var contents' := [Entry(key, entry.times, entry.createdAt)] + contents[1..];
    var cache' := cache[key := entry];
    forall j | 0 <= j < |contents'|
      ensures Linked(elements, cache', contents', j)
    {
      assert Linked(elements, cache, contents, 0) && Linked(elements, cache, contents, j);
    }
    forall k | k in cache[key := entry]
      ensures Listed(contents', k)
    {
      if k == key {
        ListedAt(contents', k, 0);
      } else {
        assert Listed(contents, k);
        var j :| 0 <= j < |contents| && contents[j].key == k;
        ListedAt(contents', k, j);
      }
    }
  }

  class Cache {
    const ttl: int
    const maxEntries: int
    var cache: map<string, CacheEntry>
    const recency: LinkedList
    /** The cache as a sequence of entries, most recent first. */
    ghost var contents: seq<Entry>

    constructor (ttl: int, maxEntries: int)
      ensures Valid() && contents == []
      ensures fresh(recency) && fresh(recency.repr)
      ensures this.ttl == ttl && this.maxEntries == maxEntries
    {
      this.ttl, this.maxEntries := ttl, maxEntries;
      cache := map[];
      recency := new LinkedList();
      contents := [];
    }

    ghost predicate Valid()
      reads this, recency, recency.repr
    {
      recency.Valid() && Agree(recency.elements, cache, contents)
    }

    lemma KeysAreDistinct()
      requires Valid()
      ensures DistinctKeys(contents)
      ensures cache.Keys == KeySet(contents) && |cache| == |contents|
    {
      forall i, j | 0 <= i < j < |recency.elements|
        ensures recency.elements[i] != recency.elements[j]
      {
        recency.Distinct(i, j);
      }
      AgreeDistinct(recency.elements, cache, contents);
    }

    /** The position of a cached key. */
    lemma PositionOf(key: string) returns (i: nat)
      requires Valid() && key in cache
      ensures i < |contents| == |recency.elements| && recency.elements[i] == cache[key].element
      ensures contents[i] == Entry(key, cache[key].times, cache[key].createdAt)
    {
      assert Listed(contents, key);
      i :| 0 <= i < |contents| && contents[i].key == key;
      assert Linked(recency.elements, cache, contents, i);
    }

    /** What the position of a key means for the sequence of entries. */
    lemma AtKey(i: nat)
      requires Valid() && i < |contents|
      ensures DistinctKeys(contents)
      ensures Find(contents, contents[i].key) == Some(contents[i])
      ensures Without(contents, contents[i].key) == contents[..i] + contents[i + 1..]
    {
      KeysAreDistinct();
      AtPosition(contents, i);
    }

    lemma NotCached(key: string)
      requires Valid() && key !in cache
      ensures Find(contents, key) == None
    {
      KeysAreDistinct();
      assert key !in KeySet(contents);
    }

    /** Remove the entry of a cached key, which is at ghost position i. */
    method RemoveEntry(key: string, ghost i: nat)
      requires Valid() && key in cache && i < |contents| == |recency.elements|
      requires recency.elements[i] == cache[key].element && contents[i].key == key
      modifies this, recency, recency.repr
      ensures Valid() && contents == old(contents)[..i] + old(contents)[i + 1..]
      ensures cache == old(cache) - {key}
      ensures recency.repr == old(recency.repr)
    {
      KeysAreDistinct();
      AgreeAfterRemoval(recency.elements, cache, contents, key, i);
      recency.Remove(cache[key].element, i);
      cache := cache - {key};
      contents := contents[..i] + contents[i + 1..];
    }

    /** Move the entry of a cached key, which is at ghost position i, to the front. */
    method Touch(key: string, ghost i: nat)
      requires Valid() && key in cache && i < |contents| == |recency.elements|
      requires recency.elements[i] == cache[key].element
      modifies this`contents, recency, recency.repr
      ensures Valid() && contents == [old(contents)[i]] + (old(contents)[..i] + old(contents)[i + 1..])
      ensures recency.repr == old(recency.repr)
    {
      AgreeAfterMove(recency.elements, cache, contents, i);
      recency.MoveToFront(cache[key].element, i);
      contents := [contents[i]] + (contents[..i] + contents[i + 1..]);
    }

    method Get(key: string, now: int) returns (times: Option<seq<int>>)
      requires Valid()
      modifies this, recency, recency.repr
      ensures Valid()
      ensures (contents, times) == RecencyCache.Get(old(contents), key, now, ttl)
      ensures recency.repr == old(recency.repr)
    {
      if key !in cache {
        NotCached(key);
        return None;
      }
      var entry := cache[key];
      ghost var i := PositionOf(key);
      AtKey(i);
      if now - entry.createdAt > ttl {
        RemoveEntry(key, i);
        return None;
      }
      Touch(key, i);
      return Some(entry.times);
    }

    /** Delete every expired entry, in the arbitrary order in which the map yields its keys. */
    method CleanupExpired(now: int)
      requires Valid()
      modifies this, recency, recency.repr
      ensures Valid() && contents == Unexpired(old(contents), now, ttl)
      ensures recency.repr == old(recency.repr)
    {
      KeysAreDistinct();
      CleanedBounds(contents, now, ttl);
      var todo := cache.Keys;
      while todo != {}
        invariant Valid() && todo <= cache.Keys
        invariant recency.repr == old(recency.repr)
        invariant contents == Cleaned(old(contents), todo, now, ttl)
      {
        var key :| key in todo;
        CleanupKey(key, now, old(contents), todo);
        todo := todo - {key};
      }
    }

    /** One step of a cleanup of the entries in start that has yet to look at todo. */
    method CleanupKey(key: string, now: int, ghost start: seq<Entry>, ghost todo: set<string>)
      requires Valid() && key in todo && todo <= cache.Keys
      requires DistinctKeys(start) && contents == Cleaned(start, todo, now, ttl)
      modifies this, recency, recency.repr
      ensures Valid() && contents == Cleaned(start, todo - {key}, now, ttl)
      ensures recency.repr == old(recency.repr)
      ensures cache == old(cache) || cache == old(cache) - {key}
    {
      ghost var i := PositionOf(key);
      AtKey(i);
      assert contents[i] in start;
      CleanOne(start, todo, contents[i], now, ttl);
      if now - cache[key].createdAt > ttl {
        RemoveEntry(key, i);
      }
    }

    /** A new key goes to the front of map, list and sequence. */
    method Insert(key: string, times: seq<int>, now: int)
      requires Valid() && key !in cache
      modifies this, recency, recency.repr
      ensures Valid() && contents == [Entry(key, times, now)] + old(contents)
      ensures fresh(recency.repr - old(recency.repr))
    {
      var element := recency.PushFront(key);
      var entry := CacheEntry(times, now, element);
      AgreeAfterInsert(old(recency.elements), cache, contents, key, entry);
      cache := cache[key := entry];
      contents := [Entry(key, times, now)] + contents;
    }

    /** Remove the least recent entry, if there is one. */
    method RemoveOldest() returns (removed: bool)
      requires Valid()
      modifies this, recency, recency.repr
      ensures Valid() && recency.repr == old(recency.repr) && |cache| == |contents|
      ensures removed == (old(contents) != [])
      ensures contents == if removed then old(contents)[..|old(contents)| - 1] else []
    {
      KeysAreDistinct();
      var oldest := recency.Back();
      if oldest == null {
        return false;
      }
      assert Linked(recency.elements, cache, contents, |contents| - 1);
      RemoveEntry(oldest.value, |contents| - 1);
      KeysAreDistinct();
      return true;
    }

    /** Drop least recent entries until the cache fits. */
    method Evict()
      requires Valid()
      modifies this, recency, recency.repr
      ensures Valid() && contents == Take(old(contents), maxEntries)
      ensures recency.repr == old(recency.repr)
    {
      KeysAreDistinct();
      while |cache| > maxEntries
        invariant Valid() && recency.repr == old(recency.repr) && |cache| == |contents|
        invariant Take(contents, maxEntries) == Take(old(contents), maxEntries)
        decreases |contents|
      {
        ghost var was := contents;
        var removed := RemoveOldest();
        if !removed {
          break;
        }
        TakeDropsLast(was, maxEntries);
      }
    }

    /** Overwrite the entry of the key that is at the front. */
    method Overwrite(key: string, times: seq<int>, now: int)
      requires Valid() && key in cache && contents != [] && contents[0].key == key
      modifies this`contents, this`cache
      ensures Valid() && contents == [Entry(key, times, now)] + old(contents)[1..]
    {
      KeysAreDistinct();
      assert Linked(recency.elements, cache, contents, 0);
      var entry := cache[key].(times := times, createdAt := now);
      AgreeAfterOverwrite(recency.elements, cache, contents, entry);
      cache := cache[key := entry];
      contents := [Entry(key, times, now)] + contents[1..];
    }

    /** Store times under a key, in front of everything else. */
    method Store(key: string, times: seq<int>, now: int)
      requires Valid()
      modifies this, recency, recency.repr
      ensures Valid() && contents == Put(old(contents), Entry(key, times, now), maxEntries)
      ensures fresh(recency.repr - old(recency.repr))
    {
      if key in cache {
        ghost var i := PositionOf(key);
        AtKey(i);
        Touch(key, i);
        Overwrite(key, times, now);
      } else {
        NotCached(key);
        Insert(key, times, now);
        Evict();
      }
    }

    method Set(key: string, times: seq<int>, now: int)
      requires Valid()
      modifies this, recency, recency.repr
      ensures Valid()
      ensures contents == RecencyCache.Set(old(contents), key, times, now, ttl, maxEntries)
      ensures fresh(recency.repr - old(recency.repr))
    {
      CleanupExpired(now);
      Store(key, times, now);
    }

    method Clear()
      requires Valid()
      modifies this, recency, recency.repr
      ensures Valid() && contents == []
    {
      cache := map[];
      recency.Init();
      contents := [];
    }
  }
}
