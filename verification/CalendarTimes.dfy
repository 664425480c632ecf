/** Execution times: local dates at a fixed offset, sorting, and removal of times that fall in the
    same Unix second. */
module CalendarTimes {
  import opened Clock

  function Unix(t: int): int {
    t / SECOND
  }

  function LocalDay(t: int, offset: int): int {
    (t + offset) / DAY
  }

  function TimeOfDayOf(t: int, offset: int): int {
    (t + offset) % DAY
  }

  function AtLocal(day: int, timeOfDay: int, offset: int): int {
    day * DAY + timeOfDay - offset
  }

  /** A time of day lies on the date it was put on. */
  lemma AtLocalDay(day: int, timeOfDay: int, offset: int)
    requires 0 <= timeOfDay < DAY
    ensures LocalDay(AtLocal(day, timeOfDay, offset), offset) == day
    ensures TimeOfDayOf(AtLocal(day, timeOfDay, offset), offset) == timeOfDay
  {
  }

  // ----- sorting ---------------------------------------------------------------------------

  predicate Sorted(s: seq<int>) {
    forall i, j :: 0 <= i < j < |s| ==> s[i] <= s[j]
  }

  function Insert(x: int, s: seq<int>): seq<int> {
    if s == [] || x <= s[0] then [x] + s else [s[0]] + Insert(x, s[1..])
  }

  /** The times in order. Equal instants are indistinguishable, so this is what any sort yields. */
  function SortTimes(s: seq<int>): seq<int> {
    if s == [] then [] else Insert(s[0], SortTimes(s[1..]))
  }

  lemma {:induction false} InsertPermutes(x: int, s: seq<int>)
    ensures multiset(Insert(x, s)) == multiset(s) + multiset{x}
  {
    if s != [] && x > s[0] {
      InsertPermutes(x, s[1..]);
      assert s == [s[0]] + s[1..];
    }
  }

  lemma {:induction false} InsertSorts(x: int, s: seq<int>)
    requires Sorted(s)
    ensures Sorted(Insert(x, s))
    ensures s != [] && s[0] < x ==> Insert(x, s)[0] == s[0]
  {
    if s != [] && x > s[0] {
      InsertSorts(x, s[1..]);
      var r := Insert(x, s[1..]);
      assert s[0] <= r[0];
      assert forall i :: 0 < i < |r| ==> r[0] <= r[i];
    }
  }

  lemma {:induction false} SortPermutes(s: seq<int>)
    ensures multiset(SortTimes(s)) == multiset(s)
  {
    if s != [] {
      SortPermutes(s[1..]);
      InsertPermutes(s[0], SortTimes(s[1..]));
      assert s == [s[0]] + s[1..];
    }
  }

  lemma SameMembers(a: seq<int>, b: seq<int>)
    requires multiset(a) == multiset(b)
    ensures forall t :: t in a <==> t in b
  {
    assert forall t :: t in a <==> t in multiset(a);
  }

  lemma {:induction false} SortSorts(s: seq<int>)
    ensures Sorted(SortTimes(s)) && multiset(SortTimes(s)) == multiset(s)
    ensures forall t :: t in SortTimes(s) <==> t in s
  {
    SortPermutes(s);
    SameMembers(SortTimes(s), s);
    if s != [] {
      SortSorts(s[1..]);
      InsertSorts(s[0], SortTimes(s[1..]));
    }
  }

  /** A sorted sequence is determined by its elements. */
  lemma {:induction false} SortedUnique(a: seq<int>, b: seq<int>)
    requires Sorted(a) && Sorted(b) && multiset(a) == multiset(b)
    ensures a == b
  {
    assert |multiset(a)| == |a| && |multiset(b)| == |b|;
    if a != [] {
      SameMembers(a, b);
      SameLeast(a, b);
      TailMultiset(a);
      TailMultiset(b);
      SortedUnique(a[1..], b[1..]);
      assert a == [a[0]] + a[1..] && b == [b[0]] + b[1..];
    }
  }

  lemma SameLeast(a: seq<int>, b: seq<int>)
    requires Sorted(a) && Sorted(b) && a != [] && b != [] && forall t :: t in a <==> t in b
    ensures a[0] == b[0]
  {
    assert a[0] in a && b[0] in b;
    assert a[0] in b && b[0] in a;
  }

  lemma TailMultiset(a: seq<int>)
    requires a != []
    ensures multiset(a[1..]) == multiset(a) - multiset{a[0]}
  {
    assert a == [a[0]] + a[1..];
  }

  // ----- one time per second ---------------------------------------------------------------

  /** The times of s whose second is neither in seen nor that of an earlier time. */
  function Dedup(s: seq<int>, seen: set<int>): seq<int> {
    if s == [] then []
    else if Unix(s[0]) in seen then Dedup(s[1..], seen)
    else [s[0]] + Dedup(s[1..], seen + {Unix(s[0])})
  }

  predicate StrictlyBySecond(s: seq<int>) {
    forall i, j :: 0 <= i < j < |s| ==> Unix(s[i]) < Unix(s[j])
  }

  lemma UnixMonotone(a: int, b: int)
    requires a <= b
    ensures Unix(a) <= Unix(b)
  {
  }

  /** Some time of s falls in this second. */
  predicate HasSecond(s: seq<int>, second: int) {
    exists i :: 0 <= i < |s| && Unix(s[i]) == second
  }

  lemma ConsHasSecond(t: int, s: seq<int>, second: int)
    ensures HasSecond([t] + s, second) <==> Unix(t) == second || HasSecond(s, second)
  {
    var r := [t] + s;
    if HasSecond(s, second) {
      var i :| 0 <= i < |s| && Unix(s[i]) == second;
      assert r[i + 1] == s[i];
    }
    if Unix(t) == second {
      assert r[0] == t;
    }
    if HasSecond(r, second) && Unix(t) != second {
      var i :| 0 <= i < |r| && Unix(r[i]) == second;
      assert r[i] == s[i - 1];
    }
  }

  /** No second is lost. */
  lemma {:induction false} DedupKeepsSeconds(s: seq<int>, seen: set<int>, second: int)
    ensures HasSecond(Dedup(s, seen), second) <==> HasSecond(s, second) && second !in seen
  {
    if s != [] {
      var seen' := if Unix(s[0]) in seen then seen else seen + {Unix(s[0])};
      DedupKeepsSeconds(s[1..], seen', second);
      ConsHasSecond(s[0], s[1..], second);
      ConsHasSecond(s[0], Dedup(s[1..], seen'), second);
      assert s == [s[0]] + s[1..];
    }
  }

  lemma {:induction false} DedupMembers(s: seq<int>, seen: set<int>)
    ensures forall t :: t in Dedup(s, seen) ==> t in s && Unix(t) !in seen
  {
    if s != [] {
      DedupMembers(s[1..], if Unix(s[0]) in seen then seen else seen + {Unix(s[0])});
    }
  }

  /** Of sorted times, one remains for each second, and the seconds increase. */
  lemma {:induction false} DedupIncreases(s: seq<int>, seen: set<int>)
    requires Sorted(s)
    ensures StrictlyBySecond(Dedup(s, seen))
  {
    if s != [] {
      var seen' := if Unix(s[0]) in seen then seen else seen + {Unix(s[0])};
      var rest := Dedup(s[1..], seen');
      DedupIncreases(s[1..], seen');
      DedupMembers(s[1..], seen');
      forall j | 0 <= j < |rest|
        ensures Unix(s[0]) <= Unix(rest[j]) && rest[j] in s[1..]
      {
        assert rest[j] in rest;
        UnixMonotone(s[0], rest[j]);
      }
      assert forall j :: 0 <= j < |rest| ==> rest[j] in rest;
    }
  }

  /** The one that remains is the earliest. */
  lemma {:induction false} DedupKeepsEarliest(s: seq<int>, seen: set<int>, t: int, u: int)
    requires Sorted(s) && t in s && u in Dedup(s, seen) && Unix(t) == Unix(u)
    ensures u <= t
  {
    var seen' := if Unix(s[0]) in seen then seen else seen + {Unix(s[0])};
    DedupMembers(s[1..], seen');
    if u != s[0] {
      DedupMembers(s, seen);
      assert t != s[0];
      DedupKeepsEarliest(s[1..], seen', t, u);
    }
  }

  /** A strictly increasing sequence drawn from another lies above it position by position. */
  lemma {:induction false} DrawnFromAbove(drawn: seq<int>, all: seq<int>, k: nat)
    requires StrictlyBySecond(drawn) && StrictlyBySecond(all) && k < |drawn|
    requires forall i :: 0 <= i < |drawn| ==> HasSecond(all, Unix(drawn[i]))
    ensures k < |all| && Unix(all[k]) <= Unix(drawn[k])
  {
    assert HasSecond(all, Unix(drawn[k]));
    var j :| 0 <= j < |all| && Unix(all[j]) == Unix(drawn[k]);
    if k > 0 {
      DrawnFromAbove(drawn, all, k - 1);
      assert Unix(drawn[k - 1]) < Unix(drawn[k]);
    }
  }
}
