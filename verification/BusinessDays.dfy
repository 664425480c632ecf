/** Business-day arithmetic. A date is its day number at the calendar's fixed offset, day 0 being
    1 January 1970; times of day are carried along unchanged and play no part. */
module BusinessDays {
  import opened Wrappers

  const SEARCH_LIMIT: nat := 365
  const RANGE_LIMIT: nat := 2000

  /** Weekend days count Monday as 1 and Sunday as 0 or 7; a holiday without a date reads as day 0. */
  datatype BusinessCalendar = BusinessCalendar(weekendDays: seq<int>, holidays: seq<Option<int>>)

  datatype CalendarError = CalendarNotFound | NoBusinessDayFound | RangeExceeded

  /** Sunday is 0; day 0 was a Thursday. */
  function Weekday(day: int): int {
    (day + 4) % 7
  }

  predicate IsWeekend(c: BusinessCalendar, day: int) {
    exists i :: 0 <= i < |c.weekendDays| &&
      (c.weekendDays[i] == Weekday(day) || (c.weekendDays[i] == 7 && Weekday(day) == 0))
  }

  predicate IsHoliday(c: BusinessCalendar, day: int) {
    exists i :: 0 <= i < |c.holidays| && c.holidays[i].GetOr(0) == day
  }

  predicate Business(c: BusinessCalendar, day: int) {
    !IsWeekend(c, day) && !IsHoliday(c, day)
  }

  // ----- counting ------------------------------------------------------------------------------

  /** The date k days after from, or before it. */
  function At(from: int, forward: bool, k: int): int {
    if forward then from + k else from - k
  }

  function One(c: BusinessCalendar, day: int): nat {
    if Business(c, day) then 1 else 0
  }

  /** Business days strictly past from, up to and including the k-th day. */
  function Count(c: BusinessCalendar, from: int, forward: bool, k: nat): nat {
    if k == 0 then 0 else Count(c, from, forward, k - 1) + One(c, At(from, forward, k))
  }

  /** The first k at which the count reaches n, looking no further than limit. */
  function Reach(c: BusinessCalendar, from: int, forward: bool, n: nat, limit: nat): (k: nat)
    requires n <= Count(c, from, forward, limit)
    ensures k <= limit && Count(c, from, forward, k) == n
    ensures n > 0 ==> k > 0 && Business(c, At(from, forward, k))
  {
    if limit == 0 then 0
    else if n <= Count(c, from, forward, limit - 1) then Reach(c, from, forward, n, limit - 1)
    else limit
  }

  /** The date that is n business days past from, if it lies within the limit. */
  function Nth(c: BusinessCalendar, from: int, forward: bool, n: nat, limit: nat): Option<int> {
    if n <= Count(c, from, forward, limit) then Some(At(from, forward, Reach(c, from, forward, n, limit))) else None
  }

  function Abs(x: int): nat {
    if x < 0 then -x else x
  }

  function AddDays(c: BusinessCalendar, from: int, days: int): Option<int> {
    if days == 0 then Some(from) else Nth(c, from, days > 0, Abs(days), RANGE_LIMIT)
  }

  lemma {:induction false} CountMonotone(c: BusinessCalendar, from: int, forward: bool, j: nat, k: nat)
    requires j <= k
    ensures Count(c, from, forward, j) <= Count(c, from, forward, k) <= Count(c, from, forward, j) + (k - j)
    decreases k
  {
    if j < k {
      CountMonotone(c, from, forward, j, k - 1);
    }
  }

  /** A date is the n-th business day exactly when it is one and n are counted up to it. */
  lemma NthUnique(c: BusinessCalendar, from: int, forward: bool, n: nat, limit: nat, k: nat)
    requires 0 < n && k <= limit
    ensures Nth(c, from, forward, n, limit) == Some(At(from, forward, k)) <==>
              0 < k && Business(c, At(from, forward, k)) && Count(c, from, forward, k) == n
  {
    if Nth(c, from, forward, n, limit).Some? {
      var r := Reach(c, from, forward, n, limit);
      if 0 < k && Business(c, At(from, forward, k)) && Count(c, from, forward, k) == n {
        if k < r {
          CountMonotone(c, from, forward, k, r - 1);
        } else if r < k {
          CountMonotone(c, from, forward, r, k - 1);
        }
      }
    } else {
      CountMonotone(c, from, forward, k, limit);
    }
  }

  // ----- the provider --------------------------------------------------------------------------

  class MemoryBusinessCalendarProvider {
    var calendars: map<string, BusinessCalendar>

    constructor ()
      ensures calendars == map["default" := BusinessCalendar([6, 7], [])]
    {
      calendars := map["default" := BusinessCalendar([6, 7], [])];
    }

    method IsBusinessDay(id: string, date: int) returns (r: Result<bool, CalendarError>)
      ensures r == if id in calendars then Success(Business(calendars[id], date)) else Failure(CalendarNotFound)
    {
      if id !in calendars {
        return Failure(CalendarNotFound);
      }
      var calendar := calendars[id];
      var weekday := Weekday(date);
      for i := 0 to |calendar.weekendDays|
        invariant forall j :: 0 <= j < i ==>
                    !(calendar.weekendDays[j] == weekday || (calendar.weekendDays[j] == 7 && weekday == 0))
      {
        var wd := calendar.weekendDays[i];
        if weekday == wd || (wd == 7 && weekday == 0) {
          return Success(false);
        }
      }
      for i := 0 to |calendar.holidays|
        invariant forall j :: 0 <= j < i ==> calendar.holidays[j].GetOr(0) != date
      {
        if calendar.holidays[i].GetOr(0) == date {
          return Success(false);
        }
      }
      return Success(true);
    }

    method Search(id: string, from: int, forward: bool) returns (r: Result<int, CalendarError>)
      ensures id !in calendars ==> r == Failure(CalendarNotFound)
      ensures id in calendars ==>
                var found := Nth(calendars[id], from, forward, 1, SEARCH_LIMIT);
                r == if found.Some? then Success(found.value) else Failure(NoBusinessDayFound)
    {
      var current := At(from, forward, 1);
      for i := 0 to SEARCH_LIMIT
        invariant current == At(from, forward, i + 1)
        invariant i > 0 ==> id in calendars
        invariant id in calendars ==> Count(calendars[id], from, forward, i) == 0
      {
        var isBusinessDay := this.IsBusinessDay(id, current);
        if isBusinessDay.Failure? {
          return Failure(isBusinessDay.error);
        }
        if isBusinessDay.value {
          NthUnique(calendars[id], from, forward, 1, SEARCH_LIMIT, i + 1);
          return Success(current);
        }
        current := At(current, forward, 1);
      }
      return Failure(NoBusinessDayFound);
    }

    method GetNextBusinessDay(id: string, from: int) returns (r: Result<int, CalendarError>)
      ensures id !in calendars ==> r == Failure(CalendarNotFound)
      ensures id in calendars ==>
                var found := Nth(calendars[id], from, true, 1, SEARCH_LIMIT);
                r == if found.Some? then Success(found.value) else Failure(NoBusinessDayFound)
    {
      r := Search(id, from, true);
    }

    method GetPreviousBusinessDay(id: string, from: int) returns (r: Result<int, CalendarError>)
      ensures id !in calendars ==> r == Failure(CalendarNotFound)
      ensures id in calendars ==>
                var found := Nth(calendars[id], from, false, 1, SEARCH_LIMIT);
                r == if found.Some? then Success(found.value) else Failure(NoBusinessDayFound)
    {
      r := Search(id, from, false);
    }

    /** Adding zero days does not even look the calendar up. */
    method AddBusinessDays(id: string, from: int, days: int) returns (r: Result<int, CalendarError>)
      ensures days != 0 && id !in calendars ==> r == Failure(CalendarNotFound)
      ensures days == 0 ==> r == Success(from)
      ensures id in calendars ==>
                var found := AddDays(calendars[id], from, days);
                r == if found.Some? then Success(found.value) else Failure(RangeExceeded)
    {
      if days == 0 {
        return Success(from);
      }
      var current, remaining, direction := from, days, 1;
      if days < 0 {
        direction := -1;
        remaining := -days;
      }
      var counted := 0;
      ghost var forward, k: nat := days > 0, 0;
      while counted < remaining
        invariant current == At(from, forward, k) && direction == (if forward then 1 else -1)
        invariant k <= RANGE_LIMIT && counted <= remaining == Abs(days)
        invariant k > 0 ==> id in calendars
        invariant id in calendars ==> counted == Count(calendars[id], from, forward, k)
        invariant counted == remaining ==> id in calendars && k > 0 && Business(calendars[id], current)
        decreases RANGE_LIMIT + 1 - k
      {
        current := current + direction;
        k := k + 1;
        var isBusinessDay := this.IsBusinessDay(id, current);
        if isBusinessDay.Failure? {
          return Failure(isBusinessDay.error);
        }
        if isBusinessDay.value {
          counted := counted + 1;
        }
        if Abs(current - from) > RANGE_LIMIT {
          return Failure(RangeExceeded);
        }
      }
      NthUnique(calendars[id], from, forward, remaining, RANGE_LIMIT, k);
      return Success(current);
    }
  }

  // ----- laws ----------------------------------------------------------------------------------

  /** Adding business days succeeds exactly when enough of them lie within the range, and then
      lands on a business day with exactly that many counted past the start. */
  lemma AddMeaning(c: BusinessCalendar, from: int, days: int, k: nat)
    requires days != 0
    ensures AddDays(c, from, days).Some? <==> Abs(days) <= Count(c, from, days > 0, RANGE_LIMIT)
    ensures AddDays(c, from, days) == Some(At(from, days > 0, k)) <==>
              0 < k <= RANGE_LIMIT && Business(c, At(from, days > 0, k)) && Count(c, from, days > 0, k) == Abs(days)
  {
    if k <= RANGE_LIMIT {
      NthUnique(c, from, days > 0, Abs(days), RANGE_LIMIT, k);
    }
  }

  /** The next business day is one business day on, unless that is more than a year away. */
  lemma AddOneIsNext(c: BusinessCalendar, from: int, forward: bool)
    ensures var added := AddDays(c, from, if forward then 1 else -1);
            Nth(c, from, forward, 1, SEARCH_LIMIT)
            == if added.Some? && Abs(added.value - from) <= SEARCH_LIMIT then added else None
  {
    if Nth(c, from, forward, 1, SEARCH_LIMIT).Some? {
      var k := Reach(c, from, forward, 1, SEARCH_LIMIT);
      NthUnique(c, from, forward, 1, RANGE_LIMIT, k);
    } else if Nth(c, from, forward, 1, RANGE_LIMIT).Some? {
      var k := Reach(c, from, forward, 1, RANGE_LIMIT);
      if k <= SEARCH_LIMIT {
        CountMonotone(c, from, forward, k, SEARCH_LIMIT);
      }
    }
  }

  lemma {:induction false} CountConcat(c: BusinessCalendar, from: int, forward: bool, a: nat, b: nat)
    ensures Count(c, from, forward, a + b) == Count(c, from, forward, a) + Count(c, At(from, forward, a), forward, b)
  {
    if b > 0 {
      CountConcat(c, from, forward, a, b - 1);
      assert At(At(from, forward, a), forward, b) == At(from, forward, a + b);
      assert a + b - 1 == a + (b - 1);
    }
  }

  lemma AddSplits(c: BusinessCalendar, from: int, m: int, n: int)
    requires ((m > 0 && n > 0) || (m < 0 && n < 0)) && AddDays(c, from, m + n).Some?
    ensures AddDays(c, from, m).Some? && AddDays(c, AddDays(c, from, m).value, n).Some?
  {
    var forward := m > 0;
    var total := Reach(c, from, forward, Abs(m + n), RANGE_LIMIT);
    var a := Reach(c, from, forward, Abs(m), RANGE_LIMIT);
    if total < a {
      CountMonotone(c, from, forward, total, a);
    }
    CountConcat(c, from, forward, a, total - a);
    CountMonotone(c, At(from, forward, a), forward, total - a, RANGE_LIMIT);
  }

  lemma AddJoins(c: BusinessCalendar, from: int, m: int, n: int)
    requires (m > 0 && n > 0) || (m < 0 && n < 0)
    requires AddDays(c, from, m).Some? && AddDays(c, AddDays(c, from, m).value, n).Some?
    ensures var end := AddDays(c, AddDays(c, from, m).value, n).value;
            AddDays(c, from, m + n) == if Abs(end - from) <= RANGE_LIMIT then Some(end) else None
  {
    var forward := m > 0;
    var a := Reach(c, from, forward, Abs(m), RANGE_LIMIT);
    var b := Reach(c, At(from, forward, a), forward, Abs(n), RANGE_LIMIT);
    CountConcat(c, from, forward, a, b);
    assert At(At(from, forward, a), forward, b) == At(from, forward, a + b);
    if a + b <= RANGE_LIMIT {
      NthUnique(c, from, forward, Abs(m + n), RANGE_LIMIT, a + b);
    } else if AddDays(c, from, m + n).Some? {
      var total := Reach(c, from, forward, Abs(m + n), RANGE_LIMIT);
      CountMonotone(c, from, forward, total, a + b - 1);
    }
  }

  /** Additions in one direction compose: the sum is reached through the first part, and differs
      from adding twice only in being refused beyond the range. */
  lemma AddComposes(c: BusinessCalendar, from: int, m: int, n: int)
    requires (m > 0 && n > 0) || (m < 0 && n < 0)
    ensures AddDays(c, from, m + n).Some? ==> AddDays(c, from, m).Some? && AddDays(c, AddDays(c, from, m).value, n).Some?
    ensures AddDays(c, from, m).Some? && AddDays(c, AddDays(c, from, m).value, n).Some? ==>
              var end := AddDays(c, AddDays(c, from, m).value, n).value;
              AddDays(c, from, m + n) == if Abs(end - from) <= RANGE_LIMIT then Some(end) else None
  {
    if AddDays(c, from, m + n).Some? {
      AddSplits(c, from, m, n);
    }
    if AddDays(c, from, m).Some? && AddDays(c, AddDays(c, from, m).value, n).Some? {
      AddJoins(c, from, m, n);
    }
  }

  /** Walking back over k days counts the same days, less the last and with the first. */
  lemma {:induction false} CountBack(c: BusinessCalendar, from: int, forward: bool, k: nat)
    ensures Count(c, At(from, forward, k), !forward, k) + One(c, At(from, forward, k))
         == Count(c, from, forward, k) + One(c, from)
  {
    if k > 0 {
      var end := At(from, forward, k);
      CountBack(c, from, forward, k - 1);
      CountConcat(c, end, !forward, 1, k - 1);
      assert At(end, !forward, 1) == At(from, forward, k - 1);
      assert Count(c, end, !forward, 1) == Count(c, end, !forward, 0) + One(c, At(end, !forward, 1));
    }
  }

  /** Going n business days on and n back returns to the start exactly when it is a business day. */
  lemma AddThenSubtract(c: BusinessCalendar, from: int, n: int)
    requires n != 0 && AddDays(c, from, n).Some?
    ensures AddDays(c, AddDays(c, from, n).value, -n) == Some(from) <==> Business(c, from)
  {
    var forward := n > 0;
    var k := Reach(c, from, forward, Abs(n), RANGE_LIMIT);
    var end := At(from, forward, k);
    assert At(end, !forward, k) == from;
    CountBack(c, from, forward, k);
    NthUnique(c, end, !forward, Abs(n), RANGE_LIMIT, k);
  }
  // ----- meaning -------------------------------------------------------------------------------

  /** 1 January 1970 was a Thursday, and the days of the week follow one another. */
  lemma WeekdayMeaning(day: int)
    ensures Weekday(0) == 4 && 0 <= Weekday(day) <= 6
    ensures Weekday(day + 1) == if Weekday(day) == 6 then 0 else Weekday(day) + 1
  {
  }

  /** A business day is none of the weekend days, of which 7 too means Sunday, and no holiday, one
      without a date being on 1 January 1970. */
  lemma BusinessMeaning(c: BusinessCalendar, day: int)
    ensures Business(c, day) <==>
              && (forall i :: 0 <= i < |c.weekendDays| ==> c.weekendDays[i] != Weekday(day))
              && (Weekday(day) == 0 ==> forall i :: 0 <= i < |c.weekendDays| ==> c.weekendDays[i] != 7)
              && (forall i :: 0 <= i < |c.holidays| ==> c.holidays[i] != Some(day))
              && (day == 0 ==> forall i :: 0 <= i < |c.holidays| ==> c.holidays[i] != None)
  {
    forall i | 0 <= i < |c.holidays|
      ensures c.holidays[i].GetOr(0) == day <==> c.holidays[i] == Some(day) || (c.holidays[i] == None && day == 0)
    {
    }
  }

  predicate BusinessAt(c: BusinessCalendar, from: int, forward: bool, j: int) {
    Business(c, if forward then from + j else from - j)
  }

  /** The distances, up to k, at which there is a business day. */
  function Distances(c: BusinessCalendar, from: int, forward: bool, k: nat): set<int> {
    set j | 1 <= j <= k && BusinessAt(c, from, forward, j)
  }

  /** The count is the number of business days past the start. */
  lemma {:induction false} CountMeaning(c: BusinessCalendar, from: int, forward: bool, k: nat)
    ensures Count(c, from, forward, k) == |Distances(c, from, forward, k)|
  {
    if k > 0 {
      CountMeaning(c, from, forward, k - 1);
      OneMore(c, from, forward, k);
    }
  }

  lemma OneMore(c: BusinessCalendar, from: int, forward: bool, k: nat)
    requires 0 < k
    ensures |Distances(c, from, forward, k)| == |Distances(c, from, forward, k - 1)| + One(c, At(from, forward, k))
  {
    var (now, before) := (Distances(c, from, forward, k), Distances(c, from, forward, k - 1));
    if BusinessAt(c, from, forward, k) {
      assert now == before + {k};
    } else {
      assert now == before;
    }
  }

  /** A search finds the first business day past the start, within 365 days; adding n days finds the
      n-th, within 2000. */
  lemma SearchMeaning(c: BusinessCalendar, from: int, forward: bool, k: nat)
    ensures Nth(c, from, forward, 1, SEARCH_LIMIT) == Some(if forward then from + k else from - k) <==>
              1 <= k <= 365 && Distances(c, from, forward, k) == {k}
  {
    CountMeaning(c, from, forward, k);
    if k <= SEARCH_LIMIT {
      NthUnique(c, from, forward, 1, SEARCH_LIMIT, k);
      OnlyLast(c, from, forward, k);
    }
  }

  lemma OnlyLast(c: BusinessCalendar, from: int, forward: bool, k: nat)
    ensures Distances(c, from, forward, k) == {k} <==>
              0 < k && BusinessAt(c, from, forward, k) && |Distances(c, from, forward, k)| == 1
  {
    var d := Distances(c, from, forward, k);
    assert k in d <==> 0 < k && BusinessAt(c, from, forward, k);
    SingletonIs(d, k);
  }

  lemma SingletonIs(d: set<int>, k: int)
    ensures d == {k} <==> k in d && |d| == 1
  {
    if k in d && |d| == 1 {
      assert |d - {k}| == 0;
      assert d == {k} + (d - {k});
    }
  }

  lemma AddMeansNth(c: BusinessCalendar, from: int, days: int, k: nat)
    requires days != 0
    ensures AddDays(c, from, days) == Some(if days > 0 then from + k else from - k) <==>
              && 1 <= k <= 2000 && k in Distances(c, from, days > 0, k)
              && |Distances(c, from, days > 0, k)| == if days > 0 then days else -days
  {
    AddMeaning(c, from, days, k);
    CountMeaning(c, from, days > 0, k);
  }
}
