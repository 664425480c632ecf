/** Calendar exceptions: dates that are skipped, rescheduled, or given extra execution times. */
module CalendarExceptions {
  import opened Clock
  import opened Wrappers
  import opened CalendarTimes

  datatype ClockTime = ClockTime(hour: int, minute: int, second: int) {
    predicate Valid() {
      0 <= hour <= 23 && 0 <= minute <= 59 && 0 <= second <= 59
    }

    function Nanos(): (n: int)
      ensures Valid() ==> 0 <= n < DAY
    {
      (hour * 3600 + minute * 60 + second) * SECOND
    }
  }

  datatype Kind = Skip | Reschedule | Extra | Unknown

  datatype Exception = Exception(date: Option<int>, kind: Kind, rescheduleTo: Option<int>, extraTimes: seq<ClockTime>) {
    /** An absent date reads as the epoch. */
    function Day(offset: int): int {
      LocalDay(date.GetOr(0), offset)
    }

    /** What schedule validation demands of an exception. */
    predicate Valid() {
      && date.Some?
      && match kind
         case Skip => true
         case Reschedule => rescheduleTo.Some?
         case Extra => extraTimes != [] && forall i :: 0 <= i < |extraTimes| ==> extraTimes[i].Valid()
         case Unknown => false
    }
  }

  predicate AllValid(exceptions: seq<Exception>) {
    forall i :: 0 <= i < |exceptions| ==> exceptions[i].Valid()
  }

  /** The exception that decides a date is the last one given for it. */
  function LastOn(exceptions: seq<Exception>, day: int, offset: int): (r: Option<Exception>)
    ensures r.Some? ==> r.value in exceptions && r.value.Day(offset) == day
  {
    if exceptions == [] then None
    else
      var last := exceptions[|exceptions| - 1];
      if last.Day(offset) == day then Some(last) else LastOn(exceptions[..|exceptions| - 1], day, offset)
  }

  /** A reschedule target without a time of day (in UTC) keeps the original one. */
  function Target(t: int, to: int, offset: int): int {
    if to % DAY == 0 then AtLocal(to / DAY, TimeOfDayOf(t, offset), offset) else to
  }

  function OnDay(day: int, times: seq<ClockTime>, offset: int): (r: seq<int>)
    ensures |r| == |times|
    ensures forall i :: 0 <= i < |r| ==> r[i] == AtLocal(day, times[i].Nanos(), offset)
  {
    seq(|times|, i requires 0 <= i < |times| => AtLocal(day, times[i].Nanos(), offset))
  }

  /** What one execution time becomes, and the extra times its date adds. */
  function KeptOf(t: int, exceptions: seq<Exception>, offset: int): seq<int> {
    match LastOn(exceptions, LocalDay(t, offset), offset)
    case None => [t]
    case Some(e) =>
      match e.kind
      case Skip => []
      case Reschedule => if e.rescheduleTo.Some? then [Target(t, e.rescheduleTo.value, offset)] else []
      case Extra => [t]
      case Unknown => [t]
  }

  function ExtrasOf(t: int, exceptions: seq<Exception>, offset: int): seq<int> {
    match LastOn(exceptions, LocalDay(t, offset), offset)
    case None => []
    case Some(e) => if e.kind == Extra then OnDay(LocalDay(t, offset), e.extraTimes, offset) else []
  }

  function Kept(times: seq<int>, exceptions: seq<Exception>, offset: int): seq<int> {
    if times == [] then []
    else Kept(times[..|times| - 1], exceptions, offset) + KeptOf(times[|times| - 1], exceptions, offset)
  }

  function Extras(times: seq<int>, exceptions: seq<Exception>, offset: int): seq<int> {
    if times == [] then []
    else Extras(times[..|times| - 1], exceptions, offset) + ExtrasOf(times[|times| - 1], exceptions, offset)
  }

  function Applied(times: seq<int>, exceptions: seq<Exception>, offset: int): seq<int> {
    if exceptions == [] then times
    else SortTimes(Kept(times, exceptions, offset) + Extras(times, exceptions, offset))
  }

  method ApplyExceptions(times: seq<int>, exceptions: seq<Exception>, offset: int) returns (result: seq<int>)
    ensures result == Applied(times, exceptions, offset)
  {
    if exceptions == [] {
      return times;
    }
    var exceptionMap := BuildExceptionMap(exceptions, offset);
    var extraTimes: seq<int> := [];
    result := [];
    for i := 0 to |times|
      invariant result == Kept(times[..i], exceptions, offset)
      invariant extraTimes == Extras(times[..i], exceptions, offset)
    {
      assert times[..i + 1][..i] == times[..i];
      var day := LocalDay(times[i], offset);
      if day in exceptionMap {
        var exception := exceptionMap[day];
        match exception.kind {
          case Skip =>
          case Reschedule =>
            if exception.rescheduleTo.Some? {
              var rescheduled := exception.rescheduleTo.value;
              if rescheduled % DAY == 0 {
                rescheduled := AtLocal(rescheduled / DAY, TimeOfDayOf(times[i], offset), offset);
              }
              result := result + [rescheduled];
            }
          case Extra =>
            result := result + [times[i]];
            extraTimes := extraTimes + OnDay(day, exception.extraTimes, offset);
          case Unknown =>
            result := result + [times[i]];
        }
      } else {
        result := result + [times[i]];
      }
    }
    assert times[..|times|] == times;
    result := SortTimes(result + extraTimes);
  }

  /** A later exception for the same date replaces an earlier one. */
  method BuildExceptionMap(exceptions: seq<Exception>, offset: int) returns (m: map<int, Exception>)
    ensures forall day :: LastOn(exceptions, day, offset) == if day in m then Some(m[day]) else None
  {
    m := map[];
    for i := 0 to |exceptions|
      invariant forall day :: LastOn(exceptions[..i], day, offset) == if day in m then Some(m[day]) else None
    {
      assert exceptions[..i + 1][..i] == exceptions[..i];
      m := m[exceptions[i].Day(offset) := exceptions[i]];
    }
    assert exceptions[..|exceptions|] == exceptions;
  }

  // ----- properties --------------------------------------------------------------------------

  function Contributions(times: seq<int>, exceptions: seq<Exception>, offset: int): multiset<int> {
    if times == [] then multiset{}
    else
      var t := times[|times| - 1];
      Contributions(times[..|times| - 1], exceptions, offset)
      + multiset(KeptOf(t, exceptions, offset)) + multiset(ExtrasOf(t, exceptions, offset))
  }

  lemma {:induction false} ContributionsAreKeptAndExtras(times: seq<int>, exceptions: seq<Exception>, offset: int)
    ensures multiset(Kept(times, exceptions, offset)) + multiset(Extras(times, exceptions, offset))
         == Contributions(times, exceptions, offset)
  {
    if times != [] {
      ContributionsAreKeptAndExtras(times[..|times| - 1], exceptions, offset);
    }
  }

  /** Applying exceptions gives, in order, exactly what each time contributes under the last
      exception for its local date. */
  lemma AppliedIsSortedContributions(times: seq<int>, exceptions: seq<Exception>, offset: int)
    requires exceptions != []
    ensures Sorted(Applied(times, exceptions, offset))
    ensures multiset(Applied(times, exceptions, offset)) == Contributions(times, exceptions, offset)
  {
    SortSorts(Kept(times, exceptions, offset) + Extras(times, exceptions, offset));
    ContributionsAreKeptAndExtras(times, exceptions, offset);
  }

  /** Every kept and every extra time comes from some execution time. */
  lemma {:induction false} KeptAndExtrasOrigin(times: seq<int>, exceptions: seq<Exception>, offset: int, t: int)
    ensures t in Kept(times, exceptions, offset) <==> exists x :: x in times && t in KeptOf(x, exceptions, offset)
    ensures t in Extras(times, exceptions, offset) <==> exists x :: x in times && t in ExtrasOf(x, exceptions, offset)
  {
    if times != [] {
      var (init, x) := (times[..|times| - 1], times[|times| - 1]);
      assert times == init + [x];
      KeptAndExtrasOrigin(init, exceptions, offset, t);
    }
  }

  lemma AppliedOrigin(times: seq<int>, exceptions: seq<Exception>, offset: int, t: int)
    requires exceptions != []
    ensures t in Applied(times, exceptions, offset) <==>
              exists x :: x in times && (t in KeptOf(x, exceptions, offset) || t in ExtrasOf(x, exceptions, offset))
  {
    SortSorts(Kept(times, exceptions, offset) + Extras(times, exceptions, offset));
    KeptAndExtrasOrigin(times, exceptions, offset, t);
  }

  /** The last exception for the date of t skips it. */
  predicate Skipped(t: int, exceptions: seq<Exception>, offset: int) {
    var e := LastOn(exceptions, LocalDay(t, offset), offset);
    e.Some? && e.value.kind == Skip
  }

  /** t is where the last exception for the date of x sends x. */
  predicate IsRescheduled(x: int, t: int, exceptions: seq<Exception>, offset: int) {
    var e := LastOn(exceptions, LocalDay(x, offset), offset);
    e.Some? && e.value.kind == Reschedule && e.value.rescheduleTo.Some? && t == Target(x, e.value.rescheduleTo.value, offset)
  }

  /** Nothing remains on a skipped date, except times that were rescheduled to it. */
  lemma NothingOnSkippedDates(times: seq<int>, exceptions: seq<Exception>, offset: int, t: int)
    requires AllValid(exceptions) && t in Applied(times, exceptions, offset) && Skipped(t, exceptions, offset)
    ensures exists x :: x in times && IsRescheduled(x, t, exceptions, offset)
  {
    AppliedOrigin(times, exceptions, offset, t);
    var x :| x in times && (t in KeptOf(x, exceptions, offset) || t in ExtrasOf(x, exceptions, offset));
    if t in ExtrasOf(x, exceptions, offset) {
      var e := LastOn(exceptions, LocalDay(x, offset), offset).value;
      var i :| 0 <= i < |e.extraTimes| && t == AtLocal(LocalDay(x, offset), e.extraTimes[i].Nanos(), offset);
      assert e.Valid();
      AtLocalDay(LocalDay(x, offset), e.extraTimes[i].Nanos(), offset);
      assert false;
    }
    assert t in KeptOf(x, exceptions, offset);
    assert IsRescheduled(x, t, exceptions, offset);
  }
}
