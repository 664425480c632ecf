/** What the execution times of a schedule satisfy. */
module CalendarGuarantees {
  import opened Clock
  import opened Wrappers
  import opened CalendarTimes
  import opened CalendarExceptions
  import opened CalendarEngine

  // ----- order ---------------------------------------------------------------------------------

  lemma {:induction false} FinalTimesIncrease(c: Config, q: Request)
    ensures StrictlyBySecond(FinalTimes(c, q))
  {
    var sorted := SortTimes(Candidates(c, q));
    SortSorts(Candidates(c, q));
    DedupIncreases(sorted, {});
    var candidates := CandidateTimes(c, q);
    if q.exceptions == [] {
      IncreasingIsSorted(candidates);
    } else {
      AppliedIsSortedContributions(candidates, q.exceptions, q.offset);
    }
    DedupIncreases(Applied(candidates, q.exceptions, q.offset), {});
  }

  lemma IncreasingIsSorted(s: seq<int>)
    requires StrictlyBySecond(s)
    ensures Sorted(s)
  {
    forall i, j | 0 <= i < j < |s|
      ensures s[i] <= s[j]
    {
      if s[j] < s[i] {
        UnixMonotone(s[j], s[i]);
      }
    }
  }

  /** Successful results are strictly increasing in Unix seconds, and no longer than asked. */
  lemma RunsIncrease(c: Config, q: Request, count: int)
    requires NextRuns(c, q, count).Success?
    ensures StrictlyBySecond(NextRuns(c, q, count).value) && |NextRuns(c, q, count).value| <= count
  {
    FinalTimesIncrease(c, q);
  }

  /** Asking for fewer runs gives a prefix of asking for more. */
  lemma RunsArePrefix(c: Config, q: Request, n: int, m: int)
    requires 0 < n <= m && NextRuns(c, q, m).Success?
    ensures NextRuns(c, q, n).Success?
    ensures NextRuns(c, q, n).value <= NextRuns(c, q, m).value
    ensures |NextRuns(c, q, n).value| < n ==> NextRuns(c, q, n) == NextRuns(c, q, m)
  {
  }

  // ----- where runs come from --------------------------------------------------------------------

  lemma {:induction false} BeforeMembers(times: seq<int>, end: int, t: int)
    ensures t in Before(times, end) <==> t in times && t < end
  {
    if times != [] {
      BeforeMembers(times[..|times| - 1], end, t);
      assert times == times[..|times| - 1] + [times[|times| - 1]];
    }
  }

  lemma {:induction false} WithinMembers(times: seq<int>, from: int, end: int, t: int)
    ensures t in Within(times, from, end) <==> t in times && from < t < end
  {
    if times != [] {
      WithinMembers(times[..|times| - 1], from, end, t);
      assert times == times[..|times| - 1] + [times[|times| - 1]];
    }
  }

  /** The evaluator of the rule did not fail, and t is among the times it returned. */
  predicate Returns(rule: Option<seq<int>>, t: int) {
    rule.Some? && t in rule.value
  }

  predicate Returned(rules: seq<Option<seq<int>>>, t: int) {
    exists i :: 0 <= i < |rules| && Returns(rules[i], t)
  }

  lemma ReturnedSnoc(rules: seq<Option<seq<int>>>, t: int)
    requires rules != []
    ensures var (init, r) := (rules[..|rules| - 1], rules[|rules| - 1]);
            Returned(rules, t) <==> Returned(init, t) || Returns(r, t)
  {
    var (init, r) := (rules[..|rules| - 1], rules[|rules| - 1]);
    if Returned(init, t) {
      var i :| 0 <= i < |init| && Returns(init[i], t);
      assert Returns(rules[i], t);
    }
    if Returned(rules, t) && !Returns(r, t) {
      var i :| 0 <= i < |rules| && Returns(rules[i], t);
      assert Returns(init[i], t);
    }
  }

  lemma {:induction false} RuleCandidatesReturned(rules: seq<Option<seq<int>>>, end: int, t: int)
    ensures t in RuleCandidates(rules, end) <==> t < end && Returned(rules, t)
  {
    if rules != [] {
      var r := rules[|rules| - 1];
      RuleCandidatesReturned(rules[..|rules| - 1], end, t);
      ReturnedSnoc(rules, t);
      if r.Some? {
        BeforeMembers(r.value, end, t);
      }
    }
  }

  lemma RuleMembers(rules: seq<Option<seq<int>>>, end: int, t: int)
    ensures t in RuleCandidates(rules, end) <==> t < end && exists i :: 0 <= i < |rules| && rules[i].Some? && t in rules[i].value
  {
    RuleCandidatesReturned(rules, end, t);
    if Returned(rules, t) {
      var i :| 0 <= i < |rules| && Returns(rules[i], t);
      assert rules[i].Some? && t in rules[i].value;
    } else {
      assert forall i :: 0 <= i < |rules| ==> !Returns(rules[i], t);
    }
  }

  lemma {:induction false} ExtraMembers(exceptions: seq<Exception>, from: int, end: int, offset: int, t: int)
    ensures t in ExtraCandidates(exceptions, from, end, offset) <==>
              from < t < end && exists e :: e in exceptions && e.kind == Extra && e.date.Some? && t in OnDay(e.Day(offset), e.extraTimes, offset)
  {
    if exceptions != [] {
      var init, e := exceptions[..|exceptions| - 1], exceptions[|exceptions| - 1];
      ExtraMembers(init, from, end, offset, t);
      WithinMembers(OnDay(e.Day(offset), e.extraTimes, offset), from, end, t);
      assert exceptions == init + [e];
    }
  }

  lemma FinalComesFromApplied(c: Config, q: Request, t: int)
    requires t in FinalTimes(c, q)
    ensures t in Applied(CandidateTimes(c, q), q.exceptions, q.offset)
  {
    DedupMembers(Applied(CandidateTimes(c, q), q.exceptions, q.offset), {});
  }

  lemma CandidateTimesAreCandidates(c: Config, q: Request, t: int)
    requires t in CandidateTimes(c, q)
    ensures t in Candidates(c, q)
  {
    DedupMembers(SortTimes(Candidates(c, q)), {});
    SortSorts(Candidates(c, q));
  }

  /** No run falls on a skipped date, unless a candidate was rescheduled to that very time. */
  lemma NoRunOnSkippedDate(c: Config, q: Request, count: int, t: int)
    requires NextRuns(c, q, count).Success? && t in NextRuns(c, q, count).value
    requires Skipped(t, q.exceptions, q.offset)
    ensures exists x :: x in Candidates(c, q) && IsRescheduled(x, t, q.exceptions, q.offset)
  {
    FinalComesFromApplied(c, q, t);
    NothingOnSkippedDates(CandidateTimes(c, q), q.exceptions, q.offset, t);
    var x :| x in CandidateTimes(c, q) && IsRescheduled(x, t, q.exceptions, q.offset);
    CandidateTimesAreCandidates(c, q, x);
  }

  /** Every candidate is represented by a candidate time of its second. */
  lemma Representative(c: Config, q: Request, t: int) returns (x: int)
    requires t in Candidates(c, q)
    ensures x in CandidateTimes(c, q) && Unix(x) == Unix(t)
  {
    var sorted := SortTimes(Candidates(c, q));
    SortSorts(Candidates(c, q));
    assert t in sorted;
    var i :| 0 <= i < |sorted| && sorted[i] == t;
    assert HasSecond(sorted, Unix(t));
    DedupKeepsSeconds(sorted, {}, Unix(t));
    var j :| 0 <= j < |CandidateTimes(c, q)| && Unix(CandidateTimes(c, q)[j]) == Unix(t);
    x := CandidateTimes(c, q)[j];
  }

  /** A candidate time on a date whose last exception is an EXTRA brings every extra time of that
      date, wherever from and the look-ahead window are. */
  lemma ExtraDateBringsAll(c: Config, q: Request, e: Exception, x: int, t: int)
    requires x in CandidateTimes(c, q) && LastOn(q.exceptions, LocalDay(x, q.offset), q.offset) == Some(e) && e.kind == Extra
    requires t in OnDay(LocalDay(x, q.offset), e.extraTimes, q.offset)
    ensures HasSecond(FinalTimes(c, q), Unix(t))
  {
    AppliedOrigin(CandidateTimes(c, q), q.exceptions, q.offset, t);
    var applied := Applied(CandidateTimes(c, q), q.exceptions, q.offset);
    assert t in applied;
    var i :| 0 <= i < |applied| && applied[i] == t;
    assert HasSecond(applied, Unix(t));
    DedupKeepsSeconds(applied, {}, Unix(t));
  }

  lemma WholeSecond(day: int, clock: ClockTime, offset: int) returns (k: int)
    requires clock.Valid() && offset % SECOND == 0
    ensures AtLocal(day, clock.Nanos(), offset) == SECOND * k
    ensures clock.Nanos() <= DAY - SECOND
  {
    var n := clock.hour * 3600 + clock.minute * 60 + clock.second;
    k := day * 86_400 + n - offset / SECOND;
  }

  lemma SecondStart(x: int, k: int)
    requires Unix(x) == Unix(SECOND * k)
    ensures SECOND * k <= x < SECOND * k + SECOND
  {
    assert Unix(SECOND * k) == k;
  }

  /** Two times of one second are on the same local date when one of them is a whole second, as
      every time of day is at an offset of whole seconds. */
  lemma SameSecondSameDay(x: int, offset: int, day: int, clock: ClockTime)
    requires clock.Valid() && offset % SECOND == 0 && Unix(x) == Unix(AtLocal(day, clock.Nanos(), offset))
    ensures LocalDay(x, offset) == day
  {
    var k := WholeSecond(day, clock, offset);
    SecondStart(x, k);
    var d := x - SECOND * k;
    assert x == AtLocal(day, clock.Nanos() + d, offset);
    AtLocalDay(day, clock.Nanos() + d, offset);
  }

  /** Some candidate time lies on the date of an extra time that falls inside the window. */
  lemma ExtraTimeHasCandidate(c: Config, q: Request, e: Exception, t: int) returns (x: int)
    requires AllValid(q.exceptions) && e in q.exceptions && e.kind == Extra && q.offset % SECOND == 0
    requires t in OnDay(e.Day(q.offset), e.extraTimes, q.offset) && q.from < t < SearchEnd(c, q)
    ensures x in CandidateTimes(c, q) && LocalDay(x, q.offset) == e.Day(q.offset)
  {
    var day := e.Day(q.offset);
    assert e.Valid();
    ExtraMembers(q.exceptions, q.from, SearchEnd(c, q), q.offset, t);
    x := Representative(c, q, t);
    var k :| 0 <= k < |e.extraTimes| && t == AtLocal(day, e.extraTimes[k].Nanos(), q.offset);
    SameSecondSameDay(x, q.offset, day, e.extraTimes[k]);
  }

  /** Exactly one time of the sequence falls in this second. */
  predicate ExactlyOnce(s: seq<int>, second: int) {
    exists i :: 0 <= i < |s| && Unix(s[i]) == second && forall j :: 0 <= j < |s| && Unix(s[j]) == second ==> j == i
  }

  /** An extra time inside the window is added both as a candidate and by its exception, and is
      run exactly once, provided that exception is the last one for its date. */
  lemma ExtraTimeRunsOnce(c: Config, q: Request, e: Exception, t: int)
    requires AllValid(q.exceptions) && e in q.exceptions && e.kind == Extra && q.offset % SECOND == 0
    requires t in OnDay(e.Day(q.offset), e.extraTimes, q.offset) && q.from < t < SearchEnd(c, q)
    requires LastOn(q.exceptions, e.Day(q.offset), q.offset) == Some(e)
    ensures ExactlyOnce(FinalTimes(c, q), Unix(t))
  {
    var x := ExtraTimeHasCandidate(c, q, e, t);
    ExtraDateBringsAll(c, q, e, x, t);
    FinalTimesIncrease(c, q);
    var runs := FinalTimes(c, q);
    var i :| 0 <= i < |runs| && Unix(runs[i]) == Unix(t);
    assert forall j :: 0 <= j < |runs| && Unix(runs[j]) == Unix(t) ==> j == i;
  }

  /** The first run is no later than any extra time of a date on which a rule has a candidate. */
  lemma FirstRunNoLaterThanExtra(c: Config, q: Request, e: Exception, clock: ClockTime, t: int)
    requires clock.Valid() && e.kind == Extra && q.offset % SECOND == 0
    requires AtLocal(e.Day(q.offset), clock.Nanos(), q.offset) in Candidates(c, q)
    requires LastOn(q.exceptions, e.Day(q.offset), q.offset) == Some(e)
    requires t in OnDay(e.Day(q.offset), e.extraTimes, q.offset)
    ensures FinalTimes(c, q) != [] && Unix(FinalTimes(c, q)[0]) <= Unix(t)
  {
    var x := Representative(c, q, AtLocal(e.Day(q.offset), clock.Nanos(), q.offset));
    SameSecondSameDay(x, q.offset, e.Day(q.offset), clock);
    ExtraDateBringsAll(c, q, e, x, t);
    FinalTimesIncrease(c, q);
    FirstIsEarliest(FinalTimes(c, q), Unix(t));
  }

  /** Evaluators only return times after the instant they were asked about. */
  predicate RulesAfterFrom(q: Request) {
    forall i :: 0 <= i < |q.rules| && q.rules[i].Some? ==> forall x :: x in q.rules[i].value ==> q.from < x
  }

  lemma NoonIsCandidate(c: Config, e: Exception)
    requires 12 * HOUR < SearchEnd(c, AskedAtTen(e))
    ensures AtLocal(0, ClockTime(12, 0, 0).Nanos(), 0) in Candidates(c, AskedAtTen(e))
  {
    var q := AskedAtTen(e);
    assert ClockTime(12, 0, 0).Nanos() == 12 * HOUR;
    assert q.rules[0].value[0] == 12 * HOUR;
    RuleMembers(q.rules, SearchEnd(c, q), 12 * HOUR);
  }

  /** A rule with one time, at noon, asked at ten. */
  function AskedAtTen(e: Exception): Request {
    Request(10 * HOUR, [Some([12 * HOUR])], [e], 0)
  }

  lemma FirstRunAtOne(c: Config, e: Exception)
    requires 12 * HOUR < SearchEnd(c, AskedAtTen(e)) && e == Exception(Some(0), Extra, None, [ClockTime(1, 0, 0)])
    ensures FinalTimes(c, AskedAtTen(e)) != [] && Unix(FinalTimes(c, AskedAtTen(e))[0]) <= Unix(HOUR)
  {
    NoonIsCandidate(c, e);
    var one := OnDay(0, e.extraTimes, 0)[0];
    assert one == HOUR;
    FirstRunNoLaterThanExtra(c, AskedAtTen(e), e, ClockTime(12, 0, 0), one);
  }

  /** So a run may lie before from: asked at ten, with a rule time at noon and an extra time at one
      on the same date, the first run is at one. */
  lemma ExtraTimesMayBePast() returns (c: Config, q: Request)
    ensures RulesAfterFrom(q) && AllValid(q.exceptions)
    ensures FinalTimes(c, q) != [] && Unix(FinalTimes(c, q)[0]) < Unix(q.from)
  {
    c := Config(1000, 100, 365 * DAY);
    var e := Exception(Some(0), Extra, None, [ClockTime(1, 0, 0)]);
    q := AskedAtTen(e);
    FirstRunAtOne(c, e);
    AskedBeforeNoon(e);
    OneIsBeforeTen();
  }

  lemma AskedBeforeNoon(e: Exception)
    ensures RulesAfterFrom(AskedAtTen(e))
  {
  }

  lemma OneIsBeforeTen()
    ensures Unix(HOUR) < Unix(10 * HOUR)
  {
  }

  lemma FirstIsEarliest(s: seq<int>, second: int)
    requires StrictlyBySecond(s) && HasSecond(s, second)
    ensures s != [] && Unix(s[0]) <= second
  {
    var i :| 0 <= i < |s| && Unix(s[i]) == second;
  }

  // ----- runs outside the window -------------------------------------------------------------------

  lemma CandidatesInWindow(c: Config, q: Request, t: int)
    requires RulesAfterFrom(q) && t in CandidateTimes(c, q)
    ensures q.from < t < SearchEnd(c, q)
  {
    CandidateTimesAreCandidates(c, q, t);
    RuleMembers(q.rules, SearchEnd(c, q), t);
    ExtraMembers(q.exceptions, q.from, SearchEnd(c, q), q.offset, t);
  }

  /** t is an extra time of the date of the candidate time x. */
  predicate IsExtraOf(q: Request, x: int, t: int) {
    t in ExtrasOf(x, q.exceptions, q.offset)
  }

  /** The last exception for this day is an EXTRA with a time on it at or before from. */
  predicate ExtraAtOrBefore(q: Request, day: int) {
    var e := LastOn(q.exceptions, day, q.offset);
    e.Some? && e.value.kind == Extra && exists t :: t in OnDay(day, e.value.extraTimes, q.offset) && t <= q.from
  }

  predicate CandidateOn(c: Config, q: Request, day: int) {
    exists x :: x in CandidateTimes(c, q) && LocalDay(x, q.offset) == day
  }

  ghost predicate RescheduledAtOrBefore(c: Config, q: Request) {
    exists x, t :: x in CandidateTimes(c, q) && IsRescheduled(x, t, q.exceptions, q.offset) && t <= q.from
  }

  /** What leads back: an extra time at or before from, on the local date of from itself, when some
      candidate is on that date; or a reschedule to an instant at or before from. */
  ghost predicate StepsBack(c: Config, q: Request) {
    var today := LocalDay(q.from, q.offset);
    (ExtraAtOrBefore(q, today) && CandidateOn(c, q, today)) || RescheduledAtOrBefore(c, q)
  }

  lemma DayMonotone(s: int, t: int, offset: int)
    requires s <= t
    ensures LocalDay(s, offset) <= LocalDay(t, offset)
  {
  }

  /** An extra time lies on the date it was given for. */
  lemma ExtraOnItsDay(q: Request, x: int, t: int)
    requires AllValid(q.exceptions) && IsExtraOf(q, x, t)
    ensures LocalDay(t, q.offset) == LocalDay(x, q.offset)
  {
    var day := LocalDay(x, q.offset);
    var e := LastOn(q.exceptions, day, q.offset).value;
    assert e.Valid();
    var i :| 0 <= i < |e.extraTimes| && t == AtLocal(day, e.extraTimes[i].Nanos(), q.offset);
    AtLocalDay(day, e.extraTimes[i].Nanos(), q.offset);
  }

  lemma KeptOrigin(q: Request, x: int, t: int)
    requires t in KeptOf(x, q.exceptions, q.offset)
    ensures t == x || IsRescheduled(x, t, q.exceptions, q.offset)
  {
  }

  /** t is an extra time of the date of x, or where x is rescheduled to. */
  predicate Brings(q: Request, x: int, t: int) {
    IsExtraOf(q, x, t) || IsRescheduled(x, t, q.exceptions, q.offset)
  }

  /** Every final time is a candidate time, or some candidate time brings it. */
  lemma FinalOrigin(c: Config, q: Request, t: int)
    requires t in FinalTimes(c, q)
    ensures t in CandidateTimes(c, q) || exists x :: x in CandidateTimes(c, q) && Brings(q, x, t)
  {
    FinalComesFromApplied(c, q, t);
    if q.exceptions != [] {
      AppliedOrigin(CandidateTimes(c, q), q.exceptions, q.offset, t);
      var x :| x in CandidateTimes(c, q) && (t in KeptOf(x, q.exceptions, q.offset) || t in ExtrasOf(x, q.exceptions, q.offset));
      if t in KeptOf(x, q.exceptions, q.offset) {
        KeptOrigin(q, x, t);
      }
      assert t == x || Brings(q, x, t);
    }
  }

  /** An extra time or a target is represented among the final times by one no later. */
  lemma AppliedIsRepresented(c: Config, q: Request, x: int, t: int) returns (u: int)
    requires x in CandidateTimes(c, q) && Brings(q, x, t)
    ensures u in FinalTimes(c, q) && Unix(u) == Unix(t) && u <= t
  {
    var applied := Applied(CandidateTimes(c, q), q.exceptions, q.offset);
    AppliedOrigin(CandidateTimes(c, q), q.exceptions, q.offset, t);
    assert t in KeptOf(x, q.exceptions, q.offset) || t in ExtrasOf(x, q.exceptions, q.offset);
    var i :| 0 <= i < |applied| && applied[i] == t;
    assert HasSecond(applied, Unix(t));
    DedupKeepsSeconds(applied, {}, Unix(t));
    var j :| 0 <= j < |FinalTimes(c, q)| && Unix(FinalTimes(c, q)[j]) == Unix(t);
    u := FinalTimes(c, q)[j];
    AppliedIsSortedContributions(CandidateTimes(c, q), q.exceptions, q.offset);
    DedupKeepsEarliest(applied, {}, t, u);
  }

  lemma PastTimeStepsBack(c: Config, q: Request, t: int)
    requires AllValid(q.exceptions) && RulesAfterFrom(q) && t in FinalTimes(c, q) && t <= q.from
    ensures StepsBack(c, q)
  {
    FinalOrigin(c, q, t);
    if t in CandidateTimes(c, q) {
      CandidatesInWindow(c, q, t);
    }
    var x :| x in CandidateTimes(c, q) && Brings(q, x, t);
    CandidatesInWindow(c, q, x);
    if IsExtraOf(q, x, t) {
      ExtraOnItsDay(q, x, t);
      DayMonotone(t, q.from, q.offset);
      DayMonotone(q.from, x, q.offset);
    }
  }

  /** Exactly when something leads back is a final time at or before from. */
  lemma PastTimesExactly(c: Config, q: Request)
    requires AllValid(q.exceptions) && RulesAfterFrom(q)
    ensures StepsBack(c, q) <==> exists t :: t in FinalTimes(c, q) && t <= q.from
  {
    if t :| t in FinalTimes(c, q) && t <= q.from {
      PastTimeStepsBack(c, q, t);
    }
    if StepsBack(c, q) {
      if RescheduledAtOrBefore(c, q) {
        var x, t :| x in CandidateTimes(c, q) && IsRescheduled(x, t, q.exceptions, q.offset) && t <= q.from;
        var u := AppliedIsRepresented(c, q, x, t);
      } else {
        var today := LocalDay(q.from, q.offset);
        var e := LastOn(q.exceptions, today, q.offset).value;
        var t :| t in OnDay(today, e.extraTimes, q.offset) && t <= q.from;
        var x :| x in CandidateTimes(c, q) && LocalDay(x, q.offset) == today;
        var u := AppliedIsRepresented(c, q, x, t);
      }
    }
  }

  lemma FirstIsLeast(s: seq<int>, t: int)
    requires StrictlyBySecond(s) && t in s
    ensures s[0] <= t
  {
    var i :| 0 <= i < |s| && s[i] == t;
    if t < s[0] {
      UnixMonotone(t, s[0]);
    }
  }

  /** So of a successful result the first run is at or before from exactly then. */
  lemma FirstRunIsPastExactly(c: Config, q: Request, count: int)
    requires RulesAfterFrom(q) && NextRuns(c, q, count).Success?
    ensures var runs := NextRuns(c, q, count).value;
            runs != [] && runs[0] <= q.from <==> StepsBack(c, q)
  {
    PastTimesExactly(c, q);
    FinalTimesIncrease(c, q);
    if StepsBack(c, q) {
      var t :| t in FinalTimes(c, q) && t <= q.from;
      FirstIsLeast(FinalTimes(c, q), t);
    }
    if NextRuns(c, q, count).value != [] {
      assert NextRuns(c, q, count).value[0] == FinalTimes(c, q)[0] && FinalTimes(c, q)[0] in FinalTimes(c, q);
    }
  }

  /** An extra time or a reschedule leads to the end of the look-ahead or beyond. */
  ghost predicate StepsBeyond(c: Config, q: Request) {
    exists x, t :: x in CandidateTimes(c, q) && Brings(q, x, t) && SearchEnd(c, q) <= t
  }

  /** If the look-ahead ends with a second, something leads beyond it exactly when some final time
      does not lie before its end. (Otherwise such a time can give way to one of the same second
      that does.) */
  lemma LateTimesExactly(c: Config, q: Request)
    requires RulesAfterFrom(q) && SearchEnd(c, q) % SECOND == 0
    ensures StepsBeyond(c, q) <==> exists t :: t in FinalTimes(c, q) && SearchEnd(c, q) <= t
  {
    if StepsBeyond(c, q) {
      var x, t :| x in CandidateTimes(c, q) && Brings(q, x, t) && SearchEnd(c, q) <= t;
      var u := AppliedIsRepresented(c, q, x, t);
      NotBeforeWholeSecond(SearchEnd(c, q), t, u);
    }
    if t :| t in FinalTimes(c, q) && SearchEnd(c, q) <= t {
      LateTimeStepsBeyond(c, q, t);
    }
  }

  lemma NotBeforeWholeSecond(start: int, t: int, u: int)
    requires start % SECOND == 0 && start <= t && Unix(u) == Unix(t)
    ensures start <= u
  {
  }

  lemma LateTimeStepsBeyond(c: Config, q: Request, t: int)
    requires RulesAfterFrom(q) && t in FinalTimes(c, q) && SearchEnd(c, q) <= t
    ensures StepsBeyond(c, q)
  {
    FinalOrigin(c, q, t);
    if t in CandidateTimes(c, q) {
      CandidatesInWindow(c, q, t);
    }
  }

  /** Every run lies strictly after from unless something leads back, and inside the look-ahead
      unless something leads beyond it. */
  lemma RunsStayInWindow(c: Config, q: Request, count: int, t: int)
    requires NextRuns(c, q, count).Success? && t in NextRuns(c, q, count).value
    requires RulesAfterFrom(q)
    ensures !StepsBack(c, q) ==> q.from < t
    ensures !StepsBeyond(c, q) ==> t < SearchEnd(c, q)
  {
    PastTimesExactly(c, q);
    FinalOrigin(c, q, t);
    if t in CandidateTimes(c, q) {
      CandidatesInWindow(c, q, t);
    }
  }

  /** With SKIP exceptions only, nothing does either. */
  lemma SkipsStayInWindow(c: Config, q: Request)
    requires forall e :: e in q.exceptions ==> e.kind == Skip
    ensures !StepsBack(c, q) && !StepsBeyond(c, q)
  {
  }
}
