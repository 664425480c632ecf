/** What the calendar computes, in terms of the schedule alone: which instants are candidates, what
    becomes of each under the exceptions, and which of them are run. */
module CalendarMeaning {
  import opened Clock
  import opened Wrappers
  import opened CalendarTimes
  import opened CalendarExceptions
  import opened CalendarEngine
  import opened CalendarGuarantees
  import opened Sequences

  // ----- units -------------------------------------------------------------------------------------

  /** Seconds and local dates are those that contain the instant. */
  lemma UnitsContain(t: int, offset: int)
    ensures Unix(t) * 1_000_000_000 <= t < (Unix(t) + 1) * 1_000_000_000
    ensures LocalDay(t, offset) * 86_400_000_000_000 <= t + offset < (LocalDay(t, offset) + 1) * 86_400_000_000_000
    ensures TimeOfDayOf(t, offset) == t + offset - LocalDay(t, offset) * 86_400_000_000_000
  {
  }

  /** A valid time of day is its hours, minutes and seconds after midnight. */
  lemma ClockTimeParts(clock: ClockTime)
    requires clock.Valid()
    ensures clock.Nanos() == clock.hour * 3_600_000_000_000 + clock.minute * 60_000_000_000 + clock.second * 1_000_000_000
    ensures clock.Nanos() / HOUR == clock.hour && clock.Nanos() % HOUR / MINUTE == clock.minute
  {
    assert 0 <= clock.minute * MINUTE + clock.second * SECOND < HOUR;
    var rest := clock.minute * MINUTE + clock.second * SECOND;
    assert clock.Nanos() == HOUR * clock.hour + rest;
    assert rest == MINUTE * clock.minute + clock.second * SECOND;
  }

  // ----- what becomes of one time ------------------------------------------------------------------

  /** The exception at i is given for this date, and none after it is. */
  predicate Decides(exceptions: seq<Exception>, i: nat, day: int, offset: int) {
    && i < |exceptions| && LocalDay(exceptions[i].date.GetOr(0), offset) == day
    && forall j :: i < j < |exceptions| ==> LocalDay(exceptions[j].date.GetOr(0), offset) != day
  }

  predicate NoneFor(exceptions: seq<Exception>, day: int, offset: int) {
    forall i :: 0 <= i < |exceptions| ==> LocalDay(exceptions[i].date.GetOr(0), offset) != day
  }

  /** The instant a time is rescheduled to: its own time of day on the target's date if the target
      is a whole (UTC) date, else the target. */
  predicate RescheduledTo(t: int, to: int, offset: int, u: int) {
    if to % DAY == 0 then u == to + (t + offset) % DAY - offset else u == to
  }

  /** An exception turns t into u, or adds u for its date. */
  predicate Makes(e: Exception, t: int, offset: int, u: int) {
    match e.kind
    case Skip => false
    case Reschedule => e.rescheduleTo.Some? && RescheduledTo(t, e.rescheduleTo.value, offset, u)
    case Extra => u == t || IsExtraTime(e, LocalDay(t, offset), offset, u)
    case Unknown => u == t
  }

  predicate IsExtraTime(e: Exception, day: int, offset: int, u: int) {
    exists k :: 0 <= k < |e.extraTimes| && u == day * DAY + e.extraTimes[k].Nanos() - offset
  }

  /** A time without an exception for its date stays; otherwise the last one given for it decides. */
  ghost predicate Becomes(exceptions: seq<Exception>, offset: int, t: int, u: int) {
    var day := LocalDay(t, offset);
    (NoneFor(exceptions, day, offset) && u == t)
    || exists i :: 0 <= i < |exceptions| && Decides(exceptions, i, day, offset) && Makes(exceptions[i], t, offset, u)
  }

  lemma {:induction false} LastOnDecides(exceptions: seq<Exception>, i: nat, day: int, offset: int)
    requires Decides(exceptions, i, day, offset)
    ensures LastOn(exceptions, day, offset) == Some(exceptions[i])
  {
    var n := |exceptions| - 1;
    if i < n {
      assert exceptions[n].Day(offset) != day;
      assert forall j :: 0 <= j < n ==> exceptions[..n][j] == exceptions[j];
      LastOnDecides(exceptions[..n], i, day, offset);
    }
  }

  lemma {:induction false} DecidedOrNone(exceptions: seq<Exception>, day: int, offset: int)
    ensures NoneFor(exceptions, day, offset) || exists i :: 0 <= i < |exceptions| && Decides(exceptions, i, day, offset)
    ensures NoneFor(exceptions, day, offset) ==> LastOn(exceptions, day, offset) == None
  {
    if exceptions != [] {
      var n := |exceptions| - 1;
      var init := exceptions[..n];
      assert forall j :: 0 <= j < n ==> init[j] == exceptions[j];
      DecidedOrNone(init, day, offset);
      if exceptions[n].Day(offset) == day {
        assert Decides(exceptions, n, day, offset);
      } else if i :| 0 <= i < |init| && Decides(init, i, day, offset) {
        assert Decides(exceptions, i, day, offset);
      }
    }
  }

  lemma OnDayMembers(e: Exception, day: int, offset: int, u: int)
    ensures u in OnDay(day, e.extraTimes, offset) <==> IsExtraTime(e, day, offset, u)
  {
    var r := OnDay(day, e.extraTimes, offset);
    if k :| 0 <= k < |e.extraTimes| && u == day * DAY + e.extraTimes[k].Nanos() - offset {
      assert r[k] == u;
    }
    if u in r {
      var k :| 0 <= k < |r| && r[k] == u;
      assert u == day * DAY + e.extraTimes[k].Nanos() - offset;
    }
  }

  lemma TargetIs(t: int, to: int, offset: int, u: int)
    ensures u == Target(t, to, offset) <==> RescheduledTo(t, to, offset, u)
  {
    assert to % DAY == 0 ==> to / DAY * DAY == to;
  }

  /** The contribution of one time is what the schedule says becomes of it. */
  lemma ContributionIs(exceptions: seq<Exception>, offset: int, t: int, u: int)
    ensures u in KeptOf(t, exceptions, offset) || u in ExtrasOf(t, exceptions, offset) <==> Becomes(exceptions, offset, t, u)
  {
    var day := LocalDay(t, offset);
    DecidedOrNone(exceptions, day, offset);
    if !NoneFor(exceptions, day, offset) {
      var i :| 0 <= i < |exceptions| && Decides(exceptions, i, day, offset);
      var e := exceptions[i];
      LastOnDecides(exceptions, i, day, offset);
      forall j | 0 <= j < |exceptions| && Decides(exceptions, j, day, offset)
        ensures j == i
      {
      }
      OnDayMembers(e, day, offset, u);
      TargetIs(t, e.rescheduleTo.GetOr(0), offset, u);
      assert Becomes(exceptions, offset, t, u) <==> Makes(e, t, offset, u);
    }
  }

  /** And it makes each of these once: nothing twice but extra times that are given twice. */
  lemma ContributionCount(exceptions: seq<Exception>, offset: int, t: int, i: nat)
    ensures NoneFor(exceptions, LocalDay(t, offset), offset) ==>
              |KeptOf(t, exceptions, offset)| == 1 && |ExtrasOf(t, exceptions, offset)| == 0
    ensures Decides(exceptions, i, LocalDay(t, offset), offset) ==>
              var e := exceptions[i];
              && |KeptOf(t, exceptions, offset)| == (if e.kind == Skip || (e.kind == Reschedule && e.rescheduleTo.None?) then 0 else 1)
              && |ExtrasOf(t, exceptions, offset)| == (if e.kind == Extra then |e.extraTimes| else 0)
  {
    DecidedOrNone(exceptions, LocalDay(t, offset), offset);
    if Decides(exceptions, i, LocalDay(t, offset), offset) {
      LastOnDecides(exceptions, i, LocalDay(t, offset), offset);
    }
  }

  /** Applying the exceptions gives exactly what becomes of the times. */
  lemma AppliedExactly(times: seq<int>, exceptions: seq<Exception>, offset: int, u: int)
    ensures u in Applied(times, exceptions, offset) <==> exists t :: t in times && Becomes(exceptions, offset, t, u)
  {
    if exceptions == [] {
      assert forall t :: Becomes(exceptions, offset, t, u) <==> u == t;
    } else {
      AppliedOrigin(times, exceptions, offset, u);
      forall t
        ensures Becomes(exceptions, offset, t, u) <==> u in KeptOf(t, exceptions, offset) || u in ExtrasOf(t, exceptions, offset)
      {
        ContributionIs(exceptions, offset, t, u);
      }
    }
  }

  /** In particular an ordinary time, on a date no exception is given for, stays. */
  lemma OrdinaryTimeStays(times: seq<int>, exceptions: seq<Exception>, offset: int, t: int)
    requires t in times && forall i :: 0 <= i < |exceptions| ==> LocalDay(exceptions[i].date.GetOr(0), offset) != LocalDay(t, offset)
    ensures t in Applied(times, exceptions, offset)
  {
    AppliedExactly(times, exceptions, offset, t);
    assert Becomes(exceptions, offset, t, t);
  }

  // ----- candidates ----------------------------------------------------------------------------------

  /** Returned by a rule that did not fail, before the end of the look-ahead; or an extra time of
      any dated EXTRA exception, after from and before that end. */
  ghost predicate IsCandidate(c: Config, q: Request, t: int) {
    && t < q.from + c.maxLookahead
    && ((exists i :: 0 <= i < |q.rules| && q.rules[i].Some? && t in q.rules[i].value)
        || (q.from < t && exists i :: 0 <= i < |q.exceptions| && GivesExtra(q.exceptions[i], q.offset, t)))
  }

  predicate GivesExtra(e: Exception, offset: int, t: int) {
    e.kind == Extra && e.date.Some? && IsExtraTime(e, LocalDay(e.date.value, offset), offset, t)
  }

  lemma CandidatesExactly(c: Config, q: Request, t: int)
    ensures t in Candidates(c, q) <==> IsCandidate(c, q, t)
  {
    RuleMembers(q.rules, SearchEnd(c, q), t);
    ExtraMembers(q.exceptions, q.from, SearchEnd(c, q), q.offset, t);
    if e :| e in q.exceptions && e.kind == Extra && e.date.Some? && t in OnDay(e.Day(q.offset), e.extraTimes, q.offset) {
      var i :| 0 <= i < |q.exceptions| && q.exceptions[i] == e;
      OnDayMembers(e, e.Day(q.offset), q.offset, t);
      assert GivesExtra(q.exceptions[i], q.offset, t);
    }
    if i :| 0 <= i < |q.exceptions| && GivesExtra(q.exceptions[i], q.offset, t) {
      var e := q.exceptions[i];
      OnDayMembers(e, e.Day(q.offset), q.offset, t);
      assert e in q.exceptions;
    }
  }

  /** Of sorted times, exactly the earliest of each second remain. */
  lemma DedupExactly(s: seq<int>, t: int)
    requires Sorted(s)
    ensures t in Dedup(s, {}) <==> t in s && forall u :: u in s && Unix(u) == Unix(t) ==> t <= u
  {
    DedupMembers(s, {});
    if t in Dedup(s, {}) {
      forall u | u in s && Unix(u) == Unix(t)
        ensures t <= u
      {
        DedupKeepsEarliest(s, {}, u, t);
      }
    }
    if t in s && forall u :: u in s && Unix(u) == Unix(t) ==> t <= u {
      var i :| 0 <= i < |s| && s[i] == t;
      assert HasSecond(s, Unix(t));
      DedupKeepsSeconds(s, {}, Unix(t));
      var j :| 0 <= j < |Dedup(s, {})| && Unix(Dedup(s, {})[j]) == Unix(t);
      var u := Dedup(s, {})[j];
      assert u in Dedup(s, {});
      DedupKeepsEarliest(s, {}, t, u);
    }
  }

  /** The earliest candidate of its second. */
  ghost predicate IsCandidateTime(c: Config, q: Request, t: int) {
    IsCandidate(c, q, t) && forall u :: IsCandidate(c, q, u) && Unix(u) == Unix(t) ==> t <= u
  }

  lemma CandidateTimesExactly(c: Config, q: Request, t: int)
    ensures t in CandidateTimes(c, q) <==> IsCandidateTime(c, q, t)
  {
    SortSorts(Candidates(c, q));
    DedupExactly(SortTimes(Candidates(c, q)), t);
    forall u
      ensures u in SortTimes(Candidates(c, q)) <==> IsCandidate(c, q, u)
    {
      CandidatesExactly(c, q, u);
    }
  }

  // ----- the final times -----------------------------------------------------------------------------

  /** Some candidate time becomes u. */
  ghost predicate IsProduced(c: Config, q: Request, u: int) {
    exists t :: IsCandidateTime(c, q, t) && Becomes(q.exceptions, q.offset, t, u)
  }

  lemma ProducedExactly(c: Config, q: Request, u: int)
    ensures u in Applied(CandidateTimes(c, q), q.exceptions, q.offset) <==> IsProduced(c, q, u)
  {
    AppliedExactly(CandidateTimes(c, q), q.exceptions, q.offset, u);
    if t :| t in CandidateTimes(c, q) && Becomes(q.exceptions, q.offset, t, u) {
      CandidateTimesExactly(c, q, t);
    }
    if t :| IsCandidateTime(c, q, t) && Becomes(q.exceptions, q.offset, t, u) {
      CandidateTimesExactly(c, q, t);
    }
  }

  lemma AppliedIsSorted(c: Config, q: Request)
    ensures Sorted(Applied(CandidateTimes(c, q), q.exceptions, q.offset))
  {
    if q.exceptions == [] {
      FinalTimesIncrease(c, q);
      SortSorts(Candidates(c, q));
      DedupIncreases(SortTimes(Candidates(c, q)), {});
      IncreasingIsSorted(CandidateTimes(c, q));
    } else {
      AppliedIsSortedContributions(CandidateTimes(c, q), q.exceptions, q.offset);
    }
  }

  /** The final times are exactly the earliest of each second of what becomes of the candidate
      times, in strictly increasing seconds. This determines the result of every request. */
  lemma FinalTimesExactly(c: Config, q: Request, u: int)
    ensures u in FinalTimes(c, q) <==>
              IsProduced(c, q, u) && forall v :: IsProduced(c, q, v) && Unix(v) == Unix(u) ==> u <= v
    ensures StrictlyBySecond(FinalTimes(c, q))
  {
    AppliedIsSorted(c, q);
    FinalTimesIncrease(c, q);
    DedupExactly(Applied(CandidateTimes(c, q), q.exceptions, q.offset), u);
    forall v
      ensures v in Applied(CandidateTimes(c, q), q.exceptions, q.offset) <==> IsProduced(c, q, v)
    {
      ProducedExactly(c, q, v);
    }
  }

  /** A candidate time on a date without an exception is run, if enough runs are asked for. */
  lemma OrdinaryCandidateIsRun(c: Config, q: Request, t: int)
    requires IsCandidateTime(c, q, t)
    requires forall i :: 0 <= i < |q.exceptions| ==> LocalDay(q.exceptions[i].date.GetOr(0), q.offset) != LocalDay(t, q.offset)
    ensures HasSecond(FinalTimes(c, q), Unix(t))
  {
    CandidateTimesExactly(c, q, t);
    OrdinaryTimeStays(CandidateTimes(c, q), q.exceptions, q.offset, t);
    var applied := Applied(CandidateTimes(c, q), q.exceptions, q.offset);
    var i :| 0 <= i < |applied| && applied[i] == t;
    assert HasSecond(applied, Unix(t));
    DedupKeepsSeconds(applied, {}, Unix(t));
  }

  // ----- outcomes ------------------------------------------------------------------------------------

  /** An exception that passes validation: dated; a RESCHEDULE says where to, an EXTRA has times, all
      of them times of day; no other kind but SKIP. */
  predicate IsWellFormed(e: Exception) {
    && e.date.Some? && e.kind != Unknown
    && (e.kind == Reschedule ==> e.rescheduleTo.Some?)
    && (e.kind == Extra ==>
          |e.extraTimes| > 0 && forall k :: 0 <= k < |e.extraTimes| ==>
            0 <= e.extraTimes[k].hour < 24 && 0 <= e.extraTimes[k].minute < 60 && 0 <= e.extraTimes[k].second < 60)
  }

  /** A request succeeds exactly with a count in range, well-formed exceptions and a candidate, and
      then returns the final times in order, up to the count; otherwise the first of these that is
      missing is the error. */
  lemma OutcomeExactly(c: Config, q: Request, count: int)
    ensures var wellFormed := forall i :: 0 <= i < |q.exceptions| ==> IsWellFormed(q.exceptions[i]);
            var r := NextRuns(c, q, count);
            && (r == Failure(CountNotPositive) <==> count <= 0)
            && (r == Failure(CountTooLarge) <==> 0 < count && c.maxPreviewCount < count)
            && (r == Failure(InvalidSchedule) <==> 0 < count <= c.maxPreviewCount && !wellFormed)
            && (r == Failure(NoExecutionTime) <==>
                  0 < count <= c.maxPreviewCount && wellFormed && forall t :: !IsCandidate(c, q, t))
            && (r.Success? ==>
                  && (count <= |FinalTimes(c, q)| ==> r.value == FinalTimes(c, q)[..count])
                  && (|FinalTimes(c, q)| <= count ==> r.value == FinalTimes(c, q)))
  {
    forall i | 0 <= i < |q.exceptions|
      ensures q.exceptions[i].Valid() <==> IsWellFormed(q.exceptions[i])
    {
    }
    forall t
      ensures t in Candidates(c, q) <==> IsCandidate(c, q, t)
    {
      CandidatesExactly(c, q, t);
    }
    if Candidates(c, q) != [] {
      assert Candidates(c, q)[0] in Candidates(c, q);
    }
  }
}
