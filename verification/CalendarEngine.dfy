/** The calendar engine: candidates of all rules and EXTRA exceptions, sorted, deduplicated by
    second, passed through the exceptions, deduplicated again and cut to the requested count. */
module CalendarEngine {
  import opened Wrappers
  import opened CalendarTimes
  import opened CalendarExceptions
  import opened Sequences

  datatype Config = Config(maxFutureCalculations: nat, maxPreviewCount: int, maxLookahead: int)

  datatype EngineError = CountNotPositive | CountTooLarge | InvalidSchedule | NoExecutionTime

  /** What a schedule asks for at one instant: for each rule the times its evaluator returned, or
      None if the evaluator failed; the exceptions; and the offset of the schedule's time zone. */
  datatype Request = Request(from: int, rules: seq<Option<seq<int>>>, exceptions: seq<Exception>, offset: int)

  function SearchEnd(c: Config, q: Request): int {
    q.from + c.maxLookahead
  }

  // ----- candidates --------------------------------------------------------------------------

  function Before(times: seq<int>, end: int): seq<int> {
    if times == [] then []
    else
      var t := times[|times| - 1];
      Before(times[..|times| - 1], end) + if t < end then [t] else []
  }

  function RuleCandidates(rules: seq<Option<seq<int>>>, end: int): seq<int> {
    if rules == [] then []
    else
      var r := rules[|rules| - 1];
      RuleCandidates(rules[..|rules| - 1], end) + if r.Some? then Before(r.value, end) else []
  }

  function Within(times: seq<int>, from: int, end: int): seq<int> {
    if times == [] then []
    else
      var t := times[|times| - 1];
      Within(times[..|times| - 1], from, end) + if from < t < end then [t] else []
  }

  function ExtraCandidatesOf(e: Exception, from: int, end: int, offset: int): seq<int> {
    if e.kind != Extra || e.date.None? then []
    else Within(OnDay(e.Day(offset), e.extraTimes, offset), from, end)
  }

  function ExtraCandidates(exceptions: seq<Exception>, from: int, end: int, offset: int): seq<int> {
    if exceptions == [] then []
    else ExtraCandidates(exceptions[..|exceptions| - 1], from, end, offset)
         + ExtraCandidatesOf(exceptions[|exceptions| - 1], from, end, offset)
  }

  function Candidates(c: Config, q: Request): seq<int> {
    RuleCandidates(q.rules, SearchEnd(c, q)) + ExtraCandidates(q.exceptions, q.from, SearchEnd(c, q), q.offset)
  }

  function CandidateTimes(c: Config, q: Request): seq<int> {
    Dedup(SortTimes(Candidates(c, q)), {})
  }

  /** All execution times of a request, before the count is applied. */
  function FinalTimes(c: Config, q: Request): seq<int> {
    Dedup(Applied(CandidateTimes(c, q), q.exceptions, q.offset), {})
  }

  function NextRuns(c: Config, q: Request, count: int): Result<seq<int>, EngineError> {
    if count <= 0 then Failure(CountNotPositive)
    else if count > c.maxPreviewCount then Failure(CountTooLarge)
    else if !AllValid(q.exceptions) then Failure(InvalidSchedule)
    else if Candidates(c, q) == [] then Failure(NoExecutionTime)
    else Success(Take(FinalTimes(c, q), count))
  }

  // ----- the engine's loops --------------------------------------------------------------------

  method RemoveDuplicateTimes(times: seq<int>) returns (result: seq<int>)
    ensures result == Dedup(times, {})
  {
    if |times| <= 1 {
      return times;
    }
    var seen: set<int> := {};
    result := [];
    for i := 0 to |times|
      invariant result + Dedup(times[i..], seen) == Dedup(times, {})
    {
      var key := Unix(times[i]);
      assert times[i..][1..] == times[i + 1..];
      if key !in seen {
        seen := seen + {key};
        result := result + [times[i]];
      }
    }
  }

  method CollectRules(rules: seq<Option<seq<int>>>, end: int) returns (all: seq<int>)
    ensures all == RuleCandidates(rules, end)
  {
    all := [];
    for i := 0 to |rules|
      invariant all == RuleCandidates(rules[..i], end)
    {
      assert rules[..i + 1][..i] == rules[..i];
      if rules[i].None? {
        continue;
      }
      var ruleTimes := rules[i].value;
      ghost var before := all;
      for j := 0 to |ruleTimes|
        invariant all == before + Before(ruleTimes[..j], end)
      {
        assert ruleTimes[..j + 1][..j] == ruleTimes[..j];
        if ruleTimes[j] < end {
          all := all + [ruleTimes[j]];
        }
      }
      assert ruleTimes[..|ruleTimes|] == ruleTimes;
    }
    assert rules[..|rules|] == rules;
  }

  method AppendWithin(before: seq<int>, extras: seq<int>, from: int, end: int) returns (all: seq<int>)
    ensures all == before + Within(extras, from, end)
  {
    all := before;
    for j := 0 to |extras|
      invariant all == before + Within(extras[..j], from, end)
    {
      assert extras[..j + 1][..j] == extras[..j];
      if from < extras[j] && extras[j] < end {
        all := all + [extras[j]];
      }
    }
    assert extras[..|extras|] == extras;
  }

  method CollectExtras(exceptions: seq<Exception>, from: int, end: int, offset: int) returns (all: seq<int>)
    ensures all == ExtraCandidates(exceptions, from, end, offset)
  {
    all := [];
    for i := 0 to |exceptions|
      invariant all == ExtraCandidates(exceptions[..i], from, end, offset)
    {
      assert exceptions[..i + 1][..i] == exceptions[..i];
      var exception := exceptions[i];
      if exception.kind != Extra || exception.date.None? {
        continue;
      }
      var extras := OnDay(exception.Day(offset), exception.extraTimes, offset);
      all := AppendWithin(all, extras, from, end);
    }
    assert exceptions[..|exceptions|] == exceptions;
  }

  method CalculateNextRuns(c: Config, q: Request, count: int) returns (result: Result<seq<int>, EngineError>)
    ensures result == NextRuns(c, q, count)
  {
    if count <= 0 {
      return Failure(CountNotPositive);
    }
    if count > c.maxPreviewCount {
      return Failure(CountTooLarge);
    }
    if !AllValid(q.exceptions) {
      return Failure(InvalidSchedule);
    }
    var searchEnd := q.from + c.maxLookahead;
    var fromRules := CollectRules(q.rules, searchEnd);
    var fromExtras := CollectExtras(q.exceptions, q.from, searchEnd, q.offset);
    var allCandidates := fromRules + fromExtras;
    assert allCandidates == Candidates(c, q);
    if allCandidates == [] {
      return Failure(NoExecutionTime);
    }
    allCandidates := SortTimes(allCandidates);
    var candidateTimes := RemoveDuplicateTimes(allCandidates);
    var finalTimes := ApplyExceptions(candidateTimes, q.exceptions, q.offset);
    finalTimes := RemoveDuplicateTimes(finalTimes);
    assert finalTimes == FinalTimes(c, q);
    if |finalTimes| > count {
      finalTimes := finalTimes[..count];
    }
    return Success(finalTimes);
  }

  method CalculateNextRun(c: Config, q: Request) returns (result: Result<int, EngineError>)
    ensures var runs := NextRuns(c, q, 1);
            result == if runs.Failure? then Failure(runs.error)
                      else if runs.value == [] then Failure(NoExecutionTime)
                      else Success(runs.value[0])
  {
    var times := CalculateNextRuns(c, q, 1);
    if times.Failure? {
      return Failure(times.error);
    }
    if times.value == [] {
      return Failure(NoExecutionTime);
    }
    return Success(times.value[0]);
  }
}
