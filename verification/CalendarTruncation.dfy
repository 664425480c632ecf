/** Asking every rule for its first times only, instead of all of them, loses nothing. */
module CalendarTruncation {
  import opened Clock
  import opened Wrappers
  import opened CalendarTimes
  import opened CalendarEngine
  import opened CalendarGuarantees
  import opened Sequences

  /** What an evaluator returns when asked for n times of a rule that occurs at the instants occ,
      in seconds of their own: the first n after from, or all if there are fewer. */
  ghost predicate FirstOccurrences(occ: int -> bool, from: int, n: nat, r: seq<int>) {
    && |r| <= n
    && StrictlyBySecond(r)
    && (forall i :: 0 <= i < |r| ==> occ(r[i]) && from < r[i])
    && (forall t :: occ(t) && from < t && t !in r ==> |r| == n && forall i :: 0 <= i < |r| ==> Unix(r[i]) < Unix(t))
  }

  /** Every rule whose evaluator did not fail returned its first occurrences. */
  ghost predicate Evaluated(occ: seq<int -> bool>, q: Request, n: nat) {
    && |occ| == |q.rules|
    && forall i :: 0 <= i < |occ| && q.rules[i].Some? ==> FirstOccurrences(occ[i], q.from, n, q.rules[i].value)
  }

  /** t is an occurrence of some working rule inside the look-ahead window, in the full streams. */
  ghost predicate Occurs(occ: seq<int -> bool>, c: Config, q: Request, t: int)
    requires |occ| == |q.rules|
  {
    q.from < t < SearchEnd(c, q) && exists i :: 0 <= i < |occ| && q.rules[i].Some? && occ[i](t)
  }

  /** s is what the full streams give: its times are occurrences, in increasing seconds, each the
      earliest of its second; and no occurrence is missing, except after the last of count times. */
  ghost predicate FirstOfUnion(occ: seq<int -> bool>, c: Config, q: Request, count: nat, s: seq<int>)
    requires |occ| == |q.rules|
  {
    && |s| <= count
    && StrictlyBySecond(s)
    && (forall t :: t in s ==> Occurs(occ, c, q, t))
    && (forall t :: Occurs(occ, c, q, t) ==> Covered(s, count, t))
  }

  /** The second of t is in s, by a time no later than t; or s is full before it. */
  predicate Covered(s: seq<int>, count: nat, t: int) {
    (exists i :: 0 <= i < |s| && Unix(s[i]) == Unix(t) && s[i] <= t)
    || (0 < |s| == count && Unix(s[count - 1]) < Unix(t))
  }

  lemma NoExtras(c: Config, q: Request, t: int)
    requires q.exceptions == []
    ensures t in Candidates(c, q) <==> t in RuleCandidates(q.rules, SearchEnd(c, q))
  {
  }

  /** An occurrence is a candidate, or comes after maxFutureCalculations candidates of its rule. */
  lemma OccurrenceOrFullRule(occ: seq<int -> bool>, c: Config, q: Request, t: int) returns (i: nat)
    requires q.exceptions == [] && Evaluated(occ, q, c.maxFutureCalculations) && Occurs(occ, c, q, t)
    ensures t in Candidates(c, q) ||
            (i < |q.rules| && q.rules[i].Some? && |q.rules[i].value| == c.maxFutureCalculations
             && StrictlyBySecond(q.rules[i].value)
             && forall k :: 0 <= k < |q.rules[i].value| ==> q.rules[i].value[k] in Candidates(c, q) && Unix(q.rules[i].value[k]) < Unix(t))
  {
    i :| 0 <= i < |occ| && q.rules[i].Some? && occ[i](t);
    var r := q.rules[i].value;
    RuleMembers(q.rules, SearchEnd(c, q), t);
    assert FirstOccurrences(occ[i], q.from, c.maxFutureCalculations, r);
    if t !in r {
      forall k | 0 <= k < |r|
        ensures r[k] in Candidates(c, q) && Unix(r[k]) < Unix(t)
      {
        assert r[k] < t by {
          if t <= r[k] {
            UnixMonotone(t, r[k]);
          }
        }
        RuleMembers(q.rules, SearchEnd(c, q), r[k]);
      }
    }
  }

  /** A candidate has a representative among the candidate times, no later than itself. */
  lemma EarliestRepresentative(c: Config, q: Request, t: int)
    requires t in Candidates(c, q)
    ensures exists j :: 0 <= j < |CandidateTimes(c, q)| && Unix(CandidateTimes(c, q)[j]) == Unix(t) && CandidateTimes(c, q)[j] <= t
  {
    var x := Representative(c, q, t);
    SortSorts(Candidates(c, q));
    DedupKeepsEarliest(SortTimes(Candidates(c, q)), {}, t, x);
    var j :| 0 <= j < |CandidateTimes(c, q)| && CandidateTimes(c, q)[j] == x;
  }

  /** Without exceptions the final times are the candidate times. */
  lemma FinalIsCandidateTimes(c: Config, q: Request)
    requires q.exceptions == []
    ensures FinalTimes(c, q) == CandidateTimes(c, q) && StrictlyBySecond(CandidateTimes(c, q))
  {
    SortSorts(Candidates(c, q));
    DedupIncreases(SortTimes(Candidates(c, q)), {});
    DedupOfIncreasing(CandidateTimes(c, q), {});
  }

  lemma {:induction false} DedupOfIncreasing(s: seq<int>, seen: set<int>)
    requires StrictlyBySecond(s) && forall i :: 0 <= i < |s| ==> Unix(s[i]) !in seen
    ensures Dedup(s, seen) == s
  {
    if s != [] {
      DedupOfIncreasing(s[1..], seen + {Unix(s[0])});
    }
  }

  lemma CandidateCovered(all: seq<int>, count: nat, t: int, j: nat)
    requires StrictlyBySecond(all) && j < |all| && Unix(all[j]) == Unix(t) && all[j] <= t && 0 < count
    ensures Covered(Take(all, count), count, t)
  {
    if j < count {
      assert Take(all, count)[j] == all[j];
    }
  }

  lemma FullRuleCovers(all: seq<int>, r: seq<int>, count: nat, t: int)
    requires StrictlyBySecond(all) && StrictlyBySecond(r) && 0 < count <= |r|
    requires forall k :: 0 <= k < |r| ==> HasSecond(all, Unix(r[k])) && Unix(r[k]) < Unix(t)
    ensures Covered(Take(all, count), count, t)
  {
    DrawnFromAbove(r, all, count - 1);
  }

  /** Every occurrence is covered by the first count candidate times. */
  lemma OccurrenceCovered(occ: seq<int -> bool>, c: Config, q: Request, count: nat, t: int)
    requires q.exceptions == [] && Evaluated(occ, q, c.maxFutureCalculations) && Occurs(occ, c, q, t)
    requires 0 < count <= c.maxFutureCalculations
    requires StrictlyBySecond(CandidateTimes(c, q))
    ensures Covered(Take(CandidateTimes(c, q), count), count, t)
    ensures Candidates(c, q) != []
  {
    var all := CandidateTimes(c, q);
    var i := OccurrenceOrFullRule(occ, c, q, t);
    if t in Candidates(c, q) {
      EarliestRepresentative(c, q, t);
      var j :| 0 <= j < |all| && Unix(all[j]) == Unix(t) && all[j] <= t;
      CandidateCovered(all, count, t, j);
    } else {
      var r := q.rules[i].value;
      forall k | 0 <= k < |r|
        ensures HasSecond(all, Unix(r[k]))
      {
        EarliestRepresentative(c, q, r[k]);
      }
      FullRuleCovers(all, r, count, t);
      assert r[0] in Candidates(c, q);
    }
  }

  /** Without exceptions every candidate is an occurrence. */
  lemma CandidatesOccur(occ: seq<int -> bool>, c: Config, q: Request, t: int)
    requires q.exceptions == [] && Evaluated(occ, q, c.maxFutureCalculations) && t in Candidates(c, q)
    ensures Occurs(occ, c, q, t)
  {
    NoExtras(c, q, t);
    RuleMembers(q.rules, SearchEnd(c, q), t);
  }

  lemma FirstTimesAreOfUnion(occ: seq<int -> bool>, c: Config, q: Request, count: nat)
    requires q.exceptions == [] && Evaluated(occ, q, c.maxFutureCalculations)
    requires 0 < count <= c.maxFutureCalculations && StrictlyBySecond(CandidateTimes(c, q))
    ensures FirstOfUnion(occ, c, q, count, Take(CandidateTimes(c, q), count))
  {
    var all := CandidateTimes(c, q);
    forall t | t in Take(all, count)
      ensures Occurs(occ, c, q, t)
    {
      CandidateTimesAreCandidates(c, q, t);
      CandidatesOccur(occ, c, q, t);
    }
    forall t | Occurs(occ, c, q, t)
      ensures Covered(Take(all, count), count, t)
    {
      OccurrenceCovered(occ, c, q, count, t);
    }
  }

  /** With no exceptions, and no more runs asked for than each rule is asked for, the result is what
      the full streams of all rules give; and there is none only if no rule occurs in the window. */
  lemma TruncationLosesNothing(occ: seq<int -> bool>, c: Config, q: Request, count: int)
    requires q.exceptions == [] && Evaluated(occ, q, c.maxFutureCalculations)
    requires 0 < count <= c.maxFutureCalculations && count <= c.maxPreviewCount
    ensures NextRuns(c, q, count).Success? ==> FirstOfUnion(occ, c, q, count, NextRuns(c, q, count).value)
    ensures NextRuns(c, q, count).Failure? <==> forall t :: !Occurs(occ, c, q, t)
  {
    FinalIsCandidateTimes(c, q);
    FirstTimesAreOfUnion(occ, c, q, count);
    forall t | Occurs(occ, c, q, t)
      ensures Candidates(c, q) != []
    {
      OccurrenceCovered(occ, c, q, count, t);
    }
    if Candidates(c, q) != [] {
      CandidatesOccur(occ, c, q, Candidates(c, q)[0]);
    }
  }

  // ----- the condition is necessary ------------------------------------------------------------

  /** Whatever the rules, exceptions apart, the result is that of the full streams. */
  ghost predicate Lossless(c: Config, count: int) {
    forall occ: seq<int -> bool>, q: Request ::
      q.exceptions == [] && Evaluated(occ, q, c.maxFutureCalculations) && NextRuns(c, q, count).Success? ==>
        FirstOfUnion(occ, c, q, count, NextRuns(c, q, count).value)
  }

  function EveryMinute(n: nat): (r: seq<int>)
    ensures |r| == n && forall i :: 0 <= i < n ==> r[i] == (i + 1) * MINUTE
  {
    seq(n, i => (i + 1) * MINUTE)
  }

  /** A rule that occurs every minute, as a daily rule with 1440 execution times does, asked for its
      first n times at the epoch. */
  function TickRequest(n: nat): Request {
    Request(0, [Some(EveryMinute(n))], [], 0)
  }

  predicate Tick(t: int) {
    t % MINUTE == 0
  }

  lemma MinuteSeconds(k: int)
    ensures Unix(k * MINUTE) == 60 * k
  {
  }

  lemma TicksIncrease(n: nat)
    ensures StrictlyBySecond(EveryMinute(n))
  {
    var r := EveryMinute(n);
    forall i, j | 0 <= i < j < n
      ensures Unix(r[i]) < Unix(r[j])
    {
      MinuteSeconds(i + 1);
      MinuteSeconds(j + 1);
    }
  }

  lemma TickAmongFirst(n: nat, t: int)
    ensures Tick(t) && 1 <= t / MINUTE <= n ==> t in EveryMinute(n)
  {
    var k := t / MINUTE;
    if Tick(t) && 1 <= k <= n {
      assert EveryMinute(n)[k - 1] == t;
    }
  }

  /** A tick that is not among the first n comes after them. */
  lemma LaterTick(n: nat, t: int)
    requires Tick(t) && 0 < t && t !in EveryMinute(n)
    ensures forall i :: 0 <= i < n ==> Unix(EveryMinute(n)[i]) < Unix(t)
  {
    var (r, k) := (EveryMinute(n), t / MINUTE);
    assert t == k * MINUTE;
    TickAmongFirst(n, t);
    MinuteSeconds(k);
    forall i | 0 <= i < n
      ensures Unix(r[i]) < Unix(t)
    {
      MinuteSeconds(i + 1);
    }
  }

  lemma TickIsEvaluated(n: nat)
    ensures Evaluated([Tick], TickRequest(n), n)
  {
    var r := EveryMinute(n);
    TicksIncrease(n);
    forall i | 0 <= i < n
      ensures Tick(r[i]) && 0 < r[i]
    {
    }
    forall t | Tick(t) && 0 < t && t !in r
      ensures forall i :: 0 <= i < |r| ==> Unix(r[i]) < Unix(t)
    {
      LaterTick(n, t);
    }
    var occ: seq<int -> bool> := [Tick];
    assert FirstOccurrences(occ[0], 0, n, r);
  }

  /** One rule that occurs every minute is enough to see the cut. */
  lemma TruncationShows(c: Config, count: int)
    requires 0 < c.maxFutureCalculations < count <= c.maxPreviewCount
    requires (c.maxFutureCalculations + 2) * MINUTE <= c.maxLookahead
    ensures !Lossless(c, count)
  {
    var n := c.maxFutureCalculations;
    TickIsEvaluated(n);
    NextTickOccurs(c, n);
    MissingTick(c, n, count);
    assert !FirstOfUnion([Tick], c, TickRequest(n), count, NextRuns(c, TickRequest(n), count).value);
  }

  lemma NextTickOccurs(c: Config, n: nat)
    requires (n + 2) * MINUTE <= c.maxLookahead
    ensures Occurs([Tick], c, TickRequest(n), (n + 1) * MINUTE)
  {
    var occ: seq<int -> bool> := [Tick];
    assert TickRequest(n).rules[0].Some? && occ[0]((n + 1) * MINUTE);
  }

  lemma MissingTick(c: Config, n: nat, count: int)
    requires 0 < n < count <= c.maxPreviewCount && (n + 2) * MINUTE <= c.maxLookahead
    ensures NextRuns(c, TickRequest(n), count).Success?
    ensures !Covered(NextRuns(c, TickRequest(n), count).value, count, (n + 1) * MINUTE)
  {
    FirstTickIsCandidate(c, n);
    FinalIsCandidateTimes(c, TickRequest(n));
    var all := CandidateTimes(c, TickRequest(n));
    forall i | 0 <= i < |all|
      ensures OneOfMinutes(all[i], n)
    {
      TickCandidate(c, n, all[i]);
    }
    FewMinutes(all, n);
    forall i | 0 <= i < |all|
      ensures Unix(all[i]) < Unix((n + 1) * MINUTE)
    {
      BeforeNext(all[i], n);
    }
  }

  lemma FirstTickIsCandidate(c: Config, n: nat)
    requires 0 < n && (n + 2) * MINUTE <= c.maxLookahead
    ensures Candidates(c, TickRequest(n)) != []
  {
    var q := TickRequest(n);
    assert EveryMinute(n)[0] in q.rules[0].value;
    RuleMembers(q.rules, SearchEnd(c, q), EveryMinute(n)[0]);
    assert EveryMinute(n)[0] in Candidates(c, q);
  }

  /** One of the first n whole minutes. */
  predicate OneOfMinutes(t: int, n: int) {
    t % MINUTE == 0 && MINUTE <= t <= n * MINUTE
  }

  lemma BeforeNext(t: int, n: int)
    requires OneOfMinutes(t, n)
    ensures Unix(t) < Unix((n + 1) * MINUTE)
  {
    MinuteSeconds(t / MINUTE);
    MinuteSeconds(n + 1);
  }

  lemma TickCandidate(c: Config, n: nat, t: int)
    requires t in CandidateTimes(c, TickRequest(n))
    ensures OneOfMinutes(t, n)
  {
    var q := TickRequest(n);
    CandidateTimesAreCandidates(c, q, t);
    NoExtras(c, q, t);
    RuleMembers(q.rules, SearchEnd(c, q), t);
    var i :| 0 <= i < |q.rules| && q.rules[i].Some? && t in q.rules[i].value;
    TickIsMinute(n, t);
  }

  lemma TickIsMinute(n: nat, t: int)
    requires t in EveryMinute(n)
    ensures OneOfMinutes(t, n)
  {
    var r := EveryMinute(n);
    var m :| 0 <= m < |r| && r[m] == t;
    assert t == (m + 1) * MINUTE;
  }

  lemma {:induction false} FewMinutes(s: seq<int>, n: nat)
    requires StrictlyBySecond(s) && forall i :: 0 <= i < |s| ==> OneOfMinutes(s[i], n)
    ensures |s| <= n
  {
    if s != [] {
      var last := s[|s| - 1];
      var (init, m) := (s[..|s| - 1], last / MINUTE);
      forall i | 0 <= i < |init|
        ensures OneOfMinutes(init[i], m - 1)
      {
        assert init[i] == s[i] && Unix(s[i]) < Unix(last);
        EarlierMinute(s[i], last);
      }
      FewMinutes(init, m - 1);
    }
  }

  lemma EarlierMinute(t: int, last: int)
    requires t % MINUTE == 0 && last % MINUTE == 0 && Unix(t) < Unix(last)
    ensures t <= (last / MINUTE - 1) * MINUTE
  {
    if last <= t {
      UnixMonotone(last, t);
    }
  }

  /** The cut is invisible for all schedules exactly when no more runs are asked for than every
      rule is asked for. */
  lemma TruncationLosesNothingExactly(c: Config, count: int)
    requires 0 < c.maxFutureCalculations && 0 < count <= c.maxPreviewCount
    requires (c.maxFutureCalculations + 2) * MINUTE <= c.maxLookahead
    ensures Lossless(c, count) <==> count <= c.maxFutureCalculations
  {
    if count <= c.maxFutureCalculations {
      forall occ: seq<int -> bool>, q: Request |
        q.exceptions == [] && Evaluated(occ, q, c.maxFutureCalculations) && NextRuns(c, q, count).Success?
        ensures FirstOfUnion(occ, c, q, count, NextRuns(c, q, count).value)
      {
        TruncationLosesNothing(occ, c, q, count);
      }
    } else {
      TruncationShows(c, count);
    }
  }
}
