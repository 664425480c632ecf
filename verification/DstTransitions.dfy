/** Finding the changes between standard and daylight saving time, given only a way to ask which of
    the two holds at an instant. */
module DstTransitions {
  import opened Clock

  /** The instant the bisection ends with. */
  function Bisect(isDST: int -> bool, start: int, end: int): int
    decreases end - start
  {
    if end - start <= DAY then end
    else
      var mid := start + (end - start) / 2;
      if isDST(start) == isDST(mid) then Bisect(isDST, mid, end) else Bisect(isDST, start, mid)
  }

  /** How many times the interval is halved. */
  function Halvings(isDST: int -> bool, start: int, end: int): nat
    decreases end - start
  {
    if end - start <= DAY then 0
    else
      var mid := start + (end - start) / 2;
      1 + if isDST(start) == isDST(mid) then Halvings(isDST, mid, end) else Halvings(isDST, start, mid)
  }

  method FindTransitionDate(isDST: int -> bool, from: int, to: int) returns (date: int, ghost iterations: nat)
    ensures date == Bisect(isDST, from, to)
    ensures iterations == Halvings(isDST, from, to)
  {
    var start, end := from, to;
    iterations := 0;
    while end - start > DAY
      invariant Bisect(isDST, start, end) == Bisect(isDST, from, to)
      invariant iterations + Halvings(isDST, start, end) == Halvings(isDST, from, to)
      decreases end - start
    {
      iterations := iterations + 1;
      var mid := start + (end - start) / 2;
      if isDST(start) == isDST(mid) {
        start := mid;
      } else {
        end := mid;
      }
    }
    date := end;
  }

  /** The status changed at most a day before t: some instant of [low, t) no more than a day back
      has the status before, and t has the status after. */
  ghost predicate ChangedWithinDay(isDST: int -> bool, low: int, t: int, before: bool, after: bool) {
    isDST(t) == after && exists s :: low <= s < t && t - s <= DAY && isDST(s) == before
  }

  lemma WidenChange(isDST: int -> bool, low: int, low': int, t: int, before: bool, after: bool)
    requires ChangedWithinDay(isDST, low, t, before, after) && low' <= low
    ensures ChangedWithinDay(isDST, low', t, before, after)
  {
    var s :| low <= s < t && t - s <= DAY && isDST(s) == before;
    assert low' <= s;
  }

  /** If the status differs at the two ends, the bisection finds a change: an instant between them
      with the status of the end, and one at most a day earlier with the status of the start. */
  lemma {:induction false} BisectionFindsChange(isDST: int -> bool, start: int, end: int)
    requires start < end && isDST(start) != isDST(end)
    ensures start < Bisect(isDST, start, end) <= end
    ensures ChangedWithinDay(isDST, start, Bisect(isDST, start, end), isDST(start), isDST(end))
    decreases end - start
  {
    if end - start > DAY {
      var mid := start + (end - start) / 2;
      if isDST(start) == isDST(mid) {
        BisectionFindsChange(isDST, mid, end);
        WidenChange(isDST, mid, start, Bisect(isDST, mid, end), isDST(start), isDST(end));
      } else {
        BisectionFindsChange(isDST, start, mid);
      }
    }
  }

  /** If it is the same at both ends, the bisection returns the end, or else a change it came upon. */
  lemma {:induction false} BisectionOfEqualEnds(isDST: int -> bool, start: int, end: int)
    requires start < end && isDST(start) == isDST(end)
    ensures var date := Bisect(isDST, start, end);
            start < date <= end
            && (date == end || ChangedWithinDay(isDST, start, date, isDST(start), !isDST(start)))
    decreases end - start
  {
    if end - start > DAY {
      var mid := start + (end - start) / 2;
      if isDST(start) == isDST(mid) {
        BisectionOfEqualEnds(isDST, mid, end);
        var date := Bisect(isDST, mid, end);
        if date != end {
          WidenChange(isDST, mid, start, date, isDST(start), !isDST(start));
        }
      } else {
        BisectionFindsChange(isDST, start, mid);
      }
    }
  }

  function Pow2(k: nat): nat {
    if k == 0 then 1 else 2 * Pow2(k - 1)
  }

  /** A span of up to 2^k days is halved at most k times. */
  lemma {:induction false} BisectionIsFast(isDST: int -> bool, start: int, end: int, k: nat)
    requires end - start <= DAY * Pow2(k)
    ensures Halvings(isDST, start, end) <= k
    decreases k
  {
    if end - start > DAY {
      var mid := start + (end - start) / 2;
      var half := DAY * Pow2(k - 1);
      assert DAY * Pow2(k) == 2 * half;
      BisectionIsFast(isDST, mid, end, k - 1);
      BisectionIsFast(isDST, start, mid, k - 1);
    }
  }

  // ----- the transitions of a year ----------------------------------------------------------------

  datatype Transition = Transition(date: int, isStart: bool, offsetBefore: int, offsetAfter: int)

  /** The first and the last midnight of a month. */
  datatype Month = Month(first: int, last: int)

  /** What is reported for one month, if the status differs between its first and last midnight. */
  function TransitionsOf(isDST: int -> bool, offset: int -> int, m: Month): seq<Transition> {
    if isDST(m.first) == isDST(m.last) then []
    else [Transition(Bisect(isDST, m.first, m.last), isDST(m.last), offset(m.first), offset(m.last))]
  }

  function Transitions(isDST: int -> bool, offset: int -> int, months: seq<Month>): seq<Transition> {
    if months == [] then []
    else Transitions(isDST, offset, months[..|months| - 1]) + TransitionsOf(isDST, offset, months[|months| - 1])
  }

  method GetDSTTransitions(isDST: int -> bool, offset: int -> int, months: seq<Month>) returns (transitions: seq<Transition>)
    ensures transitions == Transitions(isDST, offset, months)
  {
    transitions := [];
    for i := 0 to |months|
      invariant transitions == Transitions(isDST, offset, months[..i])
    {
      assert months[..i + 1][..i] == months[..i];
      var (start, end) := (months[i].first, months[i].last);
      var (startDST, endDST) := (isDST(start), isDST(end));
      if startDST != endDST {
        var transitionDate, iterations := FindTransitionDate(isDST, start, end);
        transitions := transitions + [Transition(transitionDate, !startDST && endDST, offset(start), offset(end))];
      }
    }
    assert months[..|months|] == months;
  }

  /** The months follow one another, and each has more than one midnight. */
  predicate InOrder(months: seq<Month>) {
    && (forall i :: 0 <= i < |months| ==> months[i].first < months[i].last)
    && forall i, j :: 0 <= i < j < |months| ==> months[i].last < months[j].first
  }

  /** A month whose first and last midnight differ in status yields one transition, with the status
      and offset of the last midnight after it and those of the first before it; no other month any. */
  lemma TransitionMeaning(isDST: int -> bool, offset: int -> int, m: Month)
    requires m.first < m.last
    ensures var found := TransitionsOf(isDST, offset, m);
            && (isDST(m.first) == isDST(m.last) ==> found == [])
            && (isDST(m.first) != isDST(m.last) ==>
                  && |found| == 1
                  && found[0].isStart == isDST(m.last)
                  && found[0].offsetBefore == offset(m.first) && found[0].offsetAfter == offset(m.last)
                  && m.first < found[0].date <= m.last && isDST(found[0].date) == isDST(m.last))
  {
    if isDST(m.first) != isDST(m.last) {
      BisectionFindsChange(isDST, m.first, m.last);
    }
  }

  /** Each month adds to the report of those before it: nothing if its ends have the same status, and
      else one transition, with the status and offset of its ends. */
  lemma EachMonthAdds(isDST: int -> bool, offset: int -> int, months: seq<Month>, m: Month)
    requires m.first < m.last
    ensures Transitions(isDST, offset, []) == []
    ensures var (before, after) := (Transitions(isDST, offset, months), Transitions(isDST, offset, months + [m]));
            && before <= after
            && (isDST(m.first) == isDST(m.last) ==> after == before)
            && (isDST(m.first) != isDST(m.last) ==>
                  && |after| == |before| + 1
                  && after[|before|].isStart == isDST(m.last)
                  && after[|before|].offsetBefore == offset(m.first) && after[|before|].offsetAfter == offset(m.last)
                  && m.first < after[|before|].date <= m.last)
  {
    assert (months + [m])[..|months|] == months;
    TransitionMeaning(isDST, offset, m);
  }

  // ----- which changes are reported ---------------------------------------------------------------

  predicate Ascending(flips: seq<int>) {
    forall i, j :: 0 <= i < j < |flips| ==> flips[i] < flips[j]
  }

  /** How many of the flips have happened by t. */
  function UpTo(flips: seq<int>, t: int): (n: nat)
    ensures n <= |flips|
  {
    if flips == [] then 0
    else UpTo(flips[..|flips| - 1], t) + if flips[|flips| - 1] <= t then 1 else 0
  }

  /** Between low and high the status changes at these instants and no others. */
  ghost predicate FlipsAt(isDST: int -> bool, low: int, high: int, flips: seq<int>) {
    && Ascending(flips)
    && (forall i :: 0 <= i < |flips| ==> low < flips[i] <= high)
    && forall t :: low <= t <= high ==> (isDST(t) == isDST(low) <==> UpTo(flips, t) % 2 == 0)
  }

  /** After the first and no later than the last midnight of a month. */
  predicate Inside(m: Month, at: int) {
    m.first < at <= m.last
  }

  predicate InsideSome(months: seq<Month>, at: int) {
    exists i :: 0 <= i < |months| && Inside(months[i], at)
  }

  /** The flips inside a month. */
  function FlipsIn(flips: seq<int>, m: Month): seq<int>
    requires m.first < m.last && Ascending(flips)
  {
    UpToMonotone(flips, m.first, m.last);
    flips[UpTo(flips, m.first)..UpTo(flips, m.last)]
  }

  /** The flips inside the months, month by month. */
  function FlipsInMonths(flips: seq<int>, months: seq<Month>): seq<int>
    requires InOrder(months) && Ascending(flips)
  {
    if months == [] then []
    else FlipsInMonths(flips, months[..|months| - 1]) + FlipsIn(flips, months[|months| - 1])
  }

  predicate AtMostOneEach(flips: seq<int>, months: seq<Month>)
    requires InOrder(months) && Ascending(flips)
  {
    forall i :: 0 <= i < |months| ==> |FlipsIn(flips, months[i])| <= 1
  }

  lemma {:induction false} UpToMonotone(flips: seq<int>, s: int, t: int)
    requires s <= t
    ensures UpTo(flips, s) <= UpTo(flips, t)
  {
    if flips != [] {
      UpToMonotone(flips[..|flips| - 1], s, t);
    }
  }

  /** In ascending order, those that have happened are the first ones. */
  lemma {:induction false} UpToIsPosition(flips: seq<int>, t: int, i: nat)
    requires Ascending(flips) && i < |flips|
    ensures flips[i] <= t <==> i < UpTo(flips, t)
  {
    var n := |flips| - 1;
    if i < n {
      UpToIsPosition(flips[..n], t, i);
      if flips[n] <= t {
        UpToIsPosition(flips[..n], t, n - 1);
      }
    } else if flips[n] <= t && n > 0 {
      UpToIsPosition(flips[..n], t, n - 1);
    }
  }

  lemma InsideIsFlipsIn(flips: seq<int>, m: Month, i: nat)
    requires m.first < m.last && Ascending(flips) && i < |flips|
    ensures Inside(m, flips[i]) <==> UpTo(flips, m.first) <= i < UpTo(flips, m.last)
  {
    UpToIsPosition(flips, m.first, i);
    UpToIsPosition(flips, m.last, i);
  }

  /** A month is reported exactly when an odd number of flips lie inside it. */
  lemma ReportedIfOdd(isDST: int -> bool, offset: int -> int, low: int, high: int, flips: seq<int>, m: Month)
    requires FlipsAt(isDST, low, high, flips) && low <= m.first < m.last <= high
    ensures |TransitionsOf(isDST, offset, m)| == |FlipsIn(flips, m)| % 2
  {
    UpToMonotone(flips, m.first, m.last);
    var (u, v) := (UpTo(flips, m.first), UpTo(flips, m.last));
    assert isDST(m.first) == isDST(low) <==> u % 2 == 0;
    assert isDST(m.last) == isDST(low) <==> v % 2 == 0;
    assert isDST(m.first) == isDST(m.last) <==> (v - u) % 2 == 0;
  }

  /** The report of a flip: its direction, and a date less than a day late. */
  predicate Reports(isDST: int -> bool, r: Transition, flip: int) {
    r.isStart == isDST(flip) && flip <= r.date < flip + DAY
  }

  /** A single flip inside a month is reported. */
  lemma SingleFlipReported(isDST: int -> bool, offset: int -> int, low: int, high: int, flips: seq<int>, m: Month)
    requires FlipsAt(isDST, low, high, flips) && low <= m.first < m.last <= high && |FlipsIn(flips, m)| == 1
    ensures |TransitionsOf(isDST, offset, m)| == 1
    ensures Reports(isDST, TransitionsOf(isDST, offset, m)[0], FlipsIn(flips, m)[0])
  {
    ReportedIfOdd(isDST, offset, low, high, flips, m);
    UpToMonotone(flips, m.first, m.last);
    var u := UpTo(flips, m.first);
    var flip := flips[u];
    assert FlipsIn(flips, m)[0] == flip;
    InsideIsFlipsIn(flips, m, u);
    forall t | m.first <= t <= m.last
      ensures isDST(t) == isDST(m.last) <==> flip <= t
    {
      UpToMonotone(flips, m.first, t);
      UpToMonotone(flips, t, m.last);
      UpToIsPosition(flips, t, u);
      assert isDST(t) == isDST(low) <==> UpTo(flips, t) % 2 == 0;
      assert isDST(m.last) == isDST(low) <==> UpTo(flips, m.last) % 2 == 0;
    }
    BisectionFindsChange(isDST, m.first, m.last);
    var date := Bisect(isDST, m.first, m.last);
    var s :| m.first <= s < date && date - s <= DAY && isDST(s) == isDST(m.first);
    assert s < flip <= date;
  }

  /** All months lie between low and high. */
  predicate Within(months: seq<Month>, low: int, high: int) {
    forall i :: 0 <= i < |months| ==> low <= months[i].first && months[i].last <= high
  }

  /** What is reported for a month: something if the number of flips inside it is odd, and that
      flip if there is just one. */
  predicate MonthReported(isDST: int -> bool, offset: int -> int, flips: seq<int>, m: Month)
    requires m.first < m.last && Ascending(flips)
  {
    var (found, inside) := (TransitionsOf(isDST, offset, m), FlipsIn(flips, m));
    && |found| == |inside| % 2
    && (|inside| == 1 ==> |found| == 1 && Reports(isDST, found[0], inside[0]))
  }

  predicate EachReported(isDST: int -> bool, offset: int -> int, flips: seq<int>, months: seq<Month>)
    requires InOrder(months) && Ascending(flips)
  {
    forall i :: 0 <= i < |months| ==> MonthReported(isDST, offset, flips, months[i])
  }

  lemma EachIsReported(isDST: int -> bool, offset: int -> int, months: seq<Month>, low: int, high: int, flips: seq<int>)
    requires InOrder(months) && Within(months, low, high) && FlipsAt(isDST, low, high, flips)
    ensures EachReported(isDST, offset, flips, months)
  {
    forall i | 0 <= i < |months|
      ensures MonthReported(isDST, offset, flips, months[i])
    {
      ReportedIfOdd(isDST, offset, low, high, flips, months[i]);
      if |FlipsIn(flips, months[i])| == 1 {
        SingleFlipReported(isDST, offset, low, high, flips, months[i]);
      }
    }
  }

  lemma RestReported(isDST: int -> bool, offset: int -> int, flips: seq<int>, months: seq<Month>)
    requires InOrder(months) && months != [] && Ascending(flips) && EachReported(isDST, offset, flips, months)
    ensures var (rest, m) := (months[..|months| - 1], months[|months| - 1]);
            && InOrder(rest) && EachReported(isDST, offset, flips, rest) && MonthReported(isDST, offset, flips, m)
            && (AtMostOneEach(flips, months) <==> AtMostOneEach(flips, rest) && |FlipsIn(flips, m)| <= 1)
  {
    var rest := months[..|months| - 1];
    assert forall i :: 0 <= i < |rest| ==> rest[i] == months[i];
  }

  /** The transitions found report these flips, one for one. */
  predicate ReportsAll(isDST: int -> bool, found: seq<Transition>, flips: seq<int>) {
    |found| == |flips| && forall i :: 0 <= i < |found| ==> Reports(isDST, found[i], flips[i])
  }

  lemma {:induction false} MonthsReport(isDST: int -> bool, offset: int -> int, flips: seq<int>, months: seq<Month>)
    requires InOrder(months) && Ascending(flips) && EachReported(isDST, offset, flips, months) && AtMostOneEach(flips, months)
    ensures ReportsAll(isDST, Transitions(isDST, offset, months), FlipsInMonths(flips, months))
    decreases |months|
  {
    if months != [] {
      RestReported(isDST, offset, flips, months);
      MonthsReport(isDST, offset, flips, months[..|months| - 1]);
    }
  }

  /** For any zone, however often its status changes: if no month has more than one change inside
      it, the report consists of exactly the changes inside the months, in order, each with its
      direction and less than a day late. */
  lemma ChangesInsideReported(
    isDST: int -> bool, offset: int -> int, months: seq<Month>, low: int, high: int, flips: seq<int>)
    requires InOrder(months) && Within(months, low, high) && FlipsAt(isDST, low, high, flips) && AtMostOneEach(flips, months)
    ensures ReportsAll(isDST, Transitions(isDST, offset, months), FlipsInMonths(flips, months))
  {
    EachIsReported(isDST, offset, months, low, high, flips);
    MonthsReport(isDST, offset, flips, months);
  }

  /** The flips that have happened by the last midnight of the last month. */
  function UpToLast(flips: seq<int>, months: seq<Month>): nat {
    if months == [] then 0 else UpTo(flips, months[|months| - 1].last)
  }

  lemma {:induction false} FlipsInMonthsCount(flips: seq<int>, months: seq<Month>)
    requires InOrder(months) && Ascending(flips)
    ensures |FlipsInMonths(flips, months)| <= UpToLast(flips, months)
    ensures |FlipsInMonths(flips, months)| == UpToLast(flips, months) <==>
              forall i :: 0 <= i < UpToLast(flips, months) && i < |flips| ==> InsideSome(months, flips[i])
    decreases |months|
  {
    if months != [] {
      var k := |months| - 1;
      var (rest, m) := (months[..k], months[k]);
      FlipsInMonthsCount(flips, rest);
      UpToMonotone(flips, m.first, m.last);
      if k > 0 {
        UpToMonotone(flips, rest[k - 1].last, m.first);
      }
      var (r, u, v) := (UpToLast(flips, rest), UpTo(flips, m.first), UpTo(flips, m.last));
      assert r <= u <= v;
      forall i | 0 <= i < v
        ensures InsideSome(months, flips[i]) <==> (i < r && InsideSome(rest, flips[i])) || u <= i
      {
        InsideRestOrLast(flips, months, i);
      }
      if r < u {
        assert !InsideSome(months, flips[r]);
      }
    }
  }

  lemma InsideRestOrLast(flips: seq<int>, months: seq<Month>, i: nat)
    requires InOrder(months) && months != [] && Ascending(flips) && i < UpToLast(flips, months)
    ensures var (rest, m) := (months[..|months| - 1], months[|months| - 1]);
            InsideSome(months, flips[i]) <==> (i < UpToLast(flips, rest) && InsideSome(rest, flips[i])) || UpTo(flips, m.first) <= i
  {
    var k := |months| - 1;
    var (rest, m) := (months[..k], months[k]);
    InsideIsFlipsIn(flips, m, i);
    InsideLastOrBefore(months, flips[i]);
    if j :| 0 <= j < k && Inside(rest[j], flips[i]) {
      assert flips[i] <= rest[k - 1].last;
      UpToIsPosition(flips, rest[k - 1].last, i);
    }
  }

  lemma InsideLastOrBefore(months: seq<Month>, at: int)
    requires months != []
    ensures var (rest, m) := (months[..|months| - 1], months[|months| - 1]);
            InsideSome(months, at) <==> InsideSome(rest, at) || Inside(m, at)
  {
    var rest := months[..|months| - 1];
    if i :| 0 <= i < |months| && Inside(months[i], at) {
      assert i < |rest| ==> rest[i] == months[i];
    }
  }

  lemma {:induction false} OddMonthsCount(isDST: int -> bool, offset: int -> int, flips: seq<int>, months: seq<Month>)
    requires InOrder(months) && Ascending(flips) && EachReported(isDST, offset, flips, months)
    ensures var found, inside := Transitions(isDST, offset, months), FlipsInMonths(flips, months);
            |found| <= |inside| && (|found| == |inside| <==> AtMostOneEach(flips, months))
    decreases |months|
  {
    if months != [] {
      RestReported(isDST, offset, flips, months);
      OddMonthsCount(isDST, offset, flips, months[..|months| - 1]);
      MonthCount(isDST, offset, flips, months[|months| - 1]);
    }
  }

  lemma MonthCount(isDST: int -> bool, offset: int -> int, flips: seq<int>, m: Month)
    requires m.first < m.last && Ascending(flips) && MonthReported(isDST, offset, flips, m)
    ensures var (found, inside) := (|TransitionsOf(isDST, offset, m)|, |FlipsIn(flips, m)|);
            found <= inside && (found == inside <==> inside <= 1)
  {
  }

  /** Never more transitions are reported than there are changes; and all changes of the span are
      reported exactly when each lies inside some month and no two inside the same. */
  lemma AllChangesReportedExactly(
    isDST: int -> bool, offset: int -> int, months: seq<Month>, low: int, high: int, flips: seq<int>)
    requires InOrder(months) && Within(months, low, high) && FlipsAt(isDST, low, high, flips)
    ensures var found := Transitions(isDST, offset, months);
            && |found| <= |flips|
            && (|found| == |flips| <==>
                  (forall i :: 0 <= i < |flips| ==> InsideSome(months, flips[i])) && AtMostOneEach(flips, months))
  {
    FlipsInMonthsCount(flips, months);
    EachIsReported(isDST, offset, months, low, high, flips);
    OddMonthsCount(isDST, offset, flips, months);
    var n := UpToLast(flips, months);
    if n < |flips| {
      LaterIsOutside(flips, months, n);
    }
  }

  lemma LaterIsOutside(flips: seq<int>, months: seq<Month>, i: nat)
    requires InOrder(months) && Ascending(flips) && UpToLast(flips, months) <= i < |flips|
    ensures !InsideSome(months, flips[i])
  {
    if months != [] {
      UpToIsPosition(flips, months[|months| - 1].last, i);
    }
  }

  /** A change after the last midnight of a month and up to the first midnight of the next lies in
      no month. So in zones where clocks change on a last Sunday, a change is lost whenever that
      Sunday ends its month. */
  lemma ChangeOnLastDayIsOutside(months: seq<Month>, i: nat, at: int)
    requires InOrder(months) && i < |months| && months[i].last < at
    requires i + 1 < |months| ==> at <= months[i + 1].first
    ensures !InsideSome(months, at)
  {
    forall j | 0 <= j < |months|
      ensures !Inside(months[j], at)
    {
      if j > i + 1 {
        assert months[i + 1].last < months[j].first;
      }
    }
  }
}
