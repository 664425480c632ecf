/** The lease of one attempt: starting it, sliding it with heartbeats, and checking it for
    timeouts. The functions are the specification of the methods in LeaseHandlers. */
module LeaseProtocol {
  import opened Clock
  import opened LeasePolicies

  datatype Runtime = Runtime(
    attemptId: string,
    workerId: string,
    leaseStart: int,
    leaseExpiry: int,
    extensionUsed: int,
    renewalCount: int,
    lastHeartbeat: int,
    heartbeatExpiry: int)

  datatype HeartbeatResult = HeartbeatResult(extended: bool, leaseTimedOut: bool, heartbeatTimedOut: bool, shouldFail: bool)

  datatype TimeoutStatus = TimeoutStatus(leaseTimedOut: bool, heartbeatTimedOut: bool, expiredAt: int) {
    predicate TimedOut() {
      leaseTimedOut || heartbeatTimedOut
    }
  }

  const ZERO_RUNTIME: Runtime := Runtime("", "", ZERO_TIME, ZERO_TIME, 0, 0, ZERO_TIME, ZERO_TIME)

  function InitRuntime(p: LeasePolicy, now: int, attemptId: string, workerId: string): Runtime {
    Runtime(attemptId, workerId, now, now + p.baseTimeout, 0, 0, now,
            if p.heartbeatTimeout > 0 then now + p.heartbeatTimeout else ZERO_TIME)
  }

  predicate Passed(deadline: int, now: int) {
    !IsZero(deadline) && deadline < now
  }

  function CheckTimeouts(rt: Runtime, now: int): TimeoutStatus {
    if Passed(rt.leaseExpiry, now) then TimeoutStatus(true, false, rt.leaseExpiry)
    else if Passed(rt.heartbeatExpiry, now) then TimeoutStatus(false, true, rt.heartbeatExpiry)
    else TimeoutStatus(false, false, ZERO_TIME)
  }

  /** The lease after a heartbeat that came in time. */
  function Extend(p: LeasePolicy, rt: Runtime, now: int): Runtime {
    var inc := Min(p.extendStep, p.maxExtension - rt.extensionUsed);
    if p.maxExtension > 0 && rt.extensionUsed < p.maxExtension && inc > 0 then
      var base := if IsZero(rt.leaseExpiry) || rt.leaseExpiry < now then now else rt.leaseExpiry;
      rt.(leaseExpiry := base + inc, extensionUsed := rt.extensionUsed + inc, renewalCount := rt.renewalCount + 1)
    else
      rt
  }

  /** The state after a heartbeat at now, and what the heartbeat reports. */
  function ApplyHeartbeat(p: LeasePolicy, rt: Runtime, now: int): (Runtime, HeartbeatResult) {
    if Passed(rt.leaseExpiry, now) then
      (rt, HeartbeatResult(false, true, false, true))
    else if Passed(rt.heartbeatExpiry, now) then
      (rt, HeartbeatResult(false, false, true, true))
    else
      var beaten := rt.(lastHeartbeat := now,
                        heartbeatExpiry := if p.heartbeatTimeout > 0 then now + p.heartbeatTimeout else rt.heartbeatExpiry);
      var extended := Extend(p, beaten, now);
      (extended, HeartbeatResult(extended.renewalCount != beaten.renewalCount, false, false, false))
  }

  // ----- whole runs ----------------------------------------------------------------

  /** Every heartbeat of ts, in order, is accepted. */
  predicate Accepts(p: LeasePolicy, rt: Runtime, ts: seq<int>)
    decreases |ts|
  {
    ts == [] ||
    var (rt', res) := ApplyHeartbeat(p, rt, ts[0]);
    !res.shouldFail && Accepts(p, rt', ts[1..])
  }

  /** The state after the heartbeats ts, accepted or not. */
  function Drive(p: LeasePolicy, rt: Runtime, ts: seq<int>): Runtime
    decreases |ts|
  {
    if ts == [] then rt else Drive(p, ApplyHeartbeat(p, rt, ts[0]).0, ts[1..])
  }

  /** All instants are real ones, not before the zero value of a time. */
  predicate RealTimes(ts: seq<int>) {
    forall i :: 0 <= i < |ts| ==> ZERO_TIME <= ts[i]
  }

  // ----- the closed form of a run --------------------------------------------------

  function Extension(p: LeasePolicy, k: nat): int {
    Min(k * p.extendStep, p.maxExtension)
  }

  /** The number of heartbeats that use up the extension budget. */
  function MaxRenewals(p: LeasePolicy): int
    requires p.Sane()
  {
    (p.maxExtension + p.extendStep - 1) / p.extendStep
  }

  /** The latest instant the lease can reach. */
  function LeaseCap(p: LeasePolicy, start: int): int {
    start + p.baseTimeout + p.maxExtension
  }

  /** The state after k accepted heartbeats, the latest at last, of an attempt begun at start. */
  function After(p: LeasePolicy, attemptId: string, workerId: string, start: int, k: nat, last: int): Runtime
    requires p.Sane()
  {
    Runtime(attemptId, workerId, start, start + p.baseTimeout + Extension(p, k), Extension(p, k),
            Min(k, MaxRenewals(p)), last,
            if p.heartbeatTimeout > 0 then last + p.heartbeatTimeout else ZERO_TIME)
  }

  /** The instant before ts[i]: the previous heartbeat, or last for the first one. */
  function Previous(last: int, ts: seq<int>, i: nat): int
    requires i < |ts|
  {
    if i == 0 then last else ts[i - 1]
  }

  /** The deadlines the protocol promises: heartbeat i must arrive before the base lease plus the
      extension earned by the k + i heartbeats before it, and within the heartbeat timeout. */
  predicate InTime(p: LeasePolicy, start: int, k: nat, last: int, ts: seq<int>) {
    forall i :: 0 <= i < |ts| ==>
      && ts[i] <= start + p.baseTimeout + Extension(p, k + i)
      && (p.heartbeatTimeout > 0 ==> ts[i] - Previous(last, ts, i) <= p.heartbeatTimeout)
  }

  lemma RenewalArithmetic(p: LeasePolicy, k: nat)
    requires p.Sane()
    ensures k < MaxRenewals(p) <==> k * p.extendStep < p.maxExtension
    ensures 0 <= MaxRenewals(p)
  {
    var (s, m, c) := (p.extendStep, p.maxExtension, MaxRenewals(p));
    assert c * s <= m + s - 1 < c * s + s;
    if k < c {
      assert (k + 1) * s <= c * s by { MulMonotone(k + 1, c, s); }
    } else {
      assert c * s <= k * s by { MulMonotone(c, k, s); }
    }
  }

  lemma MulMonotone(a: int, b: int, s: int)
    requires a <= b && 0 <= s
    ensures a * s <= b * s
  {
  }

  /** One heartbeat moves the closed form one step, and is accepted exactly when it is in time. */
  lemma HeartbeatStep(p: LeasePolicy, a: string, w: string, start: int, k: nat, last: int, now: int)
    requires p.Sane() && ZERO_TIME <= start && ZERO_TIME <= last
    ensures var (rt', res) := ApplyHeartbeat(p, After(p, a, w, start, k, last), now);
            && (!res.shouldFail <==> now <= start + p.baseTimeout + Extension(p, k)
                                     && (p.heartbeatTimeout > 0 ==> now - last <= p.heartbeatTimeout))
            && rt' == (if res.shouldFail then After(p, a, w, start, k, last) else After(p, a, w, start, k + 1, now))
            && (res.extended <==> !res.shouldFail && k < MaxRenewals(p))
  {
    RenewalArithmetic(p, k);
    RenewalArithmetic(p, k + 1);
    assert (k + 1) * p.extendStep == k * p.extendStep + p.extendStep;
    assert 0 <= k * p.extendStep;
  }

  /** The exact language of accepted heartbeats, from any point of a run. */
  lemma {:induction false} AcceptedLanguageFrom(p: LeasePolicy, a: string, w: string, start: int, k: nat, last: int, ts: seq<int>)
    requires p.Sane() && ZERO_TIME <= start && ZERO_TIME <= last && RealTimes(ts)
    ensures Accepts(p, After(p, a, w, start, k, last), ts) <==> InTime(p, start, k, last, ts)
    ensures Accepts(p, After(p, a, w, start, k, last), ts) ==>
              var newest := if ts == [] then last else ts[|ts| - 1];
              Drive(p, After(p, a, w, start, k, last), ts) == After(p, a, w, start, k + |ts|, newest)
    decreases |ts|
  {
    if ts != [] {
      var t, rest := ts[0], ts[1..];
      HeartbeatStep(p, a, w, start, k, last, t);
      AcceptedLanguageFrom(p, a, w, start, k + 1, t, rest);
      InTimeUnfold(p, start, k, last, ts);
    }
  }

  lemma InTimeUnfold(p: LeasePolicy, start: int, k: nat, last: int, ts: seq<int>)
    requires ts != []
    ensures InTime(p, start, k, last, ts) <==>
              && ts[0] <= start + p.baseTimeout + Extension(p, k)
              && (p.heartbeatTimeout > 0 ==> ts[0] - last <= p.heartbeatTimeout)
              && InTime(p, start, k + 1, ts[0], ts[1..])
  {
    var rest := ts[1..];
    if InTime(p, start, k, last, ts) {
      forall i | 0 <= i < |rest|
        ensures rest[i] <= start + p.baseTimeout + Extension(p, k + 1 + i)
        ensures p.heartbeatTimeout > 0 ==> rest[i] - Previous(ts[0], rest, i) <= p.heartbeatTimeout
      {
        assert rest[i] == ts[i + 1] && Previous(ts[0], rest, i) == Previous(last, ts, i + 1);
        assert k + (i + 1) == k + 1 + i;
      }
      assert ts[0] <= start + p.baseTimeout + Extension(p, k + 0);
      assert Previous(last, ts, 0) == last;
    }
    if ts[0] <= start + p.baseTimeout + Extension(p, k)
       && (p.heartbeatTimeout > 0 ==> ts[0] - last <= p.heartbeatTimeout)
       && InTime(p, start, k + 1, ts[0], rest)
    {
      forall i | 0 <= i < |ts|
        ensures ts[i] <= start + p.baseTimeout + Extension(p, k + i)
        ensures p.heartbeatTimeout > 0 ==> ts[i] - Previous(last, ts, i) <= p.heartbeatTimeout
      {
        if i > 0 {
          assert rest[i - 1] == ts[i] && Previous(ts[0], rest, i - 1) == Previous(last, ts, i);
          assert k + 1 + (i - 1) == k + i;
        }
      }
    }
  }

  // ----- main results --------------------------------------------------------------

  /** A sequence of heartbeats is accepted in full exactly when each one arrives by
      start + base + min(i * step, maxExtension) and, with heartbeat timeouts on, at most the
      timeout after its predecessor. The state it leaves is then determined by its length. */
  lemma AcceptedLanguage(p: LeasePolicy, a: string, w: string, start: int, ts: seq<int>)
    requires p.Sane() && ZERO_TIME <= start && RealTimes(ts)
    ensures Accepts(p, InitRuntime(p, start, a, w), ts) <==> InTime(p, start, 0, start, ts)
    ensures Accepts(p, InitRuntime(p, start, a, w), ts) ==>
              var end := Drive(p, InitRuntime(p, start, a, w), ts);
              && end.extensionUsed == Extension(p, |ts|)
              && end.leaseExpiry == start + p.baseTimeout + end.extensionUsed
              && end.renewalCount == Min(|ts|, MaxRenewals(p))
              && end.lastHeartbeat == (if ts == [] then start else ts[|ts| - 1])
  {
    StartsAtZero(p, a, w, start);
    AcceptedLanguageFrom(p, a, w, start, 0, start, ts);
  }

  lemma StartsAtZero(p: LeasePolicy, a: string, w: string, start: int)
    requires p.Sane()
    ensures InitRuntime(p, start, a, w) == After(p, a, w, start, 0, start)
  {
    RenewalArithmetic(p, 0);
  }

  /** A worker that beats at least once per min(base, step), and within the heartbeat timeout, is
      accepted for as long as the whole budget lasts, and not beyond: its heartbeats are all
      accepted exactly when none comes after start + base + maxExtension. */
  lemma HeartbeatLiveness(p: LeasePolicy, a: string, w: string, start: int, ts: seq<int>)
    requires p.Sane() && ZERO_TIME <= start && RealTimes(ts)
    requires forall i :: 0 <= i < |ts| ==>
               && ts[i] - Previous(start, ts, i) <= Min(p.baseTimeout, p.extendStep)
               && (p.heartbeatTimeout > 0 ==> ts[i] - Previous(start, ts, i) <= p.heartbeatTimeout)
    ensures Accepts(p, InitRuntime(p, start, a, w), ts) <==>
              forall i :: 0 <= i < |ts| ==> ts[i] <= LeaseCap(p, start)
  {
    StartsAtZero(p, a, w, start);
    AcceptedLanguageFrom(p, a, w, start, 0, start, ts);
    forall i | 0 <= i < |ts|
      ensures ts[i] <= start + p.baseTimeout + i * p.extendStep
    {
      SteadyArrival(p, start, ts, i);
    }
    if forall i :: 0 <= i < |ts| ==> ts[i] <= LeaseCap(p, start) {
      assert InTime(p, start, 0, start, ts);
    }
    if InTime(p, start, 0, start, ts) {
      forall i | 0 <= i < |ts|
        ensures ts[i] <= LeaseCap(p, start)
      {
        assert ts[i] <= start + p.baseTimeout + Extension(p, 0 + i);
      }
    }
  }

  lemma {:induction false} SteadyArrival(p: LeasePolicy, start: int, ts: seq<int>, i: nat)
    requires p.Sane() && i < |ts|
    requires forall j :: 0 <= j < |ts| ==> ts[j] - Previous(start, ts, j) <= Min(p.baseTimeout, p.extendStep)
    ensures ts[i] <= start + p.baseTimeout + i * p.extendStep
  {
    if i > 0 {
      SteadyArrival(p, start, ts, i - 1);
      assert Previous(start, ts, i) == ts[i - 1];
      assert i * p.extendStep == (i - 1) * p.extendStep + p.extendStep;
    } else {
      assert Previous(start, ts, 0) == start;
    }
  }

  /** Whatever heartbeats arrive, in whatever order and accepted or not, the lease is always base
      plus the extension used, the budget is respected, and the renewals are bounded. */
  lemma {:induction false} DriveKeepsBudget(p: LeasePolicy, rt: Runtime, ts: seq<int>)
    requires p.Sane() && ZERO_TIME <= rt.leaseStart
    requires rt.leaseExpiry == rt.leaseStart + p.baseTimeout + rt.extensionUsed
    requires exists k: nat :: rt.renewalCount == Min(k, MaxRenewals(p)) && rt.extensionUsed == Extension(p, k)
    ensures var end := Drive(p, rt, ts);
            && end.leaseStart == rt.leaseStart
            && end.leaseExpiry == end.leaseStart + p.baseTimeout + end.extensionUsed
            && rt.extensionUsed <= end.extensionUsed <= p.maxExtension
            && rt.renewalCount <= end.renewalCount <= MaxRenewals(p)
    decreases |ts|
  {
    var k: nat :| rt.renewalCount == Min(k, MaxRenewals(p)) && rt.extensionUsed == Extension(p, k);
    RenewalArithmetic(p, k);
    RenewalArithmetic(p, k + 1);
    assert (k + 1) * p.extendStep == k * p.extendStep + p.extendStep;
    assert 0 <= k * p.extendStep;
    if ts != [] {
      var (rt', res) := ApplyHeartbeat(p, rt, ts[0]);
      if !res.shouldFail {
        assert rt'.renewalCount == Min(k + 1, MaxRenewals(p)) && rt'.extensionUsed == Extension(p, k + 1);
      }
      DriveKeepsBudget(p, rt', ts[1..]);
    }
  }
}
