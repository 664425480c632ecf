/** The bound on a lease from the validation of the posted message to its last heartbeat. */
module LeaseBound {
  import opened Clock
  import opened Wrappers
  import opened LeasePolicies
  import opened LeaseProtocol
  import opened LeasePersistence

  /** The lease, exact and stored, never outlives one hour after the claim, whatever the worker's
      lease hint and whichever heartbeats arrive, accepted or not. */
  ghost predicate NeverBeyondOneHour(queue: QueueMeta, message: PolicyProto) {
    forall hint: int, attemptId: string, workerId: string, start: int, ts: seq<int> ::
      EARLIEST <= start && AfterEpoch(ts) ==> WithinOneHour(queue, message, hint, attemptId, workerId, start, ts)
  }

  predicate WithinOneHour(
    queue: QueueMeta, message: PolicyProto, hint: int, attemptId: string, workerId: string, start: int, ts: seq<int>)
  {
    var claim := MergeLeasePolicy(queue.leasePolicy, Some(message), hint);
    var beat := MergeLeasePolicy(queue.leasePolicy, Some(message), 0);
    && Drive(beat, InitRuntime(claim, start, attemptId, workerId), ts).leaseExpiry <= start + HOUR
    && FromUnixMilli(StoredDrive(beat, Claimed(claim, start, attemptId, workerId), ts).leaseExpiryMs) <= start + HOUR
  }

  /** Rejected heartbeats change nothing, so any stored run follows an exact one. */
  lemma {:induction false} StoredRunFollowsSomeExactRun(p: LeasePolicy, a: Attempt, rt: Runtime, ts: seq<int>) returns (accepted: seq<int>)
    requires p.Sane() && Follows(p, a, rt) && AfterEpoch(ts)
    ensures AfterEpoch(accepted)
    ensures Follows(p, StoredDrive(p, a, ts), Drive(p, rt, accepted))
    decreases |ts|
  {
    if ts == [] {
      accepted := [];
    } else {
      var (a', res) := StoredHeartbeat(p, a, ts[0]);
      if res.shouldFail {
        accepted := StoredRunFollowsSomeExactRun(p, a, rt, ts[1..]);
      } else {
        StepFollows(p, a, rt, ts[0]);
        var rest := StoredRunFollowsSomeExactRun(p, a', ApplyHeartbeat(p, rt, ts[0]).0, ts[1..]);
        accepted := [ts[0]] + rest;
        assert accepted[1..] == rest;
      }
    }
  }

  /** Exact runs keep to the budget from the claim on. */
  lemma RunKeepsBudget(p: LeasePolicy, a: string, w: string, start: int, ts: seq<int>)
    requires p.Sane() && ZERO_TIME <= start
    ensures var end := Drive(p, InitRuntime(p, start, a, w), ts);
            && end.leaseExpiry == start + p.baseTimeout + end.extensionUsed
            && end.extensionUsed <= p.maxExtension
            && end.renewalCount <= MaxRenewals(p)
  {
    StartsAtZero(p, a, w, start);
    var rt := After(p, a, w, start, 0, start);
    assert rt.renewalCount == Min(0, MaxRenewals(p)) && rt.extensionUsed == Extension(p, 0);
    DriveKeepsBudget(p, InitRuntime(p, start, a, w), ts);
  }

  lemma BoundedWhenSumFits(p: LeasePolicy, attemptId: string, workerId: string, start: int, ts: seq<int>)
    requires p.Sane() && p.baseTimeout + p.maxExtension <= HOUR
    requires EARLIEST <= start && AfterEpoch(ts)
    ensures Drive(p, InitRuntime(p, start, attemptId, workerId), ts).leaseExpiry <= start + HOUR
    ensures FromUnixMilli(StoredDrive(p, Claimed(p, start, attemptId, workerId), ts).leaseExpiryMs) <= start + HOUR
  {
    RunKeepsBudget(p, attemptId, workerId, start, ts);
    ClaimFollows(p, start, attemptId, workerId);
    var accepted := StoredRunFollowsSomeExactRun(p, Claimed(p, start, attemptId, workerId), InitRuntime(p, start, attemptId, workerId), ts);
    RunKeepsBudget(p, attemptId, workerId, start, accepted);
  }

  /** As many steps as make up an hour. */
  function StepsToAnHour(p: LeasePolicy): nat
    requires p.Sane()
  {
    (HOUR + p.extendStep - 1) / p.extendStep
  }

  lemma StepsMakeAnHour(p: LeasePolicy)
    requires p.Sane()
    ensures HOUR <= StepsToAnHour(p) * p.extendStep
  {
    var (n, s) := (StepsToAnHour(p), p.extendStep);
    assert HOUR + s - 1 == n * s + (HOUR + s - 1) % s;
  }

  lemma BurstIsInTime(p: LeasePolicy, start: int, ts: seq<int>)
    requires p.Sane() && p.heartbeatTimeout == 0 && forall i :: 0 <= i < |ts| ==> ts[i] == start
    ensures InTime(p, start, 0, start, ts)
  {
    forall i | 0 <= i < |ts|
      ensures ts[i] <= start + p.baseTimeout + Extension(p, 0 + i)
    {
      MulMonotone(0, i, p.extendStep);
    }
  }

  /** When the sum wraps, a burst of that many heartbeats at the claim instant uses up an hour and more. */
  lemma UnboundedWhenSumWraps(p: LeasePolicy, start: int) returns (ts: seq<int>)
    requires p.Sane() && p.heartbeatTimeout == 0 && HOUR < p.maxExtension && EARLIEST <= start
    ensures AfterEpoch(ts)
    ensures |ts| == StepsToAnHour(p) && forall i :: 0 <= i < |ts| ==> ts[i] == start
    ensures Drive(p, InitRuntime(p, start, "", ""), ts).leaseExpiry > start + HOUR
  {
    ts := seq(StepsToAnHour(p), _ => start);
    BurstIsInTime(p, start, ts);
    AcceptedLanguage(p, "", "", start, ts);
    StepsMakeAnHour(p);
    assert Extension(p, StepsToAnHour(p)) >= HOUR;
  }

  /** End to end: for every message that passes the lease validator, the one-hour bound on its
      lease in the queue it was validated for holds exactly when base lease and extension add up without overflow. The validator's
      own check of the sum is made after it may have wrapped. */
  lemma {:induction false} EndToEndLeaseBound(queue: QueueMeta, requested: Option<PolicyProto>, legacy: Option<PbDuration>, message: PolicyProto)
    requires EffectivePolicy(queue, requested, legacy) == Success(message)
    ensures NeverBeyondOneHour(queue, message) <==> SumFits(message)
  {
    AcceptedPolicyBounds(message);
    ValidatedPolicyOverridesHint(queue, requested, legacy, message, 0);
    var p := MergeLeasePolicy(queue.leasePolicy, Some(message), 0);
    if SumFits(message) {
      forall hint: int, attemptId: string, workerId: string, start: int, ts: seq<int> | EARLIEST <= start && AfterEpoch(ts)
        ensures WithinOneHour(queue, message, hint, attemptId, workerId, start, ts)
      {
        ValidatedPolicyOverridesHint(queue, requested, legacy, message, hint);
        BoundedWhenSumFits(p, attemptId, workerId, start, ts);
      }
    } else {
      var ts := UnboundedWhenSumWraps(p, EARLIEST);
      assert !WithinOneHour(queue, message, 0, "", "", EARLIEST, ts);
    }
  }

  /** The bound in any one queue: for an accepted message whose merged extension there is its own. */
  lemma BoundInQueue(queue: QueueMeta, message: PolicyProto)
    requires ValidateLeasePolicy(message) == None && SumFits(message) && message.maxExtension.Some?
    ensures NeverBeyondOneHour(queue, message)
  {
    AcceptedPolicyBounds(message);
    forall hint: int, attemptId: string, workerId: string, start: int, ts: seq<int> | EARLIEST <= start && AfterEpoch(ts)
      ensures WithinOneHour(queue, message, hint, attemptId, workerId, start, ts)
    {
      var p := MergeLeasePolicy(queue.leasePolicy, Some(message), 0);
      assert p == MergeLeasePolicy(queue.leasePolicy, Some(message), hint);
      BoundedWhenSumFits(p, attemptId, workerId, start, ts);
    }
  }

  /** A queue with an extension of two hours and nothing else. */
  function LongQueue(): QueueMeta {
    QueueMeta(Some(EMPTY_POLICY.(maxExtension := Lasting(7200))), None)
  }

  lemma UnboundedInSomeQueue(message: PolicyProto) returns (queue: QueueMeta)
    requires ValidateLeasePolicy(message) == None && !(SumFits(message) && message.maxExtension.Some?)
    ensures !NeverBeyondOneHour(queue, message)
  {
    AcceptedPolicyBounds(message);
    queue := LongQueue();
    var p := MergeLeasePolicy(queue.leasePolicy, Some(message), 0);
    assert p.heartbeatTimeout == 0 && HOUR < p.maxExtension;
    var ts := UnboundedWhenSumWraps(p, EARLIEST);
    assert !WithinOneHour(queue, message, 0, "", "", EARLIEST, ts);
  }

  /** A message can be moved to another queue after it was accepted. The bound holds in every queue
      exactly if the message has an extension of its own, and its sum does not overflow. */
  lemma BoundInEveryQueueExactly(message: PolicyProto)
    requires ValidateLeasePolicy(message) == None
    ensures (forall queue :: NeverBeyondOneHour(queue, message)) <==> SumFits(message) && message.maxExtension.Some?
  {
    if SumFits(message) && message.maxExtension.Some? {
      forall queue
        ensures NeverBeyondOneHour(queue, message)
      {
        BoundInQueue(queue, message);
      }
    } else {
      var queue := UnboundedInSomeQueue(message);
    }
  }

  /** Such a policy is accepted: a base lease of one second with an extension beyond 292 years. */
  lemma OverflowingPolicyIsAccepted()
    ensures exists message: PolicyProto ::
              EffectivePolicy(QueueMeta(None, None), Some(message), None) == Success(message) && !SumFits(message)
  {
    var m := PolicyProto(Some(PbDuration(1, 0)), Some(PbDuration(315_576_000_000, 0)), None, None, None);
    assert DurOrZero(m.maxExtension) == MAX_INT64;
    assert Wrap64(SECOND + MAX_INT64) < 0;
    assert EffectivePolicy(QueueMeta(None, None), Some(m), None) == Success(m);
  }

  lemma RenewalsOfStoredRun(p: LeasePolicy, attemptId: string, workerId: string, start: int, ts: seq<int>)
    requires p.Sane() && EARLIEST <= start && AfterEpoch(ts)
    ensures StoredDrive(p, Claimed(p, start, attemptId, workerId), ts).renewalCount <= MaxRenewals(p)
  {
    ClaimFollows(p, start, attemptId, workerId);
    var accepted := StoredRunFollowsSomeExactRun(p, Claimed(p, start, attemptId, workerId), InitRuntime(p, start, attemptId, workerId), ts);
    RunKeepsBudget(p, attemptId, workerId, start, accepted);
  }

  /** An accepted message within the bound is renewed at most eighteen million times, far inside
      the 32 bits the renewal count is stored in. */
  lemma RenewalCountFits(
    queue: QueueMeta, requested: Option<PolicyProto>, legacy: Option<PbDuration>, message: PolicyProto,
    attemptId: string, workerId: string, start: int, ts: seq<int>)
    requires EffectivePolicy(queue, requested, legacy) == Success(message) && SumFits(message)
    requires EARLIEST <= start && AfterEpoch(ts)
    ensures var p := MergeLeasePolicy(queue.leasePolicy, Some(message), 0);
            StoredDrive(p, Claimed(p, start, attemptId, workerId), ts).renewalCount <= 18_000_000
  {
    AcceptedStepIsLong(queue, requested, legacy, message);
    var p := MergeLeasePolicy(queue.leasePolicy, Some(message), 0);
    RenewalsOfStoredRun(p, attemptId, workerId, start, ts);
    MulMonotone(MILLISECOND / 5, p.extendStep, 18_000_000);
    QuotientBound(p.maxExtension, p.extendStep, 18_000_000);
  }

  lemma AcceptedStepIsLong(queue: QueueMeta, requested: Option<PolicyProto>, legacy: Option<PbDuration>, message: PolicyProto)
    requires EffectivePolicy(queue, requested, legacy) == Success(message)
    ensures var p := MergeLeasePolicy(queue.leasePolicy, Some(message), 0);
            MILLISECOND / 5 <= p.extendStep && 0 <= p.maxExtension && (SumFits(message) ==> p.maxExtension <= HOUR)
  {
    AcceptedPolicyBounds(message);
    ValidatedPolicyOverridesHint(queue, requested, legacy, message, 0);
  }

  /** The burst that breaks the bound has at most eighteen million heartbeats, too. */
  lemma BurstIsShort(queue: QueueMeta, requested: Option<PolicyProto>, legacy: Option<PbDuration>, message: PolicyProto)
    requires EffectivePolicy(queue, requested, legacy) == Success(message)
    ensures StepsToAnHour(MergeLeasePolicy(queue.leasePolicy, Some(message), 0)) <= 18_000_000
  {
    AcceptedStepIsLong(queue, requested, legacy, message);
    var p := MergeLeasePolicy(queue.leasePolicy, Some(message), 0);
    MulMonotone(MILLISECOND / 5, p.extendStep, 18_000_000);
    QuotientBound(HOUR, p.extendStep, 18_000_000);
  }

  lemma QuotientBound(m: int, s: int, n: int)
    requires 0 < s && 0 <= m <= n * s
    ensures (m + s - 1) / s <= n
  {
    var q := (m + s - 1) / s;
    assert q * s <= m + s - 1 < n * s + s == (n + 1) * s;
    if q > n {
      MulMonotone(n + 1, q, s);
    }
  }
}
