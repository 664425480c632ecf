/** Lease policies: their wire form, the merge that yields the policy of an attempt, and the
    validation that every posted message passes through. */
module LeasePolicies {
  import opened Clock
  import opened Wrappers

  const DEFAULT_LEASE_DURATION: PbDuration := PbDuration(30, 0)

  /** A protobuf duration: seconds and nanoseconds of the same sign. */
  datatype PbDuration = PbDuration(seconds: int, nanos: int) {

    /** The duration in nanoseconds, saturated to 64 bits. */
    function AsDuration(): int {
      if seconds * SECOND > MAX_INT64 then MAX_INT64
      else if seconds * SECOND < MIN_INT64 then MIN_INT64
      else if seconds * SECOND + nanos > MAX_INT64 then MAX_INT64
      else if seconds * SECOND + nanos < MIN_INT64 then MIN_INT64
      else seconds * SECOND + nanos
    }

    predicate CheckValid() {
      && -315_576_000_000 <= seconds <= 315_576_000_000
      && -1_000_000_000 < nanos < 1_000_000_000
      && !(seconds > 0 && nanos < 0)
      && !(seconds < 0 && nanos > 0)
    }
  }

  function DurOrZero(d: Option<PbDuration>): int {
    if d.Some? then d.value.AsDuration() else 0
  }

  /** A lease policy as queues and messages carry it: every field may be absent. */
  datatype PolicyProto = PolicyProto(
    baseLease: Option<PbDuration>,
    maxExtension: Option<PbDuration>,
    heartbeatTimeout: Option<PbDuration>,
    extendStep: Option<PbDuration>,
    maxRenewals: Option<int>)

  const EMPTY_POLICY: PolicyProto := PolicyProto(None, None, None, None, None)

  /** The policy computed for one attempt. */
  datatype LeasePolicy = LeasePolicy(
    baseTimeout: int,
    maxExtension: int,
    heartbeatTimeout: int,
    extendStep: int)
  {
    /** What every merged policy satisfies. */
    predicate Sane() {
      0 < baseTimeout && 0 <= maxExtension && 0 < extendStep
    }
  }

  /** The first field that is present. */
  function Prefer<T>(first: Option<T>, second: Option<T>): Option<T> {
    if first.Some? then first else second
  }

  function MergeLeasePolicy(queue: Option<PolicyProto>, message: Option<PolicyProto>, workerBaseHint: int): (p: LeasePolicy)
    ensures p.Sane()
  {
    var q := queue.GetOr(EMPTY_POLICY);
    var m := message.GetOr(EMPTY_POLICY);
    var hinted := if workerBaseHint > 0 then workerBaseHint else DurOrZero(q.baseLease);
    var base := if m.baseLease.Some? then DurOrZero(m.baseLease) else hinted;
    var maxExt := DurOrZero(Prefer(m.maxExtension, q.maxExtension));
    var hb := DurOrZero(Prefer(m.heartbeatTimeout, q.heartbeatTimeout));
    var step := DurOrZero(Prefer(m.extendStep, q.extendStep));
    var base' := if base <= 0 then 3 * SECOND else base;
    LeasePolicy(base', if maxExt < 0 then 0 else maxExt, hb, StepOrDefault(step, base'))
  }

  function StepOrDefault(step: int, base: int): (s: int)
    requires 0 < base
    ensures 0 < s
  {
    if step > 0 then step
    else if base / 5 > 0 then base / 5
    else 500 * MILLISECOND
  }

  // ----- validation ---------------------------------------------------------------

  datatype PolicyError =
    | InvalidDuration
    | BaseNotPositive
    | BaseBelowMillisecond
    | BaseTooLong
    | NegativeMaxExtension
    | MaxExtensionBelowMillisecond
    | NegativeHeartbeatTimeout
    | NegativeExtendStep
    | ExtendStepBelowMillisecond
    | NegativeMaxRenewals
    | HeartbeatNeedsExtension
    | ExtensionBelowStep
    | HeartbeatBeyondTotal
    | TotalTooLong
    | StepBeyondBase
    | LegacyLeaseMismatch

  predicate FieldValid(d: Option<PbDuration>) {
    d.Some? ==> d.value.CheckValid()
  }

  /** None is acceptance. The sum of base lease and extension is a 64-bit sum and may wrap. */
  function ValidateLeasePolicy(p: PolicyProto): Option<PolicyError> {
    var base := DurOrZero(p.baseLease);
    var maxExt := DurOrZero(p.maxExtension);
    var hb := DurOrZero(p.heartbeatTimeout);
    var step := DurOrZero(p.extendStep);
    var total := Wrap64(base + maxExt);
    if !(FieldValid(p.baseLease) && FieldValid(p.maxExtension) && FieldValid(p.heartbeatTimeout) && FieldValid(p.extendStep)) then
      Some(InvalidDuration)
    else if base <= 0 then Some(BaseNotPositive)
    else if base < MILLISECOND then Some(BaseBelowMillisecond)
    else if base > HOUR then Some(BaseTooLong)
    else if maxExt < 0 then Some(NegativeMaxExtension)
    else if 0 < maxExt < MILLISECOND then Some(MaxExtensionBelowMillisecond)
    else if hb < 0 then Some(NegativeHeartbeatTimeout)
    else if step < 0 then Some(NegativeExtendStep)
    else if 0 < step < MILLISECOND then Some(ExtendStepBelowMillisecond)
    else if p.maxRenewals.GetOr(0) < 0 then Some(NegativeMaxRenewals)
    else if hb > 0 && (maxExt <= 0 || step <= 0) then Some(HeartbeatNeedsExtension)
    else if maxExt > 0 && maxExt < step then Some(ExtensionBelowStep)
    else if hb > 0 && hb >= total then Some(HeartbeatBeyondTotal)
    else if total > HOUR then Some(TotalTooLong)
    else if step > base then Some(StepBeyondBase)
    else None
  }

  /** The parts of a queue's metadata that leases depend on. */
  datatype QueueMeta = QueueMeta(leasePolicy: Option<PolicyProto>, leaseDuration: Option<PbDuration>)

  /** Requested fields over the queue's; the base lease is the legacy lease duration if given,
      and falls back to the queue's own lease duration and then to the default. */
  function OverlayPolicy(queue: QueueMeta, requested: Option<PolicyProto>, legacy: Option<PbDuration>): PolicyProto {
    var q := queue.leasePolicy.GetOr(EMPTY_POLICY);
    var r := requested.GetOr(EMPTY_POLICY);
    var base := Prefer(legacy, Prefer(r.baseLease, Prefer(q.baseLease, Prefer(queue.leaseDuration, Some(DEFAULT_LEASE_DURATION)))));
    PolicyProto(
      base,
      Prefer(r.maxExtension, q.maxExtension),
      Prefer(r.heartbeatTimeout, q.heartbeatTimeout),
      Prefer(r.extendStep, q.extendStep),
      Prefer(r.maxRenewals, q.maxRenewals))
  }

  predicate LegacyMismatch(requested: Option<PolicyProto>, legacy: Option<PbDuration>) {
    var r := requested.GetOr(EMPTY_POLICY);
    legacy.Some? && r.baseLease.Some? && r.baseLease.value.AsDuration() != legacy.value.AsDuration()
  }

  /** The policy the validator writes into a message, or why it rejects the message. */
  function EffectivePolicy(queue: QueueMeta, requested: Option<PolicyProto>, legacy: Option<PbDuration>)
    : Result<PolicyProto, PolicyError>
  {
    if LegacyMismatch(requested, legacy) then
      Failure(LegacyLeaseMismatch)
    else
      var effective := OverlayPolicy(queue, requested, legacy);
      var verdict := ValidateLeasePolicy(effective);
      if verdict.Some? then Failure(verdict.value) else Success(effective)
  }

  /** A caller can check this before posting: base lease and extension add up in 64 bits. */
  predicate SumFits(p: PolicyProto) {
    DurOrZero(p.baseLease) + DurOrZero(p.maxExtension) <= MAX_INT64
  }

  /** What acceptance says about the policy an attempt will run under. */
  lemma AcceptedPolicyBounds(p: PolicyProto)
    requires ValidateLeasePolicy(p) == None
    ensures MILLISECOND <= DurOrZero(p.baseLease) <= HOUR
    ensures 0 <= DurOrZero(p.maxExtension) <= MAX_INT64
    ensures SumFits(p) <==> DurOrZero(p.baseLease) + DurOrZero(p.maxExtension) <= HOUR
    ensures !SumFits(p) ==> DurOrZero(p.heartbeatTimeout) == 0
  {
    var sum := DurOrZero(p.baseLease) + DurOrZero(p.maxExtension);
    if SumFits(p) {
      assert Wrap64(sum) == sum;
    } else {
      assert Wrap64(sum) == sum - 0x1_0000_0000_0000_0000;
      assert Wrap64(sum) < 0;
    }
  }

  /** Under the queue it was validated for, a message decides its own lease: the worker's hint
      cannot change the policy of an attempt, and claim and heartbeat see the same one. */
  lemma {:induction false} ValidatedPolicyOverridesHint(
    queue: QueueMeta, requested: Option<PolicyProto>, legacy: Option<PbDuration>, effective: PolicyProto, hint: int)
    requires EffectivePolicy(queue, requested, legacy) == Success(effective)
    ensures ValidateLeasePolicy(effective) == None && effective.baseLease.Some?
    ensures MergeLeasePolicy(queue.leasePolicy, Some(effective), hint)
         == LeasePolicy(DurOrZero(effective.baseLease), DurOrZero(effective.maxExtension),
                        DurOrZero(effective.heartbeatTimeout),
                        StepOrDefault(DurOrZero(effective.extendStep), DurOrZero(effective.baseLease)))
  {
    AcceptedPolicyBounds(effective);
  }

  // ----- other queues ------------------------------------------------------------------------------

  /** The policy of an attempt is the same whatever queue the message runs in and whatever the hint. */
  ghost predicate SameEverywhere(message: PolicyProto) {
    forall q: Option<PolicyProto>, q': Option<PolicyProto>, hint: int, hint': int ::
      MergeLeasePolicy(q, Some(message), hint) == MergeLeasePolicy(q', Some(message), hint')
  }

  function Lasting(seconds: int): Option<PbDuration> {
    Some(PbDuration(seconds, 0))
  }

  /** A queue whose policy has this many seconds in every field. */
  function QueueWith(seconds: int): Option<PolicyProto> {
    Some(PolicyProto(Lasting(seconds), Lasting(seconds), Lasting(seconds), Lasting(seconds), None))
  }

  /** An accepted message may come to run in a queue other than the one it was validated for. Its
      policy is then the same exactly if it has all of the three fields that the merge would take
      from the queue. */
  lemma PolicyIsOwnExactly(message: PolicyProto)
    requires ValidateLeasePolicy(message) == None
    ensures SameEverywhere(message) <==>
              message.maxExtension.Some? && message.heartbeatTimeout.Some? && message.extendStep.Some?
  {
    AcceptedPolicyBounds(message);
    assert message.baseLease.Some?;
    if SameEverywhere(message) {
      var one := MergeLeasePolicy(QueueWith(1), Some(message), 0);
      var two := MergeLeasePolicy(QueueWith(2), Some(message), 0);
      assert one == two;
    }
  }
}
