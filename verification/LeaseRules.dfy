/** The rules of leases, written out: which policies are accepted, where a policy's fields come from,
    which heartbeats are in time, and what is stored between them. */
module LeaseRules {
  import opened Clock
  import opened Wrappers
  import opened LeasePolicies
  import opened LeaseProtocol
  import opened LeasePersistence

  // ----- durations -----------------------------------------------------------------------------------

  /** A valid duration in nanoseconds is its seconds and nanoseconds, held within 64 bits. */
  lemma DurationMeaning(d: PbDuration)
    requires d.CheckValid()
    ensures var exact := d.seconds * 1_000_000_000 + d.nanos;
            && (-0x8000_0000_0000_0000 <= exact <= 0x7FFF_FFFF_FFFF_FFFF ==> d.AsDuration() == exact)
            && (exact > 0x7FFF_FFFF_FFFF_FFFF ==> d.AsDuration() == 0x7FFF_FFFF_FFFF_FFFF)
            && (exact < -0x8000_0000_0000_0000 ==> d.AsDuration() == -0x8000_0000_0000_0000)
  {
  }

  /** Valid durations span ten thousand years either way, with nanoseconds of the sign of the seconds. */
  lemma ValidDurations(d: PbDuration)
    ensures d.CheckValid() <==>
              && -315_576_000_000 <= d.seconds <= 315_576_000_000
              && -1_000_000_000 < d.nanos < 1_000_000_000
              && 0 <= d.seconds * d.nanos
  {
    if d.seconds > 0 && d.nanos < 0 {
      assert d.seconds * d.nanos < 0;
    } else if d.seconds < 0 && d.nanos > 0 {
      assert d.seconds * d.nanos < 0;
    } else if d.seconds >= 0 && d.nanos >= 0 {
      assert 0 <= d.seconds * d.nanos;
    } else {
      assert 0 <= (-d.seconds) * (-d.nanos) == d.seconds * d.nanos;
    }
  }

  // ----- acceptance ----------------------------------------------------------------------------------

  predicate AllFieldsValid(p: PolicyProto) {
    && (p.baseLease.Some? ==> p.baseLease.value.CheckValid())
    && (p.maxExtension.Some? ==> p.maxExtension.value.CheckValid())
    && (p.heartbeatTimeout.Some? ==> p.heartbeatTimeout.value.CheckValid())
    && (p.extendStep.Some? ==> p.extendStep.value.CheckValid())
  }

  /** A policy is accepted exactly if its durations are valid; its base is between a millisecond and an
      hour; extension and step are absent or at least a millisecond, the step no longer than the base
      nor than an extension; a heartbeat timeout comes with both of these and is shorter than base and
      extension together; there are no negative fields; and base and extension make at most an hour,
      or more than 64 bits hold, in which case there is no heartbeat timeout. */
  lemma AcceptedExactly(p: PolicyProto)
    ensures var (base, ext, hb, step) :=
              (DurOrZero(p.baseLease), DurOrZero(p.maxExtension), DurOrZero(p.heartbeatTimeout), DurOrZero(p.extendStep));
            ValidateLeasePolicy(p) == None <==>
              && AllFieldsValid(p)
              && MILLISECOND <= base <= HOUR
              && (ext == 0 || MILLISECOND <= ext) && 0 <= hb && (step == 0 || MILLISECOND <= step)
              && step <= base && (0 < ext ==> step <= ext)
              && (p.maxRenewals.Some? ==> 0 <= p.maxRenewals.value)
              && (0 < hb ==> 0 < ext && 0 < step && hb < base + ext)
              && (base + ext <= HOUR || (0x7FFF_FFFF_FFFF_FFFF < base + ext && hb == 0))
  {
    var (base, ext) := (DurOrZero(p.baseLease), DurOrZero(p.maxExtension));
    assert ext <= MAX_INT64;
    if 0 < base <= HOUR && 0 <= ext {
      WrappedSum(base + ext);
    }
  }

  lemma WrappedSum(sum: int)
    requires 0 <= sum <= HOUR + MAX_INT64
    ensures sum <= MAX_INT64 ==> Wrap64(sum) == sum
    ensures MAX_INT64 < sum ==> Wrap64(sum) < 0
  {
    if sum <= MAX_INT64 {
      assert 0 <= sum - MIN_INT64 < 0x1_0000_0000_0000_0000;
    } else {
      assert Wrap64(sum) == sum - 0x1_0000_0000_0000_0000;
    }
  }

  // ----- where fields come from ----------------------------------------------------------------------

  /** The field is that of the message if it has one, and else that of the queue. */
  predicate MessageOverQueue(message: Option<PbDuration>, queue: Option<PbDuration>, result: Option<PbDuration>) {
    (message.Some? ==> result == message) && (message.None? ==> result == queue)
  }

  predicate IsFirstPresent(all: seq<Option<PbDuration>>, d: Option<PbDuration>) {
    exists k :: 0 <= k < |all| && all[k].Some? && d == all[k] && forall j :: 0 <= j < k ==> all[j].None?
  }

  /** The policy that is checked: every field of the message over that of the queue. The base lease is
      the message's lease duration, else its base lease, else the queue's base lease, else the queue's
      lease duration, else thirty seconds. */
  predicate IsEffective(queue: QueueMeta, requested: Option<PolicyProto>, legacy: Option<PbDuration>, e: PolicyProto) {
    var (r, q) := (requested.GetOr(EMPTY_POLICY), queue.leasePolicy.GetOr(EMPTY_POLICY));
    && MessageOverQueue(r.maxExtension, q.maxExtension, e.maxExtension)
    && MessageOverQueue(r.heartbeatTimeout, q.heartbeatTimeout, e.heartbeatTimeout)
    && MessageOverQueue(r.extendStep, q.extendStep, e.extendStep)
    && (r.maxRenewals.Some? ==> e.maxRenewals == r.maxRenewals)
    && (r.maxRenewals.None? ==> e.maxRenewals == q.maxRenewals)
    && IsFirstPresent([legacy, r.baseLease, q.baseLease, queue.leaseDuration, Some(PbDuration(30, 0))], e.baseLease)
  }

  lemma EffectiveExists(queue: QueueMeta, requested: Option<PolicyProto>, legacy: Option<PbDuration>)
    ensures IsEffective(queue, requested, legacy, OverlayPolicy(queue, requested, legacy))
  {
    var (r, q) := (requested.GetOr(EMPTY_POLICY), queue.leasePolicy.GetOr(EMPTY_POLICY));
    var e := OverlayPolicy(queue, requested, legacy);
    var all := [legacy, r.baseLease, q.baseLease, queue.leaseDuration, Some(PbDuration(30, 0))];
    var k := if legacy.Some? then 0 else if r.baseLease.Some? then 1 else if q.baseLease.Some? then 2
             else if queue.leaseDuration.Some? then 3 else 4;
    assert e.baseLease == all[k] && all[k].Some? && forall j :: 0 <= j < k ==> all[j].None?;
  }

  lemma FirstPresentIsUnique(all: seq<Option<PbDuration>>, d: Option<PbDuration>, d': Option<PbDuration>)
    requires IsFirstPresent(all, d) && IsFirstPresent(all, d')
    ensures d == d'
  {
  }

  /** A lease duration that contradicts the base lease is an error; otherwise the message is accepted
      with the effective policy if that is, and else rejected for the reason that policy is. */
  lemma EffectiveMeaning(queue: QueueMeta, requested: Option<PolicyProto>, legacy: Option<PbDuration>, e: PolicyProto)
    requires IsEffective(queue, requested, legacy, e)
    ensures var own := requested.GetOr(EMPTY_POLICY).baseLease;
            EffectivePolicy(queue, requested, legacy) ==
              if legacy.Some? && own.Some? && own.value.AsDuration() != legacy.value.AsDuration() then Failure(LegacyLeaseMismatch)
              else if ValidateLeasePolicy(e).Some? then Failure(ValidateLeasePolicy(e).value)
              else Success(e)
  {
    var o := OverlayPolicy(queue, requested, legacy);
    var (r, q) := (requested.GetOr(EMPTY_POLICY), queue.leasePolicy.GetOr(EMPTY_POLICY));
    EffectiveExists(queue, requested, legacy);
    FirstPresentIsUnique(
      [legacy, r.baseLease, q.baseLease, queue.leaseDuration, Some(PbDuration(30, 0))], e.baseLease, o.baseLease);
    assert e == o;
  }

  /** The policy of an attempt. Extension, heartbeat timeout and step are those of the message, else
      of the queue, else nothing; a negative extension is none; and without a positive step it is a
      fifth of the base, or half a second if that is nothing. The base is that of the message, else a
      positive hint, else that of the queue; without a positive one it is three seconds. */
  lemma MergeMeaning(queue: Option<PolicyProto>, message: Option<PolicyProto>, hint: int)
    ensures var (q, m) := (queue.GetOr(EMPTY_POLICY), message.GetOr(EMPTY_POLICY));
            var p := MergeLeasePolicy(queue, message, hint);
            var wanted := if m.baseLease.Some? then m.baseLease.value.AsDuration()
                          else if 0 < hint then hint
                          else if q.baseLease.Some? then q.baseLease.value.AsDuration() else 0;
            && p.baseTimeout == (if 0 < wanted then wanted else 3_000_000_000)
            && FieldOf(m.heartbeatTimeout, q.heartbeatTimeout, p.heartbeatTimeout)
            && (p.maxExtension != 0 ==> 0 < p.maxExtension && FieldOf(m.maxExtension, q.maxExtension, p.maxExtension))
            && (p.maxExtension == 0 ==> exists ext :: ext <= 0 && FieldOf(m.maxExtension, q.maxExtension, ext))
            && exists step :: FieldOf(m.extendStep, q.extendStep, step)
                 && p.extendStep == (if 0 < step then step
                                     else if 5 <= p.baseTimeout then p.baseTimeout / 5 else 500_000_000)
  {
    var (q, m) := (queue.GetOr(EMPTY_POLICY), message.GetOr(EMPTY_POLICY));
    assert FieldOf(m.maxExtension, q.maxExtension, DurOrZero(Prefer(m.maxExtension, q.maxExtension)));
    assert FieldOf(m.extendStep, q.extendStep, DurOrZero(Prefer(m.extendStep, q.extendStep)));
  }

  /** d is the message's field, else the queue's, else zero. */
  predicate FieldOf(message: Option<PbDuration>, queue: Option<PbDuration>, d: int) {
    d == if message.Some? then message.value.AsDuration() else if queue.Some? then queue.value.AsDuration() else 0
  }

  // ----- heartbeats ----------------------------------------------------------------------------------

  /** What k heartbeats in time have added to a lease. */
  predicate Earned(p: LeasePolicy, k: nat, used: int) {
    used == if k * p.extendStep <= p.maxExtension then k * p.extendStep else p.maxExtension
  }

  /** Heartbeat i comes no later than start and base with the steps of those before it, nor than start
      and base with the whole extension, nor later after the one before it (or the start) than the
      heartbeat timeout, if there is one. */
  predicate MeetsDeadlines(p: LeasePolicy, start: int, ts: seq<int>, i: nat)
    requires i < |ts|
  {
    && ts[i] <= start + p.baseTimeout + i * p.extendStep
    && ts[i] <= start + p.baseTimeout + p.maxExtension
    && (0 < p.heartbeatTimeout ==> ts[i] <= (if i == 0 then start else ts[i - 1]) + p.heartbeatTimeout)
  }

  lemma MeetsIsInTime(p: LeasePolicy, start: int, ts: seq<int>, i: nat)
    requires i < |ts|
    ensures MeetsDeadlines(p, start, ts, i) <==>
              && ts[i] <= start + p.baseTimeout + Extension(p, 0 + i)
              && (p.heartbeatTimeout > 0 ==> ts[i] - Previous(start, ts, i) <= p.heartbeatTimeout)
  {
  }

  /** All heartbeats are accepted exactly if each meets its deadlines. */
  lemma HeartbeatDeadlines(p: LeasePolicy, a: string, w: string, start: int, ts: seq<int>)
    requires p.Sane() && ZERO_TIME <= start && RealTimes(ts)
    ensures Accepts(p, InitRuntime(p, start, a, w), ts) <==> forall i :: 0 <= i < |ts| ==> MeetsDeadlines(p, start, ts, i)
  {
    AcceptedLanguage(p, a, w, start, ts);
    forall i | 0 <= i < |ts|
      ensures MeetsDeadlines(p, start, ts, i) <==>
                && ts[i] <= start + p.baseTimeout + Extension(p, 0 + i)
                && (p.heartbeatTimeout > 0 ==> ts[i] - Previous(start, ts, i) <= p.heartbeatTimeout)
    {
      MeetsIsInTime(p, start, ts, i);
    }
  }

  /** And the attempt they leave is still that of its worker, begun when it was; it has used what they
      have earned, ends that much after its base, was renewed by as many of them as it took to earn
      it, and expects the next one within the timeout after the last. */
  lemma AttemptAfter(p: LeasePolicy, a: string, w: string, start: int, ts: seq<int>)
    requires p.Sane() && ZERO_TIME <= start && RealTimes(ts) && Accepts(p, InitRuntime(p, start, a, w), ts)
    ensures var end := Drive(p, InitRuntime(p, start, a, w), ts);
            && end.attemptId == a && end.workerId == w && end.leaseStart == start
            && Earned(p, |ts|, end.extensionUsed)
            && end.leaseExpiry == start + p.baseTimeout + end.extensionUsed
            && 0 <= end.renewalCount <= |ts|
            && (end.renewalCount < |ts| ==> p.maxExtension <= end.renewalCount * p.extendStep)
            && (0 < end.renewalCount ==> (end.renewalCount - 1) * p.extendStep < p.maxExtension)
            && end.lastHeartbeat == (if ts == [] then start else ts[|ts| - 1])
            && (0 < p.heartbeatTimeout ==> end.heartbeatExpiry == end.lastHeartbeat + p.heartbeatTimeout)
            && (p.heartbeatTimeout <= 0 ==> end.heartbeatExpiry == ZERO_TIME)
  {
    StartsAtZero(p, a, w, start);
    AcceptedLanguageFrom(p, a, w, start, 0, start, ts);
    assert 0 + |ts| == |ts|;
    RenewalsEarn(p, |ts|);
  }

  /** After k heartbeats the renewals are the fewest that exhaust the extension, or all k. */
  lemma RenewalsEarn(p: LeasePolicy, k: nat)
    requires p.Sane()
    ensures var renewals := Min(k, MaxRenewals(p));
            && 0 <= renewals <= k
            && (renewals < k ==> p.maxExtension <= renewals * p.extendStep)
            && (0 < renewals ==> (renewals - 1) * p.extendStep < p.maxExtension)
  {
    RenewalArithmetic(p, k);
    var renewals := Min(k, MaxRenewals(p));
    RenewalArithmetic(p, renewals);
    if 0 < renewals {
      RenewalArithmetic(p, renewals - 1);
    }
  }

  /** One heartbeat on any attempt, whether or not a run leads to it. It fails, changing nothing, if an
      expiry is set and lies before it, of two the lease's being the reason. Else it is noted, and
      moves the heartbeat's expiry if there is a timeout; and while some of the extension is left, the
      lease ends a step, or what is left, later than it did, or than now if it had no end. */
  lemma OneHeartbeat(p: LeasePolicy, rt: Runtime, now: int)
    ensures var (rt', res) := ApplyHeartbeat(p, rt, now);
            var tooLate := rt.leaseExpiry != ZERO_TIME && rt.leaseExpiry < now;
            var silent := rt.heartbeatExpiry != ZERO_TIME && rt.heartbeatExpiry < now;
            var left := p.maxExtension - rt.extensionUsed;
            && (res.shouldFail <==> tooLate || silent)
            && (res.leaseTimedOut <==> tooLate) && (res.heartbeatTimedOut <==> !tooLate && silent)
            && (res.extended <==> !res.shouldFail && 0 < p.maxExtension && 0 < left && 0 < p.extendStep)
            && (res.shouldFail ==> rt' == rt)
            && (!res.shouldFail ==>
                  && (rt'.attemptId, rt'.workerId, rt'.leaseStart) == (rt.attemptId, rt.workerId, rt.leaseStart)
                  && rt'.lastHeartbeat == now
                  && rt'.heartbeatExpiry == (if 0 < p.heartbeatTimeout then now + p.heartbeatTimeout else rt.heartbeatExpiry))
            && (res.extended ==>
                  && rt'.renewalCount == rt.renewalCount + 1
                  && rt'.extensionUsed == rt.extensionUsed + (if p.extendStep <= left then p.extendStep else left)
                  && rt'.leaseExpiry - (if rt.leaseExpiry == ZERO_TIME then now else rt.leaseExpiry)
                     == rt'.extensionUsed - rt.extensionUsed)
            && (!res.extended ==>
                  (rt'.leaseExpiry, rt'.extensionUsed, rt'.renewalCount) == (rt.leaseExpiry, rt.extensionUsed, rt.renewalCount))
  {
  }

  // ----- storage -------------------------------------------------------------------------------------

  /** Storing and loading an attempt changes nothing but that both expiries lose what they have beyond
      whole milliseconds; an absent one stays absent. */
  lemma StoreThenLoad(rt: Runtime, a: Attempt)
    requires rt.leaseStart != ZERO_TIME && rt.lastHeartbeat != ZERO_TIME
    requires MILLISECOND <= rt.leaseExpiry && (rt.heartbeatExpiry == ZERO_TIME || MILLISECOND <= rt.heartbeatExpiry)
    ensures var loaded := RuntimeFromProto(Some(ApplyRuntimeToProto(rt, a)));
            && loaded.leaseExpiry % 1_000_000 == 0 && loaded.leaseExpiry <= rt.leaseExpiry < loaded.leaseExpiry + 1_000_000
            && (rt.heartbeatExpiry == ZERO_TIME ==> loaded.heartbeatExpiry == ZERO_TIME)
            && (rt.heartbeatExpiry != ZERO_TIME ==>
                  loaded.heartbeatExpiry % 1_000_000 == 0
                  && loaded.heartbeatExpiry <= rt.heartbeatExpiry < loaded.heartbeatExpiry + 1_000_000)
            && loaded.(leaseExpiry := rt.leaseExpiry, heartbeatExpiry := rt.heartbeatExpiry) == rt
  {
  }

  /** Start and last heartbeat that are not set leave what was stored of them. */
  lemma UnsetTimesAreKept(rt: Runtime, a: Attempt)
    ensures rt.leaseStart == ZERO_TIME ==> ApplyRuntimeToProto(rt, a).leaseStartedAt == a.leaseStartedAt
    ensures rt.lastHeartbeat == ZERO_TIME ==> ApplyRuntimeToProto(rt, a).lastHeartbeatAt == a.lastHeartbeatAt
  {
  }
}
