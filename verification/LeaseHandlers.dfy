/** The handlers of the lease: they load the stored attempt of a message, update a runtime in
    place, and write it back. */
module LeaseHandlers {
  import opened Clock
  import opened Wrappers
  import opened LeasePolicies
  import opened LeaseProtocol
  import opened LeasePersistence

  class LeaseRuntime {
    var attemptId: string
    var workerId: string
    var leaseStart: int
    var leaseExpiry: int
    var extensionUsed: int
    var renewalCount: int
    var lastHeartbeat: int
    var heartbeatExpiry: int

    constructor (rt: Runtime)
      ensures View() == rt
    {
      attemptId, workerId := rt.attemptId, rt.workerId;
      leaseStart, leaseExpiry := rt.leaseStart, rt.leaseExpiry;
      extensionUsed, renewalCount := rt.extensionUsed, rt.renewalCount;
      lastHeartbeat, heartbeatExpiry := rt.lastHeartbeat, rt.heartbeatExpiry;
    }

    function View(): Runtime
      reads this
    {
      Runtime(attemptId, workerId, leaseStart, leaseExpiry, extensionUsed, renewalCount, lastHeartbeat, heartbeatExpiry)
    }

    method ApplyHeartbeat(p: LeasePolicy, now: int) returns (res: HeartbeatResult)
      modifies this
      ensures (View(), res) == LeaseProtocol.ApplyHeartbeat(p, old(View()), now)
    {
      res := HeartbeatResult(false, false, false, false);
      if !IsZero(leaseExpiry) && leaseExpiry < now {
        res := res.(leaseTimedOut := true, shouldFail := true);
        return;
      }
      if !IsZero(heartbeatExpiry) && heartbeatExpiry < now {
        res := res.(heartbeatTimedOut := true, shouldFail := true);
        return;
      }
      lastHeartbeat := now;
      if p.heartbeatTimeout > 0 {
        heartbeatExpiry := now + p.heartbeatTimeout;
      }
      if p.maxExtension > 0 && extensionUsed < p.maxExtension {
        var remainingBudget := p.maxExtension - extensionUsed;
        var inc := p.extendStep;
        if inc > remainingBudget {
          inc := remainingBudget;
        }
        if inc > 0 {
          var base := leaseExpiry;
          if IsZero(base) {
            base := now;
          }
          if base < now {
            base := now;
          }
          leaseExpiry := base + inc;
          extensionUsed := extensionUsed + inc;
          renewalCount := renewalCount + 1;
          res := res.(extended := true);
        }
      }
    }
  }

  /** The stored attempt of a running message. */
  class AttemptRuntime {
    var attemptId: string
    var workerId: string
    var leaseStartedAt: Option<int>
    var leaseExpiryMs: int
    var extensionUsed: Option<int>
    var renewalCount: int
    var lastHeartbeatAt: Option<int>
    var heartbeatExpiryMs: int

    function View(): Attempt
      reads this
    {
      Attempt(attemptId, workerId, leaseStartedAt, leaseExpiryMs, extensionUsed, renewalCount, lastHeartbeatAt, heartbeatExpiryMs)
    }

    method ApplyRuntimeToProto(rt: Runtime)
      modifies this
      ensures View() == LeasePersistence.ApplyRuntimeToProto(rt, old(View()))
    {
      attemptId, workerId := rt.attemptId, rt.workerId;
      if !IsZero(rt.leaseStart) {
        leaseStartedAt := Some(rt.leaseStart);
      }
      leaseExpiryMs := UnixMilli(rt.leaseExpiry);
      extensionUsed := Some(rt.extensionUsed);
      renewalCount := rt.renewalCount;
      if !IsZero(rt.lastHeartbeat) {
        lastHeartbeatAt := Some(rt.lastHeartbeat);
      }
      if !IsZero(rt.heartbeatExpiry) {
        heartbeatExpiryMs := UnixMilli(rt.heartbeatExpiry);
      } else {
        heartbeatExpiryMs := 0;
      }
    }
  }

  class MessageMetadata {
    var leasePolicy: Option<PolicyProto>
    var leaseDuration: Option<PbDuration>
    var currentAttempt: AttemptRuntime?

    /** The lease validator: on acceptance the message carries the effective policy and its base
        lease; on rejection it is left as it was. */
    method Validate(queue: QueueMeta) returns (error: Option<PolicyError>)
      modifies this`leasePolicy, this`leaseDuration
      ensures var verdict := EffectivePolicy(queue, old(leasePolicy), old(leaseDuration));
              && error == (if verdict.Success? then None else Some(verdict.error))
              && leasePolicy == (if verdict.Success? then Some(verdict.value) else old(leasePolicy))
              && leaseDuration == (if verdict.Success? then verdict.value.baseLease else old(leaseDuration))
    {
      var effective := Overlay(queue, leasePolicy);
      if leaseDuration.Some? {
        if LegacyMismatch(leasePolicy, leaseDuration) {
          return Some(LegacyLeaseMismatch);
        }
        effective := effective.(baseLease := leaseDuration);
      }
      if effective.baseLease.None? {
        effective := effective.(baseLease := if queue.leaseDuration.Some? then queue.leaseDuration else Some(DEFAULT_LEASE_DURATION));
      }
      assert effective == OverlayPolicy(queue, leasePolicy, leaseDuration);
      error := ValidateLeasePolicy(effective);
      if error.None? {
        leasePolicy, leaseDuration := Some(effective), effective.baseLease;
      }
    }
  }

  /** A copy of the queue's policy with every field the message requests written over it. */
  method Overlay(queue: QueueMeta, requestedPolicy: Option<PolicyProto>) returns (effective: PolicyProto)
    ensures effective == OverlayPolicy(queue.(leaseDuration := None), requestedPolicy, None).(baseLease := effective.baseLease)
    ensures effective.baseLease == Prefer(requestedPolicy.GetOr(EMPTY_POLICY).baseLease, queue.leasePolicy.GetOr(EMPTY_POLICY).baseLease)
  {
    effective := if queue.leasePolicy.Some? then queue.leasePolicy.value else EMPTY_POLICY;
    if requestedPolicy.Some? {
      var requested := requestedPolicy.value;
      if requested.baseLease.Some? { effective := effective.(baseLease := requested.baseLease); }
      if requested.maxExtension.Some? { effective := effective.(maxExtension := requested.maxExtension); }
      if requested.heartbeatTimeout.Some? { effective := effective.(heartbeatTimeout := requested.heartbeatTimeout); }
      if requested.extendStep.Some? { effective := effective.(extendStep := requested.extendStep); }
      if requested.maxRenewals.Some? { effective := effective.(maxRenewals := requested.maxRenewals); }
    }
  }

  /** A message without a current attempt fails every heartbeat; otherwise the stored attempt
      takes one step of the protocol and nothing else of the message changes. */
  method HandleHeartbeat(queue: QueueMeta, m: MessageMetadata, now: int) returns (res: HeartbeatResult)
    modifies if m.currentAttempt == null then {} else {m.currentAttempt}
    ensures m.currentAttempt == null ==> res == HeartbeatResult(false, false, false, true)
    ensures m.currentAttempt != null ==>
              (m.currentAttempt.View(), res)
              == StoredHeartbeat(MergeLeasePolicy(queue.leasePolicy, m.leasePolicy, 0), old(m.currentAttempt.View()), now)
  {
    var policy := MergeLeasePolicy(queue.leasePolicy, m.leasePolicy, 0);
    var ar := m.currentAttempt;
    if ar == null {
      return HeartbeatResult(false, false, false, true);
    }
    var rt := new LeaseRuntime(RuntimeFromProto(Some(ar.View())));
    res := rt.ApplyHeartbeat(policy, now);
    if !res.shouldFail {
      ar.ApplyRuntimeToProto(rt.View());
    }
  }

  /** Reclaim reports a timeout exactly when a stored expiry is set and lies before now, that of the
      lease first, and exactly when a heartbeat at now would fail. It changes nothing. */
  method HandleReclaim(queue: QueueMeta, m: MessageMetadata, now: int) returns (st: TimeoutStatus)
    ensures m.currentAttempt == null ==> !st.TimedOut()
    ensures m.currentAttempt != null ==>
              var ar := m.currentAttempt;
              && (st.leaseTimedOut <==> SetAndPassed(ar.leaseExpiryMs, now))
              && (st.heartbeatTimedOut <==> !st.leaseTimedOut && SetAndPassed(ar.heartbeatExpiryMs, now))
              && (st.TimedOut() ==> st.expiredAt == FromUnixMilli(if st.leaseTimedOut then ar.leaseExpiryMs else ar.heartbeatExpiryMs))
    ensures m.currentAttempt != null ==>
              var res := StoredHeartbeat(MergeLeasePolicy(queue.leasePolicy, m.leasePolicy, 0), m.currentAttempt.View(), now).1;
              && (st.TimedOut() <==> res.shouldFail)
              && st.leaseTimedOut == res.leaseTimedOut && st.heartbeatTimedOut == res.heartbeatTimedOut
    ensures m.currentAttempt != null ==> st == CheckTimeouts(RuntimeFromProto(Some(m.currentAttempt.View())), now)
  {
    var ar := m.currentAttempt;
    if ar == null {
      return TimeoutStatus(false, false, ZERO_TIME);
    }
    st := CheckTimeouts(RuntimeFromProto(Some(ar.View())), now);
  }
}
