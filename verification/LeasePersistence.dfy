/** The lease as it is stored between two heartbeats: instants of expiry are kept in whole
    milliseconds, zero meaning "not set". */
module LeasePersistence {
  import opened Clock
  import opened Wrappers
  import opened LeasePolicies
  import opened LeaseProtocol

  /** The stored attempt. Start and last heartbeat keep full precision, the two expiries do not. */
  datatype Attempt = Attempt(
    attemptId: string,
    workerId: string,
    leaseStartedAt: Option<int>,
    leaseExpiryMs: int,
    extensionUsed: Option<int>,
    renewalCount: int,
    lastHeartbeatAt: Option<int>,
    heartbeatExpiryMs: int)

  const NEW_ATTEMPT: Attempt := Attempt("", "", None, 0, None, 0, None, 0)

  /** A stored expiry that is set and lies before now. */
  predicate SetAndPassed(ms: int, now: int) {
    ms != 0 && FromUnixMilli(ms) != ZERO_TIME && FromUnixMilli(ms) < now
  }

  function LoadExpiry(ms: int): int {
    if ms == 0 then ZERO_TIME else FromUnixMilli(ms)
  }

  function RuntimeFromProto(stored: Option<Attempt>): Runtime {
    if stored.None? then ZERO_RUNTIME
    else
      var a := stored.value;
      Runtime(a.attemptId, a.workerId, a.leaseStartedAt.GetOr(ZERO_TIME), LoadExpiry(a.leaseExpiryMs),
              a.extensionUsed.GetOr(0), a.renewalCount, a.lastHeartbeatAt.GetOr(ZERO_TIME), LoadExpiry(a.heartbeatExpiryMs))
  }

  function ApplyRuntimeToProto(rt: Runtime, a: Attempt): Attempt {
    Attempt(rt.attemptId, rt.workerId,
            if IsZero(rt.leaseStart) then a.leaseStartedAt else Some(rt.leaseStart),
            UnixMilli(rt.leaseExpiry), Some(rt.extensionUsed), rt.renewalCount,
            if IsZero(rt.lastHeartbeat) then a.lastHeartbeatAt else Some(rt.lastHeartbeat),
            if IsZero(rt.heartbeatExpiry) then 0 else UnixMilli(rt.heartbeatExpiry))
  }

  /** One stored heartbeat: load, apply, and store again unless it was rejected. */
  function StoredHeartbeat(p: LeasePolicy, a: Attempt, now: int): (Attempt, HeartbeatResult) {
    var (rt, res) := ApplyHeartbeat(p, RuntimeFromProto(Some(a)), now);
    (if res.shouldFail then a else ApplyRuntimeToProto(rt, a), res)
  }

  predicate StoredAccepts(p: LeasePolicy, a: Attempt, ts: seq<int>)
    decreases |ts|
  {
    ts == [] ||
    var (a', res) := StoredHeartbeat(p, a, ts[0]);
    !res.shouldFail && StoredAccepts(p, a', ts[1..])
  }

  function StoredDrive(p: LeasePolicy, a: Attempt, ts: seq<int>): Attempt
    decreases |ts|
  {
    if ts == [] then a else StoredDrive(p, StoredHeartbeat(p, a, ts[0]).0, ts[1..])
  }

  /** The attempt stored by a claim. */
  function Claimed(p: LeasePolicy, start: int, attemptId: string, workerId: string): Attempt {
    ApplyRuntimeToProto(InitRuntime(p, start, attemptId, workerId), NEW_ATTEMPT)
  }

  /** The first instant after which no deadline falls into the millisecond that is stored as zero. */
  const EARLIEST: int := MILLISECOND - 1

  predicate AfterEpoch(ts: seq<int>) {
    forall i :: 0 <= i < |ts| ==> EARLIEST <= ts[i]
  }

  // ----- refinement ----------------------------------------------------------------

  /** The stored attempt a follows the unrounded runtime rt: the same heartbeats and the same use
      of the budget, with an expiry that rounding has moved back by less than a millisecond for
      the claim and for each renewal. */
  predicate Follows(p: LeasePolicy, a: Attempt, rt: Runtime) {
    && EARLIEST <= rt.leaseStart
    && EARLIEST <= rt.lastHeartbeat
    && rt.leaseExpiry == rt.leaseStart + p.baseTimeout + rt.extensionUsed
    && 0 <= rt.extensionUsed
    && rt.heartbeatExpiry == (if p.heartbeatTimeout > 0 then rt.lastHeartbeat + p.heartbeatTimeout else ZERO_TIME)
    && a.attemptId == rt.attemptId && a.workerId == rt.workerId
    && a.leaseStartedAt == Some(rt.leaseStart)
    && a.extensionUsed == Some(rt.extensionUsed)
    && a.renewalCount == rt.renewalCount
    && a.lastHeartbeatAt == Some(rt.lastHeartbeat)
    && 1 <= a.leaseExpiryMs
    && rt.leaseExpiry - (rt.renewalCount + 1) * MILLISECOND < FromUnixMilli(a.leaseExpiryMs) <= rt.leaseExpiry
    && a.heartbeatExpiryMs == (if p.heartbeatTimeout > 0 then UnixMilli(rt.heartbeatExpiry) else 0)
  }

  lemma FloorToMilli(t: int)
    ensures t - MILLISECOND < FromUnixMilli(UnixMilli(t)) <= t
    ensures MILLISECOND <= t ==> 1 <= UnixMilli(t)
  {
  }

  lemma ClaimFollows(p: LeasePolicy, start: int, attemptId: string, workerId: string)
    requires p.Sane() && EARLIEST <= start
    ensures Follows(p, Claimed(p, start, attemptId, workerId), InitRuntime(p, start, attemptId, workerId))
  {
    FloorToMilli(start + p.baseTimeout);
  }

  /** Rounding is forgiven to a heartbeat that comes earlier than the drift. */
  lemma EarlyHeartbeatAccepted(p: LeasePolicy, a: Attempt, rt: Runtime, now: int)
    requires p.Sane() && Follows(p, a, rt) && EARLIEST <= now
    requires !ApplyHeartbeat(p, rt, now).1.shouldFail
    requires now <= rt.leaseExpiry - (rt.renewalCount + 1) * MILLISECOND
    requires p.heartbeatTimeout > 0 ==> now <= rt.heartbeatExpiry - MILLISECOND
    ensures !StoredHeartbeat(p, a, now).1.shouldFail
  {
    FloorToMilli(rt.heartbeatExpiry);
    var loaded := RuntimeFromProto(Some(a));
    assert loaded.leaseExpiry == FromUnixMilli(a.leaseExpiryMs);
  }

  /** Rounding only ever makes the server stricter, and by less than the drift. */
  lemma StepFollows(p: LeasePolicy, a: Attempt, rt: Runtime, now: int)
    requires p.Sane() && Follows(p, a, rt) && EARLIEST <= now && !StoredHeartbeat(p, a, now).1.shouldFail
    ensures var (a', stored) := StoredHeartbeat(p, a, now);
            var (rt', exact) := ApplyHeartbeat(p, rt, now);
            !exact.shouldFail && Follows(p, a', rt') && stored.extended == exact.extended
  {
    FloorToMilli(rt.heartbeatExpiry);
    FloorToMilli(now + p.heartbeatTimeout);
    var (a', stored) := StoredHeartbeat(p, a, now);
    var loaded := RuntimeFromProto(Some(a));
    assert loaded.leaseExpiry == FromUnixMilli(a.leaseExpiryMs);
    var (rt', exact) := ApplyHeartbeat(p, rt, now);
    assert !exact.shouldFail;
    var (ld, _) := ApplyHeartbeat(p, loaded, now);
    FloorToMilli(ld.leaseExpiry);
    assert ld.leaseExpiry - loaded.leaseExpiry == rt'.leaseExpiry - rt.leaseExpiry;
    assert rt'.renewalCount == ld.renewalCount;
  }

  /** Persisted heartbeats refine unrounded ones: what the stored protocol accepts the exact one
      accepts too, with the same budget used, the same number of renewals, and an expiry less than
      one millisecond per stored extension (and one for the claim) before the exact one. */
  lemma {:induction false} StoredRefinesExact(p: LeasePolicy, a: Attempt, rt: Runtime, ts: seq<int>)
    requires p.Sane() && Follows(p, a, rt) && AfterEpoch(ts)
    requires StoredAccepts(p, a, ts)
    ensures Accepts(p, rt, ts)
    ensures Follows(p, StoredDrive(p, a, ts), Drive(p, rt, ts))
    decreases |ts|
  {
    if ts != [] {
      StepFollows(p, a, rt, ts[0]);
      StoredRefinesExact(p, StoredHeartbeat(p, a, ts[0]).0, ApplyHeartbeat(p, rt, ts[0]).0, ts[1..]);
    }
  }

  /** The refinement for a whole attempt, from its claim on. */
  lemma PersistedHeartbeatsRefineInMemory(p: LeasePolicy, attemptId: string, workerId: string, start: int, ts: seq<int>)
    requires p.Sane() && EARLIEST <= start && AfterEpoch(ts)
    requires StoredAccepts(p, Claimed(p, start, attemptId, workerId), ts)
    ensures Accepts(p, InitRuntime(p, start, attemptId, workerId), ts)
    ensures var stored := StoredDrive(p, Claimed(p, start, attemptId, workerId), ts);
            var exact := Drive(p, InitRuntime(p, start, attemptId, workerId), ts);
            && stored.extensionUsed == Some(exact.extensionUsed)
            && stored.renewalCount == exact.renewalCount
            && start + p.baseTimeout + exact.extensionUsed - (exact.renewalCount + 1) * MILLISECOND
               < FromUnixMilli(stored.leaseExpiryMs)
               <= start + p.baseTimeout + exact.extensionUsed
  {
    ClaimFollows(p, start, attemptId, workerId);
    StoredRefinesExact(p, Claimed(p, start, attemptId, workerId), InitRuntime(p, start, attemptId, workerId), ts);
    AcceptedLanguage(p, attemptId, workerId, start, ts);
  }

  /** The deadlines of the exact protocol, each brought forward by what rounding may have cost. */
  predicate InTimeWithSlack(p: LeasePolicy, start: int, k: nat, last: int, ts: seq<int>)
    requires p.Sane()
  {
    forall i :: 0 <= i < |ts| ==>
      && ts[i] <= start + p.baseTimeout + Extension(p, k + i) - (Min(k + i, MaxRenewals(p)) + 1) * MILLISECOND
      && (p.heartbeatTimeout > 0 ==> ts[i] - Previous(last, ts, i) <= p.heartbeatTimeout - MILLISECOND)
  }

  lemma SlackUnfold(p: LeasePolicy, start: int, k: nat, last: int, ts: seq<int>)
    requires p.Sane() && ts != [] && InTimeWithSlack(p, start, k, last, ts)
    ensures ts[0] <= start + p.baseTimeout + Extension(p, k) - (Min(k, MaxRenewals(p)) + 1) * MILLISECOND
    ensures p.heartbeatTimeout > 0 ==> ts[0] - last <= p.heartbeatTimeout - MILLISECOND
    ensures InTimeWithSlack(p, start, k + 1, ts[0], ts[1..])
  {
    var rest := ts[1..];
    assert k + 0 == k && Previous(last, ts, 0) == last;
    forall i | 0 <= i < |rest|
      ensures rest[i] <= start + p.baseTimeout + Extension(p, k + 1 + i) - (Min(k + 1 + i, MaxRenewals(p)) + 1) * MILLISECOND
      ensures p.heartbeatTimeout > 0 ==> rest[i] - Previous(ts[0], rest, i) <= p.heartbeatTimeout - MILLISECOND
    {
      assert rest[i] == ts[i + 1] && Previous(ts[0], rest, i) == Previous(last, ts, i + 1);
      assert k + (i + 1) == k + 1 + i;
    }
  }

  /** The other half: rounding costs a worker no more than that slack. */
  lemma {:induction false} SlackSuffices(p: LeasePolicy, w: string, id: string, start: int, k: nat, last: int, a: Attempt, ts: seq<int>)
    requires p.Sane() && EARLIEST <= start && EARLIEST <= last && AfterEpoch(ts)
    requires Follows(p, a, After(p, id, w, start, k, last))
    requires InTimeWithSlack(p, start, k, last, ts)
    ensures StoredAccepts(p, a, ts)
    decreases |ts|
  {
    if ts != [] {
      var rt := After(p, id, w, start, k, last);
      SlackUnfold(p, start, k, last, ts);
      HeartbeatStep(p, id, w, start, k, last, ts[0]);
      RenewalArithmetic(p, k);
      EarlyHeartbeatAccepted(p, a, rt, ts[0]);
      StepFollows(p, a, rt, ts[0]);
      SlackSuffices(p, w, id, start, k + 1, ts[0], StoredHeartbeat(p, a, ts[0]).0, ts[1..]);
    }
  }

  lemma PersistedHeartbeatsAcceptEarlyOnes(p: LeasePolicy, attemptId: string, workerId: string, start: int, ts: seq<int>)
    requires p.Sane() && EARLIEST <= start && AfterEpoch(ts)
    requires InTimeWithSlack(p, start, 0, start, ts)
    ensures StoredAccepts(p, Claimed(p, start, attemptId, workerId), ts)
  {
    StartsAtZero(p, attemptId, workerId, start);
    ClaimFollows(p, start, attemptId, workerId);
    SlackSuffices(p, workerId, attemptId, start, 0, start, Claimed(p, start, attemptId, workerId), ts);
  }

  // ----- from when on the refinement holds ----------------------------------------------------

  /** Whatever the policy, stored heartbeats of an attempt claimed at start refine exact ones. */
  ghost predicate RefinesFrom(start: int) {
    forall p: LeasePolicy, attemptId: string, workerId: string, ts: seq<int> ::
      p.Sane() && NotBefore(start, ts) && StoredAccepts(p, Claimed(p, start, attemptId, workerId), ts) ==>
        Accepts(p, InitRuntime(p, start, attemptId, workerId), ts)
  }

  predicate NotBefore(start: int, ts: seq<int>) {
    forall i :: 0 <= i < |ts| ==> start <= ts[i]
  }

  /** An earlier claim can have an expiry in the first millisecond of the epoch, which is stored as
      zero and read back as "not set", and the lease then never ends. */
  lemma ExpiryAtEpochIsLost(start: int) returns (p: LeasePolicy, now: int)
    requires start < EARLIEST
    ensures p.Sane() && start <= now
    ensures !Accepts(p, InitRuntime(p, start, "", ""), [now])
    ensures StoredAccepts(p, Claimed(p, start, "", ""), [now])
  {
    p := LeasePolicy(if start < 0 then -start else 1, 0, 0, 1);
    now := start + p.baseTimeout + 1;
    assert UnixMilli(start + p.baseTimeout) == 0;
    assert [now][1..] == [];
  }

  /** The refinement holds for every policy and all heartbeats exactly for claims from one
      nanosecond before the second millisecond of the epoch on. */
  lemma RefinementHoldsExactly(start: int)
    ensures RefinesFrom(start) <==> EARLIEST <= start
  {
    if EARLIEST <= start {
      forall p: LeasePolicy, attemptId: string, workerId: string, ts: seq<int> |
        p.Sane() && NotBefore(start, ts) && StoredAccepts(p, Claimed(p, start, attemptId, workerId), ts)
        ensures Accepts(p, InitRuntime(p, start, attemptId, workerId), ts)
      {
        PersistedHeartbeatsRefineInMemory(p, attemptId, workerId, start, ts);
      }
    } else {
      var p, now := ExpiryAtEpochIsLost(start);
      assert NotBefore(start, [now]);
    }
  }
}
