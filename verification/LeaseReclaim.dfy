/** Heartbeats and reclaim checks of one attempt, interleaved in any way. */
module LeaseReclaim {
  import opened Wrappers
  import opened LeasePolicies
  import opened LeaseProtocol
  import opened LeasePersistence

  datatype Event = Heartbeat(at: int) | Reclaim(at: int)

  datatype Verdict = InTime | LeaseTimeout | HeartbeatTimeout

  function OfHeartbeat(res: HeartbeatResult): Verdict {
    if res.leaseTimedOut then LeaseTimeout else if res.heartbeatTimedOut then HeartbeatTimeout else InTime
  }

  function OfReclaim(st: TimeoutStatus): Verdict {
    if st.leaseTimedOut then LeaseTimeout else if st.heartbeatTimedOut then HeartbeatTimeout else InTime
  }

  /** What the stored attempt goes through, and what each event is told. */
  function Step(p: LeasePolicy, a: Attempt, e: Event): (Attempt, Verdict) {
    match e
    case Heartbeat(at) => var (a', res) := StoredHeartbeat(p, a, at); (a', OfHeartbeat(res))
    case Reclaim(at) => (a, OfReclaim(CheckTimeouts(RuntimeFromProto(Some(a)), at)))
  }

  function Verdicts(p: LeasePolicy, a: Attempt, events: seq<Event>): (vs: seq<Verdict>)
    ensures |vs| == |events|
    decreases |events|
  {
    if events == [] then []
    else [Step(p, a, events[0]).1] + Verdicts(p, Step(p, a, events[0]).0, events[1..])
  }

  function Final(p: LeasePolicy, a: Attempt, events: seq<Event>): Attempt
    decreases |events|
  {
    if events == [] then a else Final(p, Step(p, a, events[0]).0, events[1..])
  }

  predicate ClockAdvances(events: seq<Event>) {
    forall i, j :: 0 <= i < j < |events| ==> events[i].at <= events[j].at
  }

  /** At every instant a heartbeat is rejected exactly when a reclaim check would report a timeout,
      and for the same reason; a rejected heartbeat leaves the attempt as it was. */
  lemma HeartbeatAndReclaimAgree(p: LeasePolicy, a: Attempt, now: int)
    ensures Step(p, a, Heartbeat(now)).1 == Step(p, a, Reclaim(now)).1
    ensures StoredHeartbeat(p, a, now).1.shouldFail <==> CheckTimeouts(RuntimeFromProto(Some(a)), now).TimedOut()
    ensures StoredHeartbeat(p, a, now).1.shouldFail ==> StoredHeartbeat(p, a, now).0 == a
  {
  }

  /** Once an attempt is told it has timed out, by either kind of event, every later event of
      either kind is told so too, and the stored attempt never changes again: a heartbeat cannot
      revive an attempt that reclaim has given up, and reclaim cannot take a live one. */
  lemma {:induction false} TimeoutIsFinal(p: LeasePolicy, a: Attempt, events: seq<Event>, i: nat, j: nat)
    requires ClockAdvances(events) && i < j < |events|
    requires Verdicts(p, a, events)[i] != InTime
    ensures Verdicts(p, a, events)[j] != InTime
    ensures Final(p, a, events[..j + 1]) == Final(p, a, events[..i])
    decreases |events|
  {
    var rest := events[1..];
    var a' := Step(p, a, events[0]).0;
    assert ClockAdvances(rest) by {
      forall x, y | 0 <= x < y < |rest|
        ensures rest[x].at <= rest[y].at
      {
        assert rest[x] == events[x + 1] && rest[y] == events[y + 1];
      }
    }
    assert events[..j + 1][1..] == rest[..j];
    if i == 0 {
      assert a' == a;
      assert events[..0] == [];
      DeadUntil(p, a, events[0].at, rest, j - 1);
    } else {
      TimeoutIsFinal(p, a', rest, i - 1, j - 1);
      assert events[..i][1..] == rest[..i - 1];
      assert rest[..j - 1 + 1] == rest[..j];
    }
  }

  /** An attempt that is dead at since is dead, and unchanged, through event j. */
  lemma {:induction false} DeadUntil(p: LeasePolicy, a: Attempt, since: int, events: seq<Event>, j: nat)
    requires Step(p, a, Reclaim(since)).1 != InTime
    requires forall k :: 0 <= k < |events| ==> since <= events[k].at
    requires j < |events|
    ensures Verdicts(p, a, events)[j] != InTime
    ensures Final(p, a, events[..j + 1]) == a
    decreases |events|
  {
    HeartbeatAndReclaimAgree(p, a, events[0].at);
    assert events[..j + 1][1..] == events[1..][..j];
    if j > 0 {
      DeadUntil(p, a, since, events[1..], j - 1);
    }
  }

  /** The instants of the heartbeats among the events. */
  function Heartbeats(events: seq<Event>): seq<int> {
    if events == [] then []
    else if events[0].Heartbeat? then [events[0].at] + Heartbeats(events[1..])
    else Heartbeats(events[1..])
  }

  /** Reclaim checks leave no trace: with or without them the heartbeats do the same. */
  lemma {:induction false} ReclaimIsInvisible(p: LeasePolicy, a: Attempt, events: seq<Event>)
    ensures Final(p, a, events) == StoredDrive(p, a, Heartbeats(events))
    ensures StoredAccepts(p, a, Heartbeats(events)) <==>
              forall i :: 0 <= i < |events| && events[i].Heartbeat? ==> Verdicts(p, a, events)[i] == InTime
    decreases |events|
  {
    if events != [] {
      var e, rest := events[0], events[1..];
      var (a', v) := Step(p, a, e);
      ReclaimIsInvisible(p, a', rest);
      var vs, vs' := Verdicts(p, a, events), Verdicts(p, a', rest);
      assert vs == [v] + vs';
      assert (forall i :: 0 <= i < |events| && events[i].Heartbeat? ==> vs[i] == InTime) <==>
             (e.Heartbeat? ==> v == InTime) && (forall i :: 0 <= i < |rest| && rest[i].Heartbeat? ==> vs'[i] == InTime) by {
        if forall i :: 0 <= i < |events| && events[i].Heartbeat? ==> vs[i] == InTime {
          forall i | 0 <= i < |rest| && rest[i].Heartbeat? ensures vs'[i] == InTime {
            assert events[i + 1] == rest[i] && vs[i + 1] == vs'[i];
          }
        }
        if (e.Heartbeat? ==> v == InTime) && (forall i :: 0 <= i < |rest| && rest[i].Heartbeat? ==> vs'[i] == InTime) {
          forall i | 0 <= i < |events| && events[i].Heartbeat? ensures vs[i] == InTime {
            if i > 0 {
              assert events[i] == rest[i - 1] && vs[i] == vs'[i - 1];
            }
          }
        }
      }
      if e.Heartbeat? {
        assert Heartbeats(events)[1..] == Heartbeats(rest);
        HeartbeatAndReclaimAgree(p, a, e.at);
      }
    }
  }
}
