/** What posting does with a message, in terms of the message, the validator and the store alone. */
module PostingMeaning {
  import opened Wrappers
  import opened Posting
  import opened BulkPosting
  import opened BulkGuarantees

  // ----- acceptance ----------------------------------------------------------------------------------

  /** Present, with metadata, and valid. */
  predicate Accepted(env: Environment, message: Option<Message>) {
    message.Some? && message.value.metadata.Some? && env.validate(message.value).1.Valid?
  }

  /** Why a message that is not accepted is rejected. */
  predicate MismatchesSchema(env: Environment, message: Option<Message>) {
    message.Some? && message.value.metadata.Some? && env.validate(message.value).1 == Invalid(true)
  }

  /** after is before with its gaps filled: the state says whether it waits for its scheduled time,
      and the maximum of attempts is the queue's positive default or 3, the attempts left all of
      them, and the lease policy the queue's, each only where the message says nothing. */
  predicate IsEnriched(q: QueueDefaults, before: Metadata, after: Metadata, now: int) {
    && after.scheduledTime == before.scheduledTime
    && after.state == (if before.scheduledTime.Some? && now < before.scheduledTime.value then Invisible else Pending)
    && (before.maxAttempts != 0 ==> after.maxAttempts == before.maxAttempts)
    && (before.maxAttempts == 0 && 0 < q.defaultMaxAttempts ==> after.maxAttempts == q.defaultMaxAttempts)
    && (before.maxAttempts == 0 && q.defaultMaxAttempts <= 0 ==> after.maxAttempts == 3)
    && (before.attemptsLeft != 0 ==> after.attemptsLeft == before.attemptsLeft)
    && (before.attemptsLeft == 0 ==> after.attemptsLeft == after.maxAttempts)
    && (before.leasePolicy.Some? ==> after.leasePolicy == before.leasePolicy)
    && (before.leasePolicy.None? ==> after.leasePolicy == q.leasePolicy)
  }

  /** m is the posted message: same id and payload, with what the validator made of its metadata,
      enriched. */
  predicate AsPosted(env: Environment, posted: Message, now: int, m: Message) {
    && m.id == posted.id && m.payload == posted.payload && m.metadata.Some?
    && IsEnriched(env.queue, env.validate(posted).0, m.metadata.value, now)
  }

  lemma PreparedMeaning(env: Environment, message: Option<Message>, now: int)
    ensures var p := Prepare(env, message, now);
            && (p.Ready() <==> Accepted(env, message))
            && (p.Ready() ==> AsPosted(env, message.value, now, p.message.value))
            && (!p.Ready() ==> p.rejection == Some(if MismatchesSchema(env, message) then SCHEMA_MISMATCH else VALIDATION_FAILED))
            && (if message.Some? && message.value.metadata.Some? then
                  p.message.Some? && AsPosted(env, message.value, now, p.message.value)
                else p.message == message)
  {
  }

  // ----- one message ---------------------------------------------------------------------------------

  /** A message that is not accepted changes nothing, and the code says whether it mismatches its
      schema; one whose id is taken changes nothing; any other is stored under its id as posted,
      next to what was there, unless the store refuses it. */
  lemma PostMeaning(env: Environment, store: Store, message: Option<Message>, now: int)
    ensures var (after, code) := Post(env, store, message, now);
            && (!Accepted(env, message) ==>
                  after == store && code == (if MismatchesSchema(env, message) then SCHEMA_MISMATCH else VALIDATION_FAILED))
            && (Accepted(env, message) && message.value.id in store ==> after == store && code == DUPLICATE_MESSAGE_ID)
            && (Accepted(env, message) && message.value.id !in store ==>
                  if code == SUCCESS then
                    && after.Keys == store.Keys + {message.value.id}
                    && AsPosted(env, message.value, now, after[message.value.id])
                    && !env.refuses(after[message.value.id])
                    && forall id :: id in store ==> after[id] == store[id]
                  else
                    after == store && code == INTERNAL_ERROR)
            && (Accepted(env, message) && message.value.id !in store && (forall m :: !env.refuses(m)) ==> code == SUCCESS)
  {
    PreparedMeaning(env, message, now);
  }

  // ----- many messages -------------------------------------------------------------------------------

  /** What is stored stays as it is. */
  lemma {:induction false} PostAllKeeps(env: Environment, store: Store, messages: seq<Option<Message>>, nows: seq<int>, id: string)
    requires |nows| == |messages| && id in store
    ensures var after := PostAll(env, store, messages, nows).0;
            id in after && after[id] == store[id]
    decreases |messages|
  {
    if messages != [] {
      var n := |messages| - 1;
      PostAllKeeps(env, store, messages[..n], nows[..n], id);
      PostMeaning(env, PostAll(env, store, messages[..n], nows[..n]).0, messages[n], nows[n]);
    }
  }

  /** Whatever is reported as a success has been accepted and is in the store as it was posted. */
  lemma {:induction false} SuccessIsStored(env: Environment, store: Store, messages: seq<Option<Message>>, nows: seq<int>, i: nat)
    requires |nows| == |messages| && i < |messages|
    requires |PostAll(env, store, messages, nows).1| == |messages| && PostAll(env, store, messages, nows).1[i] == SUCCESS
    ensures Accepted(env, messages[i])
    ensures var (after, m) := (PostAll(env, store, messages, nows).0, messages[i].value);
            m.id !in store && m.id in after && AsPosted(env, m, nows[i], after[m.id])
    decreases |messages|
  {
    var n := |messages| - 1;
    PostAllLength(env, store, messages[..n], nows[..n]);
    var before := PostAll(env, store, messages[..n], nows[..n]).0;
    PostMeaning(env, before, messages[n], nows[n]);
    if i < n {
      SuccessIsStored(env, store, messages[..n], nows[..n], i);
    } else {
      NewInTheEnd(env, store, messages[..n], nows[..n], messages[n].value.id);
    }
  }

  lemma {:induction false} PostAllLength(env: Environment, store: Store, messages: seq<Option<Message>>, nows: seq<int>)
    requires |nows| == |messages|
    ensures |PostAll(env, store, messages, nows).1| == |messages|
    decreases |messages|
  {
    if messages != [] {
      PostAllLength(env, store, messages[..|messages| - 1], nows[..|messages| - 1]);
    }
  }

  lemma NewInTheEnd(env: Environment, store: Store, messages: seq<Option<Message>>, nows: seq<int>, id: string)
    requires |nows| == |messages| && id !in PostAll(env, store, messages, nows).0
    ensures id !in store
  {
    if id in store {
      PostAllKeeps(env, store, messages, nows, id);
    }
  }

  /** Best effort over a store that stores each message for itself: a message reported as a success
      has been accepted and is in the store as it was posted. */
  lemma BestEffortStoresWhatWasPosted(
    env: Environment, backend: Backend, store: Store, messages: seq<Option<Message>>, nows: seq<int>, i: nat)
    requires |nows| == |messages| && PerMessage(env, backend) && i < |messages|
    ensures var ps := PrepareAll(env, messages, nows);
            var reply := CallBackend(backend, store, ReadyOf(ps), BEST_EFFORT);
            var errors := ErrorsOf(reply, |ReadyOf(ps)|, BEST_EFFORT);
            && |errors| == |ReadyOf(ps)|
            && (ResultsOf(ps, errors)[i].success ==>
                  && Accepted(env, messages[i]) && messages[i].value.id in reply.store
                  && AsPosted(env, messages[i].value, nows[i], reply.store[messages[i].value.id]))
  {
    BestEffortIsOneByOne(env, backend, store, messages, nows);
    PostAllLength(env, store, messages, nows);
    var ps := PrepareAll(env, messages, nows);
    var errors := ErrorsOf(CallBackend(backend, store, ReadyOf(ps), BEST_EFFORT), |ReadyOf(ps)|, BEST_EFFORT);
    if ResultsOf(ps, errors)[i].success {
      SuccessHasItsCode(ps, errors, i);
      SuccessIsStored(env, store, messages, nows, i);
    }
  }

  lemma SuccessHasItsCode(ps: seq<Prepared>, errors: seq<Option<Code>>, i: nat)
    requires |errors| == |ReadyOf(ps)| && i < |ps| && ResultsOf(ps, errors)[i].success
    ensures ResultAt(ps, errors, i).code == SUCCESS
  {
  }

  /** All or nothing: the call goes to the store exactly if every message is accepted, and if the
      transaction then does not fail, all of them are in the store as they were posted. */
  lemma AllOrNothingStoresWhatWasPosted(
    env: Environment, backend: Backend, store: Store, messages: seq<Option<Message>>, nows: seq<int>)
    requires |nows| == |messages| > 0 && Atomic(env, backend)
    ensures var ps := PrepareAll(env, messages, nows);
            && (AllReady(ps) <==> forall i :: 0 <= i < |messages| ==> Accepted(env, messages[i]))
            && (AllReady(ps) && !CallBackend(backend, store, ReadyOf(ps), ALL_OR_NOTHING).failed ==>
                  var after := CallBackend(backend, store, ReadyOf(ps), ALL_OR_NOTHING).store;
                  forall i :: 0 <= i < |messages| ==>
                    messages[i].value.id in after && AsPosted(env, messages[i].value, nows[i], after[messages[i].value.id]))
  {
    var ps := PrepareAll(env, messages, nows);
    forall i | 0 <= i < |messages|
      ensures ps[i].Ready() <==> Accepted(env, messages[i])
      ensures ps[i].Ready() ==> AsPosted(env, messages[i].value, nows[i], ps[i].message.value)
    {
      PreparedMeaning(env, messages[i], nows[i]);
    }
    if AllReady(ps) {
      AllOrNothing(env, backend, store, ps);
      var reply := CallBackend(backend, store, ReadyOf(ps), ALL_OR_NOTHING);
      if !reply.failed {
        forall i | 0 <= i < |messages|
          ensures messages[i].value.id in reply.store
          ensures AsPosted(env, messages[i].value, nows[i], reply.store[messages[i].value.id])
        {
          assert Arrived(ps[i].message.value, reply.store);
        }
      }
    }
  }

  // ----- the parts of a bulk call --------------------------------------------------------------------

  /** The list for the store is made message by message, in order. */
  lemma {:induction false} ReadyOfParts(a: seq<Prepared>, b: seq<Prepared>)
    ensures ReadyOf(a + b) == ReadyOf(a) + ReadyOf(b)
    decreases |b|
  {
    if b == [] {
      assert a + b == a;
    } else {
      var n := |b| - 1;
      ReadyOfParts(a, b[..n]);
      assert a + b == (a + b[..n]) + [b[n]] && b == b[..n] + [b[n]];
      ReadyOfSnoc(a + b[..n], b[n]);
      ReadyOfSnoc(b[..n], b[n]);
    }
  }

  /** A message is on it if it is present and was not rejected. */
  lemma ReadyOfOne(p: Prepared)
    ensures ReadyOf([p]) == if p.message.Some? && p.rejection.None? then [p.message.value] else []
  {
    assert [p] == [] + [p];
    ReadyOfSnoc([], p);
  }

  lemma ReadyOfSnoc(ps: seq<Prepared>, p: Prepared)
    ensures ReadyOf(ps + [p]) == ReadyOf(ps) + if p.message.Some? && p.rejection.None? then [p.message.value] else []
  {
    assert (ps + [p])[..|ps|] == ps;
  }

  /** The size of a call is the sum of the sizes of all messages that are present, accepted or not. */
  lemma {:induction false} TotalSizeParts(env: Environment, a: seq<Prepared>, b: seq<Prepared>)
    ensures TotalSize(env, a + b) == TotalSize(env, a) + TotalSize(env, b)
    ensures forall p: Prepared :: TotalSize(env, [p]) == if p.message.Some? then env.size(p.message.value) else 0
    decreases |b|
  {
    assert forall p: Prepared :: [p][..0] == [];
    if b == [] {
      assert a + b == a;
    } else {
      var n := |b| - 1;
      TotalSizeParts(env, a, b[..n]);
      assert (a + b)[..|a + b| - 1] == a + b[..n];
    }
  }

  /** A result repeats the id of its message. The code of a rejected message is its rejection; that
      of the others follows the error at the position that counts the stored ones before it:
      SUCCESS without one, DUPLICATE_MESSAGE_ID for that, and INTERNAL_ERROR for all else. */
  lemma ResultMeaning(ps: seq<Prepared>, errors: seq<Option<Code>>, i: nat)
    requires |errors| == |ReadyOf(ps)| && i < |ps|
    ensures var (r, p) := (ResultsOf(ps, errors)[i], ps[i]);
            && (p.message.Some? ==> r.id == p.message.value.id)
            && (p.rejection.Some? ==> r.code == p.rejection.value && !r.success)
            && (p.message.Some? && p.rejection.None? ==>
                  var j := |ReadyOf(ps[..i])|;
                  && j < |errors|
                  && (r.success <==> errors[j].None?)
                  && (r.code == SUCCESS <==> errors[j].None?)
                  && (r.code == DUPLICATE_MESSAGE_ID <==> errors[j] == Some(DUPLICATE_MESSAGE_ID))
                  && (r.code == INTERNAL_ERROR <==> errors[j].Some? && errors[j] != Some(DUPLICATE_MESSAGE_ID)))
  {
    if ps[i].Ready() {
      ReadyPosition(ps, i);
    }
  }

  function SuccessfulAt(rs: seq<PostResult>): set<int> {
    set i | 0 <= i < |rs| && rs[i].success
  }

  lemma {:induction false} SuccessesAreCounted(rs: seq<PostResult>)
    ensures Successes(rs) == |SuccessfulAt(rs)|
  {
    if rs != [] {
      var n := |rs| - 1;
      SuccessesAreCounted(rs[..n]);
      assert SuccessfulAt(rs) == SuccessfulAt(rs[..n]) + if rs[n].success then {n} else {};
    }
  }

  /** The response carries the results and their numbers: how many are successes, and how many not. */
  lemma ResponseCounts(mode: Mode, rs: seq<PostResult>)
    ensures var r := ResponseOf(mode, rs);
            && r.results == rs
            && r.successfulCount == |SuccessfulAt(rs)| && r.failedCount == |rs| - |SuccessfulAt(rs)|
            && (r.success <==> if mode == ALL_OR_NOTHING then |SuccessfulAt(rs)| == |rs| else 0 < |SuccessfulAt(rs)|)
  {
    SuccessesAreCounted(rs);
  }

  /** When a store fails without naming errors, best effort takes every message as failed, while all
      or nothing takes none as failed. */
  lemma UnnamedErrors(reply: Reply, ready: nat, mode: Mode, j: nat)
    requires j < ready && reply.errors.None?
    ensures |ErrorsOf(reply, ready, mode)| == ready
    ensures ErrorsOf(reply, ready, mode)[j] == if reply.failed && mode == BEST_EFFORT then Some(INTERNAL_ERROR) else None
  {
  }

  // ----- retries ---------------------------------------------------------------------------------------

  /** Validation takes the maximum of attempts from the message, else from the queue, else 3; accepts
      -1, resetting the attempts left to -1, and any positive maximum that is not exceeded by the
      attempts left, which it then leaves alone; and nothing else. */
  lemma RetryMeaning(queueDefault: int, maxAttempts: int, attemptsLeft: int)
    ensures var (max, left, valid) := RetryVerdict(queueDefault, maxAttempts, attemptsLeft);
            && (maxAttempts != 0 ==> max == maxAttempts)
            && (maxAttempts == 0 && queueDefault != 0 ==> max == queueDefault)
            && (maxAttempts == 0 && queueDefault == 0 ==> max == 3)
            && (max == -1 ==> valid && left == -1)
            && (max != -1 ==> left == attemptsLeft && (valid <==> 0 <= attemptsLeft <= max && 1 <= max))
  {
  }
}
