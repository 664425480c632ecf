/** What a bulk call means for the store and for each message. */
module BulkGuarantees {
  import opened Wrappers
  import opened Posting
  import opened BulkPosting

  // ----- the response ----------------------------------------------------------------------------

  lemma {:induction false} SuccessesCount(rs: seq<PostResult>)
    ensures Successes(rs) <= |rs|
    ensures Successes(rs) == |rs| <==> forall i :: 0 <= i < |rs| ==> rs[i].success
    ensures Successes(rs) > 0 <==> exists i :: 0 <= i < |rs| && rs[i].success
  {
    if rs != [] {
      var n := |rs| - 1;
      var init := rs[..n];
      SuccessesCount(init);
      if Successes(init) > 0 {
        var i :| 0 <= i < n && init[i].success;
        assert rs[i].success;
      }
      if i :| 0 <= i < |rs| && rs[i].success {
        assert i < n ==> init[i].success;
      }
      if Successes(init) == n {
        assert forall i :: 0 <= i < n ==> init[i].success && rs[i] == init[i];
      } else {
        var i :| 0 <= i < n && !init[i].success;
        assert !rs[i].success;
      }
    }
  }

  /** Every message has one result, at its own index and under its own id; it is a success exactly
      if its code says so; the counts add up; and the call as a whole succeeds if all messages did,
      or for best effort if any did. */
  lemma ResponseIsComplete(mode: Mode, ps: seq<Prepared>, errors: seq<Option<Code>>)
    requires |errors| == |ReadyOf(ps)|
    requires forall i :: 0 <= i < |ps| ==> ps[i].rejection != Some(SUCCESS)
    ensures var response := ResponseOf(mode, ResultsOf(ps, errors));
            && |response.results| == |ps|
            && (forall i :: 0 <= i < |ps| ==>
                  var r := response.results[i];
                  && r.id == (if ps[i].message.Some? then ps[i].message.value.id else "")
                  && (r.success <==> r.code == SUCCESS)
                  && (r.success ==> ps[i].Ready()))
            && response.successfulCount + response.failedCount == |ps|
            && 0 <= response.failedCount
            && (response.success <==>
                  if mode == ALL_OR_NOTHING then forall i :: 0 <= i < |ps| ==> response.results[i].success
                  else exists i :: 0 <= i < |ps| && response.results[i].success)
  {
    SuccessesCount(ResultsOf(ps, errors));
  }

  // ----- best effort -----------------------------------------------------------------------------

  /** Storing messages one after the other: the store they leave, and the outcome of each. */
  function EnqueueAll(env: Environment, store: Store, ms: seq<Message>): (Store, seq<Option<Code>>) {
    if ms == [] then (store, [])
    else
      var (before, errors) := EnqueueAll(env, store, ms[..|ms| - 1]);
      var (after, error) := Enqueue(env, before, ms[|ms| - 1]);
      (after, errors + [error])
  }

  /** A bulk operation that stores each message for itself. */
  ghost predicate PerMessage(env: Environment, backend: Backend) {
    forall store: Store, ms: seq<Message> ::
      var (after, errors) := EnqueueAll(env, store, ms);
      && backend(store, ms, BEST_EFFORT).store == after
      && backend(store, ms, BEST_EFFORT).errors == Some(errors)
  }

  /** Posting the messages one call at a time. */
  function PostAll(env: Environment, store: Store, messages: seq<Option<Message>>, nows: seq<int>): (Store, seq<Code>)
    requires |nows| == |messages|
  {
    if messages == [] then (store, [])
    else
      var n := |messages| - 1;
      var (before, codes) := PostAll(env, store, messages[..n], nows[..n]);
      var (after, code) := Post(env, before, messages[n], nows[n]);
      (after, codes + [code])
  }

  lemma {:induction false} EnqueueAllLength(env: Environment, store: Store, ms: seq<Message>)
    ensures |EnqueueAll(env, store, ms).1| == |ms|
  {
    if ms != [] {
      EnqueueAllLength(env, store, ms[..|ms| - 1]);
    }
  }

  /** What the last prepared message adds. */
  lemma LastStored(env: Environment, store: Store, ps: seq<Prepared>)
    requires ps != []
    ensures var n := |ps| - 1;
            var (before, errors) := EnqueueAll(env, store, ReadyOf(ps[..n]));
            var (after, errors') := EnqueueAll(env, store, ReadyOf(ps));
            if ps[n].Ready() then
              var (after', error) := Enqueue(env, before, ps[n].message.value);
              after == after' && errors' == errors + [error]
            else after == before && errors' == errors
  {
    var n := |ps| - 1;
    if ps[n].Ready() {
      assert ReadyOf(ps)[..|ReadyOf(ps)| - 1] == ReadyOf(ps[..n]);
    } else {
      assert ReadyOf(ps) == ReadyOf(ps[..n]);
    }
  }

  /** Results of earlier messages do not depend on later ones. */
  lemma EarlierResult(ps: seq<Prepared>, errors: seq<Option<Code>>, n: nat, before: seq<Option<Code>>, i: nat)
    requires i < n <= |ps| && |errors| == |ReadyOf(ps)| && |before| == |ReadyOf(ps[..n])| && before <= errors
    ensures ResultAt(ps, errors, i) == ResultAt(ps[..n], before, i)
  {
    assert ps[..n][..i] == ps[..i];
    if ps[i].Ready() {
      ReadyPosition(ps[..n], i);
    }
  }

  /** The last message is reported as posting it would report it. */
  lemma LastResult(env: Environment, store: Store, messages: seq<Option<Message>>, nows: seq<int>)
    requires |nows| == |messages| > 0
    ensures var n := |messages| - 1;
            var ps := PrepareAll(env, messages, nows);
            var errors := EnqueueAll(env, store, ReadyOf(ps)).1;
            var before := EnqueueAll(env, store, ReadyOf(ps[..n])).0;
            && |errors| == |ReadyOf(ps)|
            && Post(env, before, messages[n], nows[n]) == (EnqueueAll(env, store, ReadyOf(ps)).0, ResultAt(ps, errors, n).code)
  {
    var n := |messages| - 1;
    var ps := PrepareAll(env, messages, nows);
    LastStored(env, store, ps);
    EnqueueAllLength(env, store, ReadyOf(ps));
    EnqueueAllLength(env, store, ReadyOf(ps[..n]));
  }

  /** The results a bulk call reports are these codes. */
  predicate Agrees(ps: seq<Prepared>, errors: seq<Option<Code>>, codes: seq<Code>) {
    && |errors| == |ReadyOf(ps)| && |codes| == |ps|
    && forall i :: 0 <= i < |ps| ==> ResultAt(ps, errors, i).code == codes[i]
  }

  lemma AgreesWithOneMore(ps: seq<Prepared>, errors: seq<Option<Code>>, before: seq<Option<Code>>, codes: seq<Code>, code: Code)
    requires ps != [] && |errors| == |ReadyOf(ps)| && before <= errors
    requires Agrees(ps[..|ps| - 1], before, codes) && ResultAt(ps, errors, |ps| - 1).code == code
    ensures Agrees(ps, errors, codes + [code])
  {
    var n := |ps| - 1;
    forall i | 0 <= i < |ps|
      ensures ResultAt(ps, errors, i).code == (codes + [code])[i]
    {
      if i < n {
        assert ResultAt(ps[..n], before, i).code == codes[i];
        EarlierResult(ps, errors, n, before, i);
      }
    }
  }

  /** The store after the ready ones is the store after posting each, and so are the outcomes. */
  lemma {:induction false} OneByOne(env: Environment, store: Store, messages: seq<Option<Message>>, nows: seq<int>)
    requires |nows| == |messages|
    ensures var ps := PrepareAll(env, messages, nows);
            && EnqueueAll(env, store, ReadyOf(ps)).0 == PostAll(env, store, messages, nows).0
            && Agrees(ps, EnqueueAll(env, store, ReadyOf(ps)).1, PostAll(env, store, messages, nows).1)
    decreases |messages|
  {
    if messages != [] {
      var ps := PrepareAll(env, messages, nows);
      var n := |messages| - 1;
      var (before, errors) := EnqueueAll(env, store, ReadyOf(ps[..n]));
      assert ps[..n] == PrepareAll(env, messages[..n], nows[..n]);
      OneByOne(env, store, messages[..n], nows[..n]);
      var codes := PostAll(env, store, messages[..n], nows[..n]).1;
      LastStored(env, store, ps);
      LastResult(env, store, messages, nows);
      AgreesWithOneMore(ps, EnqueueAll(env, store, ReadyOf(ps)).1, errors, codes, Post(env, before, messages[n], nows[n]).1);
    }
  }

  /** Best effort over such a store is posting one by one: the same store at the end, and for every
      message the same outcome. */
  lemma BestEffortIsOneByOne(env: Environment, backend: Backend, store: Store, messages: seq<Option<Message>>, nows: seq<int>)
    requires |nows| == |messages| && PerMessage(env, backend)
    ensures var ps := PrepareAll(env, messages, nows);
            var reply := CallBackend(backend, store, ReadyOf(ps), BEST_EFFORT);
            && reply.store == PostAll(env, store, messages, nows).0
            && Agrees(ps, ErrorsOf(reply, |ReadyOf(ps)|, BEST_EFFORT), PostAll(env, store, messages, nows).1)
  {
    var ps := PrepareAll(env, messages, nows);
    OneByOne(env, store, messages, nows);
    var reply := CallBackend(backend, store, ReadyOf(ps), BEST_EFFORT);
    if ReadyOf(ps) != [] {
      assert reply == backend(store, ReadyOf(ps), BEST_EFFORT);
    }
    assert ErrorsOf(reply, |ReadyOf(ps)|, BEST_EFFORT) == EnqueueAll(env, store, ReadyOf(ps)).1;
  }

  // ----- all or nothing --------------------------------------------------------------------------

  predicate NoErrors(errors: seq<Option<Code>>) {
    forall i :: 0 <= i < |errors| ==> errors[i] == None
  }

  /** A bulk operation that stores all messages without an error, or fails and stores none. That
      there was no error it may say of each message, or of none. */
  ghost predicate Atomic(env: Environment, backend: Backend) {
    forall store: Store, ms: seq<Message> :: AtomicReply(env, store, ms, backend(store, ms, ALL_OR_NOTHING))
  }

  predicate AtomicReply(env: Environment, store: Store, ms: seq<Message>, reply: Reply) {
    var (after, errors) := EnqueueAll(env, store, ms);
    if reply.failed then reply.store == store
    else NoErrors(errors) && reply.store == after && (reply.errors.None? || reply.errors == Some(errors))
  }

  /** It fails for no other reason than that some message cannot be stored. */
  ghost predicate FailsOnlyForMessages(env: Environment, backend: Backend) {
    forall store: Store, ms: seq<Message> ::
      backend(store, ms, ALL_OR_NOTHING).failed ==> !NoErrors(EnqueueAll(env, store, ms).1)
  }

  /** All of these messages can be stored: their ids are new and differ, and none is refused. */
  predicate Storable(env: Environment, store: Store, ms: seq<Message>) {
    && (forall i :: 0 <= i < |ms| ==> ms[i].id !in store && !env.refuses(ms[i]))
    && forall i, j :: 0 <= i < j < |ms| ==> ms[i].id != ms[j].id
  }

  /** Storing them one after the other meets no error exactly then. */
  lemma {:induction false} StorableExactly(env: Environment, store: Store, ms: seq<Message>)
    ensures NoErrors(EnqueueAll(env, store, ms).1) <==> Storable(env, store, ms)
    ensures NoErrors(EnqueueAll(env, store, ms).1) ==>
              forall id :: id in EnqueueAll(env, store, ms).0 <==> id in store || HasId(ms, id)
    decreases |ms|
  {
    if ms != [] {
      var n := |ms| - 1;
      var (init, m) := (ms[..n], ms[n]);
      var (errors, before) := (EnqueueAll(env, store, ms).1, EnqueueAll(env, store, init).1);
      EnqueueAllLength(env, store, init);
      StorableExactly(env, store, init);
      assert errors == before + [errors[n]];
      NoErrorsSnoc(before, errors[n]);
      HasIdSnoc(init, m);
      StorableSnoc(env, store, init, m);
      assert init + [m] == ms;
    }
  }

  lemma NoErrorsSnoc(errors: seq<Option<Code>>, error: Option<Code>)
    ensures NoErrors(errors + [error]) <==> NoErrors(errors) && error == None
  {
    assert (errors + [error])[|errors|] == error;
    assert forall i :: 0 <= i < |errors| ==> (errors + [error])[i] == errors[i];
  }

  predicate HasId(ms: seq<Message>, id: string) {
    exists i :: 0 <= i < |ms| && ms[i].id == id
  }

  lemma HasIdSnoc(ms: seq<Message>, m: Message)
    ensures forall id :: HasId(ms + [m], id) <==> HasId(ms, id) || id == m.id
  {
    var all := ms + [m];
    assert all[|ms|] == m;
    forall id | HasId(ms, id)
      ensures HasId(all, id)
    {
      var i :| 0 <= i < |ms| && ms[i].id == id;
      assert all[i] == ms[i];
    }
  }

  lemma StorableSnoc(env: Environment, store: Store, ms: seq<Message>, m: Message)
    ensures Storable(env, store, ms + [m]) <==>
              Storable(env, store, ms) && m.id !in store && !HasId(ms, m.id) && !env.refuses(m)
  {
    var all := ms + [m];
    assert all[|ms|] == m;
    assert forall i :: 0 <= i < |ms| ==> all[i] == ms[i];
  }

  /** When all messages are ready the store is handed the whole list, in order. */
  lemma {:induction false} WholeListReachesStore(ps: seq<Prepared>)
    requires AllReady(ps)
    ensures |ReadyOf(ps)| == |ps| && forall i :: 0 <= i < |ps| ==> ReadyOf(ps)[i] == ps[i].message.value
  {
    if ps != [] {
      WholeListReachesStore(ps[..|ps| - 1]);
    }
  }

  /** Messages stored without an error are in the store, next to what was there. */
  lemma {:induction false} AllStored(env: Environment, store: Store, ms: seq<Message>)
    requires NoErrors(EnqueueAll(env, store, ms).1)
    ensures forall i :: 0 <= i < |ms| ==> ms[i].id in EnqueueAll(env, store, ms).0 && EnqueueAll(env, store, ms).0[ms[i].id] == ms[i]
    ensures forall id :: id in store ==> id in EnqueueAll(env, store, ms).0 && EnqueueAll(env, store, ms).0[id] == store[id]
  {
    if ms != [] {
      var n := |ms| - 1;
      var init := ms[..n];
      EnqueueAllLength(env, store, init);
      var errors, before := EnqueueAll(env, store, ms).1, EnqueueAll(env, store, init).1;
      assert |errors| == n + 1 && forall i :: 0 <= i < n ==> before[i] == errors[i];
      assert errors[n] == None;
      AllStored(env, store, init);
      assert forall i :: 0 <= i < n ==> ms[i] == init[i];
    }
  }

  lemma NoErrorsSucceed(ps: seq<Prepared>, errors: seq<Option<Code>>)
    requires AllReady(ps) && |errors| == |ReadyOf(ps)| && NoErrors(errors)
    ensures ResponseOf(ALL_OR_NOTHING, ResultsOf(ps, errors)).success
  {
    forall i | 0 <= i < |ps|
      ensures ResultsOf(ps, errors)[i].success
    {
      ReadyPosition(ps, i);
    }
    SuccessesCount(ResultsOf(ps, errors));
  }

  /** When all messages are ready, the response of an all-or-nothing call reports success exactly
      if no message error is named. */
  lemma SuccessMeansNoErrors(ps: seq<Prepared>, errors: seq<Option<Code>>)
    requires AllReady(ps) && |errors| == |ReadyOf(ps)|
    ensures ResponseOf(ALL_OR_NOTHING, ResultsOf(ps, errors)).success <==> NoErrors(errors)
  {
    WholeListReachesStore(ps);
    SuccessesCount(ResultsOf(ps, errors));
    if NoErrors(errors) {
      NoErrorsSucceed(ps, errors);
    } else {
      var i :| 0 <= i < |errors| && errors[i] != None;
      ReadyUpTo(ps, i);
      assert ResultsOf(ps, errors)[i] == ResultAt(ps, errors, i);
      assert Reported(errors[i]) != SUCCESS;
    }
  }

  lemma ReadyUpTo(ps: seq<Prepared>, i: nat)
    requires AllReady(ps) && i < |ps|
    ensures |ReadyOf(ps[..i])| == i
  {
    WholeListReachesStore(ps[..i]);
  }

  /** When a transaction has failed, the response that goes with the error counts every message as
      a success exactly if the store named no message errors: either it gave none at all, or it
      gave a list without any. */
  lemma FailedTransactionCountsSuccesses(reply: Reply, ps: seq<Prepared>)
    requires AllReady(ps) && reply.failed && |ErrorsOf(reply, |ReadyOf(ps)|, ALL_OR_NOTHING)| == |ReadyOf(ps)|
    ensures var response := ResponseOf(ALL_OR_NOTHING, ResultsOf(ps, ErrorsOf(reply, |ReadyOf(ps)|, ALL_OR_NOTHING)));
            && (response.success <==> reply.errors.None? || NoErrors(reply.errors.value))
            && (response.success <==> response.successfulCount == |ps|)
            && response.failedCount == |ps| - response.successfulCount
  {
    SuccessMeansNoErrors(ps, ErrorsOf(reply, |ReadyOf(ps)|, ALL_OR_NOTHING));
  }

  /** The messages of a call and the store it leaves. */
  predicate AllArrived(ps: seq<Prepared>, store: Store, after: Store)
    requires AllReady(ps)
  {
    && (forall i :: 0 <= i < |ps| ==> Arrived(ps[i].message.value, after))
    && (forall id :: id in store ==> id in after && after[id] == store[id])
  }

  predicate Arrived(m: Message, store: Store) {
    m.id in store && store[m.id] == m
  }

  /** Success of a transaction, whichever way the store says so, reaches every message. */
  lemma SuccessfulReply(env: Environment, store: Store, ps: seq<Prepared>, reply: Reply)
    requires AllReady(ps) && AtomicReply(env, store, ReadyOf(ps), reply) && !reply.failed
    ensures var errors := ErrorsOf(reply, |ReadyOf(ps)|, ALL_OR_NOTHING);
            && AllArrived(ps, store, reply.store)
            && |errors| == |ReadyOf(ps)|
            && ResponseOf(ALL_OR_NOTHING, ResultsOf(ps, errors)).success
  {
    var ready := ReadyOf(ps);
    WholeListReachesStore(ps);
    EnqueueAllLength(env, store, ready);
    AllStored(env, store, ready);
    NoErrorsSucceed(ps, ErrorsOf(reply, |ready|, ALL_OR_NOTHING));
    forall i | 0 <= i < |ps|
      ensures Arrived(ps[i].message.value, reply.store)
    {
      assert ready[i] == ps[i].message.value;
    }
  }

  /** All or nothing over an atomic store: either the call reports success, every message is stored
      as it was prepared, and everything stored before is still there; or the store is unchanged. */
  lemma AllOrNothing(env: Environment, backend: Backend, store: Store, ps: seq<Prepared>)
    requires Atomic(env, backend) && AllReady(ps) && ps != []
    ensures var reply := CallBackend(backend, store, ReadyOf(ps), ALL_OR_NOTHING);
            var errors := ErrorsOf(reply, |ReadyOf(ps)|, ALL_OR_NOTHING);
            if reply.failed then reply.store == store
            else
              && AllArrived(ps, store, reply.store)
              && |errors| == |ReadyOf(ps)|
              && ResponseOf(ALL_OR_NOTHING, ResultsOf(ps, errors)).success
  {
    WholeListReachesStore(ps);
    var reply := backend(store, ReadyOf(ps), ALL_OR_NOTHING);
    assert AtomicReply(env, store, ReadyOf(ps), reply);
    if !reply.failed {
      SuccessfulReply(env, store, ps, reply);
    }
  }

  /** And if the store fails only for the messages' sake, the call succeeds exactly if all ids are
      new and differ and no message is refused. */
  lemma AllOrNothingSucceedsExactly(env: Environment, backend: Backend, store: Store, ps: seq<Prepared>)
    requires Atomic(env, backend) && FailsOnlyForMessages(env, backend) && AllReady(ps) && ps != []
    ensures !CallBackend(backend, store, ReadyOf(ps), ALL_OR_NOTHING).failed <==> Storable(env, store, ReadyOf(ps))
  {
    WholeListReachesStore(ps);
    StorableExactly(env, store, ReadyOf(ps));
    assert AtomicReply(env, store, ReadyOf(ps), backend(store, ReadyOf(ps), ALL_OR_NOTHING));
  }

  // ----- what is stored --------------------------------------------------------------------------

  /** A validator that ends with the retry validator. */
  ghost predicate ChecksRetries(env: Environment) {
    forall m: Message :: env.validate(m).1.Valid? ==>
      exists max: int, left: int ::
        RetryVerdict(env.queue.defaultMaxAttempts, max, left) == (env.validate(m).0.maxAttempts, env.validate(m).0.attemptsLeft, true)
  }

  /** Every message handed to the store has consistent retry fields. */
  lemma {:induction false} StoredMessagesAreWellCounted(env: Environment, messages: seq<Option<Message>>, nows: seq<int>, m: Message)
    requires |nows| == |messages| && ChecksRetries(env)
    requires m in ReadyOf(PrepareAll(env, messages, nows))
    ensures m.metadata.Some? && WellCounted(m.metadata.value.maxAttempts, m.metadata.value.attemptsLeft)
  {
    var n := |messages| - 1;
    var ps := PrepareAll(env, messages, nows);
    assert ps[..n] == PrepareAll(env, messages[..n], nows[..n]);
    if m in ReadyOf(ps[..n]) {
      StoredMessagesAreWellCounted(env, messages[..n], nows[..n], m);
    } else {
      assert ps[n].Ready() && m == ps[n].message.value;
      var metadata := env.validate(messages[n].value).0;
      var max: int, left: int :| RetryVerdict(env.queue.defaultMaxAttempts, max, left) == (metadata.maxAttempts, metadata.attemptsLeft, true);
      RetryFieldsAreConsistent(env.queue, metadata, nows[n]);
    }
  }
}
