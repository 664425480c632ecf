/** The bulk operation of the two SQL stores: one transaction for all messages, or one for each. */
module SqlStore {
  import opened Wrappers
  import opened Posting
  import opened BulkPosting
  import opened BulkGuarantees

  datatype Dialect = Postgres | Sqlite

  /** The error given to a message that was rolled back because another failed. SQLite wraps the
      error of that other message, so that a duplicate id reads as one; Postgres only quotes it. */
  function RolledBack(d: Dialect, cause: Code): Code {
    if d == Sqlite && cause == DUPLICATE_MESSAGE_ID then DUPLICATE_MESSAGE_ID else INTERNAL_ERROR
  }

  /** The errors of a transaction in which message i failed. */
  function RollbackErrors(d: Dialect, n: nat, i: nat, cause: Code): (errors: seq<Option<Code>>)
    ensures |errors| == n
    ensures forall j :: 0 <= j < n ==> errors[j] == Some(if j == i then cause else RolledBack(d, cause))
  {
    seq(n, j => Some(if j == i then cause else RolledBack(d, cause)))
  }

  function FirstError(errors: seq<Option<Code>>): (r: Option<nat>)
    ensures r.None? <==> NoErrors(errors)
    ensures r.Some? ==> r.value < |errors| && errors[r.value].Some? && NoErrors(errors[..r.value])
  {
    if errors == [] then None
    else
      var n := |errors| - 1;
      assert errors == errors[..n] + [errors[n]];
      NoErrorsSnoc(errors[..n], errors[n]);
      var before := FirstError(errors[..n]);
      if before.Some? then
        assert errors[..n][..before.value] == errors[..before.value];
        before
      else if errors[n].Some? then Some(n)
      else None
  }

  /** What the store answers, commits saying whether the database commits the transaction for all
      messages when none has made it fail. (In best effort, a message whose own transaction does not
      commit is one that the store refuses.) */
  function BulkReply(env: Environment, d: Dialect, store: Store, ms: seq<Message>, mode: Mode, commits: bool): Reply {
    var (after, errors) := EnqueueAll(env, store, ms);
    if mode == BEST_EFFORT then Reply(after, Some(errors), false)
    else
      match FirstError(errors)
      case Some(i) => Reply(store, Some(RollbackErrors(d, |ms|, i, errors[i].value)), true)
      case None =>
        if commits then Reply(after, Some(errors), false)
        else Reply(store, Some(RollbackErrors(d, |ms|, |ms|, INTERNAL_ERROR)), true)
  }

  function AsBackend(env: Environment, d: Dialect, commits: bool): Backend {
    (store, ms, mode) => BulkReply(env, d, store, ms, mode, commits)
  }

  class Storage {
    const env: Environment
    const dialect: Dialect
    var store: Store

    constructor (env: Environment, dialect: Dialect)
      ensures this.env == env && this.dialect == dialect && store == map[]
    {
      this.env, this.dialect, store := env, dialect, map[];
    }

    method EnqueueMessagesBulk(messages: seq<Message>, mode: Mode, commits: bool)
      returns (messageErrors: seq<Option<Code>>, failed: bool)
      modifies this`store
      ensures Reply(store, Some(messageErrors), failed) == BulkReply(env, dialect, old(store), messages, mode, commits)
    {
      failed := false;
      if mode == ALL_OR_NOTHING {
        messageErrors, failed := EnqueueTogether(messages, commits);
      } else {
        messageErrors := [];
        for i := 0 to |messages|
          invariant (store, messageErrors) == EnqueueAll(env, old(store), messages[..i])
        {
          assert messages[..i + 1][..i] == messages[..i];
          var (after, error) := Enqueue(env, store, messages[i]);
          if error.None? {
            store := after;
          }
          messageErrors := messageErrors + [error];
        }
        assert messages[..|messages|] == messages;
      }
    }

    /** One transaction: the changes are a draft until it commits, and the first error ends it. */
    method EnqueueTogether(messages: seq<Message>, commits: bool) returns (messageErrors: seq<Option<Code>>, failed: bool)
      modifies this`store
      ensures Reply(store, Some(messageErrors), failed) == BulkReply(env, dialect, old(store), messages, ALL_OR_NOTHING, commits)
    {
      var draft := store;
      messageErrors := [];
      for i := 0 to |messages|
        invariant (draft, messageErrors) == EnqueueAll(env, store, messages[..i]) && NoErrors(messageErrors)
        invariant store == old(store) && |messageErrors| == i
      {
        assert messages[..i + 1][..i] == messages[..i];
        var (after, error) := Enqueue(env, draft, messages[i]);
        if error.Some? {
          FirstErrorAt(env, store, messages, i);
          return RollbackErrors(dialect, |messages|, i, error.value), true;
        }
        draft, messageErrors := after, messageErrors + [error];
      }
      assert messages[..|messages|] == messages;
      if !commits {
        return RollbackErrors(dialect, |messages|, |messages|, INTERNAL_ERROR), true;
      }
      store := draft;
      failed := false;
    }
  }

  lemma {:induction false} ErrorsOfPrefix(env: Environment, store: Store, ms: seq<Message>, k: nat)
    requires k <= |ms|
    ensures |EnqueueAll(env, store, ms).1| == |ms| && EnqueueAll(env, store, ms[..k]).1 == EnqueueAll(env, store, ms).1[..k]
    decreases |ms|
  {
    EnqueueAllLength(env, store, ms);
    if k == |ms| {
      assert ms[..k] == ms;
    } else {
      var n := |ms| - 1;
      assert ms[..n][..k] == ms[..k];
      ErrorsOfPrefix(env, store, ms[..n], k);
    }
  }

  /** If the messages before i are stored and message i is not, it is the first error. */
  lemma FirstErrorAt(env: Environment, store: Store, ms: seq<Message>, i: nat)
    requires i < |ms| && NoErrors(EnqueueAll(env, store, ms[..i]).1)
    requires Enqueue(env, EnqueueAll(env, store, ms[..i]).0, ms[i]).1.Some?
    ensures var errors := EnqueueAll(env, store, ms).1;
            && |errors| == |ms| && FirstError(errors) == Some(i)
            && errors[i] == Enqueue(env, EnqueueAll(env, store, ms[..i]).0, ms[i]).1
  {
    var errors := EnqueueAll(env, store, ms).1;
    ErrorsOfPrefix(env, store, ms, i);
    ErrorsOfPrefix(env, store, ms, i + 1);
    EnqueueAllLength(env, store, ms[..i]);
    assert ms[..i + 1][..i] == ms[..i];
    assert errors[..i + 1][i] == errors[i];
    FirstErrorIs(errors, i);
  }

  lemma {:induction false} FirstErrorIs(errors: seq<Option<Code>>, i: nat)
    requires i < |errors| && NoErrors(errors[..i]) && errors[i].Some?
    ensures FirstError(errors) == Some(i)
    decreases |errors|
  {
    var n := |errors| - 1;
    if i < n {
      assert errors[..n][..i] == errors[..i];
      FirstErrorIs(errors[..n], i);
    }
  }

  // ----- what the stores meet ---------------------------------------------------------------------

  /** Both stores are atomic, whether the database commits or not, and if it does they fail only for
      the messages' sake. */
  lemma ShippedStoreIsAtomic(env: Environment, d: Dialect, commits: bool)
    ensures Atomic(env, AsBackend(env, d, commits))
    ensures FailsOnlyForMessages(env, AsBackend(env, d, true))
  {
  }

  /** And they store each message for itself in best effort. */
  lemma ShippedStoreIsPerMessage(env: Environment, d: Dialect)
    ensures PerMessage(env, AsBackend(env, d, true))
  {
  }

  lemma FailureIsReported(error: Option<Code>)
    requires error.Some?
    ensures Reported(error) != SUCCESS
  {
  }

  lemma RollbackNamesEveryMessage(env: Environment, d: Dialect, commits: bool, store: Store, ms: seq<Message>)
    ensures var reply := BulkReply(env, d, store, ms, ALL_OR_NOTHING, commits);
            && reply.errors.Some? && |reply.errors.value| == |ms|
            && (reply.failed ==> forall j :: 0 <= j < |ms| ==> reply.errors.value[j].Some?)
  {
    EnqueueAllLength(env, store, ms);
  }

  /** When a transaction of theirs has failed, the response counts no message as a success. */
  lemma ShippedStoreNeverMisreports(env: Environment, d: Dialect, commits: bool, store: Store, ps: seq<Prepared>)
    requires AllReady(ps)
    ensures var ready := ReadyOf(ps);
            var reply := CallBackend(AsBackend(env, d, commits), store, ready, ALL_OR_NOTHING);
            var errors := ErrorsOf(reply, |ready|, ALL_OR_NOTHING);
            && |errors| == |ready|
            && (reply.failed ==> forall i :: 0 <= i < |ps| ==> !ResultsOf(ps, errors)[i].success)
  {
    var ready := ReadyOf(ps);
    RollbackNamesEveryMessage(env, d, commits, store, ready);
    var reply := CallBackend(AsBackend(env, d, commits), store, ready, ALL_OR_NOTHING);
    var errors := ErrorsOf(reply, |ready|, ALL_OR_NOTHING);
    if reply.failed {
      forall i | 0 <= i < |ps|
        ensures !ResultsOf(ps, errors)[i].success
      {
        ReadyPosition(ps, i);
        FailureIsReported(errors[|ReadyOf(ps[..i])|]);
      }
    }
  }

  // ----- who is blamed for a duplicate --------------------------------------------------------------

  /** Message i is a duplicate, of a stored message or of one before it in the list, and the first
      one that cannot be stored. */
  predicate StoppedByDuplicate(env: Environment, store: Store, ms: seq<Message>, i: nat) {
    i < |ms| && Storable(env, store, ms[..i]) && (ms[i].id in store || HasId(ms[..i], ms[i].id))
  }

  lemma StoppedExactly(env: Environment, store: Store, ms: seq<Message>, i: nat)
    requires i < |ms|
    ensures var errors := EnqueueAll(env, store, ms).1;
            && |errors| == |ms|
            && (StoppedByDuplicate(env, store, ms, i) <==> FirstError(errors) == Some(i) && errors[i] == Some(DUPLICATE_MESSAGE_ID))
  {
    var errors := EnqueueAll(env, store, ms).1;
    ErrorsOfPrefix(env, store, ms, i);
    StorableExactly(env, store, ms[..i]);
    ErrorAt(env, store, ms, i);
    if NoErrors(errors[..i]) && errors[i].Some? {
      FirstErrorIs(errors, i);
    }
  }

  /** The error of a message is that of storing it after those before it. */
  lemma ErrorAt(env: Environment, store: Store, ms: seq<Message>, i: nat)
    requires i < |ms|
    ensures var errors := EnqueueAll(env, store, ms).1;
            |errors| == |ms| && errors[i] == Enqueue(env, EnqueueAll(env, store, ms[..i]).0, ms[i]).1
  {
    ErrorsOfPrefix(env, store, ms, i + 1);
    EnqueueAllLength(env, store, ms[..i]);
    assert ms[..i + 1][..i] == ms[..i];
    assert EnqueueAll(env, store, ms).1[..i + 1][i] == EnqueueAll(env, store, ms).1[i];
  }

  /** Message j is reported as a duplicate although it is not the one that stopped the transaction. */
  predicate Blamed(env: Environment, d: Dialect, store: Store, ms: seq<Message>, commits: bool, j: nat) {
    var reply := BulkReply(env, d, store, ms, ALL_OR_NOTHING, commits);
    && j < |ms| && reply.errors.Some? && j < |reply.errors.value|
    && Reported(reply.errors.value[j]) == DUPLICATE_MESSAGE_ID
    && !StoppedByDuplicate(env, store, ms, j)
  }

  lemma BlameMeansDuplicate(env: Environment, d: Dialect, store: Store, ms: seq<Message>, commits: bool, j: nat)
    requires Blamed(env, d, store, ms, commits, j)
    ensures d == Sqlite && |ms| > 1 && exists i: nat :: StoppedByDuplicate(env, store, ms, i)
  {
    var errors := EnqueueAll(env, store, ms).1;
    StoppedExactly(env, store, ms, j);
    var first := FirstError(errors);
    if first.Some? {
      StoppedExactly(env, store, ms, first.value);
      assert StoppedByDuplicate(env, store, ms, first.value);
    }
  }

  lemma DuplicateBlamesOthers(env: Environment, store: Store, ms: seq<Message>, commits: bool, i: nat, j: nat)
    requires StoppedByDuplicate(env, store, ms, i) && j < |ms| && j != i
    ensures Blamed(env, Sqlite, store, ms, commits, j)
  {
    StoppedExactly(env, store, ms, i);
    StoppedExactly(env, store, ms, j);
  }

  /** A message that is not the one that stopped it is reported as a duplicate exactly if the store
      is SQLite, the list has another message, and a duplicate stopped the transaction. */
  lemma DuplicateIsBlamed(env: Environment, d: Dialect, store: Store, ms: seq<Message>, commits: bool)
    ensures (exists j: nat :: Blamed(env, d, store, ms, commits, j)) <==>
              d == Sqlite && |ms| > 1 && exists i: nat :: StoppedByDuplicate(env, store, ms, i)
  {
    if j: nat :| Blamed(env, d, store, ms, commits, j) {
      BlameMeansDuplicate(env, d, store, ms, commits, j);
    }
    if d == Sqlite && |ms| > 1 && exists i: nat :: StoppedByDuplicate(env, store, ms, i) {
      var i: nat :| StoppedByDuplicate(env, store, ms, i);
      DuplicateBlamesOthers(env, store, ms, commits, i, if i == 0 then 1 else 0);
    }
  }

  /** Two messages, the first of them stored already: the second, which could be stored by itself, is
      reported as a duplicate. */
  lemma InnocentMessageBlamed(env: Environment, commits: bool) returns (store: Store, ms: seq<Message>)
    requires !env.refuses(Message("b", "", None))
    ensures |ms| == 2 && Storable(env, store, ms[1..]) && Blamed(env, Sqlite, store, ms, commits, 1)
  {
    var (a, b) := (Message("a", "", None), Message("b", "", None));
    store, ms := map["a" := a], [a, b];
    assert ms[..0] == [] && ms[1..] == [b];
    assert StoppedByDuplicate(env, store, ms, 0);
    DuplicateBlamesOthers(env, store, ms, commits, 0, 1);
  }
}
