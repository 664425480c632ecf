/** Posting one message: validation, defaults, and what the store says. */
module Posting {
  import opened Wrappers
  import opened LeasePolicies

  const DEFAULT_MAX_ATTEMPTS: int := 3
  const INFINITE_RETRIES: int := -1

  datatype State = Unset | Invisible | Pending

  datatype Metadata = Metadata(
    scheduledTime: Option<int>,
    state: State,
    maxAttempts: int,
    attemptsLeft: int,
    leasePolicy: Option<PolicyProto>)

  datatype Message = Message(id: string, payload: string, metadata: Option<Metadata>)

  datatype QueueDefaults = QueueDefaults(defaultMaxAttempts: int, leasePolicy: Option<PolicyProto>)

  // ----- retry configuration -------------------------------------------------------------------

  /** The retry fields of a message, which its validator normalises in place. */
  class RetryFields {
    var maxAttempts: int
    var attemptsLeft: int

    /** Accepts, and repairs, as RetryVerdict says. */
    method Validate(queueDefault: int) returns (valid: bool)
      modifies this
      ensures (maxAttempts, attemptsLeft, valid) == RetryVerdict(queueDefault, old(maxAttempts), old(attemptsLeft))
    {
      valid := true;
      var attempts := maxAttempts;
      if attempts == 0 {
        if queueDefault != 0 {
          attempts := queueDefault;
        } else {
          attempts := DEFAULT_MAX_ATTEMPTS;
        }
        maxAttempts := attempts;
      }
      if attempts < INFINITE_RETRIES || attempts == 0 {
        valid := false;
      }
      if attempts == INFINITE_RETRIES {
        if attemptsLeft != INFINITE_RETRIES {
          attemptsLeft := INFINITE_RETRIES;
        }
      } else {
        if attemptsLeft < 0 {
          valid := false;
        }
        if attemptsLeft > attempts {
          valid := false;
        }
      }
    }
  }

  /** The retry fields after validation, and whether they are accepted. */
  function RetryVerdict(queueDefault: int, maxAttempts: int, attemptsLeft: int): (int, int, bool) {
    var attempts := if maxAttempts != 0 then maxAttempts else if queueDefault != 0 then queueDefault else DEFAULT_MAX_ATTEMPTS;
    if attempts == INFINITE_RETRIES then (attempts, INFINITE_RETRIES, true)
    else (attempts, attemptsLeft, attempts > 0 && 0 <= attemptsLeft <= attempts)
  }

  /** What a stored message may say about retries. */
  predicate WellCounted(maxAttempts: int, attemptsLeft: int) {
    (maxAttempts == INFINITE_RETRIES && attemptsLeft == INFINITE_RETRIES) || 1 <= attemptsLeft <= maxAttempts
  }

  // ----- preparing a message -------------------------------------------------------------------

  /** Fill in what the message leaves to its queue. */
  function Enrich(q: QueueDefaults, m: Metadata, now: int): Metadata {
    var max := if m.maxAttempts != 0 then m.maxAttempts
               else if q.defaultMaxAttempts > 0 then q.defaultMaxAttempts
               else DEFAULT_MAX_ATTEMPTS;
    Metadata(
      m.scheduledTime,
      if m.scheduledTime.Some? && m.scheduledTime.value > now then Invisible else Pending,
      max,
      if m.attemptsLeft == 0 then max else m.attemptsLeft,
      if m.leasePolicy.None? then q.leasePolicy else m.leasePolicy)
  }

  /** Enrichment keeps what the message says, leaves no gap, and is done once: a message enriched
      again at the same instant stays as it is. A message is visible at once unless it is scheduled
      for later. */
  lemma EnrichmentFillsGaps(q: QueueDefaults, m: Metadata, now: int)
    ensures var e := Enrich(q, m, now);
            && Enrich(q, e, now) == e
            && e.maxAttempts != 0 && e.attemptsLeft != 0 && e.state != Unset
            && (m.maxAttempts != 0 ==> e.maxAttempts == m.maxAttempts)
            && (m.attemptsLeft != 0 ==> e.attemptsLeft == m.attemptsLeft)
            && (m.leasePolicy.Some? ==> e.leasePolicy == m.leasePolicy)
            && (m.leasePolicy.None? ==> e.leasePolicy == q.leasePolicy)
            && (m.maxAttempts == 0 ==> 0 < e.maxAttempts)
            && (e.state == Invisible <==> e.scheduledTime.Some? && now < e.scheduledTime.value)
            && e.scheduledTime == m.scheduledTime
  {
  }

  /** A message that passes the retry validator is stored with consistent retry fields, and no
      other message is: acceptance is exactly what makes them so. */
  lemma RetryFieldsAreConsistent(q: QueueDefaults, m: Metadata, now: int)
    ensures var (max, left, valid) := RetryVerdict(q.defaultMaxAttempts, m.maxAttempts, m.attemptsLeft);
            var stored := Enrich(q, m.(maxAttempts := max, attemptsLeft := left), now);
            valid <==> WellCounted(stored.maxAttempts, stored.attemptsLeft)
  {
  }

  datatype Code = SUCCESS | VALIDATION_FAILED | SCHEMA_MISMATCH | DUPLICATE_MESSAGE_ID | INTERNAL_ERROR

  datatype Verdict = Valid | Invalid(schemaMismatch: bool)

  /** The queue, the message validator (which may rewrite metadata; without one, it is the identity
      that accepts), and the store's own reasons to refuse a message besides a duplicate id. */
  datatype Environment = Environment(
    queue: QueueDefaults,
    validate: Message -> (Metadata, Verdict),
    refuses: Message -> bool,
    size: Message -> nat)

  /** A message as it stands after validation and enrichment, and why it is rejected, if it is. */
  datatype Prepared = Prepared(message: Option<Message>, rejection: Option<Code>) {
    predicate Ready() {
      message.Some? && rejection.None?
    }
  }

  function Prepare(env: Environment, message: Option<Message>, now: int): (p: Prepared)
    ensures p.rejection.None? ==> p.message.Some?
    ensures p.message.Some? <==> message.Some?
    ensures p.message.Some? ==> p.message.value.id == message.value.id
    ensures p.rejection != Some(SUCCESS)
  {
    if message.None? || message.value.metadata.None? then Prepared(message, Some(VALIDATION_FAILED))
    else
      var (metadata, verdict) := env.validate(message.value);
      Prepared(Some(message.value.(metadata := Some(Enrich(env.queue, metadata, now)))),
               match verdict
               case Valid => None
               case Invalid(mismatch) => Some(if mismatch then SCHEMA_MISMATCH else VALIDATION_FAILED))
  }

  // ----- storing -------------------------------------------------------------------------------

  type Store = map<string, Message>

  /** Storing one message; None is success. */
  function Enqueue(env: Environment, store: Store, m: Message): (Store, Option<Code>) {
    if m.id in store then (store, Some(DUPLICATE_MESSAGE_ID))
    else if env.refuses(m) then (store, Some(INTERNAL_ERROR))
    else (store[m.id := m], None)
  }

  /** Posting one message. */
  function Post(env: Environment, store: Store, message: Option<Message>, now: int): (Store, Code) {
    var p := Prepare(env, message, now);
    if !p.Ready() then (store, p.rejection.value)
    else
      var (store', error) := Enqueue(env, store, p.message.value);
      (store', error.GetOr(SUCCESS))
  }
}
