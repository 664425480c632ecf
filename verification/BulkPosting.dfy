/** Posting many messages in one call. */
module BulkPosting {
  import opened Wrappers
  import opened Posting

  const MAX_MESSAGES: nat := 1000
  const MAX_PAYLOAD_BYTES: nat := 1_048_576

  datatype Mode = ALL_OR_NOTHING | BEST_EFFORT

  datatype PostResult = PostResult(id: string, success: bool, code: Code)

  datatype Response = Response(success: bool, successfulCount: int, failedCount: int, results: seq<PostResult>)

  datatype BulkError = NoMessages | TooManyMessages | MessageRejected(index: nat) | PayloadTooLarge | ErrorCountMismatch | TransactionFailed(response: Response)

  /** What the store's bulk operation answers: its new contents, an error or success per message
      (possibly absent altogether), and whether the transaction as a whole failed. */
  datatype Reply = Reply(store: Store, errors: Option<seq<Option<Code>>>, failed: bool)

  type Backend = (Store, seq<Message>, Mode) -> Reply

  // ----- specification -------------------------------------------------------------------------

  function PrepareAll(env: Environment, messages: seq<Option<Message>>, nows: seq<int>): (ps: seq<Prepared>)
    requires |nows| == |messages|
    ensures |ps| == |messages|
    ensures forall i :: 0 <= i < |ps| ==> ps[i] == Prepare(env, messages[i], nows[i])
  {
    seq(|messages|, i requires 0 <= i < |messages| => Prepare(env, messages[i], nows[i]))
  }

  /** The messages to be stored, in order. */
  function ReadyOf(ps: seq<Prepared>): seq<Message> {
    if ps == [] then []
    else
      var p := ps[|ps| - 1];
      ReadyOf(ps[..|ps| - 1]) + if p.Ready() then [p.message.value] else []
  }

  function TotalSize(env: Environment, ps: seq<Prepared>): nat {
    if ps == [] then 0
    else
      var p := ps[|ps| - 1];
      TotalSize(env, ps[..|ps| - 1]) + if p.message.Some? then env.size(p.message.value) else 0
  }

  /** Errors per stored message. When the transaction failed without any, best effort must take the
      outcome of every message as unknown; otherwise none means success. */
  function ErrorsOf(reply: Reply, ready: nat, mode: Mode): seq<Option<Code>> {
    if reply.errors.Some? then reply.errors.value
    else if reply.failed && mode == BEST_EFFORT then seq(ready, _ => Some(INTERNAL_ERROR))
    else seq(ready, _ => None)
  }

  /** A store error is reported as a duplicate id or as an internal error. */
  function Reported(error: Option<Code>): Code {
    match error
    case None => SUCCESS
    case Some(c) => if c == DUPLICATE_MESSAGE_ID then DUPLICATE_MESSAGE_ID else INTERNAL_ERROR
  }

  function ResultAt(ps: seq<Prepared>, errors: seq<Option<Code>>, i: nat): PostResult
    requires i < |ps| && |errors| == |ReadyOf(ps)|
  {
    var p := ps[i];
    if p.Ready() then
      ReadyPosition(ps, i);
      var code := Reported(errors[|ReadyOf(ps[..i])|]);
      PostResult(p.message.value.id, code == SUCCESS, code)
    else
      PostResult(if p.message.Some? then p.message.value.id else "", false, p.rejection.GetOr(VALIDATION_FAILED))
  }

  function ResultsOf(ps: seq<Prepared>, errors: seq<Option<Code>>): (rs: seq<PostResult>)
    requires |errors| == |ReadyOf(ps)|
    ensures |rs| == |ps| && forall i :: 0 <= i < |ps| ==> rs[i] == ResultAt(ps, errors, i)
  {
    seq(|ps|, i requires 0 <= i < |ps| => ResultAt(ps, errors, i))
  }

  function Successes(rs: seq<PostResult>): nat {
    if rs == [] then 0 else Successes(rs[..|rs| - 1]) + if rs[|rs| - 1].success then 1 else 0
  }

  function ResponseOf(mode: Mode, rs: seq<PostResult>): Response {
    var ok := Successes(rs);
    Response(if mode == ALL_OR_NOTHING then ok == |rs| else ok > 0, ok, |rs| - ok, rs)
  }

  /** A rejected message, if there is one, is the reason an all-or-nothing call ends early. */
  predicate AllReady(ps: seq<Prepared>) {
    forall i :: 0 <= i < |ps| ==> ps[i].Ready()
  }

  /** The error names the first message that is not ready. */
  predicate RejectsFirst(ps: seq<Prepared>, e: BulkError) {
    e.MessageRejected? && e.index < |ps| && !ps[e.index].Ready() && forall i :: 0 <= i < e.index ==> ps[i].Ready()
  }

  /** A message is stored at the position that counts the stored ones before it. */
  lemma {:induction false} ReadyPosition(ps: seq<Prepared>, i: nat)
    requires i < |ps| && ps[i].Ready()
    ensures |ReadyOf(ps[..i])| < |ReadyOf(ps)|
    ensures ReadyOf(ps)[|ReadyOf(ps[..i])|] == ps[i].message.value
    ensures ReadyOf(ps[..i]) <= ReadyOf(ps)
  {
    if i < |ps| - 1 {
      assert ps[..|ps| - 1][..i] == ps[..i];
      ReadyPosition(ps[..|ps| - 1], i);
    }
  }

  function CallBackend(backend: Backend, store: Store, ready: seq<Message>, mode: Mode): Reply {
    if ready == [] then Reply(store, None, false) else backend(store, ready, mode)
  }

  // ----- implementation ------------------------------------------------------------------------

  class Poster {
    const env: Environment
    const backend: Backend
    var store: Store

    constructor (env: Environment, backend: Backend, store: Store)
      ensures this.env == env && this.backend == backend && this.store == store
    {
      this.env, this.backend, this.store := env, backend, store;
    }

    /** Validate and enrich the messages in place, and note why some are rejected. An all-or-nothing
        call stops at the first of those. */
    method PrepareMessages(messages: array<Option<Message>>, nows: seq<int>, mode: Mode, rejections: array<Option<Code>>)
      returns (stopped: Option<nat>)
      requires |nows| == messages.Length == rejections.Length
      modifies messages, rejections
      ensures stopped.Some? <==> mode == ALL_OR_NOTHING && !AllReady(PrepareAll(env, old(messages[..]), nows))
      ensures stopped.Some? ==>
                stopped.value < messages.Length && !Prepare(env, old(messages[stopped.value]), nows[stopped.value]).Ready()
                && forall i :: 0 <= i < stopped.value ==> Prepare(env, old(messages[i]), nows[i]).Ready()
      ensures stopped.None? ==> forall i :: 0 <= i < messages.Length ==>
                Prepared(messages[i], rejections[i]) == Prepare(env, old(messages[i]), nows[i])
    {
      for i := 0 to messages.Length
        invariant forall j :: 0 <= j < i ==> Prepared(messages[j], rejections[j]) == Prepare(env, old(messages[j]), nows[j])
        invariant forall j :: i <= j < messages.Length ==> messages[j] == old(messages[j])
        invariant mode == ALL_OR_NOTHING ==> forall j :: 0 <= j < i ==> Prepare(env, old(messages[j]), nows[j]).Ready()
      {
        var p := Prepare(env, messages[i], nows[i]);
        if !p.Ready() && mode == ALL_OR_NOTHING {
          assert PrepareAll(env, old(messages[..]), nows)[i] == p;
          return Some(i);
        }
        messages[i], rejections[i] := p.message, p.rejection;
      }
      return None;
    }

    /** The stored messages and the positions they came from. */
    method Gather(messages: array<Option<Message>>, rejections: array<Option<Code>>, ghost ps: seq<Prepared>)
      returns (valid: seq<Message>, indices: seq<nat>, total: nat)
      requires |ps| == messages.Length == rejections.Length
      requires forall i :: 0 <= i < |ps| ==> ps[i] == Prepared(messages[i], rejections[i]) && (ps[i].rejection.None? ==> ps[i].Ready())
      ensures valid == ReadyOf(ps) && total == TotalSize(env, ps)
      ensures |indices| == |valid|
      ensures forall j :: 0 <= j < |indices| ==> indices[j] < |ps| && ps[indices[j]].Ready() && |ReadyOf(ps[..indices[j]])| == j
      ensures forall i :: 0 <= i < |ps| && ps[i].Ready() ==> i in indices
    {
      valid, indices, total := [], [], 0;
      for i := 0 to messages.Length
        invariant valid == ReadyOf(ps[..i]) && total == TotalSize(env, ps[..i])
        invariant |indices| == |valid|
        invariant forall j :: 0 <= j < |indices| ==> indices[j] < i && ps[indices[j]].Ready() && |ReadyOf(ps[..indices[j]])| == j
        invariant forall k :: 0 <= k < i && ps[k].Ready() ==> k in indices
      {
        assert ps[..i + 1][..i] == ps[..i];
        if messages[i].Some? {
          total := total + env.size(messages[i].value);
        }
        if rejections[i].None? {
          valid, indices := valid + [messages[i].value], indices + [i];
        }
      }
      assert ps[..|ps|] == ps;
    }

    /** Results by index: first the rejected messages, then, through their positions, the others. */
    method Scatter(messages: array<Option<Message>>, rejections: array<Option<Code>>, indices: seq<nat>, errors: seq<Option<Code>>, ghost ps: seq<Prepared>)
      returns (results: array<PostResult>)
      requires |ps| == messages.Length == rejections.Length && |errors| == |ReadyOf(ps)| == |indices|
      requires forall i :: 0 <= i < |ps| ==> ps[i] == Prepared(messages[i], rejections[i]) && (ps[i].rejection.None? ==> ps[i].Ready())
      requires forall j :: 0 <= j < |indices| ==> indices[j] < |ps| && ps[indices[j]].Ready() && |ReadyOf(ps[..indices[j]])| == j
      requires forall i :: 0 <= i < |ps| && ps[i].Ready() ==> i in indices
      ensures fresh(results) && results[..] == ResultsOf(ps, errors)
    {
      results := new PostResult[messages.Length](_ => PostResult("", false, INTERNAL_ERROR));
      for i := 0 to messages.Length
        invariant forall k :: 0 <= k < i && !ps[k].Ready() ==> results[k] == ResultAt(ps, errors, k)
      {
        if rejections[i].Some? {
          results[i] := PostResult(if messages[i].Some? then messages[i].value.id else "", false, rejections[i].value);
        }
      }
      for j := 0 to |indices|
        invariant forall k :: 0 <= k < |ps| && !ps[k].Ready() ==> results[k] == ResultAt(ps, errors, k)
        invariant forall l :: 0 <= l < j ==> results[indices[l]] == ResultAt(ps, errors, indices[l])
      {
        var code := Reported(errors[j]);
        results[indices[j]] := PostResult(messages[indices[j]].value.id, code == SUCCESS, code);
      }
    }

    method CreateQueueMessagesBulk(messages: array<Option<Message>>, nows: seq<int>, mode: Mode)
      returns (r: Result<Response, BulkError>)
      requires |nows| == messages.Length
      modifies this`store, messages
      ensures messages.Length == 0 ==> r == Failure(NoMessages) && store == old(store)
      ensures messages.Length > 1000 ==> r == Failure(TooManyMessages) && store == old(store)
      ensures r.Success? ==> TotalSize(env, PrepareAll(env, old(messages[..]), nows)) <= 1_048_576
      ensures var ps := PrepareAll(env, old(messages[..]), nows);
              var reply := CallBackend(backend, old(store), ReadyOf(ps), mode);
              if |ps| == 0 then r == Failure(NoMessages) && store == old(store)
              else if |ps| > MAX_MESSAGES then r == Failure(TooManyMessages) && store == old(store)
              else if mode == ALL_OR_NOTHING && !AllReady(ps) then r.Failure? && RejectsFirst(ps, r.error) && store == old(store)
              else if TotalSize(env, ps) > MAX_PAYLOAD_BYTES then r == Failure(PayloadTooLarge) && store == old(store)
              else
                var errors := ErrorsOf(reply, |ReadyOf(ps)|, mode);
                store == reply.store &&
                if |errors| != |ReadyOf(ps)| then r == Failure(ErrorCountMismatch)
                else
                  var response := ResponseOf(mode, ResultsOf(ps, errors));
                  r == if reply.failed && mode == ALL_OR_NOTHING then Failure(TransactionFailed(response)) else Success(response)
    {
      if messages.Length == 0 {
        return Failure(NoMessages);
      }
      if messages.Length > MAX_MESSAGES {
        return Failure(TooManyMessages);
      }
      ghost var ps := PrepareAll(env, messages[..], nows);
      var rejections := new Option<Code>[messages.Length](_ => None);
      var stopped := PrepareMessages(messages, nows, mode, rejections);
      if stopped.Some? {
        return Failure(MessageRejected(stopped.value));
      }
      var valid, indices, total := Gather(messages, rejections, ps);
      if total > MAX_PAYLOAD_BYTES {
        return Failure(PayloadTooLarge);
      }
      var reply := CallBackend(backend, store, valid, mode);
      store := reply.store;
      var errors := ErrorsOf(reply, |valid|, mode);
      if |errors| != |valid| {
        return Failure(ErrorCountMismatch);
      }
      var results := Scatter(messages, rejections, indices, errors, ps);
      var response := Respond(mode, results[..]);
      if reply.failed && mode == ALL_OR_NOTHING {
        return Failure(TransactionFailed(response));
      }
      return Success(response);
    }

    method Respond(mode: Mode, results: seq<PostResult>) returns (response: Response)
      ensures response == ResponseOf(mode, results)
    {
      var successCount := 0;
      for i := 0 to |results|
        invariant successCount == Successes(results[..i])
      {
        assert results[..i + 1][..i] == results[..i];
        if results[i].success {
          successCount := successCount + 1;
        }
      }
      assert results[..|results|] == results;
      var failedCount := |results| - successCount;
      response := Response(
        match mode case ALL_OR_NOTHING => failedCount == 0 case BEST_EFFORT => successCount > 0,
        successCount, failedCount, results);
    }
  }
}
