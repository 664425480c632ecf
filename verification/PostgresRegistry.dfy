/** Concurrent registration in Postgres: transactions that take an advisory lock on the hash of
    their schema id, read the largest committed version, insert, and commit or roll back, each
    statement seeing what is committed when it starts; interleaved with each other, with
    deactivations, and with the metadata query that follows a commit. */
module PostgresRegistry {
  import opened SchemaTable

  datatype Phase =
    | Begun
    | Locked
    | Assigned(version: int)
    | Inserted(version: int)
    | Committed(version: int)
    | Returned(version: int, metadata: Metadata)
    | Refused
    | RolledBack

  datatype Tx = Tx(id: string, requested: int, row: Row, phase: Phase) {
    /** The lock is held from its acquisition until the transaction ends. */
    predicate Holds() {
      phase.Locked? || phase.Assigned? || phase.Inserted?
    }

    predicate HasCommitted() {
      phase.Committed? || phase.Returned?
    }
  }

  datatype System = System(table: Table, txs: seq<Tx>)

  datatype Step =
    | Lock(tx: nat)
    | Assign(tx: nat)
    | Insert(tx: nat)
    | Commit(tx: nat)
    | Rollback(tx: nat)
    | ReadMetadata(tx: nat)
    | Deactivation(id: string, version: int, now: int)

  /** A version is a 32-bit integer, and incrementing it may wrap. */
  function Wrap32(x: int): int {
    (x + 0x8000_0000) % 0x1_0000_0000 - 0x8000_0000
  }

  predicate Enabled(hash: string -> int, s: System, step: Step) {
    step.Deactivation? || (
      step.tx < |s.txs|
      && match step
         case Lock(t) => s.txs[t].phase.Begun? && forall u :: 0 <= u < |s.txs| && s.txs[u].Holds() ==> hash(s.txs[u].id) != hash(s.txs[t].id)
         case Assign(t) => s.txs[t].phase.Locked?
         case Insert(t) => s.txs[t].phase.Assigned?
         case Commit(t) => s.txs[t].phase.Inserted?
         case Rollback(t) => s.txs[t].Holds()
         case ReadMetadata(t) => s.txs[t].phase.Committed?
    )
  }

  function Moved(s: System, t: nat, phase: Phase): System
    requires t < |s.txs|
  {
    s.(txs := s.txs[t := s.txs[t].(phase := phase)])
  }

  ghost function NextVersion(s: System, t: nat): int
    requires t < |s.txs|
  {
    if s.txs[t].requested == 0 then Wrap32(LatestVersion(s.table, s.txs[t].id) + 1) else s.txs[t].requested
  }

  ghost function Next(hash: string -> int, s: System, step: Step): (after: System)
    requires Enabled(hash, s, step)
    ensures |after.txs| == |s.txs|
  {
    match step
    case Lock(t) => Moved(s, t, Locked)
    case Assign(t) => Moved(s, t, Assigned(NextVersion(s, t)))
    case Insert(t) =>
      if (s.txs[t].id, s.txs[t].phase.version) in s.table then Moved(s, t, Refused)
      else Moved(s, t, Inserted(s.txs[t].phase.version))
    case Commit(t) =>
      Moved(s, t, Committed(s.txs[t].phase.version))
      .(table := s.table[(s.txs[t].id, s.txs[t].phase.version) := s.txs[t].row.(active := true)])
    case Rollback(t) => Moved(s, t, RolledBack)
    case ReadMetadata(t) => Moved(s, t, Returned(s.txs[t].phase.version, MetadataOf(s.table, s.txs[t].id)))
    case Deactivation(id, version, now) => s.(table := Deactivate(s.table, id, version, now))
  }

  ghost predicate Executable(hash: string -> int, s: System, steps: seq<Step>)
    decreases |steps|
  {
    steps == [] || (Enabled(hash, s, steps[0]) && Executable(hash, Next(hash, s, steps[0]), steps[1..]))
  }

  ghost function Run(hash: string -> int, s: System, steps: seq<Step>): (after: System)
    requires Executable(hash, s, steps)
    ensures |after.txs| == |s.txs|
    decreases |steps|
  {
    if steps == [] then s else Run(hash, Next(hash, s, steps[0]), steps[1..])
  }

  predicate IsInt32(v: int) {
    MIN_INT32 <= v <= MAX_INT32
  }

  predicate VersionsFit(t: Table) {
    forall k :: k in t ==> IsInt32(k.1)
  }

  /** Any table, and transactions that are about to start. */
  predicate Initial(s: System) {
    VersionsFit(s.table) && forall t :: 0 <= t < |s.txs| ==> s.txs[t].phase.Begun? && IsInt32(s.txs[t].requested)
  }

  // ----- invariant ---------------------------------------------------------------------------

  /** Locks exclude each other; a version chosen under the lock stays the next one until the
      transaction ends; and what has committed is in the table. */
  ghost predicate Consistent(hash: string -> int, s: System) {
    && (forall t, u :: 0 <= t < |s.txs| && 0 <= u < |s.txs| && t != u && s.txs[t].Holds() && s.txs[u].Holds() ==>
                         hash(s.txs[t].id) != hash(s.txs[u].id))
    && (forall t :: 0 <= t < |s.txs| ==> TxConsistent(s, t))
    && VersionsFit(s.table)
  }

  ghost predicate TxConsistent(s: System, t: int)
    requires 0 <= t < |s.txs|
  {
    var tx := s.txs[t];
    IsInt32(tx.requested) &&
    match tx.phase
    case Assigned(v) => v == NextVersion(s, t)
    case Inserted(v) => v == NextVersion(s, t) && (tx.id, v) !in s.table
    case Committed(v) => (tx.id, v) in s.table
    case Returned(v, m) => (tx.id, v) in s.table && v <= m.latestVersion
    case _ => true
  }

  /** A transaction that does not move is not disturbed, unless a commit concerns its own id while
      it holds the lock. */
  lemma Undisturbed(s: System, s': System, t: int)
    requires 0 <= t < |s.txs| == |s'.txs| && s.txs[t] == s'.txs[t] && TxConsistent(s, t)
    requires s.table.Keys <= s'.table.Keys
    requires s.txs[t].Holds() ==> Versions(s'.table, s.txs[t].id) == Versions(s.table, s.txs[t].id)
    ensures TxConsistent(s', t)
  {
    var tx := s.txs[t];
    if tx.phase.Inserted? {
      VersionMembers(s.table, tx.id, tx.phase.version);
      VersionMembers(s'.table, tx.id, tx.phase.version);
    }
  }

  lemma StepKeepsTx(hash: string -> int, s: System, step: Step, u: nat)
    requires Consistent(hash, s) && Enabled(hash, s, step) && u < |s.txs|
    ensures TxConsistent(Next(hash, s, step), u)
  {
    var s' := Next(hash, s, step);
    assert TxConsistent(s, u);
    if step.Deactivation? {
      DeactivateKeepsVersions(s.table, step.id, step.version, step.now, s.txs[u].id);
      Undisturbed(s, s', u);
    } else {
      var t := step.tx;
      if step.Commit? {
        InsertAddsVersion(s.table, s.txs[t].id, s.txs[t].phase.version, s.txs[t].row.(active := true), s.txs[u].id);
      }
      if u != t {
        Undisturbed(s, s', u);
      } else if step.ReadMetadata? {
        VersionMembers(s.table, s.txs[u].id, s.txs[u].phase.version);
      }
    }
  }

  lemma StepKeepsVersionsFit(hash: string -> int, s: System, step: Step)
    requires Consistent(hash, s) && Enabled(hash, s, step)
    ensures VersionsFit(Next(hash, s, step).table)
  {
    if step.Commit? {
      assert TxConsistent(s, step.tx);
    }
  }

  lemma StepKeepsConsistent(hash: string -> int, s: System, step: Step)
    requires Consistent(hash, s) && Enabled(hash, s, step)
    ensures Consistent(hash, Next(hash, s, step))
  {
    forall u | 0 <= u < |s.txs|
      ensures TxConsistent(Next(hash, s, step), u)
    {
      StepKeepsTx(hash, s, step, u);
    }
    StepKeepsVersionsFit(hash, s, step);
  }

  lemma {:induction false} RunKeepsConsistent(hash: string -> int, s: System, steps: seq<Step>)
    requires Consistent(hash, s) && Executable(hash, s, steps)
    ensures Consistent(hash, Run(hash, s, steps))
    decreases |steps|
  {
    if steps != [] {
      StepKeepsConsistent(hash, s, steps[0]);
      RunKeepsConsistent(hash, Next(hash, s, steps[0]), steps[1..]);
    }
  }

  // ----- safety over every interleaving --------------------------------------------------------

  /** In every interleaving, an automatically versioned registration is refused as already
      existing exactly if its id has the largest 32-bit version, so that the next one wraps to the
      smallest, and has that one too. */
  lemma AutomaticNeverRefused(hash: string -> int, s0: System, steps: seq<Step>, t: nat)
    requires Initial(s0) && Executable(hash, s0, steps) && t < |s0.txs|
    requires Enabled(hash, Run(hash, s0, steps), Insert(t)) && s0.txs[t].requested == 0
    ensures var s := Run(hash, s0, steps);
            Next(hash, s, Insert(t)).txs[t].phase.Refused? <==>
              LatestVersion(s.table, s0.txs[t].id) == MAX_INT32 && (s0.txs[t].id, MIN_INT32) in s.table
  {
    var s := Run(hash, s0, steps);
    RunKeepsConsistent(hash, s0, steps);
    RunKeepsRequests(hash, s0, steps, t);
    assert TxConsistent(s, t);
    var latest := LatestVersion(s.table, s.txs[t].id);
    VersionMembers(s.table, s.txs[t].id, latest);
    VersionMembers(s.table, s.txs[t].id, Wrap32(latest + 1));
  }

  lemma {:induction false} RunKeepsRequests(hash: string -> int, s: System, steps: seq<Step>, t: nat)
    requires Executable(hash, s, steps) && t < |s.txs|
    ensures var s' := Run(hash, s, steps);
            s'.txs[t].id == s.txs[t].id && s'.txs[t].requested == s.txs[t].requested
    decreases |steps|
  {
    if steps != [] {
      RunKeepsRequests(hash, Next(hash, s, steps[0]), steps[1..], t);
    }
  }

  /** The metadata a registration returns is never behind the version it was assigned, and the
      version is in the table. */
  lemma MetadataCoversVersion(hash: string -> int, s0: System, steps: seq<Step>, t: nat)
    requires Initial(s0) && Executable(hash, s0, steps) && t < |s0.txs|
    requires Run(hash, s0, steps).txs[t].phase.Returned?
    ensures var s := Run(hash, s0, steps);
            && s.txs[t].phase.version <= s.txs[t].phase.metadata.latestVersion
            && (s.txs[t].id, s.txs[t].phase.version) in s.table
  {
    RunKeepsConsistent(hash, s0, steps);
    assert TxConsistent(Run(hash, s0, steps), t);
  }
}
