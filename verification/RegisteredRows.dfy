/** What the table holds of a registration, in every interleaving of Postgres transactions. */
module RegisteredRows {
  import opened SchemaTable
  import opened PostgresRegistry

  /** A deactivation of this version, or of all versions of the id. */
  predicate Covers(step: Step, id: string, version: int) {
    step.Deactivation? && step.id == id && (step.version == 0 || step.version == version)
  }

  predicate CoveredFrom(steps: seq<Step>, c: nat, id: string, version: int) {
    exists k :: c <= k < |steps| && Covers(steps[k], id, version)
  }

  lemma {:induction false} RunKeepsRow(hash: string -> int, s: System, steps: seq<Step>, t: nat)
    requires Executable(hash, s, steps) && t < |s.txs|
    ensures Run(hash, s, steps).txs[t].row == s.txs[t].row && Run(hash, s, steps).txs[t].id == s.txs[t].id
    decreases |steps|
  {
    if steps != [] {
      RunKeepsRow(hash, Next(hash, s, steps[0]), steps[1..], t);
    }
  }

  lemma CoveredFirstOrLater(steps: seq<Step>, id: string, version: int)
    requires steps != []
    ensures CoveredFrom(steps, 0, id, version) <==> Covers(steps[0], id, version) || CoveredFrom(steps[1..], 0, id, version)
  {
    if k :| 0 <= k < |steps[1..]| && Covers(steps[1..][k], id, version) {
      assert Covers(steps[k + 1], id, version);
    }
    if k :| 1 <= k < |steps| && Covers(steps[k], id, version) {
      assert Covers(steps[1..][k - 1], id, version);
    }
  }

  /** A row that is there keeps its contents, and stays active exactly until a deactivation of it. */
  lemma StepOnRow(hash: string -> int, s: System, step: Step, id: string, version: int)
    requires Consistent(hash, s) && Enabled(hash, s, step) && (id, version) in s.table
    ensures var t' := Next(hash, s, step).table;
            && (id, version) in t' && SameContent(s.table[(id, version)], t'[(id, version)])
            && (t'[(id, version)].active <==> s.table[(id, version)].active && !Covers(step, id, version))
  {
    if step.Commit? {
      assert TxConsistent(s, step.tx);
    }
  }

  lemma {:induction false} RunOnRow(hash: string -> int, s: System, steps: seq<Step>, id: string, version: int)
    requires Consistent(hash, s) && Executable(hash, s, steps) && (id, version) in s.table
    ensures var t' := Run(hash, s, steps).table;
            && (id, version) in t' && SameContent(s.table[(id, version)], t'[(id, version)])
            && (t'[(id, version)].active <==> s.table[(id, version)].active && !CoveredFrom(steps, 0, id, version))
    decreases |steps|
  {
    if steps != [] {
      StepOnRow(hash, s, steps[0], id, version);
      StepKeepsConsistent(hash, s, steps[0]);
      RunOnRow(hash, Next(hash, s, steps[0]), steps[1..], id, version);
      CoveredFirstOrLater(steps, id, version);
    }
  }

  /** A transaction gets the lock exactly if no other that is under way has an id of the same hash:
      one that has the lock and has not yet been committed, refused or rolled back. */
  lemma LockMeaning(hash: string -> int, s: System, t: nat)
    requires t < |s.txs|
    ensures Enabled(hash, s, Lock(t)) <==>
              && s.txs[t].phase == Begun
              && forall u :: 0 <= u < |s.txs| && hash(s.txs[u].id) == hash(s.txs[t].id) ==>
                   s.txs[u].phase.Begun? || s.txs[u].phase.Committed? || s.txs[u].phase.Returned?
                   || s.txs[u].phase.Refused? || s.txs[u].phase.RolledBack?
  {
  }

  /** The metadata a registration returns is that of the table when it is read: the number of rows of
      the id and the largest version among them. */
  lemma MetadataIsCurrent(hash: string -> int, s: System, t: nat)
    requires Enabled(hash, s, ReadMetadata(t))
    ensures var phase := Next(hash, s, ReadMetadata(t)).txs[t].phase;
            && phase.Returned? && phase.version == s.txs[t].phase.version
            && phase.metadata.totalVersions == |set k | k in s.table && k.0 == s.txs[t].id|
            && (phase.metadata.totalVersions > 0 ==> (s.txs[t].id, phase.metadata.latestVersion) in s.table)
            && forall k :: k in s.table && k.0 == s.txs[t].id ==> k.1 <= phase.metadata.latestVersion
  {
    MetadataMeaning(s.table, s.txs[t].id);
  }

  /** A commit puts the transaction's row into the table, active. */
  lemma CommitStores(hash: string -> int, s: System, t: nat)
    requires Consistent(hash, s) && Enabled(hash, s, Commit(t))
    ensures var s' := Next(hash, s, Commit(t));
            var key := (s.txs[t].id, s.txs[t].phase.version);
            && s'.txs[t].HasCommitted() && s'.txs[t].phase.version == key.1
            && key !in s.table && s'.table.Keys == s.table.Keys + {key}
            && SameRow(s.txs[t].row, s'.table[key]) && s'.table[key].active
            && forall k :: k in s.table ==> s'.table[k] == s.table[k]
  {
    assert TxConsistent(s, t);
  }

  lemma {:induction false} CommittedStays(hash: string -> int, s: System, steps: seq<Step>, t: nat)
    requires Executable(hash, s, steps) && t < |s.txs| && s.txs[t].HasCommitted()
    ensures Run(hash, s, steps).txs[t].HasCommitted()
    ensures Run(hash, s, steps).txs[t].phase.version == s.txs[t].phase.version
    decreases |steps|
  {
    if steps != [] {
      CommittedStays(hash, Next(hash, s, steps[0]), steps[1..], t);
    }
  }

  /** Whatever else happens, the table has a row for every committed transaction, with the name,
      content and time of creation that it asked for; and the row is active exactly if no
      deactivation of it has come after the commit. */
  lemma {:induction false} CommittedRowStands(hash: string -> int, s: System, steps: seq<Step>, t: nat) returns (c: nat)
    requires Consistent(hash, s) && Executable(hash, s, steps) && t < |s.txs| && !s.txs[t].HasCommitted()
    requires Run(hash, s, steps).txs[t].HasCommitted()
    ensures c < |steps| && steps[c] == Commit(t)
    ensures var end := Run(hash, s, steps);
            var key := (s.txs[t].id, end.txs[t].phase.version);
            && key in end.table && SameContent(s.txs[t].row, end.table[key])
            && (end.table[key].active <==> !CoveredFrom(steps, c + 1, key.0, key.1))
    decreases |steps|
  {
    var (step, rest) := (steps[0], steps[1..]);
    var s1 := Next(hash, s, step);
    StepKeepsConsistent(hash, s, step);
    if s1.txs[t].HasCommitted() {
      c := 0;
      assert step == Commit(t);
      RowAfterCommit(hash, s, rest, t);
      CoveredShift(steps, 0, s.txs[t].id, s1.txs[t].phase.version);
    } else {
      assert s1.txs[t].row == s.txs[t].row && s1.txs[t].id == s.txs[t].id;
      var c' := CommittedRowStands(hash, s1, rest, t);
      c := c' + 1;
      CoveredShift(steps, c' + 1, s.txs[t].id, Run(hash, s, steps).txs[t].phase.version);
    }
  }

  lemma RowAfterCommit(hash: string -> int, s: System, rest: seq<Step>, t: nat)
    requires Consistent(hash, s) && Enabled(hash, s, Commit(t)) && Executable(hash, Next(hash, s, Commit(t)), rest)
    ensures var s1 := Next(hash, s, Commit(t));
            var end := Run(hash, s1, rest);
            var key := (s.txs[t].id, s1.txs[t].phase.version);
            && end.txs[t].HasCommitted() && end.txs[t].phase.version == key.1
            && key in end.table && SameContent(s.txs[t].row, end.table[key])
            && (end.table[key].active <==> !CoveredFrom(rest, 0, key.0, key.1))
  {
    var s1 := Next(hash, s, Commit(t));
    StepKeepsConsistent(hash, s, Commit(t));
    CommitStores(hash, s, t);
    CommittedStays(hash, s1, rest, t);
    RunOnRow(hash, s1, rest, s.txs[t].id, s1.txs[t].phase.version);
  }

  lemma CoveredShift(steps: seq<Step>, c: nat, id: string, version: int)
    requires steps != []
    ensures CoveredFrom(steps, c + 1, id, version) <==> CoveredFrom(steps[1..], c, id, version)
  {
    if k :| c + 1 <= k < |steps| && Covers(steps[k], id, version) {
      assert Covers(steps[1..][k - 1], id, version);
    }
    if k :| c <= k < |steps[1..]| && Covers(steps[1..][k], id, version) {
      assert Covers(steps[k + 1], id, version);
    }
  }

  /** Conversely, in a run from a start, every row is from before or of some committed transaction. */
  lemma {:induction false} RowsAreCommitted(hash: string -> int, s: System, steps: seq<Step>, k: (string, int)) returns (t: nat)
    requires Executable(hash, s, steps)
    requires k in Run(hash, s, steps).table && k !in s.table
    ensures var end := Run(hash, s, steps);
            t < |end.txs| && end.txs[t].HasCommitted() && (end.txs[t].id, end.txs[t].phase.version) == k
    decreases |steps|
  {
    var s1 := Next(hash, s, steps[0]);
    if k in s1.table {
      t := steps[0].tx;
      RunKeepsRow(hash, s1, steps[1..], t);
      CommittedStays(hash, s1, steps[1..], t);
    } else {
      t := RowsAreCommitted(hash, s1, steps[1..], k);
    }
  }
}
