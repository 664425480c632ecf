/** Which versions concurrent registrations hand out, when all of them ask for the next one. */
module RegistryVersions {
  import opened Wrappers
  import opened SchemaTable
  import opened PostgresRegistry

  /** Nothing is registered yet and every transaction asks for the next version. */
  predicate FreshStart(s: System) {
    Initial(s) && s.table == map[] && AllAutomatic(s) && |s.txs| < MAX_INT32
  }

  predicate AllAutomatic(s: System) {
    forall t :: 0 <= t < |s.txs| ==> s.txs[t].requested == 0
  }

  function IsCommit(tx: Tx, id: string): nat {
    if tx.HasCommitted() && tx.id == id then 1 else 0
  }

  /** How many transactions have committed a version of the id. */
  function Commits(txs: seq<Tx>, id: string): (n: nat)
    ensures n <= |txs|
  {
    if txs == [] then 0 else IsCommit(txs[0], id) + Commits(txs[1..], id)
  }

  lemma {:induction false} CommitsAfterUpdate(txs: seq<Tx>, t: nat, tx: Tx, id: string)
    requires t < |txs|
    ensures Commits(txs[t := tx], id) == Commits(txs, id) - IsCommit(txs[t], id) + IsCommit(tx, id)
  {
    if t == 0 {
      assert txs[0 := tx][1..] == txs[1..];
    } else {
      assert txs[t := tx][1..] == txs[1..][t - 1 := tx];
      CommitsAfterUpdate(txs[1..], t - 1, tx, id);
    }
  }

  function UpTo(n: nat): (vs: set<int>)
    ensures forall v :: v in vs <==> 1 <= v <= n
  {
    if n == 0 then {} else UpTo(n - 1) + {n}
  }

  /** The versions of the id are 1 to the number of its commits. */
  predicate Contiguous(s: System, id: string) {
    Versions(s.table, id) == UpTo(Commits(s.txs, id))
  }

  /** Two transactions never commit the same version of an id. */
  predicate NoneShared(s: System) {
    forall t, u :: 0 <= t < |s.txs| && 0 <= u < |s.txs| && t != u && s.txs[t].HasCommitted() && s.txs[u].HasCommitted() && s.txs[t].id == s.txs[u].id ==>
      s.txs[t].phase.version != s.txs[u].phase.version
  }

  ghost predicate Numbered(hash: string -> int, s: System) {
    && Consistent(hash, s) && AllAutomatic(s) && |s.txs| < MAX_INT32
    && NoneShared(s)
    && forall id :: Contiguous(s, id)
  }

  lemma LatestOfUpTo(n: nat)
    ensures Latest(UpTo(n)) == n
  {
    if n > 0 {
      assert n in UpTo(n);
    } else {
      assert UpTo(0) == {};
    }
    LatestIs(UpTo(n), n);
  }

  /** The transaction about to commit was assigned the next version, without wrapping. */
  lemma NextIsSuccessor(hash: string -> int, s: System, t: nat)
    requires Numbered(hash, s) && t < |s.txs| && s.txs[t].phase.Inserted?
    ensures s.txs[t].phase.version == LatestVersion(s.table, s.txs[t].id) + 1 == Commits(s.txs, s.txs[t].id) + 1
    ensures (s.txs[t].id, s.txs[t].phase.version) !in s.table
  {
    assert TxConsistent(s, t);
    assert Contiguous(s, s.txs[t].id);
    LatestOfUpTo(Commits(s.txs, s.txs[t].id));
  }

  lemma CommitKeepsContiguous(s: System, t: nat, id: string)
    requires t < |s.txs| && s.txs[t].phase.Inserted? && Contiguous(s, id)
    requires s.txs[t].id == id ==> s.txs[t].phase.version == Commits(s.txs, id) + 1
    ensures var tx := s.txs[t];
            Contiguous(Moved(s, t, Committed(tx.phase.version)).(table := s.table[(tx.id, tx.phase.version) := tx.row.(active := true)]), id)
  {
    var tx := s.txs[t];
    InsertAddsVersion(s.table, tx.id, tx.phase.version, tx.row.(active := true), id);
    CommitsAfterUpdate(s.txs, t, tx.(phase := Committed(tx.phase.version)), id);
    var n := Commits(s.txs, id);
    assert UpTo(n) + {n + 1} == UpTo(n + 1);
  }

  lemma MoveKeepsContiguous(s: System, t: nat, phase: Phase, id: string)
    requires t < |s.txs| && Contiguous(s, id)
    requires s.txs[t].HasCommitted() <==> phase.Committed? || phase.Returned?
    ensures Contiguous(Moved(s, t, phase), id)
  {
    CommitsAfterUpdate(s.txs, t, s.txs[t].(phase := phase), id);
  }

  lemma StepKeepsContiguous(hash: string -> int, s: System, step: Step, id: string)
    requires Numbered(hash, s) && Enabled(hash, s, step)
    ensures Contiguous(Next(hash, s, step), id)
  {
    assert Contiguous(s, id);
    match step
    case Commit(t) =>
      NextIsSuccessor(hash, s, t);
      CommitKeepsContiguous(s, t, id);
    case Deactivation(other, version, now) => DeactivateKeepsVersions(s.table, other, version, now, id);
    case _ => MoveKeepsContiguous(s, step.tx, Next(hash, s, step).txs[step.tx].phase, id);
  }

  lemma StepKeepsNoneShared(hash: string -> int, s: System, step: Step)
    requires Consistent(hash, s) && NoneShared(s) && Enabled(hash, s, step)
    ensures NoneShared(Next(hash, s, step))
  {
    if step.Commit? {
      assert TxConsistent(s, step.tx);
      forall u | 0 <= u < |s.txs| && s.txs[u].HasCommitted()
        ensures (s.txs[u].id, s.txs[u].phase.version) in s.table
      {
        assert TxConsistent(s, u);
      }
    }
  }

  lemma StepKeepsNumbered(hash: string -> int, s: System, step: Step)
    requires Numbered(hash, s) && Enabled(hash, s, step)
    ensures Numbered(hash, Next(hash, s, step))
  {
    StepKeepsConsistent(hash, s, step);
    StepKeepsNoneShared(hash, s, step);
    forall id
      ensures Contiguous(Next(hash, s, step), id)
    {
      StepKeepsContiguous(hash, s, step, id);
    }
  }

  lemma StartIsNumbered(hash: string -> int, s: System)
    requires FreshStart(s)
    ensures Numbered(hash, s)
  {
    forall id
      ensures Contiguous(s, id)
    {
      NoCommits(s.txs, id);
      assert Versions(s.table, id) == {} == UpTo(0);
    }
  }

  lemma {:induction false} NoCommits(txs: seq<Tx>, id: string)
    requires forall t :: 0 <= t < |txs| ==> txs[t].phase.Begun?
    ensures Commits(txs, id) == 0
  {
    if txs != [] {
      NoCommits(txs[1..], id);
    }
  }

  lemma {:induction false} RunKeepsNumbered(hash: string -> int, s: System, steps: seq<Step>)
    requires Numbered(hash, s) && Executable(hash, s, steps)
    ensures Numbered(hash, Run(hash, s, steps))
    decreases |steps|
  {
    if steps != [] {
      StepKeepsNumbered(hash, s, steps[0]);
      RunKeepsNumbered(hash, Next(hash, s, steps[0]), steps[1..]);
    }
  }

  /** In every interleaving of automatic registrations and deactivations, for any hash and hence
      any sharing of locks: the committed versions of each id are exactly 1 to the number of its
      commits, each committed by one transaction, and no registration is ever refused. */
  lemma VersionsAreContiguous(hash: string -> int, s0: System, steps: seq<Step>, id: string, t: nat, u: nat)
    requires FreshStart(s0) && Executable(hash, s0, steps) && t < |s0.txs| && u < |s0.txs|
    ensures var s := Run(hash, s0, steps);
            && (forall v :: (id, v) in s.table <==> 1 <= v <= Commits(s.txs, id))
            && (t != u && s.txs[t].HasCommitted() && s.txs[u].HasCommitted() && s.txs[t].id == s.txs[u].id ==>
                  s.txs[t].phase.version != s.txs[u].phase.version)
            && (Enabled(hash, s, Insert(t)) ==> !Next(hash, s, Insert(t)).txs[t].phase.Refused?)
  {
    StartIsNumbered(hash, s0);
    RunKeepsNumbered(hash, s0, steps);
    var s := Run(hash, s0, steps);
    assert Contiguous(s, id);
    forall v
      ensures (id, v) in s.table <==> 1 <= v <= Commits(s.txs, id)
    {
      VersionMembers(s.table, id, v);
    }
    if Enabled(hash, s, Insert(t)) {
      InsertAccepted(hash, s, t);
    }
  }

  lemma InsertAccepted(hash: string -> int, s: System, t: nat)
    requires Numbered(hash, s) && Enabled(hash, s, Insert(t))
    ensures !Next(hash, s, Insert(t)).txs[t].phase.Refused?
  {
    assert TxConsistent(s, t) && Contiguous(s, s.txs[t].id);
    LatestOfUpTo(Commits(s.txs, s.txs[t].id));
    VersionMembers(s.table, s.txs[t].id, s.txs[t].phase.version);
  }

  // ----- versions are for ever -----------------------------------------------------------------

  /** t' has all rows of t, changed at most by having been deactivated. */
  predicate Extends(t: Table, t': Table) {
    forall k :: k in t ==> k in t' && SameVersion(t[k], t'[k])
  }

  lemma StepExtends(hash: string -> int, s: System, step: Step)
    requires Consistent(hash, s) && Enabled(hash, s, step)
    ensures Extends(s.table, Next(hash, s, step).table)
  {
    if step.Commit? {
      assert TxConsistent(s, step.tx);
    }
  }

  /** Whatever versions are asked for, no two transactions of a run commit the same one of an id. */
  lemma {:induction false} NoVersionTwice(hash: string -> int, s: System, steps: seq<Step>)
    requires Consistent(hash, s) && NoneShared(s) && Executable(hash, s, steps)
    ensures NoneShared(Run(hash, s, steps))
    decreases |steps|
  {
    if steps != [] {
      StepKeepsNoneShared(hash, s, steps[0]);
      StepKeepsConsistent(hash, s, steps[0]);
      NoVersionTwice(hash, Next(hash, s, steps[0]), steps[1..]);
    }
  }

  /** A registered version is never removed, rewritten or reactivated. */
  lemma {:induction false} VersionsAreForever(hash: string -> int, s: System, steps: seq<Step>)
    requires Consistent(hash, s) && Executable(hash, s, steps)
    ensures Extends(s.table, Run(hash, s, steps).table)
    decreases |steps|
  {
    if steps != [] {
      var s1 := Next(hash, s, steps[0]);
      StepExtends(hash, s, steps[0]);
      StepKeepsConsistent(hash, s, steps[0]);
      VersionsAreForever(hash, s1, steps[1..]);
      var t2 := Run(hash, s, steps).table;
      forall k | k in s.table
        ensures k in t2 && SameVersion(s.table[k], t2[k])
      {
        assert k in s1.table && SameVersion(s.table[k], s1.table[k]);
      }
    }
  }

  // ----- agreement with SQLite -------------------------------------------------------------------

  datatype SqlOp = RegisterOp(id: string, version: int, row: Row) | DeactivateOp(id: string, version: int, now: int)

  /** What one SQLite statement does to the table; a refused registration does nothing. */
  ghost function Execute(t: Table, op: SqlOp): Table {
    match op
    case RegisterOp(id, version, row) =>
      (match SchemaTable.Register(t, id, version, row)
       case Success(r) => r.0
       case Failure(_) => t)
    case DeactivateOp(id, version, now) => Deactivate(t, id, version, now)
  }

  /** The statements one after the other. */
  ghost function Sequential(t: Table, ops: seq<SqlOp>): Table
    decreases |ops|
  {
    if ops == [] then t else Sequential(Execute(t, ops[0]), ops[1..])
  }

  /** What a step does to the table, as a SQLite statement: only commits and deactivations do. */
  function EffectOf(s: System, step: Step): seq<SqlOp>
    requires !step.Deactivation? ==> step.tx < |s.txs|
  {
    match step
    case Commit(t) => [RegisterOp(s.txs[t].id, s.txs[t].requested, s.txs[t].row)]
    case Deactivation(id, version, now) => [DeactivateOp(id, version, now)]
    case _ => []
  }

  /** The commits and deactivations of a run, in the order in which they took effect. */
  ghost function Effects(hash: string -> int, s: System, steps: seq<Step>): seq<SqlOp>
    requires Executable(hash, s, steps)
    decreases |steps|
  {
    if steps == [] then [] else EffectOf(s, steps[0]) + Effects(hash, Next(hash, s, steps[0]), steps[1..])
  }

  /** A commit does what the SQLite statement for the same request would do at that moment, and
      assigns the same version: always for an explicit version, and for an automatic one exactly
      if the largest version can still be incremented in 32 bits. */
  lemma CommitIsSqliteRegister(hash: string -> int, s: System, t: nat)
    requires Consistent(hash, s) && Enabled(hash, s, Commit(t))
    ensures SchemaTable.Register(s.table, s.txs[t].id, s.txs[t].requested, s.txs[t].row)
         == Success((Next(hash, s, Commit(t)).table, s.txs[t].phase.version))
        <==> s.txs[t].requested != 0 || LatestVersion(s.table, s.txs[t].id) < MAX_INT32
  {
    var id := s.txs[t].id;
    var latest := LatestVersion(s.table, id);
    assert TxConsistent(s, t);
    LatestFits(s.table, id);
    if s.txs[t].requested == 0 {
      NextVersionIsNew(s.table, id);
    }
  }

  /** And a registration is refused exactly when the SQLite statement would refuse it, under the
      same condition. */
  lemma RefusalIsSqliteRefusal(hash: string -> int, s: System, t: nat)
    requires Consistent(hash, s) && Enabled(hash, s, Insert(t))
    requires s.txs[t].requested != 0 || LatestVersion(s.table, s.txs[t].id) < MAX_INT32
    ensures Next(hash, s, Insert(t)).txs[t].phase.Refused? <==>
              SchemaTable.Register(s.table, s.txs[t].id, s.txs[t].requested, s.txs[t].row).Failure?
  {
    assert TxConsistent(s, t);
    LatestFits(s.table, s.txs[t].id);
  }

  lemma LatestFits(t: Table, id: string)
    requires VersionsFit(t)
    ensures IsInt32(LatestVersion(t, id))
  {
    if Versions(t, id) != {} {
      VersionMembers(t, id, LatestVersion(t, id));
    }
  }

  /** No id has the largest version. */
  predicate RoomForMore(t: Table) {
    forall k :: k in t ==> k.1 < MAX_INT32
  }

  lemma RoomBefore(t: Table, t': Table, id: string)
    requires t.Keys <= t'.Keys && RoomForMore(t')
    ensures LatestVersion(t, id) < MAX_INT32
  {
    if Versions(t, id) != {} {
      VersionMembers(t, id, LatestVersion(t, id));
    }
  }

  /** The table after a step is that after the statement it amounts to. */
  lemma StepIsStatement(hash: string -> int, s: System, step: Step)
    requires Consistent(hash, s) && Enabled(hash, s, step)
    requires step.Commit? ==> s.txs[step.tx].requested != 0 || LatestVersion(s.table, s.txs[step.tx].id) < MAX_INT32
    ensures var effect := EffectOf(s, step);
            Next(hash, s, step).table == if effect == [] then s.table else Execute(s.table, effect[0])
  {
    if step.Commit? {
      CommitIsSqliteRegister(hash, s, step.tx);
    }
  }

  /** Linearizability: from any table, with automatic and explicit versions in any interleaving,
      the table left is that of the SQLite registry after the same requests in the order of their
      commits, as long as no id has used up its versions. */
  lemma {:induction false} PostgresRefinesSqlite(hash: string -> int, s: System, steps: seq<Step>)
    requires Consistent(hash, s) && Executable(hash, s, steps) && RoomForMore(Run(hash, s, steps).table)
    ensures Run(hash, s, steps).table == Sequential(s.table, Effects(hash, s, steps))
    decreases |steps|
  {
    if steps != [] {
      var s1 := Next(hash, s, steps[0]);
      var (effect, rest) := (EffectOf(s, steps[0]), Effects(hash, s1, steps[1..]));
      StepKeepsConsistent(hash, s, steps[0]);
      if steps[0].Commit? {
        VersionsAreForever(hash, s, steps);
        RoomBefore(s.table, Run(hash, s, steps).table, s.txs[steps[0].tx].id);
      }
      StepIsStatement(hash, s, steps[0]);
      PostgresRefinesSqlite(hash, s1, steps[1..]);
      if effect == [] {
        assert effect + rest == rest;
      } else {
        assert (effect + rest)[0] == effect[0] && (effect + rest)[1..] == rest;
      }
    }
  }
}
