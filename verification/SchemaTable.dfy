/** The table of schema versions, and what its queries say. */
module SchemaTable {
  import opened Wrappers

  const MIN_INT32: int := -0x8000_0000
  const MAX_INT32: int := 0x7FFF_FFFF

  datatype Row = Row(name: string, content: string, active: bool, createdAt: int, updatedAt: int)

  /** Rows by schema id and version. */
  type Table = map<(string, int), Row>

  datatype RegistryError = AlreadyExists | NotFound

  datatype Metadata = Metadata(latestVersion: int, totalVersions: int)

  function Versions(t: Table, id: string): set<int> {
    set k | k in t && k.0 == id :: k.1
  }

  lemma EmptyOrNot(vs: set<int>)
    ensures vs == {} || exists v :: v in vs
  {
    if forall v :: v !in vs {
      assert vs == {};
    }
  }

  lemma {:induction false} FindMax(vs: set<int>) returns (m: int)
    requires vs != {}
    ensures m in vs && forall v :: v in vs ==> v <= m
  {
    EmptyOrNot(vs);
    m :| m in vs;
    var rest := vs - {m};
    assert forall v :: v in vs ==> v == m || v in rest;
    if rest != {} {
      var r := FindMax(rest);
      m := if m < r then r else m;
    }
  }

  lemma MaxExists(vs: set<int>)
    requires vs != {}
    ensures exists m :: m in vs && forall v :: v in vs ==> v <= m
  {
    var m := FindMax(vs);
  }

  ghost function Max(vs: set<int>): (m: int)
    requires vs != {}
    ensures m in vs && forall v :: v in vs ==> v <= m
  {
    MaxExists(vs);
    var m :| m in vs && forall v :: v in vs ==> v <= m;
    m
  }

  /** COALESCE(MAX(version), 0) over a set of versions. */
  ghost function Latest(vs: set<int>): int {
    if vs == {} then 0 else Max(vs)
  }

  lemma LatestIs(vs: set<int>, m: int)
    requires if vs == {} then m == 0 else m in vs && forall v :: v in vs ==> v <= m
    ensures Latest(vs) == m
  {
  }

  ghost function LatestVersion(t: Table, id: string): int {
    Latest(Versions(t, id))
  }

  ghost function MetadataOf(t: Table, id: string): Metadata {
    Metadata(LatestVersion(t, id), |Versions(t, id)|)
  }

  /** r' has the name, content and time of creation of r. */
  predicate SameContent(r: Row, r': Row) {
    r'.name == r.name && r'.content == r.content && r'.createdAt == r.createdAt
  }

  /** r' is r, changed at most by having been deactivated. */
  predicate SameVersion(r: Row, r': Row) {
    SameContent(r, r') && (r'.active ==> r.active)
  }

  /** r' has the name, content and times of r. */
  predicate SameRow(r: Row, r': Row) {
    SameContent(r, r') && r'.updatedAt == r.updatedAt
  }

  /** Active rows of the id, of one version or (version 0) of all. */
  predicate Deactivates(t: Table, id: string, version: int, k: (string, int)) {
    k in t && k.0 == id && t[k].active && (version != 0 ==> k.1 == version)
  }

  function Deactivate(t: Table, id: string, version: int, now: int): Table {
    map k | k in t :: if Deactivates(t, id, version, k) then t[k].(active := false, updatedAt := now) else t[k]
  }

  lemma DeactivateKeepsVersions(t: Table, id: string, version: int, now: int, other: string)
    ensures Deactivate(t, id, version, now).Keys == t.Keys
    ensures Versions(Deactivate(t, id, version, now), other) == Versions(t, other)
  {
  }

  lemma InsertAddsVersion(t: Table, id: string, version: int, row: Row, other: string)
    ensures Versions(t[(id, version) := row], other) == if other == id then Versions(t, id) + {version} else Versions(t, other)
  {
    var t' := t[(id, version) := row];
    forall v | v in Versions(t', other)
      ensures v in if other == id then Versions(t, id) + {version} else Versions(t, other)
    {
      assert (other, v) in t';
    }
    forall v | v in Versions(t, other)
      ensures v in Versions(t', other)
    {
      assert (other, v) in t';
    }
    if other == id {
      assert (id, version) in t';
    }
  }

  /** The single statement with which SQLite registers: version 0 asks for the next one. */
  ghost function Register(t: Table, id: string, version: int, row: Row): Result<(Table, int), RegistryError> {
    var chosen := if version == 0 then LatestVersion(t, id) + 1 else version;
    if (id, chosen) in t then Failure(AlreadyExists) else Success((t[(id, chosen) := row.(active := true)], chosen))
  }

  lemma VersionMembers(t: Table, id: string, v: int)
    ensures (id, v) in t <==> v in Versions(t, id)
    ensures (id, v) in t ==> v <= LatestVersion(t, id)
  {
  }

  /** The latest version is 0 without rows, and else that of some row of the id. */
  lemma LatestIsPresent(t: Table, id: string)
    ensures LatestVersion(t, id) == 0 || (id, LatestVersion(t, id)) in t
    ensures forall k :: k in t && k.0 == id ==> k.1 <= LatestVersion(t, id)
  {
    if Versions(t, id) != {} {
      VersionMembers(t, id, LatestVersion(t, id));
    }
    forall k | k in t && k.0 == id
      ensures k.1 <= LatestVersion(t, id)
    {
      VersionMembers(t, id, k.1);
    }
  }

  /** What metadata says: how many rows the id has, and the largest version among them. */
  lemma MetadataMeaning(t: Table, id: string)
    ensures var m := MetadataOf(t, id);
            && m.totalVersions == |set k | k in t && k.0 == id|
            && (m.totalVersions == 0 ==> m.latestVersion == 0)
            && (m.totalVersions > 0 ==> (id, m.latestVersion) in t)
            && forall k :: k in t && k.0 == id ==> k.1 <= m.latestVersion
  {
    var rows := set k | k in t && k.0 == id;
    LatestIsPresent(t, id);
    SameNumber(rows, Versions(t, id), id);
    if rows != {} {
      var k :| k in rows;
      assert k.1 in Versions(t, id);
      VersionMembers(t, id, LatestVersion(t, id));
    }
  }

  /** Rows of one id are as many as their versions. */
  lemma {:induction false} SameNumber(rows: set<(string, int)>, vs: set<int>, id: string)
    requires (forall k :: k in rows ==> k.0 == id && k.1 in vs) && forall v :: v in vs ==> (id, v) in rows
    ensures |rows| == |vs|
    decreases |rows|
  {
    if rows == {} {
      EmptyOrNot(vs);
    } else {
      var k :| k in rows;
      SameNumber(rows - {k}, vs - {k.1}, id);
    }
  }

  lemma NextVersionIsNew(t: Table, id: string)
    ensures (id, LatestVersion(t, id) + 1) !in t
  {
    VersionMembers(t, id, LatestVersion(t, id) + 1);
  }
}
