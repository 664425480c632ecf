/** The SQLite registry, which runs its statements one after the other. */
module SqliteRegistry {
  import opened Wrappers
  import opened SchemaTable

  class Registry {
    var table: Table

    constructor ()
      ensures table == map[]
    {
      table := map[];
    }

    /** Largest version and number of versions of an id. */
    method GetMetadata(id: string) returns (m: Metadata)
      ensures m == MetadataOf(table, id)
    {
      var keys := table.Keys;
      var vs: set<int> := {};
      var latest := 0;
      while keys != {}
        invariant keys <= table.Keys
        invariant vs == set k | k in table.Keys - keys && k.0 == id :: k.1
        invariant if vs == {} then latest == 0 else latest in vs && forall v :: v in vs ==> v <= latest
      {
        var k :| k in keys;
        keys := keys - {k};
        if k.0 == id {
          if vs == {} || latest < k.1 {
            latest := k.1;
          }
          vs := vs + {k.1};
        }
      }
      assert vs == Versions(table, id);
      LatestIs(vs, latest);
      m := Metadata(latest, |vs|);
    }

    /** A registration adds one row, active and otherwise as requested, and touches no other. Its
        version is the one asked for, or, if none is, one more than the largest of the id, the first
        being 1. It is refused, and nothing changed, exactly if the version asked for is taken. */
    method Register(id: string, version: int, row: Row) returns (r: Result<(int, Metadata), RegistryError>)
      modifies this
      ensures r.Failure? <==> version != 0 && (id, version) in old(table)
      ensures r.Failure? ==> r.error == AlreadyExists && table == old(table)
      ensures r.Success? ==>
                var chosen := r.value.0;
                && (id, chosen) !in old(table)
                && table.Keys == old(table).Keys + {(id, chosen)}
                && table[(id, chosen)].active && SameRow(row, table[(id, chosen)])
                && (forall k :: k in old(table) ==> table[k] == old(table)[k])
                && (version != 0 ==> chosen == version)
                && (version == 0 ==>
                      && (forall k :: k in old(table) && k.0 == id ==> k.1 < chosen)
                      && (chosen == 1 || (id, chosen - 1) in old(table)))
      ensures var expected := SchemaTable.Register(old(table), id, version, row);
              match expected
              case Failure(e) => r == Failure(e) && table == old(table)
              case Success((t, chosen)) => table == t && r == Success((chosen, MetadataOf(t, id)))
    {
      var chosen := version;
      if version == 0 {
        var before := GetMetadata(id);
        chosen := before.latestVersion + 1;
      }
      if version == 0 {
        NextVersionIsNew(table, id);
        LatestIsPresent(table, id);
      }
      if (id, chosen) in table {
        return Failure(AlreadyExists);
      }
      table := table[(id, chosen) := row.(active := true)];
      var metadata := GetMetadata(id);
      r := Success((chosen, metadata));
    }

    /** No row disappears. Those that were active and are asked for become inactive, with nothing
        else of them but the time of their update changed, and no other row is touched; the result
        is how many rows that were, or an error if there were none. */
    method Deactivate(id: string, version: int, now: int) returns (r: Result<nat, RegistryError>)
      modifies this
      ensures table.Keys == old(table).Keys
      ensures forall k :: k in table && (k.0 != id || (version != 0 && k.1 != version) || !old(table)[k].active) ==>
                table[k] == old(table)[k]
      ensures forall k :: k in table && k.0 == id && (version == 0 || k.1 == version) ==> !table[k].active
      ensures forall k :: k in table && table[k] != old(table)[k] ==>
                table[k].updatedAt == now && SameVersion(old(table)[k], table[k])
      ensures var hit := set k | k in table && old(table)[k].active && !table[k].active;
              r == if hit == {} then Failure(NotFound) else Success(|hit|)
      ensures table == SchemaTable.Deactivate(old(table), id, version, now)
    {
      var before := table;
      var keys := table.Keys;
      var hit: set<(string, int)> := {};
      while keys != {}
        invariant keys <= before.Keys == table.Keys
        invariant forall k :: k in keys ==> table[k] == before[k]
        invariant forall k :: k in before.Keys - keys ==>
                    table[k] == if Deactivates(before, id, version, k) then before[k].(active := false, updatedAt := now) else before[k]
        invariant hit == set k | k in before.Keys - keys && Deactivates(before, id, version, k)
      {
        var k :| k in keys;
        keys := keys - {k};
        if k.0 == id && table[k].active && (version == 0 || k.1 == version) {
          table := table[k := table[k].(active := false, updatedAt := now)];
          hit := hit + {k};
        }
      }
      assert hit == set k | k in table && before[k].active && !table[k].active;
      r := if hit == {} then Failure(NotFound) else Success(|hit|);
    }
  }
}
