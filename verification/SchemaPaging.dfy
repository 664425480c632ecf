/** Listing schema families page by page: ids are visited in byte order, each page starting after
    the last id of the page before. */
module SchemaPaging {
  import opened Lexicographic
  import opened SchemaTable
  import opened Sets
  import opened Sequences

  // ----- sorted lists of ids -------------------------------------------------------------------

  predicate Ascending(ids: seq<string>) {
    forall i, j :: 0 <= i < j < |ids| ==> Less(ids[i], ids[j])
  }

  lemma {:induction false} FindLeast(s: set<string>) returns (m: string)
    requires s != {}
    ensures m in s && forall x :: x in s ==> AtMost(m, x)
  {
    m :| m in s;
    var rest := s - {m};
    assert forall x :: x in s ==> x == m || x in rest;
    if rest != {} {
      var r := FindLeast(rest);
      Total(m, r);
      if Less(r, m) {
        m := r;
      } else {
        forall x | x in rest
          ensures AtMost(m, x)
        {
          if m != r && r != x {
            Transitive(m, r, x);
          }
        }
      }
    }
  }

  lemma LeastExists(s: set<string>)
    requires s != {}
    ensures exists m :: m in s && forall x :: x in s ==> AtMost(m, x)
  {
    var m := FindLeast(s);
  }

  /** The ids of a set in order. */
  ghost function Sort(s: set<string>): seq<string>
    decreases |s|
  {
    if s == {} then []
    else
      LeastExists(s);
      var m :| m in s && forall x :: x in s ==> AtMost(m, x);
      [m] + Sort(s - {m})
  }

  lemma {:induction false} SortSorts(s: set<string>)
    ensures Ascending(Sort(s)) && |Sort(s)| == |s|
    ensures forall x :: x in Sort(s) <==> x in s
    decreases |s|
  {
    if s != {} {
      var m := Sort(s)[0];
      var rest := s - {m};
      LeastExists(s);
      assert Sort(s) == [m] + Sort(rest);
      SortSorts(rest);
      forall i | 0 <= i < |Sort(rest)|
        ensures Less(m, Sort(rest)[i])
      {
        assert Sort(rest)[i] in Sort(rest);
      }
    }
  }

  /** Two ascending lists with the same ids are the same list. */
  lemma {:induction false} AscendingUnique(a: seq<string>, b: seq<string>)
    requires Ascending(a) && Ascending(b) && forall x :: x in a <==> x in b
    ensures a == b
  {
    if a == [] {
      HeadIsMember(b);
    } else {
      assert a[0] in b && b != [] && b[0] in a;
      SameHead(a, b);
      forall x
        ensures x in a[1..] <==> x in b[1..]
      {
        TailMembers(a, x);
        TailMembers(b, x);
      }
      AscendingUnique(a[1..], b[1..]);
      assert a == [a[0]] + a[1..] && b == [b[0]] + b[1..];
    }
  }

  lemma HeadIsMember(a: seq<string>)
    ensures a == [] || a[0] in a
  {
  }

  lemma SameHead(a: seq<string>, b: seq<string>)
    requires Ascending(a) && Ascending(b) && a != [] && b != [] && a[0] in b && b[0] in a
    ensures a[0] == b[0]
  {
    if a[0] != b[0] {
      assert Less(b[0], a[0]) && Less(a[0], b[0]);
      Asymmetric(a[0], b[0]);
    }
  }

  lemma TailMembers(a: seq<string>, x: string)
    requires Ascending(a) && a != []
    ensures x in a[1..] <==> x in a && x != a[0]
  {
    Irreflexive(a[0]);
    assert a == [a[0]] + a[1..];
  }

  // ----- the queries ---------------------------------------------------------------------------

  /** A listing without a positive limit is limited by the largest 32-bit number only. */
  lemma LimitMeaning(requested: int)
    ensures 0 < requested ==> EffectiveLimit(requested) == requested
    ensures requested <= 0 ==> EffectiveLimit(requested) == 0x7FFF_FFFF
  {
  }

  /** An id is listed for its rows: some row of it that is active, if only those are asked for, must
      be there, and the id start with the prefix. */
  lemma MatchingMeaning(t: Table, prefix: string, activeOnly: bool, id: string)
    ensures id in Matching(t, prefix, activeOnly) <==>
              |prefix| <= |id| && id[..|prefix|] == prefix && exists v :: (id, v) in t && (activeOnly ==> t[(id, v)].active)
  {
    if id in Matching(t, prefix, activeOnly) {
      var k :| k in t && prefix <= k.0 && (!activeOnly || t[k].active) && k.0 == id;
      assert (id, k.1) in t;
    }
    if |prefix| <= |id| && id[..|prefix|] == prefix && exists v :: (id, v) in t && (activeOnly ==> t[(id, v)].active) {
      var v :| (id, v) in t && (activeOnly ==> t[(id, v)].active);
      assert id == prefix + id[|prefix|..];
      assert (id, v) in t && prefix <= (id, v).0 && (id, v).0 in Matching(t, prefix, activeOnly);
    }
  }

  /** It is shown with its largest version among those rows, and with the number of all its rows. */
  lemma RowMeaning(t: Table, id: string, activeOnly: bool)
    requires exists v :: (id, v) in t && (activeOnly ==> t[(id, v)].active)
    ensures var r := ListedRow(t, id, activeOnly);
            && r.id == id
            && (id, r.version) in t && (activeOnly ==> t[(id, r.version)].active)
            && (forall v :: (id, v) in t && (activeOnly ==> t[(id, v)].active) ==> v <= r.version)
            && r.totalVersions == |set k | k in t && k.0 == id|
  {
    var shown := Shown(t, id, activeOnly);
    var v :| (id, v) in t && (activeOnly ==> t[(id, v)].active);
    forall v | (id, v) in t && (activeOnly ==> t[(id, v)].active)
      ensures v in shown
    {
      assert (id, v).1 == v;
    }
    assert Latest(shown) in shown;
    MetadataMeaning(t, id);
  }

  /** Ids with a row that starts with the prefix and, if asked for, is active. */
  function Matching(t: Table, prefix: string, activeOnly: bool): set<string> {
    set k | k in t && prefix <= k.0 && (!activeOnly || t[k].active) :: k.0
  }

  function Beyond(ids: set<string>, cursor: string): set<string> {
    set id | id in ids && Less(cursor, id)
  }

  /** The versions a listing may show of an id. */
  function Shown(t: Table, id: string, activeOnly: bool): set<int> {
    set k | k in t && k.0 == id && (!activeOnly || t[k].active) :: k.1
  }

  /** One row of the listing: the newest shown version of a family, and how many versions it has. */
  datatype Listed = Listed(id: string, version: int, totalVersions: int)

  ghost function ListedRow(t: Table, id: string, activeOnly: bool): Listed {
    Listed(id, Latest(Shown(t, id, activeOnly)), |Versions(t, id)|)
  }

  ghost function RowsOf(t: Table, ids: seq<string>, activeOnly: bool): (rows: seq<Listed>)
    ensures |rows| == |ids| && forall i :: 0 <= i < |ids| ==> rows[i] == ListedRow(t, ids[i], activeOnly)
  {
    seq(|ids|, i requires 0 <= i < |ids| => ListedRow(t, ids[i], activeOnly))
  }

  /** What the listing query returns: one row more than the limit if there is one. */
  ghost function Query(t: Table, prefix: string, activeOnly: bool, cursor: string, limit: nat): seq<Listed> {
    RowsOf(t, Take(Sort(Beyond(Matching(t, prefix, activeOnly), cursor)), limit + 1), activeOnly)
  }

  datatype Page = Page(schemas: seq<Listed>, metadata: map<string, Metadata>, nextCursor: string)

  /** The page built from the rows of a query. The extra row is not shown, but tells that there is
      a next page; its metadata is returned nevertheless. */
  function PageOf(rows: seq<Listed>, limit: nat): Page {
    if limit < |rows| then Page(rows[..limit], MetadataOfRows(rows), if limit == 0 then "" else rows[limit - 1].id)
    else Page(rows, MetadataOfRows(rows), "")
  }

  function MetadataOfRows(rows: seq<Listed>): map<string, Metadata> {
    if rows == [] then map[]
    else
      var r := rows[|rows| - 1];
      MetadataOfRows(rows[..|rows| - 1])[r.id := Metadata(r.version, r.totalVersions)]
  }

  function EffectiveLimit(requested: int): nat {
    if requested <= 0 then MAX_INT32 else requested
  }

  /** The loop over the rows that the query returned. */
  method ListWithOptions(rows: seq<Listed>, requestedLimit: int) returns (page: Page)
    ensures page == PageOf(rows, EffectiveLimit(requestedLimit))
  {
    var limit := EffectiveLimit(requestedLimit);
    var metadata: map<string, Metadata> := map[];
    var schemas: seq<Listed> := [];
    for i := 0 to |rows|
      invariant schemas == rows[..i] && metadata == MetadataOfRows(rows[..i])
    {
      assert rows[..i + 1][..i] == rows[..i];
      schemas := schemas + [rows[i]];
      metadata := metadata[rows[i].id := Metadata(rows[i].version, rows[i].totalVersions)];
    }
    assert rows[..|rows|] == rows;
    var nextCursor := "";
    if |schemas| > limit {
      schemas := schemas[..limit];
      nextCursor := schemas[|schemas| - 1].id;
    }
    page := Page(schemas, metadata, nextCursor);
  }

  // ----- following the cursor --------------------------------------------------------------------

  /** The ids a page shows, and the cursor it hands out. */
  ghost function PageIds(t: Table, prefix: string, activeOnly: bool, cursor: string, limit: nat): seq<string> {
    Take(Sort(Beyond(Matching(t, prefix, activeOnly), cursor)), limit)
  }

  ghost function NextCursor(t: Table, prefix: string, activeOnly: bool, cursor: string, limit: nat): string {
    PageOf(Query(t, prefix, activeOnly, cursor, limit), limit).nextCursor
  }

  lemma PageShows(t: Table, prefix: string, activeOnly: bool, cursor: string, limit: nat)
    requires 0 < limit
    ensures var all := Sort(Beyond(Matching(t, prefix, activeOnly), cursor));
            var page := PageOf(Query(t, prefix, activeOnly, cursor, limit), limit);
            && page.schemas == RowsOf(t, PageIds(t, prefix, activeOnly, cursor, limit), activeOnly)
            && page.nextCursor == (if limit < |all| then all[limit - 1] else "")
  {
    var all := Sort(Beyond(Matching(t, prefix, activeOnly), cursor));
    var rows := Query(t, prefix, activeOnly, cursor, limit);
    var page := PageOf(rows, limit);
    assert |page.schemas| == |PageIds(t, prefix, activeOnly, cursor, limit)|;
    assert page.schemas == RowsOf(t, PageIds(t, prefix, activeOnly, cursor, limit), activeOnly);
  }

  lemma {:induction false} MetadataKeys(rows: seq<Listed>)
    ensures forall id :: id in MetadataOfRows(rows) <==> exists i :: 0 <= i < |rows| && rows[i].id == id
  {
    if rows != [] {
      var (init, last) := (rows[..|rows| - 1], rows[|rows| - 1]);
      MetadataKeys(init);
      assert rows == init + [last];
      forall id | id in MetadataOfRows(init)
        ensures exists i :: 0 <= i < |rows| && rows[i].id == id
      {
        var i :| 0 <= i < |init| && init[i].id == id;
        assert rows[i].id == id;
      }
      assert rows[|rows| - 1].id == last.id;
    }
  }

  /** A page has metadata for the schemas it shows and, if there is a next page, for the first schema
      of that one too, which it does not show. */
  lemma MetadataOfPage(t: Table, prefix: string, activeOnly: bool, cursor: string, limit: nat, id: string)
    requires 0 < limit
    ensures var all := Sort(Beyond(Matching(t, prefix, activeOnly), cursor));
            var page := PageOf(Query(t, prefix, activeOnly, cursor, limit), limit);
            id in page.metadata <==> id in PageIds(t, prefix, activeOnly, cursor, limit) || (limit < |all| && id == all[limit])
  {
    var all := Sort(Beyond(Matching(t, prefix, activeOnly), cursor));
    var rows := Query(t, prefix, activeOnly, cursor, limit);
    var ids := Take(all, limit + 1);
    MetadataOfIds(t, ids, activeOnly, id);
    if limit < |all| {
      assert ids == all[..limit] + [all[limit]];
    }
  }

  lemma MetadataOfIds(t: Table, ids: seq<string>, activeOnly: bool, id: string)
    ensures id in MetadataOfRows(RowsOf(t, ids, activeOnly)) <==> id in ids
  {
    var rows := RowsOf(t, ids, activeOnly);
    MetadataKeys(rows);
    if i :| 0 <= i < |rows| && rows[i].id == id {
      assert ids[i] == id;
    }
    if id in ids {
      var i :| 0 <= i < |ids| && ids[i] == id;
      assert rows[i].id == id;
    }
  }

  /** All ids shown by following cursors from one on: page i is answered by tables[i], which may
      have changed since the page before, with any positive limit. */
  ghost function Traversal(tables: seq<Table>, limits: seq<nat>, prefix: string, activeOnly: bool, cursor: string): seq<string>
    requires |limits| == |tables|
    decreases |tables|
  {
    if tables == [] then []
    else
      var next := NextCursor(tables[0], prefix, activeOnly, cursor, limits[0]);
      PageIds(tables[0], prefix, activeOnly, cursor, limits[0])
      + if next == "" then [] else Traversal(tables[1..], limits[1..], prefix, activeOnly, next)
  }

  /** The traversal gets to a page without a next cursor. */
  ghost predicate Completes(tables: seq<Table>, limits: seq<nat>, prefix: string, activeOnly: bool, cursor: string)
    requires |limits| == |tables|
    decreases |tables|
  {
    tables != [] &&
    var next := NextCursor(tables[0], prefix, activeOnly, cursor, limits[0]);
    next == "" || Completes(tables[1..], limits[1..], prefix, activeOnly, next)
  }

  predicate Positive(limits: seq<nat>) {
    forall i :: 0 <= i < |limits| ==> 0 < limits[i]
  }

  /** In an ascending list, the first n are those up to the n-th. */
  lemma FirstAreUpTo(all: seq<string>, n: nat, x: string)
    requires Ascending(all) && 0 < n <= |all| && x in all
    ensures x in all[..n] <==> AtMost(x, all[n - 1])
  {
    var i :| 0 <= i < |all| && all[i] == x;
    if i < n {
      assert all[..n][i] == x;
    } else {
      Asymmetric(all[n - 1], x);
      Irreflexive(x);
      assert forall j :: 0 <= j < n ==> Less(all[j], x);
    }
  }

  lemma NotBeyond(x: string, y: string)
    ensures AtMost(x, y) <==> !Less(y, x)
  {
    Total(x, y);
    if Less(y, x) {
      Asymmetric(y, x);
    }
  }

  /** A page is ascending, and shows exactly the matching ids beyond its cursor, up to the next
      cursor if there is one; that cursor moves on. */
  lemma PageFacts(t: Table, prefix: string, activeOnly: bool, cursor: string, limit: nat, x: string)
    requires 0 < limit
    ensures var ids := PageIds(t, prefix, activeOnly, cursor, limit);
            var next := NextCursor(t, prefix, activeOnly, cursor, limit);
            && Ascending(ids)
            && (x in ids <==> x in Matching(t, prefix, activeOnly) && Less(cursor, x) && (next != "" ==> AtMost(x, next)))
            && (next != "" ==> Less(cursor, next) && next in ids)
  {
    var matching := Beyond(Matching(t, prefix, activeOnly), cursor);
    var all := Sort(matching);
    SortSorts(matching);
    PageShows(t, prefix, activeOnly, cursor, limit);
    if limit < |all| {
      var next := all[limit - 1];
      assert next in all && next in all[..limit];
      assert next != "" by { assert Less(cursor, next); }
      if x in all {
        FirstAreUpTo(all, limit, x);
      } else if x in all[..limit] {
        PrefixMembers(all, limit, x);
      }
    }
  }

  lemma PrefixMembers(all: seq<string>, n: nat, x: string)
    requires n <= |all|
    ensures x in all[..n] ==> x in all
  {
  }

  lemma AscendingConcat(a: seq<string>, b: seq<string>, between: string)
    requires Ascending(a) && Ascending(b)
    requires (forall x :: x in a ==> AtMost(x, between)) && forall x :: x in b ==> Less(between, x)
    ensures Ascending(a + b)
  {
    forall i, j | 0 <= i < |a| && 0 <= j < |b|
      ensures Less(a[i], b[j])
    {
      assert a[i] in a && b[j] in b;
      if a[i] != between {
        Transitive(a[i], between, b[j]);
      }
    }
  }

  lemma PageAscends(t: Table, prefix: string, activeOnly: bool, cursor: string, limit: nat)
    requires 0 < limit
    ensures var ids := PageIds(t, prefix, activeOnly, cursor, limit);
            var next := NextCursor(t, prefix, activeOnly, cursor, limit);
            && Ascending(ids)
            && (forall x :: x in ids ==> Less(cursor, x) && (next != "" ==> AtMost(x, next)))
            && (next != "" ==> Less(cursor, next))
  {
    var (ids, next) := (PageIds(t, prefix, activeOnly, cursor, limit), NextCursor(t, prefix, activeOnly, cursor, limit));
    forall x | x in ids
      ensures Less(cursor, x) && (next != "" ==> AtMost(x, next))
    {
      PageFacts(t, prefix, activeOnly, cursor, limit, x);
    }
    PageFacts(t, prefix, activeOnly, cursor, limit, cursor);
  }

  /** Whatever happens to the table between pages, no id is shown twice and the order is strict. */
  lemma {:induction false} TraversalAscends(tables: seq<Table>, limits: seq<nat>, prefix: string, activeOnly: bool, cursor: string)
    requires |limits| == |tables| && Positive(limits)
    ensures Ascending(Traversal(tables, limits, prefix, activeOnly, cursor))
    ensures forall x :: x in Traversal(tables, limits, prefix, activeOnly, cursor) ==> Less(cursor, x)
    decreases |tables|
  {
    if tables != [] {
      var ids := PageIds(tables[0], prefix, activeOnly, cursor, limits[0]);
      var next := NextCursor(tables[0], prefix, activeOnly, cursor, limits[0]);
      PageAscends(tables[0], prefix, activeOnly, cursor, limits[0]);
      if next != "" {
        var rest := Traversal(tables[1..], limits[1..], prefix, activeOnly, next);
        TraversalAscends(tables[1..], limits[1..], prefix, activeOnly, next);
        AscendingConcat(ids, rest, next);
        forall x | x in rest
          ensures Less(cursor, x)
        {
          Transitive(cursor, next, x);
        }
      }
    }
  }

  /** A completed traversal shows every id that matched in all the tables it saw. */
  lemma {:induction false} TraversalIsComplete(tables: seq<Table>, limits: seq<nat>, prefix: string, activeOnly: bool, cursor: string, x: string)
    requires |limits| == |tables| && Positive(limits) && Completes(tables, limits, prefix, activeOnly, cursor)
    requires Less(cursor, x) && forall i :: 0 <= i < |tables| ==> x in Matching(tables[i], prefix, activeOnly)
    ensures x in Traversal(tables, limits, prefix, activeOnly, cursor)
    decreases |tables|
  {
    var next := NextCursor(tables[0], prefix, activeOnly, cursor, limits[0]);
    PageFacts(tables[0], prefix, activeOnly, cursor, limits[0], x);
    NotBeyond(x, next);
    if next != "" && Less(next, x) {
      TraversalIsComplete(tables[1..], limits[1..], prefix, activeOnly, next, x);
    }
  }

  /** What it shows matched in some of them. */
  lemma {:induction false} TraversalIsSound(tables: seq<Table>, limits: seq<nat>, prefix: string, activeOnly: bool, cursor: string, x: string)
    requires |limits| == |tables| && Positive(limits)
    requires x in Traversal(tables, limits, prefix, activeOnly, cursor)
    ensures exists i :: 0 <= i < |tables| && x in Matching(tables[i], prefix, activeOnly)
    decreases |tables|
  {
    var next := NextCursor(tables[0], prefix, activeOnly, cursor, limits[0]);
    PageFacts(tables[0], prefix, activeOnly, cursor, limits[0], x);
    if x !in PageIds(tables[0], prefix, activeOnly, cursor, limits[0]) {
      TraversalIsSound(tables[1..], limits[1..], prefix, activeOnly, next, x);
      var i :| 0 <= i < |tables[1..]| && x in Matching(tables[1..][i], prefix, activeOnly);
      assert tables[i + 1] == tables[1..][i];
    }
  }

  predicate Fixed(tables: seq<Table>, t: Table) {
    forall i :: 0 <= i < |tables| ==> tables[i] == t
  }

  /** Past the next cursor there are fewer ids than past the one before. */
  lemma NextCursorLeavesFewer(t: Table, prefix: string, activeOnly: bool, cursor: string, limit: nat)
    requires 0 < limit && NextCursor(t, prefix, activeOnly, cursor, limit) != ""
    ensures var next := NextCursor(t, prefix, activeOnly, cursor, limit);
            |Beyond(Matching(t, prefix, activeOnly), next)| < |Beyond(Matching(t, prefix, activeOnly), cursor)|
  {
    var next := NextCursor(t, prefix, activeOnly, cursor, limit);
    var (all, rest) := (Beyond(Matching(t, prefix, activeOnly), cursor), Beyond(Matching(t, prefix, activeOnly), next));
    PageFacts(t, prefix, activeOnly, cursor, limit, next);
    assert next in all;
    Irreflexive(next);
    forall x | x in rest
      ensures x in all - {next}
    {
      Transitive(cursor, next, x);
    }
    ProperSubset(rest, all, next);
  }

  /** On a table that does not change, a traversal given enough pages completes. */
  lemma {:induction false} TraversalTerminates(t: Table, tables: seq<Table>, limits: seq<nat>, prefix: string, activeOnly: bool, cursor: string)
    requires |limits| == |tables| && Positive(limits) && Fixed(tables, t)
    requires |Beyond(Matching(t, prefix, activeOnly), cursor)| < |tables|
    ensures Completes(tables, limits, prefix, activeOnly, cursor)
    decreases |tables|
  {
    assert tables[0] == t;
    var next := NextCursor(t, prefix, activeOnly, cursor, limits[0]);
    if next != "" {
      NextCursorLeavesFewer(t, prefix, activeOnly, cursor, limits[0]);
      TraversalTerminates(t, tables[1..], limits[1..], prefix, activeOnly, next);
    }
  }

  /** On a table that does not change, the pages put together are the unpaged list, and there are
      as many entries as the total count, unless a family has the empty id: the count includes it,
      but no cursor comes before it. */
  lemma PagingIsFaithful(t: Table, tables: seq<Table>, limits: seq<nat>, prefix: string, activeOnly: bool)
    requires |limits| == |tables| && Positive(limits) && Fixed(tables, t)
    requires Completes(tables, limits, prefix, activeOnly, "")
    ensures Traversal(tables, limits, prefix, activeOnly, "") == Sort(Beyond(Matching(t, prefix, activeOnly), ""))
    ensures |Traversal(tables, limits, prefix, activeOnly, "")| == |Matching(t, prefix, activeOnly)| <==>
              "" !in Matching(t, prefix, activeOnly)
  {
    var all := Beyond(Matching(t, prefix, activeOnly), "");
    var shown := Traversal(tables, limits, prefix, activeOnly, "");
    SortSorts(all);
    TraversalAscends(tables, limits, prefix, activeOnly, "");
    forall x
      ensures x in shown <==> x in Sort(all)
    {
      if x in shown {
        TraversalIsSound(tables, limits, prefix, activeOnly, "", x);
      }
      if x in all {
        TraversalIsComplete(tables, limits, prefix, activeOnly, "", x);
      }
    }
    AscendingUnique(shown, Sort(all));
    if "" in Matching(t, prefix, activeOnly) {
      ProperSubset(all, Matching(t, prefix, activeOnly), "");
    } else {
      assert all == Matching(t, prefix, activeOnly);
    }
  }
}
