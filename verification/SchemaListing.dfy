/** The server's listing of schemas: pages of the registry, strung together by page tokens. */
module SchemaListing {
  import opened Wrappers
  import opened Lexicographic
  import opened SchemaTable
  import opened SchemaPaging
  import opened PageTokens
  import opened Sets

  const SCHEMAS: string := "schemas"

  /** What a listing token is bound to: the prefix and whether only active schemas are listed. */
  function ListFilter(prefix: string, activeOnly: bool): string {
    prefix + if activeOnly then ":true" else ":false"
  }

  /** Different listings have different filters, whatever characters the prefixes contain. */
  lemma FilterDetermines(p: string, a: bool, q: string, b: bool)
    ensures ListFilter(p, a) == ListFilter(q, b) <==> p == q && a == b
  {
    var (f, g) := (ListFilter(p, a), ListFilter(q, b));
    if f == g {
      assert f[|f| - 2] == (if a then 'u' else 's');
      assert g[|g| - 2] == (if b then 'u' else 's');
      var suffix := if a then 5 else 6;
      assert p == f[..|f| - suffix] && q == g[..|g| - suffix];
    }
  }

  datatype SchemaInfo = SchemaInfo(id: string, latestVersion: int, versionCount: int)

  datatype Response = Response(schemas: seq<SchemaInfo>, nextPageToken: string)

  function InfoOf(r: Listed, metadata: map<string, Metadata>): SchemaInfo {
    SchemaInfo(r.id, r.version, if r.id in metadata then metadata[r.id].totalVersions else 0)
  }

  function InfosOf(rows: seq<Listed>, metadata: map<string, Metadata>): (infos: seq<SchemaInfo>)
    ensures |infos| == |rows| && forall i :: 0 <= i < |rows| ==> infos[i] == InfoOf(rows[i], metadata)
  {
    seq(|rows|, i requires 0 <= i < |rows| => InfoOf(rows[i], metadata))
  }

  ghost function ListSchemas(codec: Codec, t: Table, prefix: string, activeOnly: bool, pageSize: int, token: string)
    : Result<Response, TokenError>
  {
    match PageSize(pageSize)
    case Failure(e) => Failure(e)
    case Success(limit) =>
      var filter := ListFilter(prefix, activeOnly);
      match DecodePosition(codec, token, SCHEMAS, filter)
      case Failure(e) => Failure(e)
      case Success(cursor) =>
        var page := PageOf(Query(t, prefix, activeOnly, cursor, limit), limit);
        var infos := InfosOf(page.schemas, page.metadata);
        if page.nextCursor == "" then Success(Response(infos, ""))
        else
          match EncodePosition(codec, SCHEMAS, filter, page.nextCursor)
          case Failure(e) => Failure(e)
          case Success(next) => Success(Response(infos, next))
  }

  /** Everything a client sees that asks for page after page with the token of the page before. */
  ghost function Follow(
    codec: Codec, tables: seq<Table>, sizes: seq<int>, prefix: string, activeOnly: bool, token: string)
    : Result<seq<SchemaInfo>, TokenError>
    requires |sizes| == |tables|
    decreases |tables|
  {
    if tables == [] then Success([])
    else
      match ListSchemas(codec, tables[0], prefix, activeOnly, sizes[0], token)
      case Failure(e) => Failure(e)
      case Success(response) =>
        if response.nextPageToken == "" then Success(response.schemas)
        else
          match Follow(codec, tables[1..], sizes[1..], prefix, activeOnly, response.nextPageToken)
          case Failure(e) => Failure(e)
          case Success(rest) => Success(response.schemas + rest)
  }

  predicate ValidSizes(sizes: seq<int>) {
    forall i :: 0 <= i < |sizes| ==> 0 <= sizes[i] <= MAX_PAGE_SIZE
  }

  function Limit(size: int): nat {
    if 0 < size then size else DEFAULT_PAGE_SIZE
  }

  function Limits(sizes: seq<int>): (limits: seq<nat>)
    ensures |limits| == |sizes| && Positive(limits)
  {
    seq(|sizes|, i requires 0 <= i < |sizes| => Limit(sizes[i]))
  }

  function Ids(infos: seq<SchemaInfo>): (ids: seq<string>)
    ensures |ids| == |infos| && forall i :: 0 <= i < |ids| ==> ids[i] == infos[i].id
  {
    seq(|infos|, i requires 0 <= i < |infos| => infos[i].id)
  }

  /** The token stands for the cursor: both empty, or the one issued for it. */
  predicate Stands(codec: Codec, token: string, cursor: string, prefix: string, activeOnly: bool) {
    if cursor == "" then token == ""
    else EncodePosition(codec, SCHEMAS, ListFilter(prefix, activeOnly), cursor) == Success(token)
  }

  lemma IdsOfRows(t: Table, ids: seq<string>, activeOnly: bool, metadata: map<string, Metadata>)
    ensures Ids(InfosOf(RowsOf(t, ids, activeOnly), metadata)) == ids
  {
  }

  lemma IdsConcat(a: seq<SchemaInfo>, b: seq<SchemaInfo>)
    ensures Ids(a + b) == Ids(a) + Ids(b)
  {
  }

  lemma LimitsTail(sizes: seq<int>)
    requires sizes != []
    ensures Limits(sizes) == [Limit(sizes[0])] + Limits(sizes[1..])
  {
  }

  /** One page: no error, the ids of the registry's page, and a token for its next cursor. */
  lemma PageFollows(codec: Codec, t: Table, prefix: string, activeOnly: bool, size: int, token: string, cursor: string)
    requires codec.Invertible() && 0 <= size <= MAX_PAGE_SIZE && Stands(codec, token, cursor, prefix, activeOnly)
    ensures var response := ListSchemas(codec, t, prefix, activeOnly, size, token);
            && response.Success?
            && Ids(response.value.schemas) == PageIds(t, prefix, activeOnly, cursor, Limit(size))
            && Stands(codec, response.value.nextPageToken, NextCursor(t, prefix, activeOnly, cursor, Limit(size)), prefix, activeOnly)
  {
    var filter := ListFilter(prefix, activeOnly);
    if cursor != "" {
      TokenFitsOnlyItsRequest(codec, SCHEMAS, filter, AtPosition(cursor), SCHEMAS, filter, AtPosition(cursor));
    }
    assert DecodePosition(codec, token, SCHEMAS, filter) == Success(cursor);
    PageShows(t, prefix, activeOnly, cursor, Limit(size));
    var page := PageOf(Query(t, prefix, activeOnly, cursor, Limit(size)), Limit(size));
    IdsOfRows(t, PageIds(t, prefix, activeOnly, cursor, Limit(size)), activeOnly, page.metadata);
  }

  lemma EncodedIsNotEmpty(codec: Codec, token: string, cursor: string, prefix: string, activeOnly: bool)
    requires codec.Invertible() && cursor != "" && Stands(codec, token, cursor, prefix, activeOnly)
    ensures token != ""
  {
  }

  /** Following tokens is following cursors: with any page sizes the server allows there is never
      an error, and the ids seen are those of the registry's traversal. */
  lemma {:induction false} TokensFollowCursors(
    codec: Codec, tables: seq<Table>, sizes: seq<int>, prefix: string, activeOnly: bool, token: string, cursor: string)
    requires |sizes| == |tables| && codec.Invertible() && ValidSizes(sizes)
    requires Stands(codec, token, cursor, prefix, activeOnly)
    ensures var seen := Follow(codec, tables, sizes, prefix, activeOnly, token);
            seen.Success? && Ids(seen.value) == Traversal(tables, Limits(sizes), prefix, activeOnly, cursor)
    decreases |tables|
  {
    if tables != [] {
      PageFollows(codec, tables[0], prefix, activeOnly, sizes[0], token, cursor);
      var response := ListSchemas(codec, tables[0], prefix, activeOnly, sizes[0], token).value;
      var next := NextCursor(tables[0], prefix, activeOnly, cursor, Limit(sizes[0]));
      LimitsTail(sizes);
      if next != "" {
        EncodedIsNotEmpty(codec, response.nextPageToken, next, prefix, activeOnly);
        TokensFollowCursors(codec, tables[1..], sizes[1..], prefix, activeOnly, response.nextPageToken, next);
        var rest := Follow(codec, tables[1..], sizes[1..], prefix, activeOnly, response.nextPageToken).value;
        IdsConcat(response.schemas, rest);
      }
    }
  }

  /** A client that starts without a token, on a table that does not change and with enough pages,
      sees exactly the matching ids (the empty one apart), in order and once each. */
  lemma ClientSeesEverythingOnce(codec: Codec, t: Table, tables: seq<Table>, sizes: seq<int>, prefix: string, activeOnly: bool)
    requires |sizes| == |tables| && codec.Invertible() && ValidSizes(sizes) && Fixed(tables, t)
    requires |Matching(t, prefix, activeOnly)| < |tables|
    ensures var seen := Follow(codec, tables, sizes, prefix, activeOnly, "");
            && seen.Success?
            && Ascending(Ids(seen.value))
            && forall x :: x in Ids(seen.value) <==> x in Matching(t, prefix, activeOnly) && x != ""
  {
    TokensFollowCursors(codec, tables, sizes, prefix, activeOnly, "", "");
    var beyond := Beyond(Matching(t, prefix, activeOnly), "");
    SubsetSize(beyond, Matching(t, prefix, activeOnly));
    TraversalTerminates(t, tables, Limits(sizes), prefix, activeOnly, "");
    PagingIsFaithful(t, tables, Limits(sizes), prefix, activeOnly);
    SortSorts(beyond);
  }

  /** A token of one listing is refused by every other. */
  lemma ForeignTokenRefused(
    codec: Codec, t: Table, p: string, a: bool, cursor: string, token: string, q: string, b: bool, size: int)
    requires codec.Invertible() && 0 <= size <= MAX_PAGE_SIZE && cursor != "" && Stands(codec, token, cursor, p, a)
    ensures ListSchemas(codec, t, q, b, size, token).Failure? <==> p != q || a != b
  {
    FilterDetermines(p, a, q, b);
    if p == q && a == b {
      PageFollows(codec, t, p, a, size, token, cursor);
    } else {
      var decoded := DecodePosition(codec, token, SCHEMAS, ListFilter(q, b));
      if decoded.Success? {
        TokenFitsOnlyItsRequest(
          codec, SCHEMAS, ListFilter(p, a), AtPosition(cursor), SCHEMAS, ListFilter(q, b), AtPosition(decoded.value));
      }
    }
  }

  // ----- the counts shown beside the ids ------------------------------------------------------------

  predicate DistinctRows(rows: seq<Listed>) {
    forall i, j :: 0 <= i < j < |rows| ==> rows[i].id != rows[j].id
  }

  lemma {:induction false} MetadataOfRow(rows: seq<Listed>, i: nat)
    requires DistinctRows(rows) && i < |rows|
    ensures rows[i].id in MetadataOfRows(rows)
    ensures MetadataOfRows(rows)[rows[i].id] == Metadata(rows[i].version, rows[i].totalVersions)
    decreases |rows|
  {
    if i < |rows| - 1 {
      MetadataOfRow(rows[..|rows| - 1], i);
    }
  }

  /** Every schema of a page is shown with the number of versions of its own family. */
  lemma VersionCountsAreOwn(codec: Codec, t: Table, prefix: string, activeOnly: bool, size: int, token: string, i: nat)
    requires ListSchemas(codec, t, prefix, activeOnly, size, token).Success?
    requires i < |ListSchemas(codec, t, prefix, activeOnly, size, token).value.schemas|
    ensures var info := ListSchemas(codec, t, prefix, activeOnly, size, token).value.schemas[i];
            && info.latestVersion == Latest(Shown(t, info.id, activeOnly))
            && info.versionCount == |Versions(t, info.id)|
  {
    var limit := PageSize(size).value;
    var cursor := DecodePosition(codec, token, SCHEMAS, ListFilter(prefix, activeOnly)).value;
    var rows := Query(t, prefix, activeOnly, cursor, limit);
    DistinctQuery(t, prefix, activeOnly, cursor, limit);
    MetadataOfRow(rows, i);
    var page := PageOf(rows, limit);
    assert page.schemas[i] == rows[i];
  }

  lemma DistinctQuery(t: Table, prefix: string, activeOnly: bool, cursor: string, limit: nat)
    ensures DistinctRows(Query(t, prefix, activeOnly, cursor, limit))
  {
    var beyond := Beyond(Matching(t, prefix, activeOnly), cursor);
    SortSorts(beyond);
    var all := Sort(beyond);
    forall i, j | 0 <= i < j < |all|
      ensures all[i] != all[j]
    {
      assert Less(all[i], all[j]);
      Irreflexive(all[i]);
    }
  }
}
