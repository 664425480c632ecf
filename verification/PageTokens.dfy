/** Page tokens: opaque strings that say where the next page starts, bound to the request they
    were issued for. Their text encoding is any invertible one. */
module PageTokens {
  import opened Wrappers

  const DEFAULT_PAGE_SIZE: int := 100
  const MAX_PAGE_SIZE: int := 1000

  datatype Cursor = Cursor(
    version: int,
    scope: string,
    filter: string,
    offset: int,
    position: string,
    priority: Option<int>,
    rowId: Option<int>)

  datatype TokenError = Malformed | Mismatch | NegativeOffset | EmptyPosition | RowIdNotPositive | BadPageSize

  /** How cursors become text. */
  datatype Codec = Codec(encode: Cursor -> string, decode: string -> Option<Cursor>) {
    ghost predicate Invertible() {
      forall c: Cursor :: encode(c) != "" && decode(encode(c)) == Some(c)
    }
  }

  function PageSize(requested: int): Result<int, TokenError> {
    if requested < 0 || requested > MAX_PAGE_SIZE then Failure(BadPageSize)
    else Success(if requested == 0 then DEFAULT_PAGE_SIZE else requested)
  }

  // ----- the three kinds of token --------------------------------------------------------------

  function Encode(codec: Codec, scope: string, filter: string, offset: int): Result<string, TokenError> {
    if offset < 0 then Failure(NegativeOffset)
    else Success(codec.encode(Cursor(1, scope, filter, offset, "", None, None)))
  }

  function Decode(codec: Codec, token: string, scope: string, filter: string): Result<int, TokenError> {
    if token == "" then Success(0)
    else
      match codec.decode(token)
      case None => Failure(Malformed)
      case Some(c) =>
        if c.version != 1 || c.scope != scope || c.filter != filter || c.offset < 0 || c.position != ""
           || c.priority.Some? || c.rowId.Some? then Failure(Mismatch)
        else Success(c.offset)
  }

  function EncodePosition(codec: Codec, scope: string, filter: string, position: string): Result<string, TokenError> {
    if position == "" then Failure(EmptyPosition)
    else Success(codec.encode(Cursor(1, scope, filter, 0, position, None, None)))
  }

  function DecodePosition(codec: Codec, token: string, scope: string, filter: string): Result<string, TokenError> {
    if token == "" then Success("")
    else
      match codec.decode(token)
      case None => Failure(Malformed)
      case Some(c) =>
        if c.version != 1 || c.scope != scope || c.filter != filter || c.position == "" || c.offset != 0
           || c.priority.Some? || c.rowId.Some? then Failure(Mismatch)
        else Success(c.position)
  }

  function EncodePeek(codec: Codec, scope: string, filter: string, priority: int, rowId: int): Result<string, TokenError> {
    if rowId <= 0 then Failure(RowIdNotPositive)
    else Success(codec.encode(Cursor(2, scope, filter, 0, "", Some(priority), Some(rowId))))
  }

  function DecodePeek(codec: Codec, token: string, scope: string, filter: string): Result<(int, int), TokenError> {
    if token == "" then Success((0, 0))
    else
      match codec.decode(token)
      case None => Failure(Malformed)
      case Some(c) =>
        if c.version != 2 || c.scope != scope || c.filter != filter || c.priority.None? || c.rowId.None?
           || c.rowId.value <= 0 || c.offset != 0 || c.position != "" then Failure(Mismatch)
        else Success((c.priority.value, c.rowId.value))
  }

  // ----- a token fits its own request and no other ----------------------------------------------

  /** What a token carries. */
  datatype Payload = AtOffset(offset: int) | AtPosition(position: string) | AtRow(priority: int, rowId: int)

  function Issue(codec: Codec, scope: string, filter: string, p: Payload): Result<string, TokenError> {
    match p
    case AtOffset(offset) => Encode(codec, scope, filter, offset)
    case AtPosition(position) => EncodePosition(codec, scope, filter, position)
    case AtRow(priority, rowId) => EncodePeek(codec, scope, filter, priority, rowId)
  }

  /** token is accepted, by the decoder for the kind of p, as carrying p. */
  predicate Redeems(codec: Codec, token: string, scope: string, filter: string, p: Payload) {
    match p
    case AtOffset(offset) => Decode(codec, token, scope, filter) == Success(offset)
    case AtPosition(position) => DecodePosition(codec, token, scope, filter) == Success(position)
    case AtRow(priority, rowId) => DecodePeek(codec, token, scope, filter) == Success((priority, rowId))
  }

  /** A non-empty token is accepted exactly when it decodes to what its own encoder would have
      encoded. So of two tokens for one request and payload the cursors are the same. */
  lemma AcceptedExactly(codec: Codec, token: string, scope: string, filter: string, p: Payload)
    requires codec.Invertible() && token != ""
    ensures Redeems(codec, token, scope, filter, p) <==>
              var issued := Issue(codec, scope, filter, p);
              issued.Success? && codec.decode(token) == codec.decode(issued.value)
  {
    var issued := Issue(codec, scope, filter, p);
    if issued.Success? {
      var c := match p
        case AtOffset(offset) => Cursor(1, scope, filter, offset, "", None, None)
        case AtPosition(position) => Cursor(1, scope, filter, 0, position, None, None)
        case AtRow(priority, rowId) => Cursor(2, scope, filter, 0, "", Some(priority), Some(rowId));
      assert issued.value == codec.encode(c);
    }
  }

  /** A token is accepted under its own scope and filter, by the decoder of its own kind, as the
      payload it was issued for, and nowhere else and as nothing else. */
  lemma TokenFitsOnlyItsRequest(
    codec: Codec, scope: string, filter: string, p: Payload, scope': string, filter': string, p': Payload)
    requires codec.Invertible() && Issue(codec, scope, filter, p).Success?
    ensures Redeems(codec, Issue(codec, scope, filter, p).value, scope', filter', p') <==>
              scope' == scope && filter' == filter && p' == p
  {
    var token := Issue(codec, scope, filter, p).value;
    assert token != "";
    AcceptedExactly(codec, token, scope', filter', p');
    var issued' := Issue(codec, scope', filter', p');
    if issued'.Success? {
      DifferentCursors(codec, scope, filter, p, scope', filter', p');
    }
  }

  lemma DifferentCursors(
    codec: Codec, scope: string, filter: string, p: Payload, scope': string, filter': string, p': Payload)
    requires codec.Invertible() && Issue(codec, scope, filter, p).Success? && Issue(codec, scope', filter', p').Success?
    ensures codec.decode(Issue(codec, scope, filter, p).value) == codec.decode(Issue(codec, scope', filter', p').value)
            <==> scope' == scope && filter' == filter && p' == p
  {
  }

  /** An empty token asks for the first page, a token that is no text of a cursor is malformed, and any
      other that does not fit is a mismatch. */
  lemma TokenErrors(codec: Codec, token: string, scope: string, filter: string)
    ensures token == "" ==>
              && Decode(codec, token, scope, filter) == Success(0)
              && DecodePosition(codec, token, scope, filter) == Success("")
              && DecodePeek(codec, token, scope, filter) == Success((0, 0))
    ensures token != "" && codec.decode(token) == None ==>
              && Decode(codec, token, scope, filter) == Failure(Malformed)
              && DecodePosition(codec, token, scope, filter) == Failure(Malformed)
              && DecodePeek(codec, token, scope, filter) == Failure(Malformed)
    ensures token != "" && codec.decode(token).Some? ==>
              && Decode(codec, token, scope, filter) != Failure(Malformed)
              && DecodePosition(codec, token, scope, filter) != Failure(Malformed)
              && DecodePeek(codec, token, scope, filter) != Failure(Malformed)
  {
  }

  /** What a token says, in whatever order its fields are written: one version for offsets and
      positions, another for rows, and nothing but what its kind carries. */
  lemma TokenContents(codec: Codec, scope: string, filter: string, p: Payload)
    requires codec.Invertible() && Issue(codec, scope, filter, p).Success?
    ensures var c := codec.decode(Issue(codec, scope, filter, p).value);
            && c.Some? && c.value.scope == scope && c.value.filter == filter
            && c.value.version == (if p.AtRow? then 2 else 1)
            && c.value.offset == (if p.AtOffset? then p.offset else 0)
            && c.value.position == (if p.AtPosition? then p.position else "")
            && c.value.priority == (if p.AtRow? then Some(p.priority) else None)
            && c.value.rowId == (if p.AtRow? then Some(p.rowId) else None)
  {
  }

  /** Tokens are issued for offsets that are not negative, positions that are not empty, and rows with
      positive ids; page sizes go up to 1000, none meaning 100. */
  lemma LimitsOfTokens(codec: Codec, scope: string, filter: string, p: Payload, requested: int)
    ensures Issue(codec, scope, filter, p).Success? <==>
              match p
              case AtOffset(offset) => 0 <= offset
              case AtPosition(position) => position != ""
              case AtRow(_, rowId) => 0 < rowId
    ensures PageSize(requested).Success? <==> 0 <= requested <= 1000
    ensures PageSize(0) == Success(100)
    ensures 1 <= requested <= 1000 ==> PageSize(requested) == Success(requested)
  {
  }

  // ----- requests that carry a peek token ---------------------------------------------------------

  datatype PeekCursor = PeekCursor(priority: int, rowId: int)

  function PeekPageRequest(codec: Codec, requested: int, token: string, scope: string, filter: string)
    : Result<(int, Option<PeekCursor>), TokenError>
  {
    match PageSize(requested)
    case Failure(e) => Failure(e)
    case Success(size) =>
      match DecodePeek(codec, token, scope, filter)
      case Failure(e) => Failure(e)
      case Success((priority, rowId)) =>
        Success((size, if rowId == 0 then None else Some(PeekCursor(priority, rowId))))
  }

  function PeekPageToken(codec: Codec, scope: string, filter: string, cursor: Option<PeekCursor>): Result<string, TokenError> {
    if cursor.None? then Success("")
    else EncodePeek(codec, scope, filter, cursor.value.priority, cursor.value.rowId)
  }

  /** A peek cursor, or none, comes back from its token: for positive row ids, and only for them. */
  lemma PeekTokenRoundTrip(codec: Codec, scope: string, filter: string, requested: int, cursor: Option<PeekCursor>)
    requires codec.Invertible() && 0 <= requested <= MAX_PAGE_SIZE
    ensures var token := PeekPageToken(codec, scope, filter, cursor);
            && (token.Success? <==> cursor.None? || 0 < cursor.value.rowId)
            && (token.Success? ==>
                  PeekPageRequest(codec, requested, token.value, scope, filter)
                  == Success((if requested == 0 then DEFAULT_PAGE_SIZE else requested, cursor)))
  {
    if cursor.Some? && 0 < cursor.value.rowId {
      var p := AtRow(cursor.value.priority, cursor.value.rowId);
      TokenFitsOnlyItsRequest(codec, scope, filter, p, scope, filter, p);
    }
  }
}
