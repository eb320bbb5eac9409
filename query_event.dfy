/** QUERY_EVENT: a statement, with its thread, timing, error code, status
    variables and default schema.
      post-header  4 thread id, 4 execution time, 1 schema length, 2 error code,
                   and from binlog version 4 on, 2 status-vars length
      payload      status vars, schema, one 0x00, the query up to the checksum */
module QueryEvents {
  import opened Wrappers
  import opened Java
  import opened ParserHelper
  import opened EventBodies

  /** The part QUERY_EVENT and EXECUTE_LOAD_QUERY_EVENT share: the status
      variables (null unless their length is positive), the trimmed schema
      and the query text. */
  datatype StatementTail = StatementTail(statusVars: Option<seq<byte>>, rawSchema: seq<byte>, query: seq<byte>)
  {
    /** getSchema(): the schema bytes, trimmed. */
    function Schema(): seq<byte> { TrimBytes(rawSchema) }
  }

  /** The status variables: svl bytes from start when svl is positive,
      otherwise none at all. */
  predicate StatusVarsAt(bodyData: seq<byte>, start: int, svl: int, statusVars: Option<seq<byte>>) {
    if svl > 0 then 0 <= start && start + svl <= |bodyData| && statusVars == Some(bodyData[start..start + svl])
    else statusVars == None
  }

  /** The schema: the schemaLength bytes from s. */
  predicate SchemaAt(bodyData: seq<byte>, s: int, schemaLength: int, schema: seq<byte>) {
    0 <= s && 0 <= schemaLength && s + schemaLength <= |bodyData|
    && schema == bodyData[s..s + schemaLength]
  }

  /** The query: the NUL-terminated run from q below until. */
  predicate QueryAt(bodyData: seq<byte>, q: int, until: int, query: seq<byte>) {
    0 <= q < |bodyData| && NulTerminatedSlice(bodyData, q, until) == Ok(Some(query))
  }

  /** Where bodyData holds tail t from offset start on: svl status-var bytes
      when svl is positive, schemaLength schema bytes, one skipped byte, then
      the NUL-terminated query below until. */
  predicate TailEncodes(bodyData: seq<byte>, start: int, svl: int, schemaLength: int, until: int,
                              t: StatementTail)
  {
    var s := start + (if svl > 0 then svl else 0);
    && 0 <= start
    && StatusVarsAt(bodyData, start, svl, t.statusVars)
    && SchemaAt(bodyData, s, schemaLength, t.rawSchema)
    && QueryAt(bodyData, s + schemaLength + 1, until, t.query)
  }

  /** The shared payload read, from start on. It fails exactly when bodyData
      holds no such tail. */
  method ReadStatementTail(bodyData: seq<byte>, start: int, svl: int, schemaLength: int, until: int)
    returns (r: Result<StatementTail>)
    requires 0 <= start && 0 <= schemaLength
    ensures r.Ok? ==> TailEncodes(bodyData, start, svl, schemaLength, until, r.value)
    ensures r.Err? ==> forall t :: !TailEncodes(bodyData, start, svl, schemaLength, until, t)
  {
    var pos := start;
    var statusVars: Option<seq<byte>> := None;
    if svl > 0 {
      var raw := CopyOfRange(bodyData, pos, pos + svl);
      if raw.Err? {
        return Err(raw.error);
      }
      statusVars := Some(raw.value);
      pos := pos + svl;
    }
    var s := pos;
    var rawSchema := CopyOfRange(bodyData, pos, pos + schemaLength);
    if rawSchema.Err? {
      return Err(rawSchema.error);
    }
    pos := pos + schemaLength;
    pos := pos + 1;  // the 0x00 after the schema
    var query := NulTerminatedText(bodyData, pos, until);
    if query.Err? {
      return Err(query.error);
    }
    QueryRead(bodyData, pos, until, query.value);
    SchemaRead(bodyData, s, schemaLength, rawSchema.value);
    StatusRead(bodyData, start, svl, statusVars);
    r := Ok(StatementTail(statusVars, rawSchema.value, query.value));
  }

  lemma StatusRead(bodyData: seq<byte>, start: int, svl: int, statusVars: Option<seq<byte>>)
    requires 0 <= start && start + (if svl > 0 then svl else 0) <= |bodyData|
    requires svl > 0 ==> statusVars.Some? && CopyOfRange(bodyData, start, start + svl) == Ok(statusVars.value)
    requires svl <= 0 ==> statusVars == None
    ensures StatusVarsAt(bodyData, start, svl, statusVars)
  {
    if svl > 0 {
      CopyOfRangeInside(bodyData, start, start + svl);
    }
  }

  lemma QueryRead(bodyData: seq<byte>, q: int, until: int, query: seq<byte>)
    requires 0 <= q && NulTerminatedText(bodyData, q, until) == Ok(query)
    ensures QueryAt(bodyData, q, until, query)
  {
  }

  lemma SchemaRead(bodyData: seq<byte>, s: int, schemaLength: int, rawSchema: seq<byte>)
    requires 0 <= s && 0 <= schemaLength && s + schemaLength <= |bodyData|
    requires CopyOfRange(bodyData, s, s + schemaLength) == Ok(rawSchema)
    ensures SchemaAt(bodyData, s, schemaLength, rawSchema)
  {
    CopyOfRangeInside(bodyData, s, s + schemaLength);
  }

  /** The query is a non-empty run of the body below until, ending at the
      first 0x00 or at until, so it never reaches into the checksum trailer. */
  lemma TailQueryBounds(bodyData: seq<byte>, start: int, svl: int, schemaLength: int, until: int, t: StatementTail)
    requires TailEncodes(bodyData, start, svl, schemaLength, until, t)
    ensures var q := start + (if svl > 0 then svl else 0) + schemaLength + 1;
      && 1 <= |t.query| && q + |t.query| <= until && q + |t.query| <= |bodyData|
      && t.query == bodyData[q..q + |t.query|]
      && (forall m :: 0 <= m < |t.query| - 1 ==> t.query[m] != 0)
      && (q + |t.query| == until || t.query[|t.query| - 1] == 0)
  {
    var q := start + (if svl > 0 then svl else 0) + schemaLength + 1;
    NulTerminatedSliceShape(bodyData, q, until);
  }

  /** A body holds at most one tail at a given place. */
  lemma TailDetermined(bodyData: seq<byte>, start: int, svl: int, schemaLength: int, until: int,
                       a: StatementTail, b: StatementTail)
    requires TailEncodes(bodyData, start, svl, schemaLength, until, a)
    requires TailEncodes(bodyData, start, svl, schemaLength, until, b)
    ensures a == b
  {
  }

  /** A decoded QUERY_EVENT body. */
  datatype QueryEventBody = QueryEventBody(
    threadId: int,
    executionTime: int,
    schemaLength: int,
    errorCode: int,
    statusVarsLength: int,
    tail: StatementTail)

  /** The status-vars length field exists from binlog version 4 on. */
  function StatusVarsStart(binlogVersion: int): (r: int)
    ensures r == 11 || r == 13
    ensures r == 13 <==> binlogVersion >= 4
  {
    if binlogVersion >= 4 then 13 else 11
  }

  /** The layout of a QUERY_EVENT body holding e. */
  predicate QueryEncodes(ctx: BodyContext, binlogVersion: int, e: QueryEventBody) {
    var bd := ctx.bodyData;
    var start := StatusVarsStart(binlogVersion);
    && start < |bd|
    && UnsignedNumber(bd[0..4], ctx.order) == Ok(e.threadId)
    && UnsignedNumber(bd[4..8], ctx.order) == Ok(e.executionTime)
    && e.schemaLength == bd[8]
    && UnsignedNumber(bd[9..11], ctx.order) == Ok(e.errorCode)
    && e.statusVarsLength == (if binlogVersion >= 4 then SignedNumber(bd[11..13], ctx.order).value else 0)
    && TailEncodes(bd, start, e.statusVarsLength, e.schemaLength, ctx.BodyDataLength(), e.tail)
  }

  /** The QueryEventBody constructor: the fields in order at a moving
      position. It fails exactly when the body holds no query event, and
      otherwise returns the query event it holds. */
  method DecodeQuery(ctx: BodyContext, binlogVersion: int) returns (r: Result<QueryEventBody>)
    ensures r.Ok? ==> QueryEncodes(ctx, binlogVersion, r.value)
    ensures r.Err? ==> forall e :: !QueryEncodes(ctx, binlogVersion, e)
  {
    var bd, order := ctx.bodyData, ctx.order;
    var pos := 0;
    var threadId := GetUnsignedLongAt(bd, pos, pos + 4, order).value;
    pos := pos + 4;
    var executionTime :- GetUnsignedLongAt(bd, pos, pos + 4, order);
    pos := pos + 4;
    var schemaLength :- GetUnsignedIntegerAt(bd, pos, pos + 1, order);
    pos := pos + 1;
    var errorCode :- GetUnsignedIntegerAt(bd, pos, pos + 2, order);
    pos := pos + 2;
    var statusVarsLength := 0;
    if binlogVersion >= 4 {
      statusVarsLength :- GetIntegerAt(bd, pos, pos + 2, order);
      pos := pos + 2;
    }
    var tail :- ReadStatementTail(bd, pos, statusVarsLength, schemaLength, ctx.BodyDataLength());
    r := Ok(QueryEventBody(threadId, executionTime, schemaLength, errorCode, statusVarsLength, tail));
  }

  /** A body holds at most one query event, so the decode above returns the
      only one there is. */
  lemma QueryEncodingUnique(ctx: BodyContext, binlogVersion: int, a: QueryEventBody, b: QueryEventBody)
    requires QueryEncodes(ctx, binlogVersion, a) && QueryEncodes(ctx, binlogVersion, b)
    ensures a == b
  {
  }
}
