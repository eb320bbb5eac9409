/** EXECUTE_LOAD_QUERY_EVENT: a LOAD DATA statement whose file name is to be
    replaced by a temporary file's. Its body is a QUERY_EVENT body (with the
    status-vars length always present) with four more fields before the
    status variables:
      post-header  4 thread id, 4 execution time, 1 schema length, 2 error code,
                   2 status-vars length
      payload      4 file id, 4 start position, 4 end position,
                   1 duplicate-handling flag, then the QUERY_EVENT payload */
module ExecuteLoadQueryEvents {
  import opened Wrappers
  import opened Java
  import opened ParserHelper
  import opened EventBodies
  import opened QueryEvents

  /** The fixed fields, in body order. */
  datatype LoadQueryHeader = LoadQueryHeader(
    threadId: int,
    executionTime: int,
    schemaLength: int,
    errorCode: int,
    statusVarsLength: int,
    fileId: int,
    startPos: int,
    stopPos: int,
    dupFlags: int)
  {
    /** getDuplicateHandleFlagName(). */
    function DuplicateHandleFlagName(): string { DuplicateHandleFlagString(dupFlags) }
  }

  datatype ExecuteLoadQueryEventBody = ExecuteLoadQueryEventBody(header: LoadQueryHeader, tail: StatementTail)

  /** Where the QUERY_EVENT payload starts. */
  const TailStart: int := 26

  /** The first 26 bytes of bodyData hold the fixed fields h. */
  predicate HeaderEncodes(bodyData: seq<byte>, order: ByteOrder, h: LoadQueryHeader) {
    var bd := bodyData;
    && TailStart <= |bd|
    && UnsignedNumber(bd[0..4], order) == Ok(h.threadId)
    && UnsignedNumber(bd[4..8], order) == Ok(h.executionTime)
    && h.schemaLength == bd[8]
    && UnsignedNumber(bd[9..11], order) == Ok(h.errorCode)
    && SignedNumber(bd[11..13], order) == Ok(h.statusVarsLength)
    && UnsignedNumber(bd[13..17], order) == Ok(h.fileId)
    && UnsignedNumber(bd[17..21], order) == Ok(h.startPos)
    && UnsignedNumber(bd[21..25], order) == Ok(h.stopPos)
    && h.dupFlags == bd[25]
  }

  /** The layout of an EXECUTE_LOAD_QUERY_EVENT body holding e. */
  predicate ExecuteLoadQueryEncodes(ctx: BodyContext, e: ExecuteLoadQueryEventBody) {
    && TailStart < |ctx.bodyData|
    && HeaderEncodes(ctx.bodyData, ctx.order, e.header)
    && TailEncodes(ctx.bodyData, TailStart, e.header.statusVarsLength, e.header.schemaLength,
                   ctx.BodyDataLength(), e.tail)
  }

  /** The ExecuteLoadQueryEvent constructor: the fixed fields, then the
      QUERY_EVENT payload from offset 26. It fails exactly when the body holds
      no such event, and otherwise returns the one it holds. */
  method DecodeExecuteLoadQuery(ctx: BodyContext) returns (r: Result<ExecuteLoadQueryEventBody>)
    ensures r.Ok? ==> ExecuteLoadQueryEncodes(ctx, r.value)
    ensures r.Err? ==> forall e :: !ExecuteLoadQueryEncodes(ctx, e)
  {
    var header :- ReadLoadQueryHeader(ctx.bodyData, ctx.order);
    HeaderDetermined(ctx.bodyData, ctx.order, header);
    var tail :- ReadStatementTail(ctx.bodyData, TailStart, header.statusVarsLength, header.schemaLength,
                                  ctx.BodyDataLength());
    r := Ok(ExecuteLoadQueryEventBody(header, tail));
  }

  /** The fixed fields at a moving position. The reads succeed exactly when
      the last one starts inside the body (past the end the copy is padded
      with zeros), and from 26 bytes on they are the fields the body holds. */
  method ReadLoadQueryHeader(bodyData: seq<byte>, order: ByteOrder) returns (r: Result<LoadQueryHeader>)
    ensures r.Ok? <==> 25 <= |bodyData|
    ensures r.Ok? ==> r.value.schemaLength == bodyData[8]
    ensures r.Ok? && TailStart <= |bodyData| ==> HeaderEncodes(bodyData, order, r.value)
  {
    var bd := bodyData;
    var pos := 0;
    var threadId := GetUnsignedLongAt(bd, pos, pos + 4, order).value;
    pos := pos + 4;
    var executionTime :- GetUnsignedLongAt(bd, pos, pos + 4, order);
    pos := pos + 4;
    var schemaLength :- GetUnsignedIntegerAt(bd, pos, pos + 1, order);
    pos := pos + 1;
    var errorCode :- GetUnsignedIntegerAt(bd, pos, pos + 2, order);
    pos := pos + 2;
    var statusVarsLength :- GetIntegerAt(bd, pos, pos + 2, order);
    pos := pos + 2;
    var fileId :- GetUnsignedLongAt(bd, pos, pos + 4, order);
    pos := pos + 4;
    var startPos :- GetUnsignedLongAt(bd, pos, pos + 4, order);
    pos := pos + 4;
    var stopPos :- GetUnsignedLongAt(bd, pos, pos + 4, order);
    pos := pos + 4;
    var dupFlags :- GetUnsignedIntegerAt(bd, pos, pos + 1, order);
    r := Ok(LoadQueryHeader(threadId, executionTime, schemaLength, errorCode, statusVarsLength,
                            fileId, startPos, stopPos, dupFlags));
  }

  /** The fixed fields are determined by the body's bytes. */
  lemma HeaderDetermined(bodyData: seq<byte>, order: ByteOrder, h: LoadQueryHeader)
    requires TailStart <= |bodyData| ==> HeaderEncodes(bodyData, order, h)
    ensures forall g :: HeaderEncodes(bodyData, order, g) ==> g == h
  {
  }

  /** A body holds at most one such event. */
  lemma ExecuteLoadQueryEncodingUnique(ctx: BodyContext, a: ExecuteLoadQueryEventBody, b: ExecuteLoadQueryEventBody)
    requires ExecuteLoadQueryEncodes(ctx, a) && ExecuteLoadQueryEncodes(ctx, b)
    ensures a == b
  {
    HeaderDetermined(ctx.bodyData, ctx.order, a.header);
    TailDetermined(ctx.bodyData, TailStart, a.header.statusVarsLength, a.header.schemaLength,
                   ctx.BodyDataLength(), a.tail, b.tail);
  }

  /** getDuplicateHandleFlagString(flag): the LOAD DATA duplicate handling a
      flag names, or "" for a flag with no name. */
  function DuplicateHandleFlagString(flag: int): (r: string)
    ensures r == "" <==> !(0 <= flag <= 2)
    ensures r != "" ==> |r| > 9 && r[..9] == "LOAD_DUP_"
  {
    match flag
    case 0 => "LOAD_DUP_ERROR"
    case 1 => "LOAD_DUP_IGNORE"
    case 2 => "LOAD_DUP_REPLACE"
    case _ => ""
  }

  /** The three named flags have three different names. */
  lemma DuplicateHandleFlagNamesDistinct(a: int, b: int)
    requires 0 <= a <= 2 && 0 <= b <= 2 && a != b
    ensures DuplicateHandleFlagString(a) != DuplicateHandleFlagString(b)
  {
    var ra, rb := DuplicateHandleFlagString(a), DuplicateHandleFlagString(b);
    assert ra[9] != rb[9] || |ra| != |rb|;
  }
}
