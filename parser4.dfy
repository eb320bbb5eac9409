/** BinlogParser4: the event iterator over a binlog file whose meta the
    bootstrap has read. Each step reads a common header, decodes the body
    when the type filter lets it through, caches TABLE_MAP bodies in the
    meta, and moves the cursor to the header's next position. */
module BinlogParsers {
  import opened Wrappers
  import opened Java
  import opened ParserHelper
  import opened EventTypes
  import opened EventHeaders
  import opened MappedBuffer
  import opened FileMetas
  import opened EventBodies
  import opened EventBodyFactory
  import opened TableMaps

  /** An event: its header, and its body when the filter let it through. */
  datatype BinlogEvent = BinlogEvent(header: EventHeader, body: Option<EventBody>)

  /** The header fields read at a position, and where the header ends. */
  datatype HeaderFields = HeaderFields(
    timestamp: int, eventType: EventType, serverId: int, eventSize: int,
    nextPosition: int, flags: int, end: int)

  /** How many bytes the header read takes: the next position and the flags
      are read only for a 19-byte header. */
  function HeaderReadLength(commonHeaderLength: int): int {
    if commonHeaderLength == CommonHeaderLengthV4 then CommonHeaderLengthV4 else CommonHeaderLengthV1
  }

  /** getEventHeader at p: the timestamp (4 bytes of seconds, as
      milliseconds), the type byte, the server id and the event size; then,
      for a 19-byte header, the next position and the flags; for a 13-byte
      header the next position is the start plus the size in int arithmetic
      and there are no flags (-1); for any other length neither is known. */
  function HeaderAt(data: seq<byte>, order: ByteOrder, p: int, commonHeaderLength: int): (r: Result<HeaderFields>)
    requires 0 <= p <= |data|
    ensures r.Ok? <==> p + HeaderReadLength(commonHeaderLength) <= |data|
    ensures r.Err? ==> r.error == BufferUnderflow
    ensures r.Ok? ==> r.value.end == p + HeaderReadLength(commonHeaderLength)
  {
    match HeaderStartAt(data, order, p)
    case Err(e) => Err(e)
    case Ok(fields) => HeaderEndAt(data, order, p, commonHeaderLength, fields)
  }

  /** The four fields every header starts with; the rest unknown (-1). */
  function HeaderStartAt(data: seq<byte>, order: ByteOrder, p: int): (r: Result<HeaderFields>)
    requires 0 <= p <= |data|
    ensures r.Ok? <==> p + CommonHeaderLengthV1 <= |data|
    ensures r.Err? ==> r.error == BufferUnderflow
    ensures r.Ok? ==> r.value.end == p + CommonHeaderLengthV1 && IsInt(r.value.eventSize)
    ensures r.Ok? ==> r.value.nextPosition == -1 && r.value.flags == -1
  {
    match ULongAt(data, p, TimestampLength, order)
    case Err(e) => Err(e)
    case Ok(seconds) =>
      match UIntAt(data, p + 4, EventTypeLength, order)
      case Err(e) => Err(e)
      case Ok(typeCode) =>
        match ULongAt(data, p + 5, ServerIdLength, order)
        case Err(e) => Err(e)
        case Ok(serverId) =>
          match UIntAt(data, p + 9, EventSizeLength, order)
          case Err(e) => Err(e)
          case Ok(eventSize) =>
            Ok(HeaderFields(seconds * 1000, FromCode(typeCode), serverId, eventSize, -1, -1, p + 13))
  }

  /** The next position and the flags, after the first 13 bytes at p. */
  function HeaderEndAt(data: seq<byte>, order: ByteOrder, p: int, commonHeaderLength: int, fields: HeaderFields)
    : (r: Result<HeaderFields>)
    requires 0 <= p && fields.end == p + CommonHeaderLengthV1 <= |data|
    ensures r.Ok? <==> p + HeaderReadLength(commonHeaderLength) <= |data|
    ensures r.Err? ==> r.error == BufferUnderflow
    ensures r.Ok? ==> r.value.end == p + HeaderReadLength(commonHeaderLength)
  {
    if commonHeaderLength == CommonHeaderLengthV4 then
      match ULongAt(data, p + 13, NextPosLength, order)
      case Err(e) => Err(e)
      case Ok(nextPosition) =>
        match UIntAt(data, p + 17, FlagsLength, order)
        case Err(e) => Err(e)
        case Ok(flags) => Ok(fields.(nextPosition := nextPosition, flags := flags, end := p + 19))
    else if commonHeaderLength == CommonHeaderLengthV1 then
      Ok(fields.(nextPosition := Int32(p + fields.eventSize)))
    else Ok(fields)
  }

  /** v as n bytes in the given order, the way the server writes a field. */
  function Encoded(v: nat, n: nat, order: ByteOrder): (r: seq<byte>)
    requires v < Pow256(n)
    ensures |r| == n
  {
    Ordered(EncodeLittleEndian(v, n), order)
  }

  /** Reading a field back: an n-byte unsigned value of 1 to 3 bytes, or of
      4 bytes below 2^31, comes back through the int view and the long view
      alike; any 4-byte value comes back through the long view. */
  lemma FieldRoundTrip(data: seq<byte>, p: int, n: nat, v: nat, order: ByteOrder)
    requires 1 <= n <= 4 && v < Pow256(n) && 0 <= p && p + n <= |data|
    requires data[p..p + n] == Encoded(v, n, order)
    ensures ULongAt(data, p, n, order) == Ok(v)
    ensures n < 4 || v < 0x8000_0000 ==> UIntAt(data, p, n, order) == Ok(v)
  {
    UnsignedNumberRoundTrip(v, n, order);
    NarrowUnsignedLong(data[p..p + n], order);
    if n < 4 {
      NarrowUnsigned(data[p..p + n], order);
    } else {
      UnsignedIntegerView(data[p..p + n], order);
    }
  }

  /** The first 13 bytes of a header the server wrote at p read back as
      its timestamp in milliseconds, the type of its code, its server id and
      its size. */
  lemma HeaderStartRoundTrip(data: seq<byte>, order: ByteOrder, p: nat, seconds: nat, typeCode: nat, serverId: nat,
                             eventSize: nat)
    requires p + CommonHeaderLengthV1 <= |data|
    requires seconds < 0x1_0000_0000 && typeCode < 0x100 && serverId < 0x1_0000_0000 && eventSize < 0x8000_0000
    requires Pow256(1) == 0x100 && Pow256(4) == 0x1_0000_0000
    requires data[p..p + 4] == Encoded(seconds, 4, order) && data[p + 4..p + 5] == Encoded(typeCode, 1, order)
    requires data[p + 5..p + 9] == Encoded(serverId, 4, order) && data[p + 9..p + 13] == Encoded(eventSize, 4, order)
    ensures HeaderStartAt(data, order, p) ==
      Ok(HeaderFields(seconds * 1000, FromCode(typeCode), serverId, eventSize, -1, -1, p + 13))
  {
    FieldRoundTrip(data, p, 4, seconds, order);
    FieldRoundTrip(data, p + 4, 1, typeCode, order);
    FieldRoundTrip(data, p + 5, 4, serverId, order);
    FieldRoundTrip(data, p + 9, 4, eventSize, order);
  }

  /** A 19-byte header the server wrote at p reads back as its fields. */
  lemma HeaderV4RoundTrip(data: seq<byte>, order: ByteOrder, p: nat, seconds: nat, typeCode: nat, serverId: nat,
                          eventSize: nat, nextPosition: nat, flags: nat)
    requires p + CommonHeaderLengthV4 <= |data|
    requires seconds < 0x1_0000_0000 && typeCode < 0x100 && serverId < 0x1_0000_0000
    requires eventSize < 0x8000_0000 && nextPosition < 0x1_0000_0000 && flags < 0x1_0000
    requires Pow256(1) == 0x100 && Pow256(2) == 0x1_0000 && Pow256(4) == 0x1_0000_0000
    requires data[p..p + 4] == Encoded(seconds, 4, order) && data[p + 4..p + 5] == Encoded(typeCode, 1, order)
    requires data[p + 5..p + 9] == Encoded(serverId, 4, order) && data[p + 9..p + 13] == Encoded(eventSize, 4, order)
    requires data[p + 13..p + 17] == Encoded(nextPosition, 4, order) && data[p + 17..p + 19] == Encoded(flags, 2, order)
    ensures HeaderAt(data, order, p, CommonHeaderLengthV4) ==
      Ok(HeaderFields(seconds * 1000, FromCode(typeCode), serverId, eventSize, nextPosition, flags, p + 19))
  {
    HeaderStartRoundTrip(data, order, p, seconds, typeCode, serverId, eventSize);
    FieldRoundTrip(data, p + 13, 4, nextPosition, order);
    FieldRoundTrip(data, p + 17, 2, flags, order);
  }

  /** A 13-byte header has no next position field: it is the start plus the
      event size, and the flags are -1. */
  lemma HeaderV1RoundTrip(data: seq<byte>, order: ByteOrder, p: nat, seconds: nat, typeCode: nat, serverId: nat,
                          eventSize: nat)
    requires p + CommonHeaderLengthV1 <= |data|
    requires seconds < 0x1_0000_0000 && typeCode < 0x100 && serverId < 0x1_0000_0000 && p + eventSize < 0x8000_0000
    requires Pow256(1) == 0x100 && Pow256(4) == 0x1_0000_0000
    requires data[p..p + 4] == Encoded(seconds, 4, order) && data[p + 4..p + 5] == Encoded(typeCode, 1, order)
    requires data[p + 5..p + 9] == Encoded(serverId, 4, order) && data[p + 9..p + 13] == Encoded(eventSize, 4, order)
    ensures HeaderAt(data, order, p, CommonHeaderLengthV1) ==
      Ok(HeaderFields(seconds * 1000, FromCode(typeCode), serverId, eventSize, p + eventSize, -1, p + 13))
  {
    var fields := HeaderFields(seconds * 1000, FromCode(typeCode), serverId, eventSize, -1, -1, p + 13);
    HeaderStartRoundTrip(data, order, p, seconds, typeCode, serverId, eventSize);
    assert HeaderAt(data, order, p, CommonHeaderLengthV1) == HeaderEndAt(data, order, p, CommonHeaderLengthV1, fields);
    Int32Identity(p + eventSize);
  }

  /** The header object holds the fields read. */
  predicate HeaderHolds(h: EventHeader, commonHeaderLength: int, f: HeaderFields)
    reads h
  {
    && h.commonHeaderLength == commonHeaderLength
    && h.timestamp == Some(f.timestamp) && h.eventType == Some(f.eventType)
    && h.serverId == f.serverId && h.eventSize == f.eventSize
    && h.nextPosition == f.nextPosition && h.flags == f.flags
  }

  /** The type filter: no filter lets every type through. */
  predicate Passes(eventFilter: Option<set<EventType>>, t: EventType) {
    eventFilter.None? || t in eventFilter.value
  }

  class BinlogParser4 {
    const meta: BinlogFileMeta
    const buffer: BinlogFileMappedByteBuffer
    var eventFilter: Option<set<EventType>>

    ghost predicate Valid()
      reads this, buffer
    {
      buffer.Valid() && buffer.fileName == meta.fileName && buffer.order == meta.order
    }

    /** A new mapping of the meta's file, whose bytes are data. */
    constructor(meta: BinlogFileMeta, data: seq<byte>)
      requires |data| <= MaxFileSize
      ensures Valid() && fresh(buffer)
      ensures this.meta == meta && buffer.data == data && buffer.position == 0 && eventFilter == None
    {
      this.meta := meta;
      buffer := new BinlogFileMappedByteBuffer(meta.fileName, data, meta.order);
      eventFilter := None;
    }

    /** newParser(meta, eventFilter): the cursor starts just after the magic
        number; a file shorter than that is an illegal position. */
    static method NewParser(meta: BinlogFileMeta, data: seq<byte>, eventFilter: Option<set<EventType>>)
      returns (r: Result<BinlogParser4>)
      requires |data| <= MaxFileSize
      ensures r.Ok? <==> |data| >= MagicNumberLength
      ensures r.Err? ==> r.error == IllegalArgument
      ensures r.Ok? ==> fresh(r.value) && fresh(r.value.buffer) && r.value.Valid()
      ensures r.Ok? ==> r.value.meta == meta && r.value.eventFilter == eventFilter
      ensures r.Ok? ==> r.value.buffer.data == data && r.value.buffer.position == MagicNumberLength
    {
      var parser := new BinlogParser4(meta, data);
      var skipped := parser.buffer.Skip(MagicNumberLength);
      if skipped.Err? {
        return Err(skipped.error);
      }
      if eventFilter.Some? {
        parser.eventFilter := eventFilter;
      }
      r := Ok(parser);
    }

    /** hasEvent(): whether a whole common header remains. */
    function HasEvent(): (r: bool)
      reads this, buffer, meta
      requires Valid()
      ensures r <==> buffer.position + meta.commonHeaderLength <= |buffer.data|
      ensures meta.commonHeaderLength == CommonHeaderLengthV1 || meta.commonHeaderLength == CommonHeaderLengthV4 ==>
        (r <==> HeaderAt(buffer.data, buffer.order, buffer.position, meta.commonHeaderLength).Ok?)
    {
      buffer.Remaining() >= meta.commonHeaderLength
    }

    /** getEventHeader(): the header at the cursor, with the cursor past it. */
    method GetEventHeader() returns (r: Result<EventHeader>)
      requires Valid()
      modifies buffer
      ensures Valid()
      ensures var h := HeaderAt(buffer.data, buffer.order, old(buffer.position), meta.commonHeaderLength);
        && (r.Err? <==> h.Err?)
        && (r.Err? ==> r.error == h.error)
        && (r.Ok? ==> fresh(r.value) && HeaderHolds(r.value, meta.commonHeaderLength, h.value))
        && (r.Ok? ==> buffer.position == h.value.end)
    {
      var startPos := buffer.position;
      var fields :- ReadHeaderStart();
      fields :- ReadHeaderEnd(startPos, fields);
      var header := new EventHeader(meta.commonHeaderLength);
      header.SetTimestamp(fields.timestamp);
      header.SetEventType(fields.eventType);
      header.SetServerId(fields.serverId);
      header.SetEventSize(fields.eventSize);
      header.SetNextPosition(fields.nextPosition);
      header.SetEventFlags(fields.flags);
      r := Ok(header);
    }

    /** The timestamp, the type, the server id and the event size. */
    method ReadHeaderStart() returns (r: Result<HeaderFields>)
      requires Valid()
      modifies buffer
      ensures Valid()
      ensures r == HeaderStartAt(buffer.data, buffer.order, old(buffer.position))
      ensures r.Ok? ==> buffer.position == r.value.end
    {
      var startPos := buffer.position;
      var eventTimestamp :- buffer.GetUnsignedLong(TimestampLength);
      var typeCode :- buffer.GetUnsignedInteger(EventTypeLength);
      var eventType := FromCode(typeCode);
      var serverId :- buffer.GetUnsignedLong(ServerIdLength);
      var eventSize :- buffer.GetUnsignedInteger(EventSizeLength);
      r := Ok(HeaderFields(eventTimestamp * 1000, eventType, serverId, eventSize, -1, -1, startPos + 13));
    }

    /** The next position and the flags, as the meta's header length says. */
    method ReadHeaderEnd(startPos: int, fields: HeaderFields) returns (r: Result<HeaderFields>)
      requires Valid() && 0 <= startPos && fields.end == startPos + CommonHeaderLengthV1 == buffer.position
      modifies buffer
      ensures Valid()
      ensures r == HeaderEndAt(buffer.data, buffer.order, startPos, meta.commonHeaderLength, fields)
      ensures r.Ok? ==> buffer.position == r.value.end
    {
      var commonHeaderLength := meta.commonHeaderLength;
      if commonHeaderLength == CommonHeaderLengthV4 {
        var eventNextPos :- buffer.GetUnsignedLong(NextPosLength);
        var flags :- buffer.GetUnsignedInteger(FlagsLength);
        r := Ok(fields.(nextPosition := eventNextPos, flags := flags, end := startPos + 19));
      } else if commonHeaderLength == CommonHeaderLengthV1 {
        r := Ok(fields.(nextPosition := Int32(startPos + fields.eventSize)));
      } else {
        r := Ok(fields);
      }
    }

    /** getEventBody(header): the header's body length of bytes, decoded by
        the factory; a TABLE_MAP body goes into the meta's table cache under
        its table id. */
    method GetEventBody(header: EventHeader) returns (r: Result<EventBody>)
      requires Valid() && header.eventType.Some?
      modifies buffer, meta
      ensures Valid()
      ensures var raw := Take(buffer.data, old(buffer.position), header.EventBodyLength());
        && (raw.Err? ==> r == Err(raw.error))
        && (r.Ok? ==> raw == Ok(r.value.context.bodyData))
        && (r.Ok? ==> buffer.position == old(buffer.position) + header.EventBodyLength())
      ensures r.Ok? ==> FactoryBody(r.value, header.eventType.value, ContextOf(r.value.context.bodyData, header, meta), meta.binlogVersion)
      ensures meta.tableMapEventBodys ==
        if r.Ok? && header.eventType.value.TableMapEvent? then
          MapPut(old(meta.tableMapEventBodys), r.value.content.tableMap.tableDefine.tableId, r.value.content.tableMap)
        else old(meta.tableMapEventBodys)
      ensures SettingsUnchanged(meta)
    {
      var rawEventBody :- buffer.GetBytes(header.EventBodyLength());
      var eventBody :- DecodeBody(rawEventBody, header);
      if header.eventType.value.TableMapEvent? {
        meta.PutTableMapEventBody(eventBody.content.tableMap);
      }
      r := Ok(eventBody);
    }

    /** createEventBody(raw, header, meta), always decoding. */
    method DecodeBody(raw: seq<byte>, header: EventHeader) returns (r: Result<EventBody>)
      requires header.eventType.Some?
      ensures r.Ok? ==> FactoryBody(r.value, header.eventType.value, ContextOf(raw, header, meta), meta.binlogVersion)
    {
      r := CreateEventBody(raw, header, meta, true);
      KindOfTableMap(header.eventType.value);
      if r.Ok? {
        TableMapKindOnly(r.value.content);
      }
    }

    /** nextEvent(): the header, then the body when the filter lets its type
        through; whether or not the body decodes, the cursor is then set to
        the header's next position cut to an int, and a position outside
        the file is the error that surfaces. A failed header read moves
        nothing but the cursor. `read` is the event as read before the
        cursor is set: it says what went into the table cache on every
        path, including the one where setting the cursor throws after a
        table map was cached. */
    method NextEvent() returns (r: Result<BinlogEvent>, ghost read: Option<BinlogEvent>)
      requires Valid()
      modifies buffer, meta
      ensures Valid()
      ensures var h := HeaderAt(buffer.data, buffer.order, old(buffer.position), meta.commonHeaderLength);
        h.Err? ==> r == Err(h.error) && read.None?
      ensures var h := HeaderAt(buffer.data, buffer.order, old(buffer.position), meta.commonHeaderLength);
        h.Ok? && 0 <= Int32(h.value.nextPosition) <= |buffer.data| ==> buffer.position == Int32(h.value.nextPosition)
      ensures var h := HeaderAt(buffer.data, buffer.order, old(buffer.position), meta.commonHeaderLength);
        h.Ok? && !(0 <= Int32(h.value.nextPosition) <= |buffer.data|) ==> r == Err(IllegalArgument)
      ensures r.Ok? ==> read == Some(r.value)
      ensures var h := HeaderAt(buffer.data, buffer.order, old(buffer.position), meta.commonHeaderLength);
        read.Some? ==> h.Ok? && fresh(read.value.header) && HeaderHolds(read.value.header, meta.commonHeaderLength, h.value)
      ensures read.Some? && read.value.body.Some? ==> Passes(eventFilter, read.value.header.eventType.value)
      ensures read.Some? && read.value.body.None? && Passes(eventFilter, read.value.header.eventType.value) ==> r.Err?
      ensures r.Ok? ==> (r.value.body.Some? <==> Passes(eventFilter, r.value.header.eventType.value))
      ensures read.Some? && read.value.body.Some? ==>
        var body, header := read.value.body.value, read.value.header;
        var start := old(buffer.position) + HeaderReadLength(meta.commonHeaderLength);
        && start <= |buffer.data|
        && Take(buffer.data, start, header.EventBodyLength()) == Ok(body.context.bodyData)
        && FactoryBody(body, header.eventType.value, ContextOf(body.context.bodyData, header, meta), meta.binlogVersion)
      ensures meta.tableMapEventBodys ==
        if read.Some? && read.value.body.Some? && read.value.header.eventType.value.TableMapEvent? then
          var b := read.value.body.value.content.tableMap;
          MapPut(old(meta.tableMapEventBodys), b.tableDefine.tableId, b)
        else old(meta.tableMapEventBodys)
      ensures SettingsUnchanged(meta)
    {
      read := None;
      var eventHeader :- GetEventHeader();
      var nextPos := Int32(eventHeader.nextPosition);
      var eventBody, failure := FilteredBody(eventHeader);
      read := Some(BinlogEvent(eventHeader, eventBody));
      var moved := buffer.SetPosition(nextPos);
      if moved.Err? {
        return Err(moved.error), read;
      }
      if failure.Some? {
        return Err(failure.value), read;
      }
      r := Ok(BinlogEvent(eventHeader, eventBody));
    }

    /** The body when the filter lets the header's type through: decoded, or
        the failure that decoding it threw. */
    method FilteredBody(header: EventHeader) returns (body: Option<EventBody>, failure: Option<Error>)
      requires Valid() && header.eventType.Some?
      modifies buffer, meta
      ensures Valid()
      ensures failure.Some? ==> body.None?
      ensures failure.None? ==> (body.Some? <==> Passes(eventFilter, header.eventType.value))
      ensures !Passes(eventFilter, header.eventType.value) ==> failure.None?
      ensures body.Some? ==>
        && Take(buffer.data, old(buffer.position), header.EventBodyLength()) == Ok(body.value.context.bodyData)
        && FactoryBody(body.value, header.eventType.value, ContextOf(body.value.context.bodyData, header, meta), meta.binlogVersion)
      ensures meta.tableMapEventBodys ==
        if body.Some? && header.eventType.value.TableMapEvent? then
          MapPut(old(meta.tableMapEventBodys), body.value.content.tableMap.tableDefine.tableId, body.value.content.tableMap)
        else old(meta.tableMapEventBodys)
      ensures !(Passes(eventFilter, header.eventType.value) && header.eventType.value.TableMapEvent?) ==>
        meta.tableMapEventBodys == old(meta.tableMapEventBodys)
      ensures SettingsUnchanged(meta)
    {
      body, failure := None, None;
      if eventFilter.None? || header.eventType.value in eventFilter.value {
        var decoded := GetEventBody(header);
        if decoded.Err? {
          failure := Some(decoded.error);
        } else {
          body := Some(decoded.value);
        }
      }
    }
  }

  lemma KindOfTableMap(t: EventType)
    ensures t.TableMapEvent? <==> KindOf(t) == TableMapKind
  {
  }

  /** Only a TABLE_MAP content is of the TABLE_MAP kind. */
  lemma TableMapKindOnly(c: Content)
    ensures c.Kind() == TableMapKind ==> c.TableMap?
  {
  }

  /** What the factory promises of a decoded body of type t: the context it
      was built in, and content of t's kind decoded from that context. */
  predicate FactoryBody(body: EventBody, t: EventType, ctx: BodyContext, binlogVersion: int)
  {
    && body.context == ctx
    && body.content.Kind() == KindOf(t)
    && (t.TableMapEvent? ==> body.content.TableMap?)
    && DecodedFrom(ctx, binlogVersion, body.content)
  }

  /** The meta's settings are as before: only its table cache may change. */
  twostate predicate SettingsUnchanged(meta: BinlogFileMeta)
    reads meta
  {
    && meta.createTimestamp == old(meta.createTimestamp) && meta.binlogVersion == old(meta.binlogVersion)
    && meta.serverVersion == old(meta.serverVersion) && meta.commonHeaderLength == old(meta.commonHeaderLength)
    && meta.postHeaderLengths == old(meta.postHeaderLengths) && meta.checksumLength == old(meta.checksumLength)
    && meta.checksumAlg == old(meta.checksumAlg) && meta.decodeString == old(meta.decodeString)
    && meta.defaultCharsetName == old(meta.defaultCharsetName)
  }
}
