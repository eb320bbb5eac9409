/** BinlogParserBuilder: the bootstrap that checks a binlog file's magic
    number and reads its first event (START_EVENT_V3 up to binlog version 3,
    FORMAT_DESCRIPTION_EVENT from version 4 on) into a BinlogFileMeta, and
    the builder that hands that meta to a parser. */
module ParserBuilders {
  import opened Wrappers
  import opened Java
  import opened ParserHelper
  import opened EventTypes
  import opened EventHeaders
  import opened MappedBuffer
  import opened FileMetas
  import opened BinlogParsers

  /** The fields both start events begin their body with. */
  const BinlogVersionLength: int := 2
  const ServerVersionLength: int := 50
  const CreateTimestampLength: int := 4
  /** The format description's own header-length byte. */
  const EventHeaderLengthLength: int := 1
  /** Log position and flags: the part of a 19-byte header after event-size. */
  const SkipBytes: int := 6
  /** A version 1 START_EVENT_V3 is 13 + (2 + 50 + 4) = 69 bytes. */
  const StartEventV1Size: int := 69

  /** Where the first event's fields lie: its type code at 8, its size at
      13, and its body after the log position and flags at 23 (or at 17 for
      a 13-byte header). */
  const TypeCodeAt: int := 8
  const EventSizeAt: int := 13
  const ShortBodyAt: int := 17
  const LongBodyAt: int := 23
  /** The format description's post-header table starts after the header,
      the three start fields and the header-length byte. */
  const PostHeaderTableAt: int := 80

  /** The settings the bootstrap writes into the meta. */
  datatype FileSettings = FileSettings(
    commonHeaderLength: int, binlogVersion: int, serverVersion: seq<byte>, createTimestamp: int,
    postHeaderLengths: Option<seq<byte>>, checksumLength: int, checksumAlg: int)

  /** The three fields a start body begins with, and where they end. */
  datatype StartFields = StartFields(binlogVersion: int, serverVersion: seq<byte>, createTimestamp: int, next: int)

  /** What the format description's trailing region gives: the post-header
      table, the checksum length and the checksum algorithm. */
  datatype ChecksumSettings = ChecksumSettings(postHeaderLengths: seq<byte>, checksumLength: int, checksumAlg: int)

  /** The first event's type code and size. */
  datatype FirstEvent = FirstEvent(eventType: EventType, eventSize: int)

  // ------------------------------------------------------------ what is read

  /** The binlog version (2 bytes), the server version (50 bytes, trimmed)
      and the create time (4 bytes of seconds, as milliseconds) at p. */
  function StartFieldsAt(data: seq<byte>, order: ByteOrder, p: int): (r: Result<StartFields>)
    requires 0 <= p <= |data|
    ensures r.Ok? <==> p + 56 <= |data|
    ensures r.Err? ==> r.error == BufferUnderflow
    ensures r.Ok? ==> r.value.next == p + 56
  {
    match UIntAt(data, p, BinlogVersionLength, order)
    case Err(e) => Err(e)
    case Ok(version) =>
      match Take(data, p + 2, ServerVersionLength)
      case Err(e) => Err(e)
      case Ok(serverVersion) =>
        match UIntAt(data, p + 52, CreateTimestampLength, order)
        case Err(e) => Err(e)
        case Ok(seconds) => Ok(StartFields(version, TrimBytes(serverVersion), seconds * 1000, p + 56))
  }

  /** The type and size of the event after the magic number: skip the
      timestamp, read the type byte, skip the server id, read the size. A
      skip past the end of the file is an illegal position. */
  function FirstEventOf(data: seq<byte>, order: ByteOrder): (r: Result<FirstEvent>)
    requires |data| >= MagicNumberLength
    ensures r.Ok? <==> |data| >= ShortBodyAt
    ensures r.Ok? ==> IsInt(r.value.eventSize)
  {
    if |data| < TypeCodeAt then Err(IllegalArgument)
    else
      match UIntAt(data, TypeCodeAt, EventTypeLength, order)
      case Err(e) => Err(e)
      case Ok(typeCode) =>
        if |data| < EventSizeAt then Err(IllegalArgument)
        else
          match UIntAt(data, EventSizeAt, EventSizeLength, order)
          case Err(e) => Err(e)
          case Ok(eventSize) => Ok(FirstEvent(FromCode(typeCode), eventSize))
  }

  /** getBinlogFileMeta: the magic number, then the first event, which must
      be a start event or a format description. */
  function BootstrapOf(data: seq<byte>, order: ByteOrder): (r: Result<FileSettings>) {
    match Take(data, 0, MagicNumberLength)
    case Err(e) => Err(e)
    case Ok(magic) =>
      if magic != MagicNumber then Err(NotBinlog)
      else
        match FirstEventOf(data, order)
        case Err(e) => Err(e)
        case Ok(first) => SettingsOf(data, order, first)
  }

  function SettingsOf(data: seq<byte>, order: ByteOrder, first: FirstEvent): (r: Result<FileSettings>)
    requires |data| >= ShortBodyAt
  {
    if first.eventType.StartEventV3? then StartV3SettingsOf(data, order, first.eventSize)
    else if first.eventType.FormatDescriptionEvent? then FormatDescriptionSettingsOf(data, order, first.eventSize)
    else Err(UnknownBinlogVersion)
  }

  /** A start event longer than a version 1 one has a 19-byte header, whose
      log position and flags are skipped; a version 1 event has a 13-byte
      header and its body follows the event size. */
  function StartV3SettingsOf(data: seq<byte>, order: ByteOrder, eventSize: int): (r: Result<FileSettings>)
    requires |data| >= ShortBodyAt
  {
    if eventSize > StartEventV1Size then
      if |data| < LongBodyAt then Err(IllegalArgument)
      else StartV3After(CommonHeaderLengthV3, StartFieldsAt(data, order, LongBodyAt))
    else StartV3After(CommonHeaderLengthV1, StartFieldsAt(data, order, ShortBodyAt))
  }

  /** A start event sets no post-header table and no checksum. */
  function StartV3After(commonHeaderLength: int, fields: Result<StartFields>): (r: Result<FileSettings>) {
    match fields
    case Err(e) => Err(e)
    case Ok(f) => Ok(FileSettings(commonHeaderLength, f.binlogVersion, f.serverVersion, f.createTimestamp, None, 0, 0))
  }

  /** A format description: the 19-byte header, the start fields, the
      header-length byte, then the region up to the event's end (int
      arithmetic), which holds the post-header table and the checksum. */
  function FormatDescriptionSettingsOf(data: seq<byte>, order: ByteOrder, eventSize: int): (r: Result<FileSettings>)
    requires |data| >= ShortBodyAt
  {
    if |data| < LongBodyAt then Err(IllegalArgument)
    else
      match StartFieldsAt(data, order, LongBodyAt)
      case Err(e) => Err(e)
      case Ok(f) => FormatDescriptionAfter(f, TailOf(data, eventSize))
  }

  /** Past the header-length byte, the region up to the event's end. */
  function TailOf(data: seq<byte>, eventSize: int): (r: Result<ChecksumSettings>) {
    if |data| < PostHeaderTableAt then Err(IllegalArgument)
    else
      var remainLength := RemainLength(eventSize);
      match Take(data, PostHeaderTableAt, remainLength)
      case Err(e) => Err(e)
      case Ok(remain) => ChecksumOf(eventSize, remainLength, remain)
  }

  /** The length of the region after the header-length byte: the event's
      next position, 4 + eventSize, less 80, both in int arithmetic. */
  function RemainLength(eventSize: int): int {
    Int32(Int32(MagicNumberLength + eventSize) - PostHeaderTableAt)
  }

  function FormatDescriptionAfter(f: StartFields, c: Result<ChecksumSettings>): (r: Result<FileSettings>) {
    match c
    case Err(e) => Err(e)
    case Ok(cs) =>
      Ok(FileSettings(CommonHeaderLengthV4, f.binlogVersion, f.serverVersion, f.createTimestamp,
                      Some(cs.postHeaderLengths), cs.checksumLength, cs.checksumAlg))
  }

  /** The trailing region: the format description's own post-header length
      is looked up in it (index 14); what the event has beyond the header
      and that post-header is the algorithm byte and the checksum. The table
      is the region less those bytes; when there is at least one, the
      algorithm is the byte after the table and the checksum is the rest. */
  function ChecksumOf(eventSize: int, remainLength: int, remain: seq<byte>): (r: Result<ChecksumSettings>)
    requires IsInt(remainLength)
  {
    match PostHeaderLengthIn(Some(remain), FormatDescriptionEvent)
    case Err(e) => Err(e)
    case Ok(postHeaderLength) =>
      var checksumWithAlgLength := Int32(eventSize - CommonHeaderLengthV4 - postHeaderLength);
      var tableLength := Int32(remainLength - checksumWithAlgLength);
      match CopyOfRange(remain, 0, tableLength)
      case Err(e) => Err(e)
      case Ok(table) =>
        if checksumWithAlgLength >= 1 then
          IntIncrement(tableLength);
          match CopyOfRange(remain, tableLength, Int32(tableLength + 1))
          case Err(e) => Err(e)
          case Ok(alg) => Ok(ChecksumSettings(table, checksumWithAlgLength - 1, alg[0]))
        else Ok(ChecksumSettings(table, 0, 0))
  }

  /** An int plus one is one more, except at Integer.MAX_VALUE, where it wraps. */
  lemma IntIncrement(x: int)
    requires IsInt(x)
    ensures x < 0x7FFF_FFFF ==> Int32(x + 1) == x + 1
    ensures x == 0x7FFF_FFFF ==> Int32(x + 1) == -0x8000_0000
  {
    if x < 0x7FFF_FFFF {
      Int32Identity(x + 1);
    }
  }

  // ------------------------------------------------------------ properties

  /** A file shorter than the magic number is a short read; a file whose
      first four bytes are not the magic number is not a binlog. */
  lemma BootstrapChecksMagic(data: seq<byte>, order: ByteOrder)
    ensures |data| < MagicNumberLength ==> BootstrapOf(data, order) == Err(BufferUnderflow)
    ensures |data| >= MagicNumberLength && data[..MagicNumberLength] != MagicNumber ==>
      BootstrapOf(data, order) == Err(NotBinlog)
  {
  }

  /** The first event is located by its type byte at offset 8 and its
      four-byte size at offset 13; any first event other than a start event
      or a format description is an unknown binlog version. */
  lemma BootstrapFirstEvent(data: seq<byte>, order: ByteOrder)
    requires |data| >= ShortBodyAt && data[..MagicNumberLength] == MagicNumber
    ensures FirstEventOf(data, order) ==
      Ok(FirstEvent(FromCode(data[TypeCodeAt]), GetUnsignedInteger(data[EventSizeAt..ShortBodyAt], order).value))
    ensures var t := FromCode(data[TypeCodeAt]);
      !t.StartEventV3? && !t.FormatDescriptionEvent? ==> BootstrapOf(data, order) == Err(UnknownBinlogVersion)
  {
    assert data[TypeCodeAt..TypeCodeAt + 1] == [data[TypeCodeAt]];
    UnsignedOneByte(data[TypeCodeAt], order);
  }

  /** A START_EVENT_V3 bigger than 69 bytes has a 19-byte header and its
      body at 23, else a 13-byte header and its body at 17; either way the
      meta gets no post-header table and no checksum, and the bootstrap
      fails exactly when the file ends before the start fields do. */
  lemma StartEventV3Header(data: seq<byte>, order: ByteOrder)
    requires |data| >= ShortBodyAt && data[..MagicNumberLength] == MagicNumber
    requires FromCode(data[TypeCodeAt]).StartEventV3?
    ensures var size := GetUnsignedInteger(data[EventSizeAt..ShortBodyAt], order).value;
      var at := if size > StartEventV1Size then LongBodyAt else ShortBodyAt;
      var r := BootstrapOf(data, order);
      && (r.Ok? <==> at + 56 <= |data|)
      && (r.Ok? ==> r.value.commonHeaderLength == (if size > StartEventV1Size then 19 else 13))
      && (r.Ok? ==> r.value.postHeaderLengths == None && r.value.checksumLength == 0 && r.value.checksumAlg == 0)
      && (r.Ok? ==> StartFieldsHold(data, order, at, r.value))
  {
    BootstrapFirstEvent(data, order);
    var size := GetUnsignedInteger(data[EventSizeAt..ShortBodyAt], order).value;
    var at := if size > StartEventV1Size then LongBodyAt else ShortBodyAt;
    assert BootstrapOf(data, order) == StartV3SettingsOf(data, order, size);
    if at + 56 <= |data| {
      StartFieldsContent(data, order, at);
    }
  }

  /** The settings hold the start fields read at p: the binlog version and
      the create time as unsigned ints, the server version trimmed. */
  predicate StartFieldsHold(data: seq<byte>, order: ByteOrder, p: int, s: FileSettings)
    requires 0 <= p && p + 56 <= |data|
  {
    && s.binlogVersion == UnsignedNumber(data[p..p + 2], order).value
    && s.serverVersion == TrimBytes(data[p + 2..p + 52])
    && s.createTimestamp == GetUnsignedInteger(data[p + 52..p + 56], order).value * 1000
  }

  lemma StartFieldsContent(data: seq<byte>, order: ByteOrder, p: int)
    requires 0 <= p && p + 56 <= |data|
    ensures var f := StartFieldsAt(data, order, p).value;
      && f.binlogVersion == UnsignedNumber(data[p..p + 2], order).value
      && f.serverVersion == TrimBytes(data[p + 2..p + 52])
      && f.createTimestamp == GetUnsignedInteger(data[p + 52..p + 56], order).value * 1000
  {
    NarrowUnsigned(data[p..p + 2], order);
  }

  /** The format description's trailing region, laid out as MySQL writes it
      from 5.6.1 on: the post-header table (whose FORMAT_DESCRIPTION_EVENT
      entry is its own post-header, 57 bytes plus the table), then the
      algorithm byte, then the checksum. The bootstrap recovers the table,
      the algorithm and the checksum's length. */
  lemma FormatDescriptionWithChecksum(table: seq<byte>, alg: byte, checksum: seq<byte>, eventSize: int)
    requires 15 <= |table| && table[14] as int == 57 + |table| && |checksum| <= 8
    requires eventSize == CommonHeaderLengthV4 + table[14] as int + 1 + |checksum|
    ensures RemainLength(eventSize) == |table| + 1 + |checksum|
    ensures ChecksumOf(eventSize, RemainLength(eventSize), table + [alg] + checksum) ==
      Ok(ChecksumSettings(table, |checksum|, alg))
  {
    Int32Identity(MagicNumberLength + eventSize);
    Int32Identity(MagicNumberLength + eventSize - PostHeaderTableAt);
    var remain := table + [alg] + checksum;
    assert remain[14] == table[14];
    Int32Identity(1 + |checksum|);
    Int32Identity(|table|);
    Int32Identity(|table| + 1);
    assert PostHeaderLengthIn(Some(remain), FormatDescriptionEvent) == Ok(table[14] as int);
    assert remain[0..|table|] == table;
    CopyOfRangeInside(remain, 0, |table|);
    assert remain[|table|..|table| + 1] == [alg];
    CopyOfRangeInside(remain, |table|, |table| + 1);
  }

  /** Before 5.6.1 the region is the table alone: no checksum. */
  lemma FormatDescriptionWithoutChecksum(table: seq<byte>, eventSize: int)
    requires 15 <= |table| && table[14] as int == 57 + |table|
    requires eventSize == CommonHeaderLengthV4 + table[14] as int
    ensures RemainLength(eventSize) == |table|
    ensures ChecksumOf(eventSize, RemainLength(eventSize), table) == Ok(ChecksumSettings(table, 0, 0))
  {
    Int32Identity(MagicNumberLength + eventSize);
    Int32Identity(MagicNumberLength + eventSize - PostHeaderTableAt);
    Int32Identity(0);
    Int32Identity(|table|);
    assert PostHeaderLengthIn(Some(table), FormatDescriptionEvent) == Ok(table[14] as int);
    assert table[0..|table|] == table;
    CopyOfRangeInside(table, 0, |table|);
  }

  /** A FORMAT_DESCRIPTION_EVENT first event always sets the 19-byte header
      and a post-header table; its start fields are read at 23. */
  lemma FormatDescriptionHeader(data: seq<byte>, order: ByteOrder)
    requires |data| >= ShortBodyAt && data[..MagicNumberLength] == MagicNumber
    requires FromCode(data[TypeCodeAt]).FormatDescriptionEvent?
    ensures var r := BootstrapOf(data, order);
      && (r.Ok? ==> r.value.commonHeaderLength == CommonHeaderLengthV4 && r.value.postHeaderLengths.Some?)
      && (r.Ok? ==> StartFieldsHold(data, order, LongBodyAt, r.value))
      && (r.Ok? <==> |data| >= PostHeaderTableAt
                     && TailOf(data, GetUnsignedInteger(data[EventSizeAt..ShortBodyAt], order).value).Ok?)
  {
    BootstrapFirstEvent(data, order);
    var size := GetUnsignedInteger(data[EventSizeAt..ShortBodyAt], order).value;
    assert BootstrapOf(data, order) == FormatDescriptionSettingsOf(data, order, size);
    if |data| >= LongBodyAt + 56 {
      StartFieldsContent(data, order, LongBodyAt);
    }
  }

  // ------------------------------------------------------------ the meta

  /** The meta holds the settings s. */
  predicate MetaHolds(meta: BinlogFileMeta, s: FileSettings)
    reads meta
  {
    && meta.commonHeaderLength == s.commonHeaderLength
    && meta.binlogVersion == s.binlogVersion
    && meta.serverVersion == Some(s.serverVersion)
    && meta.createTimestamp == Some(s.createTimestamp)
    && meta.postHeaderLengths == s.postHeaderLengths
    && meta.checksumLength == s.checksumLength
    && meta.checksumAlg == s.checksumAlg
  }

  /** The meta's other settings are still their defaults. */
  predicate Untouched(meta: BinlogFileMeta)
    reads meta
  {
    !meta.decodeString && meta.defaultCharsetName == "utf8" && meta.tableMapEventBodys == map[]
  }

  // ------------------------------------------------------------ the bootstrap

  /** getBinlogFileMeta(), on a freshly mapped file. Every failure is the
      exception the Java code throws at the same step: a short read, a skip
      past the end, a bad magic number, an unknown first event, or an index
      out of the post-header table. */
  method GetBinlogFileMeta(buffer: BinlogFileMappedByteBuffer) returns (r: Result<BinlogFileMeta>)
    requires buffer.Valid() && buffer.position == 0
    modifies buffer
    ensures r.Err? <==> BootstrapOf(buffer.data, buffer.order).Err?
    ensures r.Err? ==> r.error == BootstrapOf(buffer.data, buffer.order).error
    ensures r.Ok? ==> fresh(r.value) && r.value.fileName == buffer.fileName && r.value.order == buffer.order
    ensures r.Ok? ==> MetaHolds(r.value, BootstrapOf(buffer.data, buffer.order).value) && Untouched(r.value)
  {
    var magicNumber :- buffer.GetBytes(MagicNumberLength);
    if magicNumber != MagicNumber {
      return Err(NotBinlog);
    }
    var first :- ReadFirstEvent(buffer);
    var eventSize := first.eventSize;
    var eventNextPos := Int32(MagicNumberLength + eventSize);
    var meta := new BinlogFileMeta(buffer.fileName, buffer.order);
    if first.eventType.StartEventV3? {
      var done := ReadStartEventV3(buffer, meta, eventSize);
      if done.Err? {
        return Err(done.error);
      }
    } else if first.eventType.FormatDescriptionEvent? {
      var done := ReadFormatDescription(buffer, meta, eventSize, eventNextPos);
      if done.Err? {
        return Err(done.error);
      }
    } else {
      return Err(UnknownBinlogVersion);
    }
    r := Ok(meta);
  }

  /** The first event's type and size, with the cursor at 17. */
  method ReadFirstEvent(buffer: BinlogFileMappedByteBuffer) returns (r: Result<FirstEvent>)
    requires buffer.Valid() && buffer.position == MagicNumberLength
    modifies buffer
    ensures buffer.Valid()
    ensures r == FirstEventOf(buffer.data, buffer.order)
    ensures r.Ok? ==> buffer.position == ShortBodyAt
  {
    var skipped :- buffer.Skip(TimestampLength);
    var typeCode :- buffer.GetUnsignedInteger(EventTypeLength);
    var eventType := FromCode(typeCode);
    skipped :- buffer.Skip(ServerIdLength);
    var eventSize :- buffer.GetUnsignedInteger(EventSizeLength);
    r := Ok(FirstEvent(eventType, eventSize));
  }

  /** The start fields at the cursor, each set in the meta as it is read. */
  method ReadStartFields(buffer: BinlogFileMappedByteBuffer, meta: BinlogFileMeta) returns (r: Result<StartFields>)
    requires buffer.Valid()
    modifies buffer, meta
    ensures buffer.Valid()
    ensures r == StartFieldsAt(buffer.data, buffer.order, old(buffer.position))
    ensures r.Ok? ==> buffer.position == r.value.next
    ensures r.Ok? ==> meta.binlogVersion == r.value.binlogVersion && meta.serverVersion == Some(r.value.serverVersion)
                      && meta.createTimestamp == Some(r.value.createTimestamp)
    ensures meta.commonHeaderLength == old(meta.commonHeaderLength) && meta.postHeaderLengths == old(meta.postHeaderLengths)
    ensures meta.checksumLength == old(meta.checksumLength) && meta.checksumAlg == old(meta.checksumAlg)
    ensures meta.decodeString == old(meta.decodeString) && meta.defaultCharsetName == old(meta.defaultCharsetName)
    ensures meta.tableMapEventBodys == old(meta.tableMapEventBodys)
  {
    var binlogVersion :- buffer.GetUnsignedInteger(BinlogVersionLength);
    meta.SetBinlogVersion(binlogVersion);
    var serverVersion :- buffer.GetString(ServerVersionLength);
    meta.SetServerVersion(TrimBytes(serverVersion));
    var seconds :- buffer.GetUnsignedInteger(CreateTimestampLength);
    meta.SetCreateTimestamp(seconds * 1000);
    r := Ok(StartFields(binlogVersion, TrimBytes(serverVersion), seconds * 1000, buffer.position));
  }

  /** The START_EVENT_V3 branch. */
  method ReadStartEventV3(buffer: BinlogFileMappedByteBuffer, meta: BinlogFileMeta, eventSize: int)
    returns (r: Result<()>)
    requires buffer.Valid() && buffer.position == ShortBodyAt
    requires Untouched(meta) && meta.postHeaderLengths == None && meta.checksumLength == 0 && meta.checksumAlg == 0
    modifies buffer, meta
    ensures buffer.Valid()
    ensures r.Err? <==> StartV3SettingsOf(buffer.data, buffer.order, eventSize).Err?
    ensures r.Err? ==> r.error == StartV3SettingsOf(buffer.data, buffer.order, eventSize).error
    ensures r.Ok? ==> MetaHolds(meta, StartV3SettingsOf(buffer.data, buffer.order, eventSize).value)
    ensures Untouched(meta)
  {
    var commonHeaderLength := CommonHeaderLengthV1;
    if eventSize > StartEventV1Size {
      commonHeaderLength := CommonHeaderLengthV3;
      var skipped := buffer.Skip(SkipBytes);
      if skipped.Err? {
        return Err(skipped.error);
      }
    }
    meta.SetCommonHeaderLength(commonHeaderLength);
    var fields := ReadStartFields(buffer, meta);
    if fields.Err? {
      return Err(fields.error);
    }
    r := Ok(());
  }

  /** The FORMAT_DESCRIPTION_EVENT branch. */
  method ReadFormatDescription(buffer: BinlogFileMappedByteBuffer, meta: BinlogFileMeta, eventSize: int, eventNextPos: int)
    returns (r: Result<()>)
    requires buffer.Valid() && buffer.position == ShortBodyAt
    requires eventNextPos == Int32(MagicNumberLength + eventSize)
    requires Untouched(meta) && meta.checksumLength == 0 && meta.checksumAlg == 0
    modifies buffer, meta
    ensures buffer.Valid()
    ensures r.Err? <==> FormatDescriptionSettingsOf(buffer.data, buffer.order, eventSize).Err?
    ensures r.Err? ==> r.error == FormatDescriptionSettingsOf(buffer.data, buffer.order, eventSize).error
    ensures r.Ok? ==> MetaHolds(meta, FormatDescriptionSettingsOf(buffer.data, buffer.order, eventSize).value)
    ensures Untouched(meta)
  {
    var skipped := buffer.Skip(SkipBytes);
    if skipped.Err? {
      return Err(skipped.error);
    }
    var fields := ReadStartFields(buffer, meta);
    if fields.Err? {
      return Err(fields.error);
    }
    var tail := ReadTail(buffer, meta, eventSize, eventNextPos);
    if tail.Err? {
      return Err(tail.error);
    }
    r := Ok(());
  }

  /** The header-length byte (skipped) and the trailing region. */
  method ReadTail(buffer: BinlogFileMappedByteBuffer, meta: BinlogFileMeta, eventSize: int, eventNextPos: int)
    returns (r: Result<ChecksumSettings>)
    requires buffer.Valid() && buffer.position == PostHeaderTableAt - EventHeaderLengthLength
    requires eventNextPos == Int32(MagicNumberLength + eventSize)
    requires meta.checksumLength == 0 && meta.checksumAlg == 0
    modifies buffer, meta
    ensures buffer.Valid()
    ensures r == TailOf(buffer.data, eventSize)
    ensures meta.commonHeaderLength == CommonHeaderLengthV4
    ensures r.Ok? ==> meta.postHeaderLengths == Some(r.value.postHeaderLengths)
                      && meta.checksumLength == r.value.checksumLength && meta.checksumAlg == r.value.checksumAlg
    ensures meta.binlogVersion == old(meta.binlogVersion)
    ensures meta.serverVersion == old(meta.serverVersion) && meta.createTimestamp == old(meta.createTimestamp)
    ensures meta.decodeString == old(meta.decodeString) && meta.defaultCharsetName == old(meta.defaultCharsetName)
    ensures meta.tableMapEventBodys == old(meta.tableMapEventBodys)
  {
    var skipped := buffer.Skip(EventHeaderLengthLength);
    meta.SetCommonHeaderLength(CommonHeaderLengthV4);
    if skipped.Err? {
      return Err(skipped.error);
    }
    var remainLength := Int32(eventNextPos - buffer.position);
    var remainBytes := buffer.GetBytes(remainLength);
    if remainBytes.Err? {
      return Err(remainBytes.error);
    }
    r := ReadChecksum(meta, eventSize, remainLength, remainBytes.value);
  }

  /** The post-header table and the checksum settings, from the trailing
      region: the region is stored as the table first, so that the format
      description's own post-header length can be looked up in it. */
  method ReadChecksum(meta: BinlogFileMeta, eventSize: int, remainLength: int, remainBytes: seq<byte>)
    returns (r: Result<ChecksumSettings>)
    requires IsInt(remainLength) && meta.checksumLength == 0 && meta.checksumAlg == 0
    modifies meta
    ensures r == ChecksumOf(eventSize, remainLength, remainBytes)
    ensures r.Ok? ==> meta.postHeaderLengths == Some(r.value.postHeaderLengths)
                      && meta.checksumLength == r.value.checksumLength && meta.checksumAlg == r.value.checksumAlg
    ensures meta.commonHeaderLength == old(meta.commonHeaderLength) && meta.binlogVersion == old(meta.binlogVersion)
    ensures meta.serverVersion == old(meta.serverVersion) && meta.createTimestamp == old(meta.createTimestamp)
    ensures meta.decodeString == old(meta.decodeString) && meta.defaultCharsetName == old(meta.defaultCharsetName)
    ensures meta.tableMapEventBodys == old(meta.tableMapEventBodys)
  {
    meta.SetPostHeaderLengths(remainBytes);
    var postHeaderLength :- meta.GetPostHeaderLength(FormatDescriptionEvent);
    var checksumWithAlgLength := Int32(eventSize - CommonHeaderLengthV4 - postHeaderLength);
    var postHeaderLengthsLength := Int32(remainLength - checksumWithAlgLength);
    var eventPostHeaderLengths :- CopyOfRange(remainBytes, 0, postHeaderLengthsLength);
    var checksumLength, checksumAlg := 0, 0;
    if checksumWithAlgLength >= 1 {
      IntIncrement(postHeaderLengthsLength);
      var rawChecksumAlg :- CopyOfRange(remainBytes, postHeaderLengthsLength, Int32(postHeaderLengthsLength + 1));
      checksumAlg := rawChecksumAlg[0];
      checksumLength := checksumWithAlgLength - 1;
      meta.SetChecksumLength(checksumLength);
      meta.SetChecksumAlg(checksumAlg);
    }
    meta.SetPostHeaderLengths(eventPostHeaderLengths);
    r := Ok(ChecksumSettings(eventPostHeaderLengths, checksumLength, checksumAlg));
  }

  // ------------------------------------------------------------ the builder

  /** BinlogParserBuilder: the settings a parser is built with. The
      platform's native byte order, the default, is a parameter here. */
  class BinlogParserBuilder {
    const binlogFileName: string
    var order: ByteOrder
    var eventFilter: Option<set<EventType>>
    var decodeString: bool
    var decodeEventBody: bool
    var defaultCharsetName: Option<string>

    constructor(binlogFileName: string, nativeOrder: ByteOrder)
      ensures this.binlogFileName == binlogFileName && order == nativeOrder && eventFilter == None
      ensures decodeString && decodeEventBody && defaultCharsetName == None
    {
      this.binlogFileName := binlogFileName;
      order := nativeOrder;
      eventFilter := None;
      decodeString := true;
      decodeEventBody := true;
      defaultCharsetName := None;
    }

    /** newBuilder(name): a null file name is refused. */
    static method NewBuilder(binlogFileName: Option<string>, nativeOrder: ByteOrder) returns (r: Result<BinlogParserBuilder>)
      ensures r.Err? <==> binlogFileName.None?
      ensures r.Err? ==> r.error == NullFileName
      ensures r.Ok? ==> fresh(r.value) && r.value.binlogFileName == binlogFileName.value && r.value.order == nativeOrder
      ensures r.Ok? ==> r.value.eventFilter == None && r.value.decodeString && r.value.decodeEventBody
      ensures r.Ok? ==> r.value.defaultCharsetName == None
    {
      if binlogFileName.None? {
        return Err(NullFileName);
      }
      var builder := new BinlogParserBuilder(binlogFileName.value, nativeOrder);
      r := Ok(builder);
    }

    method WithByteOrder(order: ByteOrder)
      modifies this
      ensures this.order == order && eventFilter == old(eventFilter) && decodeString == old(decodeString)
      ensures decodeEventBody == old(decodeEventBody) && defaultCharsetName == old(defaultCharsetName)
    {
      this.order := order;
    }

    method WithEventFilter(eventFilter: Option<set<EventType>>)
      modifies this
      ensures this.eventFilter == eventFilter && order == old(order) && decodeString == old(decodeString)
      ensures decodeEventBody == old(decodeEventBody) && defaultCharsetName == old(defaultCharsetName)
    {
      this.eventFilter := eventFilter;
    }

    method DecodeString(decode: bool)
      modifies this
      ensures decodeString == decode && order == old(order) && eventFilter == old(eventFilter)
      ensures decodeEventBody == old(decodeEventBody) && defaultCharsetName == old(defaultCharsetName)
    {
      decodeString := decode;
    }

    method DecodeEventBody(decode: bool)
      modifies this
      ensures decodeEventBody == decode && order == old(order) && eventFilter == old(eventFilter)
      ensures decodeString == old(decodeString) && defaultCharsetName == old(defaultCharsetName)
    {
      decodeEventBody := decode;
    }

    method WithCharSet(defaultMysqlCharsetName: Option<string>)
      modifies this
      ensures defaultCharsetName == defaultMysqlCharsetName && order == old(order) && eventFilter == old(eventFilter)
      ensures decodeString == old(decodeString) && decodeEventBody == old(decodeEventBody)
    {
      defaultCharsetName := defaultMysqlCharsetName;
    }

    /** build(): the bootstrap over the file, whose bytes are data, then the
        string-decoding switch and the charset (when one was given) set in
        the meta, and a parser over the same file. */
    method Build(data: seq<byte>) returns (r: Result<BinlogParser4>)
      requires |data| <= MaxFileSize
      ensures r.Err? <==> BootstrapOf(data, order).Err?
      ensures r.Err? ==> r.error == BootstrapOf(data, order).error
      ensures r.Ok? ==> fresh(r.value) && fresh(r.value.meta) && r.value.Valid()
      ensures r.Ok? ==> r.value.buffer.data == data && r.value.buffer.position == MagicNumberLength
      ensures r.Ok? ==> r.value.eventFilter == eventFilter
      ensures r.Ok? ==> var meta := r.value.meta;
        && meta.fileName == binlogFileName && meta.order == order
        && MetaHolds(meta, BootstrapOf(data, order).value)
        && meta.decodeString == decodeString && meta.tableMapEventBodys == map[]
        && meta.defaultCharsetName == if defaultCharsetName.Some? then defaultCharsetName.value else "utf8"
    {
      var fileMappedBuffer := new BinlogFileMappedByteBuffer(binlogFileName, data, order);
      var fileMeta :- GetBinlogFileMeta(fileMappedBuffer);
      fileMeta.SetDecodeString(decodeString);
      fileMeta.SetDefaultCharsetName(defaultCharsetName);
      r := BinlogParser4.NewParser(fileMeta, data, eventFilter);
    }
  }
}
