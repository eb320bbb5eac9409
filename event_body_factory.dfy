/** createEventBody: the switch from an event's type to the decoder of its
    body. */
module EventBodyFactory {
  import opened Wrappers
  import opened Java
  import opened EventTypes
  import opened EventHeaders
  import opened EventBodies
  import opened FileMetas
  import opened QueryEvents
  import opened XidEvents
  import opened TableMaps
  import opened RowsEvents
  import opened GtidEvents
  import opened RotateEvents
  import opened PreviousGtidsEvents
  import opened BeginLoadQueryEvents
  import opened UserVarEvents
  import opened ExecuteLoadQueryEvents

  /** Which decoder a body went through. */
  datatype BodyKind =
    | DefaultKind | FormatDescriptionKind | StartV3Kind | QueryKind | XidKind | TableMapKind
    | RowsKind | GtidKind | RotateKind | PreviousGtidsKind | StopKind | BeginLoadQueryKind
    | UserVarKind | ExecuteLoadQueryKind

  /** The switch of createEventBody: the decoder each type is given. */
  function KindOf(t: EventType): BodyKind {
    match t
    case FormatDescriptionEvent => FormatDescriptionKind
    case StartEventV3 => StartV3Kind
    case QueryEvent => QueryKind
    case XidEvent => XidKind
    case TableMapEvent => TableMapKind
    case WriteRowsEventV1 | UpdateRowsEventV1 | DeleteRowsEventV1
       | WriteRowsEvent | UpdateRowsEvent | DeleteRowsEvent => RowsKind
    case AnonymousGtidLogEvent | GtidLogEvent => GtidKind
    case RotateEvent => RotateKind
    case PreviousGtidsLogEvent => PreviousGtidsKind
    case StopEvent => StopKind
    case BeginLoadQueryEvent => BeginLoadQueryKind
    case UserVarEvent => UserVarKind
    case ExecuteLoadQueryEvent => ExecuteLoadQueryKind
    case _ => DefaultKind
  }

  /** The rows event types, in both their version 1 and version 2 codes. */
  predicate IsRowsType(t: EventType) {
    t.WriteRowsEventV1? || t.UpdateRowsEventV1? || t.DeleteRowsEventV1?
    || t.WriteRowsEvent? || t.UpdateRowsEvent? || t.DeleteRowsEvent?
  }

  /** The types the switch names; every other type falls to the default. */
  predicate IsListedType(t: EventType) {
    IsRowsType(t) || t.FormatDescriptionEvent? || t.StartEventV3? || t.QueryEvent?
    || t.XidEvent? || t.TableMapEvent? || t.AnonymousGtidLogEvent? || t.GtidLogEvent?
    || t.RotateEvent? || t.PreviousGtidsLogEvent? || t.StopEvent? || t.BeginLoadQueryEvent?
    || t.UserVarEvent? || t.ExecuteLoadQueryEvent?
  }

  /** Exactly the six rows types are decoded as rows events. */
  lemma RowsTypesDecodeAsRows(t: EventType)
    ensures KindOf(t) == RowsKind <==> IsRowsType(t)
  {
  }

  /** Exactly the two GTID types are decoded as GTID events. */
  lemma GtidTypesDecodeAsGtid(t: EventType)
    ensures KindOf(t) == GtidKind <==> t.GtidLogEvent? || t.AnonymousGtidLogEvent?
  {
  }

  /** A type falls to the default body exactly when the switch does not
      name it. */
  lemma UnlistedTypesStayUndecoded(t: EventType)
    ensures KindOf(t) == DefaultKind <==> !IsListedType(t)
  {
  }

  /** The one type each other decoder is given. */
  function OwnType(k: BodyKind): EventType {
    match k
    case FormatDescriptionKind => FormatDescriptionEvent
    case StartV3Kind => StartEventV3
    case QueryKind => QueryEvent
    case XidKind => XidEvent
    case TableMapKind => TableMapEvent
    case RotateKind => RotateEvent
    case PreviousGtidsKind => PreviousGtidsLogEvent
    case StopKind => StopEvent
    case BeginLoadQueryKind => BeginLoadQueryEvent
    case UserVarKind => UserVarEvent
    case ExecuteLoadQueryKind => ExecuteLoadQueryEvent
    case _ => UnknownEvent
  }

  /** Every other decoder is given exactly one type: two types with the same
      decoder are equal unless it is the default, rows or GTID decoder. */
  lemma OwnDecoder(t: EventType)
    requires KindOf(t) != DefaultKind && KindOf(t) != RowsKind && KindOf(t) != GtidKind
    ensures t == OwnType(KindOf(t))
  {
  }

  /** What a body holds once decoded. The format-description, start and
      stop bodies read nothing; their getters consult the file's settings. */
  datatype Content =
    | Undecoded
    | FormatDescription
    | StartV3
    | Query(query: QueryEventBody)
    | Xid(xid: XidEventBody)
    | TableMap(tableMap: TableMapEventBody)
    | Rows(rows: RowsEventBody)
    | Gtid(gtid: GtidLogEventBody)
    | Rotate(rotate: RotateEventBody)
    | PreviousGtids(gtidSet: seq<string>)
    | Stop
    | BeginLoadQuery(beginLoad: BeginLoadQueryEventBody)
    | UserVar(userVar: UserVarEventBody)
    | ExecuteLoadQuery(executeLoad: ExecuteLoadQueryEventBody)
  {
    function Kind(): BodyKind {
      match this
      case Undecoded => DefaultKind
      case FormatDescription => FormatDescriptionKind
      case StartV3 => StartV3Kind
      case Query(_) => QueryKind
      case Xid(_) => XidKind
      case TableMap(_) => TableMapKind
      case Rows(_) => RowsKind
      case Gtid(_) => GtidKind
      case Rotate(_) => RotateKind
      case PreviousGtids(_) => PreviousGtidsKind
      case Stop => StopKind
      case BeginLoadQuery(_) => BeginLoadQueryKind
      case UserVar(_) => UserVarKind
      case ExecuteLoadQuery(_) => ExecuteLoadQueryKind
    }
  }

  /** A body: what every body keeps (EventBodyDefaultImpl), and its content. */
  datatype EventBody = EventBody(context: BodyContext, content: Content)

  /** The context a body is built with: its bytes, the header's body length,
      and the file's checksum length and byte order. */
  function ContextOf(bodyData: seq<byte>, header: EventHeader, meta: BinlogFileMeta): (c: BodyContext)
    reads header, meta
    ensures c.bodyData == bodyData && c.eventBodyLength == header.EventBodyLength()
    ensures c.checksumLength == meta.checksumLength && c.order == meta.order
  {
    BodyContext(bodyData, header.EventBodyLength(), meta.checksumLength, meta.order)
  }

  /** The decoders that cannot throw. */
  predicate NeverFails(k: BodyKind) {
    k == DefaultKind || k == FormatDescriptionKind || k == StartV3Kind || k == XidKind || k == StopKind
  }

  /** The content is what its decoder's own contract says it reads from ctx,
      for the decoders whose result is a plain value; the table map and rows
      bodies hold objects and are tied to their decoders by TableMapDecodes
      and RowsSpec. */
  predicate DecodedFrom(ctx: BodyContext, binlogVersion: int, c: Content) {
    match c
    case Query(q) => QueryEncodes(ctx, binlogVersion, q)
    case Xid(x) => x == DecodeXid(ctx)
    case Gtid(g) => GtidEventEncodes(ctx, g)
    case Rotate(b) => RotateEncodes(ctx, binlogVersion, b)
    case PreviousGtids(s) => PreviousGtidSet(ctx.bodyData) == Ok(s)
    case BeginLoadQuery(b) => DecodeBeginLoadQuery(ctx) == Ok(b)
    case UserVar(u) => UserVarEncodes(ctx, u)
    case ExecuteLoadQuery(e) => ExecuteLoadQueryEncodes(ctx, e)
    case _ => true
  }

  /** The table map body b holds what TableMapOf reads under the post-header
      length the file gives TABLE_MAP_EVENT. */
  predicate TableMapDecodes(ctx: BodyContext, meta: BinlogFileMeta, b: TableMapEventBody)
    reads meta, b.tableDefine
  {
    var postHeaderLength := meta.GetPostHeaderLength(TableMapEvent);
    postHeaderLength.Ok? && TableMapHolds(ctx, postHeaderLength.value, b)
  }

  /** What a rows event body is read as under the file's settings and table
      cache. */
  function RowsSpec(ctx: BodyContext, meta: BinlogFileMeta): Result<RowsEvent>
    reads meta, set id | id in meta.tableMapEventBodys :: meta.tableMapEventBodys[id].tableDefine
  {
    RowsOf(ScopeOf(ctx, meta.decodeString, meta.defaultCharsetName), meta.GetPostHeaderLength(TableMapEvent),
           ServerVersionText(meta.serverVersion), CachedColumns(meta))
  }

  method XidContent(ctx: BodyContext) returns (r: Result<Content>)
    ensures r.Ok? && r.value.Xid? && r.value.xid == DecodeXid(ctx)
  {
    r := Ok(Content.Xid(DecodeXid(ctx)));
  }

  method BeginLoadQueryContent(ctx: BodyContext) returns (r: Result<Content>)
    ensures r.Ok? ==> r.value.BeginLoadQuery? && DecodeBeginLoadQuery(ctx) == Ok(r.value.beginLoad)
  {
    var b :- DecodeBeginLoadQuery(ctx);
    r := Ok(Content.BeginLoadQuery(b));
  }

  method QueryContent(ctx: BodyContext, binlogVersion: int) returns (r: Result<Content>)
    ensures r.Ok? ==> r.value.Query? && QueryEncodes(ctx, binlogVersion, r.value.query)
  {
    var q :- DecodeQuery(ctx, binlogVersion);
    r := Ok(Content.Query(q));
  }

  method TableMapContent(ctx: BodyContext, meta: BinlogFileMeta) returns (r: Result<Content>)
    ensures r.Ok? <==> meta.GetPostHeaderLength(TableMapEvent).Ok?
                       && TableMapOf(ctx, meta.GetPostHeaderLength(TableMapEvent).value).Ok?
    ensures r.Ok? ==> r.value.TableMap? && TableMapDecodes(ctx, meta, r.value.tableMap)
  {
    var postHeaderLength :- meta.GetPostHeaderLength(TableMapEvent);
    var t :- DecodeTableMap(ctx, postHeaderLength);
    r := Ok(Content.TableMap(t));
  }

  method RowsContent(ctx: BodyContext, meta: BinlogFileMeta) returns (r: Result<Content>)
    ensures r.Ok? <==> RowsSpec(ctx, meta).Ok?
    ensures r.Err? ==> r.error == RowsSpec(ctx, meta).error
    ensures r.Ok? ==> r.value.Rows? && HoldsEvent(Ok(r.value.rows), RowsSpec(ctx, meta))
  {
    var rows :- DecodeRowsEvent(ctx, meta);
    r := Ok(Content.Rows(rows));
  }

  method GtidContent(ctx: BodyContext) returns (r: Result<Content>)
    ensures r.Ok? ==> r.value.Gtid? && GtidEventEncodes(ctx, r.value.gtid)
  {
    var g :- DecodeGtidEvent(ctx);
    r := Ok(Content.Gtid(g));
  }

  method RotateContent(ctx: BodyContext, binlogVersion: int) returns (r: Result<Content>)
    ensures r.Ok? ==> r.value.Rotate? && RotateEncodes(ctx, binlogVersion, r.value.rotate)
  {
    var rotate :- DecodeRotate(ctx, binlogVersion);
    r := Ok(Content.Rotate(rotate));
  }

  method PreviousGtidsContent(ctx: BodyContext) returns (r: Result<Content>)
    ensures r.Ok? ==> r.value.PreviousGtids? && PreviousGtidSet(ctx.bodyData) == Ok(r.value.gtidSet)
  {
    var s :- DecodePreviousGtids(ctx);
    r := Ok(Content.PreviousGtids(s));
  }

  method UserVarContent(ctx: BodyContext) returns (r: Result<Content>)
    ensures r.Ok? ==> r.value.UserVar? && UserVarEncodes(ctx, r.value.userVar)
  {
    var u :- DecodeUserVar(ctx);
    r := Ok(Content.UserVar(u));
  }

  method ExecuteLoadQueryContent(ctx: BodyContext) returns (r: Result<Content>)
    ensures r.Ok? ==> r.value.ExecuteLoadQuery? && ExecuteLoadQueryEncodes(ctx, r.value.executeLoad)
  {
    var e :- DecodeExecuteLoadQuery(ctx);
    r := Ok(Content.ExecuteLoadQuery(e));
  }

  /** The body the switch builds for a type whose decoder is k. */
  method DecodeContent(ctx: BodyContext, k: BodyKind, meta: BinlogFileMeta) returns (r: Result<Content>)
    ensures r.Ok? ==> r.value.Kind() == k && DecodedFrom(ctx, meta.binlogVersion, r.value)
    ensures NeverFails(k) ==> r.Ok?
    ensures r.Ok? && r.value.TableMap? ==> TableMapDecodes(ctx, meta, r.value.tableMap)
    ensures r.Ok? && r.value.Rows? ==> HoldsEvent(Ok(r.value.rows), RowsSpec(ctx, meta))
    ensures k == RowsKind ==> (r.Ok? <==> RowsSpec(ctx, meta).Ok?)
  {
    if k == TableMapKind {
      r := TableMapContent(ctx, meta);
    } else if k == RowsKind {
      r := RowsContent(ctx, meta);
    } else {
      r := DecodeValueContent(ctx, k, meta.binlogVersion);
    }
  }

  /** The switch for the decoders whose result is a plain value. */
  method DecodeValueContent(ctx: BodyContext, k: BodyKind, binlogVersion: int) returns (r: Result<Content>)
    requires k != TableMapKind && k != RowsKind
    ensures r.Ok? ==> r.value.Kind() == k && DecodedFrom(ctx, binlogVersion, r.value)
    ensures NeverFails(k) ==> r.Ok?
  {
    if IsCursorKind(k) {
      r := DecodeCursorContent(ctx, k, binlogVersion);
    } else {
      r := DecodeFixedContent(ctx, k, binlogVersion);
    }
  }

  /** The decoders that walk the body with a position cursor. */
  predicate IsCursorKind(k: BodyKind) {
    k == QueryKind || k == GtidKind || k == RotateKind || k == PreviousGtidsKind || k == UserVarKind
    || k == ExecuteLoadQueryKind
  }

  /** The switch for the bodies read by a cursor over their fields. */
  method DecodeCursorContent(ctx: BodyContext, k: BodyKind, binlogVersion: int) returns (r: Result<Content>)
    requires IsCursorKind(k)
    ensures r.Ok? ==> r.value.Kind() == k && DecodedFrom(ctx, binlogVersion, r.value)
  {
    match k
    case QueryKind => r := QueryContent(ctx, binlogVersion);
    case GtidKind => r := GtidContent(ctx);
    case RotateKind => r := RotateContent(ctx, binlogVersion);
    case PreviousGtidsKind => r := PreviousGtidsContent(ctx);
    case UserVarKind => r := UserVarContent(ctx);
    case ExecuteLoadQueryKind => r := ExecuteLoadQueryContent(ctx);
  }

  /** The switch for the bodies with no fields or with fixed-offset fields. */
  method DecodeFixedContent(ctx: BodyContext, k: BodyKind, binlogVersion: int) returns (r: Result<Content>)
    requires !IsCursorKind(k) && k != TableMapKind && k != RowsKind
    ensures r.Ok? ==> r.value.Kind() == k && DecodedFrom(ctx, binlogVersion, r.value)
    ensures NeverFails(k) ==> r.Ok?
  {
    match k
    case DefaultKind => r := Ok(Content.Undecoded);
    case FormatDescriptionKind => r := Ok(Content.FormatDescription);
    case StartV3Kind => r := Ok(Content.StartV3);
    case XidKind => r := XidContent(ctx);
    case StopKind => r := Ok(Content.Stop);
    case BeginLoadQueryKind => r := BeginLoadQueryContent(ctx);
  }

  /** createEventBody(bodyData, header, meta, isDecode). Without decoding,
      or for a type the switch does not name, the body stays undecoded; a
      header with no type makes the switch throw. */
  method CreateEventBody(bodyData: seq<byte>, header: EventHeader, meta: BinlogFileMeta, isDecode: bool)
    returns (r: Result<EventBody>)
    ensures r.Ok? ==> r.value.context == ContextOf(bodyData, header, meta)
    ensures !isDecode ==> r == Ok(EventBody(ContextOf(bodyData, header, meta), Undecoded))
    ensures isDecode && header.eventType.None? ==> r == Err(NullPointer)
    ensures isDecode && header.eventType.Some? && r.Ok? ==> r.value.content.Kind() == KindOf(header.eventType.value)
    ensures isDecode && header.eventType.Some? && NeverFails(KindOf(header.eventType.value)) ==> r.Ok?
    ensures r.Ok? ==> DecodedFrom(ContextOf(bodyData, header, meta), meta.binlogVersion, r.value.content)
    ensures r.Ok? && r.value.content.TableMap? ==>
      TableMapDecodes(ContextOf(bodyData, header, meta), meta, r.value.content.tableMap)
    ensures r.Ok? && r.value.content.Rows? ==>
      HoldsEvent(Ok(r.value.content.rows), RowsSpec(ContextOf(bodyData, header, meta), meta))
  {
    var ctx := ContextOf(bodyData, header, meta);
    if !isDecode {
      return Ok(EventBody(ctx, Undecoded));
    }
    if header.eventType.None? {
      return Err(NullPointer);
    }
    var content :- DecodeContent(ctx, KindOf(header.eventType.value), meta);
    r := Ok(EventBody(ctx, content));
  }
}
